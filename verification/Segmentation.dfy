/** Gap segmentation and de-duplication of tracks, and the assembly of trajectories per vessel. */
module Segmentation {
  import opened Wrappers
  import opened Sequences
  import opened Ordering
  import opened RdpTheory
  import opened Track

  type Segmented = seq<seq<TrackPoint>>

  /** Times are in microseconds. */
  predicate Near(a: TrackPoint, b: TrackPoint, gap: int) { b.occurredAt - a.occurredAt <= gap }

  ghost predicate Unbroken(s: seq<TrackPoint>, gap: int) {
    s != [] && forall i, j :: 0 <= i && j == i + 1 < |s| ==> Near(s[i], s[j], gap)
  }

  ghost predicate Broken(a: seq<TrackPoint>, b: seq<TrackPoint>, gap: int) {
    a != [] && b != [] && !Near(a[|a| - 1], b[0], gap)
  }

  /** The split promised: nothing lost or moved, no long gap inside, a long gap between. */
  ghost predicate IsGapSplit(points: seq<TrackPoint>, segments: Segmented, gap: int) {
    && Flatten(segments) == points
    && (forall i :: 0 <= i < |segments| ==> Unbroken(segments[i], gap))
    && (forall i, j :: 0 <= i && j == i + 1 < |segments| ==> Broken(segments[i], segments[j], gap))
  }

  function Segments(points: seq<TrackPoint>, gap: int): (r: Segmented)
    ensures r == [] <==> points == []
    ensures r != [] ==> r[|r| - 1] != [] && r[|r| - 1][|r[|r| - 1]| - 1] == points[|points| - 1]
  {
    if points == [] then []
    else if |points| == 1 then [points]
    else
      var n := |points| - 1;
      var before := Segments(points[..n], gap);
      var m := |before| - 1;
      if Near(points[n - 1], points[n], gap) then before[m := before[m] + [points[n]]]
      else before + [[points[n]]]
  }

  lemma {:induction false} FlattenLast(segments: Segmented, tail: seq<TrackPoint>)
    requires segments != []
    ensures var m := |segments| - 1;
      Flatten(segments[m := segments[m] + tail]) == Flatten(segments) + tail
  {
    var m := |segments| - 1;
    var front := segments[..m];
    assert segments == front + [segments[m]];
    assert segments[m := segments[m] + tail] == front + [segments[m] + tail];
    FlattenAppend(front, [segments[m]]);
    FlattenAppend(front, [segments[m] + tail]);
    assert Flatten([segments[m]]) == segments[m] && Flatten([segments[m] + tail]) == segments[m] + tail;
  }

  lemma ExtendSplit(points: seq<TrackPoint>, segments: Segmented, p: TrackPoint, gap: int)
    requires points != [] && IsGapSplit(points, segments, gap) && segments != []
    requires var last := segments[|segments| - 1]; last != [] && last[|last| - 1] == points[|points| - 1]
    ensures Near(points[|points| - 1], p, gap) ==>
      var m := |segments| - 1; IsGapSplit(points + [p], segments[m := segments[m] + [p]], gap)
    ensures !Near(points[|points| - 1], p, gap) ==> IsGapSplit(points + [p], segments + [[p]], gap)
  {
    var m := |segments| - 1;
    FlattenLast(segments, [p]);
    FlattenAppend(segments, [[p]]);
    assert Flatten([[p]]) == [p];
    if Near(points[|points| - 1], p, gap) {
      var longer := segments[m] + [p];
      assert Unbroken(longer, gap) by {
        forall i, j | 0 <= i && j == i + 1 < |longer| ensures Near(longer[i], longer[j], gap) {
          if j < |segments[m]| { assert Near(segments[m][i], segments[m][j], gap); }
        }
      }
      var after := segments[m := longer];
      forall i, j | 0 <= i && j == i + 1 < |after| ensures Broken(after[i], after[j], gap) {
        assert Broken(segments[i], segments[j], gap);
      }
    } else {
      var after := segments + [[p]];
      forall i, j | 0 <= i && j == i + 1 < |after| ensures Broken(after[i], after[j], gap) {
        if j < |segments| { assert Broken(segments[i], segments[j], gap); }
      }
    }
  }

  lemma {:induction false} SegmentsSplit(points: seq<TrackPoint>, gap: int)
    ensures IsGapSplit(points, Segments(points, gap), gap)
  {
    if |points| == 1 {
      assert Flatten([points]) == points;
    } else if |points| > 1 {
      var n := |points| - 1;
      SegmentsSplit(points[..n], gap);
      assert points == points[..n] + [points[n]];
      ExtendSplit(points[..n], Segments(points[..n], gap), points[n], gap);
    }
  }

  lemma SplitHead(points: seq<TrackPoint>, segments: Segmented, gap: int)
    requires IsGapSplit(points, segments, gap) && segments != []
    ensures segments[0] <= points && segments[0] != []
    ensures IsGapSplit(points[|segments[0]|..], segments[1..], gap)
    ensures |segments| > 1 ==> Broken(segments[0], points[|segments[0]|..], gap)
  {
    var head, rest := segments[0], segments[1..];
    assert Unbroken(head, gap);
    assert points == head + Flatten(rest);
    assert points[|head|..] == Flatten(rest);
    forall i | 0 <= i < |rest| ensures Unbroken(rest[i], gap) {
      assert rest[i] == segments[i + 1];
    }
    forall i, j | 0 <= i && j == i + 1 < |rest| ensures Broken(rest[i], rest[j], gap) {
      assert rest[i] == segments[i + 1] && rest[j] == segments[j + 1];
    }
    if |segments| > 1 {
      assert Broken(segments[0], segments[1], gap);
      assert rest[0] != [] && Flatten(rest)[0] == rest[0][0];
    }
  }

  lemma HeadLengths(points: seq<TrackPoint>, a: Segmented, b: Segmented, gap: int)
    requires IsGapSplit(points, a, gap) && IsGapSplit(points, b, gap) && a != [] && b != []
    ensures |a[0]| <= |b[0]|
  {
    SplitHead(points, a, gap);
    SplitHead(points, b, gap);
    assert Unbroken(a[0], gap);
    assert |b| > 1 ==> Broken(b[0], points[|b[0]|..], gap);
    assert b[1..] == [] ==> Flatten(b[1..]) == [];
  }

  /** There is one such split. */
  lemma {:induction false} GapSplitUnique(points: seq<TrackPoint>, a: Segmented, b: Segmented, gap: int)
    requires IsGapSplit(points, a, gap) && IsGapSplit(points, b, gap)
    ensures a == b
    decreases |a|
  {
    if a == [] || b == [] {
      if a != [] { SplitHead(points, a, gap); }
      if b != [] { SplitHead(points, b, gap); }
    } else {
      HeadLengths(points, a, b, gap);
      HeadLengths(points, b, a, gap);
      SplitHead(points, a, gap);
      SplitHead(points, b, gap);
      assert a[0] == b[0];
      GapSplitUnique(points[|a[0]|..], a[1..], b[1..], gap);
      assert a == [a[0]] + a[1..] && b == [b[0]] + b[1..];
    }
  }

  /** `segment_track` */
  method SegmentTrack(points: seq<TrackPoint>, gap: int) returns (r: Result<Segmented, TrackError>)
    ensures r.Ok? <==> gap > 0
    ensures r.Ok? ==> r.value == Segments(points, gap) && IsGapSplit(points, r.value, gap)
    ensures r.Err? ==> r.error == BadGapThreshold
  {
    if gap <= 0 {
      return Err(BadGapThreshold);
    }
    if points == [] {
      return Ok([]);
    }
    var segments: Segmented := [[points[0]]];
    assert points[..1] == [points[0]];
    for i := 1 to |points|
      invariant segments == Segments(points[..i], gap)
    {
      assert points[..i + 1][..i] == points[..i];
      if points[i].occurredAt - points[i - 1].occurredAt > gap {
        segments := segments + [[points[i]]];
      } else {
        var m := |segments| - 1;
        segments := segments[m := segments[m] + [points[i]]];
      }
    }
    assert points[..|points|] == points;
    SegmentsSplit(points, gap);
    return Ok(segments);
  }

  // ---- the batch job's form: lag, new-segment flag, running sum ----

  const MICROS: int := 1_000_000

  /** Timestamps cast to whole seconds. */
  function Epoch(p: TrackPoint): int { p.occurredAt / MICROS }

  /** The threshold is in microseconds here as well; the job compares whole seconds with it. */
  function NewSegment(points: seq<TrackPoint>, k: nat, gap: int): nat
    requires k < |points|
  {
    if k == 0 then 1 else if (Epoch(points[k]) - Epoch(points[k - 1])) * MICROS > gap then 1 else 0
  }

  function RunningSum(points: seq<TrackPoint>, k: nat, gap: int): nat
    requires k < |points|
  {
    NewSegment(points, k, gap) + if k == 0 then 0 else RunningSum(points, k - 1, gap)
  }

  /** The segment that holds position `k`. */
  function SegmentIndex(segments: Segmented, k: nat): nat {
    if segments == [] || k < |segments[0]| then 0 else 1 + SegmentIndex(segments[1..], k - |segments[0]|)
  }

  lemma PrefixCount(points: seq<TrackPoint>, k: nat, gap: int)
    requires k < |points|
    ensures |Segments(points[..k + 1], gap)| ==
            if k == 0 then 1
            else |Segments(points[..k], gap)| + if Near(points[k - 1], points[k], gap) then 0 else 1
  {
    assert points[..k + 1][..k] == points[..k];
  }

  lemma {:induction false} IndexInPrefix(
      a: Segmented, last: seq<TrackPoint>, tail: seq<TrackPoint>, more: Segmented, k: nat)
    requires last != [] && k + 1 == |Flatten(a + [last])|
    ensures SegmentIndex(a + [last + tail] + more, k) == |a|
  {
    var all := a + [last + tail] + more;
    if a == [] {
      assert all[0] == last + tail;
      assert Flatten([] + [last]) == last;
    } else {
      assert all[0] == a[0] && all[1..] == a[1..] + [last + tail] + more;
      assert (a + [last])[1..] == a[1..] + [last];
      FlattenAppend(a[1..], [last]);
      assert Flatten([last]) == last;
      IndexInPrefix(a[1..], last, tail, more, k - |a[0]|);
    }
  }

  lemma ExtendLast(q: seq<TrackPoint>, p: TrackPoint, gap: int, front: Segmented, last: seq<TrackPoint>, tail: seq<TrackPoint>)
    returns (tail': seq<TrackPoint>, more': Segmented)
    requires q != [] && Segments(q, gap) == front + [last + tail]
    ensures Segments(q + [p], gap) == front + [last + tail'] + more'
  {
    if Near(q[|q| - 1], p, gap) {
      tail', more' := tail + [p], [];
      assert last + tail + [p] == last + tail';
      assert front + [last + tail'] == front + [last + tail'] + more';
    } else {
      tail', more' := tail, [[p]];
    }
  }

  lemma ExtendMore(q: seq<TrackPoint>, p: TrackPoint, gap: int, start: Segmented, more: Segmented)
    returns (more': Segmented)
    requires q != [] && more != [] && Segments(q, gap) == start + more
    ensures Segments(q + [p], gap) == start + more'
  {
    var init, end := more[..|more| - 1], more[|more| - 1];
    assert start + more == (start + init) + [end];
    if Near(q[|q| - 1], p, gap) {
      more' := init + [end + [p]];
      assert start + init + [end + [p]] == start + more';
    } else {
      more' := more + [[p]];
      assert start + init + [end] + [[p]] == start + more';
    }
  }

  /** The segments of a longer track extend those of its prefix. */
  lemma {:induction false} PrefixSegments(
      points: seq<TrackPoint>, k: nat, gap: int, front: Segmented, last: seq<TrackPoint>)
    returns (tail: seq<TrackPoint>, more: Segmented)
    requires 0 < k <= |points| && Segments(points[..k], gap) == front + [last]
    ensures Segments(points, gap) == front + [last + tail] + more
  {
    if k == |points| {
      assert points[..k] == points && last + [] == last;
      tail, more := [], [];
    } else {
      var q, p := points[..|points| - 1], points[|points| - 1];
      assert points == q + [p] && q[..k] == points[..k];
      tail, more := PrefixSegments(q, k, gap, front, last);
      if more == [] {
        tail, more := ExtendLast(q, p, gap, front, last, tail);
      } else {
        more := ExtendMore(q, p, gap, front + [last + tail], more);
      }
    }
  }

  /** A position lies in the last segment of the track that ends with it. */
  lemma IndexIsPrefixCount(points: seq<TrackPoint>, k: nat, gap: int)
    requires k < |points|
    ensures SegmentIndex(Segments(points, gap), k) == |Segments(points[..k + 1], gap)| - 1
  {
    var prefix := Segments(points[..k + 1], gap);
    var m := |prefix| - 1;
    SegmentsSplit(points[..k + 1], gap);
    assert prefix == prefix[..m] + [prefix[m]];
    var tail, more := PrefixSegments(points, k + 1, gap, prefix[..m], prefix[m]);
    IndexInPrefix(prefix[..m], prefix[m], tail, more, k);
  }

  /** The index grows by one exactly at the points after a long gap. */
  lemma IndexSteps(points: seq<TrackPoint>, k: nat, gap: int)
    requires k < |points|
    ensures SegmentIndex(Segments(points, gap), k) ==
            if k == 0 then 0
            else SegmentIndex(Segments(points, gap), k - 1) + if Near(points[k - 1], points[k], gap) then 0 else 1
  {
    IndexIsPrefixCount(points, k, gap);
    PrefixCount(points, k, gap);
    if k > 0 { IndexIsPrefixCount(points, k - 1, gap); }
  }

  /** The job and the reference make the same of the gap before position `k`. */
  predicate SameCut(points: seq<TrackPoint>, k: nat, gap: int)
    requires 0 < k < |points|
  {
    Near(points[k - 1], points[k], gap) <==> NewSegment(points, k, gap) == 0
  }

  predicate SameIndex(points: seq<TrackPoint>, k: nat, gap: int)
    requires k < |points|
  {
    RunningSum(points, k, gap) - 1 == SegmentIndex(Segments(points, gap), k)
  }

  lemma {:induction false} SameCutsSameIndex(points: seq<TrackPoint>, k: nat, gap: int)
    requires k < |points| && forall i: nat :: 0 < i < |points| ==> SameCut(points, i, gap)
    ensures SameIndex(points, k, gap)
  {
    IndexSteps(points, k, gap);
    if k > 0 {
      assert SameCut(points, k, gap);
      SameCutsSameIndex(points, k - 1, gap);
    }
  }

  /**
   * The job's running sum numbers every position by the segment `segment_track` puts it in exactly when no gap
   * changes sides of the threshold as its ends are truncated to seconds.
   */
  lemma JobNumbersSegments(points: seq<TrackPoint>, gap: int)
    ensures (forall k: nat :: k < |points| ==> SameIndex(points, k, gap)) <==>
            (forall k: nat :: 0 < k < |points| ==> SameCut(points, k, gap))
  {
    if forall k: nat :: 0 < k < |points| ==> SameCut(points, k, gap) {
      forall k: nat | k < |points| ensures SameIndex(points, k, gap) { SameCutsSameIndex(points, k, gap); }
    }
    if forall k: nat :: k < |points| ==> SameIndex(points, k, gap) {
      forall k: nat | 0 < k < |points| ensures SameCut(points, k, gap) {
        assert SameIndex(points, k, gap) && SameIndex(points, k - 1, gap);
        IndexSteps(points, k, gap);
      }
    }
  }

  ghost predicate WholeSeconds(points: seq<TrackPoint>) {
    forall i :: 0 <= i < |points| ==> points[i].occurredAt % MICROS == 0
  }

  /** On times in whole seconds the two forms agree, whatever the threshold. */
  lemma WholeSecondsAgree(points: seq<TrackPoint>, gap: int)
    requires WholeSeconds(points)
    ensures forall k: nat :: k < |points| ==> SameIndex(points, k, gap)
  {
    forall k: nat | 0 < k < |points| ensures SameCut(points, k, gap) {
      assert points[k].occurredAt == Epoch(points[k]) * MICROS;
      assert points[k - 1].occurredAt == Epoch(points[k - 1]) * MICROS;
    }
    JobNumbersSegments(points, gap);
  }

  /** For a threshold in whole seconds the job cuts only where the reference cuts: it can only join segments. */
  lemma {:induction false} JobOnlyJoins(points: seq<TrackPoint>, k: nat, gap: int)
    requires gap % MICROS == 0 && k < |points|
    ensures k > 0 && NewSegment(points, k, gap) == 1 ==> !Near(points[k - 1], points[k], gap)
    ensures 1 <= RunningSum(points, k, gap) <= SegmentIndex(Segments(points, gap), k) + 1
  {
    IndexSteps(points, k, gap);
    if k > 0 { JobOnlyJoins(points, k - 1, gap); }
  }

  lemma TwoPoints(a: TrackPoint, b: TrackPoint, gap: int)
    ensures |Segments([a, b], gap)| == (if Near(a, b, gap) then 1 else 2)
    ensures RunningSum([a, b], 1, gap) == (if (Epoch(b) - Epoch(a)) * MICROS > gap then 2 else 1)
  {
    assert [a, b][..1] == [a];
    assert RunningSum([a, b], 0, gap) == 1;
  }

  /**
   * With fractions of a second the two forms can differ: the job joins over a gap half a second too long, and cuts
   * at a gap of half a second that the threshold of 0.7 seconds allows.
   */
  lemma FractionsOfSecondsDiffer(a: TrackPoint, b: TrackPoint)
    ensures a.occurredAt == 0 && b.occurredAt == 7_200_500_000 ==>
      |Segments([a, b], 7200 * MICROS)| == 2 && RunningSum([a, b], 1, 7200 * MICROS) == 1
    ensures a.occurredAt == 500_000 && b.occurredAt == 1_000_000 ==>
      |Segments([a, b], 700_000)| == 1 && RunningSum([a, b], 1, 700_000) == 2
  {
    TwoPoints(a, b, 7200 * MICROS);
    TwoPoints(a, b, 700_000);
  }

  // ---- dropping repeated points ----

  predicate SamePlace(a: TrackPoint, b: TrackPoint) {
    a.occurredAt == b.occurredAt && a.longitude == b.longitude && a.latitude == b.latitude
  }

  function Dedup(points: seq<TrackPoint>): (r: seq<TrackPoint>)
    ensures |r| <= |points| && (r == [] <==> points == [])
    ensures r != [] ==> SamePlace(r[|r| - 1], points[|points| - 1])
  {
    if points == [] then []
    else
      var n := |points| - 1;
      var kept := Dedup(points[..n]);
      if kept != [] && SamePlace(kept[|kept| - 1], points[n]) then kept else kept + [points[n]]
  }

  method DropDuplicates(ordered: seq<TrackPoint>) returns (kept: seq<TrackPoint>, dropped: nat)
    ensures kept == Dedup(ordered) && |kept| + dropped == |ordered|
  {
    kept, dropped := [], 0;
    for i := 0 to |ordered|
      invariant kept == Dedup(ordered[..i]) && |kept| + dropped == i
    {
      assert ordered[..i + 1][..i] == ordered[..i];
      if kept != [] && SamePlace(kept[|kept| - 1], ordered[i]) {
        dropped := dropped + 1;
      } else {
        kept := kept + [ordered[i]];
      }
    }
    assert ordered[..|ordered|] == ordered;
  }

  function DedupEach(segments: Segmented): (r: Segmented)
    ensures |r| == |segments|
  {
    if segments == [] then []
    else DedupEach(segments[..|segments| - 1]) + [Dedup(segments[|segments| - 1])]
  }

  lemma DedupAppend(q: seq<TrackPoint>, p: TrackPoint)
    requires q != []
    ensures Dedup(q + [p]) == if SamePlace(q[|q| - 1], p) then Dedup(q) else Dedup(q) + [p]
  {
    assert (q + [p])[..|q|] == q;
  }

  lemma DedupEachLast(front: Segmented, last: seq<TrackPoint>)
    ensures DedupEach(front + [last]) == DedupEach(front) + [Dedup(last)]
  {
    assert (front + [last])[..|front|] == front;
  }

  /** The segments after a new point. */
  function AfterNew(front: Segmented, last: seq<TrackPoint>, p: TrackPoint, near: bool): Segmented {
    if near then front + [last + [p]] else front + [last] + [[p]]
  }

  lemma SegmentsNext(q: seq<TrackPoint>, p: TrackPoint, gap: int, front: Segmented, last: seq<TrackPoint>)
    requires q != [] && Segments(q, gap) == front + [last]
    ensures Segments(q + [p], gap) == AfterNew(front, last, p, Near(q[|q| - 1], p, gap))
  {
    assert (q + [p])[..|q|] == q;
    assert (front + [last])[|front| := last + [p]] == front + [last + [p]];
  }

  lemma CommuteAtDuplicate(q: seq<TrackPoint>, p: TrackPoint, gap: int, front: Segmented, last: seq<TrackPoint>)
    requires gap > 0 && q != [] && SamePlace(q[|q| - 1], p)
    requires Segments(q, gap) == front + [last] && last != [] && last[|last| - 1] == q[|q| - 1]
    ensures Dedup(q + [p]) == Dedup(q)
    ensures DedupEach(Segments(q + [p], gap)) == DedupEach(front + [last])
  {
    SegmentsNext(q, p, gap, front, last);
    DedupAppend(q, p);
    DedupAppend(last, p);
    DedupEachLast(front, last + [p]);
    DedupEachLast(front, last);
  }

  lemma DropThenSplit(q: seq<TrackPoint>, p: TrackPoint, gap: int, front: Segmented, last: seq<TrackPoint>)
    requires q != [] && !SamePlace(q[|q| - 1], p) && Segments(Dedup(q), gap) == front + [last]
    ensures Segments(Dedup(q + [p]), gap) == AfterNew(front, last, p, Near(q[|q| - 1], p, gap))
  {
    DedupAppend(q, p);
    SegmentsNext(Dedup(q), p, gap, front, last);
  }

  lemma DedupEachNew(front: Segmented, last: seq<TrackPoint>, p: TrackPoint, near: bool)
    requires last != [] && !SamePlace(last[|last| - 1], p)
    ensures DedupEach(AfterNew(front, last, p, near)) == AfterNew(DedupEach(front), Dedup(last), p, near)
  {
    if near {
      DedupAppend(last, p);
      DedupEachLast(front, last + [p]);
    } else {
      DedupEachLast(front, last);
      DedupEachLast(front + [last], [p]);
      assert [p][..0] == [] && Dedup([p]) == [p];
    }
  }

  lemma SplitThenDrop(q: seq<TrackPoint>, p: TrackPoint, gap: int, front: Segmented, last: seq<TrackPoint>)
    requires q != [] && !SamePlace(q[|q| - 1], p)
    requires Segments(q, gap) == front + [last] && last != [] && last[|last| - 1] == q[|q| - 1]
    ensures DedupEach(Segments(q + [p], gap)) ==
            AfterNew(DedupEach(front), Dedup(last), p, Near(q[|q| - 1], p, gap))
  {
    SegmentsNext(q, p, gap, front, last);
    DedupEachNew(front, last, p, Near(q[|q| - 1], p, gap));
  }

  /** Dropping duplicates before segmentation is dropping them in each segment. */
  lemma {:induction false} DedupCommutes(points: seq<TrackPoint>, gap: int)
    requires gap > 0
    ensures Segments(Dedup(points), gap) == DedupEach(Segments(points, gap))
  {
    if |points| == 1 {
      assert points[..0] == [] && Dedup(points) == points;
      assert DedupEach([points]) == [points];
    } else if |points| > 1 {
      var q, p := points[..|points| - 1], points[|points| - 1];
      assert points == q + [p];
      DedupCommutes(q, gap);
      var segments := Segments(q, gap);
      var front, last := segments[..|segments| - 1], segments[|segments| - 1];
      assert segments == front + [last];
      if SamePlace(q[|q| - 1], p) {
        CommuteAtDuplicate(q, p, gap, front, last);
      } else {
        DedupEachLast(front, last);
        DropThenSplit(q, p, gap, DedupEach(front), Dedup(last));
        SplitThenDrop(q, p, gap, front, last);
      }
    }
  }

  // ---- assembly per vessel ----

  datatype Observation = Observation(mmsi: string, point: TrackPoint)

  datatype TrajectoryRow = TrajectoryRow(
    mmsi: string, segmentIndex: nat, segment: seq<TrackPoint>, simplified: seq<TrackPoint>, duplicatesDropped: nat)

  /** The points of one vessel in the order they were read. */
  function TrackOf(observations: seq<Observation>, mmsi: string): seq<TrackPoint> {
    if observations == [] then []
    else
      var n := |observations| - 1;
      var before := TrackOf(observations[..n], mmsi);
      if observations[n].mmsi == mmsi then before + [observations[n].point] else before
  }

  function Vessels(observations: seq<Observation>): set<string> { set o | o in observations :: o.mmsi }

  method GroupTracks(observations: seq<Observation>) returns (tracks: map<string, seq<TrackPoint>>)
    ensures tracks.Keys == Vessels(observations)
    ensures forall mmsi :: mmsi in tracks ==> tracks[mmsi] == TrackOf(observations, mmsi)
  {
    tracks := map[];
    for i := 0 to |observations|
      invariant tracks.Keys == Vessels(observations[..i])
      invariant forall mmsi :: TrackOf(observations[..i], mmsi) == if mmsi in tracks then tracks[mmsi] else []
    {
      var o := observations[i];
      assert observations[..i + 1] == observations[..i] + [o];
      assert forall x :: x in observations[..i + 1] <==> x in observations[..i] || x == o;
      tracks := tracks[o.mmsi := (if o.mmsi in tracks then tracks[o.mmsi] else []) + [o.point]];
      forall mmsi ensures TrackOf(observations[..i + 1], mmsi) == if mmsi in tracks then tracks[mmsi] else [] {
        assert observations[..i + 1][..i] == observations[..i];
      }
    }
    assert observations[..|observations|] == observations;
  }

  function EventKey(p: TrackPoint): seq<int> { [p.occurredAt] + Codes(p.eventId) }

  predicate EventLe(a: TrackPoint, b: TrackPoint) { LexLe(EventKey(a), EventKey(b)) }

  lemma EventOrder()
    ensures TotalPreorder(EventLe)
    ensures forall a, b :: EventLe(a, b) && EventLe(b, a) ==> a.occurredAt == b.occurredAt && a.eventId == b.eventId
  {
    forall a, b ensures EventLe(a, b) || EventLe(b, a) { LexTotal(EventKey(a), EventKey(b)); }
    forall a, b, c | EventLe(a, b) && EventLe(b, c) ensures EventLe(a, c) {
      LexTransitive(EventKey(a), EventKey(b), EventKey(c));
    }
    forall a, b | EventLe(a, b) && EventLe(b, a) ensures a.occurredAt == b.occurredAt && a.eventId == b.eventId {
      LexAntisymmetric(EventKey(a), EventKey(b));
      assert EventKey(a)[0] == EventKey(b)[0] && EventKey(a)[1..] == Codes(a.eventId);
      assert EventKey(b)[1..] == Codes(b.eventId);
      CodesInjective(a.eventId, b.eventId);
    }
  }

  /** The vessel's segments: time order, without repeated points, split at gaps. */
  function VesselSegments(track: seq<TrackPoint>, gap: int): Segmented {
    Segments(Dedup(Sort(EventLe, track)), gap)
  }

  function PointCount(segments: Segmented): nat {
    if segments == [] then 0 else |segments[0]| + PointCount(segments[1..])
  }

  lemma {:induction false} PointCountFlatten(segments: Segmented)
    ensures PointCount(segments) == |Flatten(segments)|
  {
    if segments != [] { PointCountFlatten(segments[1..]); }
  }

  /** Per vessel, the points of all segments and the dropped duplicates are the observations. */
  lemma ObservationsConserved(track: seq<TrackPoint>, gap: int)
    ensures PointCount(VesselSegments(track, gap)) + Dropped(track) == |track|
  {
    SegmentsSplit(Dedup(Sort(EventLe, track)), gap);
    PointCountFlatten(VesselSegments(track, gap));
  }

  lemma {:induction false} TrackOfMultiset(observations: seq<Observation>, mmsi: string, p: TrackPoint)
    ensures multiset(TrackOf(observations, mmsi))[p] == multiset(observations)[Observation(mmsi, p)]
  {
    if observations != [] {
      var n := |observations| - 1;
      TrackOfMultiset(observations[..n], mmsi, p);
      assert observations == observations[..n] + [observations[n]];
    }
  }

  /** No two observations of one vessel have the same time and id. */
  ghost predicate DistinctEvents(track: seq<TrackPoint>) {
    forall i, j :: 0 <= i < j < |track| ==> EventKey(track[i]) != EventKey(track[j])
  }

  lemma TrackPermutation(a: seq<Observation>, b: seq<Observation>, mmsi: string)
    requires multiset(a) == multiset(b)
    ensures multiset(TrackOf(a, mmsi)) == multiset(TrackOf(b, mmsi))
    ensures |TrackOf(a, mmsi)| == |TrackOf(b, mmsi)|
  {
    var s, t := TrackOf(a, mmsi), TrackOf(b, mmsi);
    forall p ensures multiset(s)[p] == multiset(t)[p] {
      TrackOfMultiset(a, mmsi, p);
      TrackOfMultiset(b, mmsi, p);
    }
    SameElements(s, t);
  }

  lemma DistinctEventsOrder(track: seq<TrackPoint>)
    requires DistinctEvents(track)
    ensures TotalPreorder(EventLe) && AntisymmetricOn(EventLe, track)
  {
    EventOrder();
    forall x, y | x in track && y in track && EventLe(x, y) && EventLe(y, x) ensures x == y {
      var i :| 0 <= i < |track| && track[i] == x;
      var j :| 0 <= j < |track| && track[j] == y;
      assert EventKey(x) == EventKey(y);
    }
  }

  /** Whatever the order of the rows read, a vessel with distinct event keys gets the same segments. */
  lemma InputOrderIrrelevant(a: seq<Observation>, b: seq<Observation>, mmsi: string, gap: int)
    requires multiset(a) == multiset(b) && DistinctEvents(TrackOf(a, mmsi))
    ensures VesselSegments(TrackOf(a, mmsi), gap) == VesselSegments(TrackOf(b, mmsi), gap)
    ensures Dropped(TrackOf(a, mmsi)) == Dropped(TrackOf(b, mmsi))
  {
    TrackPermutation(a, b, mmsi);
    DistinctEventsOrder(TrackOf(a, mmsi));
    SortPermutation(EventLe, TrackOf(a, mmsi), TrackOf(b, mmsi));
  }

  method SimplifySegment(off: Metric, segment: seq<TrackPoint>, tolerance: real)
    returns (r: Result<seq<TrackPoint>, TrackError>)
    requires NonNegative(off)
    ensures r.Ok? <==> |segment| <= 2 || tolerance > 0.0
    ensures r.Ok? ==> SimplifiedFrom(off, segment, tolerance, r.value)
    ensures r.Err? ==> r.error == BadTolerance
  {
    ghost var k, indices;
    r, k, indices := SimplifyPreservingTopology(off, segment, tolerance);
    assert r.Ok? ==> SimplifiedAt(off, segment, tolerance, r.value, k, indices);
  }

  ghost predicate RowFor(
      off: Metric, row: TrajectoryRow, mmsi: string, i: nat, segment: seq<TrackPoint>, dropped: nat, tolerance: real)
  {
    && row.mmsi == mmsi && row.segmentIndex == i && row.segment == segment && row.duplicatesDropped == dropped
    && SimplifiedFrom(off, segment, tolerance, row.simplified)
  }

  ghost predicate RowsFor(
      off: Metric, rows: seq<TrajectoryRow>, mmsi: string, segments: Segmented, dropped: nat, tolerance: real)
  {
    |rows| == |segments| &&
    forall i :: 0 <= i < |rows| ==> RowFor(off, rows[i], mmsi, i, segments[i], dropped, tolerance)
  }

  method SegmentRows(off: Metric, mmsi: string, segments: Segmented, dropped: nat, tolerance: real)
    returns (r: Result<seq<TrajectoryRow>, TrackError>)
    requires NonNegative(off)
    ensures r.Ok? ==> RowsFor(off, r.value, mmsi, segments, dropped, tolerance)
    ensures r.Ok? <==> tolerance > 0.0 || forall i :: 0 <= i < |segments| ==> |segments[i]| <= 2
  {
    var rows: seq<TrajectoryRow> := [];
    for i := 0 to |segments|
      invariant |rows| == i
      invariant forall j :: 0 <= j < i ==> RowFor(off, rows[j], mmsi, j, segments[j], dropped, tolerance)
      invariant tolerance > 0.0 || forall j :: 0 <= j < i ==> |segments[j]| <= 2
    {
      var simplified := SimplifySegment(off, segments[i], tolerance);
      if simplified.Err? {
        return Err(simplified.error);
      }
      var row := TrajectoryRow(mmsi, i, segments[i], simplified.value, dropped);
      assert RowFor(off, row, mmsi, i, segments[i], dropped, tolerance);
      rows := rows + [row];
    }
    return Ok(rows);
  }

  function Dropped(track: seq<TrackPoint>): nat { |track| - |Dedup(Sort(EventLe, track))| }

  method AssembleVessel(off: Metric, mmsi: string, track: seq<TrackPoint>, gap: int, tolerance: real)
    returns (r: Result<seq<TrajectoryRow>, TrackError>)
    requires NonNegative(off)
    ensures r.Ok? ==> RowsFor(off, r.value, mmsi, VesselSegments(track, gap), Dropped(track), tolerance)
    ensures gap > 0 && tolerance > 0.0 ==> r.Ok?
  {
    var ordered := Sort(EventLe, track);
    var kept, dropped := DropDuplicates(ordered);
    var segmented := SegmentTrack(kept, gap);
    if segmented.Err? {
      return Err(segmented.error);
    }
    r := SegmentRows(off, mmsi, segmented.value, dropped, tolerance);
  }

  /** The rows of all vessels, one vessel after the other in the order of their numbers. */
  ghost predicate RowsByVessel(
      off: Metric, parts: seq<seq<TrajectoryRow>>, vessels: seq<string>, observations: seq<Observation>,
      gap: int, tolerance: real)
  {
    Related((part: seq<TrajectoryRow>, vessel: string) => VesselRows(off, part, vessel, observations, gap, tolerance),
            parts, vessels)
  }

  ghost predicate VesselRows(
      off: Metric, part: seq<TrajectoryRow>, vessel: string, observations: seq<Observation>, gap: int, tolerance: real)
  {
    var track := TrackOf(observations, vessel);
    RowsFor(off, part, vessel, VesselSegments(track, gap), Dropped(track), tolerance)
  }

  lemma OneMoreVessel(
      off: Metric, parts: seq<seq<TrajectoryRow>>, order: seq<string>, i: nat, part: seq<TrajectoryRow>,
      observations: seq<Observation>, gap: int, tolerance: real)
    requires i < |order| && RowsByVessel(off, parts, order[..i], observations, gap, tolerance)
    requires VesselRows(off, part, order[i], observations, gap, tolerance)
    ensures RowsByVessel(off, parts + [part], order[..i + 1], observations, gap, tolerance)
    ensures Flatten(parts + [part]) == Flatten(parts) + part
  {
    FlattenAppend(parts, [part]);
    assert Flatten([part]) == part;
    RelatedOneMore(
      (part: seq<TrajectoryRow>, vessel: string) => VesselRows(off, part, vessel, observations, gap, tolerance),
      parts, order[..i], part, order[i]);
    assert order[..i + 1] == order[..i] + [order[i]];
  }

  /** The rows are those of all vessels, in the order of their numbers. */
  ghost predicate Assembled(off: Metric, rows: seq<TrajectoryRow>, observations: seq<Observation>, gap: int, tolerance: real)
  {
    exists parts, vessels :: AssembledFrom(off, rows, parts, vessels, observations, gap, tolerance)
  }

  ghost predicate AssembledFrom(
      off: Metric, rows: seq<TrajectoryRow>, parts: seq<seq<TrajectoryRow>>, vessels: seq<string>,
      observations: seq<Observation>, gap: int, tolerance: real)
  {
    && Sorted(TextLe, vessels) && Distinct(vessels) && (set v | v in vessels) == Vessels(observations)
    && rows == Flatten(parts) && RowsByVessel(off, parts, vessels, observations, gap, tolerance)
  }

  lemma RowsUnique(off: Metric, a: seq<TrajectoryRow>, b: seq<TrajectoryRow>, mmsi: string, segments: Segmented,
                   dropped: nat, tolerance: real)
    requires RowsFor(off, a, mmsi, segments, dropped, tolerance) && RowsFor(off, b, mmsi, segments, dropped, tolerance)
    ensures a == b
  {
    forall i | 0 <= i < |a| ensures a[i] == b[i] {
      assert RowFor(off, a[i], mmsi, i, segments[i], dropped, tolerance);
      assert RowFor(off, b[i], mmsi, i, segments[i], dropped, tolerance);
      SimplifiedUnique(off, segments[i], tolerance, a[i].simplified, b[i].simplified);
    }
  }

  lemma SameVessels(a: seq<Observation>, b: seq<Observation>, v: seq<string>, w: seq<string>)
    requires multiset(a) == multiset(b)
    requires Sorted(TextLe, v) && Distinct(v) && (set x | x in v) == Vessels(a)
    requires Sorted(TextLe, w) && Distinct(w) && (set x | x in w) == Vessels(b)
    ensures v == w
  {
    SameElements(a, b);
    assert Vessels(a) == Vessels(b);
    forall x: string ensures x in v <==> x in w {
      assert x in v <==> x in Vessels(a);
      assert x in w <==> x in Vessels(b);
    }
    DistinctSameElements(v, w);
    TextOrder();
    SortedUnique(TextLe, v, w);
  }

  /** The rows of the table do not depend on the order the observations are read in. */
  lemma AssemblyIgnoresRowOrder(off: Metric, a: seq<Observation>, b: seq<Observation>, gap: int, tolerance: real,
                                rows: seq<TrajectoryRow>, others: seq<TrajectoryRow>)
    requires multiset(a) == multiset(b) && forall mmsi :: DistinctEvents(TrackOf(a, mmsi))
    requires Assembled(off, rows, a, gap, tolerance) && Assembled(off, others, b, gap, tolerance)
    ensures rows == others
  {
    var parts, vessels :| AssembledFrom(off, rows, parts, vessels, a, gap, tolerance);
    var parts', vessels' :| AssembledFrom(off, others, parts', vessels', b, gap, tolerance);
    SameVessels(a, b, vessels, vessels');
    forall i | 0 <= i < |parts| ensures parts[i] == parts'[i] {
      var mmsi := vessels[i];
      assert VesselRows(off, parts[i], mmsi, a, gap, tolerance) && VesselRows(off, parts'[i], mmsi, b, gap, tolerance);
      InputOrderIrrelevant(a, b, mmsi, gap);
      RowsUnique(off, parts[i], parts'[i], mmsi, VesselSegments(TrackOf(a, mmsi), gap), Dropped(TrackOf(a, mmsi)),
                 tolerance);
    }
    assert parts == parts';
  }

  /** `assemble_vessel_trajectories` */
  method AssembleTrajectories(off: Metric, observations: seq<Observation>, gap: int, tolerance: real)
    returns (r: Result<seq<TrajectoryRow>, TrackError>, ghost parts: seq<seq<TrajectoryRow>>, ghost vessels: seq<string>)
    requires NonNegative(off)
    ensures Sorted(TextLe, vessels) && Distinct(vessels) && (set v | v in vessels) == Vessels(observations)
    ensures r.Ok? ==> AssembledFrom(off, r.value, parts, vessels, observations, gap, tolerance)
    ensures gap > 0 && tolerance > 0.0 ==> r.Ok?
  {
    var tracks := GroupTracks(observations);
    var order := SortedTexts(tracks.Keys);
    vessels, parts := order, [];
    var rows: seq<TrajectoryRow> := [];
    for i := 0 to |order|
      invariant rows == Flatten(parts) && RowsByVessel(off, parts, order[..i], observations, gap, tolerance)
    {
      assert order[i] in tracks;
      var vesselRows := AssembleVessel(off, order[i], tracks[order[i]], gap, tolerance);
      if vesselRows.Err? {
        return Err(vesselRows.error), parts, vessels;
      }
      OneMoreVessel(off, parts, order, i, vesselRows.value, observations, gap, tolerance);
      rows := rows + vesselRows.value;
      parts := parts + [vesselRows.value];
    }
    assert order[..|order|] == order;
    return Ok(rows), parts, vessels;
  }
}
