/** Vessel tracks in degree space: the chord metric, the stack-driven simplifier, the topology guard. */
module Track {
  import opened Wrappers
  import opened Sequences
  import opened Planar
  import opened RdpTheory
  import opened Chords

  datatype TrackPoint = TrackPoint(occurredAt: int, longitude: real, latitude: real, eventId: string) {
    function Position(): Coordinate { Coordinate(longitude, latitude) }
  }

  datatype TrackError = BadTolerance | BadGapThreshold

  const MAX_SIMPLIFY_RETRIES: nat := 8

  type Metric = (Coordinate, Coordinate, Coordinate) -> real

  function Square(x: real): real { Times(x, x) }

  lemma TimesPositive(x: real, y: real)
    requires x > 0.0 && y > 0.0
    ensures Times(x, y) > 0.0 && Times(x / 2.0, y / 2.0) == Times(x, y) / 4.0
  {
  }

  lemma TimesBelowOne(x: real, y: real)
    requires 0.0 < x < 1.0 && 0.0 < y < 1.0
    ensures Times(x, y) < 1.0
  {
    assert (1.0 - x) * y > 0.0;
  }

  function Positions(points: seq<TrackPoint>): (r: seq<Coordinate>)
    ensures |r| == |points|
    ensures forall i :: 0 <= i < |points| ==> r[i] == Coordinate(points[i].longitude, points[i].latitude)
  {
    seq(|points|, i requires 0 <= i < |points| => points[i].Position())
  }

  /** The simplified line by the recursive definition, at a squared tolerance. */
  ghost function Rdp(off: Metric, c: seq<Coordinate>, limit: real): seq<Coordinate> {
    if |c| <= 2 then c
    else
      PathAscends(off, limit, c, 0, |c| - 1);
      Pick(c, Kept(off, limit, c))
  }

  method FindFarthest(off: Metric, c: seq<Coordinate>, first: nat, last: nat) returns (index: int, distance: real)
    requires first < last < |c|
    ensures (index, distance) == Farthest(off, c, first, last)
  {
    index, distance := -1, -1.0;
    for k := first + 1 to last
      invariant (index, distance) == Scan(off, c, first, last, k)
    {
      var d := off(c[k], c[first], c[last]);
      if d > distance {
        distance := d;
        index := k;
      }
    }
  }

  /** `rdp_simplify`: the explicit stack keeps exactly the points of the recursive definition. */
  method RdpSimplify(off: Metric, c: seq<Coordinate>, tolerance: real) returns (r: Result<seq<Coordinate>, TrackError>)
    ensures r.Ok? <==> tolerance > 0.0
    ensures r.Ok? ==> r.value == Rdp(off, c, Square(tolerance))
    ensures r.Err? ==> r.error == BadTolerance
    ensures r.Ok? && off == SquaredOffset ==> exists picked ::
              IsThinned(c, r.value, picked, tolerance) && (|c| > 2 ==> PickedFar(c, picked, tolerance))
  {
    if tolerance <= 0.0 {
      return Err(BadTolerance);
    }
    ghost var picked := RdpInCoordinates(c, tolerance);
    if |c| <= 2 {
      return Ok(c);
    }
    var limit := Square(tolerance);
    var keep := MarkKept(off, c, limit);
    var kept := Selected(off, c, keep, limit);
    return Ok(kept);
  }

  /** Marked or still due are the ends and the points of `target`. */
  ghost predicate MarksRight(marks: seq<bool>, due: set<nat>, target: set<nat>) {
    forall i :: 0 <= i < |marks| ==> (marks[i] || i in due <==> i == 0 || i == |marks| - 1 || i in target)
  }

  lemma MarkOne(marks: seq<bool>, due: set<nat>, rest: set<nat>, f: nat, target: set<nat>)
    requires MarksRight(marks, due, target) && f < |marks| && due == rest + {f}
    ensures MarksRight(marks[f := true], rest, target)
  {
  }

  lemma SplitDue(off: Metric, limit: real, c: seq<Coordinate>, stack: seq<(nat, nat)>, first: nat, last: nat, f: nat)
    requires StackOk(stack, |c|) && first < f < last < |c|
    requires Splits(off, limit, c, first, last) && f == Farthest(off, c, first, last).0
    ensures Inner(off, limit, c, first, last) == Inner(off, limit, c, first, f) + {f} + Inner(off, limit, c, f, last)
    ensures Due(off, limit, c, stack) + Inner(off, limit, c, first, last) ==
            Due(off, limit, c, stack + [(first, f)] + [(f, last)]) + {f}
  {
    PushTwo(off, limit, c, stack, first, f, last);
  }

  method MarkKept(off: Metric, c: seq<Coordinate>, limit: real) returns (keep: array<bool>)
    requires |c| > 2
    ensures fresh(keep) && keep.Length == |c|
    ensures forall i :: 0 <= i < |c| ==>
      (keep[i] <==> i == 0 || i == |c| - 1 || i in Inner(off, limit, c, 0, |c| - 1))
  {
    var n := |c|;
    keep := new bool[n](i => false);
    keep[0] := true;
    keep[n - 1] := true;
    var stack: seq<(nat, nat)> := [(0, n - 1)];
    ghost var target := Inner(off, limit, c, 0, n - 1);
    assert stack[..0] == [];
    assert Due(off, limit, c, stack) == target;
    while stack != []
      invariant StackOk(stack, n) && MarksRight(keep[..], Due(off, limit, c, stack), target)
      decreases Work(stack)
    {
      var (first, last) := stack[|stack| - 1];
      ghost var marks, due := keep[..], Due(off, limit, c, stack);
      stack := stack[..|stack| - 1];
      var f, distance := FindFarthest(off, c, first, last);
      if distance > limit && f > 0 {
        SplitDue(off, limit, c, stack, first, last, f);
        PushTwo(off, limit, c, stack, first, f, last);
        stack := stack + [(first, f as nat)] + [(f as nat, last)];
        keep[f] := true;
        MarkOne(marks, due, Due(off, limit, c, stack), f, target);
        assert keep[..] == marks[f := true];
      }
    }
    assert forall i :: 0 <= i < n ==> keep[i] == keep[..][i];
  }

  method Selected(off: Metric, c: seq<Coordinate>, keep: array<bool>, ghost limit: real) returns (r: seq<Coordinate>)
    requires |c| > 2 && keep.Length == |c|
    requires forall i :: 0 <= i < |c| ==>
      (keep[i] <==> i == 0 || i == |c| - 1 || i in Inner(off, limit, c, 0, |c| - 1))
    ensures Increasing(Kept(off, limit, c), |c|)
    ensures r == Pick(c, Kept(off, limit, c))
  {
    r := [];
    ghost var indices: seq<nat> := [];
    for i := 0 to |c|
      invariant Ascends(indices, 0, i)
      invariant forall j :: j in indices <==> 0 <= j < i && keep[j]
      invariant r == Pick(c, indices)
    {
      if keep[i] {
        r := r + [c[i]];
        indices := indices + [i];
      }
    }
    ghost var kept := Kept(off, limit, c);
    PathAscends(off, limit, c, 0, |c| - 1);
    PathIsInner(off, limit, c, 0, |c| - 1);
    AscendingUnique(indices, kept, 0, |c|);
  }

  // ---- the topology guard ----

  method IsSimpleLine(c: seq<Coordinate>) returns (simple: bool)
    ensures simple <==> Simple(c)
  {
    var count := |c|;
    if count < 4 {
      return true;
    }
    for i := 0 to count - 1
      invariant forall a: nat, b: nat :: a < i && a + 2 <= b < count - 1 ==> !Meets(c, a, b)
    {
      var j := i + 2;
      while j < count - 1
        invariant i + 2 <= j
        invariant forall b: nat :: i + 2 <= b < j && b < count - 1 ==> !Meets(c, i, b)
      {
        if Meets(c, i, j) {
          return false;
        }
        j := j + 1;
      }
    }
    return true;
  }

  // ---- finding the simplified coordinates among the points again ----

  /** The first index from `cursor` on that holds the coordinate, or the length. */
  function FirstMatch(c: seq<Coordinate>, p: Coordinate, cursor: nat): (r: nat)
    requires cursor <= |c|
    ensures cursor <= r <= |c| && (r < |c| ==> c[r] == p)
    ensures forall i :: cursor <= i < r ==> c[i] != p
    decreases |c| - cursor
  {
    if cursor == |c| || c[cursor] == p then cursor else FirstMatch(c, p, cursor + 1)
  }

  /** A coordinate that is not found is passed over, as the inner loop does. */
  function GreedyMatch(c: seq<Coordinate>, wanted: seq<Coordinate>, cursor: nat): seq<nat>
    requires cursor <= |c|
    decreases |wanted|
  {
    if wanted == [] then []
    else
      var i := FirstMatch(c, wanted[0], cursor);
      if i == |c| then GreedyMatch(c, wanted[1..], cursor)
      else [i] + GreedyMatch(c, wanted[1..], i + 1)
  }

  method FindFirst(c: seq<Coordinate>, p: Coordinate, cursor: nat) returns (index: nat)
    requires cursor <= |c|
    ensures index == FirstMatch(c, p, cursor) && cursor <= index <= |c|
  {
    index := cursor;
    while index < |c| && c[index] != p
      invariant cursor <= index <= |c| && FirstMatch(c, p, index) == FirstMatch(c, p, cursor)
    {
      index := index + 1;
    }
  }

  method MatchIndices(c: seq<Coordinate>, wanted: seq<Coordinate>) returns (indices: seq<nat>)
    ensures indices == GreedyMatch(c, wanted, 0)
  {
    indices := [];
    var cursor: nat := 0;
    ghost var all := GreedyMatch(c, wanted, 0);
    assert wanted[0..] == wanted;
    for w := 0 to |wanted|
      invariant cursor <= |c| && MatchedSoFar(c, wanted, w, cursor, indices, all)
    {
      var index := FindFirst(c, wanted[w], cursor);
      MatchNext(c, wanted, w, cursor, indices, all);
      if index < |c| {
        indices := indices + [index];
        cursor := index + 1;
      }
    }
  }

  ghost predicate MatchedSoFar(c: seq<Coordinate>, wanted: seq<Coordinate>, w: nat, cursor: nat, indices: seq<nat>,
                               all: seq<nat>)
    requires w <= |wanted| && cursor <= |c|
  {
    indices + GreedyMatch(c, wanted[w..], cursor) == all
  }

  lemma MatchNext(c: seq<Coordinate>, wanted: seq<Coordinate>, w: nat, cursor: nat, indices: seq<nat>, all: seq<nat>)
    requires w < |wanted| && cursor <= |c| && MatchedSoFar(c, wanted, w, cursor, indices, all)
    ensures var i := FirstMatch(c, wanted[w], cursor);
      if i == |c| then MatchedSoFar(c, wanted, w + 1, cursor, indices, all)
      else MatchedSoFar(c, wanted, w + 1, i + 1, indices + [i], all)
  {
    assert wanted[w..][0] == wanted[w] && wanted[w..][1..] == wanted[w + 1..];
    var i := FirstMatch(c, wanted[w], cursor);
    if i < |c| { PlacedNext(indices, i, GreedyMatch(c, wanted[w + 1..], i + 1)); }
  }

  lemma PlacedNext(indices: seq<nat>, i: nat, rest: seq<nat>)
    ensures indices + ([i] + rest) == indices + [i] + rest
  {
  }

  /** Matching the picked coordinates never fails and never lags behind the picked indices. */
  lemma {:induction false} GreedyMatchFinds(c: seq<Coordinate>, picked: seq<nat>, cursor: nat)
    requires Increasing(picked, |c|) && cursor <= |c| && (picked != [] ==> cursor <= picked[0])
    ensures var found := GreedyMatch(c, Pick(c, picked), cursor);
      && |found| == |picked| && Increasing(found, |c|) && Pick(c, found) == Pick(c, picked)
      && (forall i :: 0 <= i < |found| ==> cursor <= found[i] <= picked[i])
  {
    if picked != [] {
      var wanted := Pick(c, picked);
      var i := FirstMatch(c, wanted[0], cursor);
      assert i <= picked[0];
      assert wanted[1..] == Pick(c, picked[1..]);
      GreedyMatchFinds(c, picked[1..], i + 1);
      var rest := GreedyMatch(c, Pick(c, picked[1..]), i + 1);
      assert GreedyMatch(c, wanted, cursor) == [i] + rest;
      MatchOneMore(c, i, rest, picked, cursor);
    }
  }

  lemma MatchOneMore(c: seq<Coordinate>, i: nat, rest: seq<nat>, picked: seq<nat>, cursor: nat)
    requires Increasing(picked, |c|) && picked != [] && cursor <= i <= picked[0] && c[i] == c[picked[0]]
    requires Increasing(rest, |c|) && |rest| == |picked| - 1 && Pick(c, rest) == Pick(c, picked[1..])
    requires forall j :: 0 <= j < |rest| ==> i + 1 <= rest[j] <= picked[j + 1]
    ensures var found := [i] + rest;
      && Increasing(found, |c|) && Pick(c, found) == Pick(c, picked)
      && (forall j :: 0 <= j < |found| ==> cursor <= found[j] <= picked[j])
  {
    var found := [i] + rest;
    forall j | 0 <= j < |found| ensures c[found[j]] == c[picked[j]] {
      if j > 0 {
        assert Pick(c, rest)[j - 1] == Pick(c, picked[1..])[j - 1];
      }
    }
  }

  /** The picked indices themselves come back exactly when no point skipped before one repeats its coordinate. */
  ghost predicate NoEarlierTwin(c: seq<Coordinate>, picked: seq<nat>, cursor: nat)
    requires Increasing(picked, |c|)
  {
    picked == [] ||
    ((forall i :: cursor <= i < picked[0] ==> c[i] != c[picked[0]]) && NoEarlierTwin(c, picked[1..], picked[0] + 1))
  }

  lemma {:induction false} GreedyMatchExact(c: seq<Coordinate>, picked: seq<nat>, cursor: nat)
    requires Increasing(picked, |c|) && cursor <= |c| && (picked != [] ==> cursor <= picked[0])
    ensures GreedyMatch(c, Pick(c, picked), cursor) == picked <==> NoEarlierTwin(c, picked, cursor)
  {
    if picked != [] {
      var wanted := Pick(c, picked);
      assert wanted[1..] == Pick(c, picked[1..]);
      var i := FirstMatch(c, wanted[0], cursor);
      assert i <= picked[0];
      var rest := GreedyMatch(c, wanted[1..], i + 1);
      assert GreedyMatch(c, wanted, cursor) == [i] + rest;
      SameHead(i, rest, picked);
      if i == picked[0] { GreedyMatchExact(c, picked[1..], i + 1); }
    }
  }

  lemma SameHead(i: nat, rest: seq<nat>, picked: seq<nat>)
    requires picked != []
    ensures [i] + rest == picked <==> i == picked[0] && rest == picked[1..]
  {
    assert picked == [picked[0]] + picked[1..];
    assert ([i] + rest)[0] == i && ([i] + rest)[1..] == rest;
  }

  // ---- the retry loop ----

  /** The square of the tolerance after it was halved `times` times. */
  function Limit(tolerance: real, times: nat): real {
    if times == 0 then Square(tolerance) else Limit(tolerance, times - 1) / 4.0
  }

  ghost predicate Passes(off: Metric, c: seq<Coordinate>, limit: real) {
    |Rdp(off, c, limit)| <= 2 || Simple(Rdp(off, c, limit))
  }

  /** The first `n` tolerances all fail the guard. */
  ghost predicate Rejected(off: Metric, c: seq<Coordinate>, tolerance: real, n: nat) {
    n == 0 || (Rejected(off, c, tolerance, n - 1) && !Passes(off, c, Limit(tolerance, n - 1)))
  }

  /** Tolerance number `k` is the first of the eight that passes the guard. */
  ghost predicate Accepts(off: Metric, c: seq<Coordinate>, tolerance: real, k: nat) {
    k < 8 && Passes(off, c, Limit(tolerance, k)) && Rejected(off, c, tolerance, k)
  }

  /** Order-preserving choice of points whose coordinates are exactly a given line: the earliest there is. */
  ghost predicate ChosenAs(points: seq<TrackPoint>, chosen: seq<TrackPoint>, line: seq<Coordinate>, indices: seq<nat>) {
    && Increasing(indices, |points|) && chosen == Pick(points, indices) && Positions(chosen) == line
    && |indices| >= 2 && indices[0] == 0 && indices == GreedyMatch(Positions(points), line, 0)
  }

  lemma RdpPicks(off: Metric, c: seq<Coordinate>, limit: real) returns (picked: seq<nat>)
    requires NonNegative(off) && limit >= 0.0 && |c| >= 3
    ensures Increasing(picked, |c|) && Rdp(off, c, limit) == Pick(c, picked)
    ensures |picked| >= 2 && picked[0] == 0 && picked[|picked| - 1] == |c| - 1
    ensures ChordsWithin(off, limit, c, picked) && picked == Kept(off, limit, c)
  {
    picked := Kept(off, limit, c);
    KeptProperties(off, limit, c);
  }

  // ---- the same in coordinates, for the metric of the code ----

  /** Between two neighbours among the picked points every point is near their line. */
  ghost predicate DroppedNear(c: seq<Coordinate>, picked: seq<nat>, distance: real) {
    && (forall i :: 0 <= i < |picked| ==> picked[i] < |c|)
    && forall j, k :: 0 <= j && k == j + 1 < |picked| ==> NearBetween(c, picked[j], picked[k], distance)
  }

  ghost predicate NearBetween(c: seq<Coordinate>, a: nat, b: nat, distance: real) {
    a < |c| && b < |c| && forall i {:trigger c[i]} :: a < i < b ==> IsNearLine(c[i], c[a], c[b], distance)
  }

  /** Every picked point but the ends is farther than that from the line of two picked points around it. */
  ghost predicate PickedFar(c: seq<Coordinate>, picked: seq<nat>, distance: real) {
    forall f :: f in picked && f != 0 && f != |c| - 1 ==> exists a, b :: FarFrom(c, picked, f, a, b, distance)
  }

  ghost predicate FarFrom(c: seq<Coordinate>, picked: seq<nat>, f: nat, a: nat, b: nat, distance: real) {
    a in picked && b in picked && a < f < b < |c| && !IsNearLine(c[f], c[a], c[b], distance)
  }

  /** The line is a choice of the points, from the first to the last, that drops only points near it. */
  ghost predicate IsThinned(c: seq<Coordinate>, r: seq<Coordinate>, picked: seq<nat>, distance: real) {
    && Increasing(picked, |c|) && r == Pick(c, picked) && DroppedNear(c, picked, distance)
    && (c != [] ==> picked != [] && picked[0] == 0 && picked[|picked| - 1] == |c| - 1)
  }

  lemma ChordsInCoordinates(c: seq<Coordinate>, picked: seq<nat>, distance: real)
    requires ChordsWithin(SquaredOffset, Times(distance, distance), c, picked)
    ensures DroppedNear(c, picked, distance)
  {
    forall j, k | 0 <= j && k == j + 1 < |picked| ensures NearBetween(c, picked[j], picked[k], distance) {
      assert Within(SquaredOffset, Times(distance, distance), c, picked[j], picked[k]);
      forall i | picked[j] < i < picked[k] ensures IsNearLine(c[i], c[picked[j]], c[picked[k]], distance) {
        NearLineIff(c[i], c[picked[j]], c[picked[k]], distance);
      }
    }
  }

  lemma SplitsInCoordinates(c: seq<Coordinate>, picked: seq<nat>, distance: real)
    requires picked != [] && picked[|picked| - 1] == |c| - 1
    requires AllSplit(SquaredOffset, Times(distance, distance), c, picked, 0)
    ensures PickedFar(c, picked, distance)
  {
    forall f | f in picked && f != 0 && f != |c| - 1 ensures exists a, b :: FarFrom(c, picked, f, a, b, distance) {
      var a, b :| SplitBetween(SquaredOffset, Times(distance, distance), c, picked, f, a, b);
      SplitIsFar(c, picked, f, a, b, distance);
    }
  }

  lemma SplitIsFar(c: seq<Coordinate>, picked: seq<nat>, f: nat, a: nat, b: nat, distance: real)
    requires SplitBetween(SquaredOffset, Times(distance, distance), c, picked, f, a, b)
    ensures FarFrom(c, picked, f, a, b, distance)
  {
    var p, q, r := c[f], c[a], c[b];
    NearLineIff(p, q, r, distance);
  }

  /** What the simplifier drops is near the line it keeps, and what it keeps was not near when it was looked at. */
  lemma RdpInCoordinates(c: seq<Coordinate>, tolerance: real) returns (picked: seq<nat>)
    requires tolerance > 0.0
    ensures IsThinned(c, Rdp(SquaredOffset, c, Square(tolerance)), picked, tolerance)
    ensures |c| > 2 ==> PickedFar(c, picked, tolerance)
  {
    if |c| <= 2 {
      picked := WholePick(c);
    } else {
      SquaredOffsetNonNegative();
      TimesPositive(tolerance, tolerance);
      picked := RdpPicks(SquaredOffset, c, Square(tolerance));
      PathSplits(SquaredOffset, Square(tolerance), c, 0, |c| - 1);
      ChordsInCoordinates(c, picked, tolerance);
      SplitsInCoordinates(c, picked, tolerance);
    }
  }

  lemma WholePick(c: seq<Coordinate>) returns (picked: seq<nat>)
    ensures Increasing(picked, |c|) && c == Pick(c, picked)
    ensures forall distance :: DroppedNear(c, picked, distance)
    ensures c != [] ==> picked != [] && picked[0] == 0 && picked[|picked| - 1] == |c| - 1
  {
    picked := seq(|c|, i requires 0 <= i < |c| => i);
  }

  method ChoosePoints(ghost off: Metric, points: seq<TrackPoint>, c: seq<Coordinate>, line: seq<Coordinate>, ghost limit: real)
    returns (chosen: seq<TrackPoint>, ghost indices: seq<nat>)
    requires NonNegative(off) && |points| >= 3 && c == Positions(points) && limit > 0.0 && line == Rdp(off, c, limit)
    ensures ChosenAs(points, chosen, line, indices)
  {
    ghost var picked := RdpPicks(off, c, limit);
    GreedyMatchFinds(c, picked, 0);
    var found := MatchIndices(c, line);
    indices := found;
    chosen := seq(|found|, i requires 0 <= i < |found| => points[found[i]]);
    forall i | 0 <= i < |chosen| ensures chosen[i].Position() == line[i] {
      assert Pick(c, found)[i] == line[i];
    }
  }

  /** One attempt: None when the simplified line fails the guard. */
  method TryTolerance(off: Metric, points: seq<TrackPoint>, c: seq<Coordinate>, tolerance: real, ghost limit: real)
    returns (r: Option<seq<TrackPoint>>, ghost indices: seq<nat>)
    requires NonNegative(off) && |points| >= 3 && c == Positions(points) && tolerance > 0.0 && limit == Square(tolerance)
    ensures r.Some? <==> Passes(off, c, limit)
    ensures r.Some? ==> ChosenAs(points, r.value, Rdp(off, c, limit), indices)
  {
    indices := [];
    var simplified := RdpSimplify(off, c, tolerance);
    var simple := IsSimpleLine(simplified.value);
    if |simplified.value| <= 2 || simple {
      TimesPositive(tolerance, tolerance);
      var chosen;
      chosen, indices := ChoosePoints(off, points, c, simplified.value, limit);
      return Some(chosen), indices;
    }
    return None, indices;
  }

  /** At most two points stay; else the first passing simplification is chosen, or the whole track. */
  ghost predicate SimplifiedAt(off: Metric, points: seq<TrackPoint>, tolerance: real, r: seq<TrackPoint>,
                               accepted: nat, indices: seq<nat>)
  {
    if |points| <= 2 then r == points
    else
      var c := Positions(points);
      || AcceptedAs(off, points, c, tolerance, accepted, r, indices)
      || (Rejected(off, c, tolerance, 8) && r == points)
  }

  ghost predicate AcceptedAs(off: Metric, points: seq<TrackPoint>, c: seq<Coordinate>, tolerance: real, k: nat,
                             r: seq<TrackPoint>, indices: seq<nat>)
  {
    Accepts(off, c, tolerance, k) && |points| == |c| && ChosenAs(points, r, Rdp(off, c, Limit(tolerance, k)), indices)
  }

  lemma Accepted(off: Metric, points: seq<TrackPoint>, c: seq<Coordinate>, tolerance: real, k: nat, r: seq<TrackPoint>,
                 indices: seq<nat>)
    requires Rejected(off, c, tolerance, k) && k < 8 && Passes(off, c, Limit(tolerance, k))
    requires |points| == |c| && ChosenAs(points, r, Rdp(off, c, Limit(tolerance, k)), indices)
    ensures AcceptedAs(off, points, c, tolerance, k, r, indices)
  {
  }

  /** The eight attempts; all fail when None is returned. */
  method RetryLoop(off: Metric, points: seq<TrackPoint>, c: seq<Coordinate>, tolerance: real)
    returns (r: Option<seq<TrackPoint>>, ghost accepted: nat, ghost indices: seq<nat>)
    requires NonNegative(off) && |points| >= 3 && c == Positions(points) && tolerance > 0.0
    ensures r.None? ==> Rejected(off, c, tolerance, 8)
    ensures r.Some? ==> AcceptedAs(off, points, c, tolerance, accepted, r.value, indices)
  {
    accepted, indices := MAX_SIMPLIFY_RETRIES, [];
    var candidate := tolerance;
    for attempt := 0 to MAX_SIMPLIFY_RETRIES
      invariant candidate > 0.0
      invariant Square(candidate) == Limit(tolerance, attempt)
      invariant Rejected(off, c, tolerance, attempt)
    {
      r, indices := TryTolerance(off, points, c, candidate, Limit(tolerance, attempt));
      if r.Some? {
        Accepted(off, points, c, tolerance, attempt, r.value, indices);
        accepted := attempt;
        return;
      }
      TimesPositive(candidate, candidate);
      candidate := candidate / 2.0;
    }
    r := None;
  }

  /**
   * `simplify_preserving_topology`: the coordinates of the first passing simplification, on points
   * of the track in order, or the whole track when none of the eight passes.
   */
  method SimplifyPreservingTopology(off: Metric, points: seq<TrackPoint>, tolerance: real)
    returns (r: Result<seq<TrackPoint>, TrackError>, ghost accepted: nat, ghost indices: seq<nat>)
    requires NonNegative(off)
    ensures r.Ok? <==> |points| <= 2 || tolerance > 0.0
    ensures r.Err? ==> r.error == BadTolerance
    ensures r.Ok? ==> SimplifiedAt(off, points, tolerance, r.value, accepted, indices)
  {
    accepted, indices := MAX_SIMPLIFY_RETRIES, [];
    if |points| <= 2 {
      return Ok(points), accepted, indices;
    }
    // The first attempt of the simplifier raises this.
    if tolerance <= 0.0 {
      return Err(BadTolerance), accepted, indices;
    }
    var chosen;
    chosen, accepted, indices := RetryLoop(off, points, Positions(points), tolerance);
    r := Ok(if chosen.Some? then chosen.value else points);
  }

  /** `r` is what the topology guard makes of the points. */
  ghost predicate SimplifiedFrom(off: Metric, points: seq<TrackPoint>, tolerance: real, r: seq<TrackPoint>) {
    exists accepted: nat, indices: seq<nat> :: SimplifiedAt(off, points, tolerance, r, accepted, indices)
  }

  lemma {:induction false} RejectedEach(off: Metric, c: seq<Coordinate>, tolerance: real, n: nat, k: nat)
    requires Rejected(off, c, tolerance, n) && k < n
    ensures !Passes(off, c, Limit(tolerance, k))
  {
    if k < n - 1 { RejectedEach(off, c, tolerance, n - 1, k); }
  }

  /** The result fails the guard exactly when the track does and all eight attempts do. */
  lemma ResultCrossesIff(off: Metric, points: seq<TrackPoint>, tolerance: real, r: seq<TrackPoint>)
    requires SimplifiedFrom(off, points, tolerance, r)
    ensures !Simple(Positions(r)) <==>
            |points| > 2 && Rejected(off, Positions(points), tolerance, 8) && !Simple(Positions(points))
    ensures !Simple(Positions(r)) ==> r == points
  {
    var c := Positions(points);
    var k: nat, indices: seq<nat> :| SimplifiedAt(off, points, tolerance, r, k, indices);
    if Accepts(off, c, tolerance, k) { FirstAcceptedOnly(off, c, tolerance, k, k); }
  }

  /** A simple track never gets a crossing, whatever the tolerance. */
  lemma SimpleStaysSimple(off: Metric, points: seq<TrackPoint>, tolerance: real, r: seq<TrackPoint>)
    requires SimplifiedFrom(off, points, tolerance, r) && Simple(Positions(points))
    ensures Simple(Positions(r))
  {
    ResultCrossesIff(off, points, tolerance, r);
  }

  /** A track that nowhere crosses itself properly never gets a line that does. */
  lemma NoCrossingAppears(off: Metric, points: seq<TrackPoint>, tolerance: real, r: seq<TrackPoint>)
    requires SimplifiedFrom(off, points, tolerance, r) && NoProperCrossing(Positions(points))
    ensures NoProperCrossing(Positions(r))
  {
    ResultCrossesIff(off, points, tolerance, r);
    SimpleIff(Positions(r));
  }

  function Halved(tolerance: real, times: nat): real { if times == 0 then tolerance else Halved(tolerance, times - 1) / 2.0 }

  lemma {:induction false} LimitOfHalved(tolerance: real, times: nat)
    requires tolerance > 0.0
    ensures 0.0 < Halved(tolerance, times) <= tolerance && Limit(tolerance, times) == Square(Halved(tolerance, times))
  {
    if times > 0 {
      LimitOfHalved(tolerance, times - 1);
      TimesPositive(Halved(tolerance, times - 1), Halved(tolerance, times - 1));
    }
  }

  /**
   * Whatever the track: the result drops only points within the tolerance of the line of its points, or is the whole
   * track. The tolerance is halved up to seven times.
   */
  lemma ResultWithinTolerance(points: seq<TrackPoint>, tolerance: real, r: seq<TrackPoint>)
    returns (picked: seq<nat>, times: nat)
    requires tolerance > 0.0 && SimplifiedFrom(SquaredOffset, points, tolerance, r)
    ensures times < 8 && IsThinned(Positions(points), Positions(r), picked, Halved(tolerance, times))
    ensures r == points || PickedFar(Positions(points), picked, Halved(tolerance, times))
  {
    var c := Positions(points);
    var k: nat, indices: seq<nat> :| SimplifiedAt(SquaredOffset, points, tolerance, r, k, indices);
    if |points| > 2 && AcceptedAs(SquaredOffset, points, c, tolerance, k, r, indices) {
      LimitOfHalved(tolerance, k);
      picked := RdpInCoordinates(c, Halved(tolerance, k));
      times := k;
    } else {
      picked := WholePick(c);
      times := 0;
      assert DroppedNear(c, picked, tolerance);
    }
  }

  lemma AllRejectedIsWhole(off: Metric, points: seq<TrackPoint>, tolerance: real, r: seq<TrackPoint>)
    requires SimplifiedFrom(off, points, tolerance, r)
    requires Rejected(off, Positions(points), tolerance, 8)
    ensures r == points
  {
    var c := Positions(points);
    var k: nat, indices: seq<nat> :| SimplifiedAt(off, points, tolerance, r, k, indices);
    if Accepts(off, c, tolerance, k) { FirstAcceptedOnly(off, c, tolerance, k, k); }
  }

  /**
   * Whether the line crosses itself, by the guard or properly, is what simplification keeps exactly for tracks that
   * do not and for those of which all eight attempts fail the guard. A crossing track loses its crossing at the
   * first attempt that passes.
   */
  lemma TopologyKeptIff(off: Metric, points: seq<TrackPoint>, tolerance: real, r: seq<TrackPoint>)
    requires SimplifiedFrom(off, points, tolerance, r)
    ensures (Simple(Positions(r)) <==> Simple(Positions(points))) <==>
            Simple(Positions(points)) || Rejected(off, Positions(points), tolerance, 8)
    ensures (NoProperCrossing(Positions(r)) <==> NoProperCrossing(Positions(points))) <==>
            NoProperCrossing(Positions(points)) || Rejected(off, Positions(points), tolerance, 8)
  {
    ResultCrossesIff(off, points, tolerance, r);
    SimpleIff(Positions(r));
    SimpleIff(Positions(points));
    if Rejected(off, Positions(points), tolerance, 8) {
      AllRejectedIsWhole(off, points, tolerance, r);
    }
  }

  /** There is one result. */
  lemma SimplifiedUnique(off: Metric, points: seq<TrackPoint>, tolerance: real, r: seq<TrackPoint>, s: seq<TrackPoint>)
    requires SimplifiedFrom(off, points, tolerance, r) && SimplifiedFrom(off, points, tolerance, s)
    ensures r == s
  {
    var c := Positions(points);
    var k: nat, indices: seq<nat> :| SimplifiedAt(off, points, tolerance, r, k, indices);
    var l: nat, indices': seq<nat> :| SimplifiedAt(off, points, tolerance, s, l, indices');
    if Rejected(off, c, tolerance, 8) {
      AllRejectedIsWhole(off, points, tolerance, r);
      AllRejectedIsWhole(off, points, tolerance, s);
    } else if |points| > 2 {
      FirstAcceptedOnly(off, c, tolerance, k, l);
    }
  }

  const CROSSING: seq<Coordinate> :=
    [Coordinate(0.0, 0.0), Coordinate(2.0, 2.0), Coordinate(2.0, 0.0), Coordinate(0.0, 2.0)]

  /** The test does find the crossing of this four-point track. */
  lemma CrossingIsNotSimple()
    ensures !Simple(CROSSING)
  {
    assert Meets(CROSSING, 0, 2);
  }

  lemma CrossingMeets()
    ensures MeetAt(CROSSING[0], CROSSING[1], CROSSING[2], CROSSING[3], 0.5, 0.5)
  {
  }

  lemma CrossingIsNotParallel()
    ensures Orientation(CROSSING[2], CROSSING[3], CROSSING[0]) != Orientation(CROSSING[2], CROSSING[3], CROSSING[1])
  {
  }

  lemma CrossingHalfway()
    ensures CrossProperly(CROSSING[0], CROSSING[1], CROSSING[2], CROSSING[3])
  {
    CrossingMeets();
    CrossingIsNotParallel();
    ProperAt(CROSSING[0], CROSSING[1], CROSSING[2], CROSSING[3], 0.5, 0.5);
  }

  lemma CrossesThere()
    ensures CrossesAt(CROSSING, 0, 2)
  {
    CrossingHalfway();
  }

  /** The crossing is a proper one. */
  lemma CrossingIsProper()
    ensures !NoProperCrossing(CROSSING)
  {
    CrossesThere();
  }

  /** At any squared tolerance below one, simplification keeps all of that track. */
  lemma CrossingIsKept(limit: real)
    requires 0.0 < limit < 1.0
    ensures Rdp(SquaredOffset, CROSSING, limit) == CROSSING
  {
    var c := CROSSING;
    assert SquaredOffset(c[1], c[0], c[3]) == 4.0 && SquaredOffset(c[2], c[0], c[3]) == 4.0;
    assert Scan(SquaredOffset, c, 0, 3, 1) == (-1, -1.0);
    assert Scan(SquaredOffset, c, 0, 3, 2) == (1, 4.0);
    assert Farthest(SquaredOffset, c, 0, 3) == (1, 4.0);
    assert SquaredOffset(c[2], c[1], c[3]) == 4.0;
    assert Scan(SquaredOffset, c, 1, 3, 2) == (-1, -1.0);
    assert Farthest(SquaredOffset, c, 1, 3) == (2, 4.0);
    assert Path(SquaredOffset, limit, c, 0, 1) == [0];
    assert Path(SquaredOffset, limit, c, 1, 2) == [1] && Path(SquaredOffset, limit, c, 2, 3) == [2];
    assert Path(SquaredOffset, limit, c, 1, 3) == [1, 2];
    assert Path(SquaredOffset, limit, c, 0, 3) == [0, 1, 2];
    assert Kept(SquaredOffset, limit, c) == [0, 1, 2, 3];
  }

  /** From four on it keeps the ends only. */
  lemma CrossingIsDropped(limit: real)
    requires limit >= 4.0
    ensures Rdp(SquaredOffset, CROSSING, limit) == [CROSSING[0], CROSSING[3]]
  {
    var c := CROSSING;
    assert SquaredOffset(c[1], c[0], c[3]) == 4.0 && SquaredOffset(c[2], c[0], c[3]) == 4.0;
    assert Scan(SquaredOffset, c, 0, 3, 1) == (-1, -1.0);
    assert Scan(SquaredOffset, c, 0, 3, 2) == (1, 4.0);
    assert Farthest(SquaredOffset, c, 0, 3) == (1, 4.0);
    assert Path(SquaredOffset, limit, c, 0, 3) == [0];
    assert Kept(SquaredOffset, limit, c) == [0, 3];
  }

  lemma PassesNotBefore(off: Metric, c: seq<Coordinate>, tolerance: real, n: nat, k: nat)
    requires Rejected(off, c, tolerance, n) && Passes(off, c, Limit(tolerance, k))
    ensures n <= k
  {
    if k < n { RejectedEach(off, c, tolerance, n, k); }
  }

  /** The attempt that is accepted is the first that passes, so there is one. */
  lemma FirstAcceptedOnly(off: Metric, c: seq<Coordinate>, tolerance: real, k: nat, n: nat)
    requires Accepts(off, c, tolerance, k)
    ensures Accepts(off, c, tolerance, n) ==> n == k
    ensures !Rejected(off, c, tolerance, 8)
  {
    if Rejected(off, c, tolerance, 8) { PassesNotBefore(off, c, tolerance, 8, k); }
    if Accepts(off, c, tolerance, n) {
      PassesNotBefore(off, c, tolerance, n, k);
      PassesNotBefore(off, c, tolerance, k, n);
    }
  }

  /** At tolerance five the guard accepts a straight line for that track: the crossing is gone. */
  lemma CrossingBecomesStraight(points: seq<TrackPoint>, r: seq<TrackPoint>)
    requires Positions(points) == CROSSING && SimplifiedFrom(SquaredOffset, points, 5.0, r)
    ensures Accepts(SquaredOffset, CROSSING, 5.0, 0)
    ensures Positions(r) == [CROSSING[0], CROSSING[3]] && NoProperCrossing(Positions(r)) && Simple(Positions(r))
    ensures !NoProperCrossing(Positions(points)) && !Simple(Positions(points))
  {
    CrossingIsNotSimple();
    CrossingIsProper();
    CrossingIsDropped(25.0);
    var k: nat, indices: seq<nat> :| SimplifiedAt(SquaredOffset, points, 5.0, r, k, indices);
    FirstAcceptedOnly(SquaredOffset, Positions(points), 5.0, 0, k);
  }

  lemma {:induction false} AllRejected(off: Metric, c: seq<Coordinate>, tolerance: real, n: nat)
    requires forall k: nat :: k < n ==> !Passes(off, c, Limit(tolerance, k))
    ensures Rejected(off, c, tolerance, n)
  {
    if n > 0 { AllRejected(off, c, tolerance, n - 1); }
  }

  lemma CrossingFails(limit: real)
    requires 0.0 < limit < 1.0
    ensures !Passes(SquaredOffset, CROSSING, limit)
  {
    CrossingIsNotSimple();
    CrossingIsKept(limit);
  }

  /** Below a tolerance of one every attempt fails, so that the crossing track comes back whole. */
  lemma FallbackCanCross(points: seq<TrackPoint>, tolerance: real, r: seq<TrackPoint>)
    requires 0.0 < tolerance < 1.0 && Positions(points) == CROSSING && SimplifiedFrom(SquaredOffset, points, tolerance, r)
    ensures Rejected(SquaredOffset, Positions(points), tolerance, 8)
    ensures !Simple(Positions(points)) && !Simple(Positions(r))
  {
    CrossingIsNotSimple();
    forall k: nat ensures !Passes(SquaredOffset, Positions(points), Limit(tolerance, k)) {
      LimitBelowOne(tolerance, k);
      CrossingFails(Limit(tolerance, k));
    }
    AllRejected(SquaredOffset, Positions(points), tolerance, 8);
    ResultCrossesIff(SquaredOffset, points, tolerance, r);
  }

  lemma {:induction false} LimitBelowOne(tolerance: real, k: nat)
    requires 0.0 < tolerance < 1.0
    ensures 0.0 < Limit(tolerance, k) < 1.0
  {
    if k > 0 {
      LimitBelowOne(tolerance, k - 1);
    } else {
      TimesPositive(tolerance, tolerance);
      TimesBelowOne(tolerance, tolerance);
    }
  }
}
