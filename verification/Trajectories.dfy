/** Trajectory rows by the observations they come from. */
module Trajectories {
  import opened Sequences
  import opened Ordering
  import opened Planar
  import opened Chords
  import opened Track
  import opened Segmentation

  // ---- the track of a vessel ----

  /** Earlier points first; at the same time, those with the smaller event id. */
  ghost predicate InEventOrder(track: seq<TrackPoint>) {
    forall i, j :: 0 <= i < j < |track| ==>
      track[i].occurredAt < track[j].occurredAt
      || (track[i].occurredAt == track[j].occurredAt && TextPrecedes(track[i].eventId, track[j].eventId))
  }

  /** The points of the vessel's observations, in order. */
  ghost predicate IsTrackOf(track: seq<TrackPoint>, observations: seq<Observation>, mmsi: string) {
    && InEventOrder(track)
    && forall p :: multiset(track)[p] == multiset(observations)[Observation(mmsi, p)]
  }

  lemma EventLeIs(a: TrackPoint, b: TrackPoint)
    ensures EventLe(a, b) <==>
            a.occurredAt < b.occurredAt || (a.occurredAt == b.occurredAt && TextPrecedes(a.eventId, b.eventId))
  {
    TextLeByPositions(a.eventId, b.eventId);
    assert EventKey(a)[1..] == Codes(a.eventId) && EventKey(b)[1..] == Codes(b.eventId);
  }

  lemma SortedTrack(observations: seq<Observation>, mmsi: string)
    ensures IsTrackOf(Sort(EventLe, TrackOf(observations, mmsi)), observations, mmsi)
  {
    var track := TrackOf(observations, mmsi);
    var sorted := Sort(EventLe, track);
    EventOrder();
    SortSorted(EventLe, track);
    forall i, j | 0 <= i < j < |sorted|
      ensures sorted[i].occurredAt < sorted[j].occurredAt
              || (sorted[i].occurredAt == sorted[j].occurredAt && TextPrecedes(sorted[i].eventId, sorted[j].eventId))
    {
      EventLeIs(sorted[i], sorted[j]);
    }
    forall p ensures multiset(sorted)[p] == multiset(observations)[Observation(mmsi, p)] {
      TrackOfMultiset(observations, mmsi, p);
    }
  }

  // ---- repeated points ----

  /** The point differs from the one before it in time or place; so does the first point. */
  predicate IsNew(points: seq<TrackPoint>, i: nat)
    requires i < |points|
  {
    i == 0
    || points[i].occurredAt != points[i - 1].occurredAt
    || points[i].longitude != points[i - 1].longitude || points[i].latitude != points[i - 1].latitude
  }

  /** The points that do not repeat the one before them, in order. */
  ghost predicate AreNew(points: seq<TrackPoint>, kept: seq<TrackPoint>, indices: seq<nat>) {
    && Increasing(indices, |points|) && kept == Pick(points, indices)
    && forall i: nat :: i < |points| ==> (i in indices <==> IsNew(points, i))
  }

  lemma OneMoreNew(points: seq<TrackPoint>, kept: seq<TrackPoint>, indices: seq<nat>, p: TrackPoint)
    requires AreNew(points, kept, indices)
    ensures IsNew(points + [p], |points|) ==> AreNew(points + [p], kept + [p], indices + [|points|])
    ensures !IsNew(points + [p], |points|) ==> AreNew(points + [p], kept, indices)
  {
    var all, n := points + [p], |points|;
    forall i: nat | i < n ensures IsNew(all, i) <==> IsNew(points, i) {
      if i > 0 { assert all[i] == points[i] && all[i - 1] == points[i - 1]; }
    }
    assert Pick(all, indices) == kept;
    if IsNew(all, n) { assert Pick(all, indices + [n]) == kept + [p]; }
  }

  lemma {:induction false} DedupKeepsNew(points: seq<TrackPoint>) returns (indices: seq<nat>)
    ensures AreNew(points, Dedup(points), indices)
  {
    if points == [] {
      indices := [];
    } else {
      var n := |points| - 1;
      var front, last := points[..n], points[n];
      assert points == front + [last];
      indices := DedupKeepsNew(front);
      OneMoreNew(front, Dedup(front), indices, last);
      if IsNew(points, n) { indices := indices + [n]; }
    }
  }

  // ---- rows ----

  function SegmentsOf(rows: seq<TrajectoryRow>): seq<seq<TrackPoint>> { Map((r: TrajectoryRow) => r.segment, rows) }

  /** Within a row no step in time is longer than the gap; from each row to the next one it is. */
  ghost predicate CutAtGaps(rows: seq<TrajectoryRow>, gap: int) {
    && (forall i :: 0 <= i < |rows| ==> rows[i].segment != [])
    && (forall i, j, k :: 0 <= i < |rows| && 0 <= j && k == j + 1 < |rows[i].segment| ==>
          rows[i].segment[k].occurredAt - rows[i].segment[j].occurredAt <= gap)
    && (forall i, j :: 0 <= i && j == i + 1 < |rows| && rows[i].segment != [] && rows[j].segment != [] ==>
          rows[j].segment[0].occurredAt - rows[i].segment[|rows[i].segment| - 1].occurredAt > gap)
  }

  /** The line drops only points near it, is the whole segment or keeps only points that were not near. */
  ghost predicate IsSimplified(segment: seq<TrackPoint>, line: seq<TrackPoint>, tolerance: real) {
    exists picked: seq<nat>, times: nat ::
      && times < 8 && IsThinned(Positions(segment), Positions(line), picked, Halved(tolerance, times))
      && (line == segment || PickedFar(Positions(segment), picked, Halved(tolerance, times)))
  }

  /** The rows cover the points, numbered in order, each with its segment simplified. */
  ghost predicate RowsCover(rows: seq<TrajectoryRow>, mmsi: string, kept: seq<TrackPoint>, dropped: int, gap: int,
                            tolerance: real)
  {
    && Flatten(SegmentsOf(rows)) == kept && CutAtGaps(rows, gap)
    && forall i :: 0 <= i < |rows| ==>
         && rows[i].mmsi == mmsi && rows[i].segmentIndex == i && rows[i].duplicatesDropped == dropped
         && IsSimplified(rows[i].segment, rows[i].simplified, tolerance)
  }

  /** One vessel's rows: its track in order, without repeated points, cut at gaps and simplified. */
  ghost predicate IsTrajectory(rows: seq<TrajectoryRow>, observations: seq<Observation>, mmsi: string, gap: int,
                               tolerance: real)
  {
    exists track, kept, indices ::
      && IsTrackOf(track, observations, mmsi) && AreNew(track, kept, indices)
      && RowsCover(rows, mmsi, kept, |track| - |kept|, gap, tolerance)
  }

  lemma SimplifiedIs(segment: seq<TrackPoint>, line: seq<TrackPoint>, tolerance: real)
    requires tolerance > 0.0 && SimplifiedFrom(SquaredOffset, segment, tolerance, line)
    ensures IsSimplified(segment, line, tolerance)
  {
    var picked, times := ResultWithinTolerance(segment, tolerance, line);
  }

  lemma SegmentsAre(rows: seq<TrajectoryRow>, mmsi: string, segments: Segmented, dropped: nat, tolerance: real)
    requires RowsFor(SquaredOffset, rows, mmsi, segments, dropped, tolerance)
    ensures SegmentsOf(rows) == segments
  {
    forall i | 0 <= i < |rows| ensures SegmentsOf(rows)[i] == segments[i] {
      assert RowFor(SquaredOffset, rows[i], mmsi, i, segments[i], dropped, tolerance);
    }
  }

  lemma SplitCuts(rows: seq<TrajectoryRow>, points: seq<TrackPoint>, gap: int)
    requires IsGapSplit(points, SegmentsOf(rows), gap)
    ensures CutAtGaps(rows, gap)
  {
    var segments := SegmentsOf(rows);
    forall i | 0 <= i < |rows| ensures rows[i].segment == segments[i] && Unbroken(segments[i], gap) {}
    forall i, j, k | 0 <= i < |rows| && 0 <= j && k == j + 1 < |rows[i].segment|
      ensures rows[i].segment[k].occurredAt - rows[i].segment[j].occurredAt <= gap
    {
      assert Near(segments[i][j], segments[i][k], gap);
    }
    forall i, j | 0 <= i && j == i + 1 < |rows|
      ensures rows[j].segment[0].occurredAt - rows[i].segment[|rows[i].segment| - 1].occurredAt > gap
    {
      assert Broken(segments[i], segments[j], gap);
    }
  }

  lemma VesselRowsCover(rows: seq<TrajectoryRow>, mmsi: string, kept: seq<TrackPoint>, dropped: nat, gap: int,
                        tolerance: real)
    requires tolerance > 0.0 && RowsFor(SquaredOffset, rows, mmsi, Segments(kept, gap), dropped, tolerance)
    ensures RowsCover(rows, mmsi, kept, dropped, gap, tolerance)
  {
    var segments := Segments(kept, gap);
    SegmentsAre(rows, mmsi, segments, dropped, tolerance);
    SegmentsSplit(kept, gap);
    SplitCuts(rows, kept, gap);
    forall i | 0 <= i < |rows|
      ensures rows[i].mmsi == mmsi && rows[i].segmentIndex == i && rows[i].duplicatesDropped == dropped
      ensures IsSimplified(rows[i].segment, rows[i].simplified, tolerance)
    {
      assert RowFor(SquaredOffset, rows[i], mmsi, i, segments[i], dropped, tolerance);
      SimplifiedIs(segments[i], rows[i].simplified, tolerance);
    }
  }

  lemma VesselIsTrajectory(rows: seq<TrajectoryRow>, observations: seq<Observation>, mmsi: string, gap: int,
                           tolerance: real)
    requires tolerance > 0.0 && VesselRows(SquaredOffset, rows, mmsi, observations, gap, tolerance)
    ensures IsTrajectory(rows, observations, mmsi, gap, tolerance)
  {
    var track := Sort(EventLe, TrackOf(observations, mmsi));
    SortedTrack(observations, mmsi);
    var indices := DedupKeepsNew(track);
    VesselRowsCover(rows, mmsi, Dedup(track), |track| - |Dedup(track)|, gap, tolerance);
  }

  /** The vessels that were observed, in the order of their numbers. */
  ghost predicate AreVessels(vessels: seq<string>, observations: seq<Observation>) {
    && (forall i, j :: 0 <= i < j < |vessels| ==> vessels[i] != vessels[j] && TextPrecedes(vessels[i], vessels[j]))
    && (forall v :: v in vessels <==> exists o :: o in observations && o.mmsi == v)
  }

  /** The rows that are assembled are, vessel by vessel, those of its observations. */
  lemma AssembledAreTrajectories(rows: seq<TrajectoryRow>, parts: seq<seq<TrajectoryRow>>, vessels: seq<string>,
                                 observations: seq<Observation>, gap: int, tolerance: real)
    requires tolerance > 0.0 && AssembledFrom(SquaredOffset, rows, parts, vessels, observations, gap, tolerance)
    ensures AreVessels(vessels, observations) && rows == Flatten(parts) && |parts| == |vessels|
    ensures forall i :: 0 <= i < |vessels| ==> IsTrajectory(parts[i], observations, vessels[i], gap, tolerance)
  {
    forall i, j | 0 <= i < j < |vessels| ensures vessels[i] != vessels[j] && TextPrecedes(vessels[i], vessels[j]) {
      TextLeByPositions(vessels[i], vessels[j]);
    }
    forall v ensures v in vessels <==> exists o :: o in observations && o.mmsi == v {
      assert v in vessels <==> v in (set x | x in vessels);
      assert v in Vessels(observations) <==> exists o :: o in observations && o.mmsi == v;
    }
    forall i | 0 <= i < |vessels| ensures IsTrajectory(parts[i], observations, vessels[i], gap, tolerance) {
      VesselIsTrajectory(parts[i], observations, vessels[i], gap, tolerance);
    }
  }
}
