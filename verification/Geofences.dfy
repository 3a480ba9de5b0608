/** Polygons with holes, multipolygons, and the validation of a geofence. */
module Geofences {
  import opened Wrappers
  import opened Planar
  import opened RingParity

  datatype GeofenceError = EmptyCoordinates | EmptyPolygon | MalformedRing | BadLatitude | BadLongitude

  datatype Geometry = Polygon(rings: seq<Ring>) | MultiPolygon(polygons: seq<seq<Ring>>)

  /** None of the first `n` edges touches the position, and `inside` is the parity of those that count. */
  ghost predicate Scanned(on: Edge -> bool, counts: Edge -> bool, edges: seq<Edge>, n: nat, inside: bool)
    requires n <= |edges|
  {
    !Any(on, edges[..n]) && inside == (Count(counts, edges[..n]) % 2 == 1)
  }

  lemma ScanNext(on: Edge -> bool, counts: Edge -> bool, edges: seq<Edge>, n: nat, inside: bool)
    requires n < |edges| && Scanned(on, counts, edges, n, inside)
    ensures on(edges[n]) ==> Parity(on, counts, edges)
    ensures !on(edges[n]) ==> Scanned(on, counts, edges, n + 1, if counts(edges[n]) then !inside else inside)
  {
    assert edges[..n + 1] == edges[..n] + [edges[n]];
    AnyAppend(on, edges[..n], [edges[n]]);
    assert Any(on, [edges[n]]) <==> on(edges[n]) by { assert [edges[n]][0] == edges[n]; }
    assert edges[..n + 1][..n] == edges[..n];
  }

  lemma ScanEnd(on: Edge -> bool, counts: Edge -> bool, edges: seq<Edge>, inside: bool)
    requires Scanned(on, counts, edges, |edges|, inside)
    ensures inside == Parity(on, counts, edges)
  {
    assert edges[..|edges|] == edges;
  }

  /** The loop of `_ring_contains`, for any test of the boundary and of the edges to the right. */
  method DecideEdges(on: Edge -> bool, counts: Edge -> bool, ring: Ring) returns (inside: bool)
    ensures inside == Parity(on, counts, Edges(ring))
  {
    inside := false;
    if ring == [] { return; }
    ghost var edges := Edges(ring);
    for index := 0 to |ring| - 1
      invariant Scanned(on, counts, edges, index, inside)
    {
      var e := Edge(ring[index], ring[index + 1]);
      EdgeAt(ring, index);
      ScanNext(on, counts, edges, index, inside);
      if on(e) { return true; }
      if counts(e) { inside := !inside; }
    }
    ScanEnd(on, counts, edges, inside);
  }

  /** `_ring_contains` */
  method DecideRing(ring: Ring, p: Coordinate) returns (inside: bool)
    ensures inside == RingContains(ring, p)
  {
    inside := DecideEdges(e => OnSegment(e, p), e => Counts(e, p), ring);
  }

  /** In the outer ring and in none of the holes. */
  predicate PolygonContains(rings: seq<Ring>, p: Coordinate) {
    rings != [] && RingContains(rings[0], p) && !InSome(rings[1..], p)
  }

  predicate InSome(rings: seq<Ring>, p: Coordinate) { exists i :: 0 <= i < |rings| && RingContains(rings[i], p) }

  method DecideHoles(rings: seq<Ring>, p: Coordinate) returns (inSome: bool)
    ensures inSome == InSome(rings, p)
  {
    for i := 0 to |rings|
      invariant forall k :: 0 <= k < i ==> !RingContains(rings[k], p)
    {
      var inside := DecideRing(rings[i], p);
      if inside { return true; }
    }
    return false;
  }

  /** `_polygon_contains` */
  method DecidePolygon(rings: seq<Ring>, p: Coordinate) returns (contained: bool)
    requires rings != []
    ensures contained == PolygonContains(rings, p)
  {
    contained := DecideRing(rings[0], p);
    if contained {
      var hole := DecideHoles(rings[1..], p);
      contained := !hole;
    }
  }

  predicate Contains(g: Geometry, p: Coordinate) {
    match g
    case Polygon(rings) => PolygonContains(rings, p)
    case MultiPolygon(polygons) => exists i :: 0 <= i < |polygons| && PolygonContains(polygons[i], p)
  }

  /** `Geofence.contains`, for a validated geofence. */
  method Decide(g: Geometry, p: Coordinate) returns (contained: bool)
    requires ValidGeometry(g)
    ensures contained == Contains(g, p)
  {
    match g
    case Polygon(rings) =>
      contained := DecidePolygon(rings, p);
    case MultiPolygon(polygons) =>
      for i := 0 to |polygons|
        invariant forall k :: 0 <= k < i ==> !PolygonContains(polygons[k], p)
      {
        var member := DecidePolygon(polygons[i], p);
        if member { return true; }
      }
      contained := false;
  }

  // ---- validation ----

  predicate InRange(c: Coordinate) { -90.0 <= c.y <= 90.0 && -180.0 <= c.x <= 180.0 }

  predicate ValidRing(ring: Ring) {
    |ring| >= 4 && ring[0] == ring[|ring| - 1] && forall i :: 0 <= i < |ring| ==> InRange(ring[i])
  }

  predicate ValidPolygon(rings: seq<Ring>) { rings != [] && forall i :: 0 <= i < |rings| ==> ValidRing(rings[i]) }

  predicate ValidGeometry(g: Geometry) {
    match g
    case Polygon(rings) => ValidPolygon(rings)
    case MultiPolygon(polygons) => polygons != [] && forall i :: 0 <= i < |polygons| ==> ValidPolygon(polygons[i])
  }

  /** `_validate_ring` with `Position.__post_init__` */
  method ValidateRing(ring: Ring) returns (r: Result<(), GeofenceError>)
    ensures r.Ok? <==> ValidRing(ring)
    ensures r == Err(MalformedRing) <==> |ring| < 4 || ring[0] != ring[|ring| - 1]
  {
    if |ring| < 4 || ring[0] != ring[|ring| - 1] { return Err(MalformedRing); }
    for i := 0 to |ring|
      invariant forall k :: 0 <= k < i ==> InRange(ring[k])
    {
      if !(-90.0 <= ring[i].y <= 90.0) { return Err(BadLatitude); }
      if !(-180.0 <= ring[i].x <= 180.0) { return Err(BadLongitude); }
    }
    return Ok(());
  }

  /** `_validate_geometry` */
  method ValidateGeometry(g: Geometry) returns (r: Result<(), GeofenceError>)
    ensures r.Ok? <==> ValidGeometry(g)
  {
    var polygons := if g.Polygon? then [g.rings] else g.polygons;
    if (g.Polygon? && g.rings == []) || polygons == [] { return Err(EmptyCoordinates); }
    for i := 0 to |polygons|
      invariant forall k :: 0 <= k < i ==> ValidPolygon(polygons[k])
    {
      assert g.Polygon? ==> polygons[i] == g.rings;
      if polygons[i] == [] { return Err(EmptyPolygon); }
      for j := 0 to |polygons[i]|
        invariant forall k :: 0 <= k < j ==> ValidRing(polygons[i][k])
      {
        r := ValidateRing(polygons[i][j]);
        if r.Err? { return; }
      }
    }
    assert g.Polygon? ==> polygons[0] == g.rings;
    return Ok(());
  }

  // ---- redrawn geofences ----

  /** The same closed ring, started elsewhere or drawn in the other direction. */
  ghost predicate Redrawn(a: Ring, b: Ring) {
    b == a || b == Reversed(a) || (exists k: nat :: k < |a| && b == Rotated(a, k))
    || (exists k: nat :: k < |a| && b == Reversed(Rotated(a, k)))
  }

  lemma RedrawnContains(a: Ring, b: Ring, p: Coordinate)
    requires ValidRing(a) && Redrawn(a, b)
    ensures RingContains(a, p) == RingContains(b, p)
  {
    ReversalInvariant(a, p);
    if k: nat :| k < |a| && b == Rotated(a, k) { RotationInvariant(a, k, p); }
    if k: nat :| k < |a| && b == Reversed(Rotated(a, k)) {
      RotationInvariant(a, k, p);
      ReversalInvariant(Rotated(a, k), p);
    }
  }

  /** The outer ring and the holes redrawn, the holes in the order they were. */
  ghost predicate PolygonRedrawn(a: seq<Ring>, b: seq<Ring>) {
    |a| == |b| && forall i :: 0 <= i < |a| ==> Redrawn(a[i], b[i])
  }

  lemma PolygonRedrawnContains(a: seq<Ring>, b: seq<Ring>, p: Coordinate)
    requires ValidPolygon(a) && PolygonRedrawn(a, b)
    ensures PolygonContains(a, p) == PolygonContains(b, p)
  {
    forall i | 0 <= i < |a| ensures RingContains(a[i], p) == RingContains(b[i], p) { RedrawnContains(a[i], b[i], p); }
    forall i | 0 <= i < |a| - 1 ensures RingContains(a[1..][i], p) == RingContains(b[1..][i], p) {
      assert a[1..][i] == a[i + 1] && b[1..][i] == b[i + 1];
    }
  }

  ghost predicate GeometryRedrawn(a: Geometry, b: Geometry) {
    match a
    case Polygon(rings) => b.Polygon? && PolygonRedrawn(rings, b.rings)
    case MultiPolygon(polygons) =>
      && b.MultiPolygon? && |polygons| == |b.polygons|
      && forall i :: 0 <= i < |polygons| ==> PolygonRedrawn(polygons[i], b.polygons[i])
  }

  /** A geofence contains the same positions however its rings are started and directed. */
  lemma RedrawnGeofenceContains(a: Geometry, b: Geometry, p: Coordinate)
    requires ValidGeometry(a) && GeometryRedrawn(a, b)
    ensures Contains(a, p) == Contains(b, p)
  {
    match a
    case Polygon(rings) => PolygonRedrawnContains(rings, b.rings, p);
    case MultiPolygon(polygons) =>
      forall i | 0 <= i < |polygons| ensures PolygonContains(polygons[i], p) == PolygonContains(b.polygons[i], p) {
        PolygonRedrawnContains(polygons[i], b.polygons[i], p);
      }
  }

  ghost predicate OutsideGeofence(g: Geometry, p: Coordinate) {
    match g
    case Polygon(rings) => rings != [] && Outside(rings[0], p)
    case MultiPolygon(polygons) =>
      forall i :: 0 <= i < |polygons| ==> polygons[i] != [] && Outside(polygons[i][0], p)
  }

  /** A position outside the bounding box of every outer ring is in no validated geofence. */
  lemma OutsideIsNowhere(g: Geometry, p: Coordinate)
    requires ValidGeometry(g) && OutsideGeofence(g, p)
    ensures !Contains(g, p)
  {
    match g
    case Polygon(rings) => OutsideIsNotContained(rings[0], p);
    case MultiPolygon(polygons) =>
      forall i | 0 <= i < |polygons| ensures !PolygonContains(polygons[i], p) {
        OutsideIsNotContained(polygons[i][0], p);
      }
  }
}
