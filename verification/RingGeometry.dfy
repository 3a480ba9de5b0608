/** Containment in coordinates: what the boundary test and the parity count mean in the plane. */
module RingGeometry {
  import opened Planar
  import opened RingParity
  import opened Geofences

  /** Exactly one end is above the position, and the edge has a point level with it and to the right of it. */
  ghost predicate MeetsRay(a: Coordinate, b: Coordinate, p: Coordinate) {
    && (a.y > p.y) != (b.y > p.y)
    && exists s :: 0.0 <= s <= 1.0 && Along(a, b, s).y == p.y && Along(a, b, s).x > p.x
  }

  /** Within 1e-12 of the box of the edge, and with a cross product of at most 1e-12. */
  predicate Touches(a: Coordinate, b: Coordinate, p: Coordinate) {
    && -0.000000000001 <= Times(p.y - a.y, b.x - a.x) - Times(p.x - a.x, b.y - a.y) <= 0.000000000001
    && (a.x - 0.000000000001 <= p.x || b.x - 0.000000000001 <= p.x)
    && (p.x <= a.x + 0.000000000001 || p.x <= b.x + 0.000000000001)
    && (a.y - 0.000000000001 <= p.y || b.y - 0.000000000001 <= p.y)
    && (p.y <= a.y + 0.000000000001 || p.y <= b.y + 0.000000000001)
  }

  lemma TouchesIff(e: Edge, p: Coordinate)
    ensures OnSegment(e, p) <==> Touches(e.a, e.b, p)
  {
    assert Cross(e, p) == Times(p.y - e.a.y, e.b.x - e.a.x) - Times(p.x - e.a.x, e.b.y - e.a.y);
  }

  lemma Crossed(u: real, v: real, s: real)
    ensures Times(Times(s, u), v) == Times(Times(s, v), u)
  {
  }

  lemma WithinUnit(s: real, d: real)
    requires 0.0 <= s <= 1.0
    ensures d >= 0.0 ==> 0.0 <= Times(s, d) <= d
    ensures d <= 0.0 ==> d <= Times(s, d) <= 0.0
  {
    TimesSign(s, d);
    TimesSign(1.0 - s, d);
    assert Times(1.0 - s, d) == d - Times(s, d);
  }

  /** Every point of an edge touches it. */
  lemma SegmentTouches(a: Coordinate, b: Coordinate, s: real)
    requires 0.0 <= s <= 1.0
    ensures Touches(a, b, Along(a, b, s))
  {
    Crossed(b.y - a.y, b.x - a.x, s);
    WithinUnit(s, b.x - a.x);
    WithinUnit(s, b.y - a.y);
  }

  lemma SameFactor(s: real, t: real, d: real)
    requires d != 0.0 && Times(s, d) == Times(t, d)
    ensures s == t
  {
    assert Times(s - t, d) == 0.0;
  }

  lemma UnitQuotient(u: real, d: real)
    requires d != 0.0 && ((0.0 <= u <= d) || (d <= u <= 0.0))
    ensures 0.0 <= u / d <= 1.0 && Times(u / d, d) == u
  {
  }

  lemma IntersectionAlong(e: Edge, y: real, s: real)
    requires Crosses(e, y) && Times(s, e.b.y - e.a.y) == y - e.a.y
    ensures IntersectionX(e, y) == Along(e.a, e.b, s).x
  {
    var dx, dy, u := e.b.x - e.a.x, e.b.y - e.a.y, y - e.a.y;
    QuotientOf(dx, u, dy, s);
  }

  lemma QuotientOf(dx: real, u: real, dy: real, s: real)
    requires dy != 0.0 && Times(s, dy) == u
    ensures dx * u / dy == Times(s, dx)
  {
    assert dx * u == Times(s, dx) * dy;
  }

  /** The edges that count are those that meet the ray to the right. */
  lemma CountsIff(e: Edge, p: Coordinate)
    ensures Counts(e, p) <==> MeetsRay(e.a, e.b, p)
  {
    if Crosses(e, p.y) {
      var dy, u := e.b.y - e.a.y, p.y - e.a.y;
      UnitQuotient(u, dy);
      var s := u / dy;
      IntersectionAlong(e, p.y, s);
      if MeetsRay(e.a, e.b, p) {
        var t :| 0.0 <= t <= 1.0 && Along(e.a, e.b, t).y == p.y && Along(e.a, e.b, t).x > p.x;
        SameFactor(s, t, dy);
      }
    }
  }

  // ---- whole rings ----

  predicate TouchesAt(ring: Ring, p: Coordinate, i: int) {
    0 <= i < |ring| - 1 && Touches(ring[i], ring[i + 1], p)
  }

  ghost predicate MeetsRayAt(ring: Ring, p: Coordinate, i: int) {
    0 <= i < |ring| - 1 && MeetsRay(ring[i], ring[i + 1], p)
  }

  /** Where the edges start that meet the ray. */
  ghost function RayEdges(ring: Ring, p: Coordinate): set<int> {
    set i | 0 <= i < |ring| && MeetsRayAt(ring, p, i)
  }

  lemma {:induction false} CountIsSize(f: Edge -> bool, edges: seq<Edge>, hits: set<int>)
    requires forall i :: i in hits <==> 0 <= i < |edges| && f(edges[i])
    ensures Count(f, edges) == |hits|
  {
    if edges == [] {
      forall i ensures i !in hits {}
    } else {
      var n := |edges| - 1;
      var front := edges[..n];
      CountIsSize(f, front, hits - {n});
      if f(edges[n]) { assert hits == (hits - {n}) + {n}; } else { assert hits == hits - {n}; }
    }
  }

  /** A ring contains what touches one of its edges and what has an odd number of edges to its right. */
  lemma RingContainsIff(ring: Ring, p: Coordinate)
    ensures RingContains(ring, p) <==>
            (exists i :: TouchesAt(ring, p, i)) || |RayEdges(ring, p)| % 2 == 1
  {
    var edges := Edges(ring);
    var on, counts := (e: Edge) => OnSegment(e, p), (e: Edge) => Counts(e, p);
    forall i | 0 <= i < |edges|
      ensures edges[i] == Edge(ring[i], ring[i + 1])
      ensures on(edges[i]) <==> TouchesAt(ring, p, i)
      ensures counts(edges[i]) <==> MeetsRayAt(ring, p, i)
    {
      EdgeAt(ring, i);
      TouchesIff(edges[i], p);
      CountsIff(edges[i], p);
    }
    CountIsSize(counts, edges, RayEdges(ring, p));
    ParityIff(ring, p, on, counts);
  }

  lemma ParityIff(ring: Ring, p: Coordinate, on: Edge -> bool, counts: Edge -> bool)
    requires forall e :: on(e) <==> OnSegment(e, p)
    requires forall e :: counts(e) <==> Counts(e, p)
    ensures RingContains(ring, p) <==> Any(on, Edges(ring)) || Count(counts, Edges(ring)) % 2 == 1
  {
    CountSame(counts, e => Counts(e, p), Edges(ring));
  }

  // ---- geofences ----

  /** It touches an edge, or an odd number of edges are to its right. */
  ghost predicate InRing(ring: Ring, p: Coordinate) {
    (exists i :: TouchesAt(ring, p, i)) || |RayEdges(ring, p)| % 2 == 1
  }

  /** It is in the first ring and in none of the others. */
  ghost predicate InPolygon(rings: seq<Ring>, p: Coordinate) {
    rings != [] && InRing(rings[0], p) && forall i :: 1 <= i < |rings| ==> !InRing(rings[i], p)
  }

  lemma PolygonContainsIff(rings: seq<Ring>, p: Coordinate)
    ensures PolygonContains(rings, p) <==> InPolygon(rings, p)
  {
    forall i | 0 <= i < |rings| ensures RingContains(rings[i], p) <==> InRing(rings[i], p) {
      RingContainsIff(rings[i], p);
    }
    if rings != [] {
      var holes := rings[1..];
      assert forall i :: 0 <= i < |holes| ==> holes[i] == rings[i + 1];
      assert forall i :: 1 <= i < |rings| ==> rings[i] == holes[i - 1];
    }
  }

  /** A geofence contains what one of its polygons contains. */
  lemma GeofenceContainsIff(g: Geometry, p: Coordinate)
    ensures g.Polygon? ==> (Contains(g, p) <==> InPolygon(g.rings, p))
    ensures g.MultiPolygon? ==> (Contains(g, p) <==> exists rings :: rings in g.polygons && InPolygon(rings, p))
  {
    match g
    case Polygon(rings) => PolygonContainsIff(rings, p);
    case MultiPolygon(polygons) =>
      forall rings ensures PolygonContains(rings, p) <==> InPolygon(rings, p) { PolygonContainsIff(rings, p); }
      if rings :| rings in polygons && InPolygon(rings, p) {
        var i :| 0 <= i < |polygons| && polygons[i] == rings;
        assert PolygonContains(polygons[i], p);
      }
  }

  // ---- a rectangle ----

  function Rectangle(x0: real, y0: real, x1: real, y1: real): Ring {
    [Coordinate(x0, y0), Coordinate(x1, y0), Coordinate(x1, y1), Coordinate(x0, y1), Coordinate(x0, y0)]
  }

  lemma LevelEdge(a: Coordinate, b: Coordinate, p: Coordinate)
    requires a.y == b.y
    ensures !MeetsRay(a, b, p)
  {
  }

  lemma UprightEdge(a: Coordinate, b: Coordinate, p: Coordinate)
    requires a.x == b.x && (a.y < p.y < b.y || b.y < p.y < a.y)
    ensures MeetsRay(a, b, p) <==> p.x < a.x
  {
    var u, d := p.y - a.y, b.y - a.y;
    UnitQuotient(u, d);
    var s := u / d;
    assert Along(a, b, s).y == p.y && Along(a, b, s).x == a.x;
  }

  /** What is strictly inside a rectangle is contained in it, and what is outside by more than 1e-12 is not. */
  lemma RectangleContains(x0: real, y0: real, x1: real, y1: real, p: Coordinate)
    requires x0 < x1 && y0 < y1
    ensures x0 < p.x < x1 && y0 < p.y < y1 ==> RingContains(Rectangle(x0, y0, x1, y1), p)
    ensures p.x < x0 - 0.000000000001 || p.x > x1 + 0.000000000001
            || p.y < y0 - 0.000000000001 || p.y > y1 + 0.000000000001 ==>
              !RingContains(Rectangle(x0, y0, x1, y1), p)
  {
    var ring := Rectangle(x0, y0, x1, y1);
    if x0 < p.x < x1 && y0 < p.y < y1 {
      LevelEdge(ring[0], ring[1], p);
      UprightEdge(ring[1], ring[2], p);
      LevelEdge(ring[2], ring[3], p);
      UprightEdge(ring[3], ring[4], p);
      OneRayEdge(ring, p);
      RingContainsIff(ring, p);
    }
    if p.x < x0 - 0.000000000001 || p.x > x1 + 0.000000000001 || p.y < y0 - 0.000000000001 || p.y > y1 + 0.000000000001 {
      OutsideIsNotContained(ring, p);
    }
  }

  lemma OneRayEdge(ring: Ring, p: Coordinate)
    requires |ring| == 5 && !MeetsRay(ring[0], ring[1], p) && MeetsRay(ring[1], ring[2], p)
    requires !MeetsRay(ring[2], ring[3], p) && !MeetsRay(ring[3], ring[4], p)
    ensures |RayEdges(ring, p)| == 1
  {
    forall i ensures i in RayEdges(ring, p) <==> i == 1 {
      assert MeetsRayAt(ring, p, 1);
    }
    assert RayEdges(ring, p) == {1};
  }
}
