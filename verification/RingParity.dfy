/** Ring parity over GeoJSON rings: boundary first, else an odd number of edges to the right of the position. */
module RingParity {
  import opened Planar

  const TOLERANCE: real := 0.000000000001

  /** GeoJSON coordinates, [longitude, latitude]. */
  type Ring = seq<Coordinate>

  datatype Edge = Edge(a: Coordinate, b: Coordinate) {
    function Flip(): Edge { Edge(b, a) }
  }

  function Min(a: real, b: real): real { if b < a then b else a }
  function Max(a: real, b: real): real { if b > a then b else a }
  function Abs(a: real): real { if a < 0.0 then -a else a }

  function Cross(e: Edge, p: Coordinate): real {
    (p.y - e.a.y) * (e.b.x - e.a.x) - (p.x - e.a.x) * (e.b.y - e.a.y)
  }

  predicate NearBox(e: Edge, p: Coordinate) {
    && Min(e.a.x, e.b.x) - TOLERANCE <= p.x <= Max(e.a.x, e.b.x) + TOLERANCE
    && Min(e.a.y, e.b.y) - TOLERANCE <= p.y <= Max(e.a.y, e.b.y) + TOLERANCE
  }

  /** `_point_on_segment` */
  predicate OnSegment(e: Edge, p: Coordinate) {
    if Abs(Cross(e, p)) > TOLERANCE then false else NearBox(e, p)
  }

  predicate Crosses(e: Edge, y: real) { (e.a.y > y) != (e.b.y > y) }

  function IntersectionX(e: Edge, y: real): real
    requires Crosses(e, y)
  {
    (e.b.x - e.a.x) * (y - e.a.y) / (e.b.y - e.a.y) + e.a.x
  }

  /** The edge crosses the horizontal line through the position, to the right of it. */
  predicate Counts(e: Edge, p: Coordinate) { Crosses(e, p.y) && p.x < IntersectionX(e, p.y) }

  // ---- edges of a ring ----

  function Edges(ring: Ring): (r: seq<Edge>)
    ensures |r| == if ring == [] then 0 else |ring| - 1
    ensures forall i, j :: 0 <= i && j == i + 1 < |ring| ==> r[i] == Edge(ring[i], ring[j])
  {
    if ring == [] then [] else seq(|ring| - 1, i requires 0 <= i < |ring| - 1 => Edge(ring[i], ring[i + 1]))
  }

  function Count(f: Edge -> bool, edges: seq<Edge>): nat {
    if edges == [] then 0 else Count(f, edges[..|edges| - 1]) + (if f(edges[|edges| - 1]) then 1 else 0)
  }

  predicate Any(f: Edge -> bool, edges: seq<Edge>) { exists i :: 0 <= i < |edges| && f(edges[i]) }

  /** On the boundary, or right of it an odd number of edges. */
  predicate Parity(on: Edge -> bool, counts: Edge -> bool, edges: seq<Edge>) {
    Any(on, edges) || Count(counts, edges) % 2 == 1
  }

  /** What `_ring_contains` decides. */
  predicate RingContains(ring: Ring, p: Coordinate) {
    Parity(e => OnSegment(e, p), e => Counts(e, p), Edges(ring))
  }

  lemma {:induction false} CountAppend(f: Edge -> bool, a: seq<Edge>, b: seq<Edge>)
    ensures Count(f, a + b) == Count(f, a) + Count(f, b)
  {
    if b == [] {
      assert a + b == a;
    } else {
      assert (a + b)[..|a + b| - 1] == a + b[..|b| - 1];
      CountAppend(f, a, b[..|b| - 1]);
    }
  }

  lemma AnyAppend(f: Edge -> bool, a: seq<Edge>, b: seq<Edge>)
    ensures Any(f, a + b) <==> Any(f, a) || Any(f, b)
  {
    if i :| 0 <= i < |a| && f(a[i]) { assert (a + b)[i] == a[i]; }
    if i :| 0 <= i < |b| && f(b[i]) { assert (a + b)[|a| + i] == b[i]; }
    if i :| 0 <= i < |a + b| && f((a + b)[i]) {
      assert i < |a| ==> a[i] == (a + b)[i];
      assert i >= |a| ==> b[i - |a|] == (a + b)[i];
    }
  }

  // ---- rotation ----

  /** The ring started at its vertex `k`. */
  function Rotated(ring: Ring, k: nat): Ring
    requires k < |ring|
  {
    ring[k..|ring| - 1] + ring[..k + 1]
  }

  ghost predicate Closed(ring: Ring) { ring != [] && ring[0] == ring[|ring| - 1] }

  lemma RotatedAt(ring: Ring, k: nat, i: nat)
    requires Closed(ring) && k < |ring| && i < |ring|
    ensures |Rotated(ring, k)| == |ring|
    ensures Rotated(ring, k)[i] == if k + i < |ring| then ring[k + i] else ring[k + i - (|ring| - 1)]
  {
    assert k + i == |ring| - 1 ==> Rotated(ring, k)[i] == ring[0];
  }

  lemma EdgeAt(ring: Ring, i: nat)
    requires i + 1 < |ring|
    ensures Edges(ring)[i] == Edge(ring[i], ring[i + 1])
  {
    var j := i + 1;
  }

  lemma RotatedEdgeAt(ring: Ring, k: nat, i: nat)
    requires Closed(ring) && k < |ring| && i + 1 < |ring|
    ensures |Rotated(ring, k)| == |ring|
    ensures Edges(Rotated(ring, k))[i] == Edges(ring)[if k + i < |ring| - 1 then k + i else k + i - (|ring| - 1)]
  {
    RotatedAt(ring, k, i);
    RotatedAt(ring, k, i + 1);
    EdgeAt(Rotated(ring, k), i);
    var s := if k + i < |ring| - 1 then k + i else k + i - (|ring| - 1);
    EdgeAt(ring, s);
    assert ring[0] == ring[|ring| - 1];
  }

  lemma RotatedEdges(ring: Ring, k: nat)
    requires Closed(ring) && k < |ring|
    ensures Closed(Rotated(ring, k)) && Edges(Rotated(ring, k)) == Edges(ring)[k..] + Edges(ring)[..k]
  {
    RotatedAt(ring, k, 0);
    RotatedAt(ring, k, |ring| - 1);
    forall i | 0 <= i < |ring| - 1
      ensures Edges(Rotated(ring, k))[i] == (Edges(ring)[k..] + Edges(ring)[..k])[i]
    {
      RotatedEdgeAt(ring, k, i);
    }
  }

  lemma ParityRotated(on: Edge -> bool, counts: Edge -> bool, a: seq<Edge>, b: seq<Edge>)
    ensures Parity(on, counts, a + b) == Parity(on, counts, b + a)
  {
    AnyAppend(on, a, b);
    AnyAppend(on, b, a);
    CountAppend(counts, a, b);
    CountAppend(counts, b, a);
  }

  lemma RotatedParity(on: Edge -> bool, counts: Edge -> bool, ring: Ring, k: nat)
    requires Closed(ring) && k < |ring|
    ensures Parity(on, counts, Edges(Rotated(ring, k))) == Parity(on, counts, Edges(ring))
  {
    var edges := Edges(ring);
    RotatedEdges(ring, k);
    ParityRotated(on, counts, edges[..k], edges[k..]);
    assert edges == edges[..k] + edges[k..];
  }

  /** Containment does not depend on the vertex a closed ring starts at. */
  lemma RotationInvariant(ring: Ring, k: nat, p: Coordinate)
    requires Closed(ring) && k < |ring|
    ensures RingContains(Rotated(ring, k), p) == RingContains(ring, p)
  {
    RotatedParity(e => OnSegment(e, p), e => Counts(e, p), ring, k);
  }

  // ---- reversal ----

  function Reversed<T>(s: seq<T>): (r: seq<T>)
    ensures |r| == |s| && forall i :: 0 <= i < |s| ==> r[i] == s[|s| - 1 - i]
  {
    if s == [] then [] else Reversed(s[1..]) + [s[0]]
  }

  function Flipped(edges: seq<Edge>): (r: seq<Edge>)
    ensures |r| == |edges| && forall i :: 0 <= i < |r| ==> r[i] == edges[i].Flip()
  {
    seq(|edges|, i requires 0 <= i < |edges| => edges[i].Flip())
  }

  lemma ReversedEdgeAt(ring: Ring, i: nat)
    requires i + 1 < |ring|
    ensures Edges(Reversed(ring))[i] == Edges(ring)[|ring| - 2 - i].Flip()
  {
    EdgeAt(Reversed(ring), i);
    EdgeAt(ring, |ring| - 2 - i);
  }

  lemma FlippedAt(edges: seq<Edge>, i: nat)
    requires i < |edges|
    ensures Reversed(Flipped(edges))[i] == edges[|edges| - 1 - i].Flip()
  {
  }

  lemma SameEdges(a: seq<Edge>, b: seq<Edge>)
    requires |a| == |b| && forall i :: 0 <= i < |a| ==> a[i] == b[i]
    ensures a == b
  {
  }

  lemma ReversedEdges(ring: Ring)
    ensures Edges(Reversed(ring)) == Reversed(Flipped(Edges(ring)))
  {
    var a, b := Edges(Reversed(ring)), Reversed(Flipped(Edges(ring)));
    forall i | 0 <= i < |a| ensures a[i] == b[i] {
      ReversedEdgeAt(ring, i);
      FlippedAt(Edges(ring), i);
    }
    SameEdges(a, b);
  }

  lemma ReversedStep(edges: seq<Edge>)
    requires edges != []
    ensures Reversed(Flipped(edges)) == Reversed(Flipped(edges[1..])) + [edges[0].Flip()]
  {
    assert Flipped(edges)[1..] == Flipped(edges[1..]);
  }

  lemma {:induction false} CountReversed(f: Edge -> bool, edges: seq<Edge>)
    requires forall e: Edge :: f(e.Flip()) == f(e)
    ensures Count(f, Reversed(Flipped(edges))) == Count(f, edges)
  {
    if edges != [] {
      var head, tail := edges[0], edges[1..];
      CountReversed(f, tail);
      ReversedStep(edges);
      CountAppend(f, Reversed(Flipped(tail)), [head.Flip()]);
      CountAppend(f, [head], tail);
      assert edges == [head] + tail;
      assert Count(f, [head]) == Count(f, [head.Flip()]) by { CountOne(f, head); CountOne(f, head.Flip()); }
    }
  }

  lemma CountOne(f: Edge -> bool, e: Edge)
    ensures Count(f, [e]) == if f(e) then 1 else 0
  {
    assert [e][..0] == [];
  }

  lemma AnyReversed(f: Edge -> bool, edges: seq<Edge>)
    requires forall e: Edge :: f(e.Flip()) == f(e)
    ensures Any(f, Reversed(Flipped(edges))) == Any(f, edges)
  {
    var r, n := Reversed(Flipped(edges)), |edges|;
    forall i | 0 <= i < n ensures f(r[i]) == f(edges[n - 1 - i]) {
      assert r[i] == edges[n - 1 - i].Flip();
    }
    if i :| 0 <= i < n && f(edges[i]) { assert f(r[n - 1 - i]); }
  }

  lemma CrossFlips(e: Edge, p: Coordinate)
    ensures Cross(e.Flip(), p) == -Cross(e, p)
  {
    var u, v, dx, dy := p.y - e.a.y, p.x - e.a.x, e.b.x - e.a.x, e.b.y - e.a.y;
    assert Cross(e.Flip(), p) == (u - dy) * (-dx) - (v - dx) * (-dy);
    assert (u - dy) * (-dx) == dy * dx - u * dx;
    assert (v - dx) * (-dy) == dx * dy - v * dy;
  }

  lemma OnSegmentFlips(e: Edge, p: Coordinate)
    ensures OnSegment(e.Flip(), p) == OnSegment(e, p)
  {
    CrossFlips(e, p);
    assert Abs(Cross(e.Flip(), p)) == Abs(Cross(e, p));
    assert NearBox(e.Flip(), p) == NearBox(e, p);
  }

  /** The intersection is the point of the edge's line at that height. */
  lemma IntersectionOnLine(e: Edge, y: real)
    requires Crosses(e, y)
    ensures (IntersectionX(e, y) - e.a.x) * (e.b.y - e.a.y) == (e.b.x - e.a.x) * (y - e.a.y)
  {
    var n, d := (e.b.x - e.a.x) * (y - e.a.y), e.b.y - e.a.y;
    assert n / d * d == n;
  }

  lemma EqualFactors(s: real, t: real, d: real)
    requires d != 0.0 && s * d == t * d
    ensures s == t
  {
    assert (s - t) * d == 0.0;
  }

  lemma IntersectionFlips(e: Edge, y: real)
    requires Crosses(e, y)
    ensures Crosses(e.Flip(), y) && IntersectionX(e.Flip(), y) == IntersectionX(e, y)
  {
    var dx, dy, u := e.b.x - e.a.x, e.b.y - e.a.y, y - e.a.y;
    var s, t := IntersectionX(e, y) - e.a.x, IntersectionX(e.Flip(), y) - e.a.x;
    IntersectionOnLine(e, y);
    IntersectionOnLine(e.Flip(), y);
    assert (t - dx) * (-dy) == (-dx) * (u - dy);
    assert (t - dx) * (-dy) == dx * dy - t * dy;
    assert (-dx) * (u - dy) == dx * dy - dx * u;
    EqualFactors(s, t, dy);
  }

  lemma CountsFlips(e: Edge, p: Coordinate)
    ensures Counts(e.Flip(), p) == Counts(e, p)
  {
    if Crosses(e, p.y) { IntersectionFlips(e, p.y); }
  }

  /** Containment does not depend on the direction a ring is drawn in. */
  lemma ReversalInvariant(ring: Ring, p: Coordinate)
    ensures RingContains(Reversed(ring), p) == RingContains(ring, p)
  {
    forall e: Edge ensures OnSegment(e.Flip(), p) == OnSegment(e, p) && Counts(e.Flip(), p) == Counts(e, p) {
      OnSegmentFlips(e, p);
      CountsFlips(e, p);
    }
    ReversedEdges(ring);
    AnyReversed(e => OnSegment(e, p), Edges(ring));
    CountReversed(e => Counts(e, p), Edges(ring));
  }

  // ---- outside the bounding box ----

  ghost predicate LeftOf(ring: Ring, x: real) { forall c :: c in ring ==> x < c.x - 0.000000000001 }
  ghost predicate RightOf(ring: Ring, x: real) { forall c :: c in ring ==> x > c.x + 0.000000000001 }
  ghost predicate Below(ring: Ring, y: real) { forall c :: c in ring ==> y < c.y - 0.000000000001 }
  ghost predicate Above(ring: Ring, y: real) { forall c :: c in ring ==> y > c.y + 0.000000000001 }

  /** More than the tolerance away from the ring's bounding box. */
  ghost predicate Outside(ring: Ring, p: Coordinate) {
    LeftOf(ring, p.x) || RightOf(ring, p.x) || Below(ring, p.y) || Above(ring, p.y)
  }

  lemma {:induction false} CountNone(f: Edge -> bool, edges: seq<Edge>)
    requires forall i :: 0 <= i < |edges| ==> !f(edges[i])
    ensures Count(f, edges) == 0
  {
    if edges != [] { CountNone(f, edges[..|edges| - 1]); }
  }

  lemma {:induction false} CountSame(f: Edge -> bool, g: Edge -> bool, edges: seq<Edge>)
    requires forall i :: 0 <= i < |edges| ==> f(edges[i]) == g(edges[i])
    ensures Count(f, edges) == Count(g, edges)
  {
    if edges != [] { CountSame(f, g, edges[..|edges| - 1]); }
  }

  /** Along a path a side is left an odd number of times exactly when its ends are on different sides. */
  lemma {:induction false} SideParity(side: Coordinate -> bool, f: Edge -> bool, path: Ring)
    requires path != [] && forall e: Edge :: f(e) <==> side(e.a) != side(e.b)
    ensures Count(f, Edges(path)) % 2 == 1 <==> side(path[0]) != side(path[|path| - 1])
  {
    if |path| > 1 {
      var front, last := path[..|path| - 1], Edge(path[|path| - 2], path[|path| - 1]);
      SideParity(side, f, front);
      LastEdge(path);
      CountOneMore(f, Edges(front), last);
      assert front[|front| - 1] == last.a;
    }
  }

  lemma CountOneMore(f: Edge -> bool, edges: seq<Edge>, e: Edge)
    ensures Count(f, edges + [e]) == Count(f, edges) + (if f(e) then 1 else 0)
  {
    assert (edges + [e])[..|edges|] == edges;
  }

  lemma LastEdge(path: Ring)
    requires |path| > 1
    ensures Edges(path) == Edges(path[..|path| - 1]) + [Edge(path[|path| - 2], path[|path| - 1])]
  {
    EdgeAt(path, |path| - 2);
  }

  /**
   * Along a path the line at a height is crossed an odd number of times exactly when the ends are on different
   * sides.
   */
  lemma CrossingParity(path: Ring, y: real)
    requires path != []
    ensures Count(e => Crosses(e, y), Edges(path)) % 2 == 1 <==> (path[0].y > y) != (path[|path| - 1].y > y)
  {
    SideParity((c: Coordinate) => c.y > y, e => Crosses(e, y), path);
  }

  /** The intersection lies between the ends of the edge. */
  lemma IntersectionBetween(e: Edge, y: real)
    requires Crosses(e, y)
    ensures Min(e.a.x, e.b.x) <= IntersectionX(e, y) <= Max(e.a.x, e.b.x)
  {
    var dx, dy, u, s := e.b.x - e.a.x, e.b.y - e.a.y, y - e.a.y, IntersectionX(e, y) - e.a.x;
    IntersectionOnLine(e, y);
    assert s * dy == dx * u;
    Between(s, dx, u, dy);
  }

  /** s = dx * (u / dy) with u between 0 and dy. */
  lemma Between(s: real, dx: real, u: real, dy: real)
    requires dy != 0.0 && s * dy == dx * u
    requires (0.0 <= u <= dy) || (dy <= u <= 0.0)
    ensures (0.0 <= s <= dx) || (dx <= s <= 0.0)
  {
    var q := u / dy;
    assert q * dy == u;
    Fraction(q, u, dy);
    assert s == dx * q by {
      assert (dx * q) * dy == dx * (q * dy);
      EqualFactors(s, dx * q, dy);
    }
    if dx >= 0.0 {
      Product(dx, q);
      Product(dx, 1.0 - q);
    } else {
      Product(-dx, q);
      Product(-dx, 1.0 - q);
    }
  }

  lemma Product(a: real, b: real)
    requires a >= 0.0 && b >= 0.0
    ensures a * b >= 0.0
  {
  }

  lemma Fraction(q: real, u: real, dy: real)
    requires dy != 0.0 && q * dy == u && ((0.0 <= u <= dy) || (dy <= u <= 0.0))
    ensures 0.0 <= q <= 1.0
  {
    if q < 0.0 {
      if dy > 0.0 { Negative(q, dy); } else { Negative(q, -dy); }
    }
    if q > 1.0 {
      if dy > 0.0 { Negative(1.0 - q, dy); } else { Negative(1.0 - q, -dy); }
    }
  }

  lemma Negative(a: real, b: real)
    requires a < 0.0 && b > 0.0
    ensures a * b < 0.0
  {
  }

  lemma NotOnBoundary(ring: Ring, p: Coordinate)
    requires Outside(ring, p)
    ensures !Any(e => OnSegment(e, p), Edges(ring))
  {
    forall i | 0 <= i < |Edges(ring)| ensures !OnSegment(Edges(ring)[i], p) {
      var j := i + 1;
      assert Edges(ring)[i] == Edge(ring[i], ring[j]);
      assert ring[i] in ring && ring[j] in ring;
    }
  }

  /** A position more than the tolerance outside the bounding box of a closed ring is never contained. */
  lemma OutsideIsNotContained(ring: Ring, p: Coordinate)
    requires Closed(ring) && Outside(ring, p)
    ensures !RingContains(ring, p)
  {
    var edges := Edges(ring);
    NotOnBoundary(ring, p);
    if LeftOf(ring, p.x) {
      forall i | 0 <= i < |edges| ensures Counts(edges[i], p) == Crosses(edges[i], p.y) {
        var j := i + 1;
        assert edges[i] == Edge(ring[i], ring[j]) && ring[i] in ring && ring[j] in ring;
        if Crosses(edges[i], p.y) { IntersectionBetween(edges[i], p.y); }
      }
      CountSame(e => Counts(e, p), e => Crosses(e, p.y), edges);
      CrossingParity(ring, p.y);
    } else {
      forall i | 0 <= i < |edges| ensures !Counts(edges[i], p) {
        var j := i + 1;
        assert edges[i] == Edge(ring[i], ring[j]) && ring[i] in ring && ring[j] in ring;
        if Crosses(edges[i], p.y) { IntersectionBetween(edges[i], p.y); }
      }
      CountNone(e => Counts(e, p), edges);
    }
  }
}
