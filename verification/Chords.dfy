/** The chord metric of track simplification: squared distances in the plane. */
module Chords {
  import opened Planar
  import opened RdpTheory

  /** Squared distance of `p` from the infinite line through `a` and `b`, or from `a` when they coincide. */
  function SquaredOffset(p: Coordinate, a: Coordinate, b: Coordinate): real {
    var dx, dy := b.x - a.x, b.y - a.y;
    var lengthSq := dx * dx + dy * dy;
    if lengthSq == 0.0 then (p.x - a.x) * (p.x - a.x) + (p.y - a.y) * (p.y - a.y)
    else
      var numerator := dy * p.x - dx * p.y + b.x * a.y - b.y * a.x;
      numerator * numerator / lengthSq
  }

  lemma OffsetNonNegative(p: Coordinate, a: Coordinate, b: Coordinate)
    ensures SquaredOffset(p, a, b) >= 0.0
  {
    var dx, dy := b.x - a.x, b.y - a.y;
    SquareNonNegative(dx);
    SquareNonNegative(dy);
    SquareNonNegative(p.x - a.x);
    SquareNonNegative(p.y - a.y);
    var numerator := dy * p.x - dx * p.y + b.x * a.y - b.y * a.x;
    SquareNonNegative(numerator);
    if dx * dx + dy * dy != 0.0 { QuotientNonNegative(numerator * numerator, dx * dx + dy * dy); }
  }

  lemma SquaredOffsetNonNegative()
    ensures NonNegative(SquaredOffset)
  {
    forall p: Coordinate, a: Coordinate, b: Coordinate ensures SquaredOffset(p, a, b) >= 0.0 {
      OffsetNonNegative(p, a, b);
    }
  }

  lemma SquareNonNegative(x: real)
    ensures x * x >= 0.0
  {
  }

  lemma QuotientNonNegative(n: real, d: real)
    requires n >= 0.0 && d > 0.0
    ensures n / d >= 0.0
  {
  }

  // ---- the least distance to a point of the line ----

  function SquaredDistance(p: Coordinate, q: Coordinate): real {
    Times(p.x - q.x, p.x - q.x) + Times(p.y - q.y, p.y - q.y)
  }

  function Cross(ux: real, uy: real, wx: real, wy: real): real { Times(uy, wx) - Times(ux, wy) }

  function Dot(ux: real, uy: real, wx: real, wy: real): real { Times(ux, wx) + Times(uy, wy) }

  /** The squares of the cross and the dot product of two directions add up to the product of their squares. */
  lemma Lagrange(ux: real, uy: real, ex: real, ey: real)
    ensures Times(Dot(ux, uy, ux, uy), Dot(ex, ey, ex, ey)) ==
            Times(Cross(ux, uy, ex, ey), Cross(ux, uy, ex, ey)) + Times(Dot(ux, uy, ex, ey), Dot(ux, uy, ex, ey))
  {
  }

  lemma CrossAlong(ux: real, uy: real, wx: real, wy: real, s: real)
    ensures Cross(ux, uy, wx - Times(s, ux), wy - Times(s, uy)) == Cross(ux, uy, wx, wy)
    ensures Dot(ux, uy, wx - Times(s, ux), wy - Times(s, uy)) ==
            Dot(ux, uy, wx, wy) - Times(s, Dot(ux, uy, ux, uy))
  {
  }

  /** The metric in terms of the directions `u` of the line and `w` from its start to the point. */
  function OffsetOf(ux: real, uy: real, wx: real, wy: real): real {
    var l := Dot(ux, uy, ux, uy);
    if l == 0.0 then Dot(wx, wy, wx, wy) else Times(Cross(ux, uy, wx, wy), Cross(ux, uy, wx, wy)) / l
  }

  /** The squared distance to the point of the line at `s`. */
  function DistanceAt(ux: real, uy: real, wx: real, wy: real, s: real): real {
    Dot(wx - Times(s, ux), wy - Times(s, uy), wx - Times(s, ux), wy - Times(s, uy))
  }

  lemma Numerator(p: Coordinate, a: Coordinate, b: Coordinate)
    ensures var dx, dy := b.x - a.x, b.y - a.y;
      dy * p.x - dx * p.y + b.x * a.y - b.y * a.x == Cross(dx, dy, p.x - a.x, p.y - a.y)
  {
  }

  lemma OffsetByDirections(p: Coordinate, a: Coordinate, b: Coordinate)
    ensures SquaredOffset(p, a, b) == OffsetOf(b.x - a.x, b.y - a.y, p.x - a.x, p.y - a.y)
  {
    Numerator(p, a, b);
  }

  lemma DistanceByDirections(p: Coordinate, a: Coordinate, b: Coordinate, s: real)
    ensures SquaredDistance(p, Along(a, b, s)) == DistanceAt(b.x - a.x, b.y - a.y, p.x - a.x, p.y - a.y, s)
  {
  }

  lemma SquareOf(x: real)
    ensures Times(x, x) >= 0.0 && (Times(x, x) == 0.0 <==> x == 0.0)
  {
    if x > 0.0 { TimesSign(x, x); } else if x < 0.0 { TimesSign(-x, -x); }
  }

  lemma NoDirection(ux: real, uy: real)
    ensures Dot(ux, uy, ux, uy) >= 0.0 && (Dot(ux, uy, ux, uy) == 0.0 <==> ux == 0.0 && uy == 0.0)
  {
    SquareOf(ux);
    SquareOf(uy);
  }

  /** The distance to the point at `s`, times the square of the direction. */
  lemma DistanceProduct(ux: real, uy: real, wx: real, wy: real, s: real)
    ensures var c, o := Cross(ux, uy, wx, wy), Dot(ux, uy, wx, wy) - Times(s, Dot(ux, uy, ux, uy));
      Times(Dot(ux, uy, ux, uy), DistanceAt(ux, uy, wx, wy, s)) == Times(c, c) + Times(o, o)
  {
    CrossAlong(ux, uy, wx, wy, s);
    Lagrange(ux, uy, wx - Times(s, ux), wy - Times(s, uy));
  }

  lemma DivideOut(l: real, d: real, c: real, o: real)
    requires l > 0.0 && Times(l, d) == c + o && o >= 0.0
    ensures c / l <= d && (o == 0.0 ==> c / l == d)
  {
    assert Times(l, d) / l == d;
  }

  lemma TimesZero(s: real)
    ensures Times(s, 0.0) == 0.0 && Times(0.0, s) == 0.0
  {
  }

  lemma NoDirectionDistance(wx: real, wy: real, s: real)
    ensures DistanceAt(0.0, 0.0, wx, wy, s) == Dot(wx, wy, wx, wy)
  {
    TimesZero(s);
  }

  lemma LeastBy(l: real, c: real, w: real, d: real, o: real, offset: real)
    requires l >= 0.0 && offset == (if l == 0.0 then w else c / l)
    requires Times(l, d) == c + Times(o, o) && (l == 0.0 ==> d == w)
    ensures offset <= d && (o == 0.0 ==> offset == d)
  {
    SquareOf(o);
    if l != 0.0 { DivideOut(l, d, c, Times(o, o)); }
  }

  lemma LeastAt(ux: real, uy: real, wx: real, wy: real, s: real)
    ensures OffsetOf(ux, uy, wx, wy) <= DistanceAt(ux, uy, wx, wy, s)
    ensures Dot(ux, uy, wx, wy) - Times(s, Dot(ux, uy, ux, uy)) == 0.0 ==>
              OffsetOf(ux, uy, wx, wy) == DistanceAt(ux, uy, wx, wy, s)
  {
    NoDirection(ux, uy);
    DistanceProduct(ux, uy, wx, wy, s);
    NoDirectionDistance(wx, wy, s);
    LeastBy(Dot(ux, uy, ux, uy), Times(Cross(ux, uy, wx, wy), Cross(ux, uy, wx, wy)), Dot(wx, wy, wx, wy),
            DistanceAt(ux, uy, wx, wy, s), Dot(ux, uy, wx, wy) - Times(s, Dot(ux, uy, ux, uy)), OffsetOf(ux, uy, wx, wy));
  }

  lemma Quotient(n: real, d: real)
    requires d != 0.0
    ensures Times(n / d, d) == n
  {
  }

  /** No point of the line is nearer. */
  lemma OffsetIsLeast(p: Coordinate, a: Coordinate, b: Coordinate, s: real)
    ensures SquaredOffset(p, a, b) <= SquaredDistance(p, Along(a, b, s))
  {
    OffsetByDirections(p, a, b);
    DistanceByDirections(p, a, b, s);
    LeastAt(b.x - a.x, b.y - a.y, p.x - a.x, p.y - a.y, s);
  }

  /** Where the nearest point of the line is. */
  function Foot(ux: real, uy: real, wx: real, wy: real): real {
    if Dot(ux, uy, ux, uy) == 0.0 then 0.0 else Dot(ux, uy, wx, wy) / Dot(ux, uy, ux, uy)
  }

  lemma NoDirectionDot(wx: real, wy: real)
    ensures Dot(0.0, 0.0, wx, wy) == 0.0
  {
    TimesZero(wx);
    TimesZero(wy);
  }

  lemma FootBy(l: real, n: real, s: real)
    requires s == (if l == 0.0 then 0.0 else n / l) && (l == 0.0 ==> n == 0.0)
    ensures n - Times(s, l) == 0.0
  {
    TimesZero(s);
    if l != 0.0 { Quotient(n, l); }
  }

  lemma FootIsPerpendicular(ux: real, uy: real, wx: real, wy: real)
    ensures Dot(ux, uy, wx, wy) - Times(Foot(ux, uy, wx, wy), Dot(ux, uy, ux, uy)) == 0.0
  {
    NoDirection(ux, uy);
    NoDirectionDot(wx, wy);
    FootBy(Dot(ux, uy, ux, uy), Dot(ux, uy, wx, wy), Foot(ux, uy, wx, wy));
  }

  /** Some point of the line is as near. */
  lemma OffsetIsReached(p: Coordinate, a: Coordinate, b: Coordinate) returns (s: real)
    ensures SquaredOffset(p, a, b) == SquaredDistance(p, Along(a, b, s))
  {
    s := Foot(b.x - a.x, b.y - a.y, p.x - a.x, p.y - a.y);
    FootIsPerpendicular(b.x - a.x, b.y - a.y, p.x - a.x, p.y - a.y);
    LeastAt(b.x - a.x, b.y - a.y, p.x - a.x, p.y - a.y, s);
    OffsetByDirections(p, a, b);
    DistanceByDirections(p, a, b, s);
  }

  /** Some point of the line through `a` and `b`, or `a` itself, is within a distance of `p`. */
  ghost predicate IsNearLine(p: Coordinate, a: Coordinate, b: Coordinate, distance: real) {
    exists s :: SquaredDistance(p, Along(a, b, s)) <= Times(distance, distance)
  }

  /** A limit on the metric is a limit on the distance from the line. */
  lemma NearLineIff(p: Coordinate, a: Coordinate, b: Coordinate, distance: real)
    ensures SquaredOffset(p, a, b) <= Times(distance, distance) <==> IsNearLine(p, a, b, distance)
  {
    var s := OffsetIsReached(p, a, b);
    if t :| SquaredDistance(p, Along(a, b, t)) <= Times(distance, distance) { OffsetIsLeast(p, a, b, t); }
  }
}
