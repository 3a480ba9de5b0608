/** Positions in the plane, and what the sign test for intersecting segments decides about them. */
module Planar {

  datatype Coordinate = Coordinate(x: real, y: real)

  function Times(x: real, y: real): real { x * y }

  function Orientation(a: Coordinate, b: Coordinate, c: Coordinate): real {
    Times(b.x - a.x, c.y - a.y) - Times(b.y - a.y, c.x - a.x)
  }

  predicate SegmentsIntersect(p1: Coordinate, p2: Coordinate, q1: Coordinate, q2: Coordinate) {
    var d1, d2 := Orientation(q1, q2, p1), Orientation(q1, q2, p2);
    var d3, d4 := Orientation(p1, p2, q1), Orientation(p1, p2, q2);
    (d1 > 0.0) != (d2 > 0.0) && (d3 > 0.0) != (d4 > 0.0)
  }

  // ---- common points ----

  /** The point that divides the segment from `a` to `b` at `s`. */
  function Along(a: Coordinate, b: Coordinate, s: real): Coordinate {
    Coordinate(a.x + Times(s, b.x - a.x), a.y + Times(s, b.y - a.y))
  }

  /** Both segments hold the point, the first at `s` and the second at `t`. */
  predicate MeetAt(p1: Coordinate, p2: Coordinate, q1: Coordinate, q2: Coordinate, s: real, t: real) {
    0.0 <= s <= 1.0 && 0.0 <= t <= 1.0 && Along(p1, p2, s) == Along(q1, q2, t)
  }

  ghost predicate SharePoint(p1: Coordinate, p2: Coordinate, q1: Coordinate, q2: Coordinate) {
    exists s, t :: MeetAt(p1, p2, q1, q2, s, t)
  }

  /** The segments are not parallel and share a point that is an end of neither. */
  ghost predicate CrossProperly(p1: Coordinate, p2: Coordinate, q1: Coordinate, q2: Coordinate) {
    && Orientation(q1, q2, p1) != Orientation(q1, q2, p2)
    && exists s, t :: MeetAt(p1, p2, q1, q2, s, t) && 0.0 < s < 1.0 && 0.0 < t < 1.0
  }

  /** Each segment has an end strictly to the left of the line through the other. */
  predicate ReachLeft(p1: Coordinate, p2: Coordinate, q1: Coordinate, q2: Coordinate) {
    && (Orientation(q1, q2, p1) > 0.0 || Orientation(q1, q2, p2) > 0.0)
    && (Orientation(p1, p2, q1) > 0.0 || Orientation(p1, p2, q2) > 0.0)
  }

  /** No end of one segment lies on the line through the other. */
  predicate OffLine(p1: Coordinate, p2: Coordinate, q1: Coordinate, q2: Coordinate) {
    && Orientation(q1, q2, p1) != 0.0 && Orientation(q1, q2, p2) != 0.0
    && Orientation(p1, p2, q1) != 0.0 && Orientation(p1, p2, q2) != 0.0
  }

  lemma TimesSign(x: real, y: real)
    requires x >= 0.0
    ensures y >= 0.0 ==> Times(x, y) >= 0.0
    ensures y <= 0.0 ==> Times(x, y) <= 0.0
    ensures x > 0.0 && y > 0.0 ==> Times(x, y) > 0.0
    ensures x > 0.0 && y < 0.0 ==> Times(x, y) < 0.0
  {
  }

  /** Two values whose weighted mean is zero are on different sides of zero, or both are zero. */
  lemma Balanced(a: real, b: real, s: real)
    requires 0.0 <= s <= 1.0 && Times(1.0 - s, a) + Times(s, b) == 0.0
    ensures a > 0.0 ==> b <= 0.0
    ensures a < 0.0 ==> b >= 0.0
    ensures 0.0 < s < 1.0 ==> (a == 0.0 <==> b == 0.0)
  {
    TimesSign(1.0 - s, a);
    TimesSign(s, b);
  }

  /** Orientation changes linearly along a segment. */
  lemma OrientationAlong(a: Coordinate, b: Coordinate, p1: Coordinate, p2: Coordinate, s: real)
    ensures Orientation(a, b, Along(p1, p2, s)) ==
            Times(1.0 - s, Orientation(a, b, p1)) + Times(s, Orientation(a, b, p2))
  {
    CombineAlong(b.x - a.x, p1.y - a.y, p2.y - a.y, s);
    CombineAlong(b.y - a.y, p1.x - a.x, p2.x - a.x, s);
    TimesMinus(1.0 - s, Times(b.x - a.x, p1.y - a.y), Times(b.y - a.y, p1.x - a.x));
    TimesMinus(s, Times(b.x - a.x, p2.y - a.y), Times(b.y - a.y, p2.x - a.x));
  }

  lemma CombineAlong(c: real, u: real, v: real, s: real)
    ensures Times(c, u + Times(s, v - u)) == Times(1.0 - s, Times(c, u)) + Times(s, Times(c, v))
  {
  }

  lemma TimesMinus(s: real, u: real, v: real)
    ensures Times(s, u - v) == Times(s, u) - Times(s, v)
  {
  }

  lemma OnOwnLine(a: Coordinate, b: Coordinate, t: real)
    ensures Orientation(a, b, Along(a, b, t)) == 0.0
  {
  }

  lemma BalancedAtMeeting(p1: Coordinate, p2: Coordinate, q1: Coordinate, q2: Coordinate, s: real, t: real)
    requires MeetAt(p1, p2, q1, q2, s, t)
    ensures Times(1.0 - s, Orientation(q1, q2, p1)) + Times(s, Orientation(q1, q2, p2)) == 0.0
    ensures Times(1.0 - t, Orientation(p1, p2, q1)) + Times(t, Orientation(p1, p2, q2)) == 0.0
  {
    OrientationAlong(q1, q2, p1, p2, s);
    OnOwnLine(q1, q2, t);
    OrientationAlong(p1, p2, q1, q2, t);
    OnOwnLine(p1, p2, s);
  }

  lemma OppositeDifferences(p1: Coordinate, p2: Coordinate, q1: Coordinate, q2: Coordinate)
    ensures Orientation(q1, q2, p1) - Orientation(q1, q2, p2) == Orientation(p1, p2, q2) - Orientation(p1, p2, q1)
  {
  }

  /** Where a linear change from `a` to `b` passes zero. */
  lemma Passage(a: real, b: real) returns (s: real)
    requires (a > 0.0) != (b > 0.0)
    ensures 0.0 <= s <= 1.0 && Times(s, a - b) == a
    ensures a != 0.0 && b != 0.0 ==> 0.0 < s < 1.0
  {
    s := a / (a - b);
  }

  lemma PassagesOf(d1: real, d2: real, d3: real, d4: real) returns (s: real, t: real)
    requires (d1 > 0.0) != (d2 > 0.0) && (d3 > 0.0) != (d4 > 0.0)
    ensures 0.0 <= s <= 1.0 && 0.0 <= t <= 1.0
    ensures Times(s, d1 - d2) == d1 && Times(t, d4 - d3) == -d3
    ensures d1 != 0.0 && d2 != 0.0 && d3 != 0.0 && d4 != 0.0 ==> 0.0 < s < 1.0 && 0.0 < t < 1.0
  {
    s := Passage(d1, d2);
    t := Passage(d3, d4);
    assert d4 - d3 == -(d3 - d4);
  }

  lemma MeetWhere(p1: Coordinate, p2: Coordinate, q1: Coordinate, q2: Coordinate, d: real, s: real, t: real)
    requires d == Orientation(q1, q2, p1) - Orientation(q1, q2, p2) != 0.0
    requires Times(s, d) == Orientation(q1, q2, p1) && Times(t, d) == -Orientation(p1, p2, q1)
    ensures Along(p1, p2, s) == Along(q1, q2, t)
  {
    CrossedSum(p2.x - p1.x, p2.y - p1.y, q2.x - q1.x, q2.y - q1.y, p1.x - q1.x, p1.y - q1.y);
    OrientationByDifferences(p1, p2, q1, q2);
    SameOrdinate(p1.x, p2.x - p1.x, q1.x, q2.x - q1.x, d, s, t);
    SameOrdinate(p1.y, p2.y - p1.y, q1.y, q2.y - q1.y, d, s, t);
  }

  /** The cross products of three directions, each with the third direction, add up to nothing. */
  lemma CrossedSum(px: real, py: real, qx: real, qy: real, wx: real, wy: real)
    ensures var pq, qw, pw := Times(px, qy) - Times(py, qx), Times(qx, wy) - Times(qy, wx), Times(px, wy) - Times(py, wx);
      Times(pq, wx) + Times(qw, px) == Times(pw, qx) && Times(pq, wy) + Times(qw, py) == Times(pw, qy)
  {
  }

  lemma OrientationByDifferences(p1: Coordinate, p2: Coordinate, q1: Coordinate, q2: Coordinate)
    ensures var px, py, qx, qy, wx, wy := p2.x - p1.x, p2.y - p1.y, q2.x - q1.x, q2.y - q1.y, p1.x - q1.x, p1.y - q1.y;
      && Orientation(q1, q2, p1) - Orientation(q1, q2, p2) == Times(px, qy) - Times(py, qx)
      && Orientation(q1, q2, p1) == Times(qx, wy) - Times(qy, wx)
      && -Orientation(p1, p2, q1) == Times(px, wy) - Times(py, wx)
  {
  }

  lemma SameOrdinate(a: real, u: real, b: real, v: real, d: real, s: real, t: real)
    requires d != 0.0 && Times(d, a - b) + Times(Times(s, d), u) == Times(Times(t, d), v)
    ensures a + Times(s, u) == b + Times(t, v)
  {
    var z := a - b + Times(s, u) - Times(t, v);
    assert Times(d, z) == Times(d, a - b) + Times(Times(s, d), u) - Times(Times(t, d), v) == 0.0;
  }

  lemma PassagesMeet(p1: Coordinate, p2: Coordinate, q1: Coordinate, q2: Coordinate) returns (s: real, t: real)
    requires SegmentsIntersect(p1, p2, q1, q2)
    ensures MeetAt(p1, p2, q1, q2, s, t)
    ensures OffLine(p1, p2, q1, q2) ==> 0.0 < s < 1.0 && 0.0 < t < 1.0
  {
    var d1, d2 := Orientation(q1, q2, p1), Orientation(q1, q2, p2);
    var d3, d4 := Orientation(p1, p2, q1), Orientation(p1, p2, q2);
    s, t := PassagesOf(d1, d2, d3, d4);
    OppositeDifferences(p1, p2, q1, q2);
    MeetWhere(p1, p2, q1, q2, d1 - d2, s, t);
  }

  /**
   * The test reports exactly the segments that share a point and each have an end strictly to the left of the other.
   * So it reports every proper crossing, and nothing but proper crossings when no end lies on the other's line.
   */
  lemma SegmentsIntersectIff(p1: Coordinate, p2: Coordinate, q1: Coordinate, q2: Coordinate)
    ensures SegmentsIntersect(p1, p2, q1, q2) <==> SharePoint(p1, p2, q1, q2) && ReachLeft(p1, p2, q1, q2)
    ensures CrossProperly(p1, p2, q1, q2) ==> SegmentsIntersect(p1, p2, q1, q2)
    ensures OffLine(p1, p2, q1, q2) ==>
      (SegmentsIntersect(p1, p2, q1, q2) <==> CrossProperly(p1, p2, q1, q2)) &&
      (SegmentsIntersect(p1, p2, q1, q2) <==> SharePoint(p1, p2, q1, q2))
  {
    if SegmentsIntersect(p1, p2, q1, q2) {
      var s, t := PassagesMeet(p1, p2, q1, q2);
    }
    if s, t :| MeetAt(p1, p2, q1, q2, s, t) { SignsAtMeeting(p1, p2, q1, q2, s, t); }
    if CrossProperly(p1, p2, q1, q2) {
      var s, t :| MeetAt(p1, p2, q1, q2, s, t) && 0.0 < s < 1.0 && 0.0 < t < 1.0;
      ProperMeeting(p1, p2, q1, q2, s, t);
    }
  }

  lemma SignsAtMeeting(p1: Coordinate, p2: Coordinate, q1: Coordinate, q2: Coordinate, s: real, t: real)
    requires MeetAt(p1, p2, q1, q2, s, t)
    ensures ReachLeft(p1, p2, q1, q2) || OffLine(p1, p2, q1, q2) ==> SegmentsIntersect(p1, p2, q1, q2)
  {
    BalancedAtMeeting(p1, p2, q1, q2, s, t);
    Balanced(Orientation(q1, q2, p1), Orientation(q1, q2, p2), s);
    Balanced(Orientation(p1, p2, q1), Orientation(p1, p2, q2), t);
  }

  lemma EndOnLineIsNotProper(p1: Coordinate, p2: Coordinate, q1: Coordinate, q2: Coordinate)
    requires !OffLine(p1, p2, q1, q2)
    ensures !CrossProperly(p1, p2, q1, q2)
  {
    if CrossProperly(p1, p2, q1, q2) {
      var s, t :| MeetAt(p1, p2, q1, q2, s, t) && 0.0 < s < 1.0 && 0.0 < t < 1.0;
      ProperMeeting(p1, p2, q1, q2, s, t);
    }
  }

  lemma ProperAt(p1: Coordinate, p2: Coordinate, q1: Coordinate, q2: Coordinate, s: real, t: real)
    requires MeetAt(p1, p2, q1, q2, s, t) && 0.0 < s < 1.0 && 0.0 < t < 1.0
    requires Orientation(q1, q2, p1) != Orientation(q1, q2, p2)
    ensures CrossProperly(p1, p2, q1, q2)
  {
  }

  lemma ProperMeeting(p1: Coordinate, p2: Coordinate, q1: Coordinate, q2: Coordinate, s: real, t: real)
    requires MeetAt(p1, p2, q1, q2, s, t) && 0.0 < s < 1.0 && 0.0 < t < 1.0
    requires Orientation(q1, q2, p1) != Orientation(q1, q2, p2)
    ensures OffLine(p1, p2, q1, q2) && SegmentsIntersect(p1, p2, q1, q2)
  {
    OppositeDifferences(p1, p2, q1, q2);
    BalancedAtMeeting(p1, p2, q1, q2, s, t);
    Balanced(Orientation(q1, q2, p1), Orientation(q1, q2, p2), s);
    Balanced(Orientation(p1, p2, q1), Orientation(p1, p2, q2), t);
  }

  // ---- lines of segments ----

  /** No two segments that share no end meet in the intersection test. */
  ghost predicate Simple(c: seq<Coordinate>) {
    forall i: nat, j: nat :: i + 2 <= j < |c| - 1 ==> !Meets(c, i, j)
  }

  /** The segments from the i-th and from the j-th point on. */
  predicate Meets(c: seq<Coordinate>, i: nat, j: nat)
    requires i + 1 < |c| && j + 1 < |c|
  {
    SegmentsIntersect(c[i], c[i + 1], c[j], c[j + 1])
  }

  ghost predicate CrossesAt(c: seq<Coordinate>, i: nat, j: nat)
    requires i + 1 < |c| && j + 1 < |c|
  {
    CrossProperly(c[i], c[i + 1], c[j], c[j + 1])
  }

  /** The segments share a point and each has an end strictly to the left of the other. */
  ghost predicate TouchesLeft(c: seq<Coordinate>, i: nat, j: nat)
    requires i + 1 < |c| && j + 1 < |c|
  {
    SharePoint(c[i], c[i + 1], c[j], c[j + 1]) && ReachLeft(c[i], c[i + 1], c[j], c[j + 1])
  }

  ghost predicate NoLeftTouch(c: seq<Coordinate>) {
    forall i: nat, j: nat :: i + 2 <= j < |c| - 1 ==> !TouchesLeft(c, i, j)
  }

  ghost predicate NoProperCrossing(c: seq<Coordinate>) {
    forall i: nat, j: nat :: i + 2 <= j < |c| - 1 ==> !CrossesAt(c, i, j)
  }

  predicate OffLineAt(c: seq<Coordinate>, i: nat, j: nat)
    requires i + 1 < |c| && j + 1 < |c|
  {
    OffLine(c[i], c[i + 1], c[j], c[j + 1])
  }

  /** No end of a segment lies on the line through another that shares no end with it. */
  ghost predicate GeneralPosition(c: seq<Coordinate>) {
    forall i: nat, j: nat :: i + 2 <= j < |c| - 1 ==> OffLineAt(c, i, j)
  }

  lemma MeetsIff(c: seq<Coordinate>, i: nat, j: nat)
    requires i + 1 < |c| && j + 1 < |c|
    ensures Meets(c, i, j) <==> TouchesLeft(c, i, j)
    ensures CrossesAt(c, i, j) ==> Meets(c, i, j)
    ensures OffLineAt(c, i, j) ==> (Meets(c, i, j) <==> CrossesAt(c, i, j))
  {
    SegmentsIntersectIff(c[i], c[i + 1], c[j], c[j + 1]);
  }

  /**
   * A line is simple exactly when no two of its segments touch with ends to the left of each other. That is the
   * absence of proper crossings for lines that do cross properly, for those that do not touch so, and for no others.
   */
  lemma SimpleIff(c: seq<Coordinate>)
    ensures Simple(c) <==> NoLeftTouch(c)
    ensures Simple(c) ==> NoProperCrossing(c)
    ensures (Simple(c) <==> NoProperCrossing(c)) <==> !NoProperCrossing(c) || NoLeftTouch(c)
  {
    forall i: nat, j: nat | i + 2 <= j < |c| - 1
      ensures Meets(c, i, j) <==> TouchesLeft(c, i, j)
      ensures CrossesAt(c, i, j) ==> Meets(c, i, j)
    {
      MeetsIff(c, i, j);
    }
  }

  /** In general position, simple lines are those without a proper crossing. */
  lemma SimpleInGeneralPosition(c: seq<Coordinate>)
    requires GeneralPosition(c)
    ensures Simple(c) <==> NoProperCrossing(c)
  {
    forall i: nat, j: nat | i + 2 <= j < |c| - 1 ensures Meets(c, i, j) <==> CrossesAt(c, i, j) {
      MeetsIff(c, i, j);
    }
  }

  lemma OrientationOfEnds(a: Coordinate, b: Coordinate)
    ensures Orientation(a, b, a) == 0.0 && Orientation(a, b, b) == 0.0
  {
  }

  lemma OrientationTurns(a: Coordinate, b: Coordinate, c: Coordinate)
    ensures Orientation(b, c, a) == Orientation(a, b, c) && Orientation(b, a, c) == -Orientation(a, b, c)
  {
  }

  lemma SegmentsOfFour(a: Coordinate, b: Coordinate, c: Coordinate, d: Coordinate)
    ensures Simple([a, b, c, d]) <==> !SegmentsIntersect(a, b, c, d)
    ensures NoProperCrossing([a, b, c, d]) <==> !CrossProperly(a, b, c, d)
  {
    var line := [a, b, c, d];
    assert Meets(line, 0, 2) == SegmentsIntersect(a, b, c, d);
    assert CrossesAt(line, 0, 2) == CrossProperly(a, b, c, d);
  }

  /** A closed triangle never crosses itself, but is a simple line only when it is walked clockwise or is flat. */
  lemma TriangleDependsOnDirection(a: Coordinate, b: Coordinate, c: Coordinate)
    ensures NoProperCrossing([a, b, c, a])
    ensures Simple([a, b, c, a]) <==> Orientation(a, b, c) <= 0.0
    ensures Orientation(a, c, b) == -Orientation(a, b, c)
  {
    OrientationOfEnds(a, b);
    OrientationOfEnds(c, a);
    OrientationTurns(a, b, c);
    OrientationTurns(b, c, a);
    OrientationTurns(c, a, b);
    SegmentsOfFour(a, b, c, a);
    EndOnLineIsNotProper(a, b, c, a);
  }
}
