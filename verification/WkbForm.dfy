/** The bytes of Well-Known Binary, position by position. */
module WkbForm {
  import opened ByteStrings
  import opened Sequences
  import opened WktText
  import opened Wkb

  // ---- little-endian fields ----

  /** A byte and the number of the bytes after it, each worth 256 of the one before. */
  function Up(low: int, rest: int): int { low + 256 * rest }

  /** Four bytes, the least significant first. */
  function U32(bs: Bytes, at: nat): int
    requires at + 4 <= |bs|
  {
    Up(bs[at], Up(bs[at + 1], Up(bs[at + 2], bs[at + 3])))
  }

  /** Eight bytes, the least significant first. */
  function U64(bs: Bytes, at: nat): int
    requires at + 8 <= |bs|
  {
    Up(bs[at], Up(bs[at + 1], Up(bs[at + 2], Up(bs[at + 3],
      Up(bs[at + 4], Up(bs[at + 5], Up(bs[at + 6], bs[at + 7])))))))
  }

  /** A part stands in the bytes from a position on. */
  ghost predicate Holds(bs: Bytes, at: nat, part: Bytes) { at + |part| <= |bs| && bs[at..at + |part|] == part }

  lemma HoldsParts(bs: Bytes, at: nat, a: Bytes, b: Bytes)
    requires Holds(bs, at, a + b)
    ensures Holds(bs, at, a) && Holds(bs, at + |a|, b)
  {
    var whole := bs[at..at + |a + b|];
    assert bs[at..at + |a|] == whole[..|a|] == a;
    assert bs[at + |a|..at + |a| + |b|] == whole[|a|..] == b;
  }

  lemma Tail(part: Bytes, i: nat)
    requires i < |part|
    ensures FromLittleEndian(part[i..]) == Up(part[i], FromLittleEndian(part[i + 1..]))
  {
    assert part[i..][1..] == part[i + 1..];
  }

  lemma FourBytes(part: Bytes)
    requires |part| == 4
    ensures FromLittleEndian(part) == Up(part[0], Up(part[1], Up(part[2], part[3])))
  {
    assert part[0..] == part && part[4..] == [];
    Tail(part, 0);
    Tail(part, 1);
    Tail(part, 2);
    Tail(part, 3);
  }

  lemma EightBytes(part: Bytes)
    requires |part| == 8
    ensures FromLittleEndian(part) ==
            Up(part[0], Up(part[1], Up(part[2], Up(part[3], FromLittleEndian(part[4..])))))
  {
    assert part[0..] == part;
    Tail(part, 0);
    Tail(part, 1);
    Tail(part, 2);
    Tail(part, 3);
  }

  lemma WordAt(bs: Bytes, at: nat, n: nat)
    requires n < 4_294_967_296 && Holds(bs, at, LittleEndian(n, 4))
    ensures at + 4 <= |bs| && U32(bs, at) == n
  {
    var part := bs[at..at + 4];
    Ranges();
    LittleEndianReads(n, 4);
    FourBytes(part);
  }

  lemma DoubleAt(bs: Bytes, at: nat, n: Double)
    requires Holds(bs, at, LittleEndian(n, 8))
    ensures at + 8 <= |bs| && U64(bs, at) == n
  {
    var part := bs[at..at + 8];
    Ranges();
    LittleEndianReads(n, 8);
    EightBytes(part);
    FourBytes(part[4..]);
  }

  // ---- the layout ----

  /** Sixteen bytes: the two ordinates. */
  ghost predicate PositionAt(bs: Bytes, at: nat, p: Position<Double>) {
    at + 16 <= |bs| && U64(bs, at) == p.x && U64(bs, at + 8) == p.y
  }

  /** Positions one after the other. */
  ghost predicate EachPositionAt(bs: Bytes, at: nat, ps: seq<Position<Double>>) {
    forall i: nat :: i < |ps| ==> PositionAt(bs, at + 16 * i, ps[i])
  }

  /** The number of positions, and the positions one after the other. */
  ghost predicate RingAt(bs: Bytes, at: nat, ring: Ring<Double>) {
    && at + 4 + 16 * |ring| <= |bs| && U32(bs, at) == |ring|
    && EachPositionAt(bs, at + 4, ring)
  }

  /** The bytes of rings: four and sixteen for each position. */
  function RingsSize(rings: seq<Ring<Double>>): nat {
    if rings == [] then 0 else 4 + 16 * |rings[0]| + RingsSize(rings[1..])
  }

  ghost predicate EachRingAt(bs: Bytes, at: nat, rings: seq<Ring<Double>>)
    decreases |rings|
  {
    rings == [] || (RingAt(bs, at, rings[0]) && EachRingAt(bs, at + 4 + 16 * |rings[0]|, rings[1..]))
  }

  /** The number of rings, and the rings one after the other. */
  ghost predicate RingsAt(bs: Bytes, at: nat, rings: seq<Ring<Double>>) {
    at + 4 <= |bs| && U32(bs, at) == |rings| && EachRingAt(bs, at + 4, rings)
  }

  /** The byte order, little-endian, and the type code. */
  ghost predicate HeaderAt(bs: Bytes, at: nat, code: int) { at + 5 <= |bs| && bs[at] == 1 && U32(bs, at + 1) == code }

  ghost predicate EachPolygonAt(bs: Bytes, at: nat, polygons: seq<seq<Ring<Double>>>)
    decreases |polygons|
  {
    polygons == []
    || (HeaderAt(bs, at, 3) && RingsAt(bs, at + 5, polygons[0])
        && EachPolygonAt(bs, at + 9 + RingsSize(polygons[0]), polygons[1..]))
  }

  function PolygonsSize(polygons: seq<seq<Ring<Double>>>): nat {
    if polygons == [] then 0 else 9 + RingsSize(polygons[0]) + PolygonsSize(polygons[1..])
  }

  /** A geometry as the standard lays it out in little-endian bytes, and nothing else. */
  ghost predicate LaidOut(bs: Bytes, g: Geometry<Double>) {
    match g
    case Point(p) => |bs| == 21 && HeaderAt(bs, 0, 1) && PositionAt(bs, 5, p)
    case LineString(ps) => |bs| == 9 + 16 * |ps| && HeaderAt(bs, 0, 2) && RingAt(bs, 5, ps)
    case Polygon(rings) => |bs| == 9 + RingsSize(rings) && HeaderAt(bs, 0, 3) && RingsAt(bs, 5, rings)
    case MultiPolygon(polygons) =>
      && |bs| == 9 + PolygonsSize(polygons) && HeaderAt(bs, 0, 6)
      && U32(bs, 5) == |polygons| && EachPolygonAt(bs, 9, polygons)
  }

  // ---- what is encoded is laid out ----

  lemma PositionHeld(bs: Bytes, at: nat, p: Position<Double>)
    requires Holds(bs, at, PositionBytes(p))
    ensures PositionAt(bs, at, p)
  {
    HoldsParts(bs, at, LittleEndian(p.x, 8), LittleEndian(p.y, 8));
    DoubleAt(bs, at, p.x);
    DoubleAt(bs, at + 8, p.y);
  }

  lemma OnePositionMore(bs: Bytes, at: nat, p: Position<Double>, ps: seq<Position<Double>>)
    requires PositionAt(bs, at, p) && EachPositionAt(bs, at + 16, ps)
    ensures EachPositionAt(bs, at, [p] + ps)
  {
    var all := [p] + ps;
    forall i: nat | i < |all| ensures PositionAt(bs, at + 16 * i, all[i]) {
      if i > 0 {
        var k: nat := i - 1;
        assert PositionAt(bs, at + 16 + 16 * k, ps[k]);
      }
    }
  }

  lemma PositionsFromFirst(ps: seq<Position<Double>>)
    requires ps != []
    ensures Flatten(Positions(ps)) == PositionBytes(ps[0]) + Flatten(Positions(ps[1..]))
  {
    assert Positions(ps)[1..] == Positions(ps[1..]);
  }

  lemma {:induction false} PositionsHeld(bs: Bytes, at: nat, ps: seq<Position<Double>>)
    requires Holds(bs, at, Flatten(Positions(ps)))
    ensures |Flatten(Positions(ps))| == 16 * |ps| && EachPositionAt(bs, at, ps)
    decreases |ps|
  {
    if ps != [] {
      var p, rest := ps[0], ps[1..];
      PositionsFromFirst(ps);
      HoldsParts(bs, at, PositionBytes(p), Flatten(Positions(rest)));
      PositionHeld(bs, at, p);
      PositionsHeld(bs, at + 16, rest);
      OnePositionMore(bs, at, p, rest);
      assert ps == [p] + rest;
    }
  }

  lemma RingHeld(bs: Bytes, at: nat, ring: Ring<Double>)
    requires |ring| < 4_294_967_296 && Holds(bs, at, RingBytes(ring))
    ensures |RingBytes(ring)| == 4 + 16 * |ring| && RingAt(bs, at, ring)
  {
    HoldsParts(bs, at, LittleEndian(|ring|, 4), Flatten(Positions(ring)));
    WordAt(bs, at, |ring|);
    PositionsHeld(bs, at + 4, ring);
  }

  lemma RingsFromFirst(rings: seq<Ring<Double>>)
    requires rings != []
    ensures Flatten(Rings(rings)) == RingBytes(rings[0]) + Flatten(Rings(rings[1..]))
  {
    assert Rings(rings)[1..] == Rings(rings[1..]);
  }

  lemma OneRingMore(bs: Bytes, at: nat, next: nat, rings: seq<Ring<Double>>, rest: seq<Ring<Double>>)
    requires rings != [] && next == at + 4 + 16 * |rings[0]| && rest == rings[1..]
    requires RingAt(bs, at, rings[0]) && EachRingAt(bs, next, rest)
    ensures EachRingAt(bs, at, rings)
  {
  }

  lemma FirstRingHeld(bs: Bytes, at: nat, rings: seq<Ring<Double>>)
    requires rings != [] && |rings[0]| < 4_294_967_296 && Holds(bs, at, Flatten(Rings(rings)))
    ensures RingAt(bs, at, rings[0]) && Holds(bs, at + 4 + 16 * |rings[0]|, Flatten(Rings(rings[1..])))
    ensures |Flatten(Rings(rings))| == 4 + 16 * |rings[0]| + |Flatten(Rings(rings[1..]))|
  {
    RingsFromFirst(rings);
    HoldsParts(bs, at, RingBytes(rings[0]), Flatten(Rings(rings[1..])));
    RingHeld(bs, at, rings[0]);
  }

  lemma {:induction false} EachRingHeld(bs: Bytes, at: nat, rings: seq<Ring<Double>>)
    requires forall i :: 0 <= i < |rings| ==> |rings[i]| < 4_294_967_296
    requires Holds(bs, at, Flatten(Rings(rings)))
    ensures |Flatten(Rings(rings))| == RingsSize(rings) && EachRingAt(bs, at, rings)
    decreases |rings|
  {
    if rings != [] {
      var next, rest := at + 4 + 16 * |rings[0]|, rings[1..];
      FirstRingHeld(bs, at, rings);
      EachRingHeld(bs, next, rest);
      OneRingMore(bs, at, next, rings, rest);
    }
  }

  lemma RingsHeld(bs: Bytes, at: nat, rings: seq<Ring<Double>>)
    requires FitRings(rings) && Holds(bs, at, RingsBytes(rings))
    ensures |RingsBytes(rings)| == 4 + RingsSize(rings) && RingsAt(bs, at, rings)
  {
    HoldsParts(bs, at, LittleEndian(|rings|, 4), Flatten(Rings(rings)));
    WordAt(bs, at, |rings|);
    EachRingHeld(bs, at + 4, rings);
  }

  lemma HeaderHeld(bs: Bytes, at: nat, code: nat)
    requires code < 4_294_967_296 && Holds(bs, at, Header(code))
    ensures HeaderAt(bs, at, code)
  {
    HoldsParts(bs, at, [1], LittleEndian(code, 4));
    assert bs[at] == bs[at..at + 1][0];
    WordAt(bs, at + 1, code);
  }

  lemma PolygonHeld(bs: Bytes, at: nat, rings: seq<Ring<Double>>)
    requires FitRings(rings) && Holds(bs, at, PolygonBytes(rings))
    ensures |PolygonBytes(rings)| == 9 + RingsSize(rings) && HeaderAt(bs, at, 3) && RingsAt(bs, at + 5, rings)
  {
    HoldsParts(bs, at, Header(3), RingsBytes(rings));
    HeaderHeld(bs, at, 3);
    RingsHeld(bs, at + 5, rings);
  }

  lemma PolygonsFromFirst(polygons: seq<seq<Ring<Double>>>)
    requires polygons != []
    ensures Flatten(Polygons(polygons)) == PolygonBytes(polygons[0]) + Flatten(Polygons(polygons[1..]))
  {
    assert Polygons(polygons)[1..] == Polygons(polygons[1..]);
  }

  lemma {:induction false} EachPolygonHeld(bs: Bytes, at: nat, polygons: seq<seq<Ring<Double>>>)
    requires forall i :: 0 <= i < |polygons| ==> FitRings(polygons[i])
    requires Holds(bs, at, Flatten(Polygons(polygons)))
    ensures |Flatten(Polygons(polygons))| == PolygonsSize(polygons) && EachPolygonAt(bs, at, polygons)
    decreases |polygons|
  {
    if polygons != [] {
      var first, rest := polygons[0], polygons[1..];
      PolygonsFromFirst(polygons);
      HoldsParts(bs, at, PolygonBytes(first), Flatten(Polygons(rest)));
      PolygonHeld(bs, at, first);
      EachPolygonHeld(bs, at + 9 + RingsSize(first), rest);
    }
  }

  lemma AfterHeader(bs: Bytes, code: nat, body: Bytes)
    requires code < 4_294_967_296 && bs == Header(code) + body
    ensures |bs| == 5 + |body| && HeaderAt(bs, 0, code) && Holds(bs, 5, body)
  {
    assert bs[0..|bs|] == bs;
    HoldsParts(bs, 0, Header(code), body);
    HeaderHeld(bs, 0, code);
  }

  ghost predicate RingCountsBelow(rings: seq<Ring<Double>>) {
    |rings| < 4_294_967_296 && forall r :: r in rings ==> |r| < 4_294_967_296
  }

  /** Every count is below 2^32. */
  ghost predicate CountsBelow(g: Geometry<Double>) {
    match g
    case Point(_) => true
    case LineString(ps) => |ps| < 4_294_967_296
    case Polygon(rings) => RingCountsBelow(rings)
    case MultiPolygon(polygons) => |polygons| < 4_294_967_296 && forall p :: p in polygons ==> RingCountsBelow(p)
  }

  lemma FitRingsIff(rings: seq<Ring<Double>>)
    ensures FitRings(rings) <==> RingCountsBelow(rings)
  {
    assert forall i :: 0 <= i < |rings| ==> rings[i] in rings;
  }

  /** Encoding succeeds exactly when every count fits the four bytes it is written in. */
  lemma EncodesIff(g: Geometry<Double>)
    ensures Encode(g).Ok? <==> CountsBelow(g)
  {
    match g
    case Polygon(rings) => FitRingsIff(rings);
    case MultiPolygon(polygons) =>
      forall p | p in polygons ensures FitRings(p) <==> RingCountsBelow(p) { FitRingsIff(p); }
      assert forall i :: 0 <= i < |polygons| ==> polygons[i] in polygons;
    case _ =>
  }

  lemma LineLaidOut(bs: Bytes, ps: seq<Position<Double>>)
    requires |ps| < 4_294_967_296 && bs == Header(2) + RingBytes(ps)
    ensures LaidOut(bs, LineString(ps))
  {
    AfterHeader(bs, 2, RingBytes(ps));
    RingHeld(bs, 5, ps);
  }

  lemma PolygonLaidOut(bs: Bytes, rings: seq<Ring<Double>>)
    requires FitRings(rings) && bs == Header(3) + RingsBytes(rings)
    ensures LaidOut(bs, Polygon(rings))
  {
    AfterHeader(bs, 3, RingsBytes(rings));
    RingsHeld(bs, 5, rings);
  }

  lemma MultiPolygonLaidOut(bs: Bytes, polygons: seq<seq<Ring<Double>>>)
    requires Fits(MultiPolygon(polygons)) && bs == Header(6) + Counted(Polygons(polygons))
    ensures LaidOut(bs, MultiPolygon(polygons))
  {
    AfterHeader(bs, 6, Counted(Polygons(polygons)));
    HoldsParts(bs, 5, LittleEndian(|polygons|, 4), Flatten(Polygons(polygons)));
    WordAt(bs, 5, |polygons|);
    EachPolygonHeld(bs, 9, polygons);
  }

  /** Encoding writes the standard's bytes: the counts, codes and ordinates at their places. */
  lemma EncodedIsLaidOut(g: Geometry<Double>)
    requires Encode(g).Ok?
    ensures LaidOut(Encode(g).value, g)
  {
    var bs := Encode(g).value;
    match g
    case Point(p) =>
      AfterHeader(bs, 1, PositionBytes(p));
      PositionHeld(bs, 5, p);
    case LineString(ps) => LineLaidOut(bs, ps);
    case Polygon(rings) => PolygonLaidOut(bs, rings);
    case MultiPolygon(polygons) => MultiPolygonLaidOut(bs, polygons);
  }
}
