/** Well-Known Binary of parsed geometries, a reader that inverts it, and the bounding box of an export. */
module Wkb {
  import opened Wrappers
  import opened ByteStrings
  import opened Sequences
  import opened WktText
  import opened WktParser
  import opened WktRoundTrip

  const TWO_32: nat := 0x1_0000_0000
  const TWO_64: nat := 0x1_0000_0000_0000_0000

  /** A double, as the 64 bits that `struct.pack("<d")` lays out. */
  type Double = d: int | 0 <= d < TWO_64

  datatype WkbError = CountTooLarge

  // ---- little-endian numbers ----

  function LittleEndian(n: nat, width: nat): (r: Bytes)
    ensures |r| == width
  {
    if width == 0 then [] else [n % 256] + LittleEndian(n / 256, width - 1)
  }

  function FromLittleEndian(bs: Bytes): nat {
    if bs == [] then 0 else bs[0] + 256 * FromLittleEndian(bs[1..])
  }

  function Range(width: nat): nat { if width == 0 then 1 else 256 * Range(width - 1) }

  lemma {:induction false} LittleEndianReads(n: nat, width: nat)
    requires n < Range(width)
    ensures FromLittleEndian(LittleEndian(n, width)) == n
  {
    if width > 0 { LittleEndianReads(n / 256, width - 1); }
  }

  lemma Ranges()
    ensures Range(4) == TWO_32 && Range(8) == TWO_64
  {
    assert Range(1) == 256 && Range(2) == 0x1_0000 && Range(3) == 0x100_0000;
    assert Range(4) == TWO_32;
    assert Range(5) == 0x100_0000_0000 && Range(6) == 0x1_0000_0000_0000 && Range(7) == 0x100_0000_0000_0000;
  }

  // ---- encoding ----

  function Positions(ps: seq<Position<Double>>): (r: seq<Bytes>)
    ensures |r| == |ps| && forall i :: 0 <= i < |r| ==> r[i] == PositionBytes(ps[i])
  {
    seq(|ps|, i requires 0 <= i < |ps| => PositionBytes(ps[i]))
  }

  /** `_wkb_position` */
  function PositionBytes(p: Position<Double>): Bytes { LittleEndian(p.x, 8) + LittleEndian(p.y, 8) }

  function Counted(items: seq<Bytes>): Bytes { LittleEndian(|items|, 4) + Flatten(items) }

  /** `_wkb_linestring_body` */
  function RingBytes(ring: Ring<Double>): Bytes { Counted(Positions(ring)) }

  function Rings(rings: seq<Ring<Double>>): (r: seq<Bytes>)
    ensures |r| == |rings| && forall i :: 0 <= i < |r| ==> r[i] == RingBytes(rings[i])
  {
    seq(|rings|, i requires 0 <= i < |rings| => RingBytes(rings[i]))
  }

  /** `_wkb_polygon_body` */
  function RingsBytes(rings: seq<Ring<Double>>): Bytes { Counted(Rings(rings)) }

  const POINT_CODE: nat := 1
  const LINE_CODE: nat := 2
  const POLYGON_CODE: nat := 3
  const MULTI_POLYGON_CODE: nat := 6

  function Header(code: nat): Bytes { [1] + LittleEndian(code, 4) }

  function PolygonBytes(rings: seq<Ring<Double>>): Bytes { Header(POLYGON_CODE) + RingsBytes(rings) }

  function Polygons(polygons: seq<seq<Ring<Double>>>): (r: seq<Bytes>)
    ensures |r| == |polygons| && forall i :: 0 <= i < |r| ==> r[i] == PolygonBytes(polygons[i])
  {
    seq(|polygons|, i requires 0 <= i < |polygons| => PolygonBytes(polygons[i]))
  }

  predicate FitRings(rings: seq<Ring<Double>>) {
    |rings| < TWO_32 && forall i :: 0 <= i < |rings| ==> |rings[i]| < TWO_32
  }

  /** Every count fits the four bytes it is packed in. */
  predicate Fits(g: Geometry<Double>) {
    match g
    case Point(_) => true
    case LineString(ps) => |ps| < TWO_32
    case Polygon(rings) => FitRings(rings)
    case MultiPolygon(polygons) => |polygons| < TWO_32 && forall i :: 0 <= i < |polygons| ==> FitRings(polygons[i])
  }

  /** `wkb_encode`; packing a larger count raises. */
  function Encode(g: Geometry<Double>): Result<Bytes, WkbError> {
    if !Fits(g) then Err(CountTooLarge)
    else
      match g
      case Point(p) => Ok(Header(POINT_CODE) + PositionBytes(p))
      case LineString(ps) => Ok(Header(LINE_CODE) + RingBytes(ps))
      case Polygon(rings) => Ok(PolygonBytes(rings))
      case MultiPolygon(polygons) => Ok(Header(MULTI_POLYGON_CODE) + Counted(Polygons(polygons)))
  }

  // ---- a reader ----

  type Reader<!T> = Bytes -> Option<(T, Bytes)>

  function ReadNumber(width: nat, bs: Bytes): Option<(nat, Bytes)> {
    if |bs| < width then None else Some((FromLittleEndian(bs[..width]), bs[width..]))
  }

  function ReadPosition(bs: Bytes): Option<(Position<Double>, Bytes)> {
    var x := ReadNumber(8, bs);
    if x.None? then None
    else
      var y := ReadNumber(8, x.value.1);
      if y.None? || x.value.0 >= TWO_64 || y.value.0 >= TWO_64 then None
      else Some((Position(x.value.0, y.value.0), y.value.1))
  }

  function Repeat<T>(item: Reader<T>, n: nat, bs: Bytes): Option<(seq<T>, Bytes)> {
    if n == 0 then Some(([], bs))
    else
      var first := item(bs);
      if first.None? then None
      else
        var rest := Repeat(item, n - 1, first.value.1);
        if rest.None? then None else Some(([first.value.0] + rest.value.0, rest.value.1))
  }

  function ReadCounted<T>(item: Reader<T>, bs: Bytes): Option<(seq<T>, Bytes)> {
    var count := ReadNumber(4, bs);
    if count.None? then None else Repeat(item, count.value.0, count.value.1)
  }

  function ReadRing(bs: Bytes): Option<(Ring<Double>, Bytes)> { ReadCounted(ReadPosition, bs) }

  function ReadRings(bs: Bytes): Option<(seq<Ring<Double>>, Bytes)> { ReadCounted(ReadRing, bs) }

  function ReadHeader(bs: Bytes): Option<(nat, Bytes)> {
    if bs == [] || bs[0] != 1 then None else ReadNumber(4, bs[1..])
  }

  function ReadPolygon(bs: Bytes): Option<(seq<Ring<Double>>, Bytes)> {
    match ReadHeader(bs)
    case Some((code, body)) => if code == POLYGON_CODE then ReadRings(body) else None
    case None => None
  }

  function Lift<A, B>(r: Option<(A, Bytes)>, f: A -> B): Option<(B, Bytes)> {
    if r.None? then None else Some((f(r.value.0), r.value.1))
  }

  /** One geometry at the start of the bytes, with what follows it. */
  function Decode(bs: Bytes): Option<(Geometry<Double>, Bytes)> {
    match ReadHeader(bs)
    case None => None
    case Some((code, body)) =>
      if code == POINT_CODE then Lift(ReadPosition(body), p => Point(p))
      else if code == LINE_CODE then Lift(ReadRing(body), ps => LineString(ps))
      else if code == POLYGON_CODE then Lift(ReadRings(body), rings => Polygon(rings))
      else if code == MULTI_POLYGON_CODE then Lift(ReadCounted(ReadPolygon, body), ps => MultiPolygon(ps))
      else None
  }

  // ---- decoding inverts encoding ----

  ghost predicate ReadsTo<T(!new)>(item: Reader<T>, bytes: Bytes, value: T) {
    forall rest :: item(bytes + rest) == Some((value, rest))
  }

  lemma NumberReads(n: nat, width: nat, rest: Bytes)
    requires n < Range(width)
    ensures ReadNumber(width, LittleEndian(n, width) + rest) == Some((n, rest))
  {
    var bs := LittleEndian(n, width) + rest;
    assert bs[..width] == LittleEndian(n, width) && bs[width..] == rest;
    LittleEndianReads(n, width);
  }

  lemma {:induction false} RepeatReads<T(!new)>(item: Reader<T>, encoded: seq<Bytes>, values: seq<T>, rest: Bytes)
    requires |encoded| == |values|
    requires forall i :: 0 <= i < |values| ==> ReadsTo(item, encoded[i], values[i])
    ensures Repeat(item, |values|, Flatten(encoded) + rest) == Some((values, rest))
  {
    if values == [] {
      assert Flatten(encoded) + rest == rest;
    } else {
      var tail := Flatten(encoded[1..]) + rest;
      assert Flatten(encoded) + rest == encoded[0] + tail;
      assert ReadsTo(item, encoded[0], values[0]);
      RepeatReads(item, encoded[1..], values[1..], rest);
      assert values == [values[0]] + values[1..];
    }
  }

  lemma CountedReads<T(!new)>(item: Reader<T>, encoded: seq<Bytes>, values: seq<T>, rest: Bytes)
    requires |encoded| == |values| < TWO_32
    requires forall i :: 0 <= i < |values| ==> ReadsTo(item, encoded[i], values[i])
    ensures ReadCounted(item, Counted(encoded) + rest) == Some((values, rest))
  {
    Ranges();
    assert Counted(encoded) + rest == LittleEndian(|encoded|, 4) + (Flatten(encoded) + rest);
    NumberReads(|encoded|, 4, Flatten(encoded) + rest);
    RepeatReads(item, encoded, values, rest);
  }

  lemma PositionReads(p: Position<Double>)
    ensures ReadsTo(ReadPosition, PositionBytes(p), p)
  {
    Ranges();
    forall rest ensures ReadPosition(PositionBytes(p) + rest) == Some((p, rest)) {
      assert PositionBytes(p) + rest == LittleEndian(p.x, 8) + (LittleEndian(p.y, 8) + rest);
      NumberReads(p.x, 8, LittleEndian(p.y, 8) + rest);
      NumberReads(p.y, 8, rest);
    }
  }

  lemma RingReads(ring: Ring<Double>)
    requires |ring| < TWO_32
    ensures ReadsTo(ReadRing, RingBytes(ring), ring)
  {
    forall i | 0 <= i < |ring| ensures ReadsTo(ReadPosition, Positions(ring)[i], ring[i]) { PositionReads(ring[i]); }
    forall rest ensures ReadRing(RingBytes(ring) + rest) == Some((ring, rest)) {
      CountedReads(ReadPosition, Positions(ring), ring, rest);
    }
  }

  lemma RingsRead(rings: seq<Ring<Double>>)
    requires FitRings(rings)
    ensures ReadsTo(ReadRings, RingsBytes(rings), rings)
  {
    forall i | 0 <= i < |rings| ensures ReadsTo(ReadRing, Rings(rings)[i], rings[i]) { RingReads(rings[i]); }
    forall rest ensures ReadRings(RingsBytes(rings) + rest) == Some((rings, rest)) {
      CountedReads(ReadRing, Rings(rings), rings, rest);
    }
  }

  lemma HeaderReads(code: nat, body: Bytes)
    requires code < TWO_32
    ensures ReadHeader(Header(code) + body) == Some((code, body))
  {
    Ranges();
    assert (Header(code) + body)[1..] == LittleEndian(code, 4) + body;
    NumberReads(code, 4, body);
  }

  lemma Regrouped(a: Bytes, b: Bytes, c: Bytes)
    ensures a + b + c == a + (b + c)
  {
  }

  lemma PolygonReads(rings: seq<Ring<Double>>)
    requires FitRings(rings)
    ensures ReadsTo(ReadPolygon, PolygonBytes(rings), rings)
  {
    RingsRead(rings);
    forall rest ensures ReadPolygon(PolygonBytes(rings) + rest) == Some((rings, rest)) {
      Regrouped(Header(POLYGON_CODE), RingsBytes(rings), rest);
      HeaderReads(POLYGON_CODE, RingsBytes(rings) + rest);
      assert ReadRings(RingsBytes(rings) + rest) == Some((rings, rest));
    }
  }

  lemma PolygonsRead(polygons: seq<seq<Ring<Double>>>, rest: Bytes)
    requires Fits(MultiPolygon(polygons))
    ensures ReadCounted(ReadPolygon, Counted(Polygons(polygons)) + rest) == Some((polygons, rest))
  {
    forall i | 0 <= i < |polygons| ensures ReadsTo(ReadPolygon, Polygons(polygons)[i], polygons[i]) {
      PolygonReads(polygons[i]);
    }
    CountedReads(ReadPolygon, Polygons(polygons), polygons, rest);
  }

  lemma BodyDecodes(code: nat, body: Bytes, rest: Bytes, g: Geometry<Double>)
    requires code in {POINT_CODE, LINE_CODE, POLYGON_CODE, MULTI_POLYGON_CODE}
    requires code == POINT_CODE ==> g.Point? && ReadPosition(body + rest) == Some((g.position, rest))
    requires code == LINE_CODE ==> g.LineString? && ReadRing(body + rest) == Some((g.positions, rest))
    requires code == POLYGON_CODE ==> g.Polygon? && ReadRings(body + rest) == Some((g.rings, rest))
    requires code == MULTI_POLYGON_CODE ==>
               g.MultiPolygon? && ReadCounted(ReadPolygon, body + rest) == Some((g.polygons, rest))
    ensures Decode(Header(code) + body + rest) == Some((g, rest))
  {
    assert Header(code) + body + rest == Header(code) + (body + rest);
    HeaderReads(code, body + rest);
  }

  /** Decoding an encoded geometry gives back every position, ring and polygon in order, and what follows. */
  lemma EncodedGeometryDecodes(g: Geometry<Double>, rest: Bytes)
    ensures Encode(g).Ok? <==> Fits(g)
    ensures Encode(g).Ok? ==> Decode(Encode(g).value + rest) == Some((g, rest))
  {
    if Fits(g) {
      match g
      case Point(p) =>
        PositionReads(p);
        BodyDecodes(POINT_CODE, PositionBytes(p), rest, g);
      case LineString(ps) =>
        RingReads(ps);
        BodyDecodes(LINE_CODE, RingBytes(ps), rest, g);
      case Polygon(rings) =>
        RingsRead(rings);
        BodyDecodes(POLYGON_CODE, RingsBytes(rings), rest, g);
      case MultiPolygon(polygons) =>
        PolygonsRead(polygons, rest);
        BodyDecodes(MULTI_POLYGON_CODE, Counted(Polygons(polygons)), rest, g);
    }
  }

  // ---- from the printed text to the binary ----

  type Rounding = Reading -> Double

  function RoundRing(round: Rounding, ring: Ring<Reading>): Ring<Double> {
    Map((p: Position<Reading>) => Position(round(p.x), round(p.y)), ring)
  }

  function RoundRings(round: Rounding, rings: seq<Ring<Reading>>): seq<Ring<Double>> {
    Map((ring: Ring<Reading>) => RoundRing(round, ring), rings)
  }

  /** The doubles nearest to the ordinates that were read. */
  function Rounded(round: Rounding, g: Geometry<Reading>): Geometry<Double> {
    match g
    case Point(p) => Point(Position(round(p.x), round(p.y)))
    case LineString(ps) => LineString(RoundRing(round, ps))
    case Polygon(rings) => Polygon(RoundRings(round, rings))
    case MultiPolygon(polygons) =>
      MultiPolygon(Map((rings: seq<Ring<Reading>>) => RoundRings(round, rings), polygons))
  }

  ghost predicate RingOfDoubles(round: Rounding, w: Ring<Double>, v: Ring<Reading>) {
    |w| == |v| && forall i :: 0 <= i < |v| ==> w[i].x == round(v[i].x) && w[i].y == round(v[i].y)
  }

  ghost predicate RingsOfDoubles(round: Rounding, w: seq<Ring<Double>>, v: seq<Ring<Reading>>) {
    |w| == |v| && forall i :: 0 <= i < |v| ==> RingOfDoubles(round, w[i], v[i])
  }

  /** The same type, lists and order, and at every ordinate the double of the reading. */
  ghost predicate DoublesOf(round: Rounding, w: Geometry<Double>, v: Geometry<Reading>) {
    match v
    case Point(p) => w.Point? && RingOfDoubles(round, [w.position], [p])
    case LineString(ps) => w.LineString? && RingOfDoubles(round, w.positions, ps)
    case Polygon(rings) => w.Polygon? && RingsOfDoubles(round, w.rings, rings)
    case MultiPolygon(polygons) =>
      && w.MultiPolygon? && |w.polygons| == |polygons|
      && forall i :: 0 <= i < |polygons| ==> RingsOfDoubles(round, w.polygons[i], polygons[i])
  }

  lemma RoundedIsDoubles(round: Rounding, v: Geometry<Reading>)
    ensures DoublesOf(round, Rounded(round, v), v)
  {
  }

  /** A geometry that is printed, parsed, encoded and decoded comes back as the doubles of its ordinates, in order. */
  lemma ExportKeepsGeometry(round: Rounding, g: Geometry<Ordinate>)
    requires ParseWkt(GeometryText(g)).Ok? && Fits(Rounded(round, ParseWkt(GeometryText(g)).value))
    ensures var v := ParseWkt(GeometryText(g)).value;
      && Denotes(v, g) && Decode(Encode(Rounded(round, v)).value) == Some((Rounded(round, v), []))
      && DoublesOf(round, Rounded(round, v), v)
  {
    RoundedIsDoubles(round, ParseWkt(GeometryText(g)).value);
    PrintedGeometryParses(g);
    var v := ParseWkt(GeometryText(g)).value;
    EncodedGeometryDecodes(Rounded(round, v), []);
    assert Encode(Rounded(round, v)).value + [] == Encode(Rounded(round, v)).value;
  }

  // ---- the bounding box of an export ----

  /** `_iter_positions` */
  function IterPositions<T>(g: Geometry<T>): seq<Position<T>> {
    match g
    case Point(p) => [p]
    case LineString(ps) => ps
    case Polygon(rings) => Flatten(rings)
    case MultiPolygon(polygons) => Flatten(Flatten(polygons))
  }

  function AllPositions<T>(geometries: seq<Geometry<T>>): seq<Position<T>> {
    if geometries == [] then []
    else AllPositions(geometries[..|geometries| - 1]) + IterPositions(geometries[|geometries| - 1])
  }

  /** A position of a geometry, whatever its type. */
  ghost predicate HasPosition<T(!new)>(g: Geometry<T>, p: Position<T>) {
    match g
    case Point(q) => p == q
    case LineString(ps) => p in ps
    case Polygon(rings) => exists ring :: ring in rings && p in ring
    case MultiPolygon(polygons) => exists rings, ring :: rings in polygons && ring in rings && p in ring
  }

  lemma {:induction false} FlattenHolds<T>(ss: seq<seq<T>>, x: T)
    ensures x in Flatten(ss) <==> exists s :: s in ss && x in s
  {
    if ss != [] {
      FlattenHolds(ss[1..], x);
      assert ss[0] in ss && forall s :: s in ss <==> s == ss[0] || s in ss[1..];
    }
  }

  lemma PositionsOf<T(!new)>(g: Geometry<T>, p: Position<T>)
    ensures p in IterPositions(g) <==> HasPosition(g, p)
  {
    match g
    case Point(q) =>
    case LineString(ps) =>
    case Polygon(rings) => FlattenHolds(rings, p);
    case MultiPolygon(polygons) =>
      FlattenHolds(Flatten(polygons), p);
      forall ring ensures ring in Flatten(polygons) <==> exists rings :: rings in polygons && ring in rings {
        FlattenHolds(polygons, ring);
      }
  }

  /** The positions of an export are those of its geometries. */
  lemma {:induction false} AllPositionsHold<T(!new)>(geometries: seq<Geometry<T>>, p: Position<T>)
    ensures p in AllPositions(geometries) <==> exists g :: g in geometries && HasPosition(g, p)
  {
    if geometries != [] {
      var front, last := geometries[..|geometries| - 1], geometries[|geometries| - 1];
      AllPositionsHold(front, p);
      PositionsOf(last, p);
      assert last in geometries && forall g :: g in geometries <==> g in front || g == last;
    }
  }

  datatype Box = Box(minX: real, minY: real, maxX: real, maxY: real)

  ghost predicate Within(p: Position<real>, b: Box) { b.minX <= p.x <= b.maxX && b.minY <= p.y <= b.maxY }

  /** The box holds every position, and a position lies on each of its sides. */
  ghost predicate IsBox(b: Box, ps: seq<Position<real>>) {
    && (forall p :: p in ps ==> Within(p, b))
    && (exists p :: p in ps && p.x == b.minX) && (exists p :: p in ps && p.x == b.maxX)
    && (exists p :: p in ps && p.y == b.minY) && (exists p :: p in ps && p.y == b.maxY)
  }

  function Stretched(b: Box, p: Position<real>): Box {
    Box(if p.x < b.minX then p.x else b.minX, if p.y < b.minY then p.y else b.minY,
        if p.x > b.maxX then p.x else b.maxX, if p.y > b.maxY then p.y else b.maxY)
  }

  lemma StretchedIsBox(b: Box, ps: seq<Position<real>>, p: Position<real>)
    requires IsBox(b, ps)
    ensures IsBox(Stretched(b, p), ps + [p])
  {
    var all := ps + [p];
    assert p in all && forall q :: q in ps ==> q in all;
    forall q | q in all ensures Within(q, Stretched(b, p)) {
      assert q in ps || q == p;
    }
  }

  /** A box that fits is the only one. */
  lemma BoxIsUnique(a: Box, b: Box, ps: seq<Position<real>>)
    requires IsBox(a, ps) && IsBox(b, ps)
    ensures a == b
  {
    var left :| left in ps && left.x == a.minX;
    var right :| right in ps && right.x == a.maxX;
    var bottom :| bottom in ps && bottom.y == a.minY;
    var top :| top in ps && top.y == a.maxY;
    var left' :| left' in ps && left'.x == b.minX;
    var right' :| right' in ps && right'.x == b.maxX;
    var bottom' :| bottom' in ps && bottom'.y == b.minY;
    var top' :| top' in ps && top'.y == b.maxY;
    assert Within(left, b) && Within(right, b) && Within(bottom, b) && Within(top, b);
    assert Within(left', a) && Within(right', a) && Within(bottom', a) && Within(top', a);
  }

  ghost predicate IsBoxOf(box: Option<Box>, ps: seq<Position<real>>) {
    if ps == [] then box.None? else box.Some? && IsBox(box.value, ps)
  }

  function Over(box: Option<Box>, p: Position<real>): Box {
    if box.Some? then Stretched(box.value, p) else Box(p.x, p.y, p.x, p.y)
  }

  lemma OverIsBox(box: Option<Box>, ps: seq<Position<real>>, p: Position<real>)
    requires IsBoxOf(box, ps)
    ensures IsBoxOf(Some(Over(box, p)), ps + [p])
  {
    if ps == [] {
      assert ps + [p] == [p] && p in [p];
    } else {
      StretchedIsBox(box.value, ps, p);
    }
  }

  /** The running minima and maxima over the positions of one geometry. */
  method StretchOver(start: Option<Box>, ps: seq<Position<real>>, ghost before: seq<Position<real>>)
    returns (box: Option<Box>)
    requires IsBoxOf(start, before)
    ensures IsBoxOf(box, before + ps)
  {
    box := start;
    assert before + ps[..0] == before;
    for j := 0 to |ps|
      invariant IsBoxOf(box, before + ps[..j])
    {
      OverIsBox(box, before + ps[..j], ps[j]);
      assert before + ps[..j + 1] == before + ps[..j] + [ps[j]];
      box := Some(Over(box, ps[j]));
    }
    assert ps[..|ps|] == ps;
  }

  /** The bounding box of `build_geoparquet_table`: none before the first position. */
  method BoundingBox(geometries: seq<Geometry<real>>) returns (box: Option<Box>)
    ensures IsBoxOf(box, AllPositions(geometries))
  {
    box := None;
    for i := 0 to |geometries|
      invariant IsBoxOf(box, AllPositions(geometries[..i]))
    {
      assert geometries[..i + 1][..i] == geometries[..i];
      box := StretchOver(box, IterPositions(geometries[i]), AllPositions(geometries[..i]));
    }
    assert geometries[..|geometries|] == geometries;
  }
}
