/** The recursive-descent parser over the tokens of a Well-Known Text, and its inverse relation to the printers. */
module WktParser {
  import opened Wrappers
  import opened Decimals
  import opened WktText

  /** What `float` makes of a token; words such as "inf" and "nan" are accepted too. */
  datatype Reading = Finite(d: Decimal) | Infinite | NotANumber

  datatype WktError =
    | NoTokens
    | UnexpectedEnd
    | Expected(token: Text)
    | MalformedOrdinate(token: Text)
    | UnsupportedType(keyword: Text)
    | TrailingTokens

  /** A parsed value with the tokens that follow it. */
  type Parsed<T> = Result<(T, seq<Text>), WktError>
  type Parser<!T> = seq<Text> -> Parsed<T>

  function Upper(t: Text): (r: Text)
    ensures |r| == |t|
  {
    seq(|t|, i requires 0 <= i < |t| => if 97 <= t[i] <= 122 then t[i] - 32 else t[i])
  }

  const NAN: Text := [78, 65, 78]
  const INF: Text := [73, 78, 70]
  const INFINITY: Text := [73, 78, 70, 73, 78, 73, 84, 89]

  /** `float(token)` */
  function ReadFloat(token: Text): Option<Reading> {
    if Upper(token) == NAN then Some(NotANumber)
    else if Upper(token) in {INF, INFINITY} then Some(Infinite)
    else match ReadDecimal(token)
      case Some(d) => Some(Finite(d))
      case None => None
  }

  function ParseNumber(ts: seq<Text>): Parsed<Reading> {
    if ts == [] then Err(UnexpectedEnd)
    else match ReadFloat(ts[0])
      case Some(reading) => Ok((reading, ts[1..]))
      case None => Err(MalformedOrdinate(ts[0]))
  }

  function ParsePosition(ts: seq<Text>): Parsed<Position<Reading>> {
    var x := ParseNumber(ts);
    if x.Err? then Err(x.error)
    else
      var y := ParseNumber(x.value.1);
      if y.Err? then Err(y.error) else Ok((Position(x.value.0, y.value.0), y.value.1))
  }

  // ---- lists ----

  ghost predicate Consumes<T>(item: Parser<T>) {
    forall ts :: item(ts).Ok? ==> |item(ts).value.1| < |ts|
  }

  /** What may come after an item of a list: another one after a comma, or the end. */
  function ParseMore<T>(item: Parser<T>, ts: seq<Text>): (r: Parsed<seq<T>>)
    requires Consumes(item)
    ensures r.Ok? ==> |r.value.1| < |ts|
    decreases |ts|, 0
  {
    if ts == [] then Err(UnexpectedEnd)
    else if ts[0] == [COMMA] then ParseItems(item, ts[1..])
    else if ts[0] == [CLOSE] then Ok(([], ts[1..]))
    else Err(Expected(ts[0]))
  }

  function ParseItems<T>(item: Parser<T>, ts: seq<Text>): (r: Parsed<seq<T>>)
    requires Consumes(item)
    ensures r.Ok? ==> |r.value.1| < |ts|
    decreases |ts|, 1
  {
    var first := item(ts);
    if first.Err? then Err(first.error)
    else Prepended([first.value.0], ParseMore(item, first.value.1))
  }

  function Prepended<T>(items: seq<T>, r: Parsed<seq<T>>): Parsed<seq<T>> {
    if r.Err? then r else Ok((items + r.value.0, r.value.1))
  }

  /** A parenthesized list of one or more items. */
  function ParseList<T>(item: Parser<T>, ts: seq<Text>): (r: Parsed<seq<T>>)
    requires Consumes(item)
    ensures r.Ok? ==> |r.value.1| < |ts|
  {
    if ts == [] then Err(UnexpectedEnd)
    else if ts[0] != [OPEN] then Err(Expected(ts[0]))
    else ParseItems(item, ts[1..])
  }

  lemma PositionConsumes()
    ensures Consumes(ParsePosition)
  {
  }

  function ParseRing(ts: seq<Text>): Parsed<Ring<Reading>> { PositionConsumes(); ParseList(ParsePosition, ts) }

  lemma RingConsumes()
    ensures Consumes(ParseRing)
  {
  }

  function ParsePolygon(ts: seq<Text>): Parsed<seq<Ring<Reading>>> { RingConsumes(); ParseList(ParseRing, ts) }

  function ParsePolygons(ts: seq<Text>): Parsed<seq<seq<Ring<Reading>>>> {
    ParseList(ParsePolygon, ts)
  }

  function As<A, B>(r: Parsed<A>, f: A -> B): Parsed<B> {
    if r.Err? then Err(r.error) else Ok((f(r.value.0), r.value.1))
  }

  /** `parse`: of a point's position list only the first position counts. */
  function ParseGeometry(ts: seq<Text>): Parsed<Geometry<Reading>> {
    if ts == [] then Err(UnexpectedEnd)
    else
      var keyword := Upper(ts[0]);
      if keyword == POINT then
        var ring := ParseRing(ts[1..]);
        if ring.Err? then Err(ring.error)
        else if ring.value.0 == [] then Err(UnexpectedEnd)
        else Ok((Point(ring.value.0[0]), ring.value.1))
      else if keyword == LINESTRING then As(ParseRing(ts[1..]), ps => LineString(ps))
      else if keyword == POLYGON then As(ParsePolygon(ts[1..]), rings => Polygon(rings))
      else if keyword == MULTIPOLYGON then As(ParsePolygons(ts[1..]), polygons => MultiPolygon(polygons))
      else Err(UnsupportedType(keyword))
  }

  /** A geometry and nothing after it. */
  function ParseWhole(ts: seq<Text>): Result<Geometry<Reading>, WktError> {
    if ts == [] then Err(NoTokens) else Whole(ParseGeometry(ts))
  }

  function Whole(g: Parsed<Geometry<Reading>>): Result<Geometry<Reading>, WktError> {
    if g.Err? then Err(g.error)
    else if g.value.1 != [] then Err(TrailingTokens)
    else Ok(g.value.0)
  }

  /** `parse_wkt` */
  function ParseWkt(wkt: Text): Result<Geometry<Reading>, WktError> { ParseWhole(Tokens(wkt)) }

  // ---- the parser as it runs ----

  /** The outcome of a method that moves over tokens is that of the function on the tokens ahead. */
  ghost predicate Follows<T>(r: Result<T, WktError>, spec: Parsed<T>, rest: seq<Text>) {
    if spec.Ok? then r == Ok(spec.value.0) && rest == spec.value.1 else r == Err(spec.error)
  }

  /** A list of which some items are read: what the loop makes of the tokens ahead is the rest of it. */
  ghost predicate Scanned<T>(item: Parser<T>, start: seq<Text>, items: seq<T>, more: bool, rest: seq<Text>)
    requires Consumes(item)
  {
    ParseItems(item, start) == if more then Prepended(items, ParseItems(item, rest)) else Ok((items, rest))
  }

  lemma ScanStart<T>(item: Parser<T>, start: seq<Text>)
    requires Consumes(item)
    ensures Scanned(item, start, [], true, start)
  {
    var r := ParseItems(item, start);
    if r.Ok? { assert [] + r.value.0 == r.value.0; }
  }

  lemma ScanNext<T>(item: Parser<T>, start: seq<Text>, items: seq<T>, ts: seq<Text>)
    requires Consumes(item) && Scanned(item, start, items, true, ts)
    ensures item(ts).Err? ==> ParseItems(item, start) == Err(item(ts).error)
    ensures item(ts).Ok? ==>
              var v, rest := item(ts).value.0, item(ts).value.1;
              if rest == [] then ParseItems(item, start) == Err(UnexpectedEnd)
              else if rest[0] == [COMMA] then Scanned(item, start, items + [v], true, rest[1..])
              else if rest[0] == [CLOSE] then Scanned(item, start, items + [v], false, rest[1..])
              else ParseItems(item, start) == Err(Expected(rest[0]))
  {
    if item(ts).Ok? {
      var v, rest := item(ts).value.0, item(ts).value.1;
      var more := ParseMore(item, rest);
      if more.Ok? { assert items + ([v] + more.value.0) == (items + [v]) + more.value.0; }
      assert [v] + [] == [v];
    }
  }

  class TokenParser {
    const tokens: seq<Text>
    var index: nat

    ghost predicate Valid()
      reads this
    {
      index <= |tokens|
    }

    /** The tokens ahead. */
    ghost function Rest(): seq<Text>
      requires Valid()
      reads this
    {
      tokens[index..]
    }

    constructor (wkt: Text)
      ensures tokens == Tokens(wkt) && Valid() && Rest() == Tokens(wkt)
    {
      tokens, index := Tokens(wkt), 0;
    }

    method Peek() returns (r: Result<Text, WktError>)
      requires Valid()
      ensures r == if Rest() == [] then Err(UnexpectedEnd) else Ok(Rest()[0])
    {
      r := if index >= |tokens| then Err(UnexpectedEnd) else Ok(tokens[index]);
    }

    method Next() returns (r: Result<Text, WktError>)
      requires Valid()
      modifies this
      ensures Valid()
      ensures old(Rest()) == [] ==> r == Err(UnexpectedEnd)
      ensures old(Rest()) != [] ==> r == Ok(old(Rest())[0]) && Rest() == old(Rest())[1..]
    {
      r := Peek();
      if r.Ok? { index := index + 1; }
    }

    method Expect(token: Text) returns (r: Result<(), WktError>)
      requires Valid()
      modifies this
      ensures Valid()
      ensures old(Rest()) == [] ==> r == Err(UnexpectedEnd)
      ensures old(Rest()) != [] ==>
                if old(Rest())[0] == token then r == Ok(()) && Rest() == old(Rest())[1..]
                else r == Err(Expected(old(Rest())[0]))
    {
      var next := Next();
      if next.Err? { return Err(next.error); }
      r := if next.value == token then Ok(()) else Err(Expected(next.value));
    }

    method Number() returns (r: Result<Reading, WktError>)
      requires Valid()
      modifies this
      ensures Valid() && Follows(r, ParseNumber(old(Rest())), Rest())
    {
      var token := Next();
      if token.Err? { return Err(token.error); }
      match ReadFloat(token.value)
      case Some(reading) => r := Ok(reading);
      case None => r := Err(MalformedOrdinate(token.value));
    }

    method PositionOf() returns (r: Result<Position<Reading>, WktError>)
      requires Valid()
      modifies this
      ensures Valid() && Follows(r, ParsePosition(old(Rest())), Rest())
    {
      var x := Number();
      if x.Err? { return Err(x.error); }
      var y := Number();
      if y.Err? { return Err(y.error); }
      return Ok(Position(x.value, y.value));
    }

    /** The separator after an item: whether another one follows, the list being closed when not. */
    method More() returns (r: Result<bool, WktError>)
      requires Valid()
      modifies this
      ensures Valid()
      ensures old(Rest()) == [] ==> r == Err(UnexpectedEnd)
      ensures old(Rest()) != [] ==>
                if old(Rest())[0] in {[COMMA], [CLOSE]}
                then r == Ok(old(Rest())[0] == [COMMA]) && Rest() == old(Rest())[1..]
                else r == Err(Expected(old(Rest())[0]))
    {
      var token := Peek();
      if token.Err? { return Err(token.error); }
      if token.value == [COMMA] {
        token := Next();
        return Ok(true);
      }
      var closed := Expect([CLOSE]);
      if closed.Err? { return Err(closed.error); }
      return Ok(false);
    }

    /** `_position_list` */
    method PositionList() returns (r: Result<Ring<Reading>, WktError>)
      requires Valid()
      modifies this
      ensures Valid() && Follows(r, ParseRing(old(Rest())), Rest())
    {
      PositionConsumes();
      var bracket := Expect([OPEN]);
      if bracket.Err? { return Err(bracket.error); }
      ghost var start := Rest();
      var positions: Ring<Reading> := [];
      ScanStart(ParsePosition, start);
      var more := true;
      while more
        invariant Valid() && |Rest()| <= |start|
        invariant Scanned(ParsePosition, start, positions, more, Rest())
        decreases more, |Rest()|
      {
        ScanNext(ParsePosition, start, positions, Rest());
        var p := PositionOf();
        if p.Err? { return Err(p.error); }
        positions := positions + [p.value];
        var again := More();
        if again.Err? { return Err(again.error); }
        more := again.value;
      }
      return Ok(positions);
    }

    /** `_polygon` */
    method RingList() returns (r: Result<seq<Ring<Reading>>, WktError>)
      requires Valid()
      modifies this
      ensures Valid() && Follows(r, ParsePolygon(old(Rest())), Rest())
    {
      RingConsumes();
      var bracket := Expect([OPEN]);
      if bracket.Err? { return Err(bracket.error); }
      ghost var start := Rest();
      var rings: seq<Ring<Reading>> := [];
      ScanStart(ParseRing, start);
      var more := true;
      while more
        invariant Valid() && |Rest()| <= |start|
        invariant Scanned(ParseRing, start, rings, more, Rest())
        decreases more, |Rest()|
      {
        ScanNext(ParseRing, start, rings, Rest());
        var ring := PositionList();
        if ring.Err? { return Err(ring.error); }
        rings := rings + [ring.value];
        var again := More();
        if again.Err? { return Err(again.error); }
        more := again.value;
      }
      return Ok(rings);
    }

    method PolygonList() returns (r: Result<seq<seq<Ring<Reading>>>, WktError>)
      requires Valid()
      modifies this
      ensures Valid() && Follows(r, ParsePolygons(old(Rest())), Rest())
    {
      var bracket := Expect([OPEN]);
      if bracket.Err? { return Err(bracket.error); }
      ghost var start := Rest();
      var polygons: seq<seq<Ring<Reading>>> := [];
      ScanStart(ParsePolygon, start);
      var more := true;
      while more
        invariant Valid() && |Rest()| <= |start|
        invariant Scanned(ParsePolygon, start, polygons, more, Rest())
        decreases more, |Rest()|
      {
        ScanNext(ParsePolygon, start, polygons, Rest());
        var polygon := RingList();
        if polygon.Err? { return Err(polygon.error); }
        polygons := polygons + [polygon.value];
        var again := More();
        if again.Err? { return Err(again.error); }
        more := again.value;
      }
      return Ok(polygons);
    }

    /** `done` after `parse` */
    method ParseAll() returns (r: Result<Geometry<Reading>, WktError>)
      requires Valid()
      modifies this
      ensures r == Whole(ParseGeometry(old(Rest())))
    {
      r := Parse();
      if r.Ok? && index != |tokens| { r := Err(TrailingTokens); }
    }

    method Parse() returns (r: Result<Geometry<Reading>, WktError>)
      requires Valid()
      modifies this
      ensures Valid() && Follows(r, ParseGeometry(old(Rest())), Rest())
    {
      var token := Next();
      if token.Err? { return Err(token.error); }
      var keyword := Upper(token.value);
      if keyword == POINT {
        var ring := PositionList();
        if ring.Err? { return Err(ring.error); }
        if ring.value == [] { return Err(UnexpectedEnd); }
        return Ok(Point(ring.value[0]));
      } else if keyword == LINESTRING {
        var ring := PositionList();
        if ring.Err? { return Err(ring.error); }
        return Ok(LineString(ring.value));
      } else if keyword == POLYGON {
        var rings := RingList();
        if rings.Err? { return Err(rings.error); }
        return Ok(Polygon(rings.value));
      } else if keyword == MULTIPOLYGON {
        var polygons := PolygonList();
        if polygons.Err? { return Err(polygons.error); }
        return Ok(MultiPolygon(polygons.value));
      }
      return Err(UnsupportedType(keyword));
    }
  }

  /** `parse_wkt` */
  method RunParser(wkt: Text) returns (r: Result<Geometry<Reading>, WktError>)
    ensures r == ParseWkt(wkt)
  {
    var parser := new TokenParser(wkt);
    if parser.tokens == [] { return Err(NoTokens); }
    r := parser.ParseAll();
  }
}
