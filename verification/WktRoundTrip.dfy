/** Parsing a printed geometry gives the geometry back, all tokens consumed, exactly when none of its lists is empty. */
module WktRoundTrip {
  import opened Wrappers
  import opened DecimalDigits
  import opened Decimals
  import opened WktText
  import opened WktParser

  // ---- the tokens of a printed text ----

  type Tokenizer = Text -> seq<Text>

  /** The text is these tokens, whatever delimiter follows. */
  ghost predicate Tokenizes(tokens: Tokenizer, text: Text, group: seq<Text>) {
    forall rest :: Delimited(rest) ==> tokens(text + rest) == group + tokens(rest)
  }

  /** Punctuation is a token of its own, and spaces are passed over. */
  ghost predicate Punctuates(tokens: Tokenizer) {
    && (forall c, rest :: c in {OPEN, CLOSE, COMMA} ==> tokens([c] + rest) == [[c]] + tokens(rest))
    && (forall rest :: tokens([SPACE] + rest) == tokens(rest))
    && tokens([]) == []
  }

  lemma TokensPunctuates()
    ensures Punctuates(Tokens)
  {
    forall c, rest | c in {OPEN, CLOSE, COMMA} ensures Tokens([c] + rest) == [[c]] + Tokens(rest) {
      PunctuationToken(c, rest);
    }
    forall rest ensures Tokens([SPACE] + rest) == Tokens(rest) { Dropped(SPACE, rest); }
  }

  function Separated(groups: seq<seq<Text>>): seq<Text> {
    if groups == [] then []
    else if |groups| == 1 then groups[0]
    else groups[0] + [[COMMA]] + Separated(groups[1..])
  }

  function ListTokens(groups: seq<seq<Text>>): seq<Text> { [[OPEN]] + Separated(groups) + [[CLOSE]] }

  lemma {:induction false} JoinTokens(tokens: Tokenizer, texts: seq<Text>, groups: seq<seq<Text>>, rest: Text)
    requires Punctuates(tokens) && |texts| == |groups| && Delimited(rest)
    requires forall i :: 0 <= i < |texts| ==> Tokenizes(tokens, texts[i], groups[i])
    ensures tokens(JoinTexts(texts) + rest) == Separated(groups) + tokens(rest)
  {
    if texts == [] {
      assert JoinTexts(texts) + rest == rest;
    } else if |texts| > 1 {
      var tail := JoinTexts(texts[1..]) + rest;
      JoinTokens(tokens, texts[1..], groups[1..], rest);
      var after := [COMMA] + ([SPACE] + tail);
      assert JoinTexts(texts) + rest == texts[0] + after;
      assert Tokenizes(tokens, texts[0], groups[0]) && Delimited(after);
    }
  }

  lemma ListTextTokens(tokens: Tokenizer, texts: seq<Text>, groups: seq<seq<Text>>, rest: Text)
    requires Punctuates(tokens) && |texts| == |groups|
    requires forall i :: 0 <= i < |texts| ==> Tokenizes(tokens, texts[i], groups[i])
    ensures tokens(ListText(texts) + rest) == ListTokens(groups) + tokens(rest)
  {
    var end := [CLOSE] + rest;
    assert ListText(texts) + rest == [OPEN] + (JoinTexts(texts) + end);
    JoinTokens(tokens, texts, groups, end);
  }

  lemma ListTokenizes(tokens: Tokenizer, texts: seq<Text>, groups: seq<seq<Text>>)
    requires Punctuates(tokens) && |texts| == |groups|
    requires forall i :: 0 <= i < |texts| ==> Tokenizes(tokens, texts[i], groups[i])
    ensures Tokenizes(tokens, ListText(texts), ListTokens(groups))
  {
    forall rest | Delimited(rest) ensures tokens(ListText(texts) + rest) == ListTokens(groups) + tokens(rest) {
      ListTextTokens(tokens, texts, groups, rest);
    }
  }

  function PositionGroup(p: Position<Ordinate>): seq<Text> { [FormatOrdinate(p.x), FormatOrdinate(p.y)] }

  function PositionGroups(ps: seq<Position<Ordinate>>): (r: seq<seq<Text>>)
    ensures |r| == |ps| && forall i :: 0 <= i < |r| ==> r[i] == PositionGroup(ps[i])
  {
    seq(|ps|, i requires 0 <= i < |ps| => PositionGroup(ps[i]))
  }

  function RingGroup(ring: Ring<Ordinate>): seq<Text> { ListTokens(PositionGroups(ring)) }

  function RingGroups(rings: seq<Ring<Ordinate>>): (r: seq<seq<Text>>)
    ensures |r| == |rings| && forall i :: 0 <= i < |r| ==> r[i] == RingGroup(rings[i])
  {
    seq(|rings|, i requires 0 <= i < |rings| => RingGroup(rings[i]))
  }

  function RingsGroup(rings: seq<Ring<Ordinate>>): seq<Text> { ListTokens(RingGroups(rings)) }

  function RingsGroups(polygons: seq<seq<Ring<Ordinate>>>): (r: seq<seq<Text>>)
    ensures |r| == |polygons| && forall i :: 0 <= i < |r| ==> r[i] == RingsGroup(polygons[i])
  {
    seq(|polygons|, i requires 0 <= i < |polygons| => RingsGroup(polygons[i]))
  }

  lemma PairTokenizes(tokens: Tokenizer, x: Text, y: Text)
    requires Punctuates(tokens) && Tokenizes(tokens, x, [x]) && Tokenizes(tokens, y, [y])
    ensures Tokenizes(tokens, x + [SPACE] + y, [x, y])
  {
    forall rest | Delimited(rest) ensures tokens(x + [SPACE] + y + rest) == [x, y] + tokens(rest) {
      assert x + [SPACE] + y + rest == x + ([SPACE] + (y + rest));
      assert [x] + ([y] + tokens(rest)) == [x, y] + tokens(rest);
    }
  }

  lemma OrdinateTokenizes(o: Ordinate)
    ensures Tokenizes(Tokens, FormatOrdinate(o), [FormatOrdinate(o)])
  {
    forall rest | Delimited(rest) ensures Tokens(FormatOrdinate(o) + rest) == [FormatOrdinate(o)] + Tokens(rest) {
      OrdinateToken(o, rest);
    }
  }

  lemma PositionTokenizes(p: Position<Ordinate>)
    ensures Tokenizes(Tokens, PositionText(p), PositionGroup(p))
  {
    TokensPunctuates();
    OrdinateTokenizes(p.x);
    OrdinateTokenizes(p.y);
    PairTokenizes(Tokens, FormatOrdinate(p.x), FormatOrdinate(p.y));
  }

  lemma PositionsTokenize(ps: seq<Position<Ordinate>>)
    ensures forall i :: 0 <= i < |ps| ==> Tokenizes(Tokens, PositionTexts(ps)[i], PositionGroups(ps)[i])
  {
    forall i | 0 <= i < |ps| ensures Tokenizes(Tokens, PositionTexts(ps)[i], PositionGroups(ps)[i]) {
      PositionTokenizes(ps[i]);
    }
  }

  lemma RingsTokenize(rings: seq<Ring<Ordinate>>)
    ensures forall i :: 0 <= i < |rings| ==> Tokenizes(Tokens, RingTexts(rings)[i], RingGroups(rings)[i])
  {
    TokensPunctuates();
    forall i | 0 <= i < |rings| ensures Tokenizes(Tokens, RingTexts(rings)[i], RingGroups(rings)[i]) {
      PositionsTokenize(rings[i]);
      ListTokenizes(Tokens, PositionTexts(rings[i]), PositionGroups(rings[i]));
    }
  }

  lemma PolygonsTokenize(polygons: seq<seq<Ring<Ordinate>>>)
    ensures forall i :: 0 <= i < |polygons| ==> Tokenizes(Tokens, PolygonTexts(polygons)[i], RingsGroups(polygons)[i])
  {
    TokensPunctuates();
    forall i | 0 <= i < |polygons| ensures Tokenizes(Tokens, PolygonTexts(polygons)[i], RingsGroups(polygons)[i]) {
      RingsTokenize(polygons[i]);
      ListTokenizes(Tokens, RingTexts(polygons[i]), RingGroups(polygons[i]));
    }
  }

  lemma KeywordTokens(tokens: Tokenizer, keyword: Text, texts: seq<Text>, groups: seq<seq<Text>>)
    requires Punctuates(tokens) && |texts| == |groups|
    requires forall i :: 0 <= i < |texts| ==> Tokenizes(tokens, texts[i], groups[i])
    requires tokens(keyword + ([SPACE] + ListText(texts))) == [keyword] + tokens([SPACE] + ListText(texts))
    ensures tokens(keyword + [SPACE] + ListText(texts)) == [keyword] + ListTokens(groups)
  {
    var list := ListText(texts);
    assert keyword + [SPACE] + list == keyword + ([SPACE] + list);
    ListTextTokens(tokens, texts, groups, []);
    assert list + [] == list && ListTokens(groups) + [] == ListTokens(groups);
  }

  /** The keyword, the space that is passed over, and the list. */
  lemma GeometryTokens(keyword: Text, texts: seq<Text>, groups: seq<seq<Text>>)
    requires keyword != [] && forall i :: 0 <= i < |keyword| ==> IsLetter(keyword[i])
    requires |texts| == |groups|
    requires forall i :: 0 <= i < |texts| ==> Tokenizes(Tokens, texts[i], groups[i])
    ensures Tokens(keyword + [SPACE] + ListText(texts)) == [keyword] + ListTokens(groups)
  {
    TokensPunctuates();
    WordToken(keyword, [SPACE] + ListText(texts));
    KeywordTokens(Tokens, keyword, texts, groups);
  }

  // ---- what the parser makes of them ----

  /** The tokens parse to the value, or to an error when there is none, whatever follows. */
  ghost predicate ParsesTo<T(!new)>(item: Parser<T>, group: seq<Text>, expected: Option<T>) {
    forall rest ::
      if expected.Some? then item(group + rest) == Ok((expected.value, rest)) else item(group + rest).Err?
  }

  /** All of one or more expected values, or none. */
  function AllOf<T>(expected: seq<Option<T>>): Option<seq<T>> {
    if expected == [] then None else Rest(expected)
  }

  function Rest<T>(expected: seq<Option<T>>): Option<seq<T>> {
    if expected == [] then Some([])
    else
      var rest := Rest(expected[1..]);
      if expected[0].None? || rest.None? then None else Some([expected[0].value] + rest.value)
  }

  lemma SeparatedShape(groups: seq<seq<Text>>, tail: seq<Text>)
    requires groups != []
    ensures Separated(groups) + tail ==
            groups[0] + (if groups[1..] == [] then tail else [[COMMA]] + (Separated(groups[1..]) + tail))
  {
  }

  lemma LastItem<T(!new)>(item: Parser<T>, group: seq<Text>, expected: Option<T>, rest: seq<Text>)
    requires Consumes(item) && ParsesTo(item, group, expected)
    ensures var r := ParseItems(item, group + ([[CLOSE]] + rest));
      if expected.Some? then r == Ok(([expected.value], rest)) else r.Err?
  {
    var end := [[CLOSE]] + rest;
    assert end[1..] == rest;
    if expected.Some? {
      assert item(group + end) == Ok((expected.value, end));
      assert ParseMore(item, end) == Ok(([], rest));
      assert [expected.value] + [] == [expected.value];
    } else {
      assert item(group + end).Err?;
    }
  }

  lemma OneMoreItem<T(!new)>(item: Parser<T>, group: seq<Text>, expected: Option<T>, tail: seq<Text>)
    requires Consumes(item) && ParsesTo(item, group, expected)
    ensures var r := ParseItems(item, group + ([[COMMA]] + tail));
      if expected.Some? then r == Prepended([expected.value], ParseItems(item, tail)) else r.Err?
  {
    var after := [[COMMA]] + tail;
    assert after[1..] == tail;
    if expected.Some? {
      assert item(group + after) == Ok((expected.value, after));
    } else {
      assert item(group + after).Err?;
    }
  }

  lemma {:induction false} ItemsParse<T(!new)>(item: Parser<T>, groups: seq<seq<Text>>, expected: seq<Option<T>>,
                                              rest: seq<Text>)
    requires Consumes(item) && |groups| == |expected| && groups != []
    requires forall i :: 0 <= i < |groups| ==> ParsesTo(item, groups[i], expected[i])
    ensures var r := ParseItems(item, Separated(groups) + ([[CLOSE]] + rest));
      if Rest(expected).Some? then r == Ok((Rest(expected).value, rest)) else r.Err?
  {
    var end := [[CLOSE]] + rest;
    SeparatedShape(groups, end);
    assert ParsesTo(item, groups[0], expected[0]);
    if groups[1..] == [] {
      assert expected[1..] == [] && Rest(expected[1..]) == Some([]);
      LastItem(item, groups[0], expected[0], rest);
      assert expected[0].Some? ==> [expected[0].value] + [] == [expected[0].value];
    } else {
      ItemsParse(item, groups[1..], expected[1..], rest);
      OneMoreItem(item, groups[0], expected[0], Separated(groups[1..]) + end);
    }
  }

  /** Nothing that can be parsed starts with a closing parenthesis. */
  ghost predicate RejectsClose<T(!new)>(item: Parser<T>) {
    forall rest :: item([[CLOSE]] + rest).Err?
  }

  lemma ListParse<T(!new)>(item: Parser<T>, groups: seq<seq<Text>>, expected: seq<Option<T>>, rest: seq<Text>)
    requires Consumes(item) && RejectsClose(item) && |groups| == |expected|
    requires forall i :: 0 <= i < |groups| ==> ParsesTo(item, groups[i], expected[i])
    ensures var r := ParseList(item, ListTokens(groups) + rest);
      if AllOf(expected).Some? then r == Ok((AllOf(expected).value, rest)) else r.Err?
  {
    var ts := ListTokens(groups) + rest;
    assert ts[0] == [OPEN] && ts[1..] == Separated(groups) + ([[CLOSE]] + rest);
    if groups == [] {
      assert ts[1..] == [[CLOSE]] + rest;
    } else {
      ItemsParse(item, groups, expected, rest);
    }
  }

  // ---- what a printed geometry reads as ----

  function ReadOrdinate(o: Ordinate): Reading {
    OrdinateReads(o);
    Finite(ReadDecimal(FormatOrdinate(o)).value)
  }

  function ReadPosition(p: Position<Ordinate>): Position<Reading> { Position(ReadOrdinate(p.x), ReadOrdinate(p.y)) }

  function ReadPositions(ps: seq<Position<Ordinate>>): (r: seq<Option<Position<Reading>>>)
    ensures |r| == |ps| && forall i :: 0 <= i < |r| ==> r[i] == Some(ReadPosition(ps[i]))
  {
    seq(|ps|, i requires 0 <= i < |ps| => Some(ReadPosition(ps[i])))
  }

  function ReadRing(ring: Ring<Ordinate>): Option<Ring<Reading>> { AllOf(ReadPositions(ring)) }

  function ReadRings(rings: seq<Ring<Ordinate>>): (r: seq<Option<Ring<Reading>>>)
    ensures |r| == |rings| && forall i :: 0 <= i < |r| ==> r[i] == ReadRing(rings[i])
  {
    seq(|rings|, i requires 0 <= i < |rings| => ReadRing(rings[i]))
  }

  function ReadPolygon(rings: seq<Ring<Ordinate>>): Option<seq<Ring<Reading>>> { AllOf(ReadRings(rings)) }

  function ReadPolygons(polygons: seq<seq<Ring<Ordinate>>>): (r: seq<Option<seq<Ring<Reading>>>>)
    ensures |r| == |polygons| && forall i :: 0 <= i < |r| ==> r[i] == ReadPolygon(polygons[i])
  {
    seq(|polygons|, i requires 0 <= i < |polygons| => ReadPolygon(polygons[i]))
  }

  lemma OrdinateStart(o: Ordinate)
    ensures var text := FormatOrdinate(o); text != [] && (text[0] == MINUS || IsDigit(text[0]))
  {
    FormatIsLiteral(o);
    WholeText(o.units / GRID);
    var mantissa := MantissaText(Digits(o.units / GRID), Kept(o));
    assert mantissa[0] == Print(Digits(o.units / GRID))[0];
  }

  lemma NotAWord(text: Text, d: Decimal)
    requires text != [] && (text[0] == MINUS || IsDigit(text[0])) && ReadDecimal(text) == Some(d)
    ensures ReadFloat(text) == Some(Finite(d))
  {
    assert Upper(text)[0] == text[0];
  }

  lemma OrdinateFloat(o: Ordinate)
    ensures ReadFloat(FormatOrdinate(o)) == Some(ReadOrdinate(o))
  {
    OrdinateStart(o);
    OrdinateReads(o);
    NotAWord(FormatOrdinate(o), ReadDecimal(FormatOrdinate(o)).value);
  }

  lemma PairParses(x: Text, y: Text, a: Reading, b: Reading, rest: seq<Text>)
    requires ReadFloat(x) == Some(a) && ReadFloat(y) == Some(b)
    ensures ParsePosition([x, y] + rest) == Ok((Position(a, b), rest))
  {
    var ts := [x, y] + rest;
    assert ts[1..] == [y] + rest && ts[1..][1..] == rest;
  }

  lemma PositionParses(p: Position<Ordinate>)
    ensures ParsesTo(ParsePosition, PositionGroup(p), Some(ReadPosition(p)))
  {
    OrdinateFloat(p.x);
    OrdinateFloat(p.y);
    forall rest ensures ParsePosition(PositionGroup(p) + rest) == Ok((ReadPosition(p), rest)) {
      PairParses(FormatOrdinate(p.x), FormatOrdinate(p.y), ReadOrdinate(p.x), ReadOrdinate(p.y), rest);
    }
  }

  /** A parser that parses lists of items parses a bracketed list. */
  lemma ListParsesTo<T(!new)>(item: Parser<T>, list: Parser<seq<T>>, groups: seq<seq<Text>>, expected: seq<Option<T>>)
    requires Consumes(item) && RejectsClose(item) && |groups| == |expected|
    requires forall i :: 0 <= i < |groups| ==> ParsesTo(item, groups[i], expected[i])
    requires forall ts :: list(ts) == ParseList(item, ts)
    ensures ParsesTo(list, ListTokens(groups), AllOf(expected))
  {
    forall rest
      ensures if AllOf(expected).Some? then list(ListTokens(groups) + rest) == Ok((AllOf(expected).value, rest))
              else list(ListTokens(groups) + rest).Err?
    {
      ListParse(item, groups, expected, rest);
    }
  }

  lemma RingParses(ring: Ring<Ordinate>)
    ensures ParsesTo(ParseRing, RingGroup(ring), ReadRing(ring))
  {
    PositionConsumes();
    forall i | 0 <= i < |ring| ensures ParsesTo(ParsePosition, PositionGroups(ring)[i], ReadPositions(ring)[i]) {
      PositionParses(ring[i]);
    }
    ListParsesTo(ParsePosition, ParseRing, PositionGroups(ring), ReadPositions(ring));
  }

  lemma PolygonParses(rings: seq<Ring<Ordinate>>)
    ensures ParsesTo(ParsePolygon, RingsGroup(rings), ReadPolygon(rings))
  {
    RingConsumes();
    forall i | 0 <= i < |rings| ensures ParsesTo(ParseRing, RingGroups(rings)[i], ReadRings(rings)[i]) {
      RingParses(rings[i]);
    }
    ListParsesTo(ParseRing, ParsePolygon, RingGroups(rings), ReadRings(rings));
  }

  lemma PolygonsParse(polygons: seq<seq<Ring<Ordinate>>>)
    ensures ParsesTo(ParsePolygons, ListTokens(RingsGroups(polygons)), AllOf(ReadPolygons(polygons)))
  {
    forall i | 0 <= i < |polygons| ensures ParsesTo(ParsePolygon, RingsGroups(polygons)[i], ReadPolygons(polygons)[i]) {
      PolygonParses(polygons[i]);
    }
    ListParsesTo(ParsePolygon, ParsePolygons, RingsGroups(polygons), ReadPolygons(polygons));
  }

  // ---- the round trip ----

  lemma {:induction false} RestIs<T>(expected: seq<Option<T>>)
    ensures Rest(expected).Some? <==> forall i :: 0 <= i < |expected| ==> expected[i].Some?
    ensures Rest(expected).Some? ==>
              |Rest(expected).value| == |expected| &&
              forall i :: 0 <= i < |expected| ==> expected[i] == Some(Rest(expected).value[i])
  {
    if expected != [] { RestIs(expected[1..]); }
  }

  /** A reading of an ordinate is its number. */
  predicate ReadsAs(r: Reading, o: Ordinate) { r.Finite? && r.d.Value() == o.Value() }

  ghost predicate RingReadsAs(r: Ring<Reading>, ring: Ring<Ordinate>) {
    && |r| == |ring|
    && forall i :: 0 <= i < |ring| ==> ReadsAs(r[i].x, ring[i].x) && ReadsAs(r[i].y, ring[i].y)
  }

  ghost predicate RingsReadAs(r: seq<Ring<Reading>>, rings: seq<Ring<Ordinate>>) {
    |r| == |rings| && forall i :: 0 <= i < |rings| ==> RingReadsAs(r[i], rings[i])
  }

  /** The same type, lists and order, and every ordinate the same number. */
  ghost predicate Denotes(v: Geometry<Reading>, g: Geometry<Ordinate>) {
    match g
    case Point(p) => v.Point? && RingReadsAs([v.position], [p])
    case LineString(ps) => v.LineString? && RingReadsAs(v.positions, ps)
    case Polygon(rings) => v.Polygon? && RingsReadAs(v.rings, rings)
    case MultiPolygon(polygons) =>
      && v.MultiPolygon? && |v.polygons| == |polygons|
      && forall i :: 0 <= i < |polygons| ==> RingsReadAs(v.polygons[i], polygons[i])
  }

  predicate CompleteRings(rings: seq<Ring<Ordinate>>) {
    rings != [] && forall i :: 0 <= i < |rings| ==> rings[i] != []
  }

  /** No list in the geometry is empty. */
  predicate Complete(g: Geometry<Ordinate>) {
    match g
    case Point(_) => true
    case LineString(ps) => ps != []
    case Polygon(rings) => CompleteRings(rings)
    case MultiPolygon(polygons) => polygons != [] && forall i :: 0 <= i < |polygons| ==> CompleteRings(polygons[i])
  }

  lemma RingReading(ring: Ring<Ordinate>)
    ensures ReadRing(ring).Some? <==> ring != []
    ensures ReadRing(ring).Some? ==> RingReadsAs(ReadRing(ring).value, ring)
  {
    RestIs(ReadPositions(ring));
    forall i | 0 <= i < |ring| ensures ReadsAs(ReadOrdinate(ring[i].x), ring[i].x)
                                       && ReadsAs(ReadOrdinate(ring[i].y), ring[i].y)
    {
      OrdinateReads(ring[i].x);
      OrdinateReads(ring[i].y);
    }
    if ring != [] {
      var r := ReadRing(ring).value;
      forall i | 0 <= i < |ring| ensures r[i] == ReadPosition(ring[i]) {
        assert ReadPositions(ring)[i] == Some(r[i]);
      }
    }
  }

  lemma PolygonReading(rings: seq<Ring<Ordinate>>)
    ensures ReadPolygon(rings).Some? <==> CompleteRings(rings)
    ensures ReadPolygon(rings).Some? ==> RingsReadAs(ReadPolygon(rings).value, rings)
  {
    RestIs(ReadRings(rings));
    forall i | 0 <= i < |rings|
      ensures ReadRings(rings)[i].Some? <==> rings[i] != []
      ensures ReadRings(rings)[i].Some? ==> RingReadsAs(ReadRings(rings)[i].value, rings[i])
    {
      RingReading(rings[i]);
    }
  }

  lemma PolygonsReading(polygons: seq<seq<Ring<Ordinate>>>)
    ensures var r := AllOf(ReadPolygons(polygons));
      && (r.Some? <==> Complete(MultiPolygon(polygons)))
      && (r.Some? ==> Denotes(MultiPolygon(r.value), MultiPolygon(polygons)))
  {
    RestIs(ReadPolygons(polygons));
    forall i | 0 <= i < |polygons|
      ensures ReadPolygons(polygons)[i].Some? <==> CompleteRings(polygons[i])
      ensures ReadPolygons(polygons)[i].Some? ==> RingsReadAs(ReadPolygons(polygons)[i].value, polygons[i])
    {
      PolygonReading(polygons[i]);
    }
  }

  lemma Keywords()
    ensures Upper(POINT) == POINT && Upper(LINESTRING) == LINESTRING
    ensures Upper(POLYGON) == POLYGON && Upper(MULTIPOLYGON) == MULTIPOLYGON
    ensures POINT != LINESTRING && POINT != POLYGON && POINT != MULTIPOLYGON
    ensures LINESTRING != POLYGON && LINESTRING != MULTIPOLYGON && POLYGON != MULTIPOLYGON
  {
    assert POINT[1] == 79 && LINESTRING[0] == 76 && POLYGON[2] == 76 && POINT[2] == 73 && MULTIPOLYGON[0] == 77;
  }

  /** What a text parses as whose tokens are a keyword and a list. */
  lemma TokensParse(t: Text, keyword: Text, ts: seq<Text>)
    requires Tokens(t) == [keyword] + ts
    ensures keyword == POINT ==>
      var r := ParseRing(ts);
      (r.Err? || r.value.0 == [] ==> ParseWkt(t).Err?) &&
      (r.Ok? && r.value.0 != [] && r.value.1 == [] ==> ParseWkt(t) == Ok(Point(r.value.0[0])))
    ensures keyword == LINESTRING ==>
      var r := ParseRing(ts);
      (r.Err? ==> ParseWkt(t).Err?) && (r.Ok? && r.value.1 == [] ==> ParseWkt(t) == Ok(LineString(r.value.0)))
    ensures keyword == POLYGON ==>
      var r := ParsePolygon(ts);
      (r.Err? ==> ParseWkt(t).Err?) && (r.Ok? && r.value.1 == [] ==> ParseWkt(t) == Ok(Polygon(r.value.0)))
    ensures keyword == MULTIPOLYGON ==>
      var r := ParsePolygons(ts);
      (r.Err? ==> ParseWkt(t).Err?) && (r.Ok? && r.value.1 == [] ==> ParseWkt(t) == Ok(MultiPolygon(r.value.0)))
  {
    Keywords();
    assert ([keyword] + ts)[0] == keyword && ([keyword] + ts)[1..] == ts;
  }

  lemma PointTokensParse(t: Text, group: seq<Text>, expected: Ring<Reading>)
    requires Tokens(t) == [POINT] + group && ParseRing(group) == Ok((expected, [])) && expected != []
    ensures ParseWkt(t) == Ok(Point(expected[0]))
  {
    TokensParse(t, POINT, group);
  }

  lemma PrintedPoint(p: Position<Ordinate>)
    ensures var r := ParseWkt(GeometryText(Point(p))); r.Ok? && Denotes(r.value, Point(p))
  {
    PositionsTokenize([p]);
    assert PositionTexts([p]) == [PositionText(p)];
    GeometryTokens(POINT, PositionTexts([p]), PositionGroups([p]));
    RingParses([p]);
    RingReading([p]);
    assert RingGroup([p]) + [] == RingGroup([p]);
    PointTokensParse(GeometryText(Point(p)), RingGroup([p]), ReadRing([p]).value);
  }

  lemma PrintedLine(ps: seq<Position<Ordinate>>)
    ensures var r := ParseWkt(GeometryText(LineString(ps)));
      (r.Ok? <==> ps != []) && (r.Ok? ==> Denotes(r.value, LineString(ps)))
  {
    PositionsTokenize(ps);
    GeometryTokens(LINESTRING, PositionTexts(ps), PositionGroups(ps));
    RingParses(ps);
    RingReading(ps);
    TokensParse(GeometryText(LineString(ps)), LINESTRING, RingGroup(ps));
    assert RingGroup(ps) + [] == RingGroup(ps);
  }

  lemma PrintedPolygon(rings: seq<Ring<Ordinate>>)
    ensures var r := ParseWkt(GeometryText(Polygon(rings)));
      (r.Ok? <==> CompleteRings(rings)) && (r.Ok? ==> Denotes(r.value, Polygon(rings)))
  {
    RingsTokenize(rings);
    GeometryTokens(POLYGON, RingTexts(rings), RingGroups(rings));
    PolygonParses(rings);
    PolygonReading(rings);
    TokensParse(GeometryText(Polygon(rings)), POLYGON, RingsGroup(rings));
    assert RingsGroup(rings) + [] == RingsGroup(rings);
  }

  lemma PrintedMultiPolygon(polygons: seq<seq<Ring<Ordinate>>>)
    ensures var r := ParseWkt(GeometryText(MultiPolygon(polygons)));
      (r.Ok? <==> Complete(MultiPolygon(polygons))) && (r.Ok? ==> Denotes(r.value, MultiPolygon(polygons)))
  {
    PolygonsTokenize(polygons);
    GeometryTokens(MULTIPOLYGON, PolygonTexts(polygons), RingsGroups(polygons));
    PolygonsParse(polygons);
    PolygonsReading(polygons);
    var ts := ListTokens(RingsGroups(polygons));
    TokensParse(GeometryText(MultiPolygon(polygons)), MULTIPOLYGON, ts);
    assert ts + [] == ts;
  }

  /**
   * The printed text of a geometry parses, with all tokens consumed, exactly when the geometry is complete, and to
   * it.
   */
  lemma PrintedGeometryParses(g: Geometry<Ordinate>)
    ensures ParseWkt(GeometryText(g)).Ok? <==> Complete(g)
    ensures ParseWkt(GeometryText(g)).Ok? ==> Denotes(ParseWkt(GeometryText(g)).value, g)
  {
    match g
    case Point(p) => PrintedPoint(p);
    case LineString(ps) => PrintedLine(ps);
    case Polygon(rings) => PrintedPolygon(rings);
    case MultiPolygon(polygons) => PrintedMultiPolygon(polygons);
  }

  /** Printing after parsing is no identity: a character at which no token starts makes no difference. */
  lemma JunkIsIgnored(c: CodePoint, wkt: Text)
    requires StartsNoToken(c)
    ensures ParseWkt([c] + wkt) == ParseWkt(wkt)
  {
    Dropped(c, wkt);
  }
}
