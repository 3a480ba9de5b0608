/** What printed geometries look like, and which texts are tokens: character by character. */
module WktForm {
  import opened Wrappers
  import opened Sequences
  import opened DecimalDigits
  import opened Decimals
  import opened WktText
  import opened WktParser

  // ---- ordinates ----

  /** The number that decimal digits spell, from the last digit up. */
  function Spelled(t: Text): int {
    if t == [] then 0 else 10 * Spelled(t[..|t| - 1]) + t[|t| - 1] - 48
  }

  lemma {:induction false} PrintSpells(ds: seq<Digit>)
    ensures Spelled(Print(ds)) == NatOf(ds)
  {
    if ds != [] {
      assert Print(ds)[..|ds| - 1] == Print(ds[..|ds| - 1]);
      PrintSpells(ds[..|ds| - 1]);
    }
  }

  predicate InDigits(t: Text) { forall i :: 0 <= i < |t| ==> 48 <= t[i] <= 57 }

  /**
   * An ordinate is written as a minus if it is negative and not zero, a whole part without needless zeros, and if
   * there are decimals a point and up to seven of them, the last not zero. Filled up to seven decimals, the digits
   * spell the ten-millionths.
   */
  lemma OrdinateForm(o: Ordinate) returns (whole: Text, fraction: Text, zeros: Text)
    ensures FormatOrdinate(o) == (if o.negative && o.units != 0 then Ascii("-") else []) + whole
                                 + (if fraction == [] then [] else Ascii(".") + fraction)
    ensures InDigits(whole) && whole != [] && (|whole| > 1 ==> whole[0] != 48)
    ensures InDigits(fraction) && (fraction != [] ==> fraction[|fraction| - 1] != 48)
    ensures |fraction| + |zeros| == 7 && (forall i :: 0 <= i < |zeros| ==> zeros[i] == 48)
    ensures Spelled(whole + (fraction + zeros)) == o.units
  {
    var n := 7 - |Kept(o)|;
    whole, fraction, zeros := Print(Digits(o.units / GRID)), Print(Kept(o)), Print(Zeros(n));
    OrdinateParts(o);
    DigitsSpell(o);
    NoLeadingZero(o.units / GRID);
  }

  lemma OrdinateParts(o: Ordinate)
    ensures FormatOrdinate(o) == (if o.negative && o.units != 0 then Ascii("-") else []) + Print(Digits(o.units / GRID))
                                 + (if Kept(o) == [] then [] else Ascii(".") + Print(Kept(o)))
  {
    FormatIsLiteral(o);
    assert Ascii(".") == [DOT] && Ascii("-") == [MINUS];
    Grouped(Sign(o.negative && o.units != 0), Print(Digits(o.units / GRID)),
            if Kept(o) == [] then [] else [DOT] + Print(Kept(o)));
  }

  lemma Grouped(a: Text, b: Text, c: Text)
    ensures a + (b + c) == a + b + c
  {
  }

  lemma DigitsSpell(o: Ordinate)
    ensures Spelled(Print(Digits(o.units / GRID)) + (Print(Kept(o)) + Print(Zeros(7 - |Kept(o)|)))) == o.units
  {
    HighLow(o.units, 7);
    WholeOfGrid(o.units);
    PrintSpells(Digits(o.units / GRID) + LowDigits(o.units, 7));
    PrintParts(Digits(o.units / GRID), Kept(o), Zeros(7 - |Kept(o)|));
  }

  lemma PrintParts(a: seq<Digit>, b: seq<Digit>, c: seq<Digit>)
    ensures Print(a) + (Print(b) + Print(c)) == Print(a + (b + c))
  {
  }

  lemma NoLeadingZero(n: nat)
    ensures |Digits(n)| > 1 ==> Digits(n)[0] != 0
  {
  }

  /** An ordinate is so many ten-millionths. */
  lemma OrdinateValue(o: Ordinate)
    ensures o.Value() * 10_000_000.0 == if o.negative then -(o.units as real) else o.units as real
  {
    var x := o.units as real;
    assert Shifted(x, -7) == Shifted(x / 10.0, -6) == Shifted(x / 10.0 / 10.0, -5);
    var y := x / 10.0 / 10.0;
    assert Shifted(y, -5) == Shifted(y / 10.0, -4) == Shifted(y / 10.0 / 10.0, -3);
    var z := y / 10.0 / 10.0;
    assert Shifted(z, -3) == Shifted(z / 10.0, -2) == Shifted(z / 10.0 / 10.0, -1);
  }

  // ---- printed geometries ----

  /** Texts with a comma and a space between neighbours. */
  function Commas(texts: seq<Text>): Text {
    if texts == [] then [] else texts[0] + Flatten(Map((t: Text) => Ascii(", ") + t, texts[1..]))
  }

  lemma {:induction false} JoinedWithCommas(texts: seq<Text>)
    ensures JoinTexts(texts) == Commas(texts)
  {
    if |texts| > 1 {
      JoinedWithCommas(texts[1..]);
      assert Ascii(", ") == [COMMA, SPACE];
    }
  }

  function Listed(texts: seq<Text>): Text { Ascii("(") + Commas(texts) + Ascii(")") }

  /** Two ordinates with a space between them. */
  function Pairs(ps: seq<Position<Ordinate>>): seq<Text> {
    seq(|ps|, i requires 0 <= i < |ps| => FormatOrdinate(ps[i].x) + Ascii(" ") + FormatOrdinate(ps[i].y))
  }

  function PairLists(rings: seq<Ring<Ordinate>>): seq<Text> {
    seq(|rings|, i requires 0 <= i < |rings| => Listed(Pairs(rings[i])))
  }

  function PairListLists(polygons: seq<seq<Ring<Ordinate>>>): seq<Text> {
    seq(|polygons|, i requires 0 <= i < |polygons| => Listed(PairLists(polygons[i])))
  }

  lemma ListForm(texts: seq<Text>)
    ensures ListText(texts) == Listed(texts)
  {
    JoinedWithCommas(texts);
  }

  lemma RingForm(ring: Ring<Ordinate>)
    ensures RingText(ring) == Listed(Pairs(ring))
  {
    assert PositionTexts(ring) == Pairs(ring) by { assert Ascii(" ") == [SPACE]; }
    ListForm(Pairs(ring));
  }

  lemma RingsForm(rings: seq<Ring<Ordinate>>)
    ensures RingsText(rings) == Listed(PairLists(rings))
  {
    forall i | 0 <= i < |rings| ensures RingTexts(rings)[i] == PairLists(rings)[i] { RingForm(rings[i]); }
    assert RingTexts(rings) == PairLists(rings);
    ListForm(PairLists(rings));
  }

  /** A geometry is written as its keyword, a space, and its positions in parentheses. */
  lemma GeometryForm(g: Geometry<Ordinate>)
    ensures g.Point? ==> GeometryText(g) == Ascii("POINT ") + Listed(Pairs([g.position]))
    ensures g.LineString? ==> GeometryText(g) == Ascii("LINESTRING ") + Listed(Pairs(g.positions))
    ensures g.Polygon? ==> GeometryText(g) == Ascii("POLYGON ") + Listed(PairLists(g.rings))
    ensures g.MultiPolygon? ==> GeometryText(g) == Ascii("MULTIPOLYGON ") + Listed(PairListLists(g.polygons))
  {
    match g
    case Point(p) =>
      assert Ascii("POINT ") == POINT + [SPACE];
      assert [PositionText(p)] == Pairs([p]) by { assert Ascii(" ") == [SPACE]; }
      ListForm(Pairs([p]));
    case LineString(ps) =>
      assert Ascii("LINESTRING ") == LINESTRING + [SPACE];
      RingForm(ps);
    case Polygon(rings) =>
      assert Ascii("POLYGON ") == POLYGON + [SPACE];
      RingsForm(rings);
    case MultiPolygon(polygons) =>
      assert Ascii("MULTIPOLYGON ") == MULTIPOLYGON + [SPACE];
      forall i | 0 <= i < |polygons| ensures PolygonTexts(polygons)[i] == PairListLists(polygons)[i] {
        RingsForm(polygons[i]);
      }
      assert PolygonTexts(polygons) == PairListLists(polygons);
      ListForm(PairListLists(polygons));
  }

  // ---- tokens ----

  /**
   * A number as the token pattern has it: digits, a point or none, digits, and an exponent or none; or a point and
   * digits.
   */
  ghost predicate IsNumeral(t: Text, whole: Text, point: Text, fraction: Text, exponent: Text) {
    && InDigits(whole) && InDigits(fraction) && t == whole + (point + (fraction + exponent))
    && if whole == [] then point == Ascii(".") && fraction != [] && exponent == []
       else
         && (point == Ascii(".") || (point == [] && fraction == []))
         && (exponent == [] || IsExponent(exponent))
  }

  /** `e` or `E`, a sign or none, and digits. */
  ghost predicate IsExponent(t: Text) {
    && t != [] && t[0] in {69, 101}
    && if |t| > 1 && t[1] in {43, 45} then InDigits(t[2..]) && |t| > 2 else InDigits(t[1..]) && |t| > 1
  }

  lemma ExponentRun(exponent: Text, rest: Text)
    requires IsExponent(exponent) && (rest == [] || !(48 <= rest[0] <= 57))
    ensures ExponentLength(exponent + rest) == |exponent|
  {
    var t := exponent + rest;
    var signed := if |t| > 1 && t[1] in {43, 45} then 2 else 1;
    assert t[signed..] == exponent[signed..] + rest;
    DigitRunOf(exponent[signed..], rest);
  }

  /** The letter is followed by no number, with a sign or not. */
  predicate NoExponentAt(t: Text)
    requires t != []
  {
    if |t| > 1 && t[1] in {43, 45} then |t| == 2 || !(48 <= t[2] <= 57) else |t| == 1 || !(48 <= t[1] <= 57)
  }

  /** What may follow a numeral for it to end there: no digit, no point and no exponent. */
  predicate Ends(rest: Text) {
    rest == [] || (!(48 <= rest[0] <= 57) && rest[0] != 46 && (rest[0] in {69, 101} ==> NoExponentAt(rest)))
  }

  lemma NoExponentRun(rest: Text)
    requires Ends(rest)
    ensures ExponentLength(rest) == 0
  {
  }

  lemma PointNumeral(fraction: Text, rest: Text)
    requires InDigits(fraction) && fraction != [] && Ends(rest)
    ensures UnsignedLength([46] + (fraction + rest)) == 1 + |fraction|
  {
    var u := [46] + (fraction + rest);
    assert u[1..] == fraction + rest && u[0] == 46;
    DigitRunOf(fraction, rest);
  }

  lemma TailRun(exponent: Text, rest: Text)
    requires Ends(rest) && (exponent == [] || IsExponent(exponent))
    ensures var tail := exponent + rest;
      ExponentLength(tail) == |exponent| && (tail == [] || (!(48 <= tail[0] <= 57) && tail[0] != 46))
  {
    if exponent == [] {
      assert exponent + rest == rest;
      NoExponentRun(rest);
    } else {
      ExponentRun(exponent, rest);
    }
  }

  lemma DecimalsRun(point: Text, fraction: Text, exponent: Text, rest: Text)
    requires InDigits(fraction) && Ends(rest) && (exponent == [] || IsExponent(exponent))
    requires point == [46] || (point == [] && fraction == [])
    ensures DecimalsLength(point + (fraction + (exponent + rest))) == |point| + |fraction| + |exponent|
  {
    TailRun(exponent, rest);
    DecimalsThen(point, fraction, exponent + rest);
  }

  lemma DecimalsThen(point: Text, fraction: Text, tail: Text)
    requires InDigits(fraction) && (tail == [] || (!(48 <= tail[0] <= 57) && tail[0] != 46))
    requires point == [46] || (point == [] && fraction == [])
    ensures DecimalsLength(point + (fraction + tail)) == |point| + |fraction| + ExponentLength(tail)
  {
    DigitRunOf(fraction, tail);
    if point == [] {
      assert point + (fraction + tail) == tail && fraction + tail == tail && tail[0..] == tail;
    } else {
      PointThen(fraction + tail, fraction, tail);
    }
  }

  lemma PointThen(after: Text, fraction: Text, tail: Text)
    requires after == fraction + tail && DigitRun(after) == |fraction|
    ensures DecimalsLength([46] + after) == 1 + |fraction| + ExponentLength(tail)
  {
    var u := [46] + after;
    assert u[1..] == after && u[1 + |fraction|..] == tail;
  }

  lemma WholeNumeral(whole: Text, point: Text, fraction: Text, exponent: Text, rest: Text)
    requires InDigits(whole) && whole != [] && InDigits(fraction) && Ends(rest)
    requires point == [46] || (point == [] && fraction == [])
    requires exponent == [] || IsExponent(exponent)
    ensures UnsignedLength(whole + (point + (fraction + (exponent + rest)))) ==
            |whole| + |point| + |fraction| + |exponent|
  {
    var middle := point + (fraction + (exponent + rest));
    DigitRunOf(whole, middle);
    DecimalsRun(point, fraction, exponent, rest);
    assert (whole + middle)[|whole|..] == middle;
  }

  lemma Regrouped(a: Text, b: Text, c: Text, d: Text, e: Text)
    ensures a + (b + (c + d)) + e == a + (b + (c + (d + e)))
  {
  }

  lemma NumeralRun(t: Text, whole: Text, point: Text, fraction: Text, exponent: Text, rest: Text)
    requires IsNumeral(t, whole, point, fraction, exponent) && Ends(rest)
    ensures UnsignedLength(t + rest) == |t|
  {
    Regrouped(whole, point, fraction, exponent, rest);
    assert Ascii(".") == [46];
    if whole == [] {
      assert t == [46] + fraction && t + rest == [46] + (fraction + rest);
      PointNumeral(fraction, rest);
    } else {
      WholeNumeral(whole, point, fraction, exponent, rest);
    }
  }

  /** A numeral is one token, with a minus before it or not. */
  lemma NumeralToken(negative: bool, t: Text, whole: Text, point: Text, fraction: Text, exponent: Text, rest: Text)
    requires IsNumeral(t, whole, point, fraction, exponent) && Ends(rest)
    ensures var token := (if negative then Ascii("-") else []) + t; Tokens(token + rest) == [token] + Tokens(rest)
  {
    NumeralRun(t, whole, point, fraction, exponent, rest);
    NumeralStarts(t, whole, point, fraction, exponent);
    assert Ascii("-") == [45];
    SignedToken(negative, t, rest);
  }

  lemma NumeralStarts(t: Text, whole: Text, point: Text, fraction: Text, exponent: Text)
    requires IsNumeral(t, whole, point, fraction, exponent)
    ensures t != [] && (t[0] == 46 || 48 <= t[0] <= 57)
  {
    if whole == [] { assert t[0] == point[0]; } else { assert t[0] == whole[0]; }
  }

  /** A run of letters is one token, and so is a parenthesis or a comma; blanks and other marks are passed over. */
  lemma OtherTokens(word: Text, c: CodePoint, rest: Text)
    requires word != [] && forall i :: 0 <= i < |word| ==> 65 <= word[i] <= 90 || 97 <= word[i] <= 122
    ensures rest == [] || !(65 <= rest[0] <= 90 || 97 <= rest[0] <= 122) ==>
              Tokens(word + rest) == [word] + Tokens(rest)
    ensures c in {40, 41, 44} ==> Tokens([c] + rest) == [[c]] + Tokens(rest)
    ensures c !in {40, 41, 44, 45, 46} && !(48 <= c <= 57 || 65 <= c <= 90 || 97 <= c <= 122) ==>
              Tokens([c] + rest) == Tokens(rest)
    ensures rest == [] || !(48 <= rest[0] <= 57) ==> Tokens([46] + rest) == Tokens(rest)
    ensures rest == [] || !(rest[0] == 46 || 48 <= rest[0] <= 57) ==> Tokens([45] + rest) == Tokens(rest)
    ensures Tokens([]) == []
  {
    if rest == [] || !IsLetter(rest[0]) { WordToken(word, rest); }
    if c in {40, 41, 44} { PunctuationToken(c, rest); }
    if StartsNoToken(c) { Dropped(c, rest); }
    assert ([46] + rest)[1..] == rest && ([45] + rest)[1..] == rest;
    assert ([46] + rest)[0..] == [46] + rest;
  }

  // ---- words ----

  /** The same letters, in any case; every other character the same. */
  ghost predicate SameLetters(t: Text, capitals: Text) {
    |t| == |capitals| && forall i :: 0 <= i < |t| ==>
      t[i] == capitals[i] || (65 <= capitals[i] <= 90 && t[i] == capitals[i] + 32)
  }

  lemma Capitals(t: Text, capitals: Text)
    requires forall i :: 0 <= i < |capitals| ==> 65 <= capitals[i] <= 90
    ensures Upper(t) == capitals <==> SameLetters(t, capitals)
  {
    if Upper(t) == capitals {
      forall i | 0 <= i < |t|
        ensures t[i] == capitals[i] || (65 <= capitals[i] <= 90 && t[i] == capitals[i] + 32)
      {
        assert Upper(t)[i] == capitals[i];
      }
    }
  }

  /** As ordinates, three words stand for no number and for infinity, in any letter case; other tokens are decimals. */
  lemma OrdinateWords(t: Text)
    ensures ReadFloat(t) == Some(NotANumber) <==> SameLetters(t, Ascii("NAN"))
    ensures ReadFloat(t) == Some(Infinite) <==> SameLetters(t, Ascii("INF")) || SameLetters(t, Ascii("INFINITY"))
    ensures ReadFloat(t).Some? && ReadFloat(t).value.Finite? ==> ReadDecimal(t) == Some(ReadFloat(t).value.d)
  {
    assert Ascii("NAN") == NAN && Ascii("INF") == INF && Ascii("INFINITY") == INFINITY;
    Capitals(t, NAN);
    Capitals(t, INF);
    Capitals(t, INFINITY);
    assert |NAN| == |INF| && NAN[0] != INF[0] && |INFINITY| == 8;
  }

  lemma RingHasFirst(ts: seq<Text>)
    requires ParseRing(ts).Ok?
    ensures ParseRing(ts).value.0 != []
  {
    PositionConsumes();
  }

  /** The first token chooses the geometry by its letters, in any case. */
  lemma KeywordChooses(t: Text, ts: seq<Text>)
    ensures var g := ParseGeometry([t] + ts);
      && (SameLetters(t, Ascii("POINT")) ==>
            if ParseRing(ts).Ok? then g == Ok((Point(ParseRing(ts).value.0[0]), ParseRing(ts).value.1)) else g.Err?)
      && (SameLetters(t, Ascii("LINESTRING")) ==> g == As(ParseRing(ts), ps => LineString(ps)))
      && (SameLetters(t, Ascii("POLYGON")) ==> g == As(ParsePolygon(ts), rings => Polygon(rings)))
      && (SameLetters(t, Ascii("MULTIPOLYGON")) ==> g == As(ParsePolygons(ts), polygons => MultiPolygon(polygons)))
      && (g.Ok? ==>
            SameLetters(t, Ascii("POINT")) || SameLetters(t, Ascii("LINESTRING")) || SameLetters(t, Ascii("POLYGON"))
            || SameLetters(t, Ascii("MULTIPOLYGON")))
  {
    assert Ascii("POINT") == POINT && Ascii("LINESTRING") == LINESTRING;
    assert Ascii("POLYGON") == POLYGON && Ascii("MULTIPOLYGON") == MULTIPOLYGON;
    Capitals(t, POINT);
    Capitals(t, LINESTRING);
    Capitals(t, POLYGON);
    Capitals(t, MULTIPOLYGON);
    assert |POINT| == 5 && |LINESTRING| == 10 && |POLYGON| == 7 && |MULTIPOLYGON| == 12;
    assert ([t] + ts)[1..] == ts;
    if ParseRing(ts).Ok? { RingHasFirst(ts); }
  }
}
