/** Geometries on the 7-decimal grid as Well-Known Text: the printers, and the tokens a text consists of. */
module WktText {
  import opened DecimalDigits
  import opened Decimals

  datatype Position<+T> = Position(x: T, y: T)
  type Ring<+T> = seq<Position<T>>

  datatype Geometry<+T> =
    | Point(position: Position<T>)
    | LineString(positions: seq<Position<T>>)
    | Polygon(rings: seq<Ring<T>>)
    | MultiPolygon(polygons: seq<seq<Ring<T>>>)

  const SPACE: CodePoint := 32
  const OPEN: CodePoint := 40
  const CLOSE: CodePoint := 41
  const COMMA: CodePoint := 44
  const DIGIT_0: CodePoint := 48

  const POINT: Text := [80, 79, 73, 78, 84]
  const LINESTRING: Text := [76, 73, 78, 69, 83, 84, 82, 73, 78, 71]
  const POLYGON: Text := [80, 79, 76, 89, 71, 79, 78]
  const MULTIPOLYGON: Text := [77, 85, 76, 84, 73, 80, 79, 76, 89, 71, 79, 78]

  // ---- ordinates ----

  const GRID: int := 10_000_000

  /** A number rounded to seven decimals: ten-millionths and a sign, which zero may carry. */
  datatype Ordinate = Ordinate(negative: bool, units: nat) {
    function Value(): real {
      if negative then -Shifted(units as real, -7) else Shifted(units as real, -7)
    }
  }

  /** The last `k` decimal digits. */
  function LowDigits(n: nat, k: nat): (r: seq<Digit>)
    ensures |r| == k
  {
    if k == 0 then [] else LowDigits(n / 10, k - 1) + [n % 10]
  }

  /** `f"{value:.7f}"` */
  function Fixed(o: Ordinate): Text {
    Sign(o.negative) + Print(Digits(o.units / GRID)) + [DOT] + Print(LowDigits(o.units, 7))
  }

  /** `rstrip` of one character. */
  function StripEnd(t: Text, c: CodePoint): Text {
    if t != [] && t[|t| - 1] == c then StripEnd(t[..|t| - 1], c) else t
  }

  function Stripped(o: Ordinate): Text { StripEnd(StripEnd(Fixed(o), DIGIT_0), DOT) }

  /** `_format_ordinate` */
  function FormatOrdinate(o: Ordinate): Text {
    var text := Stripped(o);
    if text == [MINUS, DIGIT_0] || text == [] then [DIGIT_0] else text
  }

  lemma {:induction false} StripEndZeros(t: Text, n: nat)
    requires t != [] && t[|t| - 1] != DIGIT_0
    ensures StripEnd(t + Print(Zeros(n)), DIGIT_0) == t
  {
    var all := t + Print(Zeros(n));
    if n == 0 {
      assert all == t;
    } else {
      assert all[..|all| - 1] == t + Print(Zeros(n - 1));
      StripEndZeros(t, n - 1);
    }
  }

  /** The digits after the point that are kept. */
  function Kept(o: Ordinate): seq<Digit> { StripTrailing(LowDigits(o.units, 7)) }

  lemma FixedEnd(o: Ordinate)
    ensures var head := Sign(o.negative) + Print(Digits(o.units / GRID)) + [DOT] + Print(Kept(o));
      Fixed(o) == head + Print(Zeros(7 - |Kept(o)|)) && head[|head| - 1] != DIGIT_0
  {
    PrintAppend(Kept(o), Zeros(7 - |Kept(o)|));
  }

  lemma DigitsOfZero(n: nat)
    ensures Digits(n) == [0] <==> n == 0
  {
    NatOfDigits(n);
    NatOfDigits(0);
  }

  lemma StripDot(t: Text)
    requires t != [] && t[|t| - 1] != DOT
    ensures StripEnd(t + [DOT], DOT) == t && StripEnd(t, DOT) == t
  {
    assert (t + [DOT])[..|t|] == t;
  }

  lemma WholeText(n: nat)
    ensures var whole := Print(Digits(n)); whole != [] && (whole == [DIGIT_0] <==> n == 0)
    ensures var whole := Print(Digits(n)); forall i :: 0 <= i < |whole| ==> IsDigit(whole[i])
  {
    DigitsOfZero(n);
    ScanPrint(Digits(n));
    if Print(Digits(n)) == [DIGIT_0] { assert Digits(n)[0] == 0; }
  }

  /** Both strips leave the sign, the whole part, and the kept decimals if any. */
  lemma StrippedText(sign: Text, whole: Text, kept: seq<Digit>, zeros: nat)
    requires sign in {[], [MINUS]} && whole != [] && forall i :: 0 <= i < |whole| ==> IsDigit(whole[i])
    requires kept != [] ==> kept[|kept| - 1] != 0
    ensures StripEnd(StripEnd(sign + whole + [DOT] + Print(kept) + Print(Zeros(zeros)), DIGIT_0), DOT) ==
            sign + (whole + (if kept == [] then [] else [DOT] + Print(kept)))
  {
    var head := sign + whole + [DOT] + Print(kept);
    StripEndZeros(head, zeros);
    if kept == [] {
      assert head == (sign + whole) + [DOT];
      StripDot(sign + whole);
    } else {
      assert head == sign + (whole + ([DOT] + Print(kept)));
      StripDot(head);
    }
  }

  lemma NoNegativeZero(negative: bool, mantissa: Text)
    requires mantissa != [] && mantissa[0] != MINUS
    ensures (if Sign(negative) + mantissa == [MINUS, DIGIT_0] || Sign(negative) + mantissa == [] then [DIGIT_0]
             else Sign(negative) + mantissa) == Sign(negative && mantissa != [DIGIT_0]) + mantissa
  {
    assert [] + mantissa == mantissa && ([MINUS] + mantissa)[1..] == mantissa;
  }

  lemma MantissaZero(o: Ordinate)
    ensures var mantissa := MantissaText(Digits(o.units / GRID), Kept(o));
      mantissa != [] && mantissa[0] != MINUS && (mantissa == [DIGIT_0] <==> o.units == 0)
  {
    WholeText(o.units / GRID);
    LowDigitsZero(o.units);
    var whole := Print(Digits(o.units / GRID));
    var mantissa := MantissaText(Digits(o.units / GRID), Kept(o));
    assert mantissa[0] == whole[0];
    if Kept(o) == [] { assert mantissa == whole; } else { assert |mantissa| > 1; }
  }

  lemma StrippedIs(o: Ordinate)
    ensures Stripped(o) == Sign(o.negative) + MantissaText(Digits(o.units / GRID), Kept(o))
  {
    FixedEnd(o);
    WholeText(o.units / GRID);
    StrippedText(Sign(o.negative), Print(Digits(o.units / GRID)), Kept(o), 7 - |Kept(o)|);
  }

  /** The text of an ordinate: a sign unless it is zero, the whole part, and the kept decimals if any. */
  lemma FormatIsLiteral(o: Ordinate)
    ensures FormatOrdinate(o) == Sign(o.negative && o.units != 0) + MantissaText(Digits(o.units / GRID), Kept(o))
  {
    StrippedIs(o);
    MantissaZero(o);
    NoNegativeZero(o.negative, MantissaText(Digits(o.units / GRID), Kept(o)));
  }

  lemma LowDigitsZero(n: nat)
    ensures n == 0 <==> StripTrailing(LowDigits(n, 7)) == [] && n / GRID == 0
  {
    if StripTrailing(LowDigits(n, 7)) == [] && n / GRID == 0 {
      assert LowDigits(n, 7) == Zeros(7);
      HighLow(n, 7);
      WholeOfGrid(n);
      NatOfDigits(n / GRID);
      AllZeros(Digits(n / GRID), 7);
    }
    if n == 0 {
      LowDigitsOfZero(7);
      StripTrailingZeros([], 7);
      assert [] + Zeros(7) == Zeros(7);
    }
  }

  lemma {:induction false} LowDigitsOfZero(k: nat)
    ensures LowDigits(0, k) == Zeros(k)
  {
    if k > 0 {
      LowDigitsOfZero(k - 1);
      assert Zeros(k) == Zeros(k - 1) + [0];
    }
  }

  function High(n: nat, k: nat): nat { if k == 0 then n else High(n / 10, k - 1) }

  lemma WholeOfGrid(n: nat)
    ensures High(n, 7) == n / GRID
  {
    var a := n / 10;
    var b := a / 10;
    var c := b / 10;
    var d := c / 10;
    var e := d / 10;
    var f := e / 10;
    assert High(n, 7) == High(a, 6) == High(b, 5) == High(c, 4) == High(d, 3);
    assert High(d, 3) == High(e, 2) == High(f, 1) == High(f / 10, 0);
  }

  /** The whole part followed by the decimals are the digits of the ten-millionths. */
  lemma {:induction false} HighLow(n: nat, k: nat)
    ensures NatOf(Digits(High(n, k)) + LowDigits(n, k)) == n
  {
    var all := Digits(High(n, k)) + LowDigits(n, k);
    if k == 0 {
      NatOfDigits(n);
      assert all == Digits(n);
    } else {
      HighLow(n / 10, k - 1);
      assert all[..|all| - 1] == Digits(High(n / 10, k - 1)) + LowDigits(n / 10, k - 1);
    }
  }

  lemma {:induction false} AllZeros(ds: seq<Digit>, k: nat)
    ensures NatOf(ds) == 0 ==> NatOf(ds + Zeros(k)) == 0
  {
    var all := ds + Zeros(k);
    if k == 0 {
      assert all == ds;
    } else {
      assert all[..|all| - 1] == ds + Zeros(k - 1);
      AllZeros(ds, k - 1);
    }
  }

  /** The literal without its sign reads as the ten-millionths. */
  lemma MantissaReads(o: Ordinate)
    ensures var mantissa := MantissaText(Digits(o.units / GRID), Kept(o));
      && mantissa != [] && mantissa[0] != MINUS && ReadLiteral(mantissa).Some?
      && var (digits, exponent) := ShortestDigits(ReadLiteral(mantissa).value);
         ValueOf(digits, exponent) == Shifted(o.units as real, -7)
  {
    var whole := Digits(o.units / GRID);
    ReadLiteralText(whole, Kept(o), 0);
    ShortestDigitsValue(Literal(whole, Kept(o), 0));
    LiteralUnits(o);
    assert MantissaText(whole, Kept(o))[0] == Print(whole)[0];
  }

  lemma SignedReads(negative: bool, m: Text, value: real)
    requires m != [] && m[0] != MINUS && ReadLiteral(m).Some?
    requires var (digits, exponent) := ShortestDigits(ReadLiteral(m).value); ValueOf(digits, exponent) == value
    ensures var d := ReadDecimal(Sign(negative) + m);
      d.Some? && d.value.Value() == (if negative then -value else value)
  {
    var (digits, exponent) := ShortestDigits(ReadLiteral(m).value);
    ReadSigned(negative, m, ReadLiteral(m).value);
    if digits == [] {
      ZeroValue(exponent);
      ZeroValue(0);
    }
  }

  /** Reading the printed ordinate gives its number back exactly. */
  lemma OrdinateReads(o: Ordinate)
    ensures var d := ReadDecimal(FormatOrdinate(o)); d.Some? && d.value.Value() == o.Value()
  {
    FormatIsLiteral(o);
    MantissaReads(o);
    OrdinateZero(o);
    SignedReads(o.negative && o.units != 0, MantissaText(Digits(o.units / GRID), Kept(o)),
                Shifted(o.units as real, -7));
  }

  lemma OrdinateZero(o: Ordinate)
    ensures o.units == 0 ==> o.Value() == 0.0
    ensures o.units > 0 ==> Shifted(o.units as real, -7) > 0.0
  {
    ShiftInjective(0.0, 0.0, -7);
    ShiftInjective(o.units as real, 0.0, -7);
  }

  lemma LiteralUnits(o: Ordinate)
    ensures Literal(Digits(o.units / GRID), Kept(o), 0).Value() == Shifted(o.units as real, -7)
  {
    var n := 7 - |Kept(o)|;
    HighLow(o.units, 7);
    WholeOfGrid(o.units);
    FilledUp(Digits(o.units / GRID), Kept(o), n);
    assert Kept(o) + Zeros(n) == LowDigits(o.units, 7);
  }

  /** Zeros after the decimals make no difference. */
  lemma FilledUp(whole: seq<Digit>, kept: seq<Digit>, n: nat)
    ensures Literal(whole, kept, 0).Value() == ValueOf(whole + (kept + Zeros(n)), -|kept| - n)
  {
    ValueOfTrailing(whole + kept, n, -|kept| - n);
    assert whole + kept + Zeros(n) == whole + (kept + Zeros(n));
  }

  // ---- printers ----

  function PositionText(p: Position<Ordinate>): Text { FormatOrdinate(p.x) + [SPACE] + FormatOrdinate(p.y) }

  /** `", ".join` */
  function JoinTexts(texts: seq<Text>): Text {
    if texts == [] then [] else if |texts| == 1 then texts[0] else texts[0] + [COMMA, SPACE] + JoinTexts(texts[1..])
  }

  function ListText(texts: seq<Text>): Text { [OPEN] + JoinTexts(texts) + [CLOSE] }

  function PositionTexts(ps: seq<Position<Ordinate>>): (r: seq<Text>)
    ensures |r| == |ps| && forall i :: 0 <= i < |r| ==> r[i] == PositionText(ps[i])
  {
    seq(|ps|, i requires 0 <= i < |ps| => PositionText(ps[i]))
  }

  function RingText(ring: Ring<Ordinate>): Text { ListText(PositionTexts(ring)) }

  function RingTexts(rings: seq<Ring<Ordinate>>): (r: seq<Text>)
    ensures |r| == |rings| && forall i :: 0 <= i < |r| ==> r[i] == RingText(rings[i])
  {
    seq(|rings|, i requires 0 <= i < |rings| => RingText(rings[i]))
  }

  function RingsText(rings: seq<Ring<Ordinate>>): Text { ListText(RingTexts(rings)) }

  function PolygonTexts(polygons: seq<seq<Ring<Ordinate>>>): (r: seq<Text>)
    ensures |r| == |polygons| && forall i :: 0 <= i < |r| ==> r[i] == RingsText(polygons[i])
  {
    seq(|polygons|, i requires 0 <= i < |polygons| => RingsText(polygons[i]))
  }

  /** `point_wkt`, `line_wkt` and `geofence_polygon_wkt` */
  function GeometryText(g: Geometry<Ordinate>): Text {
    match g
    case Point(p) => POINT + [SPACE] + ListText([PositionText(p)])
    case LineString(ps) => LINESTRING + [SPACE] + RingText(ps)
    case Polygon(rings) => POLYGON + [SPACE] + RingsText(rings)
    case MultiPolygon(polygons) => MULTIPOLYGON + [SPACE] + ListText(PolygonTexts(polygons))
  }

  // ---- tokens ----

  predicate IsLetter(c: CodePoint) { 65 <= c <= 90 || 97 <= c <= 122 }

  function LetterRun(t: Text): (n: nat)
    ensures n <= |t|
  {
    if t != [] && IsLetter(t[0]) then 1 + LetterRun(t[1..]) else 0
  }

  function DigitRun(t: Text): (n: nat)
    ensures n <= |t|
  {
    if t != [] && IsDigit(t[0]) then 1 + DigitRun(t[1..]) else 0
  }

  /** `(?:[eE][+-]?\d+)?` */
  function ExponentLength(t: Text): (n: nat)
    ensures n <= |t|
  {
    if t == [] || t[0] !in {LOWER_E, UPPER_E} then 0
    else
      var signed := if |t| > 1 && t[1] in {PLUS, MINUS} then 2 else 1;
      var digits := DigitRun(t[signed..]);
      if digits > 0 then signed + digits else 0
  }

  /** `\.?\d*(?:[eE][+-]?\d+)?` */
  function DecimalsLength(u: Text): (n: nat)
    ensures n <= |u|
  {
    var point := if u != [] && u[0] == DOT then 1 else 0;
    var fraction := DigitRun(u[point..]);
    point + fraction + ExponentLength(u[point + fraction..])
  }

  /** `\d+\.?\d*(?:[eE][+-]?\d+)?|\.\d+`, or 0 where it does not match. */
  function UnsignedLength(u: Text): (n: nat)
    ensures n <= |u|
  {
    var whole := DigitRun(u);
    if whole > 0 then whole + DecimalsLength(u[whole..])
    else if u != [] && u[0] == DOT && DigitRun(u[1..]) > 0 then 1 + DigitRun(u[1..])
    else 0
  }

  /** An unsigned number after `-?`. */
  function NumberLength(t: Text): (n: nat)
    ensures n <= |t|
  {
    if t != [] && t[0] == MINUS then
      var n := UnsignedLength(t[1..]);
      if n > 0 then n + 1 else 0
    else UnsignedLength(t)
  }

  function TokenLength(t: Text): (n: nat)
    ensures n <= |t|
  {
    if t == [] then 0
    else if IsLetter(t[0]) then LetterRun(t)
    else if t[0] in {OPEN, CLOSE, COMMA} then 1
    else NumberLength(t)
  }

  /** `_TOKEN_PATTERN.findall`: a character at which no token starts is passed over. */
  function Tokens(t: Text): seq<Text>
    decreases |t|
  {
    if t == [] then []
    else
      var n := TokenLength(t);
      if n == 0 then Tokens(t[1..]) else [t[..n]] + Tokens(t[n..])
  }

  lemma {:induction false} LetterRunOf(w: Text, rest: Text)
    requires forall i :: 0 <= i < |w| ==> IsLetter(w[i])
    requires rest == [] || !IsLetter(rest[0])
    ensures LetterRun(w + rest) == |w|
  {
    if w == [] {
      assert w + rest == rest;
    } else {
      assert (w + rest)[1..] == w[1..] + rest;
      LetterRunOf(w[1..], rest);
    }
  }

  lemma {:induction false} DigitRunOf(w: Text, rest: Text)
    requires AllDigits(w)
    requires rest == [] || !IsDigit(rest[0])
    ensures DigitRun(w + rest) == |w|
  {
    if w == [] {
      assert w + rest == rest;
    } else {
      assert (w + rest)[1..] == w[1..] + rest;
      DigitRunOf(w[1..], rest);
    }
  }

  lemma WordToken(w: Text, rest: Text)
    requires w != [] && forall i :: 0 <= i < |w| ==> IsLetter(w[i])
    requires rest == [] || !IsLetter(rest[0])
    ensures Tokens(w + rest) == [w] + Tokens(rest)
  {
    LetterRunOf(w, rest);
    assert (w + rest)[..|w|] == w && (w + rest)[|w|..] == rest;
  }

  lemma PunctuationToken(c: CodePoint, rest: Text)
    requires c in {OPEN, CLOSE, COMMA}
    ensures Tokens([c] + rest) == [[c]] + Tokens(rest)
  {
    var t := [c] + rest;
    assert t[..1] == [c] && t[1..] == rest;
  }

  predicate StartsNoToken(c: CodePoint) {
    !IsLetter(c) && !IsDigit(c) && c !in {OPEN, CLOSE, COMMA, MINUS, DOT}
  }

  lemma Dropped(c: CodePoint, rest: Text)
    requires StartsNoToken(c)
    ensures Tokens([c] + rest) == Tokens(rest)
  {
    var t := [c] + rest;
    assert t[0..] == t && t[1..] == rest;
  }

  /** What may follow an ordinate in a printed text. */
  predicate Delimited(rest: Text) { rest != [] && rest[0] in {SPACE, COMMA, CLOSE} }

  lemma WholeLength(w: Text, rest: Text)
    requires w != [] && AllDigits(w) && Delimited(rest)
    ensures UnsignedLength(w + rest) == |w|
  {
    DigitRunOf(w, rest);
    assert (w + rest)[|w|..] == rest && rest[0..] == rest;
  }

  lemma DecimalLength(w: Text, f: Text, rest: Text)
    requires w != [] && AllDigits(w) && AllDigits(f) && Delimited(rest)
    ensures UnsignedLength(w + ([DOT] + (f + rest))) == |w| + 1 + |f|
  {
    var tail := [DOT] + (f + rest);
    DigitRunOf(w, tail);
    DigitRunOf(f, rest);
    assert (w + tail)[|w|..] == tail && tail[1..] == f + rest && tail[1 + |f|..] == rest;
  }

  lemma MantissaLength(whole: seq<Digit>, fraction: seq<Digit>, rest: Text)
    requires whole != [] && Delimited(rest)
    ensures UnsignedLength(MantissaText(whole, fraction) + rest) == |MantissaText(whole, fraction)|
  {
    var w, f := Print(whole), Print(fraction);
    if fraction == [] {
      assert MantissaText(whole, fraction) == w;
      WholeLength(w, rest);
    } else {
      assert MantissaText(whole, fraction) + rest == w + ([DOT] + (f + rest));
      DecimalLength(w, f, rest);
    }
  }

  lemma NumberToken(text: Text, rest: Text)
    requires text != [] && (IsDigit(text[0]) || text[0] in {MINUS, DOT}) && NumberLength(text + rest) == |text|
    ensures Tokens(text + rest) == [text] + Tokens(rest)
  {
    var t := text + rest;
    assert t[..|text|] == text && t[|text|..] == rest;
  }

  lemma SignedLength(negative: bool, m: Text, rest: Text)
    requires m != [] && (IsDigit(m[0]) || m[0] == DOT) && UnsignedLength(m + rest) == |m|
    ensures NumberLength(Sign(negative) + m + rest) == |Sign(negative) + m|
  {
    if negative {
      assert ([MINUS] + m + rest)[1..] == m + rest;
    } else {
      assert Sign(negative) + m == m;
    }
  }

  lemma SignedToken(negative: bool, m: Text, rest: Text)
    requires m != [] && (IsDigit(m[0]) || m[0] == DOT) && UnsignedLength(m + rest) == |m|
    ensures Tokens(Sign(negative) + m + rest) == [Sign(negative) + m] + Tokens(rest)
  {
    SignedLength(negative, m, rest);
    assert (Sign(negative) + m)[0] == (if negative then MINUS else m[0]);
    NumberToken(Sign(negative) + m, rest);
  }

  lemma OrdinateToken(o: Ordinate, rest: Text)
    requires Delimited(rest)
    ensures Tokens(FormatOrdinate(o) + rest) == [FormatOrdinate(o)] + Tokens(rest)
  {
    var whole := Digits(o.units / GRID);
    var mantissa := MantissaText(whole, Kept(o));
    FormatIsLiteral(o);
    MantissaLength(whole, Kept(o), rest);
    assert mantissa[0] == Print(whole)[0];
    SignedToken(o.negative && o.units != 0, mantissa, rest);
  }
}
