/** Numbers as digits and exponents, and decimal literals in text. */
module Decimals {
  import opened Wrappers
  import opened DecimalDigits

  function Zeros(n: nat): (r: seq<Digit>)
    ensures |r| == n && forall i :: 0 <= i < n ==> r[i] == 0
  {
    seq(n, i => 0)
  }

  lemma {:induction false} LeadingZeros(n: nat, ds: seq<Digit>)
    ensures NatOf(Zeros(n) + ds) == NatOf(ds)
  {
    var all := Zeros(n) + ds;
    if ds != [] {
      assert all[..|all| - 1] == Zeros(n) + ds[..|ds| - 1];
      LeadingZeros(n, ds[..|ds| - 1]);
    } else if n > 0 {
      assert all[..n - 1] == Zeros(n - 1) + ds;
      LeadingZeros(n - 1, ds);
    }
  }

  /** `lstrip("0")` */
  function StripLeading(ds: seq<Digit>): (r: seq<Digit>)
    ensures |r| <= |ds| && ds == Zeros(|ds| - |r|) + r
    ensures r != [] ==> r[0] != 0
  {
    if ds != [] && ds[0] == 0 then
      var r := StripLeading(ds[1..]);
      assert ds == [0] + ds[1..];
      r
    else ds
  }

  /** `rstrip("0")` */
  function StripTrailing(ds: seq<Digit>): (r: seq<Digit>)
    ensures |r| <= |ds| && ds == r + Zeros(|ds| - |r|)
    ensures r != [] ==> r[|r| - 1] != 0 && r[0] == ds[0]
  {
    if ds != [] && ds[|ds| - 1] == 0 then
      var r := StripTrailing(ds[..|ds| - 1]);
      assert ds == ds[..|ds| - 1] + [0];
      r
    else ds
  }

  lemma {:induction false} StripLeadingZeros(n: nat, ds: seq<Digit>)
    requires ds == [] || ds[0] != 0
    ensures StripLeading(Zeros(n) + ds) == ds
  {
    if n == 0 {
      assert Zeros(0) + ds == ds;
    } else {
      assert (Zeros(n) + ds)[1..] == Zeros(n - 1) + ds;
      StripLeadingZeros(n - 1, ds);
    }
  }

  lemma {:induction false} StripTrailingZeros(ds: seq<Digit>, n: nat)
    requires ds == [] || ds[|ds| - 1] != 0
    ensures StripTrailing(ds + Zeros(n)) == ds
  {
    if n == 0 {
      assert ds + Zeros(0) == ds;
    } else {
      assert (ds + Zeros(n))[..|ds| + n - 1] == ds + Zeros(n - 1);
      StripTrailingZeros(ds, n - 1);
    }
  }

  // ---- numbers digits * 10^exponent ----

  /** x * 10^e, one decimal place at a time. */
  function Shifted(x: real, e: int): real
    decreases if e >= 0 then e else -e
  {
    if e == 0 then x else if e > 0 then Shifted(10.0 * x, e - 1) else Shifted(x / 10.0, e + 1)
  }

  lemma {:induction false} ShiftOne(x: real, e: int)
    ensures Shifted(10.0 * x, e) == Shifted(x, e + 1)
    decreases if e >= 0 then e else -e
  {
    if e < 0 {
      assert (10.0 * x) / 10.0 == x;
    }
  }

  lemma {:induction false} ShiftInjective(x: real, y: real, e: int)
    ensures Shifted(x, e) == Shifted(y, e) <==> x == y
    ensures Shifted(x, e) == -Shifted(-x, e)
    ensures x > 0.0 ==> Shifted(x, e) > 0.0
    decreases if e >= 0 then e else -e
  {
    if e > 0 {
      ShiftInjective(10.0 * x, 10.0 * y, e - 1);
    } else if e < 0 {
      ShiftInjective(x / 10.0, y / 10.0, e + 1);
    }
  }

  function ValueOf(ds: seq<Digit>, exponent: int): real {
    Shifted(NatOf(ds) as real, exponent)
  }

  /** Dropping trailing zeros while raising the exponent keeps the number. */
  lemma {:induction false} ValueOfTrailing(ds: seq<Digit>, n: nat, exponent: int)
    ensures ValueOf(ds + Zeros(n), exponent) == ValueOf(ds, exponent + n)
  {
    if n == 0 {
      assert ds + Zeros(0) == ds;
    } else {
      var all := ds + Zeros(n);
      assert all[..|all| - 1] == ds + Zeros(n - 1);
      ShiftOne(NatOf(ds + Zeros(n - 1)) as real, exponent);
      ValueOfTrailing(ds, n - 1, exponent + 1);
    }
  }

  /** A number as shortest digits: none of them a leading or trailing zero; no digits is zero. */
  datatype Decimal = Decimal(negative: bool, digits: seq<Digit>, exponent: int) {
    predicate Canonical() {
      if digits == [] then !negative && exponent == 0
      else digits[0] != 0 && digits[|digits| - 1] != 0
    }

    function Value(): real {
      if negative then -ValueOf(digits, exponent) else ValueOf(digits, exponent)
    }
  }

  const ZERO := Decimal(false, [], 0)

  lemma ValuePositive(ds: seq<Digit>, e: int)
    requires ds != [] && ds[0] != 0
    ensures ValueOf(ds, e) > 0.0
  {
    NatOfPositive(ds);
    ShiftInjective(NatOf(ds) as real, 0.0, e);
  }

  lemma ZeroValue(e: int)
    ensures ValueOf([], e) == 0.0
  {
    ShiftInjective(0.0, 0.0, e);
  }

  lemma SameMagnitude(a: seq<Digit>, e: int, b: seq<Digit>, f: int)
    requires a != [] && a[0] != 0 && a[|a| - 1] != 0
    requires b != [] && b[0] != 0 && b[|b| - 1] != 0
    requires ValueOf(a, e) == ValueOf(b, f) && e >= f
    ensures a == b && e == f
  {
    var n := e - f;
    ValueOfTrailing(a, n, f);
    var shifted := a + Zeros(n);
    assert n > 0 ==> shifted[|shifted| - 1] == 0;
    ShiftInjective(NatOf(shifted) as real, NatOf(b) as real, f);
    DigitsOfNat(shifted);
    DigitsOfNat(b);
    assert a + Zeros(0) == a;
  }

  /** Canonical decimals are equal exactly when they denote the same number. */
  lemma DecimalValueInjective(a: Decimal, b: Decimal)
    requires a.Canonical() && b.Canonical()
    ensures a == b <==> a.Value() == b.Value()
  {
    if a.digits != [] { ValuePositive(a.digits, a.exponent); } else { ZeroValue(a.exponent); }
    if b.digits != [] { ValuePositive(b.digits, b.exponent); } else { ZeroValue(b.exponent); }
    if a.Value() == b.Value() && a.digits != [] && b.digits != [] {
      if a.exponent >= b.exponent {
        SameMagnitude(a.digits, a.exponent, b.digits, b.exponent);
      } else {
        SameMagnitude(b.digits, b.exponent, a.digits, a.exponent);
      }
    }
  }

  // ---- text ----

  /** Text is a sequence of Unicode code points, lone surrogates included. */
  type CodePoint = c: int | 0 <= c <= 0x10FFFF
  type Text = seq<CodePoint>

  function Ascii(s: string): (t: Text)
    ensures |t| == |s| && forall i :: 0 <= i < |s| ==> t[i] == s[i] as int
  {
    seq(|s|, i requires 0 <= i < |s| => s[i] as int)
  }

  const MINUS: CodePoint := 45
  const PLUS: CodePoint := 43
  const DOT: CodePoint := 46
  const LOWER_E: CodePoint := 101
  const UPPER_E: CodePoint := 69

  function Sign(negative: bool): Text { if negative then [MINUS] else [] }

  predicate IsDigit(c: CodePoint) { 48 <= c <= 57 }
  predicate IsNumberChar(c: CodePoint) { IsDigit(c) || c in {MINUS, PLUS, DOT, LOWER_E, UPPER_E} }

  function Print(ds: seq<Digit>): (t: Text)
    ensures |t| == |ds| && forall i :: 0 <= i < |ds| ==> t[i] == 48 + (ds[i] as int)
  {
    seq(|ds|, i requires 0 <= i < |ds| => 48 + (ds[i] as int))
  }

  predicate AllDigits(t: Text) { forall i :: 0 <= i < |t| ==> IsDigit(t[i]) }

  function Scan(t: Text): (ds: seq<Digit>)
    requires AllDigits(t)
    ensures |ds| == |t| && forall i :: 0 <= i < |t| ==> ds[i] == t[i] - 48
  {
    seq(|t|, i requires 0 <= i < |t| => t[i] - 48)
  }

  lemma ScanPrint(ds: seq<Digit>)
    ensures AllDigits(Print(ds)) && Scan(Print(ds)) == ds
  {
  }

  lemma PrintAppend(a: seq<Digit>, b: seq<Digit>)
    ensures Print(a + b) == Print(a) + Print(b)
  {
  }

  /** Index of the first character of `marks`, or the length. */
  function IndexOf(t: Text, marks: set<CodePoint>): (i: nat)
    ensures i <= |t| && (i < |t| ==> t[i] in marks)
    ensures forall j :: 0 <= j < i ==> t[j] !in marks
  {
    if t == [] || t[0] in marks then 0 else 1 + IndexOf(t[1..], marks)
  }

  lemma IndexOfFirst(t: Text, marks: set<CodePoint>, i: nat)
    requires i <= |t| && (i < |t| ==> t[i] in marks)
    requires forall j :: 0 <= j < i ==> t[j] !in marks
    ensures IndexOf(t, marks) == i
  {
  }

  /** Python's `int` on an exponent: an optional sign and digits. */
  function ReadExponent(t: Text): Option<int> {
    var body := if t != [] && t[0] in {MINUS, PLUS} then t[1..] else t;
    if body == [] || !AllDigits(body) then None
    else if t[0] == MINUS then Some(-(NatOf(Scan(body)) as int))
    else Some(NatOf(Scan(body)))
  }

  /** The parts of an unsigned decimal literal: digits before and after the point, exponent. */
  datatype Literal = Literal(whole: seq<Digit>, fraction: seq<Digit>, exponent: int) {
    function Value(): real { ValueOf(whole + fraction, exponent - |fraction|) }
  }

  function ReadMantissa(mantissa: Text): Option<(seq<Digit>, seq<Digit>)> {
    var point := IndexOf(mantissa, {DOT});
    var whole := mantissa[..point];
    var fraction := if point == |mantissa| then [] else mantissa[point + 1..];
    if !AllDigits(whole) || !AllDigits(fraction) || whole + fraction == [] then None
    else Some((Scan(whole), Scan(fraction)))
  }

  /** `partition("e")`, of either case: what is before the mark, and what is after it if there is one. */
  function CutAtMark(t: Text): (Text, Option<Text>) {
    var e := IndexOf(t, {LOWER_E, UPPER_E});
    if e == |t| then (t, None) else (t[..e], Some(t[e + 1..]))
  }

  function LiteralOfTexts(mantissa: Text, exponent: Option<Text>): Option<Literal> {
    var digits := ReadMantissa(mantissa);
    var e := if exponent.None? then Some(0) else ReadExponent(exponent.value);
    if digits.None? || e.None? then None
    else Some(Literal(digits.value.0, digits.value.1, e.value))
  }

  function ReadLiteral(t: Text): Option<Literal> {
    var (mantissa, exponent) := CutAtMark(t);
    LiteralOfTexts(mantissa, exponent)
  }

  /** `_shortest_digits` on the parts of a literal: (digits, exponent) without outer zeros. */
  function ShortestDigits(l: Literal): (r: (seq<Digit>, int)) {
    var digits := StripLeading(l.whole + l.fraction);
    var stripped := StripTrailing(digits);
    if stripped == [] then ([], 0)
    else (stripped, l.exponent - |l.fraction| + |digits| - |stripped|)
  }

  lemma StripLeadingValue(ds: seq<Digit>, e: int)
    ensures ValueOf(StripLeading(ds), e) == ValueOf(ds, e)
  {
    LeadingZeros(|ds| - |StripLeading(ds)|, StripLeading(ds));
  }

  lemma StripTrailingValue(ds: seq<Digit>, e: int)
    ensures ValueOf(StripTrailing(ds), e + (|ds| - |StripTrailing(ds)|)) == ValueOf(ds, e)
  {
    ValueOfTrailing(StripTrailing(ds), |ds| - |StripTrailing(ds)|, e);
  }

  /** The shortest digits denote the literal's number, and there is one such pair. */
  lemma ShortestDigitsValue(l: Literal)
    ensures var (digits, exponent) := ShortestDigits(l);
      ValueOf(digits, exponent) == l.Value() && Decimal(false, digits, exponent).Canonical()
  {
    var e := l.exponent - |l.fraction|;
    var digits := StripLeading(l.whole + l.fraction);
    StripLeadingValue(l.whole + l.fraction, e);
    StripTrailingValue(digits, e);
    if StripTrailing(digits) == [] {
      ZeroValue(0);
      ZeroValue(e + |digits|);
    }
  }

  /** Reading any decimal literal, with an optional sign, to its number. */
  function ReadDecimal(t: Text): (r: Option<Decimal>)
    ensures r.Some? ==> r.value.Canonical()
  {
    var negative := t != [] && t[0] == MINUS;
    var literal := ReadLiteral(if negative then t[1..] else t);
    if literal.None? then None
    else
      var (digits, exponent) := ShortestDigits(literal.value);
      ShortestDigitsValue(literal.value);
      Some(if digits == [] then ZERO else Decimal(negative, digits, exponent))
  }

  lemma ReadSigned(negative: bool, body: Text, l: Literal)
    requires body != [] && body[0] != MINUS && ReadLiteral(body) == Some(l)
    ensures ReadDecimal(Sign(negative) + body) ==
      Some(var (digits, exponent) := ShortestDigits(l);
           if digits == [] then ZERO else Decimal(negative, digits, exponent))
  {
    var t := Sign(negative) + body;
    assert (if negative then t[1..] else t) == body;
  }

  function MantissaText(whole: seq<Digit>, fraction: seq<Digit>): (t: Text)
    ensures |t| >= |whole|
    ensures forall i :: 0 <= i < |t| ==> IsDigit(t[i]) || t[i] == DOT
  {
    Print(whole) + (if fraction == [] then [] else [DOT] + Print(fraction))
  }

  lemma ReadMantissaText(whole: seq<Digit>, fraction: seq<Digit>)
    requires whole + fraction != []
    ensures ReadMantissa(MantissaText(whole, fraction)) == Some((whole, fraction))
  {
    var mantissa := MantissaText(whole, fraction);
    IndexOfFirst(mantissa, {DOT}, |whole|);
    ScanPrint(whole);
    ScanPrint(fraction);
    assert mantissa[..|whole|] == Print(whole);
    if fraction != [] {
      assert mantissa[|whole| + 1..] == Print(fraction);
    } else {
      assert mantissa == Print(whole);
    }
  }

  lemma CutText(mantissa: Text, exponent: Text)
    requires forall i :: 0 <= i < |mantissa| ==> mantissa[i] !in {LOWER_E, UPPER_E}
    ensures CutAtMark(mantissa) == (mantissa, None)
    ensures exponent != [] && exponent[0] == LOWER_E ==>
              CutAtMark(mantissa + exponent) == (mantissa, Some(exponent[1..]))
  {
    IndexOfFirst(mantissa, {LOWER_E, UPPER_E}, |mantissa|);
    if exponent != [] && exponent[0] == LOWER_E {
      var t := mantissa + exponent;
      IndexOfFirst(t, {LOWER_E, UPPER_E}, |mantissa|);
      assert t[..|mantissa|] == mantissa && t[|mantissa| + 1..] == exponent[1..];
    }
  }

  /** A literal without exponent, and one with exponent `e` written as `e+9` or `e-9`. */
  lemma ReadLiteralText(whole: seq<Digit>, fraction: seq<Digit>, e: int)
    requires whole + fraction != []
    ensures ReadLiteral(MantissaText(whole, fraction)) == Some(Literal(whole, fraction, 0))
    ensures ReadLiteral(MantissaText(whole, fraction) + ExponentText(e)) == Some(Literal(whole, fraction, e))
  {
    CutText(MantissaText(whole, fraction), ExponentText(e));
    ReadMantissaText(whole, fraction);
    ReadExponentText(e);
  }

  function ExponentText(e: int): (t: Text)
    ensures t != [] && t[0] == LOWER_E
  {
    [LOWER_E, if e >= 0 then PLUS else MINUS] + Print(Digits(if e >= 0 then e else -e))
  }

  lemma SignedExponent(sign: CodePoint, body: Text)
    requires sign in {MINUS, PLUS} && body != [] && AllDigits(body)
    ensures ReadExponent([sign] + body) ==
            Some(if sign == MINUS then -(NatOf(Scan(body)) as int) else NatOf(Scan(body)))
  {
    assert ([sign] + body)[0] == sign && ([sign] + body)[1..] == body;
  }

  lemma AfterMark(a: CodePoint, b: CodePoint, t: Text)
    ensures ([a, b] + t)[1..] == [b] + t
  {
  }

  lemma ReadExponentText(e: int)
    ensures ReadExponent(ExponentText(e)[1..]) == Some(e)
  {
    var n: nat := if e >= 0 then e else -e;
    var sign: CodePoint := if e >= 0 then PLUS else MINUS;
    AfterMark(LOWER_E, sign, Print(Digits(n)));
    ScanPrint(Digits(n));
    NatOfDigits(n);
    SignedExponent(sign, Print(Digits(n)));
  }
}
