/** Canonical JSON (RFC 8785): numbers, strings, member order, and the reader that inverts it. */
module JcsNumbers {
  import opened Wrappers
  import opened DecimalDigits
  import opened Decimals

  type Shortest = d: Decimal | d.Canonical() witness ZERO

  /** A Python number: an `int`, or a finite `float` by its shortest round-trip digits. */
  datatype Number = Whole(i: int) | Double(d: Shortest) | NonFinite

  const INTEGER_LIMIT: int := 1_000_000_000_000_000_000_000

  predicate Printable(n: Number) {
    match n
    case Whole(i) => -INTEGER_LIMIT < i < INTEGER_LIMIT
    case Double(_) => true
    case NonFinite => false
  }

  function Magnitude(i: int): nat { if i < 0 then -i else i }

  /**
   * The layouts of ECMAScript's Number::toString for digits * 10^exponent: an integer, a point
   * among the digits, a point before them, and the two forms with an exponent.
   */
  function Parts(digits: seq<Digit>, exponent: int): (l: (seq<Digit>, seq<Digit>, Option<int>))
    requires digits != []
    ensures l.0 != []
  {
    var k := |digits|;
    var n := exponent + k;
    if k <= n <= 21 then (digits + Zeros(n - k), [], None)
    else if 0 < n <= 21 then (digits[..n], digits[n..], None)
    else if -6 < n <= 0 then ([0], Zeros(-n) + digits, None)
    else if k == 1 then (digits, [], Some(n - 1))
    else (digits[..1], digits[1..], Some(n - 1))
  }

  function Layout(digits: seq<Digit>, exponent: int): Text
    requires digits != []
  {
    var (whole, fraction, e) := Parts(digits, exponent);
    MantissaText(whole, fraction) + match e case None => [] case Some(e) => ExponentText(e)
  }

  /** The literal one reads in a layout. */
  function LiteralOf(digits: seq<Digit>, exponent: int): Literal
    requires digits != []
  {
    var (whole, fraction, e) := Parts(digits, exponent);
    Literal(whole, fraction, match e case None => 0 case Some(e) => e)
  }

  function EcmaText(d: Shortest): Text {
    if d.digits == [] then [48] else Sign(d.negative) + Layout(d.digits, d.exponent)
  }

  function NumberText(n: Number): Text
    requires Printable(n)
  {
    match n
    case Whole(i) => Sign(i < 0) + Print(Digits(Magnitude(i)))
    case Double(d) => EcmaText(d)
  }

  predicate Bare(digits: seq<Digit>) {
    digits != [] && digits[0] != 0 && digits[|digits| - 1] != 0
  }

  lemma ShortestOf(l: Literal, before: nat, digits: seq<Digit>, after: nat, exponent: int)
    requires Bare(digits) && l.whole + l.fraction == Zeros(before) + (digits + Zeros(after))
    requires l.exponent - |l.fraction| + after == exponent
    ensures ShortestDigits(l) == (digits, exponent)
  {
    var all := l.whole + l.fraction;
    StripLeadingZeros(before, digits + Zeros(after));
    StripTrailingZeros(digits, after);
    assert StripLeading(all) == digits + Zeros(after) && StripTrailing(StripLeading(all)) == digits;
    assert |digits + Zeros(after)| == |digits| + after;
  }

  lemma LayoutReads(digits: seq<Digit>, exponent: int)
    requires digits != []
    ensures ReadLiteral(Layout(digits, exponent)) == Some(LiteralOf(digits, exponent))
  {
    var (whole, fraction, e) := Parts(digits, exponent);
    ReadLiteralText(whole, fraction, if e.None? then 0 else e.value);
    assert MantissaText(whole, fraction) + [] == MantissaText(whole, fraction);
  }

  /** A layout only puts zeros around the digits, and its exponent makes up for them. */
  lemma LiteralShape(digits: seq<Digit>, exponent: int) returns (before: nat, after: nat)
    requires digits != []
    ensures var l := LiteralOf(digits, exponent);
      && l.whole + l.fraction == Zeros(before) + (digits + Zeros(after))
      && l.exponent - |l.fraction| + after == exponent
  {
    var k := |digits|;
    var n := exponent + k;
    var l := LiteralOf(digits, exponent);
    before, after := 0, 0;
    if k <= n <= 21 {
      after := n - k;
    } else if -6 < n <= 0 {
      before := 1 - n;
    }
    assert l.whole + l.fraction == Zeros(before) + (digits + Zeros(after));
  }

  lemma LiteralOfShortest(digits: seq<Digit>, exponent: int)
    requires Bare(digits)
    ensures ShortestDigits(LiteralOf(digits, exponent)) == (digits, exponent)
  {
    var before, after := LiteralShape(digits, exponent);
    ShortestOf(LiteralOf(digits, exponent), before, digits, after, exponent);
  }

  lemma LayoutStartsWithDigit(digits: seq<Digit>, exponent: int)
    requires digits != []
    ensures Layout(digits, exponent) != [] && IsDigit(Layout(digits, exponent)[0])
  {
  }

  /** Every printed double reads back as the same decimal. */
  lemma EcmaTextReads(d: Shortest)
    ensures ReadDecimal(EcmaText(d)) == Some(d)
  {
    if d.digits == [] {
      var zero := Literal([0], [], 0);
      assert MantissaText([0], []) == [48] == Sign(false) + [48];
      ReadLiteralText([0], [], 0);
      ReadSigned(false, [48], zero);
      assert StripLeading(zero.whole + zero.fraction) == [];
    } else {
      LayoutReads(d.digits, d.exponent);
      LiteralOfShortest(d.digits, d.exponent);
      LayoutStartsWithDigit(d.digits, d.exponent);
      ReadSigned(d.negative, Layout(d.digits, d.exponent), LiteralOf(d.digits, d.exponent));
    }
  }

  /** All layouts denote digits * 10^exponent. */
  lemma LayoutsDenote(digits: seq<Digit>, exponent: int)
    requires Bare(digits)
    ensures var l := ReadLiteral(Layout(digits, exponent)); l.Some? && l.value.Value() == ValueOf(digits, exponent)
  {
    LayoutReads(digits, exponent);
    LiteralOfShortest(digits, exponent);
    ShortestDigitsValue(LiteralOf(digits, exponent));
  }

  /** The decimal a whole number is. */
  function DecimalOf(i: int): (d: Shortest) {
    var digits := Digits(Magnitude(i));
    var stripped := StripTrailing(digits);
    if stripped == [] then ZERO else Decimal(i < 0, stripped, |digits| - |stripped|)
  }

  lemma DecimalOfDigits(i: int)
    ensures var digits := Digits(Magnitude(i));
      i != 0 ==> digits == StripTrailing(digits) + Zeros(|digits| - |StripTrailing(digits)|) && StripTrailing(digits) != []
    ensures i == 0 ==> DecimalOf(i) == ZERO
  {
    var digits := Digits(Magnitude(i));
    assert StripTrailing(digits) == [] ==> digits[0] == Zeros(|digits|)[0];
  }

  lemma DecimalOfValue(i: int)
    ensures DecimalOf(i).Value() == i as real
  {
    var m := Magnitude(i);
    var digits := Digits(m);
    DecimalOfDigits(i);
    NatOfDigits(m);
    StripTrailingValue(digits, 0);
    assert ValueOf(digits, 0) == m as real;
    if i == 0 { ZeroValue(0); }
  }

  function Tens(k: nat): nat { if k == 0 then 1 else 10 * Tens(k - 1) }

  lemma {:induction false} DigitsLength(n: nat, k: nat)
    requires k >= 1 && n < Tens(k)
    ensures |Digits(n)| <= k
  {
    assert Tens(1) == 10 * Tens(0) == 10;
    if n >= 10 {
      DigitsLength(n / 10, k - 1);
    }
  }

  lemma TensOf21()
    ensures Tens(21) == INTEGER_LIMIT
  {
    assert Tens(4) == 10_000;
    assert Tens(8) == 100_000_000;
    assert Tens(12) == 1_000_000_000_000;
    assert Tens(16) == 10_000_000_000_000_000;
    assert Tens(20) == 100_000_000_000_000_000_000;
  }

  lemma DecimalParts(i: int) returns (digits: seq<Digit>, zeros: nat)
    requires i != 0
    ensures DecimalOf(i) == Decimal(i < 0, digits, zeros)
    ensures digits != [] && Digits(Magnitude(i)) == digits + Zeros(zeros)
  {
    DecimalOfDigits(i);
    digits, zeros := DecimalOf(i).digits, DecimalOf(i).exponent;
  }

  lemma PlainLayout(digits: seq<Digit>, zeros: nat)
    requires digits != [] && |digits| + zeros <= 21
    ensures Layout(digits, zeros) == Print(digits + Zeros(zeros))
  {
  }

  /** `str` of an integer that prints at all is the layout of its shortest digits. */
  lemma IntegerText(i: int)
    requires -INTEGER_LIMIT < i < INTEGER_LIMIT
    ensures NumberText(Whole(i)) == EcmaText(DecimalOf(i))
  {
    if i == 0 {
      DecimalOfDigits(0);
      assert Print(Digits(0)) == [48];
    } else {
      TensOf21();
      DigitsLength(Magnitude(i), 21);
      var digits, zeros := DecimalParts(i);
      PlainLayout(digits, zeros);
    }
  }

  /** A number as the decimal it prints: an integer exactly, a float by its shortest digits. */
  function NumberValue(n: Number): Shortest
    requires Printable(n)
  {
    match n
    case Whole(i) => DecimalOf(i)
    case Double(d) => d
  }

  /** A number's text reads back as its decimal, so equal texts are equal decimals and conversely. */
  lemma NumberTextReads(n: Number)
    requires Printable(n)
    ensures ReadDecimal(NumberText(n)) == Some(NumberValue(n))
    ensures NumberText(n) == EcmaText(NumberValue(n))
  {
    if n.Whole? { IntegerText(n.i); }
    EcmaTextReads(NumberValue(n));
  }

  lemma EcmaTextChars(d: Shortest)
    ensures var t := EcmaText(d);
      t != [] && (IsDigit(t[0]) || t[0] == MINUS) && forall i :: 0 <= i < |t| ==> IsNumberChar(t[i])
  {
    if d.digits != [] {
      LayoutStartsWithDigit(d.digits, d.exponent);
    }
  }
}
