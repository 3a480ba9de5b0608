/** What a canonical text looks like: member order, string escapes, number layouts, punctuation. */
module JcsForm {
  import opened Wrappers
  import opened Sequences
  import opened Ordering
  import opened DecimalDigits
  import opened Decimals
  import opened JcsNumbers
  import opened JcsText
  import opened Jcs
  import opened JcsMeaning

  // ---- the order of members ----

  /** In every dictionary each name's UTF-16 code units precede those of the names after it. */
  ghost predicate NamesAscend(v: Json)
    decreases v
  {
    match v
    case Arr(items) => forall x :: x in items ==> NamesAscend(x)
    case Obj(members) =>
      && (forall i, j :: 0 <= i < j < |members| ==> Precedes(Utf16(members[i].key), Utf16(members[j].key)))
      && forall m :: m in members ==> NamesAscend(m.value)
    case _ => true
  }

  lemma SortedAscends(members: seq<Entry<Json>>)
    ensures forall i, j :: 0 <= i < j < |members| ==>
              Precedes(Utf16(Sort(KeyLe<Json>, members)[i].key), Utf16(Sort(KeyLe<Json>, members)[j].key))
  {
    var sorted := Sort(KeyLe<Json>, members);
    KeyOrder<Json>();
    SortSorted(KeyLe<Json>, members);
    forall i, j | 0 <= i < j < |sorted| ensures Precedes(Utf16(sorted[i].key), Utf16(sorted[j].key)) {
      KeyLeByUnits(sorted[i], sorted[j]);
    }
  }

  lemma {:induction false} InOrderAscends(v: Json)
    ensures NamesAscend(InOrder(KeyLe<Json>, v))
    decreases v
  {
    match v
    case Arr(items) =>
      var ordered := InOrderItems(KeyLe<Json>, items);
      forall i | 0 <= i < |items| ensures NamesAscend(ordered[i]) {
        InOrderItemsAt(KeyLe<Json>, items, i);
        InOrderAscends(items[i]);
      }
    case Obj(members) =>
      var values := InOrderValues(KeyLe<Json>, members);
      forall i | 0 <= i < |members| ensures NamesAscend(values[i].value) {
        InOrderValuesAt(KeyLe<Json>, members, i);
        InOrderAscends(members[i].value);
      }
      SameElements(values, Sort(KeyLe<Json>, values));
      SortedAscends(values);
    case _ =>
  }

  lemma {:induction false} FloatsAscend(v: Json)
    requires NamesAscend(v)
    ensures NamesAscend(Floats(v))
    decreases v
  {
    match v
    case Arr(items) =>
      forall i | 0 <= i < |items| ensures NamesAscend(FloatItems(items)[i]) {
        FloatItemsAt(items, i);
        FloatsAscend(items[i]);
      }
    case Obj(members) =>
      forall i | 0 <= i < |members| ensures NamesAscend(FloatMembers(members)[i].value) {
        FloatMembersAt(members, i);
        assert members[i] in members;
        FloatsAscend(members[i].value);
      }
    case _ =>
  }

  /** Read back, the canonical text of any value has its names in ascending order, at every depth. */
  lemma CanonicalNamesAscend(v: Json)
    requires WellFormed(v) && Canonicalize(v).Ok?
    ensures var read := Loads(Canonicalize(v).value); read.Some? && NamesAscend(read.value)
  {
    CanonicalTextLoads(v);
    InOrderAscends(v);
    FloatsAscend(InOrder(KeyLe<Json>, v));
  }

  // ---- what can be written ----

  /** Integers below 10^21 in magnitude, finite floats, and at every depth nothing that is no JSON value. */
  ghost predicate IsWritable(v: Json)
    decreases v
  {
    match v
    case Num(Whole(i)) => -1_000_000_000_000_000_000_000 < i < 1_000_000_000_000_000_000_000
    case Num(Double(_)) => true
    case Num(NonFinite) => false
    case Arr(items) => forall x :: x in items ==> IsWritable(x)
    case Obj(members) => forall m :: m in members ==> IsWritable(m.value)
    case Foreign => false
    case _ => true
  }

  /** Exactly these values have a canonical text. */
  lemma {:induction false} CanonicalizesIff(v: Json)
    ensures Canonicalize(v).Ok? <==> IsWritable(v)
    decreases v
  {
    match v
    case Arr(items) =>
      forall x | x in items ensures Serializable(x) <==> IsWritable(x) { CanonicalizesIff(x); }
    case Obj(members) =>
      forall m | m in members ensures Serializable(m.value) <==> IsWritable(m.value) { CanonicalizesIff(m.value); }
    case _ =>
  }

  // ---- strings ----

  /**
   * Quote, backslash and control characters are escaped, by their short form if they have one; no other character
   * is.
   */
  lemma EscapedForms(c: CodePoint)
    ensures c >= 32 && c != 34 && c != 92 ==> EscapeChar(c) == [c]
    ensures EscapeChar(34) == Ascii("\\\"") && EscapeChar(92) == Ascii("\\\\")
    ensures EscapeChar(8) == Ascii("\\b") && EscapeChar(9) == Ascii("\\t") && EscapeChar(10) == Ascii("\\n")
    ensures EscapeChar(12) == Ascii("\\f") && EscapeChar(13) == Ascii("\\r")
    ensures EscapeChar(0) == Ascii("\\u0000") && EscapeChar(31) == Ascii("\\u001f")
    ensures c < 32 && c !in {8, 9, 10, 12, 13} ==> |EscapeChar(c)| == 6 && EscapeChar(c)[..4] == Ascii("\\u00")
  {
  }

  lemma {:induction false} PlainEscape(s: Text)
    requires forall i :: 0 <= i < |s| ==> s[i] >= 32 && s[i] != 34 && s[i] != 92
    ensures Escape(s) == s
  {
    if s != [] {
      PlainEscape(s[1..]);
      assert s == [s[0]] + s[1..];
    }
  }

  /** A text without such characters stands between quotes as it is. */
  lemma PlainString(s: Text)
    requires forall i :: 0 <= i < |s| ==> s[i] >= 32 && s[i] != 34 && s[i] != 92
    ensures SerializeString(s) == [34] + s + [34]
  {
    PlainEscape(s);
  }

  // ---- punctuation ----

  lemma Words()
    ensures Written(Null) == Ascii("null") && Written(Bool(true)) == Ascii("true") && Written(Bool(false)) == Ascii("false")
    ensures Written(Arr([])) == Ascii("[]") && Written(Obj([])) == Ascii("{}")
  {
  }

  /** The items between brackets, separated by commas. */
  lemma ArrayText(x: Json, rest: seq<Json>)
    ensures Written(Arr([x])) == [91] + Written(x) + [93]
    ensures rest != [] ==> Written(Arr([x] + rest)) == [91] + Written(x) + [44] + Written(Arr(rest))[1..]
  {
    assert ([x] + rest)[1..] == rest && [x][1..] == [];
    JoinedHead(Written(x), WrittenItems(rest));
  }

  lemma JoinedHead(text: Text, rest: seq<Text>)
    ensures Joined([text]) == text
    ensures rest != [] ==> Joined([text] + rest) == text + [44] + Joined(rest)
  {
    assert ([text] + rest)[1..] == rest;
  }

  /** The members between braces, separated by commas, each a quoted name, a colon and a value. */
  lemma ObjectText(m: Entry<Json>, rest: seq<Entry<Json>>)
    ensures WrittenMember(m) == SerializeString(m.key) + [58] + Written(m.value)
    ensures Written(Obj([m])) == [123] + WrittenMember(m) + [125]
    ensures rest != [] ==> Written(Obj([m] + rest)) == [123] + WrittenMember(m) + [44] + Written(Obj(rest))[1..]
  {
    assert ([m] + rest)[1..] == rest && [m][1..] == [];
    JoinedHead(WrittenMember(m), WrittenMembers(rest));
  }

  // ---- the layout of numbers ----

  lemma {:induction false} ShiftMonotone(x: real, y: real, e: int)
    requires x < y
    ensures Shifted(x, e) < Shifted(y, e)
    decreases if e >= 0 then e else -e
  {
    if e > 0 { ShiftMonotone(10.0 * x, 10.0 * y, e - 1); } else if e < 0 { ShiftMonotone(x / 10.0, y / 10.0, e + 1); }
  }

  lemma {:induction false} PowerOfTen(k: nat, e: int)
    ensures Shifted(Tens(k) as real, e) == Shifted(1.0, e + k)
  {
    if k > 0 {
      PowerOfTen(k - 1, e + 1);
      ShiftOne(Tens(k - 1) as real, e);
    }
  }

  lemma {:induction false} PowersGrow(e: int, f: int)
    requires e <= f
    ensures Shifted(1.0, e) <= Shifted(1.0, f) && (e < f ==> Shifted(1.0, e) < Shifted(1.0, f))
    decreases f - e
  {
    if e < f {
      PowersGrow(e, f - 1);
      ShiftMonotone(1.0, 10.0, f - 1);
      ShiftOne(1.0, f - 1);
    }
  }

  lemma {:induction false} LeadingDigit(ds: seq<Digit>)
    requires ds != [] && ds[0] != 0
    ensures Tens(|ds| - 1) <= NatOf(ds) < Tens(|ds|)
  {
    if |ds| == 1 {
      assert NatOf(ds) == NatOf(ds[..0]) * 10 + ds[0];
      assert Tens(1) == 10 * Tens(0);
    } else {
      LeadingDigit(ds[..|ds| - 1]);
    }
  }

  /** digits * 10^exponent lies between the powers of ten next to it. */
  lemma ValueBounds(digits: seq<Digit>, exponent: int)
    requires digits != [] && digits[0] != 0
    ensures Shifted(1.0, exponent + |digits| - 1) <= ValueOf(digits, exponent) < Shifted(1.0, exponent + |digits|)
  {
    var k := |digits|;
    LeadingDigit(digits);
    PowerOfTen(k, exponent);
    PowerOfTen(k - 1, exponent);
    ShiftMonotone(NatOf(digits) as real, Tens(k) as real, exponent);
    if Tens(k - 1) < NatOf(digits) { ShiftMonotone(Tens(k - 1) as real, NatOf(digits) as real, exponent); }
  }

  lemma Thresholds()
    ensures Shifted(1.0, 21) == 1_000_000_000_000_000_000_000.0 && Shifted(1.0, -6) == 0.000001 && Shifted(1.0, 0) == 1.0
  {
    PowerOfTen(21, 0);
    TensOf21();
    assert Shifted(Tens(21) as real, 0) == Tens(21) as real;
    assert Shifted(0.000001, 0) == 0.000001 && Shifted(0.00001, -1) == Shifted(0.000001, 0);
    assert Shifted(0.0001, -2) == Shifted(0.00001, -1) && Shifted(0.001, -3) == Shifted(0.0001, -2);
    assert Shifted(0.01, -4) == Shifted(0.001, -3) && Shifted(0.1, -5) == Shifted(0.01, -4);
  }

  /** Where a number's value lies among the thresholds of the layouts. */
  lemma ValueAndPoint(digits: seq<Digit>, exponent: int)
    requires digits != [] && digits[0] != 0
    ensures ValueOf(digits, exponent) >= 1_000_000_000_000_000_000_000.0 <==> exponent + |digits| > 21
    ensures ValueOf(digits, exponent) < 0.000001 <==> exponent + |digits| <= -6
    ensures ValueOf(digits, exponent) < 1.0 <==> exponent + |digits| <= 0
  {
    var n := exponent + |digits|;
    Thresholds();
    ValueBounds(digits, exponent);
    if n > 21 { PowersGrow(21, n - 1); } else { PowersGrow(n, 21); }
    if n <= -6 { PowersGrow(n, -6); } else { PowersGrow(-6, n - 1); }
    if n <= 0 { PowersGrow(n, 0); } else { PowersGrow(0, n - 1); }
  }

  predicate IsWhole(x: real) { x.Floor as real == x }

  lemma {:induction false} WholeShift(x: real, e: int, i: int)
    requires e <= 0
    ensures Shifted(x, e) == i as real <==> x == (i * Tens(-e)) as real
    decreases -e
  {
    if e < 0 {
      WholeShift(x / 10.0, e + 1, i);
      assert Tens(-e) == 10 * Tens(-(e + 1));
      TenTimes(i, Tens(-(e + 1)));
    }
  }

  lemma TenTimes(i: int, t: nat)
    ensures (i * (10 * t)) as real == 10.0 * (i * t) as real
  {
  }

  /** Without a trailing zero among its digits a number is whole exactly when its exponent is not negative. */
  lemma WholeIff(digits: seq<Digit>, exponent: int)
    requires Bare(digits)
    ensures IsWhole(ValueOf(digits, exponent)) <==> exponent >= 0
  {
    if exponent >= 0 {
      var r := ShiftedUp(NatOf(digits), exponent);
    } else {
      var i := ValueOf(digits, exponent).Floor;
      WholeShift(NatOf(digits) as real, exponent, i);
      NotDivisible(digits, -exponent, i);
    }
  }

  lemma NotDivisible(digits: seq<Digit>, e: nat, i: int)
    requires Bare(digits) && e > 0
    ensures NatOf(digits) != i * Tens(e)
  {
    assert NatOf(digits) % 10 == digits[|digits| - 1];
    assert Tens(e) == 10 * Tens(e - 1);
    assert i * Tens(e) == 10 * (i * Tens(e - 1));
  }

  lemma {:induction false} ShiftedUp(n: nat, e: nat) returns (r: nat)
    ensures Shifted(n as real, e) == r as real
    decreases e
  {
    if e == 0 { r := n; } else { r := ShiftedUp(10 * n, e - 1); }
  }

  /** The text has no exponent, a point exactly if it has to, and no zero that it could do without. */
  ghost predicate IsPlain(t: Text, value: real) {
    && t != [] && LOWER_E !in t && (46 in t <==> !IsWhole(value)) && (46 in t ==> t[|t| - 1] != 48)
    && (t[0] == 48 <==> value < 1.0) && (t[0] == 48 ==> |t| > 1 && t[1] == 46)
  }

  /** One digit, the others after a point if there are others, and a signed exponent without leading zeros. */
  ghost predicate IsScientific(t: Text, digits: seq<Digit>, value: real) {
    digits != [] && exists e: nat ::
      t == Print(digits[..1]) + (if |digits| == 1 then [] else [46] + Print(digits[1..]))
           + [101, if value < 1.0 then 45 else 43] + Print(Digits(e))
  }

  lemma NoLetters(whole: seq<Digit>, fraction: seq<Digit>)
    requires whole != []
    ensures var t := MantissaText(whole, fraction);
      t != [] && t[0] == 48 + (whole[0] as int) && LOWER_E !in t && (46 in t <==> fraction != []) &&
      (fraction != [] ==> t[|whole|] == 46 && t[|t| - 1] == 48 + (fraction[|fraction| - 1] as int))
  {
    var t := MantissaText(whole, fraction);
    if fraction != [] { assert t[|whole|] == 46; }
  }

  /** A mantissa without exponent is plain when its parts are those of the value. */
  lemma PlainMantissa(whole: seq<Digit>, fraction: seq<Digit>, v: real)
    requires whole != [] && (fraction == [] <==> IsWhole(v)) && (whole[0] == 0 <==> v < 1.0)
    requires fraction != [] ==> fraction[|fraction| - 1] != 0
    requires v < 1.0 ==> |whole| == 1 && fraction != []
    ensures IsPlain(MantissaText(whole, fraction), v)
  {
    NoLetters(whole, fraction);
  }

  lemma PlainForm(digits: seq<Digit>, exponent: int)
    requires Bare(digits) && -6 < exponent + |digits| <= 21
    ensures IsPlain(Layout(digits, exponent), ValueOf(digits, exponent))
  {
    var v, n, k := ValueOf(digits, exponent), exponent + |digits|, |digits|;
    ValueAndPoint(digits, exponent);
    WholeIff(digits, exponent);
    var whole := if k <= n then digits + Zeros(n - k) else if n > 0 then digits[..n] else [0];
    var fraction := if k <= n then [] else if n > 0 then digits[n..] else Zeros(-n) + digits;
    assert Parts(digits, exponent) == (whole, fraction, None);
    assert fraction != [] ==> fraction[|fraction| - 1] == digits[k - 1];
    PlainMantissa(whole, fraction, v);
    assert MantissaText(whole, fraction) + [] == MantissaText(whole, fraction);
  }

  /** Numbers from 10^-6 up to 10^21 are written plainly, all others with an exponent. */
  lemma LayoutForm(digits: seq<Digit>, exponent: int)
    requires Bare(digits)
    ensures var v := ValueOf(digits, exponent);
      if 0.000001 <= v < 1_000_000_000_000_000_000_000.0 then IsPlain(Layout(digits, exponent), v)
      else IsScientific(Layout(digits, exponent), digits, v)
  {
    ValueAndPoint(digits, exponent);
    if -6 < exponent + |digits| <= 21 { PlainForm(digits, exponent); } else { ScientificForm(digits, exponent); }
  }

  lemma ScientificForm(digits: seq<Digit>, exponent: int)
    requires Bare(digits) && !(-6 < exponent + |digits| <= 21)
    ensures IsScientific(Layout(digits, exponent), digits, ValueOf(digits, exponent))
  {
    var n := exponent + |digits|;
    ValueAndPoint(digits, exponent);
    var e: nat := if n >= 1 then n - 1 else 1 - n;
    assert digits[..1] == (if |digits| == 1 then digits else digits[..1]);
    Grouped(Print(digits[..1]), if |digits| == 1 then [] else [46] + Print(digits[1..]),
            [101, if n <= 0 then 45 else 43], Print(Digits(e)));
    assert Layout(digits, exponent) ==
      Print(digits[..1]) + (if |digits| == 1 then [] else [46] + Print(digits[1..]))
      + [101, if n <= 0 then 45 else 43] + Print(Digits(e));
  }

  lemma Grouped(a: Text, b: Text, c: Text, d: Text)
    ensures (a + b) + (c + d) == a + b + c + d
  {
  }

  /** Zero is 0 and a negative number is its magnitude after a minus. */
  lemma SignedText(d: Shortest)
    ensures d.digits == [] ==> EcmaText(d) == Ascii("0")
    ensures d.digits != [] ==> EcmaText(d) == (if d.negative then Ascii("-") else []) + Layout(d.digits, d.exponent)
  {
  }
}
