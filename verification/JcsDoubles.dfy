/** Doubles and their shortest digits: which integers print like the float nearest to them. */
module JcsDoubles {
  import opened DecimalDigits
  import opened Decimals
  import opened JcsNumbers

  const SAFE_LIMIT: int := 0x20_0000_0000_0000

  function Pow2(e: int): real
    decreases if e >= 0 then e else -e
  {
    if e == 0 then 1.0 else if e > 0 then 2.0 * Pow2(e - 1) else Pow2(e + 1) / 2.0
  }

  predicate IsScaled(x: real, m: int, e: int) {
    -SAFE_LIMIT < m < SAFE_LIMIT && e >= -1074 && x == m as real * Pow2(e)
  }

  /** The values of binary64 in IEEE 754, section 3.4, but for the upper limit of their exponent. */
  ghost predicate IsDouble(x: real) { exists m, e :: IsScaled(x, m, e) }

  function Distance(x: real, y: real): real { if x < y then y - x else x - y }

  ghost predicate IsNearest(x: real, r: real) {
    IsDouble(r) && forall y :: IsDouble(y) ==> Distance(x, r) <= Distance(x, y)
  }

  /** `round` takes every number to a nearest double, ties in any way. */
  ghost predicate Rounds(round: real -> real) { forall x :: IsNearest(x, round(x)) }

  /** What `repr` prints: as few digits as possible that round to the double, and of these the closest to it. */
  ghost predicate IsShortest(round: real -> real, d: Shortest, x: real) {
    && round(d.Value()) == x
    && forall e: Shortest :: round(e.Value()) == x ==> NoWorse(d, e, x)
  }

  predicate NoWorse(d: Shortest, e: Shortest, x: real) {
    |d.digits| < |e.digits| || (|d.digits| == |e.digits| && Distance(d.Value(), x) <= Distance(e.Value(), x))
  }

  // ---- there is such a rounding ----

  lemma {:induction false} Pow2Positive(e: int)
    ensures Pow2(e) > 0.0 && Pow2(e + 1) == 2.0 * Pow2(e)
    decreases if e >= 0 then e else -e
  {
    if e > 0 { Pow2Positive(e - 1); } else if e < 0 { Pow2Positive(e + 1); }
  }

  lemma {:induction false} Pow2Multiple(e: int, f: int) returns (n: nat)
    requires e <= f
    ensures Pow2(f) == n as real * Pow2(e)
    decreases f - e
  {
    if e == f {
      n := 1;
    } else {
      var h := Pow2Multiple(e, f - 1);
      Pow2Positive(f - 1);
      n := 2 * h;
    }
  }

  function GridPoint(k: int, u: real): real { k as real * u }

  lemma OnGrid(x: real) returns (k: int)
    requires IsDouble(x)
    ensures x == GridPoint(k, Pow2(-1074))
  {
    var m: int, e: int :| IsScaled(x, m, e);
    var n := Pow2Multiple(-1074, e);
    k := m * n;
    Regrouped(m, n, Pow2(-1074));
  }

  lemma Regrouped(m: int, n: nat, u: real)
    ensures m as real * (n as real * u) == (m * n) as real * u
  {
    assert (m * n) as real == m as real * n as real;
  }

  /** The closest to `x` of zero and the doubles on a stretch of the grid. */
  lemma {:induction false} ClosestOn(x: real, u: real, lo: int, hi: int) returns (r: real)
    requires lo <= hi
    ensures IsDouble(r) && Distance(x, r) <= Distance(x, 0.0)
    ensures forall k :: lo <= k < hi && IsDouble(GridPoint(k, u)) ==> Distance(x, r) <= Distance(x, GridPoint(k, u))
    decreases hi - lo
  {
    SafeIsDouble(0);
    r := 0.0;
    if lo < hi {
      r := ClosestOn(x, u, lo, hi - 1);
      var last := GridPoint(hi - 1, u);
      if IsDouble(last) && Distance(x, last) < Distance(x, r) { r := last; }
    }
  }

  lemma FarFromZero(x: real, u: real, b: int, k: int)
    requires u > 0.0 && GridPoint(b, u) >= 2.0 * Distance(x, 0.0) && (k >= b || k <= -b)
    ensures Distance(x, GridPoint(k, u)) >= Distance(x, 0.0)
  {
    if k >= b { assert k as real * u >= b as real * u; } else { assert (-k) as real * u >= b as real * u; }
  }

  lemma WithinGrid(x: real, u: real) returns (b: int)
    requires u > 0.0
    ensures b > 0 && GridPoint(b, u) >= 2.0 * Distance(x, 0.0)
  {
    var q := 2.0 * Distance(x, 0.0) / u;
    b := q.Floor + 1;
    assert b as real >= q;
    assert b as real * u >= q * u;
  }

  lemma NearestExists(x: real)
    ensures exists r :: IsNearest(x, r)
  {
    var u := Pow2(-1074);
    Pow2Positive(-1074);
    var b := WithinGrid(x, u);
    var r := ClosestOn(x, u, -b, b);
    forall y | IsDouble(y) ensures Distance(x, r) <= Distance(x, y) {
      var k := OnGrid(y);
      if k >= b || k <= -b { FarFromZero(x, u, b, k); }
    }
    assert IsNearest(x, r);
  }

  ghost function Nearest(x: real): (r: real)
    ensures IsNearest(x, r)
  {
    NearestExists(x);
    var r :| IsNearest(x, r);
    r
  }

  lemma RoundingExists()
    ensures Rounds(x => Nearest(x))
  {
  }

  // ---- integers up to 2^53 ----

  lemma SafeIsDouble(i: int)
    requires -SAFE_LIMIT <= i <= SAFE_LIMIT || i == SAFE_LIMIT + 2 || i == -SAFE_LIMIT - 2
    ensures IsDouble(i as real)
  {
    assert Pow2(0) == 1.0 && Pow2(1) == 2.0 * Pow2(0);
    if -SAFE_LIMIT < i < SAFE_LIMIT {
      assert IsScaled(i as real, i, 0);
    } else {
      assert IsScaled(i as real, i / 2, 1);
    }
  }

  /** The rounding of a number is no farther from it than a safe integer is. */
  lemma NoneCloser(round: real -> real, x: real, y: int)
    requires -SAFE_LIMIT <= y <= SAFE_LIMIT || y == SAFE_LIMIT + 2 || y == -SAFE_LIMIT - 2
    requires Rounds(round)
    ensures Distance(x, round(x)) <= Distance(x, y as real)
  {
    SafeIsDouble(y);
    assert IsNearest(x, round(x));
  }

  lemma SafeRounds(round: real -> real, i: int)
    requires Rounds(round) && -SAFE_LIMIT <= i <= SAFE_LIMIT
    ensures round(i as real) == i as real
  {
    NoneCloser(round, i as real, i);
  }

  lemma {:induction false} NatOfBelow(ds: seq<Digit>)
    ensures NatOf(ds) < Tens(|ds|)
  {
    if ds != [] { NatOfBelow(ds[..|ds| - 1]); }
  }

  lemma {:induction false} TensPositive(k: nat)
    ensures Tens(k) >= 1
  {
    if k > 0 { TensPositive(k - 1); }
  }

  lemma {:induction false} TensGrow(j: nat, k: nat)
    requires j <= k
    ensures Tens(j) <= Tens(k)
    decreases k - j
  {
    if j < k {
      TensGrow(j, k - 1);
      TensPositive(k - 1);
    }
  }

  /** A number with `k` digits is at least 10^(k-1). */
  lemma {:induction false} DigitsAtLeast(n: nat)
    ensures n > 0 ==> n >= Tens(|Digits(n)| - 1)
  {
    if n >= 10 {
      DigitsAtLeast(n / 10);
      assert Digits(n) == Digits(n / 10) + [n % 10];
      assert Tens(|Digits(n)| - 1) == 10 * Tens(|Digits(n / 10)| - 1);
    }
  }

  lemma StrippedLength(ds: seq<Digit>)
    requires ds != []
    ensures |StripTrailing(ds)| <= |ds|
    ensures ds[|ds| - 1] != 0 ==> StripTrailing(ds) == ds
  {
  }

  lemma DecimalLength(i: int)
    ensures i != 0 ==> 0 < |DecimalOf(i).digits| <= |Digits(Magnitude(i))|
    ensures Digits(Magnitude(i))[|Digits(Magnitude(i))| - 1] != 0 ==> |DecimalOf(i).digits| == |Digits(Magnitude(i))|
  {
    DecimalOfDigits(i);
    StrippedLength(Digits(Magnitude(i)));
  }

  lemma ShortestAtLeast(i: int)
    requires i != 0
    ensures DecimalOf(i).digits != [] && Magnitude(i) >= Tens(|DecimalOf(i).digits| - 1)
  {
    DecimalLength(i);
    DigitsAtLeast(Magnitude(i));
    TensGrow(|DecimalOf(i).digits| - 1, |Digits(Magnitude(i))| - 1);
  }

  lemma {:induction false} ShiftDown(x: real, e: int)
    requires x >= 0.0 && e < 0
    ensures 0.0 <= Shifted(x, e) <= x / 10.0
    decreases -e
  {
    if e < -1 {
      ShiftDown(x / 10.0, e + 1);
    } else {
      assert Shifted(x / 10.0, 0) == x / 10.0;
    }
  }

  lemma {:induction false} ShiftUp(n: nat, e: nat) returns (r: nat)
    ensures Shifted(n as real, e) == r as real
    decreases e
  {
    if e == 0 { r := n; } else { r := ShiftUp(10 * n, e - 1); }
  }

  /** A decimal with a fraction and `k` digits is at most 10^(k-1). */
  lemma FractionIsSmall(e: Shortest) returns (bound: nat)
    requires e.exponent < 0
    ensures -(bound as real) <= e.Value() <= bound as real
    ensures e.digits != [] && bound == Tens(|e.digits| - 1)
  {
    NatOfBelow(e.digits);
    ShiftDown(NatOf(e.digits) as real, e.exponent);
    bound := Tens(|e.digits| - 1);
  }

  lemma BoundedRounds(round: real -> real, v: real, bound: nat, i: int)
    requires Rounds(round) && bound <= SAFE_LIMIT && -(bound as real) <= v <= bound as real && round(v) == i as real
    ensures Magnitude(i) <= bound
  {
    var low: int := 0 - bound;
    NoneCloser(round, v, bound);
    NoneCloser(round, v, low);
  }

  /** So it rounds to no integer that has more digits. */
  lemma FractionIsLonger(round: real -> real, e: Shortest, i: int)
    requires Rounds(round) && -SAFE_LIMIT <= i <= SAFE_LIMIT && i != 0
    requires e.exponent < 0 && round(e.Value()) == i as real
    ensures |e.digits| >= |DecimalOf(i).digits|
  {
    var bound := FractionIsSmall(e);
    ShortestAtLeast(i);
    var k, m := |e.digits|, |DecimalOf(i).digits|;
    if k < m {
      TensStrict(k - 1, m - 1);
      BoundedRounds(round, e.Value(), bound, i);
    }
  }

  lemma TensStrict(j: nat, k: nat)
    requires j < k
    ensures Tens(j) < Tens(k)
  {
    TensPositive(j);
    TensGrow(j + 1, k);
  }

  lemma TensOf16()
    ensures Tens(15) == 1_000_000_000_000_000 && Tens(16) == 10_000_000_000_000_000
  {
    assert Tens(4) == 10_000 && Tens(8) == 100_000_000 && Tens(12) == 1_000_000_000_000;
  }

  lemma {:induction false} LastDigit(n: nat)
    ensures Digits(n)[|Digits(n)| - 1] == n % 10
  {
  }

  lemma DigitCount(n: nat, k: nat)
    requires k >= 1 && Tens(k - 1) <= n < Tens(k)
    ensures |Digits(n)| == k
  {
    DigitsLength(n, k);
    NatOfDigits(n);
    NatOfBelow(Digits(n));
    if |Digits(n)| < k { TensGrow(|Digits(n)|, k - 1); }
  }

  lemma SafeLimitDigits(i: int)
    requires Magnitude(i) == SAFE_LIMIT || Magnitude(i) == SAFE_LIMIT + 1
    ensures |DecimalOf(i).digits| == 16
  {
    TensOf16();
    DigitCount(Magnitude(i), 16);
    LastDigit(Magnitude(i));
    DecimalLength(i);
  }

  lemma WholeValue(e: Shortest) returns (n: int)
    requires e.exponent >= 0
    ensures e.Value() == n as real && e == DecimalOf(n)
  {
    var r: int := ShiftUp(NatOf(e.digits), e.exponent);
    n := if e.negative then -r else r;
    DecimalOfValue(n);
    DecimalValueInjective(e, DecimalOf(n));
  }

  /** A whole number rounds to a safe integer only if it is that integer, or next to the limit. */
  lemma RoundsToSafe(round: real -> real, n: int, i: int)
    requires Rounds(round) && -SAFE_LIMIT <= i <= SAFE_LIMIT && round(n as real) == i as real
    ensures n == i || (i == SAFE_LIMIT && n == i + 1) || (i == -SAFE_LIMIT && n == i - 1)
  {
    if -SAFE_LIMIT <= n <= SAFE_LIMIT {
      SafeRounds(round, n);
    } else if n > SAFE_LIMIT {
      NoneCloser(round, n as real, SAFE_LIMIT);
      NoneCloser(round, n as real, SAFE_LIMIT + 2);
    } else {
      NoneCloser(round, n as real, -SAFE_LIMIT);
      NoneCloser(round, n as real, -SAFE_LIMIT - 2);
    }
  }

  lemma WholeIsLonger(round: real -> real, e: Shortest, i: int)
    requires Rounds(round) && -SAFE_LIMIT <= i <= SAFE_LIMIT
    requires e.exponent >= 0 && round(e.Value()) == i as real
    ensures |e.digits| >= |DecimalOf(i).digits|
  {
    var n := WholeValue(e);
    RoundsToSafe(round, n, i);
    if n != i {
      SafeLimitDigits(i);
      SafeLimitDigits(n);
    }
  }

  /** Up to 2^53 the shortest digits of an integer's float are the integer's own. */
  lemma ShortestOfSafe(round: real -> real, i: int, d: Shortest)
    requires Rounds(round) && -SAFE_LIMIT <= i <= SAFE_LIMIT
    ensures round(i as real) == i as real
    ensures IsShortest(round, d, i as real) <==> d == DecimalOf(i)
  {
    var own := DecimalOf(i);
    SafeRounds(round, i);
    DecimalOfValue(i);
    forall e: Shortest | round(e.Value()) == i as real ensures NoWorse(own, e, i as real) {
      if i != 0 {
        if e.exponent < 0 { FractionIsLonger(round, e, i); } else { WholeIsLonger(round, e, i); }
      } else if e.digits == [] {
        assert e == own;
      }
    }
    assert IsShortest(round, own, i as real);
    if IsShortest(round, d, i as real) {
      assert NoWorse(d, own, i as real) && NoWorse(own, d, i as real);
      DecimalValueInjective(d, own);
    }
  }

  lemma EqualTexts(a: Shortest, b: Shortest)
    ensures EcmaText(a) == EcmaText(b) <==> a == b
  {
    EcmaTextReads(a);
    EcmaTextReads(b);
  }

  /**
   * An integer that prints at all prints like the float nearest to it exactly when its digits are the shortest
   * digits of that float, as they are up to 2^53.
   */
  lemma IntegersPrintAsDoubles(round: real -> real, i: int, d: Shortest)
    requires Rounds(round) && -INTEGER_LIMIT < i < INTEGER_LIMIT && IsShortest(round, d, round(i as real))
    ensures NumberText(Whole(i)) == NumberText(Double(d)) <==> d == DecimalOf(i)
    ensures -SAFE_LIMIT <= i <= SAFE_LIMIT ==> NumberText(Whole(i)) == NumberText(Double(d))
  {
    IntegerText(i);
    EqualTexts(d, DecimalOf(i));
    if -SAFE_LIMIT <= i <= SAFE_LIMIT { ShortestOfSafe(round, i, d); }
  }

  // ---- an integer that prints otherwise ----

  const TWO_TO_60: int := 0x1000_0000_0000_0000
  const SIXTEEN_DIGITS: int := 1_152_921_504_606_847

  lemma {:induction false} Pow2Monotone(e: int, f: int)
    requires e <= f
    ensures Pow2(e) <= Pow2(f)
    decreases f - e
  {
    if e < f {
      Pow2Monotone(e, f - 1);
      Pow2Positive(f - 1);
    }
  }

  lemma {:induction false} Pow2Whole(e: nat) returns (n: nat)
    ensures Pow2(e) == n as real
  {
    if e == 0 { n := 1; } else { var h := Pow2Whole(e - 1); n := 2 * h; }
  }

  lemma Pow2Four(e: int)
    requires e >= 4
    ensures Pow2(e) == 16.0 * Pow2(e - 4)
  {
    assert Pow2(e) == 2.0 * Pow2(e - 1) && Pow2(e - 1) == 2.0 * Pow2(e - 2);
    assert Pow2(e - 2) == 2.0 * Pow2(e - 3) && Pow2(e - 3) == 2.0 * Pow2(e - 4);
  }

  lemma TimesBelow(m: int, x: real, y: real)
    requires 0 <= m < SAFE_LIMIT && 0.0 < x <= y
    ensures m as real * x < SAFE_LIMIT as real * y
  {
    assert m as real * x <= m as real * y;
  }

  /** Doubles from 2^60 on are multiples of 256. */
  lemma BigDoubles(x: real) returns (z: int)
    requires IsDouble(x) && x >= TWO_TO_60 as real
    ensures x == (256 * z) as real
  {
    var m: int, e: int :| IsScaled(x, m, e);
    Pow2Positive(e);
    if e <= 7 {
      Pow2Monotone(e, 7);
      Pow2Seven();
      if m >= 0 { TimesBelow(m, Pow2(e), 128.0); } else { TimesNegative(m, Pow2(e)); }
    }
    Pow2Four(e);
    Pow2Four(e - 4);
    var n := Pow2Whole(e - 8);
    z := m * n;
    TimesWhole(m, n);
  }

  lemma Pow2Seven()
    ensures Pow2(7) == 128.0
  {
    Pow2Four(7);
    assert Pow2(3) == 8.0;
  }

  lemma TimesNegative(m: int, x: real)
    requires m < 0 && x > 0.0
    ensures m as real * x < 0.0
  {
  }

  lemma TimesWhole(m: int, n: nat)
    ensures m as real * (256.0 * n as real) == (256 * (m * n)) as real
  {
  }

  /** Integers just above 2^60 round to it. */
  lemma RoundsTo60(round: real -> real, i: int)
    requires Rounds(round) && TWO_TO_60 <= i < TWO_TO_60 + 128
    ensures round(i as real) == TWO_TO_60 as real
  {
    Pow2Four(8);
    Pow2Four(4);
    assert IsScaled(TWO_TO_60 as real, TWO_TO_60 / 256, 8);
    assert IsDouble(TWO_TO_60 as real) && IsNearest(i as real, round(i as real));
    if round(i as real) >= TWO_TO_60 as real {
      var z := BigDoubles(round(i as real));
    }
  }

  lemma {:induction false} ShiftThree(n: nat)
    ensures Shifted(n as real, 3) == (1000 * n) as real
  {
    assert Shifted(1000.0 * n as real, 0) == 1000.0 * n as real;
    assert Shifted(100.0 * n as real, 1) == Shifted(1000.0 * n as real, 0);
    assert Shifted(10.0 * n as real, 2) == Shifted(100.0 * n as real, 1);
  }

  /** Sixteen digits are enough for the double 2^60. */
  lemma SixteenRound(round: real -> real) returns (e: Shortest)
    requires Rounds(round)
    ensures |e.digits| <= 16 && round(e.Value()) == TWO_TO_60 as real
  {
    var digits := Digits(SIXTEEN_DIGITS);
    LastDigit(SIXTEEN_DIGITS);
    e := Decimal(false, digits, 3);
    NatOfDigits(SIXTEEN_DIGITS);
    ShiftThree(SIXTEEN_DIGITS);
    RoundsTo60(round, 1000 * SIXTEEN_DIGITS);
    TensOf16();
    DigitsLength(SIXTEEN_DIGITS, 16);
  }

  lemma MoreDigits(i: nat, k: nat)
    requires i >= Tens(k) && i % 10 != 0
    ensures |DecimalOf(i).digits| > k
  {
    LastDigit(i);
    DecimalLength(i);
    NatOfDigits(i);
    NatOfBelow(Digits(i));
    if |Digits(i)| <= k { TensGrow(|Digits(i)|, k); }
  }

  /** The integer 2^60 is a double, yet it prints in full while the float prints at most sixteen digits and zeros. */
  lemma BigIntegerPrintsOtherwise(round: real -> real, d: Shortest)
    requires Rounds(round) && IsShortest(round, d, round(TWO_TO_60 as real))
    ensures round(TWO_TO_60 as real) == TWO_TO_60 as real && |d.digits| <= 16
    ensures NumberText(Whole(TWO_TO_60)) != NumberText(Double(d))
  {
    RoundsTo60(round, TWO_TO_60);
    var e := SixteenRound(round);
    assert NoWorse(d, e, TWO_TO_60 as real);
    TensOf16();
    MoreDigits(TWO_TO_60, 16);
    IntegersPrintAsDoubles(round, TWO_TO_60, d);
  }
}
