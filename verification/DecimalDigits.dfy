/** Decimal digits and the natural numbers they denote. */
module DecimalDigits {
  type Digit = d: int | 0 <= d < 10

  function NatOf(ds: seq<Digit>): nat {
    if ds == [] then 0 else NatOf(ds[..|ds| - 1]) * 10 + ds[|ds| - 1]
  }

  /** The digits `str` prints for a non-negative integer. */
  function Digits(n: nat): (r: seq<Digit>)
    ensures r != []
    ensures n > 0 ==> r[0] != 0
  {
    if n < 10 then [n] else Digits(n / 10) + [n % 10]
  }

  lemma {:induction false} NatOfDigits(n: nat)
    ensures NatOf(Digits(n)) == n
  {
    if n < 10 {
      assert NatOf([n]) == NatOf([n][..0]) * 10 + n;
    } else {
      NatOfDigits(n / 10);
      var r := Digits(n / 10) + [n % 10];
      assert r[..|r| - 1] == Digits(n / 10);
    }
  }

  lemma {:induction false} NatOfPositive(ds: seq<Digit>)
    requires ds != [] && ds[0] != 0
    ensures NatOf(ds) > 0
  {
    if |ds| > 1 { NatOfPositive(ds[..|ds| - 1]); }
  }

  lemma {:induction false} DigitsOfNat(ds: seq<Digit>)
    requires ds != [] && (ds[0] != 0 || |ds| == 1)
    ensures Digits(NatOf(ds)) == ds
  {
    if |ds| == 1 {
      assert NatOf(ds) == NatOf(ds[..0]) * 10 + ds[0] == ds[0];
    } else {
      var front, last := ds[..|ds| - 1], ds[|ds| - 1];
      DigitsOfNat(front);
      NatOfPositive(front);
      assert NatOf(ds) / 10 == NatOf(front) && NatOf(ds) % 10 == last;
      assert ds == front + [last];
    }
  }

  lemma DigitsInjective(m: nat, n: nat)
    requires Digits(m) == Digits(n)
    ensures m == n
  {
    NatOfDigits(m);
    NatOfDigits(n);
  }
}
