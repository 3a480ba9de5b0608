/** Type-7 quantiles by linear interpolation between the sorted observations. */
module Quantiles {
  import opened Wrappers
  import opened Ordering

  datatype QuantileError = EmptySet | QuantileOutOfRange

  predicate RealLe(a: real, b: real) { a <= b }

  lemma RealOrder()
    ensures TotalPreorder(RealLe)
    ensures forall s: seq<real> :: AntisymmetricOn(RealLe, s)
  {
  }

  function Part(fraction: real, whole: real): real { fraction * whole }

  lemma NonNegative(x: real, y: real)
    requires x >= 0.0 && y >= 0.0
    ensures x * y >= 0.0
  {
  }

  lemma SteeperIsMore(f: real, g: real, d: real)
    requires f <= g && d >= 0.0
    ensures Part(f, d) <= Part(g, d) && Part(0.0, d) == 0.0 && Part(1.0, d) == d
  {
    NonNegative(g - f, d);
    assert (g - f) * d == g * d - f * d;
  }

  /** The value at a fractional rank of an ordered list. */
  function AtRank(ordered: seq<real>, rank: real): real
    requires 0.0 <= rank <= (|ordered| - 1) as real
  {
    var lower := rank.Floor;
    var upper := if lower + 1 < |ordered| - 1 then lower + 1 else |ordered| - 1;
    ordered[lower] + Part(rank - lower as real, ordered[upper] - ordered[lower])
  }

  function Rank(quantile: real, n: nat): real { Part(quantile, n as real - 1.0) }

  lemma RankInRange(quantile: real, n: nat)
    requires 0.0 < quantile < 1.0 && n >= 1
    ensures 0.0 <= Rank(quantile, n) <= (n - 1) as real
  {
    SteeperIsMore(0.0, quantile, n as real - 1.0);
    SteeperIsMore(quantile, 1.0, n as real - 1.0);
  }

  /** `percentile_linear` */
  function Percentile(values: seq<real>, quantile: real): (r: Result<real, QuantileError>)
    ensures r.Ok? <==> values != [] && 0.0 < quantile < 1.0
  {
    if values == [] then Err(EmptySet)
    else if !(0.0 < quantile < 1.0) then Err(QuantileOutOfRange)
    else
      var ordered := Sort(RealLe, values);
      if |ordered| == 1 then Ok(ordered[0])
      else
        RankInRange(quantile, |ordered|);
        Ok(AtRank(ordered, Rank(quantile, |ordered|)))
  }

  ghost predicate Ascending(s: seq<real>) { forall i, j :: 0 <= i <= j < |s| ==> s[i] <= s[j] }

  lemma Weighted(f: real, a: real, b: real)
    requires 0.0 <= f <= 1.0 && a <= b
    ensures a <= a + Part(f, b - a) <= b
  {
    SteeperIsMore(0.0, f, b - a);
    SteeperIsMore(f, 1.0, b - a);
  }

  /** Between the observation below the rank and the one above it. */
  lemma BetweenNeighbours(ordered: seq<real>, rank: real)
    requires Ascending(ordered) && 0.0 <= rank <= (|ordered| - 1) as real
    ensures ordered[rank.Floor] <= AtRank(ordered, rank)
    ensures rank.Floor + 1 < |ordered| ==> AtRank(ordered, rank) <= ordered[rank.Floor + 1]
    ensures rank.Floor + 1 == |ordered| ==> AtRank(ordered, rank) == ordered[rank.Floor]
  {
    var lower := rank.Floor;
    var upper := if lower + 1 < |ordered| - 1 then lower + 1 else |ordered| - 1;
    Weighted(rank - lower as real, ordered[lower], ordered[upper]);
    if lower + 1 == |ordered| {
      assert rank - lower as real == 0.0;
    }
  }

  lemma SameStretch(base: real, f: real, g: real, d: real)
    requires f <= g && d >= 0.0
    ensures base + Part(f, d) <= base + Part(g, d)
  {
    SteeperIsMore(f, g, d);
  }

  lemma AtRankMonotone(ordered: seq<real>, r: real, s: real)
    requires Ascending(ordered) && 0.0 <= r <= s <= (|ordered| - 1) as real
    ensures AtRank(ordered, r) <= AtRank(ordered, s)
  {
    if r.Floor == s.Floor {
      var lower := r.Floor;
      var upper := if lower + 1 < |ordered| - 1 then lower + 1 else |ordered| - 1;
      SameStretch(ordered[lower], r - lower as real, s - lower as real, ordered[upper] - ordered[lower]);
    } else {
      BetweenNeighbours(ordered, r);
      BetweenNeighbours(ordered, s);
      assert r.Floor + 1 <= s.Floor;
    }
  }

  lemma SortAscends(values: seq<real>)
    ensures Ascending(Sort(RealLe, values))
  {
    RealOrder();
    SortSorted(RealLe, values);
    var s := Sort(RealLe, values);
    forall i, j | 0 <= i <= j < |s| ensures s[i] <= s[j] {
      if i < j { assert RealLe(s[i], s[j]); }
    }
  }

  /** The quantile lies between the least and the greatest observation. */
  lemma QuantileWithinRange(values: seq<real>, quantile: real, least: real, greatest: real)
    requires values != [] && 0.0 < quantile < 1.0
    requires forall i :: 0 <= i < |values| ==> least <= values[i] <= greatest
    ensures least <= Percentile(values, quantile).value <= greatest
  {
    var s := Sort(RealLe, values);
    SortAscends(values);
    forall i | 0 <= i < |s| ensures least <= s[i] <= greatest {
      assert s[i] in multiset(values);
      var j :| 0 <= j < |values| && values[j] == s[i];
    }
    if |s| > 1 {
      RankInRange(quantile, |s|);
      BetweenNeighbours(s, Rank(quantile, |s|));
    }
  }

  /** The quantile does not depend on the order of the observations. */
  lemma QuantileIgnoresOrder(a: seq<real>, b: seq<real>, quantile: real)
    requires multiset(a) == multiset(b)
    ensures Percentile(a, quantile) == Percentile(b, quantile)
  {
    assert |a| == |multiset(a)| == |multiset(b)| == |b|;
    RealOrder();
    SortPermutation(RealLe, a, b);
  }

  /** The quantile grows with the fraction asked for; in particular P50 never exceeds P90. */
  lemma QuantileMonotone(values: seq<real>, p: real, q: real)
    requires values != [] && 0.0 < p <= q < 1.0
    ensures Percentile(values, p).value <= Percentile(values, q).value
  {
    var s := Sort(RealLe, values);
    SortAscends(values);
    if |s| > 1 {
      RankInRange(p, |s|);
      RankInRange(q, |s|);
      SteeperIsMore(p, q, |s| as real - 1.0);
      AtRankMonotone(s, Rank(p, |s|), Rank(q, |s|));
    }
  }

  /** At a whole rank the quantile is that observation. */
  lemma QuantileAtRank(values: seq<real>, quantile: real, i: nat)
    requires |values| > 1 && 0.0 < quantile < 1.0 && i < |values| && Rank(quantile, |values|) == i as real
    ensures Percentile(values, quantile).value == Sort(RealLe, values)[i]
  {
    RankInRange(quantile, |values|);
    AtWholeRank(Sort(RealLe, values), i);
  }

  lemma AtWholeRank(ordered: seq<real>, i: nat)
    requires i < |ordered|
    ensures AtRank(ordered, i as real) == ordered[i]
  {
    var gap := ordered[if i + 1 < |ordered| - 1 then i + 1 else |ordered| - 1] - ordered[i];
    assert Part(0.0, gap) == 0.0;
  }

  lemma AscendingIsSorted(values: seq<real>, ordered: seq<real>)
    requires multiset(ordered) == multiset(values) && forall i, j :: 0 <= i < j < |ordered| ==> ordered[i] <= ordered[j]
    ensures Sort(RealLe, values) == ordered
  {
    RealOrder();
    SortSorted(RealLe, values);
    SortedUnique(RealLe, Sort(RealLe, values), ordered);
  }

  lemma BetweenRanks(ordered: seq<real>, k: nat, rank: real)
    requires k + 1 < |ordered| && k as real <= rank <= k as real + 1.0
    ensures AtRank(ordered, rank) == ordered[k] + (rank - k as real) * (ordered[k + 1] - ordered[k])
  {
    if rank < k as real + 1.0 {
      assert rank.Floor == k;
    } else {
      AtWholeRank(ordered, k + 1);
    }
  }

  lemma PercentileOfSorted(values: seq<real>, ordered: seq<real>, quantile: real)
    requires multiset(ordered) == multiset(values) && forall i, j :: 0 <= i < j < |ordered| ==> ordered[i] <= ordered[j]
    requires 0.0 < quantile < 1.0 && values != []
    ensures |values| == |ordered| && 0.0 <= Rank(quantile, |ordered|) <= (|ordered| - 1) as real
    ensures Percentile(values, quantile) ==
            Ok(if |ordered| == 1 then ordered[0] else AtRank(ordered, Rank(quantile, |ordered|)))
  {
    AscendingIsSorted(values, ordered);
    RankInRange(quantile, |ordered|);
  }

  lemma RankIs(quantile: real, n: nat, place: real)
    requires n >= 1 && place == quantile * (n - 1) as real
    ensures Rank(quantile, n) == place
  {
    assert (n - 1) as real == n as real - 1.0;
  }

  lemma InterpolatedAt(values: seq<real>, ordered: seq<real>, quantile: real, place: real, k: nat)
    requires multiset(ordered) == multiset(values) && forall i, j :: 0 <= i < j < |ordered| ==> ordered[i] <= ordered[j]
    requires 0.0 < quantile < 1.0 && values != [] && place == Rank(quantile, |ordered|)
    ensures |ordered| == 1 ==> Percentile(values, quantile) == Ok(ordered[0])
    ensures k + 1 < |ordered| && k as real <= place <= k as real + 1.0 ==>
              Percentile(values, quantile) == Ok(ordered[k] + (place - k as real) * (ordered[k + 1] - ordered[k]))
  {
    PercentileOfSorted(values, ordered, quantile);
    if k + 1 < |ordered| && k as real <= place <= k as real + 1.0 { BetweenRanks(ordered, k, place); }
  }

  /**
   * Of n observations in ascending order, the quantile is found at the place q * (n - 1), counted from 0, on the line
   * from the observation before it to the one after it; of one observation it is that observation.
   */
  lemma QuantileInterpolates(values: seq<real>, ordered: seq<real>, quantile: real, place: real, k: nat)
    requires multiset(ordered) == multiset(values) && forall i, j :: 0 <= i < j < |ordered| ==> ordered[i] <= ordered[j]
    requires 0.0 < quantile < 1.0 && values != [] && |ordered| >= 1 && place == quantile * (|ordered| - 1) as real
    ensures |ordered| == 1 ==> Percentile(values, quantile) == Ok(ordered[0])
    ensures k + 1 < |ordered| && k as real <= place <= k as real + 1.0 ==>
              Percentile(values, quantile) == Ok(ordered[k] + (place - k as real) * (ordered[k + 1] - ordered[k]))
  {
    RankIs(quantile, |ordered|, place);
    InterpolatedAt(values, ordered, quantile, place, k);
  }

  /** There is no quantile of no observations, and none at a fraction that is not strictly between 0 and 1. */
  lemma NoQuantile(values: seq<real>, quantile: real)
    ensures Percentile(values, quantile) == Err(EmptySet) <==> values == []
    ensures Percentile(values, quantile) == Err(QuantileOutOfRange) <==>
            values != [] && (quantile <= 0.0 || quantile >= 1.0)
  {
  }
}
