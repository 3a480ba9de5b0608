/**
 * Ramer-Douglas-Peucker over any point type and any non-negative measure of how far a point
 * lies off a chord. Distances are compared squared, so `limit` is the squared tolerance.
 */
module RdpTheory {
  import opened Sequences

  ghost predicate NonNegative<T(!new)>(off: (T, T, T) -> real) {
    forall p, a, b :: off(p, a, b) >= 0.0
  }

  /** The scan of one interval up to `k`: the first index of the greatest distance so far. */
  function Scan<T>(off: (T, T, T) -> real, c: seq<T>, first: nat, last: nat, k: nat): (r: (int, real))
    requires first < k <= last < |c|
    ensures r.0 == -1 || first < r.0 < k
  {
    if k == first + 1 then (-1, -1.0)
    else
      var best := Scan(off, c, first, last, k - 1);
      var distance := off(c[k - 1], c[first], c[last]);
      if distance > best.1 then (k - 1, distance) else best
  }

  function Farthest<T>(off: (T, T, T) -> real, c: seq<T>, first: nat, last: nat): (r: (int, real))
    requires first < last < |c|
    ensures r.0 == -1 || first < r.0 < last
  {
    Scan(off, c, first, last, last)
  }

  /** `f` is the first interior index at the greatest distance from the chord. */
  ghost predicate IsFarthest<T>(off: (T, T, T) -> real, c: seq<T>, first: nat, last: nat, k: nat, f: int) {
    && first < f < k <= last < |c|
    && (forall i :: first < i < k ==> off(c[i], c[first], c[last]) <= off(c[f], c[first], c[last]))
    && (forall i :: first < i < f ==> off(c[i], c[first], c[last]) < off(c[f], c[first], c[last]))
  }

  lemma {:induction false} ScanIsFarthest<T(!new)>(off: (T, T, T) -> real, c: seq<T>, first: nat, last: nat, k: nat)
    requires NonNegative(off) && first + 1 < k <= last < |c|
    ensures var r := Scan(off, c, first, last, k);
      IsFarthest(off, c, first, last, k, r.0) && r.1 == off(c[r.0], c[first], c[last])
  {
    if k > first + 2 { ScanIsFarthest(off, c, first, last, k - 1); }
  }

  predicate Splits<T>(off: (T, T, T) -> real, limit: real, c: seq<T>, first: nat, last: nat)
    requires first < last < |c|
  {
    var (f, distance) := Farthest(off, c, first, last);
    distance > limit && f > 0
  }

  /** The recursive definition: the kept indices from `first` up to, but without, `last`. */
  function Path<T>(off: (T, T, T) -> real, limit: real, c: seq<T>, first: nat, last: nat): (r: seq<nat>)
    requires first < last < |c|
    ensures r != [] && r[0] == first
    decreases last - first
  {
    if Splits(off, limit, c, first, last) then
      var f := Farthest(off, c, first, last).0;
      Path(off, limit, c, first, f) + Path(off, limit, c, f, last)
    else [first]
  }

  /** What the kept indices of one interval look like. */
  ghost predicate Ascends(s: seq<nat>, first: nat, last: nat) {
    && (forall i :: 0 <= i < |s| ==> first <= s[i] < last)
    && (forall i, j :: 0 <= i < j < |s| ==> s[i] < s[j])
  }

  lemma JoinAscends(left: seq<nat>, right: seq<nat>, first: nat, f: nat, last: nat)
    requires Ascends(left, first, f) && Ascends(right, f, last) && first <= f <= last
    ensures Ascends(left + right, first, last)
  {
  }

  lemma {:induction false} PathAscends<T(!new)>(off: (T, T, T) -> real, limit: real, c: seq<T>, first: nat, last: nat)
    requires first < last < |c|
    ensures Ascends(Path(off, limit, c, first, last), first, last)
    decreases last - first
  {
    if Splits(off, limit, c, first, last) {
      var f := Farthest(off, c, first, last).0;
      PathAscends(off, limit, c, first, f);
      PathAscends(off, limit, c, f, last);
      JoinAscends(Path(off, limit, c, first, f), Path(off, limit, c, f, last), first, f, last);
    }
  }

  /** Between two consecutive kept indices every point is within the limit of their chord. */
  ghost predicate ChordsWithin<T>(off: (T, T, T) -> real, limit: real, c: seq<T>, kept: seq<nat>) {
    && (forall i :: 0 <= i < |kept| ==> kept[i] < |c|)
    && forall j, k :: 0 <= j && k == j + 1 < |kept| ==> Within(off, limit, c, kept[j], kept[k])
  }

  ghost predicate Within<T>(off: (T, T, T) -> real, limit: real, c: seq<T>, a: nat, b: nat) {
    && a < |c| && b < |c|
    && forall i {:trigger c[i]} :: a < i < b ==> off(c[i], c[a], c[b]) <= limit
  }

  lemma {:induction false} PathChords<T(!new)>(off: (T, T, T) -> real, limit: real, c: seq<T>, first: nat, last: nat)
    requires NonNegative(off) && first < last < |c| && limit >= 0.0
    ensures ChordsWithin(off, limit, c, Path(off, limit, c, first, last) + [last])
    decreases last - first
  {
    PathAscends(off, limit, c, first, last);
    if Splits(off, limit, c, first, last) {
      var f := Farthest(off, c, first, last).0;
      var left, right := Path(off, limit, c, first, f), Path(off, limit, c, f, last);
      PathChords(off, limit, c, first, f);
      PathChords(off, limit, c, f, last);
      JoinChords(off, limit, c, left, right + [last]);
      assert left + (right + [last]) == Path(off, limit, c, first, last) + [last];
    } else if first + 1 < last {
      ScanIsFarthest(off, c, first, last, last);
    }
  }

  /** Between two kept indices, `f` is the first point farthest from their chord, and beyond the limit. */
  ghost predicate SplitBetween<T>(off: (T, T, T) -> real, limit: real, c: seq<T>, kept: seq<nat>, f: nat, a: nat, b: nat) {
    a in kept && b in kept && IsFarthest(off, c, a, b, b, f) && off(c[f], c[a], c[b]) > limit
  }

  ghost predicate AllSplit<T>(off: (T, T, T) -> real, limit: real, c: seq<T>, kept: seq<nat>, first: nat) {
    forall f :: f in kept && f != first && f != kept[|kept| - 1] ==> exists a, b :: SplitBetween(off, limit, c, kept, f, a, b)
  }

  lemma SplitInMore<T>(off: (T, T, T) -> real, limit: real, c: seq<T>, kept: seq<nat>, more: seq<nat>, f: nat)
    requires forall i :: i in kept ==> i in more
    ensures (exists a, b :: SplitBetween(off, limit, c, kept, f, a, b)) ==>
            exists a, b :: SplitBetween(off, limit, c, more, f, a, b)
  {
    if a, b :| SplitBetween(off, limit, c, kept, f, a, b) { assert SplitBetween(off, limit, c, more, f, a, b); }
  }

  /** Every kept index but the ends was worth keeping. */
  lemma {:induction false} PathSplits<T(!new)>(off: (T, T, T) -> real, limit: real, c: seq<T>, first: nat, last: nat)
    requires NonNegative(off) && first < last < |c|
    ensures AllSplit(off, limit, c, Path(off, limit, c, first, last) + [last], first)
    decreases last - first
  {
    var kept := Path(off, limit, c, first, last) + [last];
    if Splits(off, limit, c, first, last) {
      var f := Farthest(off, c, first, last).0;
      var left, right := Path(off, limit, c, first, f) + [f as nat], Path(off, limit, c, f, last) + [last];
      PathSplits(off, limit, c, first, f);
      PathSplits(off, limit, c, f, last);
      ScanIsFarthest(off, c, first, last, last);
      assert first in kept && last in kept && right[0] == f;
      assert SplitBetween(off, limit, c, kept, f, first, last);
      forall g | g in kept && g != first && g != last
        ensures exists a, b :: SplitBetween(off, limit, c, kept, g, a, b)
      {
        if g != f {
          assert g in left || g in right;
          SplitInMore(off, limit, c, left, kept, g);
          SplitInMore(off, limit, c, right, kept, g);
        }
      }
    }
  }

  lemma JoinChords<T(!new)>(off: (T, T, T) -> real, limit: real, c: seq<T>, left: seq<nat>, right: seq<nat>)
    requires right != [] && ChordsWithin(off, limit, c, left + [right[0]]) && ChordsWithin(off, limit, c, right)
    ensures ChordsWithin(off, limit, c, left + right)
  {
    var all, l := left + right, left + [right[0]];
    forall i | 0 <= i < |all| ensures all[i] < |c| {
      if i < |left| { assert l[i] < |c|; }
    }
    forall j, k | 0 <= j && k == j + 1 < |all| ensures Within(off, limit, c, all[j], all[k]) {
      if j < |left| {
        assert all[j] == l[j] && all[k] == l[k];
      } else {
        assert all[j] == right[j - |left|] && all[k] == right[k - |left|];
      }
    }
  }

  function Kept<T>(off: (T, T, T) -> real, limit: real, c: seq<T>): (r: seq<nat>)
    requires |c| >= 2
  {
    Path(off, limit, c, 0, |c| - 1) + [|c| - 1]
  }

  /** Both ends are kept, in order, and every dropped point is near the chord of its kept neighbours. */
  lemma KeptProperties<T(!new)>(off: (T, T, T) -> real, limit: real, c: seq<T>)
    requires NonNegative(off) && limit >= 0.0 && |c| >= 2
    ensures var kept := Kept(off, limit, c);
      && Increasing(kept, |c|) && |kept| >= 2 && kept[0] == 0 && kept[|kept| - 1] == |c| - 1
      && ChordsWithin(off, limit, c, kept)
  {
    PathAscends(off, limit, c, 0, |c| - 1);
    PathChords(off, limit, c, 0, |c| - 1);
  }

  // ---- the explicit stack ----

  /** The indices strictly inside one interval that the recursive definition keeps. */
  ghost function Inner<T>(off: (T, T, T) -> real, limit: real, c: seq<T>, first: nat, last: nat): (r: set<nat>)
    requires first < last < |c|
    ensures forall i :: i in r ==> first < i < last
    decreases last - first
  {
    if Splits(off, limit, c, first, last) then
      var f: nat := Farthest(off, c, first, last).0;
      Inner(off, limit, c, first, f) + {f} + Inner(off, limit, c, f, last)
    else {}
  }

  lemma {:induction false} PathIsInner<T(!new)>(off: (T, T, T) -> real, limit: real, c: seq<T>, first: nat, last: nat)
    requires first < last < |c|
    ensures forall i :: i in Path(off, limit, c, first, last) <==>
                        i == first || i in Inner(off, limit, c, first, last)
    decreases last - first
  {
    if Splits(off, limit, c, first, last) {
      var f := Farthest(off, c, first, last).0;
      PathIsInner(off, limit, c, first, f);
      PathIsInner(off, limit, c, f, last);
    }
  }

  ghost predicate StackOk(stack: seq<(nat, nat)>, n: nat) {
    forall i :: 0 <= i < |stack| ==> stack[i].0 < stack[i].1 < n
  }

  ghost function Due<T>(off: (T, T, T) -> real, limit: real, c: seq<T>, stack: seq<(nat, nat)>): set<nat>
    requires StackOk(stack, |c|)
  {
    if stack == [] then {}
    else
      var top := stack[|stack| - 1];
      Due(off, limit, c, stack[..|stack| - 1]) + Inner(off, limit, c, top.0, top.1)
  }

  /** Bounds the turns of the stack loop. */
  ghost function Work(stack: seq<(nat, nat)>): nat {
    if stack == [] then 0
    else
      var top := stack[|stack| - 1];
      Work(stack[..|stack| - 1]) + if top.1 > top.0 then 2 * (top.1 - top.0) - 1 else 0
  }

  lemma PushTwo<T>(off: (T, T, T) -> real, limit: real, c: seq<T>, rest: seq<(nat, nat)>, a: nat, f: nat, b: nat)
    requires StackOk(rest, |c|) && a < f < b < |c|
    ensures var pushed := rest + [(a, f)] + [(f, b)];
      && StackOk(pushed, |c|)
      && Due(off, limit, c, pushed) == Due(off, limit, c, rest) + Inner(off, limit, c, a, f) + Inner(off, limit, c, f, b)
      && Work(pushed) == Work(rest) + 2 * (b - a) - 2
  {
    var one := rest + [(a, f)];
    var pushed := one + [(f, b)];
    assert one[..|one| - 1] == rest && pushed[..|pushed| - 1] == one;
  }

  lemma {:induction false} AscendingUnique(a: seq<nat>, b: seq<nat>, first: nat, last: nat)
    requires Ascends(a, first, last) && Ascends(b, first, last)
    requires forall i :: i in a <==> i in b
    ensures a == b
  {
    assert b != [] ==> b[0] in b;
    if a != [] {
      assert a[0] in a && a[0] in b;
      assert b[0] in a;
      assert a[0] == b[0];
      forall i ensures i in a[1..] <==> i in b[1..] {
        assert i in a <==> i == a[0] || i in a[1..];
        assert i in b <==> i == b[0] || i in b[1..];
      }
      AscendingUnique(a[1..], b[1..], first, last);
    }
  }
}
