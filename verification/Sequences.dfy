/** Facts about sequences that several parts of the platform share. */
module Sequences {

  ghost predicate Distinct<T>(s: seq<T>) {
    forall i, j :: 0 <= i < j < |s| ==> s[i] != s[j]
  }

  function Filter<T(!new)>(keep: T -> bool, s: seq<T>): (r: seq<T>)
    ensures forall x :: x in r <==> x in s && keep(x)
    ensures |r| <= |s|
  {
    if s == [] then []
    else if keep(s[0]) then [s[0]] + Filter(keep, s[1..])
    else Filter(keep, s[1..])
  }

  lemma {:induction false} FilterAppend<T(!new)>(keep: T -> bool, a: seq<T>, b: seq<T>)
    ensures Filter(keep, a + b) == Filter(keep, a) + Filter(keep, b)
  {
    if a == [] {
      assert a + b == b;
    } else {
      assert (a + b)[0] == a[0] && (a + b)[1..] == a[1..] + b;
      FilterAppend(keep, a[1..], b);
      assert [a[0]] + (Filter(keep, a[1..]) + Filter(keep, b)) == [a[0]] + Filter(keep, a[1..]) + Filter(keep, b);
    }
  }

  lemma FilterOneMore<T(!new)>(keep: T -> bool, s: seq<T>, x: T)
    ensures Filter(keep, s + [x]) == Filter(keep, s) + (if keep(x) then [x] else [])
  {
    FilterAppend(keep, s, [x]);
    assert [x][1..] == [];
  }

  lemma {:induction false} FilterTwice<T(!new)>(f: T -> bool, g: T -> bool, both: T -> bool, s: seq<T>)
    requires forall x :: both(x) <==> f(x) && g(x)
    ensures Filter(g, Filter(f, s)) == Filter(both, s)
  {
    if s != [] {
      FilterTwice(f, g, both, s[1..]);
      if f(s[0]) { assert ([s[0]] + Filter(f, s[1..]))[1..] == Filter(f, s[1..]); }
    }
  }

  lemma {:induction false} FilterCounts<T(!new)>(keep: T -> bool, s: seq<T>, x: T)
    ensures multiset(Filter(keep, s))[x] == if keep(x) then multiset(s)[x] else 0
  {
    if s != [] {
      FilterCounts(keep, s[1..], x);
      assert s == [s[0]] + s[1..];
    }
  }

  function Map<A, B>(f: A -> B, s: seq<A>): (r: seq<B>)
    ensures |r| == |s|
    ensures forall i :: 0 <= i < |s| ==> r[i] == f(s[i])
  {
    if s == [] then [] else [f(s[0])] + Map(f, s[1..])
  }

  function Flatten<T>(ss: seq<seq<T>>): seq<T> {
    if ss == [] then [] else ss[0] + Flatten(ss[1..])
  }

  lemma {:induction false} FlattenAppend<T>(a: seq<seq<T>>, b: seq<seq<T>>)
    ensures Flatten(a + b) == Flatten(a) + Flatten(b)
  {
    if a == [] {
      assert a + b == b;
    } else {
      assert (a + b)[1..] == a[1..] + b;
      FlattenAppend(a[1..], b);
    }
  }

  /** Two sequences are related element by element. */
  ghost predicate Related<A, B>(p: (A, B) -> bool, a: seq<A>, b: seq<B>) {
    |a| == |b| && forall i :: 0 <= i < |a| ==> p(a[i], b[i])
  }

  lemma RelatedOneMore<A, B>(p: (A, B) -> bool, a: seq<A>, b: seq<B>, x: A, y: B)
    requires Related(p, a, b) && p(x, y)
    ensures Related(p, a + [x], b + [y])
  {
  }

  function Sum(s: seq<int>): int {
    if s == [] then 0 else s[0] + Sum(s[1..])
  }

  lemma {:induction false} SumAppend(a: seq<int>, b: seq<int>)
    ensures Sum(a + b) == Sum(a) + Sum(b)
  {
    if a == [] {
      assert a + b == b;
    } else {
      assert (a + b)[1..] == a[1..] + b;
      SumAppend(a[1..], b);
    }
  }

  /** `indices` picks positions of a sequence of length `n` in order. */
  ghost predicate Increasing(indices: seq<nat>, n: nat) {
    && (forall i :: 0 <= i < |indices| ==> indices[i] < n)
    && (forall i, j :: 0 <= i < j < |indices| ==> indices[i] < indices[j])
  }

  ghost function Pick<T>(s: seq<T>, indices: seq<nat>): (r: seq<T>)
    requires forall i :: 0 <= i < |indices| ==> indices[i] < |s|
  {
    seq(|indices|, i requires 0 <= i < |indices| => s[indices[i]])
  }
}
