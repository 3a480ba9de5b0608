/** Python's stable `sorted`, for any total preorder of the elements. */
module Ordering {
  import Sequences

  ghost predicate TotalPreorder<T(!new)>(le: (T, T) -> bool) {
    && (forall x, y :: le(x, y) || le(y, x))
    && (forall x, y, z :: le(x, y) && le(y, z) ==> le(x, z))
  }

  ghost predicate Sorted<T(!new)>(le: (T, T) -> bool, s: seq<T>) {
    forall i, j :: 0 <= i < j < |s| ==> le(s[i], s[j])
  }

  function Insert<T>(le: (T, T) -> bool, x: T, s: seq<T>): (r: seq<T>)
    ensures multiset(r) == multiset(s) + multiset{x}
  {
    if s == [] || le(x, s[0]) then [x] + s
    else
      assert s == [s[0]] + s[1..];
      [s[0]] + Insert(le, x, s[1..])
  }

  /** Earlier elements stay before later ones of an equal rank. */
  function Sort<T>(le: (T, T) -> bool, s: seq<T>): (r: seq<T>)
    ensures multiset(r) == multiset(s)
    ensures |r| == |s|
  {
    if s == [] then []
    else
      assert s == [s[0]] + s[1..];
      var r := Insert(le, s[0], Sort(le, s[1..]));
      assert |multiset(r)| == |multiset(s)|;
      r
  }

  lemma {:induction false} InsertSorted<T(!new)>(le: (T, T) -> bool, x: T, s: seq<T>)
    requires TotalPreorder(le) && Sorted(le, s)
    ensures Sorted(le, Insert(le, x, s))
  {
    if s == [] || le(x, s[0]) {
    } else {
      InsertSorted(le, x, s[1..]);
      var rest := Insert(le, x, s[1..]);
      forall i | 0 <= i < |rest| ensures le(s[0], rest[i]) {
        assert rest[i] in multiset(rest);
        assert rest[i] == x || rest[i] in s[1..];
      }
    }
  }

  lemma {:induction false} SortSorted<T(!new)>(le: (T, T) -> bool, s: seq<T>)
    requires TotalPreorder(le)
    ensures Sorted(le, Sort(le, s))
  {
    if s != [] {
      SortSorted(le, s[1..]);
      InsertSorted(le, s[0], Sort(le, s[1..]));
    }
  }

  /** Equal ranks only for equal elements: then a sequence has one sorted order. */
  ghost predicate AntisymmetricOn<T>(le: (T, T) -> bool, s: seq<T>) {
    forall x, y :: x in s && y in s && le(x, y) && le(y, x) ==> x == y
  }

  lemma SameElements<T>(a: seq<T>, b: seq<T>)
    requires multiset(a) == multiset(b)
    ensures |a| == |b|
    ensures forall x :: x in a <==> x in b
  {
    assert |multiset(a)| == |a| && |multiset(b)| == |b|;
    forall x ensures x in a <==> x in b {
      assert x in a <==> x in multiset(a);
      assert x in b <==> x in multiset(b);
    }
  }

  lemma WithoutHead<T>(s: seq<T>)
    requires s != []
    ensures multiset(s[1..]) == multiset(s) - multiset{s[0]}
  {
    assert s == [s[0]] + s[1..];
  }

  lemma SortedHeadIsLeast<T(!new)>(le: (T, T) -> bool, s: seq<T>, x: T)
    requires TotalPreorder(le) && Sorted(le, s) && x in s
    ensures le(s[0], x)
  {
    var i :| 0 <= i < |s| && s[i] == x;
  }

  lemma SameLeast<T(!new)>(le: (T, T) -> bool, a: seq<T>, b: seq<T>)
    requires TotalPreorder(le) && Sorted(le, a) && Sorted(le, b)
    requires multiset(a) == multiset(b) && AntisymmetricOn(le, a) && a != []
    ensures b != [] && a[0] == b[0] && multiset(a[1..]) == multiset(b[1..])
  {
    SameElements(a, b);
    SortedHeadIsLeast(le, a, b[0]);
    SortedHeadIsLeast(le, b, a[0]);
    WithoutHead(a);
    WithoutHead(b);
  }

  lemma {:induction false} SortedUnique<T(!new)>(le: (T, T) -> bool, a: seq<T>, b: seq<T>)
    requires TotalPreorder(le) && Sorted(le, a) && Sorted(le, b)
    requires multiset(a) == multiset(b) && AntisymmetricOn(le, a)
    ensures a == b
  {
    SameElements(a, b);
    if a != [] {
      SameLeast(le, a, b);
      SortedUnique(le, a[1..], b[1..]);
      assert a == [a[0]] + a[1..] && b == [b[0]] + b[1..];
    }
  }

  /** Sorting two arrangements of the same elements gives one result. */
  lemma SortPermutation<T(!new)>(le: (T, T) -> bool, a: seq<T>, b: seq<T>)
    requires TotalPreorder(le) && multiset(a) == multiset(b) && AntisymmetricOn(le, a)
    ensures Sort(le, a) == Sort(le, b)
  {
    SortSorted(le, a);
    SortSorted(le, b);
    SameElements(Sort(le, a), a);
    SortedUnique(le, Sort(le, a), Sort(le, b));
  }

  lemma WithoutAt<T>(s: seq<T>, i: nat) returns (rest: seq<T>)
    requires i < |s|
    ensures rest == s[..i] + s[i + 1..]
    ensures |rest| == |s| - 1 && multiset(s) == multiset(rest) + multiset{s[i]}
  {
    rest := s[..i] + s[i + 1..];
    assert s == s[..i] + [s[i]] + s[i + 1..];
  }

  lemma MapWithout<T, U>(f: T -> U, s: seq<T>, i: nat, rest: seq<T>)
    requires i < |s| && rest == s[..i] + s[i + 1..]
    ensures multiset(Sequences.Map(f, s)) == multiset(Sequences.Map(f, rest)) + multiset{f(s[i])}
  {
    var mapped := Sequences.Map(f, s);
    var less := WithoutAt(mapped, i);
    assert less == Sequences.Map(f, rest);
  }

  /** Mapping two arrangements of the same elements gives arrangements of the same elements. */
  lemma {:induction false} MapPermutation<T, U>(f: T -> U, a: seq<T>, b: seq<T>)
    requires multiset(a) == multiset(b)
    ensures multiset(Sequences.Map(f, a)) == multiset(Sequences.Map(f, b))
    decreases |a|
  {
    SameElements(a, b);
    if a != [] {
      assert a[0] in b;
      var i :| 0 <= i < |b| && b[i] == a[0];
      var a' := WithoutAt(a, 0);
      var b' := WithoutAt(b, i);
      SameWithout(a, b, a', b', a[0]);
      MapPermutation(f, a', b');
      MapWithout(f, a, 0, a');
      MapWithout(f, b, i, b');
    }
  }

  lemma SameWithout<T>(a: seq<T>, b: seq<T>, a': seq<T>, b': seq<T>, x: T)
    requires multiset(a) == multiset(b)
    requires multiset(a) == multiset(a') + multiset{x} && multiset(b) == multiset(b') + multiset{x}
    ensures multiset(a') == multiset(b')
  {
    assert multiset(a') == multiset(a) - multiset{x};
    assert multiset(b') == multiset(b) - multiset{x};
  }

  /** Lexicographic order of integer sequences: characters, code units, (time, id) pairs. */
  predicate LexLe(a: seq<int>, b: seq<int>) {
    a == [] || (b != [] && (a[0] < b[0] || (a[0] == b[0] && LexLe(a[1..], b[1..]))))
  }

  lemma {:induction false} LexTotal(a: seq<int>, b: seq<int>)
    ensures LexLe(a, b) || LexLe(b, a)
  {
    if a != [] && b != [] { LexTotal(a[1..], b[1..]); }
  }

  lemma {:induction false} LexTransitive(a: seq<int>, b: seq<int>, c: seq<int>)
    requires LexLe(a, b) && LexLe(b, c)
    ensures LexLe(a, c)
  {
    if a != [] && a[0] == b[0] == c[0] { LexTransitive(a[1..], b[1..], c[1..]); }
  }

  lemma {:induction false} LexAntisymmetric(a: seq<int>, b: seq<int>)
    requires LexLe(a, b) && LexLe(b, a)
    ensures a == b
  {
    if a != [] {
      LexAntisymmetric(a[1..], b[1..]);
      assert a == [a[0]] + a[1..] && b == [b[0]] + b[1..];
    }
  }

  /** A string as its code points. */
  function Codes(s: string): (r: seq<int>)
    ensures |r| == |s| && forall i :: 0 <= i < |s| ==> r[i] == s[i] as int
  {
    seq(|s|, i requires 0 <= i < |s| => s[i] as int)
  }

  lemma CodesInjective(a: string, b: string)
    requires Codes(a) == Codes(b)
    ensures a == b
  {
    assert |a| == |b|;
    forall i | 0 <= i < |a| ensures a[i] == b[i] {
      assert Codes(a)[i] == Codes(b)[i];
    }
  }

  predicate TextLe(a: string, b: string) { LexLe(Codes(a), Codes(b)) }

  /** A prefix of the other, or smaller at the first place where they differ. */
  ghost predicate Precedes(a: seq<int>, b: seq<int>) {
    || (|a| <= |b| && forall i :: 0 <= i < |a| ==> a[i] == b[i])
    || exists k :: 0 <= k < |a| && k < |b| && a[k] < b[k] && forall i :: 0 <= i < k ==> a[i] == b[i]
  }

  lemma PrecedesFromTails(a: seq<int>, b: seq<int>)
    requires a != [] && b != [] && a[0] == b[0] && Precedes(a[1..], b[1..])
    ensures Precedes(a, b)
  {
    var s, t := a[1..], b[1..];
    if k :| 0 <= k < |s| && k < |t| && s[k] < t[k] && forall i :: 0 <= i < k ==> s[i] == t[i] {
      var l := k + 1;
      assert a[l] < b[l] && forall i :: 0 < i < l ==> a[i] == s[i - 1] == t[i - 1] == b[i];
    } else {
      assert forall i :: 0 < i < |a| ==> a[i] == s[i - 1] == t[i - 1] == b[i];
    }
  }

  lemma PrecedeStep(a: seq<int>, b: seq<int>)
    requires a != [] && b != []
    ensures Precedes(a, b) <==> a[0] < b[0] || (a[0] == b[0] && Precedes(a[1..], b[1..]))
  {
    var s, t := a[1..], b[1..];
    if a[0] == b[0] && Precedes(s, t) { PrecedesFromTails(a, b); }
    if k :| 0 < k < |a| && k < |b| && a[k] < b[k] && forall i :: 0 <= i < k ==> a[i] == b[i] {
      assert s[k - 1] < t[k - 1];
    }
  }

  lemma {:induction false} LexByPositions(a: seq<int>, b: seq<int>)
    ensures LexLe(a, b) <==> Precedes(a, b)
  {
    if a != [] && b != [] {
      LexByPositions(a[1..], b[1..]);
      PrecedeStep(a, b);
    }
  }

  /** A prefix of the other text, or a smaller character at the first place where they differ. */
  ghost predicate TextPrecedes(a: string, b: string) {
    || (|a| <= |b| && forall i :: 0 <= i < |a| ==> a[i] == b[i])
    || exists k :: 0 <= k < |a| && k < |b| && a[k] < b[k] && forall i :: 0 <= i < k ==> a[i] == b[i]
  }

  lemma TextLeByPositions(a: string, b: string)
    ensures TextLe(a, b) <==> TextPrecedes(a, b)
  {
    var s, t := Codes(a), Codes(b);
    LexByPositions(s, t);
    if k :| 0 <= k < |s| && k < |t| && s[k] < t[k] && forall i :: 0 <= i < k ==> s[i] == t[i] {
      assert a[k] < b[k] && forall i :: 0 <= i < k ==> s[i] == t[i];
      forall i | 0 <= i < k ensures a[i] == b[i] { assert s[i] == t[i]; }
    }
    if k :| 0 <= k < |a| && k < |b| && a[k] < b[k] && forall i :: 0 <= i < k ==> a[i] == b[i] {
      assert s[k] < t[k] && forall i :: 0 <= i < k ==> s[i] == t[i];
    }
    if |a| <= |b| && forall i :: 0 <= i < |s| ==> s[i] == t[i] {
      forall i | 0 <= i < |a| ensures a[i] == b[i] { assert s[i] == t[i]; }
    }
  }

  lemma TextOrder()
    ensures TotalPreorder(TextLe)
    ensures forall a: string, b: string :: TextLe(a, b) && TextLe(b, a) ==> a == b
  {
    forall x: string, y: string ensures TextLe(x, y) || TextLe(y, x) { LexTotal(Codes(x), Codes(y)); }
    forall x: string, y: string, z: string | TextLe(x, y) && TextLe(y, z) ensures TextLe(x, z) {
      LexTransitive(Codes(x), Codes(y), Codes(z));
    }
    forall a: string, b: string | TextLe(a, b) && TextLe(b, a) ensures a == b {
      LexAntisymmetric(Codes(a), Codes(b));
      CodesInjective(a, b);
    }
  }

  /** `sorted` over the keys of a dictionary or the members of a set of texts. */
  method SortedTexts(keys: set<string>) returns (r: seq<string>)
    ensures Sorted(TextLe, r) && Sequences.Distinct(r)
    ensures (set k | k in r) == keys
  {
    TextOrder();
    r := [];
    var rest := keys;
    while rest != {}
      invariant Sequences.Distinct(r) && (forall k :: k in r ==> k !in rest)
      invariant (set k | k in r) + rest == keys
    {
      var k :| k in rest;
      r := r + [k];
      rest := rest - {k};
    }
    var sorted := Sort(TextLe, r);
    SortSorted(TextLe, r);
    SameElements(sorted, r);
    DistinctPermutation(r, sorted);
    r := sorted;
  }

  lemma DistinctPermutation<T>(a: seq<T>, b: seq<T>)
    requires Sequences.Distinct(a) && multiset(a) == multiset(b)
    ensures Sequences.Distinct(b)
  {
    forall i, j | 0 <= i < j < |b| ensures b[i] != b[j] {
      if b[i] == b[j] {
        var x := b[i];
        assert b == b[..i] + [x] + b[i + 1..j] + [x] + b[j + 1..];
        assert multiset(b)[x] >= 2;
        OnceInDistinct(a, x);
      }
    }
  }

  lemma {:induction false} OnceInDistinct<T>(a: seq<T>, x: T)
    requires Sequences.Distinct(a)
    ensures multiset(a)[x] <= 1
  {
    if a != [] {
      assert a == [a[0]] + a[1..];
      OnceInDistinct(a[1..], x);
      if x == a[0] {
        assert forall k :: 0 <= k < |a[1..]| ==> a[1..][k] == a[k + 1] != a[0];
        assert x !in a[1..];
      }
    }
  }

  /** Sequences without repetitions and with the same elements are arrangements of each other. */
  lemma DistinctSameElements<T>(a: seq<T>, b: seq<T>)
    requires Sequences.Distinct(a) && Sequences.Distinct(b) && forall x :: x in a <==> x in b
    ensures multiset(a) == multiset(b)
  {
    forall x ensures multiset(a)[x] == multiset(b)[x] {
      OnceInDistinct(a, x);
      OnceInDistinct(b, x);
      assert (x in multiset(a) <==> x in a) && (x in multiset(b) <==> x in b);
    }
  }
}
