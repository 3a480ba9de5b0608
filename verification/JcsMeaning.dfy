/** What canonical texts say: equal texts are equal values, and when the insertion order is immaterial. */
module JcsMeaning {
  import opened Sequences
  import opened Ordering
  import opened Decimals
  import opened JcsNumbers
  import opened JcsText
  import opened Jcs

  /** Equality of JSON values: numbers by the decimals they print, dictionaries by name. */
  ghost predicate Same(v: Json, w: Json)
    decreases v
  {
    match v
    case Num(n) => w.Num? && Printable(n) && Printable(w.n) && NumberValue(n).Value() == NumberValue(w.n).Value()
    case Arr(items) => w.Arr? && |items| == |w.items| && forall i :: 0 <= i < |items| ==> Same(items[i], w.items[i])
    case Obj(members) =>
      && w.Obj? && SameNames(members, w.members)
      && forall i, j :: 0 <= i < |members| && 0 <= j < |w.members| && members[i].key == w.members[j].key ==>
           Same(members[i].value, w.members[j].value)
    case _ => v == w
  }

  ghost predicate HasName(members: seq<Entry<Json>>, key: Text) {
    exists i :: 0 <= i < |members| && members[i].key == key
  }

  ghost predicate SameNames(a: seq<Entry<Json>>, b: seq<Entry<Json>>) {
    && (forall i :: 0 <= i < |a| ==> HasName(b, a[i].key))
    && (forall i :: 0 <= i < |b| ==> HasName(a, b[i].key))
  }

  lemma {:induction false} FloatMembersAt(members: seq<Entry<Json>>, i: nat)
    requires i < |members|
    ensures FloatMembers(members)[i] == FloatMember(members[i])
  {
    if i > 0 { FloatMembersAt(members[1..], i - 1); }
  }

  lemma {:induction false} FloatItemsAt(items: seq<Json>, i: nat)
    requires i < |items|
    ensures FloatItems(items)[i] == Floats(items[i])
  {
    if i > 0 { FloatItemsAt(items[1..], i - 1); }
  }

  function Ordered(le: MemberOrder, v: Json): Json { Floats(InOrder(le, v)) }

  lemma PermutedIndex<T>(a: seq<T>, b: seq<T>, j: nat) returns (i: nat)
    requires multiset(a) == multiset(b) && j < |b|
    ensures i < |a| && a[i] == b[j]
  {
    assert b[j] in multiset(a);
    i :| 0 <= i < |a| && a[i] == b[j];
  }

  /** The members of an ordered dictionary, name by name. */
  lemma MemberInOrdered(le: MemberOrder, members: seq<Entry<Json>>, i: nat) returns (a: nat)
    requires i < |members|
    ensures var sorted := Sort(le, InOrderValues(le, members));
      a < |sorted| && FloatMembers(sorted)[a] == Entry(members[i].key, Ordered(le, members[i].value))
  {
    var values := InOrderValues(le, members);
    var sorted := Sort(le, values);
    a := PermutedIndex(sorted, values, i);
    InOrderValuesAt(le, members, i);
    FloatMembersAt(sorted, a);
  }

  lemma OrderedMemberSource(le: MemberOrder, members: seq<Entry<Json>>, a: nat) returns (i: nat)
    requires a < |members|
    ensures var sorted := Sort(le, InOrderValues(le, members));
      i < |members| && FloatMembers(sorted)[a] == Entry(members[i].key, Ordered(le, members[i].value))
  {
    var values := InOrderValues(le, members);
    var sorted := Sort(le, values);
    i := PermutedIndex(values, sorted, a);
    InOrderValuesAt(le, members, i);
    FloatMembersAt(sorted, a);
  }

  /** A member of one dictionary and the member of that name in another whose ordered form is equal. */
  lemma MatchingMember(le: MemberOrder, ms: seq<Entry<Json>>, ns: seq<Entry<Json>>, i: nat) returns (j: nat)
    requires Ordered(le, Obj(ms)) == Ordered(le, Obj(ns)) && i < |ms|
    ensures j < |ns| && ns[j].key == ms[i].key && Ordered(le, ns[j].value) == Ordered(le, ms[i].value)
  {
    var sv, sw := Sort(le, InOrderValues(le, ms)), Sort(le, InOrderValues(le, ns));
    assert FloatMembers(sv) == FloatMembers(sw);
    var a := MemberInOrdered(le, ms, i);
    assert |FloatMembers(sv)| == |sv| && |FloatMembers(sw)| == |sw|;
    j := OrderedMemberSource(le, ns, a);
  }

  /** Values with equal ordered forms are the same value. */
  lemma {:induction false} EqualOrderedIsSame(le: MemberOrder, v: Json, w: Json)
    requires WellFormed(v) && WellFormed(w) && Serializable(v) && Serializable(w)
    requires Ordered(le, v) == Ordered(le, w)
    ensures Same(v, w)
    decreases v, 1
  {
    match v
    case Arr(items) =>
      forall i | 0 <= i < |items| ensures Same(items[i], w.items[i]) {
        EqualItems(le, items, w.items, i);
        EqualOrderedIsSame(le, items[i], w.items[i]);
      }
    case Obj(ms) =>
      EqualDictionaries(le, ms, w.members);
    case _ =>
  }

  lemma EqualItems(le: MemberOrder, a: seq<Json>, b: seq<Json>, i: nat)
    requires Ordered(le, Arr(a)) == Ordered(le, Arr(b)) && i < |a|
    ensures |a| == |b| && Ordered(le, a[i]) == Ordered(le, b[i])
  {
    var x, y := InOrderItems(le, a), InOrderItems(le, b);
    assert FloatItems(x) == FloatItems(y);
    assert |FloatItems(x)| == |a| && |FloatItems(y)| == |b|;
    InOrderItemsAt(le, a, i);
    InOrderItemsAt(le, b, i);
    FloatItemsAt(x, i);
    FloatItemsAt(y, i);
  }

  lemma {:induction false} EqualDictionaries(le: MemberOrder, ms: seq<Entry<Json>>, ns: seq<Entry<Json>>)
    requires WellFormed(Obj(ms)) && WellFormed(Obj(ns)) && Serializable(Obj(ms)) && Serializable(Obj(ns))
    requires Ordered(le, Obj(ms)) == Ordered(le, Obj(ns))
    ensures Same(Obj(ms), Obj(ns))
    decreases ms, 1
  {
    forall i | 0 <= i < |ms| ensures HasName(ns, ms[i].key) {
      var j := MatchingMember(le, ms, ns, i);
    }
    forall j | 0 <= j < |ns| ensures HasName(ms, ns[j].key) {
      var i := MatchingMember(le, ns, ms, j);
    }
    forall i, j | 0 <= i < |ms| && 0 <= j < |ns| && ms[i].key == ns[j].key
      ensures Same(ms[i].value, ns[j].value)
    {
      var k := MatchingMember(le, ms, ns, i);
      assert k == j;
      assert ms[i] in ms && ns[j] in ns;
      EqualOrderedIsSame(le, ms[i].value, ns[j].value);
    }
  }

  // ---- the same value has one text ----

  /** Printing the float of a number prints the number. */
  lemma {:induction false} WrittenFloats(v: Json)
    requires Serializable(v)
    ensures Written(Floats(v)) == Written(v)
    decreases v, 1
  {
    match v
    case Num(n) => NumberTextReads(n);
    case Arr(items) => WrittenFloatItems(items);
    case Obj(members) => WrittenFloatMembers(members);
    case _ =>
  }

  lemma {:induction false} WrittenFloatItems(items: seq<Json>)
    requires forall x :: x in items ==> Serializable(x)
    ensures WrittenItems(FloatItems(items)) == WrittenItems(items)
    decreases items, 0
  {
    if items != [] {
      WrittenFloats(items[0]);
      WrittenFloatItems(items[1..]);
      assert FloatItems(items)[1..] == FloatItems(items[1..]);
    }
  }

  lemma {:induction false} WrittenFloatMembers(members: seq<Entry<Json>>)
    requires forall m :: m in members ==> Serializable(m.value)
    ensures WrittenMembers(FloatMembers(members)) == WrittenMembers(members)
    decreases members, 0
  {
    if members != [] {
      WrittenFloats(members[0].value);
      WrittenFloatMembers(members[1..]);
      assert FloatMembers(members)[1..] == FloatMembers(members[1..]);
    }
  }

  /** The order looks at names only. */
  ghost predicate ByName(le: MemberOrder) {
    forall a: Entry<Json>, b: Entry<Json>, c: Entry<Json>, d: Entry<Json> ::
      a.key == c.key && b.key == d.key ==> le(a, b) == le(c, d)
  }

  lemma {:induction false} InsertFloat(le: MemberOrder, m: Entry<Json>, members: seq<Entry<Json>>)
    requires ByName(le)
    ensures FloatMembers(Insert(le, m, members)) == Insert(le, FloatMember(m), FloatMembers(members))
  {
    if members == [] {
    } else {
      assert FloatMembers(members)[1..] == FloatMembers(members[1..]);
      assert le(m, members[0]) == le(FloatMember(m), FloatMembers(members)[0]);
      if le(m, members[0]) {
        assert ([m] + members)[1..] == members;
      } else {
        InsertFloat(le, m, members[1..]);
        assert ([members[0]] + Insert(le, m, members[1..]))[1..] == Insert(le, m, members[1..]);
      }
    }
  }

  lemma {:induction false} SortFloat(le: MemberOrder, members: seq<Entry<Json>>)
    requires ByName(le)
    ensures FloatMembers(Sort(le, members)) == Sort(le, FloatMembers(members))
  {
    if members != [] {
      SortFloat(le, members[1..]);
      InsertFloat(le, members[0], Sort(le, members[1..]));
      assert FloatMembers(members)[1..] == FloatMembers(members[1..]);
    }
  }

  /** No two names of one dictionary tie in the order. */
  ghost predicate Untied(le: MemberOrder, members: seq<Entry<Json>>) {
    forall i, j :: 0 <= i < j < |members| ==> !(le(members[i], members[j]) && le(members[j], members[i]))
  }

  ghost predicate UntiedThroughout(le: MemberOrder, v: Json)
    decreases v
  {
    match v
    case Arr(items) => forall x :: x in items ==> UntiedThroughout(le, x)
    case Obj(members) => Untied(le, members) && forall m :: m in members ==> UntiedThroughout(le, m.value)
    case _ => true
  }

  function OrderedMembers(le: MemberOrder, members: seq<Entry<Json>>): (r: seq<Entry<Json>>)
    ensures |r| == |members|
  {
    FloatMembers(InOrderValues(le, members))
  }

  lemma OrderedMembersAt(le: MemberOrder, members: seq<Entry<Json>>, i: nat)
    requires i < |members|
    ensures OrderedMembers(le, members)[i] == Entry(members[i].key, Ordered(le, members[i].value))
  {
    InOrderValuesAt(le, members, i);
    FloatMembersAt(InOrderValues(le, members), i);
  }

  lemma OrderedMembersDistinct(le: MemberOrder, members: seq<Entry<Json>>)
    requires DistinctKeys(members)
    ensures Distinct(OrderedMembers(le, members))
  {
    var r := OrderedMembers(le, members);
    forall i, j | 0 <= i < j < |r| ensures r[i] != r[j] {
      OrderedMembersAt(le, members, i);
      OrderedMembersAt(le, members, j);
    }
  }

  lemma UntiedNames(le: MemberOrder, members: seq<Entry<Json>>, r: seq<Entry<Json>>)
    requires ByName(le) && Untied(le, members)
    requires |r| == |members| && forall i :: 0 <= i < |r| ==> r[i].key == members[i].key
    ensures Untied(le, r)
  {
    forall i, j | 0 <= i < j < |r| ensures !(le(r[i], r[j]) && le(r[j], r[i])) {
      SameNamesCompare(le, members[i], members[j], r[i], r[j]);
    }
  }

  lemma UntiedAntisymmetric(le: MemberOrder, r: seq<Entry<Json>>)
    requires Untied(le, r)
    ensures AntisymmetricOn(le, r)
  {
  }

  lemma SameNamesCompare(le: MemberOrder, a: Entry<Json>, b: Entry<Json>, c: Entry<Json>, d: Entry<Json>)
    requires ByName(le) && a.key == c.key && b.key == d.key
    ensures le(a, b) == le(c, d) && le(b, a) == le(d, c)
  {
  }

  lemma UntiedIsAntisymmetric(le: MemberOrder, members: seq<Entry<Json>>)
    requires ByName(le) && Untied(le, members)
    ensures AntisymmetricOn(le, OrderedMembers(le, members))
  {
    var r := OrderedMembers(le, members);
    forall i | 0 <= i < |r| ensures r[i].key == members[i].key {
      OrderedMembersAt(le, members, i);
    }
    UntiedNames(le, members, r);
    UntiedAntisymmetric(le, r);
  }

  /** The same value has one ordered form, when no names tie. */
  lemma {:induction false} SameIsEqualOrdered(le: MemberOrder, v: Json, w: Json)
    requires WellFormed(v) && WellFormed(w) && Same(v, w)
    requires TotalPreorder(le) && ByName(le) && UntiedThroughout(le, v)
    ensures Ordered(le, v) == Ordered(le, w)
    decreases v, 1
  {
    match v
    case Num(n) => DecimalValueInjective(NumberValue(n), NumberValue(w.n));
    case Arr(items) =>
      var x, y := FloatItems(InOrderItems(le, items)), FloatItems(InOrderItems(le, w.items));
      forall i | 0 <= i < |items| ensures x[i] == y[i] {
        SameIsEqualOrdered(le, items[i], w.items[i]);
        InOrderItemsAt(le, items, i);
        InOrderItemsAt(le, w.items, i);
        FloatItemsAt(InOrderItems(le, items), i);
        FloatItemsAt(InOrderItems(le, w.items), i);
      }
      assert x == y;
    case Obj(ms) =>
      SameDictionaries(le, ms, w.members);
    case _ =>
  }

  lemma {:induction false} MemberOfSame(le: MemberOrder, ms: seq<Entry<Json>>, ns: seq<Entry<Json>>, i: nat)
    requires WellFormed(Obj(ms)) && WellFormed(Obj(ns)) && Same(Obj(ms), Obj(ns)) && i < |ms|
    requires TotalPreorder(le) && ByName(le) && UntiedThroughout(le, Obj(ms))
    ensures OrderedMembers(le, ms)[i] in OrderedMembers(le, ns)
    decreases ms, 0
  {
    assert HasName(ns, ms[i].key);
    var j :| 0 <= j < |ns| && ns[j].key == ms[i].key;
    assert ms[i] in ms && ns[j] in ns;
    SameIsEqualOrdered(le, ms[i].value, ns[j].value);
    OrderedMembersAt(le, ms, i);
    OrderedMembersAt(le, ns, j);
    assert OrderedMembers(le, ns)[j] == OrderedMembers(le, ms)[i];
  }

  lemma {:induction false} NameOfSame(le: MemberOrder, ms: seq<Entry<Json>>, ns: seq<Entry<Json>>, j: nat)
    requires WellFormed(Obj(ms)) && WellFormed(Obj(ns)) && Same(Obj(ms), Obj(ns)) && j < |ns|
    requires TotalPreorder(le) && ByName(le) && UntiedThroughout(le, Obj(ms))
    ensures OrderedMembers(le, ns)[j] in OrderedMembers(le, ms)
    decreases ms, 0
  {
    assert HasName(ms, ns[j].key);
    var i :| 0 <= i < |ms| && ms[i].key == ns[j].key;
    assert ms[i] in ms && ns[j] in ns;
    SameIsEqualOrdered(le, ms[i].value, ns[j].value);
    OrderedMembersAt(le, ms, i);
    OrderedMembersAt(le, ns, j);
    assert OrderedMembers(le, ms)[i] == OrderedMembers(le, ns)[j];
  }

  lemma {:induction false} OrderedMembersIn(le: MemberOrder, ms: seq<Entry<Json>>, ns: seq<Entry<Json>>)
    requires WellFormed(Obj(ms)) && WellFormed(Obj(ns)) && Same(Obj(ms), Obj(ns))
    requires TotalPreorder(le) && ByName(le) && UntiedThroughout(le, Obj(ms))
    ensures forall x :: x in OrderedMembers(le, ms) ==> x in OrderedMembers(le, ns)
    decreases ms, 1
  {
    var a := OrderedMembers(le, ms);
    forall x | x in a ensures x in OrderedMembers(le, ns) {
      var i :| 0 <= i < |a| && a[i] == x;
      MemberOfSame(le, ms, ns, i);
    }
  }

  lemma {:induction false} OrderedMembersFrom(le: MemberOrder, ms: seq<Entry<Json>>, ns: seq<Entry<Json>>)
    requires WellFormed(Obj(ms)) && WellFormed(Obj(ns)) && Same(Obj(ms), Obj(ns))
    requires TotalPreorder(le) && ByName(le) && UntiedThroughout(le, Obj(ms))
    ensures forall x :: x in OrderedMembers(le, ns) ==> x in OrderedMembers(le, ms)
    decreases ms, 1
  {
    var b := OrderedMembers(le, ns);
    forall x | x in b ensures x in OrderedMembers(le, ms) {
      var j :| 0 <= j < |b| && b[j] == x;
      NameOfSame(le, ms, ns, j);
    }
  }

  lemma {:induction false} SameDictionaryMembers(le: MemberOrder, ms: seq<Entry<Json>>, ns: seq<Entry<Json>>)
    requires WellFormed(Obj(ms)) && WellFormed(Obj(ns)) && Same(Obj(ms), Obj(ns))
    requires TotalPreorder(le) && ByName(le) && UntiedThroughout(le, Obj(ms))
    ensures multiset(OrderedMembers(le, ms)) == multiset(OrderedMembers(le, ns))
    decreases ms, 2
  {
    OrderedMembersIn(le, ms, ns);
    OrderedMembersFrom(le, ms, ns);
    OrderedMembersDistinct(le, ms);
    OrderedMembersDistinct(le, ns);
    DistinctSameElements(OrderedMembers(le, ms), OrderedMembers(le, ns));
  }

  /** A dictionary in order is its ordered members, sorted. */
  lemma OrderedDictionary(le: MemberOrder, members: seq<Entry<Json>>)
    requires ByName(le)
    ensures Ordered(le, Obj(members)) == Obj(Sort(le, OrderedMembers(le, members)))
  {
    SortFloat(le, InOrderValues(le, members));
  }

  lemma {:induction false} SameDictionaries(le: MemberOrder, ms: seq<Entry<Json>>, ns: seq<Entry<Json>>)
    requires WellFormed(Obj(ms)) && WellFormed(Obj(ns)) && Same(Obj(ms), Obj(ns))
    requires TotalPreorder(le) && ByName(le) && UntiedThroughout(le, Obj(ms))
    ensures Ordered(le, Obj(ms)) == Ordered(le, Obj(ns))
    decreases ms, 3
  {
    SameDictionaryMembers(le, ms, ns);
    UntiedIsAntisymmetric(le, ms);
    SortPermutation(le, OrderedMembers(le, ms), OrderedMembers(le, ns));
    OrderedDictionary(le, ms);
    OrderedDictionary(le, ns);
  }

  // ---- the canonical text ----

  lemma NameOrder()
    ensures TotalPreorder(KeyLe<Json>) && ByName(KeyLe<Json>)
  {
    KeyOrder<Json>();
  }

  /** No dictionary holds two names with the same UTF-16 code units. */
  ghost predicate ClearNames(v: Json) { UntiedThroughout(KeyLe<Json>, v) }

  lemma SerializeIsWrittenCanon(v: Json)
    requires Serializable(v)
    ensures Serialize(v) == Written(Canon(v))
  {
    InOrderSerializable(KeyLe<Json>, v);
    WrittenFloats(InOrder(KeyLe<Json>, v));
  }

  /** Equal canonical texts are equal values, always; equal values have equal texts when names are clear. */
  lemma SerializeEqualIffSame(v: Json, w: Json)
    requires WellFormed(v) && WellFormed(w) && Serializable(v) && Serializable(w)
    ensures Serialize(v) == Serialize(w) ==> Same(v, w)
    ensures ClearNames(v) && Same(v, w) ==> Serialize(v) == Serialize(w)
  {
    if Serialize(v) == Serialize(w) {
      CanonicalTextLoads(v);
      CanonicalTextLoads(w);
      EqualOrderedIsSame(KeyLe<Json>, v, w);
    }
    if ClearNames(v) && Same(v, w) {
      NameOrder();
      SameIsEqualOrdered(KeyLe<Json>, v, w);
      SerializeIsWrittenCanon(v);
      SerializeIsWrittenCanon(w);
    }
  }

  // ---- when the insertion order is immaterial ----

  ghost predicate WellFormedUnicode(s: Text) { forall i :: 0 <= i < |s| ==> !IsSurrogate(s[i]) }

  ghost predicate UnicodeNames(v: Json)
    decreases v
  {
    match v
    case Arr(items) => forall x :: x in items ==> UnicodeNames(x)
    case Obj(members) => forall m :: m in members ==> WellFormedUnicode(m.key) && UnicodeNames(m.value)
    case _ => true
  }

  /** Names without lone surrogates never tie. */
  lemma {:induction false} UnicodeNamesAreClear(v: Json)
    requires WellFormed(v) && UnicodeNames(v)
    ensures ClearNames(v)
    decreases v
  {
    match v
    case Arr(items) =>
      forall x | x in items ensures UntiedThroughout(KeyLe<Json>, x) { UnicodeNamesAreClear(x); }
    case Obj(members) =>
      forall m | m in members ensures UntiedThroughout(KeyLe<Json>, m.value) { UnicodeNamesAreClear(m.value); }
      forall i, j | 0 <= i < j < |members|
        ensures !(KeyLe(members[i], members[j]) && KeyLe(members[j], members[i]))
      {
        assert members[i] in members && members[j] in members;
        TiedKeys(members[i], members[j]);
        if Utf16(members[i].key) == Utf16(members[j].key) { Utf16Injective(members[i].key, members[j].key); }
      }
    case _ =>
  }

  ghost predicate DistinctUnits(members: seq<Entry<Json>>) {
    forall i, j :: 0 <= i < j < |members| ==> Utf16(members[i].key) != Utf16(members[j].key)
  }

  /** Every arrangement of the members gives the same text. */
  ghost predicate OrderImmaterial(members: seq<Entry<Json>>) {
    forall others :: multiset(others) == multiset(members) ==> Serialize(Obj(others)) == Serialize(Obj(members))
  }

  lemma OrderedHead(le: MemberOrder, x: Entry<Json>, rest: seq<Entry<Json>>)
    ensures OrderedMembers(le, [x] + rest) == [Entry(x.key, Ordered(le, x.value))] + OrderedMembers(le, rest)
  {
    assert ([x] + rest)[0] == x && ([x] + rest)[1..] == rest;
    var head, tail := Entry(x.key, InOrder(le, x.value)), InOrderValues(le, rest);
    assert InOrderValues(le, [x] + rest) == [head] + tail;
    assert ([head] + tail)[0] == head && ([head] + tail)[1..] == tail;
    assert FloatMembers([head] + tail) == [FloatMember(head)] + FloatMembers(tail);
    assert FloatMember(head) == Entry(x.key, Ordered(le, x.value));
  }

  lemma OrderedNames(le: MemberOrder, x: Entry<Json>, y: Entry<Json>, rest: seq<Entry<Json>>)
    ensures OrderedMembers(le, [x, y] + rest) ==
            [Entry(x.key, Ordered(le, x.value)), Entry(y.key, Ordered(le, y.value))] + OrderedMembers(le, rest)
  {
    var head, next := Entry(x.key, Ordered(le, x.value)), Entry(y.key, Ordered(le, y.value));
    TwoFirst(x, y, rest);
    OrderedHead(le, x, [y] + rest);
    OrderedHead(le, y, rest);
    TwoFirst(head, next, OrderedMembers(le, rest));
  }

  lemma TwoFirst<T>(x: T, y: T, rest: seq<T>)
    ensures [x] + ([y] + rest) == [x, y] + rest
  {
  }

  lemma PastHead<T>(le: (T, T) -> bool, x: T, head: T, s: seq<T>)
    requires !le(x, head)
    ensures Insert(le, x, [head] + s) == [head] + Insert(le, x, s)
    ensures ([head] + Insert(le, x, s))[1..] == Insert(le, x, s)
  {
    assert ([head] + s)[1..] == s;
  }

  /** Two different elements that tie keep the order they come in. */
  lemma {:induction false} TiedInsertsDiffer<T(!new)>(le: (T, T) -> bool, a: T, b: T, s: seq<T>)
    requires TotalPreorder(le) && a != b && le(a, b) && le(b, a)
    ensures Insert(le, a, Insert(le, b, s)) != Insert(le, b, Insert(le, a, s))
  {
    if s == [] || le(a, s[0]) {
      assert s == [] || le(b, s[0]);
      assert Insert(le, a, [b] + s)[0] == a && Insert(le, b, [a] + s)[0] == b;
    } else {
      assert !le(b, s[0]);
      TiedInsertsDiffer(le, a, b, s[1..]);
      PastHead(le, a, s[0], Insert(le, b, s[1..]));
      PastHead(le, b, s[0], Insert(le, a, s[1..]));
    }
  }

  lemma SortTwoFirst<T>(le: (T, T) -> bool, a: T, b: T, s: seq<T>)
    ensures Sort(le, [a, b] + s) == Insert(le, a, Insert(le, b, Sort(le, s)))
  {
    assert ([a, b] + s)[1..] == [b] + s && ([b] + s)[1..] == s;
  }

  lemma ArrangedFirst(members: seq<Entry<Json>>, i: nat, j: nat) returns (rest: seq<Entry<Json>>)
    requires i < j < |members|
    ensures multiset([members[i], members[j]] + rest) == multiset(members)
  {
    rest := members[..i] + members[i + 1..j] + members[j + 1..];
    assert members == members[..i] + [members[i]] + members[i + 1..j] + [members[j]] + members[j + 1..];
  }

  lemma TiedArrangementsDiffer(le: MemberOrder, x: Entry<Json>, y: Entry<Json>, rest: seq<Entry<Json>>)
    requires TotalPreorder(le) && ByName(le) && x.key != y.key && le(x, y) && le(y, x)
    ensures Ordered(le, Obj([x, y] + rest)) != Ordered(le, Obj([y, x] + rest))
  {
    var fx, fy := Entry(x.key, Ordered(le, x.value)), Entry(y.key, Ordered(le, y.value));
    var tail := OrderedMembers(le, rest);
    assert le(fx, fy) && le(fy, fx);
    OrderedDictionary(le, [x, y] + rest);
    OrderedDictionary(le, [y, x] + rest);
    OrderedNames(le, x, y, rest);
    OrderedNames(le, y, x, rest);
    SortTwoFirst(le, fx, fy, tail);
    SortTwoFirst(le, fy, fx, tail);
    TiedInsertsDiffer(le, fx, fy, Sort(le, tail));
  }

  lemma TiedNamesMatter(members: seq<Entry<Json>>, i: nat, j: nat)
    requires Serializable(Obj(members)) && WellFormed(Obj(members)) && i < j < |members|
    requires Utf16(members[i].key) == Utf16(members[j].key)
    ensures !OrderImmaterial(members)
  {
    var rest := ArrangedFirst(members, i, j);
    var a, b := [members[i], members[j]] + rest, [members[j], members[i]] + rest;
    TiedKeys(members[i], members[j]);
    NameOrder();
    TiedArrangementsDiffer(KeyLe<Json>, members[i], members[j], rest);
    assert multiset(b) == multiset(a);
    SerializesApart(members, a, b);
  }

  lemma SerializesApart(members: seq<Entry<Json>>, a: seq<Entry<Json>>, b: seq<Entry<Json>>)
    requires Serializable(Obj(members)) && WellFormed(Obj(members))
    requires multiset(a) == multiset(members) == multiset(b) && Canon(Obj(a)) != Canon(Obj(b))
    ensures !OrderImmaterial(members)
  {
    PermutedMembers(members, a);
    PermutedMembers(members, b);
    CanonicalTextLoads(Obj(a));
    CanonicalTextLoads(Obj(b));
  }

  lemma PermutedIsSame(members: seq<Entry<Json>>, others: seq<Entry<Json>>)
    requires Serializable(Obj(members)) && WellFormed(Obj(members)) && multiset(others) == multiset(members)
    ensures WellFormed(Obj(others)) && Serializable(Obj(others))
    ensures multiset(OrderedMembers(KeyLe<Json>, others)) == multiset(OrderedMembers(KeyLe<Json>, members))
  {
    PermutedMembers(members, others);
    OrderedPermuted(KeyLe<Json>, members, others);
  }

  lemma OrderedIn(le: MemberOrder, a: seq<Entry<Json>>, b: seq<Entry<Json>>, x: Entry<Json>)
    requires (forall m :: m in a ==> m in b) && x in OrderedMembers(le, a)
    ensures x in OrderedMembers(le, b)
  {
    var i :| 0 <= i < |a| && OrderedMembers(le, a)[i] == x;
    assert a[i] in b;
    var j :| 0 <= j < |b| && b[j] == a[i];
    OrderedMembersAt(le, a, i);
    OrderedMembersAt(le, b, j);
    assert OrderedMembers(le, b)[j] == x;
  }

  lemma OrderedPermuted(le: MemberOrder, a: seq<Entry<Json>>, b: seq<Entry<Json>>)
    requires DistinctKeys(a) && DistinctKeys(b) && forall m :: m in a <==> m in b
    ensures multiset(OrderedMembers(le, b)) == multiset(OrderedMembers(le, a))
  {
    forall x ensures x in OrderedMembers(le, a) <==> x in OrderedMembers(le, b) {
      if x in OrderedMembers(le, a) { OrderedIn(le, a, b, x); }
      if x in OrderedMembers(le, b) { OrderedIn(le, b, a, x); }
    }
    OrderedMembersDistinct(le, a);
    OrderedMembersDistinct(le, b);
    DistinctSameElements(OrderedMembers(le, a), OrderedMembers(le, b));
  }

  lemma ClearOrderImmaterial(members: seq<Entry<Json>>)
    requires Serializable(Obj(members)) && WellFormed(Obj(members)) && DistinctUnits(members)
    ensures OrderImmaterial(members)
  {
    var le := KeyLe<Json>;
    NameOrder();
    forall i, j | 0 <= i < j < |members|
      ensures !(le(members[i], members[j]) && le(members[j], members[i]))
    {
      TiedKeys(members[i], members[j]);
    }
    UntiedIsAntisymmetric(le, members);
    forall others | multiset(others) == multiset(members)
      ensures Serialize(Obj(others)) == Serialize(Obj(members))
    {
      PermutedIsSame(members, others);
      SortPermutation(le, OrderedMembers(le, members), OrderedMembers(le, others));
      OrderedDictionary(le, members);
      OrderedDictionary(le, others);
      SerializeIsWrittenCanon(Obj(members));
      SerializeIsWrittenCanon(Obj(others));
    }
  }

  /** The order of a dictionary's members is immaterial exactly when no two names share their UTF-16 form. */
  lemma OrderImmaterialIffDistinctUnits(members: seq<Entry<Json>>)
    requires Serializable(Obj(members)) && WellFormed(Obj(members))
    ensures OrderImmaterial(members) <==> DistinctUnits(members)
  {
    if DistinctUnits(members) {
      ClearOrderImmaterial(members);
    } else {
      var i, j :| 0 <= i < j < |members| && Utf16(members[i].key) == Utf16(members[j].key);
      TiedNamesMatter(members, i, j);
    }
  }

  /** A lone surrogate pair and the character it spells are different Python names with one UTF-16 form. */
  lemma SurrogatePairTies()
    ensures var members := [Entry([0xD83D, 0xDE00], Null), Entry([0x1F600], Bool(true))];
      WellFormed(Obj(members)) && !OrderImmaterial(members)
  {
    var members := [Entry([0xD83D, 0xDE00], Null), Entry([0x1F600], Bool(true))];
    var pair: Text, emoji: Text := [0xD83D, 0xDE00], [0x1F600];
    assert pair != emoji;
    assert Utf16(emoji) == [0xD83D, 0xDE00];
    assert pair[1..] == [0xDE00] && Utf16(pair) == [0xD83D, 0xDE00];
    assert members[0].key == pair && members[1].key == emoji;
    OrderImmaterialIffDistinctUnits(members);
  }
}
