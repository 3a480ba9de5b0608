/** Gate turnaround by the scans themselves: which scans make a passage, and which durations are recorded where. */
module GatePassages {
  import opened Wrappers
  import opened Sequences
  import opened Ordering
  import opened GateScans

  predicate SameGate(a: Scan, b: Scan) { a.truck == b.truck && a.terminal == b.terminal }

  /** Earlier, or at the same time with the smaller event id. */
  ghost predicate Before(a: Scan, b: Scan) {
    a.at < b.at || (a.at == b.at && a.eventId != b.eventId && TextPrecedes(a.eventId, b.eventId))
  }

  ghost predicate DistinctIds(scans: seq<Scan>) {
    forall i, j :: 0 <= i < j < |scans| ==> scans[i].eventId != scans[j].eventId
  }

  /** A truck comes in at a terminal and its next scan there is its going out. */
  ghost predicate IsPassage(scans: seq<Scan>, a: Scan, b: Scan) {
    && a in scans && b in scans && SameGate(a, b) && a.direction == In && b.direction == Out && Before(a, b)
    && forall c :: c in scans && SameGate(a, c) ==> !(Before(a, c) && Before(c, b))
  }

  lemma BeforeIs(a: Scan, b: Scan)
    ensures a.eventId != b.eventId ==> (ScanLe(a, b) <==> Before(a, b))
    ensures !(Before(a, b) && Before(b, a))
  {
    TextLeByPositions(a.eventId, b.eventId);
    TextLeByPositions(b.eventId, a.eventId);
    TextOrder();
  }

  /** In a strict order the neighbours are those with nothing between them. */
  ghost predicate Strict(t: seq<Scan>) {
    forall i, j :: 0 <= i < j < |t| ==> Before(t[i], t[j]) && !Before(t[j], t[i])
  }

  lemma NothingBetween(t: seq<Scan>, a: Scan, b: Scan)
    requires Strict(t)
    ensures Neighbours(t, a, b) <==>
            a in t && b in t && Before(a, b) && forall c :: c in t ==> !(Before(a, c) && Before(c, b))
  {
    if i, j :| 0 <= i && j == i + 1 < |t| && t[i] == a && t[j] == b {
      forall c | c in t ensures !(Before(a, c) && Before(c, b)) {
        var k :| 0 <= k < |t| && t[k] == c;
        BeforeIs(c, c);
      }
    }
    if a in t && b in t && Before(a, b) && forall c :: c in t ==> !(Before(a, c) && Before(c, b)) {
      var i :| 0 <= i < |t| && t[i] == a;
      var j :| 0 <= j < |t| && t[j] == b;
      BeforeIs(a, a);
      assert i < j;
      var k := i + 1;
      if k < j { assert t[k] in t; }
    }
  }

  lemma InTimeOrder(scans: seq<Scan>, key: Key, c: Scan)
    ensures c in TimeOrder(scans, key) <==> c in scans && (c.truck, c.terminal) == key
  {
    TimeOrderOf(scans, key);
    GroupCounts(scans, key, c);
    assert c in TimeOrder(scans, key) <==> multiset(TimeOrder(scans, key))[c] > 0;
    assert c in scans <==> multiset(scans)[c] > 0;
  }

  lemma TwiceIn(t: seq<Scan>, i: nat, j: nat)
    requires i < j < |t| && t[i] == t[j]
    ensures multiset(t)[t[i]] >= 2
  {
    assert t == t[..i] + [t[i]] + t[i + 1..j] + [t[j]] + t[j + 1..];
  }

  lemma OnceOnly(scans: seq<Scan>, c: Scan)
    requires DistinctIds(scans)
    ensures multiset(scans)[c] <= 1
  {
    assert Distinct(scans);
    OnceInDistinct(scans, c);
  }

  lemma TimeOrderStrict(scans: seq<Scan>, key: Key)
    requires DistinctIds(scans)
    ensures Strict(TimeOrder(scans, key))
  {
    var t := TimeOrder(scans, key);
    TimeOrderOf(scans, key);
    forall i, j | 0 <= i < j < |t| ensures Before(t[i], t[j]) && !Before(t[j], t[i]) {
      InTimeOrder(scans, key, t[i]);
      InTimeOrder(scans, key, t[j]);
      if t[i] == t[j] {
        TwiceIn(t, i, j);
        GroupCounts(scans, key, t[i]);
        OnceOnly(scans, t[i]);
      }
      var k :| 0 <= k < |scans| && scans[k] == t[i];
      var l :| 0 <= l < |scans| && scans[l] == t[j];
      assert k < l || l < k;
      BeforeIs(t[i], t[j]);
    }
  }

  lemma PairsOfKey(scans: seq<Scan>, key: Key, a: Scan, b: Scan)
    requires DistinctIds(scans)
    ensures (a, b) in Pairs(TimeOrder(scans, key)) <==> (a.truck, a.terminal) == key && IsPassage(scans, a, b)
  {
    var t := TimeOrder(scans, key);
    PairsAreNeighbours(t, a, b);
    TimeOrderStrict(scans, key);
    NothingBetween(t, a, b);
    forall c ensures c in t <==> c in scans && (c.truck, c.terminal) == key { InTimeOrder(scans, key, c); }
  }

  lemma InPairsNext(scans: seq<Scan>, keys: seq<Key>, p: Pair)
    requires keys != []
    ensures p in AllPairs(scans, keys) <==>
            p in AllPairs(scans, keys[..|keys| - 1]) || p in Pairs(TimeOrder(scans, keys[|keys| - 1]))
  {
  }

  ghost predicate PairedAt(scans: seq<Scan>, key: Key, p: Pair) { p in Pairs(TimeOrder(scans, key)) }

  ghost predicate SomeKey(paired: Key -> bool, keys: seq<Key>) { exists key :: key in keys && paired(key) }

  lemma SomeKeyNext(paired: Key -> bool, keys: seq<Key>)
    requires keys != []
    ensures SomeKey(paired, keys) <==> SomeKey(paired, keys[..|keys| - 1]) || paired(keys[|keys| - 1])
  {
    var front, last := keys[..|keys| - 1], keys[|keys| - 1];
    assert forall key :: key in keys <==> key in front || key == last;
  }

  lemma {:induction false} InAllPairs(scans: seq<Scan>, keys: seq<Key>, p: Pair, paired: Key -> bool)
    requires forall key :: paired(key) <==> PairedAt(scans, key, p)
    ensures p in AllPairs(scans, keys) <==> SomeKey(paired, keys)
    decreases |keys|
  {
    if keys != [] {
      InPairsNext(scans, keys, p);
      InAllPairs(scans, keys[..|keys| - 1], p, paired);
      SomeKeyNext(paired, keys);
      assert paired(keys[|keys| - 1]) <==> PairedAt(scans, keys[|keys| - 1], p);
    }
  }

  lemma AllPairsHold(scans: seq<Scan>, keys: seq<Key>, a: Scan, b: Scan)
    requires DistinctIds(scans)
    ensures (a, b) in AllPairs(scans, keys) <==> (a.truck, a.terminal) in keys && IsPassage(scans, a, b)
  {
    var passage := IsPassage(scans, a, b);
    var paired := key => PairedAt(scans, key, (a, b));
    InAllPairs(scans, keys, (a, b), paired);
    forall key ensures PairedAt(scans, key, (a, b)) <==> (a.truck, a.terminal) == key && passage {
      PairsOfKey(scans, key, a, b);
    }
  }

  /** The pairs are the passages. */
  lemma PairsArePassages(scans: seq<Scan>, a: Scan, b: Scan)
    requires DistinctIds(scans)
    ensures (a, b) in AllPairs(scans, KeysOf(scans)) <==> IsPassage(scans, a, b)
  {
    AllPairsHold(scans, KeysOf(scans), a, b);
    KeysMetOnce(scans);
    if a in scans { var i :| 0 <= i < |scans| && scans[i] == a; }
  }

  // ---- each passage once ----

  lemma AppendDistinct<T>(a: seq<T>, b: seq<T>)
    requires Distinct(a) && Distinct(b) && forall x :: x in a ==> x !in b
    ensures Distinct(a + b)
  {
    var all := a + b;
    forall i, j | 0 <= i < j < |all| ensures all[i] != all[j] {
      if i < |a| <= j { assert a[i] in a && b[j - |a|] in b; }
    }
  }

  lemma {:induction false} PairsDistinct(t: seq<Scan>)
    requires Strict(t)
    ensures Distinct(Pairs(t)) && forall p :: p in Pairs(t) ==> p.1 in t
  {
    if |t| >= 2 {
      var n := |t|;
      var front, last := t[..n - 1], (t[n - 2], t[n - 1]);
      PairsDistinct(front);
      BeforeIs(t[n - 1], t[n - 1]);
      assert t[n - 1] !in front;
      AppendDistinct(Pairs(front), [last]);
    }
  }

  lemma {:induction false} AllPairsDistinct(scans: seq<Scan>, keys: seq<Key>)
    requires DistinctIds(scans) && Distinct(keys)
    ensures Distinct(AllPairs(scans, keys))
  {
    if keys != [] {
      var front, last := keys[..|keys| - 1], keys[|keys| - 1];
      AllPairsDistinct(scans, front);
      TimeOrderStrict(scans, last);
      PairsDistinct(TimeOrder(scans, last));
      forall p: Pair | p in AllPairs(scans, front) ensures p !in Pairs(TimeOrder(scans, last)) {
        AllPairsHold(scans, front, p.0, p.1);
        PairsOfKey(scans, last, p.0, p.1);
        assert p == (p.0, p.1);
      }
      AppendDistinct(AllPairs(scans, front), Pairs(TimeOrder(scans, last)));
    }
  }

  // ---- the durations ----

  /** The times from in to out of the pairs whose scan going out names the port. */
  function Elapsed(pairs: seq<Pair>, port: Option<string>): seq<int> {
    Map((p: Pair) => p.1.at - p.0.at, Filter((p: Pair) => p.1.port == port, pairs))
  }

  lemma MapNext(f: Pair -> int, pairs: seq<Pair>, p: Pair)
    ensures Map(f, pairs + [p]) == Map(f, pairs) + [f(p)]
  {
  }

  lemma ElapsedNext(pairs: seq<Pair>, p: Pair, port: Option<string>)
    ensures Elapsed(pairs + [p], port) == Elapsed(pairs, port) + (if p.1.port == port then [p.1.at - p.0.at] else [])
  {
    FilterOneMore((p: Pair) => p.1.port == port, pairs, p);
    MapNext((p: Pair) => p.1.at - p.0.at, Filter((p: Pair) => p.1.port == port, pairs), p);
  }

  lemma {:induction false} PortDurationsAreElapsed(pairs: seq<Pair>, port: Option<string>)
    ensures PortDurations(pairs, port) == Elapsed(pairs, port)
  {
    if pairs != [] {
      var front, last := pairs[..|pairs| - 1], pairs[|pairs| - 1];
      PortDurationsAreElapsed(front, port);
      ElapsedNext(front, last, port);
      assert pairs == front + [last];
    }
  }

  /** These pairs are the passages, each once, and under each port are their times from in to out. */
  ghost predicate Records(durations: map<Option<string>, seq<int>>, scans: seq<Scan>, pairs: seq<Pair>) {
    && Distinct(pairs) && (forall a, b :: (a, b) in pairs <==> IsPassage(scans, a, b))
    && (forall port :: port in durations <==> Elapsed(pairs, port) != [])
    && (forall port :: port in durations ==> durations[port] == Elapsed(pairs, port))
  }

  /**
   * What is recorded for scans with distinct ids is, per port of the scan going out, the time of every passage
   * once.
   */
  lemma RecordedPassages(durations: map<Option<string>, seq<int>>, scans: seq<Scan>)
    requires DistinctIds(scans) && Holds(durations, AllPairs(scans, KeysOf(scans)))
    ensures exists pairs :: Records(durations, scans, pairs)
  {
    var pairs := AllPairs(scans, KeysOf(scans));
    KeysMetOnce(scans);
    AllPairsDistinct(scans, KeysOf(scans));
    forall a, b ensures (a, b) in pairs <==> IsPassage(scans, a, b) { PairsArePassages(scans, a, b); }
    forall port ensures PortDurations(pairs, port) == Elapsed(pairs, port) { PortDurationsAreElapsed(pairs, port); }
    assert Records(durations, scans, pairs);
  }
}
