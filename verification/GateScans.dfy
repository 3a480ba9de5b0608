/** Truck gate turnaround: gate-in scans paired with the gate-out scans that follow them. */
module GateScans {
  import opened Wrappers
  import opened Sequences
  import opened Ordering

  datatype Direction = In | Out
  datatype Scan = Scan(
    truck: string, terminal: string, port: Option<string>, direction: Direction, at: int, eventId: string)

  type Key = (string, string)
  type Pair = (Scan, Scan)

  function KeyOf(s: Scan): Key { (s.truck, s.terminal) }

  predicate ScanLe(a: Scan, b: Scan) { a.at < b.at || (a.at == b.at && TextLe(a.eventId, b.eventId)) }

  lemma ScanOrder()
    ensures TotalPreorder(ScanLe)
  {
    TextOrder();
  }

  /** The scans of one truck at one terminal, as they come. */
  function Group(scans: seq<Scan>, key: Key): seq<Scan> {
    if scans == [] then []
    else
      var front, last := scans[..|scans| - 1], scans[|scans| - 1];
      if KeyOf(last) == key then Group(front, key) + [last] else Group(front, key)
  }

  /** Their time order. */
  function TimeOrder(scans: seq<Scan>, key: Key): seq<Scan> { Sort(ScanLe, Group(scans, key)) }

  /** The adjacent in-then-out pairs of a list. */
  function Pairs(s: seq<Scan>): seq<Pair> {
    if |s| < 2 then []
    else
      var n := |s|;
      Pairs(s[..n - 1]) + (if s[n - 2].direction == In && s[n - 1].direction == Out then [(s[n - 2], s[n - 1])] else [])
  }

  function Duration(p: Pair): int { p.1.at - p.0.at }

  /** The durations of the pairs whose gate-out scan names the port. */
  function PortDurations(pairs: seq<Pair>, port: Option<string>): seq<int> {
    if pairs == [] then []
    else
      var front, last := pairs[..|pairs| - 1], pairs[|pairs| - 1];
      if last.1.port == port then PortDurations(front, port) + [Duration(last)] else PortDurations(front, port)
  }

  /** The trucks and terminals as first met. */
  function KeysOf(scans: seq<Scan>): seq<Key> {
    if scans == [] then []
    else
      var front, last := scans[..|scans| - 1], scans[|scans| - 1];
      if KeyOf(last) in KeysOf(front) then KeysOf(front) else KeysOf(front) + [KeyOf(last)]
  }

  /** The pairs of all trucks and terminals. */
  function AllPairs(scans: seq<Scan>, keys: seq<Key>): seq<Pair> {
    if keys == [] then [] else AllPairs(scans, keys[..|keys| - 1]) + Pairs(TimeOrder(scans, keys[|keys| - 1]))
  }

  ghost predicate Holds(durations: map<Option<string>, seq<int>>, pairs: seq<Pair>) {
    forall port :: (port in durations <==> PortDurations(pairs, port) != []) &&
                   (port in durations ==> durations[port] == PortDurations(pairs, port))
  }

  lemma OneMorePair(pairs: seq<Pair>, p: Pair, port: Option<string>)
    ensures PortDurations(pairs + [p], port) ==
            PortDurations(pairs, port) + (if p.1.port == port then [Duration(p)] else [])
  {
    assert (pairs + [p])[..|pairs|] == pairs;
  }

  function Recorded(durations: map<Option<string>, seq<int>>, port: Option<string>, d: int)
    : map<Option<string>, seq<int>>
  {
    durations[port := (if port in durations then durations[port] else []) + [d]]
  }

  lemma RecordedHolds(durations: map<Option<string>, seq<int>>, pairs: seq<Pair>, p: Pair)
    requires Holds(durations, pairs)
    ensures Holds(Recorded(durations, p.1.port, Duration(p)), pairs + [p])
  {
    forall port ensures PortDurations(pairs + [p], port) ==
                        PortDurations(pairs, port) + (if p.1.port == port then [Duration(p)] else [])
    {
      OneMorePair(pairs, p, port);
    }
  }

  // ---- the code ----

  ghost predicate Grouped(grouped: map<Key, seq<Scan>>, keys: seq<Key>, scans: seq<Scan>) {
    && keys == KeysOf(scans) && (forall k :: k in grouped <==> k in keys)
    && (forall k :: k in keys ==> grouped[k] == Group(scans, k))
  }

  function Added(grouped: map<Key, seq<Scan>>, scan: Scan): map<Key, seq<Scan>> {
    grouped[KeyOf(scan) := (if KeyOf(scan) in grouped then grouped[KeyOf(scan)] else []) + [scan]]
  }

  lemma AddedGrouped(grouped: map<Key, seq<Scan>>, keys: seq<Key>, scans: seq<Scan>, scan: Scan)
    requires Grouped(grouped, keys, scans)
    ensures Grouped(Added(grouped, scan), if KeyOf(scan) in keys then keys else keys + [KeyOf(scan)], scans + [scan])
  {
    var key := KeyOf(scan);
    assert (scans + [scan])[..|scans|] == scans;
    if key !in keys { NoGroup(scans, key); }
    forall k | k in keys || k == key
      ensures Added(grouped, scan)[k] == Group(scans + [scan], k)
    {
    }
  }

  method AddScan(grouped: map<Key, seq<Scan>>, keys: seq<Key>, scan: Scan, ghost scans: seq<Scan>)
    returns (grouped': map<Key, seq<Scan>>, keys': seq<Key>)
    requires Grouped(grouped, keys, scans)
    ensures Grouped(grouped', keys', scans + [scan])
  {
    AddedGrouped(grouped, keys, scans, scan);
    keys' := if KeyOf(scan) in grouped then keys else keys + [KeyOf(scan)];
    grouped' := Added(grouped, scan);
  }

  method GroupScans(scans: seq<Scan>) returns (grouped: map<Key, seq<Scan>>, keys: seq<Key>)
    ensures Grouped(grouped, keys, scans)
    ensures Distinct(keys) && forall i :: 0 <= i < |scans| ==> KeyOf(scans[i]) in keys
  {
    grouped, keys := map[], [];
    for i := 0 to |scans|
      invariant Grouped(grouped, keys, scans[..i])
    {
      assert scans[..i + 1] == scans[..i] + [scans[i]];
      grouped, keys := AddScan(grouped, keys, scans[i], scans[..i]);
    }
    assert scans[..|scans|] == scans;
    KeysMetOnce(scans);
  }

  /** Every scan is in the group of its key and in no other. */
  lemma {:induction false} GroupCounts(scans: seq<Scan>, key: Key, s: Scan)
    ensures multiset(Group(scans, key))[s] == if KeyOf(s) == key then multiset(scans)[s] else 0
  {
    if scans != [] {
      var front, last := scans[..|scans| - 1], scans[|scans| - 1];
      GroupCounts(front, key, s);
      assert multiset(scans) == multiset(front) + multiset{last} by { assert scans == front + [last]; }
    }
  }

  /** Every key is met once. */
  lemma {:induction false} KeysMetOnce(scans: seq<Scan>)
    ensures Distinct(KeysOf(scans))
    ensures forall i :: 0 <= i < |scans| ==> KeyOf(scans[i]) in KeysOf(scans)
  {
    if scans != [] {
      var front, last := scans[..|scans| - 1], scans[|scans| - 1];
      KeysMetOnce(front);
      assert scans == front + [last];
    }
  }

  lemma {:induction false} NoGroup(scans: seq<Scan>, key: Key)
    requires key !in KeysOf(scans)
    ensures Group(scans, key) == []
  {
    if scans != [] {
      NoGroup(scans[..|scans| - 1], key);
    }
  }

  /** The scan before position `i` when it is a gate-in. */
  function OpenIn(s: seq<Scan>, i: nat): Option<Scan>
    requires i <= |s|
  {
    if i > 0 && s[i - 1].direction == In then Some(s[i - 1]) else None
  }

  lemma NextPairs(s: seq<Scan>, i: nat)
    requires i < |s|
    ensures Pairs(s[..i + 1]) ==
            if s[i].direction == Out && OpenIn(s, i).Some? then Pairs(s[..i]) + [(OpenIn(s, i).value, s[i])]
            else Pairs(s[..i])
  {
    assert s[..i + 1][..i] == s[..i];
  }

  /** What one more scan of a time order adds to the durations. */
  lemma PairStep(durations: map<Option<string>, seq<int>>, before: seq<Pair>, s: seq<Scan>, i: nat)
    requires i < |s| && Sorted(ScanLe, s) && Holds(durations, before + Pairs(s[..i]))
    ensures s[i].direction == Out && OpenIn(s, i).Some? ==>
              var elapsed := s[i].at - OpenIn(s, i).value.at;
              elapsed >= 0 && Holds(Recorded(durations, s[i].port, elapsed), before + Pairs(s[..i + 1]))
    ensures s[i].direction == In || OpenIn(s, i).None? ==> Holds(durations, before + Pairs(s[..i + 1]))
  {
    NextPairs(s, i);
    if s[i].direction == Out && OpenIn(s, i).Some? {
      var p := (OpenIn(s, i).value, s[i]);
      assert ScanLe(s[i - 1], s[i]);
      RecordedHolds(durations, before + Pairs(s[..i]), p);
      assert before + Pairs(s[..i + 1]) == before + Pairs(s[..i]) + [p];
    }
  }

  /** The pairing loop over one time order. */
  method PairScans(ordered: seq<Scan>, start: map<Option<string>, seq<int>>, ghost before: seq<Pair>)
    returns (durations: map<Option<string>, seq<int>>)
    requires Sorted(ScanLe, ordered) && Holds(start, before)
    ensures Holds(durations, before + Pairs(ordered))
  {
    durations := start;
    var openIn: Option<Scan> := None;
    assert before + Pairs(ordered[..0]) == before;
    for i := 0 to |ordered|
      invariant openIn == OpenIn(ordered, i) && Holds(durations, before + Pairs(ordered[..i]))
    {
      var scan := ordered[i];
      PairStep(durations, before, ordered, i);
      if scan.direction == In {
        openIn := Some(scan);
      } else if openIn.Some? {
        var elapsed := scan.at - openIn.value.at;
        if elapsed >= 0 { durations := Recorded(durations, scan.port, elapsed); }
        openIn := None;
      }
    }
    assert ordered[..|ordered|] == ordered;
  }

  /** `_gate_durations_minutes`: per port, the durations of exactly the adjacent in-then-out pairs. */
  method GateDurations(scans: seq<Scan>) returns (durations: map<Option<string>, seq<int>>)
    ensures Holds(durations, AllPairs(scans, KeysOf(scans)))
  {
    var grouped, keys := GroupScans(scans);
    durations := map[];
    for i := 0 to |keys|
      invariant Holds(durations, AllPairs(scans, keys[..i]))
    {
      assert keys[i] in keys;
      var ordered := Sort(ScanLe, grouped[keys[i]]);
      TimeOrderOf(scans, keys[i]);
      NextKey(scans, keys, i);
      durations := PairScans(ordered, durations, AllPairs(scans, keys[..i]));
    }
    assert keys[..|keys|] == keys;
  }

  lemma NextKey(scans: seq<Scan>, keys: seq<Key>, i: nat)
    requires i < |keys|
    ensures AllPairs(scans, keys[..i + 1]) == AllPairs(scans, keys[..i]) + Pairs(TimeOrder(scans, keys[i]))
  {
    assert keys[..i + 1][..i] == keys[..i];
  }

  // ---- what the pairs are ----

  ghost predicate Neighbours(s: seq<Scan>, a: Scan, b: Scan) {
    exists i, j :: 0 <= i && j == i + 1 < |s| && s[i] == a && s[j] == b
  }

  lemma NeighboursStep(front: seq<Scan>, u: Scan, v: Scan, a: Scan, b: Scan)
    ensures Neighbours(front + [u, v], a, b) <==> Neighbours(front + [u], a, b) || (u == a && v == b)
  {
    var s, t, n := front + [u, v], front + [u], |front|;
    if i, j :| 0 <= i && j == i + 1 < |t| && t[i] == a && t[j] == b { assert s[i] == a && s[j] == b; }
    if u == a && v == b {
      var m := n + 1;
      assert s[n] == a && s[m] == b;
    }
    if i, j :| 0 <= i && j == i + 1 < |s| && s[i] == a && s[j] == b {
      if j < |t| { assert t[i] == a && t[j] == b; }
    }
  }

  /** The pairs are the neighbours in then out. */
  lemma {:induction false} PairsAreNeighbours(s: seq<Scan>, a: Scan, b: Scan)
    ensures (a, b) in Pairs(s) <==> a.direction == In && b.direction == Out && Neighbours(s, a, b)
  {
    if |s| >= 2 {
      var n := |s|;
      var front, u, v := s[..n - 2], s[n - 2], s[n - 1];
      PairsAreNeighbours(s[..n - 1], a, b);
      NeighboursStep(front, u, v, a, b);
      assert s == front + [u, v] && s[..n - 1] == front + [u];
    }
  }

  /** No duration is negative, and those of one truck and terminal add up to at most its span. */
  lemma {:induction false} DurationsWithinSpan(s: seq<Scan>)
    requires Sorted(ScanLe, s) && s != []
    ensures forall p :: p in Pairs(s) ==> Duration(p) >= 0
    ensures Sum(Map(Duration, Pairs(s))) <= s[|s| - 1].at - s[0].at
  {
    if |s| > 1 {
      var n := |s|;
      var front, p := s[..n - 1], (s[n - 2], s[n - 1]);
      DurationsWithinSpan(front);
      assert ScanLe(s[n - 2], s[n - 1]);
      if s[n - 2].direction == In && s[n - 1].direction == Out {
        assert Pairs(s) == Pairs(front) + [p];
        MapOneMore(Pairs(front), p);
      } else {
        assert Pairs(s) == Pairs(front);
      }
    }
  }

  lemma MapOneMore(pairs: seq<Pair>, p: Pair)
    ensures Sum(Map(Duration, pairs + [p])) == Sum(Map(Duration, pairs)) + Duration(p)
  {
    assert Map(Duration, pairs + [p]) == Map(Duration, pairs) + [Duration(p)];
    SumAppend(Map(Duration, pairs), [Duration(p)]);
  }

  /** The time order of a truck and terminal is sorted and has exactly its scans. */
  lemma TimeOrderOf(scans: seq<Scan>, key: Key)
    ensures Sorted(ScanLe, TimeOrder(scans, key))
    ensures multiset(TimeOrder(scans, key)) == multiset(Group(scans, key))
  {
    ScanOrder();
    SortSorted(ScanLe, Group(scans, key));
  }

  /** All durations together: as many as there are pairs, each under one port. */
  lemma {:induction false} EveryPairUnderItsPort(pairs: seq<Pair>, ports: seq<Option<string>>)
    requires Distinct(ports) && forall p :: p in pairs ==> p.1.port in ports
    ensures TotalCount(pairs, ports) == |pairs|
  {
    if pairs == [] {
      NoDurations(ports);
    } else {
      var front, last := pairs[..|pairs| - 1], pairs[|pairs| - 1];
      assert pairs == front + [last] && last in pairs;
      assert forall p :: p in front ==> p in pairs;
      EveryPairUnderItsPort(front, ports);
      CountOneMore(front, last, ports);
    }
  }

  function TotalCount(pairs: seq<Pair>, ports: seq<Option<string>>): nat {
    if ports == [] then 0
    else TotalCount(pairs, ports[..|ports| - 1]) + |PortDurations(pairs, ports[|ports| - 1])|
  }

  lemma {:induction false} NoDurations(ports: seq<Option<string>>)
    ensures TotalCount([], ports) == 0
  {
    if ports != [] { NoDurations(ports[..|ports| - 1]); }
  }

  lemma {:induction false} CountOneMore(pairs: seq<Pair>, p: Pair, ports: seq<Option<string>>)
    requires Distinct(ports)
    ensures TotalCount(pairs + [p], ports) == TotalCount(pairs, ports) + (if p.1.port in ports then 1 else 0)
  {
    if ports != [] {
      var front, last := ports[..|ports| - 1], ports[|ports| - 1];
      assert ports == front + [last];
      CountOneMore(pairs, p, front);
      OneMorePair(pairs, p, last);
    }
  }
}
