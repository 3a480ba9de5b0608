/** KPI value rows: at least one for every KPI and port, observations once and unchanged, gaps explicit. */
module KpiRows {
  import opened Wrappers
  import opened Sequences
  import opened Ordering
  import opened PortCalls

  type Port = Option<string>

  datatype Kpi = Kpi(id: string, gap: bool)
  datatype Observation = Observation(
    port: Port, shipClass: Option<string>, percentile: Option<string>, value: real, count: nat)

  datatype Note = Plain | NoData | Gap
  datatype Row = Row(
    kpi: string, port: Port, shipClass: Option<string>, percentile: Option<string>, value: Option<real>, count: nat,
    note: Note)

  // ---- ports ----

  /** The port codes seen, in order; a single absent port when none was. */
  ghost predicate AreDiscovered(ports: seq<Port>, seen: set<Port>) {
    && Distinct(ports)
    && (if seen - {None} == {} then ports == [None]
        else forall p :: p in ports <==> p in seen && p != None)
  }

  lemma SameMembers(ordered: seq<string>, codes: set<string>)
    requires (set k | k in ordered) == codes
    ensures forall c :: c in ordered <==> c in codes
  {
    forall c ensures c in ordered <==> c in codes { assert c in ordered <==> c in (set k | k in ordered); }
  }

  function AsPorts(codes: seq<string>): (r: seq<Port>)
    ensures |r| == |codes| && forall i :: 0 <= i < |r| ==> r[i] == Some(codes[i])
  {
    seq(|codes|, i requires 0 <= i < |codes| => Some(codes[i]))
  }

  lemma PortInCodes(ordered: seq<string>, p: Port)
    ensures p in AsPorts(ordered) <==> p.Some? && p.value in ordered
  {
    if p.Some? && p.value in ordered {
      var i :| 0 <= i < |ordered| && ordered[i] == p.value;
      assert AsPorts(ordered)[i] == p;
    }
  }

  /** `discover_ports` on the ports of facts, scans and bookings. */
  method DiscoverPorts(facts: set<Port>, scans: set<Port>, bookings: set<Port>) returns (ports: seq<Port>)
    ensures AreDiscovered(ports, facts + scans + bookings)
    ensures forall i, j :: 0 <= i < j < |ports| ==>
              ports[i].Some? && ports[j].Some? && TextLe(ports[i].value, ports[j].value)
  {
    var seen := facts + scans + bookings - {None};
    var codes := set p | p in seen && p.Some? :: p.value;
    var ordered := SortedTexts(codes);
    SameMembers(ordered, codes);
    forall p ensures p in seen <==> p in AsPorts(ordered) {
      PortInCodes(ordered, p);
      if p in seen { assert p.Some? && p.value in codes; }
    }
    if ordered == [] { return [None]; }
    ports := AsPorts(ordered);
    assert ports[0] in ports && ports[0] in seen;
  }

  // ---- emission ----

  function Label(t: Option<string>): string { if t.Some? then t.value else "None" }

  predicate ObservationLe(a: Observation, b: Observation) {
    if Label(a.shipClass) != Label(b.shipClass) then TextLe(Label(a.shipClass), Label(b.shipClass))
    else TextLe(Label(a.percentile), Label(b.percentile))
  }

  /** The observations of one port, as they come. */
  function AtPort(observations: seq<Observation>, port: Port): seq<Observation> {
    if observations == [] then []
    else
      var front, last := AtPort(observations[..|observations| - 1], port), observations[|observations| - 1];
      if last.port == port then front + [last] else front
  }

  function ValueRow(kpi: Kpi, o: Observation): Row {
    Row(kpi.id, o.port, o.shipClass, o.percentile, Some(o.value), o.count, Plain)
  }

  function EmptyRow(kpi: Kpi, port: Port, note: Note): Row { Row(kpi.id, port, None, None, None, 0, note) }

  /** The rows of one KPI at one port. */
  function RowsAt(kpi: Kpi, port: Port, observations: seq<Observation>): seq<Row> {
    if kpi.gap then [EmptyRow(kpi, port, Gap)]
    else if AtPort(observations, port) == [] then [EmptyRow(kpi, port, NoData)]
    else Map((o: Observation) => ValueRow(kpi, o), Sort(ObservationLe, AtPort(observations, port)))
  }

  /** Rows for each item in turn. */
  function Spread<T>(at: T -> seq<Row>, items: seq<T>): seq<Row> {
    if items == [] then [] else Spread(at, items[..|items| - 1]) + at(items[|items| - 1])
  }

  /** The rows of one KPI at the ports in turn. */
  function RowsOf(kpi: Kpi, ports: seq<Port>, observations: seq<Observation>): seq<Row> {
    Spread(port => RowsAt(kpi, port, observations), ports)
  }

  type Observed = map<string, seq<Observation>>

  function Get(observed: Observed, id: string): seq<Observation> { if id in observed then observed[id] else [] }

  function AllRows(kpis: seq<Kpi>, ports: seq<Port>, observed: Observed): seq<Row> {
    Spread((kpi: Kpi) => RowsOf(kpi, ports, Get(observed, kpi.id)), kpis)
  }

  method Emitted(observations: seq<Observation>, port: Port) returns (r: seq<Observation>)
    ensures r == AtPort(observations, port)
  {
    r := [];
    for i := 0 to |observations|
      invariant r == AtPort(observations[..i], port)
    {
      assert observations[..i + 1][..i] == observations[..i];
      if observations[i].port == port { r := r + [observations[i]]; }
    }
    assert observations[..|observations|] == observations;
  }

  method EmitAt(kpi: Kpi, port: Port, observations: seq<Observation>) returns (rows: seq<Row>)
    ensures rows == RowsAt(kpi, port, observations)
  {
    if kpi.gap { return [EmptyRow(kpi, port, Gap)]; }
    var emitted := Emitted(observations, port);
    if emitted == [] { return [EmptyRow(kpi, port, NoData)]; }
    rows := [];
    var ordered := Sort(ObservationLe, emitted);
    for i := 0 to |ordered|
      invariant |rows| == i && forall k :: 0 <= k < i ==> rows[k] == ValueRow(kpi, ordered[k])
    {
      rows := rows + [ValueRow(kpi, ordered[i])];
    }
  }

  method EmitKpi(kpi: Kpi, ports: seq<Port>, observations: seq<Observation>) returns (rows: seq<Row>)
    ensures rows == RowsOf(kpi, ports, observations)
  {
    rows := [];
    for j := 0 to |ports|
      invariant rows == RowsOf(kpi, ports[..j], observations)
    {
      var more := EmitAt(kpi, ports[j], observations);
      assert ports[..j + 1][..j] == ports[..j];
      rows := rows + more;
    }
    assert ports[..|ports|] == ports;
  }

  /** `emit_value_rows` */
  method EmitValueRows(kpis: seq<Kpi>, ports: seq<Port>, observed: Observed) returns (rows: seq<Row>)
    ensures rows == AllRows(kpis, ports, observed)
  {
    rows := [];
    for i := 0 to |kpis|
      invariant rows == AllRows(kpis[..i], ports, observed)
    {
      var more := EmitKpi(kpis[i], ports, Get(observed, kpis[i].id));
      assert kpis[..i + 1][..i] == kpis[..i];
      rows := rows + more;
    }
    assert kpis[..|kpis|] == kpis;
  }

  // ---- what the rows hold ----

  /** One KPI at one port: at least one row, null exactly for a gap or where nothing was observed. */
  lemma RowsAtMeaning(kpi: Kpi, port: Port, observations: seq<Observation>)
    ensures RowsAt(kpi, port, observations) != []
    ensures forall r :: r in RowsAt(kpi, port, observations) ==> r.kpi == kpi.id
    ensures forall r :: r in RowsAt(kpi, port, observations) ==> r.port == port
    ensures forall r :: r in RowsAt(kpi, port, observations) ==>
              (r.value == None <==> kpi.gap || AtPort(observations, port) == [])
  {
    var at := AtPort(observations, port);
    var ordered := Sort(ObservationLe, at);
    AtPortHasPort(observations, port);
    SameElements(ordered, at);
    if !kpi.gap && at != [] {
      forall r | r in RowsAt(kpi, port, observations) ensures r.port == port && r.kpi == kpi.id && r.value.Some? {
        var i :| 0 <= i < |ordered| && r == ValueRow(kpi, ordered[i]);
        assert ordered[i] in ordered;
      }
    }
  }

  lemma {:induction false} AtPortHasPort(observations: seq<Observation>, port: Port)
    ensures forall o :: o in AtPort(observations, port) ==> o.port == port
  {
    if observations != [] { AtPortHasPort(observations[..|observations| - 1], port); }
  }

  lemma {:induction false} SpreadAt<T>(at: T -> seq<Row>, items: seq<T>, r: Row)
    ensures r in Spread(at, items) <==> exists j :: 0 <= j < |items| && r in at(items[j])
  {
    if items != [] {
      var front, last := items[..|items| - 1], items[|items| - 1];
      SpreadAt(at, front, r);
      if j :| 0 <= j < |front| && r in at(front[j]) { assert items[j] == front[j]; }
      if j :| 0 <= j < |items| && r in at(items[j]) {
        if j < |front| { assert front[j] == items[j]; }
      }
    }
  }

  lemma RowsOfAt(kpi: Kpi, ports: seq<Port>, observations: seq<Observation>, j: nat, r: Row)
    requires j < |ports| && r in RowsAt(kpi, ports[j], observations)
    ensures r in RowsOf(kpi, ports, observations)
  {
    var at := port => RowsAt(kpi, port, observations);
    assert r in at(ports[j]);
    SpreadAt(at, ports, r);
  }

  lemma AllRowsOf(kpis: seq<Kpi>, ports: seq<Port>, observed: Observed, i: nat, r: Row)
    requires i < |kpis| && r in RowsOf(kpis[i], ports, Get(observed, kpis[i].id))
    ensures r in AllRows(kpis, ports, observed)
  {
    var at := (kpi: Kpi) => RowsOf(kpi, ports, Get(observed, kpi.id));
    assert r in at(kpis[i]);
    SpreadAt(at, kpis, r);
  }

  /** Every KPI and discovered port has a row, null exactly for gap KPIs and where nothing was observed. */
  lemma EveryKpiAndPortHasRows(kpis: seq<Kpi>, ports: seq<Port>, observed: Observed, i: nat, j: nat) returns (r: Row)
    requires i < |kpis| && j < |ports|
    ensures r in AllRows(kpis, ports, observed) && r.kpi == kpis[i].id && r.port == ports[j]
    ensures r.value == None <==> kpis[i].gap || AtPort(Get(observed, kpis[i].id), ports[j]) == []
  {
    var observations := Get(observed, kpis[i].id);
    RowsAtMeaning(kpis[i], ports[j], observations);
    r := RowsAt(kpis[i], ports[j], observations)[0];
    assert r in RowsAt(kpis[i], ports[j], observations);
    RowsOfAt(kpis[i], ports, observations, j, r);
    AllRowsOf(kpis, ports, observed, i, r);
  }

  /** A row by its fields: of a gap, of nothing observed, or of an observation at the port. */
  ghost predicate IsRow(kpi: Kpi, port: Port, observations: seq<Observation>, r: Row) {
    if kpi.gap then r == Row(kpi.id, port, None, None, None, 0, Gap)
    else if forall o :: o in observations ==> o.port != port then r == Row(kpi.id, port, None, None, None, 0, NoData)
    else exists o :: o in observations && o.port == port
                     && r == Row(kpi.id, port, o.shipClass, o.percentile, Some(o.value), o.count, Plain)
  }

  lemma {:induction false} AtPortHolds(observations: seq<Observation>, port: Port, o: Observation)
    ensures o in AtPort(observations, port) <==> o in observations && o.port == port
  {
    AtPortCounts(observations, port, o);
    assert o in AtPort(observations, port) <==> multiset(AtPort(observations, port))[o] > 0;
    assert o in observations <==> multiset(observations)[o] > 0;
  }

  lemma RowsAtByFields(kpi: Kpi, port: Port, observations: seq<Observation>, r: Row)
    ensures r in RowsAt(kpi, port, observations) <==> IsRow(kpi, port, observations, r)
  {
    var at := AtPort(observations, port);
    var ordered := Sort(ObservationLe, at);
    forall o ensures o in at <==> o in observations && o.port == port { AtPortHolds(observations, port, o); }
    SameElements(ordered, at);
    if !kpi.gap && at != [] {
      assert at[0] in observations && at[0].port == port;
      var rows := RowsAt(kpi, port, observations);
      forall i | 0 <= i < |rows| ensures rows[i] == ValueRow(kpi, ordered[i]) && ordered[i] in at {
        assert ordered[i] in ordered;
      }
      if IsRow(kpi, port, observations, r) {
        var o :| o in observations && o.port == port
                 && r == Row(kpi.id, port, o.shipClass, o.percentile, Some(o.value), o.count, Plain);
        assert o in ordered;
        var i :| 0 <= i < |ordered| && ordered[i] == o;
        assert rows[i] == r;
      }
    }
  }

  /** The observations of a KPI, if it has any. */
  ghost predicate ObservationsAre(observed: Observed, id: string, observations: seq<Observation>) {
    if id in observed then observations == observed[id] else observations == []
  }

  /** A row of one of the KPIs at one of the ports. */
  ghost predicate IsRowOf(kpi: Kpi, ports: seq<Port>, observed: Observed, r: Row) {
    exists port, observations ::
      port in ports && ObservationsAre(observed, kpi.id, observations) && IsRow(kpi, port, observations, r)
  }

  lemma RowsOfKpi(kpi: Kpi, ports: seq<Port>, observed: Observed, r: Row)
    ensures r in RowsOf(kpi, ports, Get(observed, kpi.id)) <==> IsRowOf(kpi, ports, observed, r)
  {
    var observations := Get(observed, kpi.id);
    RowsOfByFields(kpi, ports, observations, r);
    assert ObservationsAre(observed, kpi.id, observations);
    forall other ensures ObservationsAre(observed, kpi.id, other) <==> other == observations {}
  }

  /** The rows that are emitted are, for each KPI and port, those that the fields say. */
  lemma RowsByFields(kpis: seq<Kpi>, ports: seq<Port>, observed: Observed, r: Row)
    ensures r in AllRows(kpis, ports, observed) <==> exists kpi :: kpi in kpis && IsRowOf(kpi, ports, observed, r)
  {
    var ofKpi := (kpi: Kpi) => RowsOf(kpi, ports, Get(observed, kpi.id));
    SpreadAt(ofKpi, kpis, r);
    forall kpi ensures r in ofKpi(kpi) <==> IsRowOf(kpi, ports, observed, r) {
      RowsOfKpi(kpi, ports, observed, r);
    }
    if kpi :| kpi in kpis && IsRowOf(kpi, ports, observed, r) {
      var i :| 0 <= i < |kpis| && kpis[i] == kpi;
      assert r in ofKpi(kpis[i]);
    }
  }

  lemma RowsOfByFields(kpi: Kpi, ports: seq<Port>, observations: seq<Observation>, r: Row)
    ensures r in RowsOf(kpi, ports, observations) <==>
            exists port :: port in ports && IsRow(kpi, port, observations, r)
  {
    var at := port => RowsAt(kpi, port, observations);
    SpreadAt(at, ports, r);
    forall port ensures r in at(port) <==> IsRow(kpi, port, observations, r) {
      RowsAtByFields(kpi, port, observations, r);
    }
    if port :| port in ports && IsRow(kpi, port, observations, r) {
      var j :| 0 <= j < |ports| && ports[j] == port;
      assert r in at(ports[j]);
    }
  }

  /** What a missing text is sorted as. */
  function Shown(t: Option<string>): string { match t case Some(text) => text case None => "None" }

  /** By ship class and then by percentile. */
  ghost predicate RowPrecedes(a: Row, b: Row) {
    if Shown(a.shipClass) == Shown(b.shipClass) then TextPrecedes(Shown(a.percentile), Shown(b.percentile))
    else TextPrecedes(Shown(a.shipClass), Shown(b.shipClass))
  }

  lemma ObservationOrder()
    ensures TotalPreorder(ObservationLe)
  {
    TextOrder();
  }

  /** The rows of one KPI at one port come by ship class and then by percentile. */
  lemma RowsInOrder(kpi: Kpi, port: Port, observations: seq<Observation>, i: nat, j: nat)
    requires i < j < |RowsAt(kpi, port, observations)|
    ensures RowPrecedes(RowsAt(kpi, port, observations)[i], RowsAt(kpi, port, observations)[j])
  {
    var ordered := Sort(ObservationLe, AtPort(observations, port));
    ObservationOrder();
    SortSorted(ObservationLe, AtPort(observations, port));
    var a, b := ordered[i], ordered[j];
    assert ObservationLe(a, b);
    TextLeByPositions(Label(a.shipClass), Label(b.shipClass));
    TextLeByPositions(Label(a.percentile), Label(b.percentile));
  }

  // ---- every observation once ----

  /** The observations at the ports in turn. */
  function Covered(observations: seq<Observation>, ports: seq<Port>): seq<Observation> {
    if ports == [] then []
    else Covered(observations, ports[..|ports| - 1]) + AtPort(observations, ports[|ports| - 1])
  }

  function WithValue(rows: seq<Row>): (r: seq<Row>)
    ensures forall row :: row in r <==> row in rows && row.value.Some?
  {
    Filter((row: Row) => row.value.Some?, rows)
  }

  lemma {:induction false} AtPortCounts(observations: seq<Observation>, port: Port, o: Observation)
    ensures multiset(AtPort(observations, port))[o] == if o.port == port then multiset(observations)[o] else 0
  {
    if observations != [] {
      var front, last := observations[..|observations| - 1], observations[|observations| - 1];
      AtPortCounts(front, port, o);
      assert multiset(observations) == multiset(front) + multiset{last} by { assert observations == front + [last]; }
    }
  }

  /** Over distinct ports an observation is covered as often as it was made when its port is among them, else never. */
  lemma {:induction false} CoveredCounts(observations: seq<Observation>, ports: seq<Port>, o: Observation)
    requires Distinct(ports)
    ensures multiset(Covered(observations, ports))[o] == if o.port in ports then multiset(observations)[o] else 0
  {
    if ports != [] {
      var front, last := ports[..|ports| - 1], ports[|ports| - 1];
      assert ports == front + [last];
      CoveredCounts(observations, front, o);
      AtPortCounts(observations, last, o);
    }
  }

  function ValueRows(kpi: Kpi, observations: seq<Observation>): seq<Row> {
    Map((o: Observation) => ValueRow(kpi, o), observations)
  }

  lemma ValueRowsAppend(kpi: Kpi, a: seq<Observation>, b: seq<Observation>)
    ensures ValueRows(kpi, a + b) == ValueRows(kpi, a) + ValueRows(kpi, b)
  {
  }

  lemma {:induction false} AllObserved(kpi: Kpi, observations: seq<Observation>)
    ensures WithValue(ValueRows(kpi, observations)) == ValueRows(kpi, observations)
  {
    var rows := ValueRows(kpi, observations);
    if observations != [] {
      AllObserved(kpi, observations[1..]);
      assert rows[1..] == ValueRows(kpi, observations[1..]);
      assert rows == [rows[0]] + rows[1..];
    }
  }

  lemma EmittedAtPort(kpi: Kpi, port: Port, observations: seq<Observation>)
    requires !kpi.gap
    ensures multiset(WithValue(RowsAt(kpi, port, observations))) == multiset(ValueRows(kpi, AtPort(observations, port)))
  {
    var at := AtPort(observations, port);
    if at != [] {
      AllObserved(kpi, Sort(ObservationLe, at));
      MapPermutation((o: Observation) => ValueRow(kpi, o), Sort(ObservationLe, at), at);
    } else {
      assert WithValue([EmptyRow(kpi, port, NoData)]) == WithValue([EmptyRow(kpi, port, NoData)][1..]);
    }
  }

  /** What is kept of two lists together is what is kept of each. */
  ghost predicate Splits(part: seq<Row> -> seq<Row>) {
    part([]) == [] && forall a, b :: part(a + b) == part(a) + part(b)
  }

  lemma MatchAppended(a: seq<Row>, b: seq<Row>, c: seq<Row>, d: seq<Row>)
    requires multiset(a) == multiset(b) && multiset(c) == multiset(d)
    ensures multiset(a + c) == multiset(b + d)
  {
  }

  lemma {:induction false} SpreadsMatch(part: seq<Row> -> seq<Row>, at: Port -> seq<Row>, values: Port -> seq<Row>,
                                       ports: seq<Port>)
    requires Splits(part) && forall port :: multiset(part(at(port))) == multiset(values(port))
    ensures multiset(part(Spread(at, ports))) == multiset(Spread(values, ports))
  {
    if ports != [] {
      var front, last := ports[..|ports| - 1], ports[|ports| - 1];
      SpreadsMatch(part, at, values, front);
      MatchAppended(part(Spread(at, front)), Spread(values, front), part(at(last)), values(last));
    }
  }

  lemma WithValueSplits()
    ensures Splits(WithValue)
  {
    forall a, b ensures WithValue(a + b) == WithValue(a) + WithValue(b) {
      FilterAppend((row: Row) => row.value.Some?, a, b);
    }
  }

  lemma {:induction false} CoveredSpread(kpi: Kpi, ports: seq<Port>, observations: seq<Observation>)
    ensures ValueRows(kpi, Covered(observations, ports)) ==
            Spread(port => ValueRows(kpi, AtPort(observations, port)), ports)
  {
    if ports != [] {
      var front, last := ports[..|ports| - 1], ports[|ports| - 1];
      CoveredSpread(kpi, front, observations);
      ValueRowsAppend(kpi, Covered(observations, front), AtPort(observations, last));
    }
  }

  /** The rows with a value, of one KPI that is no gap, are its covered observations, each once and unchanged. */
  lemma ObservationsEmittedOnce(kpi: Kpi, ports: seq<Port>, observations: seq<Observation>)
    requires !kpi.gap
    ensures multiset(WithValue(RowsOf(kpi, ports, observations))) ==
            multiset(ValueRows(kpi, Covered(observations, ports)))
  {
    var at, values := port => RowsAt(kpi, port, observations), port => ValueRows(kpi, AtPort(observations, port));
    forall port ensures multiset(WithValue(at(port))) == multiset(values(port)) {
      EmittedAtPort(kpi, port, observations);
    }
    WithValueSplits();
    SpreadsMatch(WithValue, at, values, ports);
    CoveredSpread(kpi, ports, observations);
  }

  /** An observation without a port code is covered exactly when no port code was seen at all. */
  lemma PortCovered(ports: seq<Port>, seen: set<Port>, p: Port)
    requires AreDiscovered(ports, seen)
    ensures p in ports <==> if p == None then seen - {None} == {} else p in seen
  {
    if p != None && p in seen { assert p in seen - {None}; }
    if q :| q in seen - {None} { assert q in ports; }
  }

  /** Rows tell observations apart. */
  lemma {:induction false} ValueRowCounts(kpi: Kpi, observations: seq<Observation>, o: Observation)
    ensures multiset(ValueRows(kpi, observations))[ValueRow(kpi, o)] == multiset(observations)[o]
  {
    if observations != [] {
      var front, last := observations[..|observations| - 1], observations[|observations| - 1];
      ValueRowCounts(kpi, front, o);
      assert observations == front + [last];
      ValueRowsAppend(kpi, front, [last]);
      assert ValueRows(kpi, [last]) == [ValueRow(kpi, last)];
    }
  }

  /**
   * An observation has as many rows as it was made when its port code was seen, or when it has none and no
   * code was seen at all. Every other observation has no row.
   */
  lemma RowsOfObservation(kpi: Kpi, ports: seq<Port>, seen: set<Port>, observations: seq<Observation>, o: Observation)
    requires !kpi.gap && AreDiscovered(ports, seen)
    ensures multiset(WithValue(RowsOf(kpi, ports, observations)))[
              Row(kpi.id, o.port, o.shipClass, o.percentile, Some(o.value), o.count, Plain)] ==
      if (o.port != None && o.port in seen) || (o.port == None && seen - {None} == {})
      then multiset(observations)[o] else 0
  {
    ObservationsEmittedOnce(kpi, ports, observations);
    ValueRowCounts(kpi, Covered(observations, ports), o);
    CoveredCounts(observations, ports, o);
    PortCovered(ports, seen, o.port);
  }

  /** One port code is enough to drop the observations that have none. */
  lemma PortlessObservations(kpi: Kpi, ports: seq<Port>, o: Observation, code: string)
    requires !kpi.gap && o.port == None && AreDiscovered(ports, {Some(code), None})
    ensures ValueRow(kpi, o) !in RowsOf(kpi, ports, [o])
  {
    var seen: set<Port> := {Some(code), None};
    assert Some(code) in seen - {None};
    RowsOfObservation(kpi, ports, seen, [o], o);
    assert ValueRow(kpi, o) !in WithValue(RowsOf(kpi, ports, [o]));
  }

  // ---- vessel calls ----

  const ACCEPTED_OR_BEYOND: set<Status> := {ACCEPTED, ARRIVED, BERTHED, DEPARTED, COMPLETED}

  type Counts = map<(string, Option<string>), nat>

  /** The accepted calls of a port, of one ship class or of all. */
  function Calls(facts: seq<Entry>, port: string, shipClass: Option<string>): nat {
    if facts == [] then 0
    else
      var front, last := facts[..|facts| - 1], facts[|facts| - 1];
      Calls(front, port, shipClass) +
      (if last.status in ACCEPTED_OR_BEYOND && last.port == port && (shipClass == None || last.fields.shipClass == shipClass)
       then 1 else 0)
  }

  ghost predicate CountsHold(counts: Counts, facts: seq<Entry>) {
    forall port, shipClass ::
      ((port, shipClass) in counts <==> Calls(facts, port, shipClass) > 0) &&
      ((port, shipClass) in counts ==> counts[(port, shipClass)] == Calls(facts, port, shipClass))
  }

  function Bumped(counts: Counts, key: (string, Option<string>)): Counts {
    counts[key := (if key in counts then counts[key] else 0) + 1]
  }

  lemma CallsNext(facts: seq<Entry>, e: Entry, port: string, shipClass: Option<string>)
    ensures Calls(facts + [e], port, shipClass) == Calls(facts, port, shipClass) +
      (if e.status in ACCEPTED_OR_BEYOND && e.port == port && (shipClass == None || e.fields.shipClass == shipClass)
       then 1 else 0)
  {
    assert (facts + [e])[..|facts|] == facts;
  }

  /** An accepted call of the port and, unless all classes count, of the class. */
  predicate CountsAs(e: Entry, port: string, shipClass: Option<string>) {
    && (e.status == ACCEPTED || e.status == ARRIVED || e.status == BERTHED || e.status == DEPARTED
        || e.status == COMPLETED)
    && e.port == port && (shipClass == None || e.fields.shipClass == shipClass)
  }

  /** The calls that count. */
  function Counted(facts: seq<Entry>, port: string, shipClass: Option<string>): seq<Entry> {
    Filter((e: Entry) => CountsAs(e, port, shipClass), facts)
  }

  lemma CountedNext(facts: seq<Entry>, e: Entry, port: string, shipClass: Option<string>)
    ensures |Counted(facts + [e], port, shipClass)| ==
            |Counted(facts, port, shipClass)| + (if CountsAs(e, port, shipClass) then 1 else 0)
  {
    FilterOneMore((e: Entry) => CountsAs(e, port, shipClass), facts, e);
  }

  lemma {:induction false} CallsAreCounted(facts: seq<Entry>, port: string, shipClass: Option<string>)
    ensures Calls(facts, port, shipClass) == |Counted(facts, port, shipClass)|
  {
    if facts != [] {
      var front, last := facts[..|facts| - 1], facts[|facts| - 1];
      CallsAreCounted(front, port, shipClass);
      assert facts == front + [last];
      CountedNext(front, last, port, shipClass);
    }
  }

  /** Under each port and class, and under each port alone, the number of calls that count there, if there are any. */
  ghost predicate CountsByFields(counts: Counts, facts: seq<Entry>) {
    forall port, shipClass ::
      ((port, shipClass) in counts <==> Counted(facts, port, shipClass) != []) &&
      ((port, shipClass) in counts ==> counts[(port, shipClass)] == |Counted(facts, port, shipClass)|)
  }

  lemma CountsAreByFields(counts: Counts, facts: seq<Entry>)
    requires CountsHold(counts, facts)
    ensures CountsByFields(counts, facts)
  {
    forall port, shipClass ensures Calls(facts, port, shipClass) == |Counted(facts, port, shipClass)| {
      CallsAreCounted(facts, port, shipClass);
    }
  }

  /** The counting loop of `vessel_calls`: a port's class-less count is all its accepted calls. */
  method CountVesselCalls(facts: seq<Entry>) returns (counts: Counts)
    ensures CountsHold(counts, facts) && CountsByFields(counts, facts)
  {
    counts := map[];
    for i := 0 to |facts|
      invariant CountsHold(counts, facts[..i])
    {
      var e := facts[i];
      assert facts[..i + 1] == facts[..i] + [e];
      if e.status in ACCEPTED_OR_BEYOND {
        counts := Bumped(counts, (e.port, e.fields.shipClass));
        if e.fields.shipClass != None { counts := Bumped(counts, (e.port, None)); }
      } else {
        forall port, shipClass ensures Calls(facts[..i + 1], port, shipClass) == Calls(facts[..i], port, shipClass) {
          CallsNext(facts[..i], e, port, shipClass);
        }
      }
    }
    assert facts[..|facts|] == facts;
    CountsAreByFields(counts, facts);
  }

  /** The class-less count of a port is the number of its accepted calls, whatever their classes. */
  lemma {:induction false} ClasslessIsAll(facts: seq<Entry>, port: string)
    ensures Calls(facts, port, None) == |Filter((e: Entry) => e.status in ACCEPTED_OR_BEYOND && e.port == port, facts)|
  {
    if facts != [] {
      var front, last := facts[..|facts| - 1], facts[|facts| - 1];
      ClasslessIsAll(front, port);
      assert facts == front + [last];
      FilterAppend((e: Entry) => e.status in ACCEPTED_OR_BEYOND && e.port == port, front, [last]);
      assert [last][1..] == [];
    }
  }
}
