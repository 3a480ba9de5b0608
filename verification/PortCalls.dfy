/** Port-call facts: lifecycle events of one call folded into its status, its fields and its month. */
module PortCalls {
  import opened Wrappers
  import opened Sequences
  import opened Ordering
  import opened Periods

  datatype Status = DRAFT | SUBMITTED | ACCEPTED | ARRIVED | BERTHED | DEPARTED | COMPLETED | REJECTED

  /** The time of an event, then its id. */
  datatype Order = Order(at: int, eventId: string)

  datatype Fields = Fields(
    vesselRef: Option<string>, shipClass: Option<string>, arrivedAt: Option<int>, berthedAt: Option<int>,
    departedAt: Option<int>, tonnage: Option<real>)

  datatype CallEvent = CallEvent(callId: string, port: string, status: Status, fields: Fields, order: Order)

  /** A silver row as decoded: of another type, a port-call event, or malformed. */
  datatype SilverRow = Other | Lifecycle(e: CallEvent) | Malformed

  datatype CallError = MalformedEvent | PortChanged(callId: string)

  datatype Entry = Entry(port: string, order: Order, status: Status, fields: Fields, sources: seq<string>)

  predicate OrderLe(a: Order, b: Order) { a.at < b.at || (a.at == b.at && TextLe(a.eventId, b.eventId)) }

  /** Earlier, or at the same time with an id that comes no later. */
  ghost predicate Comes(a: Order, b: Order) { a.at < b.at || (a.at == b.at && TextPrecedes(a.eventId, b.eventId)) }

  function Newer<T>(current: Option<T>, value: Option<T>): Option<T> { if value.Some? then value else current }

  function Overlay(a: Fields, b: Fields): Fields {
    Fields(Newer(a.vesselRef, b.vesselRef), Newer(a.shipClass, b.shipClass), Newer(a.arrivedAt, b.arrivedAt),
           Newer(a.berthedAt, b.berthedAt), Newer(a.departedAt, b.departedAt), Newer(a.tonnage, b.tonnage))
  }

  const NO_FIELDS := Fields(None, None, None, None, None, None)

  /** `setdefault` on the first event of a call. */
  function Opened(e: CallEvent): Entry { Entry(e.port, e.order, e.status, NO_FIELDS, []) }

  /** One event merged into the entry of its call. */
  function Merged(entry: Entry, e: CallEvent): Entry {
    var later := OrderLe(entry.order, e.order);
    Entry(entry.port, if later then e.order else entry.order, if later then e.status else entry.status,
          Overlay(entry.fields, e.fields), entry.sources + [e.order.eventId])
  }

  /** The entry that the events of one call, in row order, amount to. */
  function EntryOf(events: seq<CallEvent>): Entry
    requires events != []
  {
    var front, last := events[..|events| - 1], events[|events| - 1];
    Merged(if front == [] then Opened(last) else EntryOf(front), last)
  }

  /** The events of one call, in row order. */
  function EventsOf(rows: seq<SilverRow>, id: string): seq<CallEvent> {
    if rows == [] then []
    else
      var front, last := EventsOf(rows[..|rows| - 1], id), rows[|rows| - 1];
      if last.Lifecycle? && last.e.callId == id then front + [last.e] else front
  }

  predicate SamePort(a: SilverRow, b: SilverRow) {
    a.Lifecycle? && b.Lifecycle? && a.e.callId == b.e.callId ==> a.e.port == b.e.port
  }

  /** Every row decodes, and the events of each call name one port. */
  ghost predicate Consistent(rows: seq<SilverRow>) {
    && (forall i :: 0 <= i < |rows| ==> rows[i] != Malformed)
    && (forall i, j :: 0 <= i < j < |rows| ==> SamePort(rows[i], rows[j]))
  }

  // ---- the merge loop ----

  /** What the dictionary holds under an id is the entry of that call's events. */
  ghost predicate TracksCall(calls: map<string, Entry>, events: seq<CallEvent>, id: string) {
    if events == [] then id !in calls else id in calls && calls[id] == EntryOf(events)
  }

  ghost predicate Tracks(calls: map<string, Entry>, rows: seq<SilverRow>) {
    forall id :: TracksCall(calls, EventsOf(rows, id), id)
  }

  lemma {:induction false} EventsOfMeaning(rows: seq<SilverRow>, id: string, e: CallEvent)
    ensures e in EventsOf(rows, id) <==> Lifecycle(e) in rows && e.callId == id
  {
    if rows != [] {
      var front, last := rows[..|rows| - 1], rows[|rows| - 1];
      EventsOfMeaning(front, id, e);
      assert rows == front + [last];
    }
  }

  /** The entry keeps the port of the first event. */
  lemma {:induction false} EntryPort(events: seq<CallEvent>)
    requires events != []
    ensures EntryOf(events).port == events[0].port
  {
    if |events| > 1 {
      EntryPort(events[..|events| - 1]);
    }
  }

  /** The sources of the entry are the ids of its events, in row order. */
  lemma {:induction false} SourcesInRowOrder(events: seq<CallEvent>)
    requires events != []
    ensures var sources := EntryOf(events).sources;
      |sources| == |events| && forall i :: 0 <= i < |events| ==> sources[i] == events[i].order.eventId
  {
    if |events| > 1 { SourcesInRowOrder(events[..|events| - 1]); }
  }

  function Updated(calls: map<string, Entry>, e: CallEvent): map<string, Entry> {
    calls[e.callId := Merged(if e.callId in calls then calls[e.callId] else Opened(e), e)]
  }

  lemma EventsOfNext(rows: seq<SilverRow>, row: SilverRow, id: string)
    ensures EventsOf(rows + [row], id) ==
            if row.Lifecycle? && row.e.callId == id then EventsOf(rows, id) + [row.e] else EventsOf(rows, id)
  {
    assert (rows + [row])[..|rows|] == rows;
  }

  lemma EntryOfNext(events: seq<CallEvent>, e: CallEvent)
    ensures EntryOf(events + [e]) == Merged(if events == [] then Opened(e) else EntryOf(events), e)
  {
    assert (events + [e])[..|events|] == events;
  }

  lemma FirstEvent(rows: seq<SilverRow>, id: string) returns (i: nat)
    requires EventsOf(rows, id) != []
    ensures i < |rows| && rows[i] == Lifecycle(EventsOf(rows, id)[0]) && rows[i].e.callId == id
  {
    var e := EventsOf(rows, id)[0];
    assert e in EventsOf(rows, id);
    EventsOfMeaning(rows, id, e);
    i :| 0 <= i < |rows| && rows[i] == Lifecycle(e);
  }

  lemma ConsistentNext(rows: seq<SilverRow>, row: SilverRow)
    requires Consistent(rows)
    ensures Consistent(rows + [row]) <==>
            row != Malformed && (row.Lifecycle? && EventsOf(rows, row.e.callId) != [] ==>
                                   EntryOf(EventsOf(rows, row.e.callId)).port == row.e.port)
  {
    var all := rows + [row];
    if row.Lifecycle? && EventsOf(rows, row.e.callId) != [] {
      var events := EventsOf(rows, row.e.callId);
      EntryPort(events);
      var i := FirstEvent(rows, row.e.callId);
      assert all[i] == rows[i] && all[|rows|] == row;
      if events[0].port == row.e.port {
        forall j | 0 <= j < |rows| && rows[j].Lifecycle? && rows[j].e.callId == row.e.callId
          ensures rows[j].e.port == row.e.port
        {
          assert j < i || j == i || i < j;
        }
      }
    } else if row.Lifecycle? {
      forall j | 0 <= j < |rows| && rows[j].Lifecycle? ensures rows[j].e.callId != row.e.callId {
        EventsOfMeaning(rows, row.e.callId, rows[j].e);
        assert rows[j] in rows;
      }
    }
    assert all[|rows|] == row;
  }

  lemma StaysInconsistent(rows: seq<SilverRow>, n: nat)
    requires n <= |rows| && !Consistent(rows[..n])
    ensures !Consistent(rows)
  {
    var front := rows[..n];
    if i :| 0 <= i < n && front[i] == Malformed { assert rows[i] == Malformed; }
    if i, j :| 0 <= i < j < n && !SamePort(front[i], front[j]) { assert !SamePort(rows[i], rows[j]); }
  }

  /** A row that does not decode, or that names another port than an earlier event of its call. */
  ghost predicate IsWrong(before: seq<SilverRow>, row: SilverRow, error: CallError) {
    match error
    case MalformedEvent => row == Malformed
    case PortChanged(id) =>
      && row.Lifecycle? && row.e.callId == id
      && exists j :: 0 <= j < |before| && before[j].Lifecycle? && before[j].e.callId == id
                     && before[j].e.port != row.e.port
  }

  lemma PortWasOther(before: seq<SilverRow>, e: CallEvent)
    requires EventsOf(before, e.callId) != [] && EntryOf(EventsOf(before, e.callId)).port != e.port
    ensures IsWrong(before, Lifecycle(e), PortChanged(e.callId))
  {
    EntryPort(EventsOf(before, e.callId));
    var j := FirstEvent(before, e.callId);
  }

  /** What one more row makes of the merge. */
  lemma MergeStep(calls: map<string, Entry>, before: seq<SilverRow>, row: SilverRow)
    requires Consistent(before) && Tracks(calls, before)
    ensures row == Malformed ==> !Consistent(before + [row])
    ensures row == Other ==> Consistent(before + [row]) && Tracks(calls, before + [row])
    ensures row.Lifecycle? && row.e.callId in calls && calls[row.e.callId].port != row.e.port ==>
              !Consistent(before + [row]) && IsWrong(before, row, PortChanged(row.e.callId))
    ensures row.Lifecycle? && (row.e.callId in calls ==> calls[row.e.callId].port == row.e.port) ==>
              Consistent(before + [row]) && Tracks(Updated(calls, row.e), before + [row])
  {
    ConsistentNext(before, row);
    if row.Lifecycle? {
      var e := row.e;
      assert TracksCall(calls, EventsOf(before, e.callId), e.callId);
      if e.callId in calls && calls[e.callId].port != e.port { PortWasOther(before, e); }
      forall id ensures TracksCall(Updated(calls, e), EventsOf(before + [row], id), id) {
        assert TracksCall(calls, EventsOf(before, id), id);
        EventsOfNext(before, row, id);
        if id == e.callId { EntryOfNext(EventsOf(before, id), e); }
      }
    } else {
      forall id ensures TracksCall(calls, EventsOf(before + [row], id), id) {
        assert TracksCall(calls, EventsOf(before, id), id);
        EventsOfNext(before, row, id);
      }
    }
  }

  /** The merge of `assemble_port_call_facts`: it raises exactly when the rows are not consistent. */
  method MergeCalls(rows: seq<SilverRow>) returns (r: Result<map<string, Entry>, CallError>)
    ensures r.Ok? <==> Consistent(rows)
    ensures r.Ok? ==> Tracks(r.value, rows)
    ensures r.Err? ==> exists i :: 0 <= i < |rows| && Consistent(rows[..i]) && IsWrong(rows[..i], rows[i], r.error)
  {
    var calls: map<string, Entry> := map[];
    for i := 0 to |rows|
      invariant Consistent(rows[..i]) && Tracks(calls, rows[..i])
    {
      MergeStep(calls, rows[..i], rows[i]);
      assert rows[..i + 1] == rows[..i] + [rows[i]];
      match rows[i]
      case Other =>
      case Malformed =>
        StaysInconsistent(rows, i + 1);
        return Err(MalformedEvent);
      case Lifecycle(e) =>
        var entry := if e.callId in calls then calls[e.callId] else Opened(e);
        if entry.port != e.port {
          StaysInconsistent(rows, i + 1);
          return Err(PortChanged(e.callId));
        }
        calls := Updated(calls, e);
    }
    assert rows[..|rows|] == rows;
    return Ok(calls);
  }

  // ---- status ----

  ghost predicate DistinctIds(events: seq<CallEvent>) {
    forall i, j :: 0 <= i < j < |events| ==> events[i].order.eventId != events[j].order.eventId
  }

  /** `e` is the greatest event by time, then id. */
  ghost predicate IsLatest(events: seq<CallEvent>, e: CallEvent) {
    e in events && forall f :: f in events ==> Comes(f.order, e.order)
  }

  lemma OrderTotal(a: Order, b: Order, c: Order)
    ensures OrderLe(a, b) <==> Comes(a, b)
    ensures Comes(a, b) || Comes(b, a)
    ensures Comes(a, b) && Comes(b, c) ==> Comes(a, c)
    ensures Comes(a, b) && Comes(b, a) ==> a == b
  {
    OrderIs(a, b);
    OrderIs(b, a);
    OrderIs(b, c);
    OrderIs(a, c);
    TextOrder();
  }

  lemma OrderIs(a: Order, b: Order)
    ensures OrderLe(a, b) <==> Comes(a, b)
  {
    TextLeByPositions(a.eventId, b.eventId);
  }

  lemma LatestNext(front: seq<CallEvent>, f: CallEvent, last: CallEvent)
    requires front == [] || IsLatest(front, f)
    ensures IsLatest(front + [last], if front == [] || OrderLe(f.order, last.order) then last else f)
  {
    var e := if front == [] || OrderLe(f.order, last.order) then last else f;
    forall g | g in front + [last] ensures Comes(g.order, e.order) {
      OrderTotal(g.order, f.order, last.order);
      OrderTotal(f.order, last.order, last.order);
      OrderTotal(last.order, last.order, last.order);
    }
  }

  /** The entry holds the order and the status of a latest event. */
  lemma {:induction false} EntryIsOfLatest(events: seq<CallEvent>) returns (e: CallEvent)
    requires events != []
    ensures IsLatest(events, e) && EntryOf(events).order == e.order && EntryOf(events).status == e.status
  {
    var front, last := events[..|events| - 1], events[|events| - 1];
    assert events == front + [last];
    EntryOfNext(front, last);
    OrderTotal(last.order, last.order, last.order);
    if front == [] {
      e := last;
      LatestNext(front, last, last);
    } else {
      var f := EntryIsOfLatest(front);
      LatestNext(front, f, last);
      e := if OrderLe(f.order, last.order) then last else f;
    }
  }

  lemma LatestIsOne(events: seq<CallEvent>, e: CallEvent, f: CallEvent)
    requires DistinctIds(events) && IsLatest(events, e) && IsLatest(events, f)
    ensures e == f
  {
    OrderTotal(e.order, f.order, e.order);
    var i :| 0 <= i < |events| && events[i] == e;
    var j :| 0 <= j < |events| && events[j] == f;
    assert events[i].order.eventId == events[j].order.eventId;
  }

  /** With distinct event ids, the status is that of the greatest event by time and id. */
  lemma StatusIsOfLatest(events: seq<CallEvent>, e: CallEvent)
    requires DistinctIds(events) && IsLatest(events, e)
    ensures events != [] && EntryOf(events).status == e.status && EntryOf(events).order == e.order
  {
    var f := EntryIsOfLatest(events);
    LatestIsOne(events, e, f);
  }

  /** So it does not depend on the order the rows come in. */
  lemma StatusIgnoresRowOrder(a: seq<CallEvent>, b: seq<CallEvent>)
    requires a != [] && b != [] && DistinctIds(a) && multiset(a) == multiset(b)
    ensures EntryOf(a).status == EntryOf(b).status && EntryOf(a).order == EntryOf(b).order
  {
    SameElements(a, b);
    var e := EntryIsOfLatest(b);
    StatusIsOfLatest(a, e);
  }

  lemma CountNext<T>(s: seq<T>, x: T, y: T)
    ensures multiset(s + [x])[y] == multiset(s)[y] + (if x == y then 1 else 0)
  {
  }

  lemma {:induction false} EventCounts(rows: seq<SilverRow>, id: string, e: CallEvent)
    ensures multiset(EventsOf(rows, id))[e] == if e.callId == id then multiset(rows)[Lifecycle(e)] else 0
  {
    if rows != [] {
      var front, last := rows[..|rows| - 1], rows[|rows| - 1];
      EventCounts(front, id, e);
      assert rows == front + [last];
      EventsOfNext(front, last, id);
      CountNext(front, last, Lifecycle(e));
      if last.Lifecycle? { CountNext(EventsOf(front, id), last.e, e); }
    }
  }

  /** Reading the silver rows in another order gives every call the same status and order. */
  lemma CallIgnoresRowOrder(a: seq<SilverRow>, b: seq<SilverRow>, id: string)
    requires multiset(a) == multiset(b) && DistinctIds(EventsOf(a, id))
    ensures multiset(EventsOf(a, id)) == multiset(EventsOf(b, id)) && (EventsOf(a, id) == [] <==> EventsOf(b, id) == [])
    ensures EventsOf(a, id) != [] ==>
              EntryOf(EventsOf(a, id)).status == EntryOf(EventsOf(b, id)).status &&
              EntryOf(EventsOf(a, id)).order == EntryOf(EventsOf(b, id)).order
  {
    forall e ensures multiset(EventsOf(a, id))[e] == multiset(EventsOf(b, id))[e] {
      EventCounts(a, id, e);
      EventCounts(b, id, e);
    }
    assert |multiset(EventsOf(a, id))| == |EventsOf(a, id)| && |multiset(EventsOf(b, id))| == |EventsOf(b, id)|;
    if EventsOf(a, id) != [] { StatusIgnoresRowOrder(EventsOf(a, id), EventsOf(b, id)); }
  }

  // ---- fields ----

  /** The six fields an event may carry, and their values. */
  datatype Field = VesselRef | ShipClass | ArrivedAt | BerthedAt | DepartedAt | Tonnage
  datatype Value = Name(text: string) | Instant(at: int) | Amount(tons: real)

  function AsName(v: Option<string>): Option<Value> { if v.Some? then Some(Name(v.value)) else None }
  function AsInstant(v: Option<int>): Option<Value> { if v.Some? then Some(Instant(v.value)) else None }

  function ValueOf(f: Field, fields: Fields): Option<Value> {
    match f
    case VesselRef => AsName(fields.vesselRef)
    case ShipClass => AsName(fields.shipClass)
    case ArrivedAt => AsInstant(fields.arrivedAt)
    case BerthedAt => AsInstant(fields.berthedAt)
    case DepartedAt => AsInstant(fields.departedAt)
    case Tonnage => if fields.tonnage.Some? then Some(Amount(fields.tonnage.value)) else None
  }

  predicate Carries(e: CallEvent, f: Field) { ValueOf(f, e.fields).Some? }

  /** The last row that carries the field; the length when none does. */
  function LastCarrier(events: seq<CallEvent>, f: Field): (k: nat)
    ensures k <= |events| && (k < |events| ==> Carries(events[k], f))
    ensures forall i :: 0 <= i < |events| && Carries(events[i], f) ==> i <= k < |events|
  {
    if events == [] then 0
    else if Carries(events[|events| - 1], f) then |events| - 1
    else
      var k := LastCarrier(events[..|events| - 1], f);
      if k == |events| - 1 then |events| else k
  }

  /** Each field of the entry is that of the last row that carries it, whatever the times of the events. */
  lemma {:induction false} FieldsAreLastInRowOrder(events: seq<CallEvent>, f: Field)
    requires events != []
    ensures var k := LastCarrier(events, f);
      ValueOf(f, EntryOf(events).fields) == if k < |events| then ValueOf(f, events[k].fields) else None
  {
    if |events| > 1 { FieldsAreLastInRowOrder(events[..|events| - 1], f); }
  }

  /** The row of the most recent event, by time and id, that carries the field. */
  ghost predicate IsMostRecent(events: seq<CallEvent>, f: Field, k: nat) {
    && k < |events| && Carries(events[k], f)
    && forall i :: 0 <= i < |events| && Carries(events[i], f) ==> Comes(events[i].order, events[k].order)
  }

  /** The same orders, and the field carried by the same rows; the values may differ. */
  ghost predicate SameCarriers(a: seq<CallEvent>, b: seq<CallEvent>, f: Field) {
    |a| == |b| && forall i :: 0 <= i < |a| ==> a[i].order == b[i].order && (Carries(a[i], f) <==> Carries(b[i], f))
  }

  ghost predicate HoldsValueAt(events: seq<CallEvent>, f: Field, k: nat) {
    events != [] && k < |events| && ValueOf(f, EntryOf(events).fields) == ValueOf(f, events[k].fields)
  }

  lemma SameLastCarrier(a: seq<CallEvent>, b: seq<CallEvent>, f: Field)
    requires SameCarriers(a, b, f)
    ensures LastCarrier(a, f) == LastCarrier(b, f)
  {
    var k, l := LastCarrier(a, f), LastCarrier(b, f);
    assert k < |a| ==> Carries(b[k], f);
    assert l < |b| ==> Carries(a[l], f);
  }

  /** An event with one of two values in the field. */
  function Marked(e: CallEvent, f: Field, b: bool): CallEvent {
    var fields := match f
      case VesselRef => e.fields.(vesselRef := Some(if b then "a" else "b"))
      case ShipClass => e.fields.(shipClass := Some(if b then "a" else "b"))
      case ArrivedAt => e.fields.(arrivedAt := Some(if b then 0 else 1))
      case BerthedAt => e.fields.(berthedAt := Some(if b then 0 else 1))
      case DepartedAt => e.fields.(departedAt := Some(if b then 0 else 1))
      case Tonnage => e.fields.(tonnage := Some(if b then 0.0 else 1.0));
    e.(fields := fields)
  }

  lemma MarksDiffer(e: CallEvent, g: CallEvent, f: Field)
    ensures Carries(Marked(e, f, true), f) && Carries(Marked(g, f, false), f)
    ensures ValueOf(f, Marked(e, f, true).fields) != ValueOf(f, Marked(g, f, false).fields)
  {
  }

  /** Where the last carrier is another row, a value there hides the one wanted. */
  lemma OverwrittenAt(events: seq<CallEvent>, f: Field, recent: nat) returns (others: seq<CallEvent>)
    requires recent < |events| && Carries(events[recent], f) && LastCarrier(events, f) != recent
    ensures SameCarriers(events, others, f) && !HoldsValueAt(others, f, recent)
  {
    var k := LastCarrier(events, f);
    others := events[recent := Marked(events[recent], f, true)][k := Marked(events[k], f, false)];
    MarksDiffer(events[recent], events[k], f);
    MarkedCarries(events, others, f, recent, k);
    SameLastCarrier(events, others, f);
    FieldsAreLastInRowOrder(others, f);
  }

  lemma MarkedCarries(events: seq<CallEvent>, others: seq<CallEvent>, f: Field, i: nat, k: nat)
    requires i < |events| && k < |events| && i != k && Carries(events[i], f) && Carries(events[k], f)
    requires others == events[i := Marked(events[i], f, true)][k := Marked(events[k], f, false)]
    ensures SameCarriers(events, others, f)
  {
    MarksDiffer(events[i], events[k], f);
  }

  /**
   * Whatever values the rows carry, the entry holds the most recent one: this is so exactly when the last row
   * that carries the field is the most recent of them.
   */
  lemma FieldIsMostRecentIff(events: seq<CallEvent>, f: Field, recent: nat)
    requires IsMostRecent(events, f, recent)
    ensures (forall others :: SameCarriers(events, others, f) ==> HoldsValueAt(others, f, recent)) <==>
            LastCarrier(events, f) == recent
  {
    if LastCarrier(events, f) == recent {
      forall others | SameCarriers(events, others, f) ensures HoldsValueAt(others, f, recent) {
        SameLastCarrier(events, others, f);
        FieldsAreLastInRowOrder(others, f);
      }
    } else {
      var others := OverwrittenAt(events, f, recent);
      assert SameCarriers(events, others, f) && !HoldsValueAt(others, f, recent);
    }
  }

  ghost predicate InEventOrder(events: seq<CallEvent>) {
    forall i, j :: 0 <= i < j < |events| ==>
      Comes(events[i].order, events[j].order) && events[i].order != events[j].order
  }

  /** Of rows that come in event order, every field is the most recent value; None when no row carries it. */
  lemma EventOrderSuffices(events: seq<CallEvent>, f: Field)
    requires events != [] && InEventOrder(events)
    ensures forall k: nat :: IsMostRecent(events, f, k) ==> HoldsValueAt(events, f, k)
    ensures (forall k: nat :: !IsMostRecent(events, f, k)) ==> ValueOf(f, EntryOf(events).fields) == None
  {
    var last := LastCarrier(events, f);
    FieldsAreLastInRowOrder(events, f);
    if last < |events| {
      forall i | 0 <= i < |events| && Carries(events[i], f) ensures Comes(events[i].order, events[last].order) {
        OrderTotal(events[i].order, events[i].order, events[i].order);
      }
      assert IsMostRecent(events, f, last);
      forall k: nat | IsMostRecent(events, f, k) ensures k == last {
        OrderTotal(events[k].order, events[last].order, events[k].order);
      }
    }
  }

  /** Out of event order the field is not the most recent value, unlike the status. */
  lemma LateRowOverwritesField()
    ensures var first := CallEvent("c", "NGLOS", ARRIVED, NO_FIELDS.(arrivedAt := Some(200)), Order(20, "b"));
      var second := CallEvent("c", "NGLOS", SUBMITTED, NO_FIELDS.(arrivedAt := Some(100)), Order(10, "a"));
      && EntryOf([first, second]).status == ARRIVED && EntryOf([first, second]).fields.arrivedAt == Some(100)
      && IsMostRecent([first, second], ArrivedAt, 0) && LastCarrier([first, second], ArrivedAt) == 1
  {
    var first := CallEvent("c", "NGLOS", ARRIVED, NO_FIELDS.(arrivedAt := Some(200)), Order(20, "b"));
    var second := CallEvent("c", "NGLOS", SUBMITTED, NO_FIELDS.(arrivedAt := Some(100)), Order(10, "a"));
    assert [first, second][..1] == [first] && [first][..0] == [];
    assert EntryOf([first]) == Merged(Opened(first), first);
    OrderTotal(first.order, first.order, first.order);
    TextOrder();
  }

  // ---- facts of a period ----

  /** The time a call is attributed by: its arrival, else its latest event. */
  function Attributable(entry: Entry): int {
    if entry.fields.arrivedAt.Some? then entry.fields.arrivedAt.value else entry.order.at
  }

  datatype Fact = Fact(callId: string, entry: Entry)

  function FactList(calls: map<string, Entry>, ids: seq<string>, bounds: (int, int)): seq<Fact>
    requires forall id :: id in ids ==> id in calls
  {
    if ids == [] then []
    else
      var front, last := ids[..|ids| - 1], ids[|ids| - 1];
      assert forall id :: id in front ==> id in ids;
      if Within(Attributable(calls[last]), bounds) then FactList(calls, front, bounds) + [Fact(last, calls[last])]
      else FactList(calls, front, bounds)
  }

  /** The facts are those of the calls in the period. */
  lemma {:induction false} FactListHolds(calls: map<string, Entry>, ids: seq<string>, bounds: (int, int), f: Fact)
    requires forall id :: id in ids ==> id in calls
    ensures f in FactList(calls, ids, bounds) <==>
            f.callId in ids && f.entry == calls[f.callId] && Within(Attributable(f.entry), bounds)
  {
    if ids != [] {
      var front, last := ids[..|ids| - 1], ids[|ids| - 1];
      assert ids == front + [last];
      FactListHolds(calls, front, bounds, f);
    }
  }

  ghost predicate ById(facts: seq<Fact>) {
    forall i, j :: 0 <= i < j < |facts| ==>
      facts[i].callId != facts[j].callId && TextLe(facts[i].callId, facts[j].callId)
  }

  lemma {:induction false} FactListById(calls: map<string, Entry>, ids: seq<string>, bounds: (int, int))
    requires (forall id :: id in ids ==> id in calls) && Sorted(TextLe, ids) && Distinct(ids)
    ensures ById(FactList(calls, ids, bounds))
  {
    if ids != [] {
      var front, last := ids[..|ids| - 1], ids[|ids| - 1];
      assert ids == front + [last];
      FactListById(calls, front, bounds);
      var facts := FactList(calls, front, bounds);
      forall i | 0 <= i < |facts| ensures facts[i].callId != last && TextLe(facts[i].callId, last) {
        FactListHolds(calls, front, bounds, facts[i]);
        var j :| 0 <= j < |front| && front[j] == facts[i].callId;
        assert ids[j] == front[j] && ids[|front|] == last;
      }
    }
  }

  /** The arrival, or if none is known the latest event, is from the start of the period and before its end. */
  predicate FallsIn(entry: Entry, bounds: (int, int)) {
    match entry.fields.arrivedAt
    case Some(arrival) => bounds.0 <= arrival < bounds.1
    case None => bounds.0 <= entry.order.at < bounds.1
  }

  lemma FactsHold(calls: map<string, Entry>, ids: seq<string>, bounds: (int, int))
    requires forall id :: id in ids <==> id in calls
    ensures forall f :: f in FactList(calls, ids, bounds) <==>
              f.callId in calls && f.entry == calls[f.callId] && FallsIn(f.entry, bounds)
  {
    forall f ensures f in FactList(calls, ids, bounds) <==>
                     f.callId in calls && f.entry == calls[f.callId] && FallsIn(f.entry, bounds)
    {
      FactListHolds(calls, ids, bounds, f);
    }
  }

  /** The facts of one period, by call id: one for each call attributed to it. */
  method FactsOf(calls: map<string, Entry>, bounds: (int, int)) returns (facts: seq<Fact>)
    ensures ById(facts)
    ensures forall f :: f in facts <==>
              f.callId in calls && f.entry == calls[f.callId] && FallsIn(f.entry, bounds)
  {
    var ids := SortedTexts(calls.Keys);
    assert forall id :: id in ids <==> id in calls by {
      forall id ensures id in ids <==> id in calls { assert id in ids <==> id in (set k | k in ids); }
    }
    facts := [];
    for k := 0 to |ids|
      invariant facts == FactList(calls, ids[..k], bounds)
    {
      assert ids[k] in ids && ids[..k + 1][..k] == ids[..k];
      if Within(Attributable(calls[ids[k]]), bounds) { facts := facts + [Fact(ids[k], calls[ids[k]])]; }
    }
    assert ids[..|ids|] == ids;
    FactListById(calls, ids, bounds);
    FactsHold(calls, ids, bounds);
  }

  /** A call is a fact of exactly one month, as long as it is attributed to a time before December 9999. */
  lemma CallInOneMonth(entry: Entry)
    requires Attributable(entry) >= 0
    ensures HasSomePeriod(Attributable(entry)) <==> Attributable(entry) < 3_652_028 * 86_400_000_000
    ensures forall s, u :: InPeriod(Attributable(entry), s) && InPeriod(Attributable(entry), u) ==> s == u
  {
    SomePeriodIff(Attributable(entry));
    LastMonthStart();
    forall s, u | InPeriod(Attributable(entry), s) && InPeriod(Attributable(entry), u) ensures s == u {
      NoTwoPeriods(Attributable(entry), s, u);
    }
  }
}
