/** Export consignments assembled from fisheries events, and what a clearance-filtered reader sees of them. */
module Consignments {
  import opened Wrappers
  import opened Sequences
  import opened Ordering
  import opened Clearances

  /** The event families; an absent part is one that does not validate. */
  datatype Family =
    | Catch(species: Option<string>, weight: Option<real>)
    | Custody
    | Coldchain(temperature: Option<real>)
    | Export(reference: Option<string>)
    | Ungoverned

  datatype Event = Event(id: string, family: Family, at: int, consignment: Option<string>, marking: Option<string>)

  datatype ConsignmentError =
    | EmptyBatch
    | BadConsignmentId
    | UnknownLabel
    | BadTemperature
    | UngovernedFamily
    | CatchCount(consignment: string, found: nat)
    | BadSpecies
    | BadWeight
    | BadExportReference

  datatype Sample = Sample(at: int, id: string, temperature: real)

  datatype Record = Record(
    consignment: string, catchId: string, catchAt: int, species: string, weight: real, custody: seq<string>,
    samples: seq<Sample>, lowest: Option<real>, highest: Option<real>, exportReference: Option<string>,
    classification: string, sources: seq<string>)

  /** `_event_clearance_floor`: unlabelled events are SECRET, unknown labels raise. */
  function FloorOf(e: Event): Option<Clearance> {
    if e.marking.None? then Some(SECRET) else FromLabel(e.marking.value)
  }

  /** What is wrong with one event, in the order the code checks. */
  function EventError(e: Event): Option<ConsignmentError> {
    if e.consignment.None? then Some(BadConsignmentId)
    else if FloorOf(e).None? then Some(UnknownLabel)
    else match e.family
      case Coldchain(temperature) => if temperature.None? then Some(BadTemperature) else None
      case Ungoverned => Some(UngovernedFamily)
      case _ => None
  }

  ghost predicate Sound(events: seq<Event>) { forall e :: e in events ==> EventError(e) == None }

  // ---- one consignment ----

  datatype Group = Group(
    floor: Clearance, catches: seq<Event>, custody: seq<Event>, coldchain: seq<Event>, exports: seq<Event>)

  const NO_GROUP := Group(UNCLASSIFIED, [], [], [], [])

  /** One event attached to its consignment. */
  function Attach(g: Group, e: Event): Group
    requires EventError(e) == None
  {
    var floored := g.(floor := Greater(g.floor, FloorOf(e).value));
    match e.family
    case Catch(_, _) => floored.(catches := g.catches + [e])
    case Custody => floored.(custody := g.custody + [e])
    case Coldchain(_) => floored.(coldchain := g.coldchain + [e])
    case Export(_) => floored.(exports := g.exports + [e])
  }

  function GroupOf(events: seq<Event>): (g: Group)
    requires Sound(events)
    ensures forall e :: e in g.coldchain ==> e.family.Coldchain? && e.family.temperature.Some?
    ensures forall e :: e in g.catches ==> e.family.Catch?
    ensures forall e :: e in g.exports ==> e.family.Export?
  {
    if events == [] then NO_GROUP else Attach(GroupOf(events[..|events| - 1]), events[|events| - 1])
  }

  function Ids(events: seq<Event>): (r: seq<string>)
    ensures |r| == |events| && forall i :: 0 <= i < |r| ==> r[i] == events[i].id
  {
    seq(|events|, i requires 0 <= i < |events| => events[i].id)
  }

  predicate SampleLe(a: Sample, b: Sample) { a.at < b.at || (a.at == b.at && TextLe(a.id, b.id)) }

  function Samples(events: seq<Event>): seq<Sample>
    requires forall e :: e in events ==> e.family.Coldchain? && e.family.temperature.Some?
  {
    seq(|events|, i requires 0 <= i < |events| =>
          assert events[i] in events; Sample(events[i].at, events[i].id, events[i].family.temperature.value))
  }

  function Least(samples: seq<Sample>): Option<real> {
    if samples == [] then None
    else
      var rest := Least(samples[1..]);
      if rest.Some? && rest.value < samples[0].temperature then rest else Some(samples[0].temperature)
  }

  function Greatest(samples: seq<Sample>): Option<real> {
    if samples == [] then None
    else
      var rest := Greatest(samples[1..]);
      if rest.Some? && rest.value > samples[0].temperature then rest else Some(samples[0].temperature)
  }

  /** The extremes are temperatures of samples, and no sample is beyond them. */
  lemma {:induction false} ExtremesHold(samples: seq<Sample>)
    ensures Least(samples).None? <==> samples == []
    ensures Greatest(samples).None? <==> samples == []
    ensures samples != [] ==>
              && (forall s :: s in samples ==> Least(samples).value <= s.temperature <= Greatest(samples).value)
              && (exists s :: s in samples && s.temperature == Least(samples).value)
              && (exists s :: s in samples && s.temperature == Greatest(samples).value)
  {
    if samples != [] {
      ExtremesHold(samples[1..]);
      assert samples == [samples[0]] + samples[1..];
      assert samples[0] in samples && forall s :: s in samples[1..] ==> s in samples;
    }
  }

  /** The record of one consignment, or what is wrong with it. */
  function RecordOf(id: string, g: Group): (r: Result<Record, ConsignmentError>)
    requires forall e :: e in g.coldchain ==> e.family.Coldchain? && e.family.temperature.Some?
    requires forall e :: e in g.catches ==> e.family.Catch?
    requires forall e :: e in g.exports ==> e.family.Export?
    ensures r.Ok? ==> r.value.consignment == id && r.value.classification == g.floor.Label()
  {
    if |g.catches| != 1 then Err(CatchCount(id, |g.catches|))
    else
      var c := g.catches[0];
      if c.family.species.None? then Err(BadSpecies)
      else if c.family.weight.None? || c.family.weight.value < 0.0 then Err(BadWeight)
      else if g.exports != [] && g.exports[|g.exports| - 1].family.reference.None? then Err(BadExportReference)
      else
        var samples := Sort(SampleLe, Samples(g.coldchain));
        var reference := if g.exports == [] then None else g.exports[|g.exports| - 1].family.reference;
        Ok(Record(
             id, c.id, c.at, c.family.species.value, c.family.weight.value, Sort(TextLe, Ids(g.custody)), samples,
             Least(samples), Greatest(samples), reference, g.floor.Label(),
             Sort(TextLe, [c.id] + Sort(TextLe, Ids(g.custody)) + Ids(g.coldchain) + Ids(g.exports))))
  }

  /** The events of one consignment, as they come. */
  function EventsOf(events: seq<Event>, id: string): seq<Event> {
    if events == [] then []
    else
      var front, last := EventsOf(events[..|events| - 1], id), events[|events| - 1];
      if last.consignment == Some(id) then front + [last] else front
  }

  lemma {:induction false} EventsOfMeaning(events: seq<Event>, id: string)
    ensures forall e :: e in EventsOf(events, id) <==> e in events && e.consignment == Some(id)
  {
    if events != [] {
      var front, last := events[..|events| - 1], events[|events| - 1];
      EventsOfMeaning(front, id);
      assert events == front + [last];
    }
  }

  lemma EventsOfSound(events: seq<Event>, id: string)
    requires Sound(events)
    ensures Sound(EventsOf(events, id))
  {
    EventsOfMeaning(events, id);
  }

  function GroupAt(events: seq<Event>, id: string): Group
    requires Sound(events)
  {
    EventsOfSound(events, id);
    GroupOf(EventsOf(events, id))
  }

  function RecordAt(events: seq<Event>, id: string): Result<Record, ConsignmentError>
    requires Sound(events)
  {
    EventsOfSound(events, id);
    RecordOf(id, GroupAt(events, id))
  }

  // ---- all consignments ----

  /** The consignments as first met, the order of the dictionary. */
  function FirstSeen(events: seq<Event>): seq<string> {
    if events == [] then []
    else
      var front, last := FirstSeen(events[..|events| - 1]), events[|events| - 1];
      if last.consignment.None? || last.consignment.value in front then front else front + [last.consignment.value]
  }

  lemma {:induction false} SeenMeaning(events: seq<Event>, id: string)
    ensures id in FirstSeen(events) <==> EventsOf(events, id) != []
  {
    if events != [] { SeenMeaning(events[..|events| - 1], id); }
  }

  type Recorder = string -> Result<Record, ConsignmentError>

  /** The records of the ids in turn, or the first error. */
  function InTurn(at: Recorder, ids: seq<string>): Result<seq<Record>, ConsignmentError> {
    if ids == [] then Ok([])
    else
      var front, last := InTurn(at, ids[..|ids| - 1]), at(ids[|ids| - 1]);
      if front.Err? then front
      else if last.Err? then Err(last.error)
      else Ok(front.value + [last.value])
  }

  function Records(events: seq<Event>, ids: seq<string>): Result<seq<Record>, ConsignmentError>
    requires Sound(events)
  {
    InTurn(id => RecordAt(events, id), ids)
  }

  /** `build_consignment_records` on events that are sound. */
  function Assemble(events: seq<Event>): Result<seq<Record>, ConsignmentError>
    requires Sound(events)
  {
    if events == [] then Err(EmptyBatch) else Records(events, Sort(TextLe, FirstSeen(events)))
  }

  ghost predicate GroupedAt(groups: map<string, Group>, events: seq<Event>, id: string)
    requires Sound(events)
  {
    if EventsOf(events, id) == [] then id !in groups else id in groups && groups[id] == GroupAt(events, id)
  }

  ghost predicate Grouped(groups: map<string, Group>, order: seq<string>, events: seq<Event>)
    requires Sound(events)
  {
    order == FirstSeen(events) && forall id :: GroupedAt(groups, events, id)
  }

  lemma EventsOfNext(events: seq<Event>, e: Event, id: string)
    ensures EventsOf(events + [e], id) ==
            if e.consignment == Some(id) then EventsOf(events, id) + [e] else EventsOf(events, id)
  {
    assert (events + [e])[..|events|] == events;
  }

  lemma FirstSeenNext(events: seq<Event>, e: Event)
    ensures FirstSeen(events + [e]) ==
            if e.consignment.None? || e.consignment.value in FirstSeen(events) then FirstSeen(events)
            else FirstSeen(events) + [e.consignment.value]
  {
    assert (events + [e])[..|events|] == events;
  }

  lemma AttachNext(events: seq<Event>, e: Event, id: string)
    requires Sound(events) && EventError(e) == None
    ensures Sound(events + [e])
    ensures GroupAt(events + [e], id) ==
            if e.consignment == Some(id) then Attach(GroupAt(events, id), e) else GroupAt(events, id)
  {
    var all := events + [e];
    assert all[..|events|] == events;
    EventsOfSound(events, id);
    EventsOfSound(all, id);
    var own := EventsOf(events, id);
    if e.consignment == Some(id) { assert (own + [e])[..|own|] == own; }
  }

  function Attached(groups: map<string, Group>, e: Event): map<string, Group>
    requires EventError(e) == None
  {
    var id := e.consignment.value;
    groups[id := Attach(if id in groups then groups[id] else NO_GROUP, e)]
  }

  lemma GroupedAtNext(groups: map<string, Group>, events: seq<Event>, e: Event, id: string)
    requires Sound(events) && GroupedAt(groups, events, id) && EventError(e) == None
    ensures Sound(events + [e]) && GroupedAt(Attached(groups, e), events + [e], id)
  {
    AttachNext(events, e, id);
    EventsOfNext(events, e, id);
  }

  lemma GroupedNext(groups: map<string, Group>, order: seq<string>, events: seq<Event>, e: Event)
    requires Sound(events) && Grouped(groups, order, events) && EventError(e) == None
    ensures Sound(events + [e])
    ensures Grouped(Attached(groups, e), if e.consignment.value in groups then order else order + [e.consignment.value],
                    events + [e])
  {
    var id := e.consignment.value;
    forall k ensures Sound(events + [e]) && GroupedAt(Attached(groups, e), events + [e], k) {
      assert GroupedAt(groups, events, k);
      GroupedAtNext(groups, events, e, k);
    }
    FirstSeenNext(events, e);
    SeenMeaning(events, id);
    assert GroupedAt(groups, events, id);
  }

  method AttachEvent(groups: map<string, Group>, order: seq<string>, e: Event, ghost events: seq<Event>)
    returns (groups': map<string, Group>, order': seq<string>)
    requires Sound(events) && Grouped(groups, order, events) && EventError(e) == None
    ensures Sound(events + [e]) && Grouped(groups', order', events + [e])
  {
    GroupedNext(groups, order, events, e);
    var id := e.consignment.value;
    order' := if id in groups then order else order + [id];
    groups' := Attached(groups, e);
  }

  method GroupEvents(events: seq<Event>)
    returns (r: Result<(map<string, Group>, seq<string>), ConsignmentError>)
    ensures r.Ok? <==> Sound(events)
    ensures r.Ok? ==> Grouped(r.value.0, r.value.1, events)
    ensures r.Err? ==> exists i :: 0 <= i < |events| && EventError(events[i]) == Some(r.error) && Sound(events[..i])
  {
    var groups: map<string, Group> := map[];
    var order: seq<string> := [];
    for i := 0 to |events|
      invariant Sound(events[..i]) && Grouped(groups, order, events[..i])
    {
      var e := events[i];
      var wrong := EventError(e);
      if wrong.Some? {
        assert e in events;
        return Err(wrong.value);
      }
      assert events[..i + 1] == events[..i] + [e];
      groups, order := AttachEvent(groups, order, e, events[..i]);
    }
    assert events[..|events|] == events;
    return Ok((groups, order));
  }

  lemma {:induction false} InTurnPrefix(at: Recorder, ids: seq<string>, n: nat)
    requires n <= |ids| && InTurn(at, ids[..n]).Err?
    ensures InTurn(at, ids) == InTurn(at, ids[..n])
  {
    if n < |ids| {
      var front := ids[..|ids| - 1];
      assert front[..n] == ids[..n];
      InTurnPrefix(at, front, n);
    } else {
      assert ids[..n] == ids;
    }
  }

  lemma GroupIs(events: seq<Event>, groups: map<string, Group>, order: seq<string>, id: string)
    requires Sound(events) && Grouped(groups, order, events) && id in order
    ensures id in groups && groups[id] == GroupAt(events, id)
  {
    SeenMeaning(events, id);
    assert GroupedAt(groups, events, id);
  }

  lemma NextInTurn(at: Recorder, ids: seq<string>, k: nat, records: seq<Record>)
    requires k < |ids| && InTurn(at, ids[..k]) == Ok(records)
    ensures at(ids[k]).Ok? ==> InTurn(at, ids[..k + 1]) == Ok(records + [at(ids[k]).value])
    ensures at(ids[k]).Err? ==> InTurn(at, ids) == Err(at(ids[k]).error)
  {
    assert ids[..k + 1][..k] == ids[..k];
    if at(ids[k]).Err? { InTurnPrefix(at, ids, k + 1); }
  }

  /** The records of the groups, by consignment id. */
  method RecordGroups(events: seq<Event>, groups: map<string, Group>, order: seq<string>)
    returns (r: Result<seq<Record>, ConsignmentError>)
    requires Sound(events) && Grouped(groups, order, events)
    ensures r == Records(events, Sort(TextLe, order))
  {
    var ids := Sort(TextLe, order);
    SameElements(ids, order);
    var records: seq<Record> := [];
    for k := 0 to |ids|
      invariant Records(events, ids[..k]) == Ok(records)
    {
      assert ids[k] in ids;
      GroupIs(events, groups, order, ids[k]);
      NextInTurn(id => RecordAt(events, id), ids, k, records);
      var record := RecordOf(ids[k], groups[ids[k]]);
      if record.Err? { return Err(record.error); }
      records := records + [record.value];
    }
    assert ids[..|ids|] == ids;
    return Ok(records);
  }

  /** `build_consignment_records`; it raises when an event or a consignment is wrong, or there are no events. */
  method BuildConsignmentRecords(events: seq<Event>) returns (r: Result<seq<Record>, ConsignmentError>)
    ensures Sound(events) ==> r == Assemble(events)
    ensures !Sound(events) ==>
              r.Err? && exists i :: 0 <= i < |events| && EventError(events[i]) == Some(r.error) && Sound(events[..i])
  {
    if events == [] { return Err(EmptyBatch); }
    var grouped := GroupEvents(events);
    if grouped.Err? { return Err(grouped.error); }
    r := RecordGroups(events, grouped.value.0, grouped.value.1);
  }

  method FilterRecords(keep: Record -> bool, records: seq<Record>) returns (visible: seq<Record>)
    ensures visible == Filter(keep, records)
  {
    visible := [];
    for i := 0 to |records|
      invariant visible == Filter(keep, records[..i])
    {
      FilterAppend(keep, records[..i], [records[i]]);
      assert records[..i + 1] == records[..i] + [records[i]] && [records[i]][1..] == [];
      if keep(records[i]) { visible := visible + [records[i]]; }
    }
    assert records[..|records|] == records;
  }

  /** `filter_records_by_clearance` */
  method FilterByClearance(records: seq<Record>, level: Clearance) returns (visible: seq<Record>)
    ensures visible == Filter((r: Record) => Permits(level, r.classification), records)
  {
    visible := FilterRecords((r: Record) => Permits(level, r.classification), records);
  }

  // ---- assembling then filtering ----

  /** The floor of a consignment is the most restrictive label of its events. */
  lemma {:induction false} FloorIsGreatest(events: seq<Event>, level: Clearance)
    requires Sound(events)
    ensures AtMost(GroupOf(events).floor, level) <==> forall e :: e in events ==> AtMost(FloorOf(e).value, level)
  {
    if events != [] {
      var front, last := events[..|events| - 1], events[|events| - 1];
      assert events == front + [last];
      FloorIsGreatest(front, level);
    }
  }

  /** Every event of the consignment is at or below the level. */
  ghost predicate Cleared(events: seq<Event>, level: Clearance, id: string)
    requires Sound(events)
  {
    EventsOfMeaning(events, id);
    forall e :: e in EventsOf(events, id) ==> AtMost(FloorOf(e).value, level)
  }

  /** A reader at the level sees a consignment's record exactly when every event of it is cleared. */
  lemma VisibleIffCleared(events: seq<Event>, level: Clearance, id: string)
    requires Sound(events) && RecordAt(events, id).Ok?
    ensures Permits(level, RecordAt(events, id).value.classification) <==> Cleared(events, level, id)
  {
    EventsOfSound(events, id);
    FloorIsGreatest(EventsOf(events, id), level);
    LabelReads(GroupAt(events, id).floor);
  }

  function IdOf(e: Event): string { if e.consignment.Some? then e.consignment.value else "" }

  /** The events of the consignments to keep. */
  function Kept(keep: string -> bool, events: seq<Event>): seq<Event> { Filter((e: Event) => keep(IdOf(e)), events) }

  lemma KeptNext(keep: string -> bool, front: seq<Event>, last: Event)
    ensures Kept(keep, front + [last]) == if keep(IdOf(last)) then Kept(keep, front) + [last] else Kept(keep, front)
  {
    FilterAppend((e: Event) => keep(IdOf(e)), front, [last]);
    assert [last][1..] == [];
  }

  lemma {:induction false} EventsOfKept(keep: string -> bool, events: seq<Event>, id: string)
    ensures EventsOf(Kept(keep, events), id) == if keep(id) then EventsOf(events, id) else []
  {
    if events != [] {
      var front, last := events[..|events| - 1], events[|events| - 1];
      assert events == front + [last];
      EventsOfKept(keep, front, id);
      KeptNext(keep, front, last);
      EventsOfNext(Kept(keep, front), last, id);
    }
  }

  lemma FilterNext(keep: string -> bool, s: seq<string>, x: string)
    ensures Filter(keep, s + [x]) == if keep(x) then Filter(keep, s) + [x] else Filter(keep, s)
  {
    FilterAppend(keep, s, [x]);
    assert [x][1..] == [];
  }

  lemma {:induction false} FirstSeenKept(keep: string -> bool, events: seq<Event>)
    requires Sound(events)
    ensures FirstSeen(Kept(keep, events)) == Filter(keep, FirstSeen(events))
  {
    if events != [] {
      var front, last := events[..|events| - 1], events[|events| - 1];
      assert events == front + [last] && last in events;
      assert forall e :: e in front ==> e in events;
      FirstSeenKept(keep, front);
      KeptNext(keep, front, last);
      FirstSeenNext(front, last);
      FirstSeenNext(Kept(keep, front), last);
      FilterNext(keep, FirstSeen(front), last.consignment.value);
    }
  }

  lemma {:induction false} FilterInsert(le: (string, string) -> bool, keep: string -> bool, x: string, s: seq<string>)
    requires TotalPreorder(le) && Sorted(le, s)
    ensures Filter(keep, Insert(le, x, s)) == if keep(x) then Insert(le, x, Filter(keep, s)) else Filter(keep, s)
  {
    if s == [] || le(x, s[0]) {
      assert ([x] + s)[1..] == s;
      if keep(x) { InsertFirst(le, x, Filter(keep, s)) by { FilteredAbove(le, keep, x, s); } }
    } else {
      FilterInsert(le, keep, x, s[1..]);
      var rest := Insert(le, x, s[1..]);
      assert ([s[0]] + rest)[1..] == rest;
      if keep(s[0]) { assert ([s[0]] + Filter(keep, s[1..]))[1..] == Filter(keep, s[1..]); }
    }
  }

  lemma FilteredAbove(le: (string, string) -> bool, keep: string -> bool, x: string, s: seq<string>)
    requires TotalPreorder(le) && Sorted(le, s) && (s == [] || le(x, s[0]))
    ensures forall y :: y in Filter(keep, s) ==> le(x, y)
  {
    forall y | y in Filter(keep, s) ensures le(x, y) {
      SortedHeadIsLeast(le, s, y);
    }
  }

  lemma InsertFirst(le: (string, string) -> bool, x: string, s: seq<string>)
    requires forall y :: y in s ==> le(x, y)
    ensures Insert(le, x, s) == [x] + s
  {
  }

  /** Sorting and filtering commute. */
  lemma {:induction false} FilterSort(le: (string, string) -> bool, keep: string -> bool, s: seq<string>)
    requires TotalPreorder(le)
    ensures Filter(keep, Sort(le, s)) == Sort(le, Filter(keep, s))
  {
    if s != [] {
      FilterSort(le, keep, s[1..]);
      SortSorted(le, s[1..]);
      FilterInsert(le, keep, s[0], Sort(le, s[1..]));
      if keep(s[0]) { assert ([s[0]] + Filter(keep, s[1..]))[1..] == Filter(keep, s[1..]); }
    }
  }

  lemma KeptSound(keep: string -> bool, events: seq<Event>)
    requires Sound(events)
    ensures Sound(Kept(keep, events))
  {
  }

  lemma RecordAtKept(keep: string -> bool, events: seq<Event>, id: string)
    requires Sound(events) && keep(id)
    ensures Sound(Kept(keep, events)) && RecordAt(Kept(keep, events), id) == RecordAt(events, id)
  {
    KeptSound(keep, events);
    EventsOfKept(keep, events, id);
  }

  lemma {:induction false} InTurnKept(at: Recorder, other: Recorder, keep: string -> bool, visible: Record -> bool,
                                     ids: seq<string>)
    requires InTurn(at, ids).Ok?
    requires forall id :: at(id).Ok? ==> visible(at(id).value) == keep(id)
    requires forall id :: keep(id) ==> other(id) == at(id)
    ensures InTurn(other, Filter(keep, ids)) == Ok(Filter(visible, InTurn(at, ids).value))
  {
    if ids != [] {
      var front, last := ids[..|ids| - 1], ids[|ids| - 1];
      var records, record := InTurn(at, front).value, at(last).value;
      InTurnKept(at, other, keep, visible, front);
      assert ids == front + [last];
      FilterNext(keep, front, last);
      VisibleNext(visible, records, record);
      if keep(last) {
        var kept := Filter(keep, front);
        assert (kept + [last])[..|kept|] == kept;
      }
    }
  }

  lemma VisibleNext(visible: Record -> bool, records: seq<Record>, record: Record)
    ensures Filter(visible, records + [record]) ==
            if visible(record) then Filter(visible, records) + [record] else Filter(visible, records)
  {
    FilterAppend(visible, records, [record]);
    assert [record][1..] == [];
  }

  /**
   * What a reader at a level sees of the assembled consignments is what assembling only the consignments
   * cleared for that level gives, unlabelled events counting as SECRET; nothing when none is cleared.
   */
  lemma AssembleThenFilter(events: seq<Event>, level: Clearance)
    requires Sound(events) && Assemble(events).Ok?
    ensures var cleared := Kept(id => Cleared(events, level, id), events);
      && Sound(cleared)
      && Filter((r: Record) => Permits(level, r.classification), Assemble(events).value) ==
         (if cleared == [] then [] else assert Sound(cleared); if Assemble(cleared).Ok? then Assemble(cleared).value else [])
      && (cleared != [] ==> Assemble(cleared).Ok?)
  {
    var keep, visible := id => Cleared(events, level, id), (r: Record) => Permits(level, r.classification);
    var cleared := Kept(keep, events);
    KeptSound(keep, events);
    forall id | RecordAt(events, id).Ok? ensures visible(RecordAt(events, id).value) == keep(id) {
      VisibleIffCleared(events, level, id);
    }
    TextOrder();
    FirstSeenKept(keep, events);
    FilterSort(TextLe, keep, FirstSeen(events));
    forall id | keep(id) ensures RecordAt(cleared, id) == RecordAt(events, id) { RecordAtKept(keep, events, id); }
    InTurnKept(id => RecordAt(events, id), id => RecordAt(cleared, id), keep, visible, Sort(TextLe, FirstSeen(events)));
  }
}
