/** Consignment records by the events they are made of. */
module ConsignmentForm {
  import opened Wrappers
  import opened Sequences
  import opened Ordering
  import opened Clearances
  import opened Consignments

  // ---- events ----

  /**
   * What is wrong with an event: no consignment, an unknown label, a coldchain event without temperature, another
   * family.
   */
  lemma EventErrorIs(e: Event)
    ensures EventError(e) == Some(BadConsignmentId) <==> e.consignment == None
    ensures EventError(e) == Some(UnknownLabel) <==>
            e.consignment != None && e.marking.Some? && FromLabel(e.marking.value) == None
    ensures EventError(e) == Some(BadTemperature) <==>
            e.consignment != None && (e.marking.Some? ==> FromLabel(e.marking.value) != None)
            && e.family == Coldchain(None)
    ensures EventError(e) == Some(UngovernedFamily) <==>
            e.consignment != None && (e.marking.Some? ==> FromLabel(e.marking.value) != None) && e.family == Ungoverned
    ensures EventError(e).Some? ==>
              EventError(e).value in {BadConsignmentId, UnknownLabel, BadTemperature, UngovernedFamily}
  {
  }

  /** A level may read an event if it may read its label, an event without a label only as SECRET. */
  predicate MayRead(level: Clearance, e: Event) {
    match e.marking
    case Some(marking) => Permits(level, marking)
    case None => level == SECRET
  }

  lemma MayReadIff(level: Clearance, e: Event)
    requires FloorOf(e).Some?
    ensures AtMost(FloorOf(e).value, level) <==> MayRead(level, e)
  {
  }

  /** A reader sees a consignment's record exactly when the level may read every event of the consignment. */
  lemma VisibleIffReadable(events: seq<Event>, level: Clearance, id: string)
    requires Sound(events) && RecordAt(events, id).Ok?
    ensures Permits(level, RecordAt(events, id).value.classification) <==>
            forall e :: e in events && e.consignment == Some(id) ==> MayRead(level, e)
  {
    VisibleIffCleared(events, level, id);
    EventsOfMeaning(events, id);
    forall e | e in events ensures AtMost(FloorOf(e).value, level) <==> MayRead(level, e) { MayReadIff(level, e); }
  }

  // ---- the parts of a consignment ----

  datatype Part = Catches | Custodies | Coldchains | Exports

  predicate Belongs(part: Part, id: string, e: Event) {
    && e.consignment == Some(id)
    && match part
       case Catches => e.family.Catch?
       case Custodies => e.family.Custody?
       case Coldchains => e.family.Coldchain?
       case Exports => e.family.Export?
  }

  /** The events of one part, as they come. */
  function PartOf(part: Part, events: seq<Event>, id: string): seq<Event> {
    Filter((e: Event) => Belongs(part, id, e), events)
  }

  function In(g: Group, part: Part): seq<Event> {
    match part
    case Catches => g.catches
    case Custodies => g.custody
    case Coldchains => g.coldchain
    case Exports => g.exports
  }

  lemma PartNext(part: Part, events: seq<Event>, e: Event, id: string)
    ensures PartOf(part, events + [e], id) == PartOf(part, events, id) + (if Belongs(part, id, e) then [e] else [])
  {
    FilterOneMore((e: Event) => Belongs(part, id, e), events, e);
  }

  lemma AttachPart(part: Part, g: Group, e: Event)
    requires EventError(e) == None
    ensures In(Attach(g, e), part) == In(g, part) + (if Belongs(part, e.consignment.value, e) then [e] else [])
  {
  }

  /** A group holds the events of each part of its consignment. */
  lemma {:induction false} GroupParts(part: Part, events: seq<Event>, id: string)
    requires Sound(events)
    ensures In(GroupAt(events, id), part) == PartOf(part, events, id)
  {
    if events != [] {
      var front, last := events[..|events| - 1], events[|events| - 1];
      assert events == front + [last] && last in events;
      GroupParts(part, front, id);
      AttachNext(front, last, id);
      AttachPart(part, GroupAt(front, id), last);
      PartNext(part, front, last, id);
    }
  }

  // ---- the record of a consignment ----

  function IdsOf(events: seq<Event>): seq<string> { Map((e: Event) => e.id, events) }

  function SampleOf(e: Event): Sample {
    Sample(e.at, e.id, if e.family.Coldchain? && e.family.temperature.Some? then e.family.temperature.value else 0.0)
  }

  function SamplesOf(events: seq<Event>): seq<Sample> { Map((e: Event) => SampleOf(e), events) }

  ghost predicate InTextOrder(texts: seq<string>) {
    forall i, j :: 0 <= i < j < |texts| ==> TextPrecedes(texts[i], texts[j])
  }

  ghost predicate InTimeOrder(samples: seq<Sample>) {
    forall i, j :: 0 <= i < j < |samples| ==>
      samples[i].at < samples[j].at || (samples[i].at == samples[j].at && TextPrecedes(samples[i].id, samples[j].id))
  }

  /** The lowest and the highest temperature of the events; none without events. */
  ghost predicate AreExtremes(lowest: Option<real>, highest: Option<real>, coldchains: seq<Event>) {
    match (lowest, highest)
    case (Some(low), Some(high)) =>
      && (forall e :: e in coldchains ==> low <= SampleOf(e).temperature <= high)
      && (exists e :: e in coldchains && SampleOf(e).temperature == low)
      && (exists e :: e in coldchains && SampleOf(e).temperature == high)
    case _ => lowest == None && highest == None && coldchains == []
  }

  /** What the record takes from its one catch event. */
  predicate IsOfCatch(r: Record, catches: seq<Event>) {
    && |catches| == 1 && catches[0].family.Catch?
    && r.catchId == catches[0].id && r.catchAt == catches[0].at
    && catches[0].family.species == Some(r.species) && catches[0].family.weight == Some(r.weight) && r.weight >= 0.0
  }

  /** None without export events, else the reference of the last one. */
  predicate IsReference(reference: Option<string>, exports: seq<Event>) {
    if exports == [] then reference == None
    else
      var last := exports[|exports| - 1];
      last.family.Export? && reference.Some? && reference == last.family.reference
  }

  ghost predicate AreCustody(custody: seq<string>, custodies: seq<Event>) {
    multiset(custody) == multiset(IdsOf(custodies)) && InTextOrder(custody)
  }

  ghost predicate AreSamples(samples: seq<Sample>, coldchains: seq<Event>) {
    multiset(samples) == multiset(SamplesOf(coldchains)) && InTimeOrder(samples)
  }

  ghost predicate AreSources(sources: seq<string>, a: seq<Event>, b: seq<Event>, c: seq<Event>, d: seq<Event>) {
    && multiset(sources) == multiset(IdsOf(a)) + multiset(IdsOf(b)) + multiset(IdsOf(c)) + multiset(IdsOf(d))
    && InTextOrder(sources)
  }

  ghost predicate IsRecordOf(r: Record, id: string, catches: seq<Event>, custodies: seq<Event>, coldchains: seq<Event>,
                             exports: seq<Event>) {
    && r.consignment == id && IsOfCatch(r, catches) && AreCustody(r.custody, custodies)
    && AreSamples(r.samples, coldchains) && AreExtremes(r.lowest, r.highest, coldchains)
    && IsReference(r.exportReference, exports) && AreSources(r.sources, catches, custodies, coldchains, exports)
  }

  /**
   * A record by its fields: the catch, the custody ids and samples in order, the extremes, the reference, all ids
   * in order.
   */
  ghost predicate IsRecord(r: Record, events: seq<Event>, id: string) {
    IsRecordOf(r, id, PartOf(Catches, events, id), PartOf(Custodies, events, id), PartOf(Coldchains, events, id),
               PartOf(Exports, events, id))
  }

  lemma SortedTextsInOrder(texts: seq<string>)
    ensures InTextOrder(Sort(TextLe, texts)) && multiset(Sort(TextLe, texts)) == multiset(texts)
  {
    TextOrder();
    SortSorted(TextLe, texts);
    var sorted := Sort(TextLe, texts);
    forall i, j | 0 <= i < j < |sorted| ensures TextPrecedes(sorted[i], sorted[j]) {
      TextLeByPositions(sorted[i], sorted[j]);
    }
  }

  lemma SortedSamplesInOrder(samples: seq<Sample>)
    ensures InTimeOrder(Sort(SampleLe, samples)) && multiset(Sort(SampleLe, samples)) == multiset(samples)
  {
    TextOrder();
    SortSorted(SampleLe, samples);
    var sorted := Sort(SampleLe, samples);
    forall i, j | 0 <= i < j < |sorted|
      ensures sorted[i].at < sorted[j].at || (sorted[i].at == sorted[j].at && TextPrecedes(sorted[i].id, sorted[j].id))
    {
      assert SampleLe(sorted[i], sorted[j]);
      TextLeByPositions(sorted[i].id, sorted[j].id);
    }
  }

  lemma IdsAre(events: seq<Event>)
    ensures Ids(events) == IdsOf(events)
  {
  }

  lemma SamplesAre(events: seq<Event>)
    requires forall e :: e in events ==> e.family.Coldchain? && e.family.temperature.Some?
    ensures Samples(events) == SamplesOf(events)
  {
    forall i | 0 <= i < |events| ensures Samples(events)[i] == SamplesOf(events)[i] { assert events[i] in events; }
  }

  lemma ExtremesOf(events: seq<Event>, samples: seq<Sample>)
    requires multiset(samples) == multiset(SamplesOf(events))
    ensures AreExtremes(Least(samples), Greatest(samples), events)
  {
    ExtremesHold(samples);
    SameElements(samples, SamplesOf(events));
    forall s ensures s in samples <==> exists e :: e in events && SampleOf(e) == s {
      if s in samples { var i :| 0 <= i < |events| && SamplesOf(events)[i] == s; assert events[i] in events; }
      if e :| e in events && SampleOf(e) == s {
        var i :| 0 <= i < |events| && events[i] == e;
        assert SamplesOf(events)[i] == s;
      }
    }
    if events == [] { assert SamplesOf(events) == []; } else { assert SamplesOf(events)[0] in samples; }
  }

  lemma CustodyIs(custodies: seq<Event>)
    ensures AreCustody(Sort(TextLe, Ids(custodies)), custodies)
  {
    IdsAre(custodies);
    SortedTextsInOrder(Ids(custodies));
  }

  lemma SamplesIs(coldchains: seq<Event>)
    requires forall e :: e in coldchains ==> e.family.Coldchain? && e.family.temperature.Some?
    ensures var samples := Sort(SampleLe, Samples(coldchains));
      AreSamples(samples, coldchains) && AreExtremes(Least(samples), Greatest(samples), coldchains)
  {
    SamplesAre(coldchains);
    SortedSamplesInOrder(Samples(coldchains));
    ExtremesOf(coldchains, Sort(SampleLe, Samples(coldchains)));
  }

  lemma FourTogether(c: string, sorted: seq<string>, custody: seq<string>, coldchain: seq<string>, exports: seq<string>)
    requires multiset(sorted) == multiset(custody)
    ensures multiset([c] + sorted + coldchain + exports) ==
            multiset([c]) + multiset(custody) + multiset(coldchain) + multiset(exports)
  {
  }

  lemma SourcesIs(catches: seq<Event>, custodies: seq<Event>, coldchains: seq<Event>, exports: seq<Event>)
    requires |catches| == 1
    ensures AreSources(
              Sort(TextLe, [catches[0].id] + Sort(TextLe, Ids(custodies)) + Ids(coldchains) + Ids(exports)),
              catches, custodies, coldchains, exports)
  {
    var c := catches[0].id;
    IdsAre(custodies);
    IdsAre(coldchains);
    IdsAre(exports);
    assert IdsOf(catches) == [c];
    FourTogether(c, Sort(TextLe, Ids(custodies)), Ids(custodies), Ids(coldchains), Ids(exports));
    SortedTextsInOrder([c] + Sort(TextLe, Ids(custodies)) + Ids(coldchains) + Ids(exports));
  }

  ghost predicate WellGrouped(g: Group) {
    && (forall e :: e in g.coldchain ==> e.family.Coldchain? && e.family.temperature.Some?)
    && (forall e :: e in g.catches ==> e.family.Catch?)
    && (forall e :: e in g.exports ==> e.family.Export?)
  }

  lemma CatchIs(id: string, g: Group)
    requires WellGrouped(g) && RecordOf(id, g).Ok?
    ensures RecordOf(id, g).value.consignment == id && IsOfCatch(RecordOf(id, g).value, g.catches)
    ensures IsReference(RecordOf(id, g).value.exportReference, g.exports)
  {
    assert g.catches[0] in g.catches;
    assert g.exports != [] ==> g.exports[|g.exports| - 1] in g.exports;
  }

  lemma SortedFields(id: string, g: Group)
    requires WellGrouped(g) && RecordOf(id, g).Ok?
    ensures var r, samples := RecordOf(id, g).value, Sort(SampleLe, Samples(g.coldchain));
      && |g.catches| == 1 && r.custody == Sort(TextLe, Ids(g.custody))
      && r.samples == samples && r.lowest == Least(samples) && r.highest == Greatest(samples)
      && r.sources == Sort(TextLe, [g.catches[0].id] + Sort(TextLe, Ids(g.custody)) + Ids(g.coldchain) + Ids(g.exports))
  {
  }

  lemma GroupRecordIs(id: string, g: Group)
    requires WellGrouped(g) && RecordOf(id, g).Ok?
    ensures IsRecordOf(RecordOf(id, g).value, id, g.catches, g.custody, g.coldchain, g.exports)
  {
    CatchIs(id, g);
    SortedFields(id, g);
    CustodyIs(g.custody);
    SamplesIs(g.coldchain);
    SourcesIs(g.catches, g.custody, g.coldchain, g.exports);
  }

  /** What a group holds is what the events are. */
  lemma GroupIsParts(events: seq<Event>, id: string)
    requires Sound(events)
    ensures var g := GroupAt(events, id);
      && WellGrouped(g)
      && g.catches == PartOf(Catches, events, id) && g.custody == PartOf(Custodies, events, id)
      && g.coldchain == PartOf(Coldchains, events, id) && g.exports == PartOf(Exports, events, id)
  {
    GroupParts(Catches, events, id);
    GroupParts(Custodies, events, id);
    GroupParts(Coldchains, events, id);
    GroupParts(Exports, events, id);
  }

  lemma RecordAtIs(events: seq<Event>, id: string)
    requires Sound(events)
    ensures WellGrouped(GroupAt(events, id)) && RecordAt(events, id) == RecordOf(id, GroupAt(events, id))
  {
    GroupIsParts(events, id);
  }

  /** The record of a consignment is the one of the events in its parts. */
  lemma RecordIs(events: seq<Event>, id: string)
    requires Sound(events) && RecordAt(events, id).Ok?
    ensures IsRecord(RecordAt(events, id).value, events, id)
  {
    RecordAtIs(events, id);
    GroupRecordIs(id, GroupAt(events, id));
    GroupIsParts(events, id);
  }

  /** What is wrong with a consignment of these catch and export events. */
  predicate IsErrorOf(error: ConsignmentError, id: string, catches: seq<Event>, exports: seq<Event>) {
    if |catches| != 1 then error == CatchCount(id, |catches|)
    else if !catches[0].family.Catch? then false
    else if catches[0].family.species == None then error == BadSpecies
    else if catches[0].family.weight == None || catches[0].family.weight.value < 0.0 then error == BadWeight
    else
      error == BadExportReference && exports != [] && exports[|exports| - 1].family == Export(None)
  }

  predicate IsError(error: ConsignmentError, events: seq<Event>, id: string) {
    IsErrorOf(error, id, PartOf(Catches, events, id), PartOf(Exports, events, id))
  }

  lemma ReferenceError(id: string, g: Group)
    requires WellGrouped(g) && |g.catches| == 1
    ensures g.catches[0].family.Catch?
    ensures g.exports != [] ==> g.exports[|g.exports| - 1].family.Export?
    ensures g.catches[0].family.species != None && g.catches[0].family.weight.Some?
            && g.catches[0].family.weight.value >= 0.0 ==>
              (RecordOf(id, g) == Err(BadExportReference) <==>
               g.exports != [] && g.exports[|g.exports| - 1].family == Export(None)) &&
              (RecordOf(id, g).Err? ==> RecordOf(id, g) == Err(BadExportReference))
  {
    assert g.catches[0] in g.catches;
    assert g.exports != [] ==> g.exports[|g.exports| - 1] in g.exports;
  }

  lemma GroupErrorIs(id: string, g: Group, error: ConsignmentError)
    requires WellGrouped(g)
    ensures RecordOf(id, g) == Err(error) <==> IsErrorOf(error, id, g.catches, g.exports)
  {
    if |g.catches| == 1 { ReferenceError(id, g); }
  }

  /** A consignment has no record exactly for one of these reasons, the first that applies. */
  lemma RecordErrorIs(events: seq<Event>, id: string, error: ConsignmentError)
    requires Sound(events)
    ensures RecordAt(events, id) == Err(error) <==> IsError(error, events, id)
  {
    RecordAtIs(events, id);
    GroupErrorIs(id, GroupAt(events, id), error);
    GroupIsParts(events, id);
  }

  // ---- the assembly ----

  lemma {:induction false} InTurnAt(at: Recorder, ids: seq<string>)
    ensures InTurn(at, ids).Ok? ==>
              |InTurn(at, ids).value| == |ids| &&
              forall i :: 0 <= i < |ids| ==> at(ids[i]) == Ok(InTurn(at, ids).value[i])
    ensures InTurn(at, ids).Err? ==>
              exists k :: 0 <= k < |ids| && at(ids[k]) == Err(InTurn(at, ids).error)
                          && forall j :: 0 <= j < k ==> at(ids[j]).Ok?
  {
    if ids != [] {
      var front, n := ids[..|ids| - 1], |ids| - 1;
      InTurnAt(at, front);
      if InTurn(at, front).Err? {
        var k :| 0 <= k < n && at(front[k]) == Err(InTurn(at, front).error)
                 && forall j :: 0 <= j < k ==> at(front[j]).Ok?;
        assert ids[k] == front[k] && forall j :: 0 <= j < k ==> ids[j] == front[j];
      } else if at(ids[n]).Err? {
        assert at(ids[n]) == Err(InTurn(at, ids).error) && forall j :: 0 <= j < n ==> ids[j] == front[j];
      }
    }
  }

  /** An event of the consignment. */
  ghost predicate Mentioned(events: seq<Event>, id: string) { exists e :: e in events && e.consignment == Some(id) }

  lemma SeenIff(events: seq<Event>, id: string)
    ensures id in FirstSeen(events) <==> Mentioned(events, id)
  {
    SeenMeaning(events, id);
    EventsOfMeaning(events, id);
    if EventsOf(events, id) != [] { assert EventsOf(events, id)[0] in EventsOf(events, id); }
  }

  lemma {:induction false} SeenOnce(events: seq<Event>)
    ensures Distinct(FirstSeen(events))
  {
    if events != [] { SeenOnce(events[..|events| - 1]); }
  }

  /** The consignments of the events, each once, in the order of their ids. */
  ghost predicate AreConsignments(ids: seq<string>, events: seq<Event>) {
    Distinct(ids) && InTextOrder(ids) && forall id :: id in ids <==> Mentioned(events, id)
  }

  lemma IdsInOrder(events: seq<Event>)
    ensures AreConsignments(Sort(TextLe, FirstSeen(events)), events)
  {
    var ids := Sort(TextLe, FirstSeen(events));
    SortedTextsInOrder(FirstSeen(events));
    SeenOnce(events);
    DistinctPermutation(FirstSeen(events), ids);
    SameElements(ids, FirstSeen(events));
    forall id ensures id in FirstSeen(events) <==> Mentioned(events, id) { SeenIff(events, id); }
  }

  /** Who may read the record: the levels that may read every event of its consignment. */
  ghost predicate ReadableAs(r: Record, events: seq<Event>) {
    forall level :: Permits(level, r.classification) <==>
      forall e :: e in events && e.consignment == Some(r.consignment) ==> MayRead(level, e)
  }

  ghost predicate RecordsOf(records: seq<Record>, events: seq<Event>, ids: seq<string>) {
    && |records| == |ids|
    && forall i :: 0 <= i < |ids| ==> IsRecord(records[i], events, ids[i]) && ReadableAs(records[i], events)
  }

  lemma OneRecord(events: seq<Event>, id: string, r: Record)
    requires Sound(events) && RecordAt(events, id) == Ok(r)
    ensures IsRecord(r, events, id) && ReadableAs(r, events)
  {
    RecordIs(events, id);
    forall level ensures Permits(level, r.classification) <==>
                         forall e :: e in events && e.consignment == Some(r.consignment) ==> MayRead(level, e)
    {
      VisibleIffReadable(events, level, id);
    }
  }

  lemma RecordsAre(events: seq<Event>, at: Recorder, ids: seq<string>)
    requires Sound(events) && forall id :: at(id) == RecordAt(events, id)
    ensures InTurn(at, ids).Ok? ==> RecordsOf(InTurn(at, ids).value, events, ids)
  {
    InTurnAt(at, ids);
    if InTurn(at, ids).Ok? {
      forall i | 0 <= i < |ids| ensures IsRecord(InTurn(at, ids).value[i], events, ids[i])
                                        && ReadableAs(InTurn(at, ids).value[i], events)
      {
        OneRecord(events, ids[i], InTurn(at, ids).value[i]);
      }
    }
  }

  /** Nothing is wrong with the consignment. */
  ghost predicate Fine(events: seq<Event>, id: string) { forall error :: !IsError(error, events, id) }

  lemma FineIff(events: seq<Event>, id: string)
    requires Sound(events)
    ensures RecordAt(events, id).Ok? <==> Fine(events, id)
  {
    forall error ensures RecordAt(events, id) == Err(error) <==> IsError(error, events, id) {
      RecordErrorIs(events, id, error);
    }
  }

  /** The error of the first consignment that has no record. */
  ghost predicate IsFirstError(error: ConsignmentError, events: seq<Event>, ids: seq<string>) {
    exists k :: 0 <= k < |ids| && IsError(error, events, ids[k]) && forall j :: 0 <= j < k ==> Fine(events, ids[j])
  }

  lemma FirstErrorAt(events: seq<Event>, ids: seq<string>, k: nat, error: ConsignmentError)
    requires Sound(events) && k < |ids| && RecordAt(events, ids[k]) == Err(error)
    requires forall j :: 0 <= j < k ==> RecordAt(events, ids[j]).Ok?
    ensures IsFirstError(error, events, ids)
  {
    RecordErrorIs(events, ids[k], error);
    forall j | 0 <= j < k ensures Fine(events, ids[j]) { FineIff(events, ids[j]); }
  }

  lemma ErrorIsFirst(events: seq<Event>, at: Recorder, ids: seq<string>)
    requires Sound(events) && forall id :: at(id) == RecordAt(events, id)
    ensures InTurn(at, ids).Err? ==> IsFirstError(InTurn(at, ids).error, events, ids)
  {
    InTurnAt(at, ids);
    if InTurn(at, ids).Err? {
      var k :| 0 <= k < |ids| && at(ids[k]) == Err(InTurn(at, ids).error) && forall j :: 0 <= j < k ==> at(ids[j]).Ok?;
      FirstErrorAt(events, ids, k, InTurn(at, ids).error);
    }
  }

  /**
   * Sound events assemble to one record for each consignment, by its id, as its events say; or to what is wrong with
   * the first consignment that has no record; or, when there are none, to the error of the empty batch.
   */
  lemma AssembledByEvents(events: seq<Event>) returns (ids: seq<string>)
    requires Sound(events)
    ensures AreConsignments(ids, events)
    ensures events == [] ==> Assemble(events) == Err(EmptyBatch)
    ensures Assemble(events).Ok? ==> RecordsOf(Assemble(events).value, events, ids)
    ensures events != [] && Assemble(events).Err? ==> IsFirstError(Assemble(events).error, events, ids)
  {
    ids := Sort(TextLe, FirstSeen(events));
    IdsInOrder(events);
    RecordsAre(events, id => RecordAt(events, id), ids);
    ErrorIsFirst(events, id => RecordAt(events, id), ids);
  }
}
