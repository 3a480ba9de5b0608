/** The governed Kafka consumer as a state machine that may crash between any two steps. */
module IngestProtocol {
  import opened Wrappers
  import opened ByteStrings
  import opened DeltaRows
  import opened AppendProtocol
  import opened DeadLetter
  import opened IngestBatch

  datatype Config = Config(topic: string, decode: Decoder, maximum: nat)

  datatype Report = Report(received: nat, written: nat, alreadyPresent: nat, quarantined: nat)

  datatype Phase =
    | Down
    | Collecting(next: seq<nat>, batch: Batch)
    | Producing(next: seq<nat>, batch: Batch, poison: Message, reason: string)
    | Quarantining(next: seq<nat>, batch: Batch, poison: Message, reason: string)
    | Appending(next: seq<nat>, batch: Batch, call: Call)
    | Committing(next: seq<nat>, batch: Batch, written: nat, alreadyPresent: nat, pending: map<nat, Message>)
    | Finished(report: Report)

  /** Everything but `phase` survives a crash. Partitions are numbered from zero. */
  datatype State = State(
    logs: seq<seq<Option<Bytes>>>, committed: seq<nat>,
    bronze: Table, dlq: seq<DlqRecord>, quarantine: seq<DlqRecord>, phase: Phase)

  function RecordOf(cfg: Config, m: Message, reason: string): DlqRecord {
    BuildRecord(cfg.topic, m.partition, m.offset, reason, m.value)
  }

  /** The last message of each partition, as the dictionary of the commit loop holds it. */
  function LatestByPartition(messages: seq<Message>): (r: map<nat, Message>)
    ensures forall p :: p in r ==> r[p] in messages && r[p].partition == p
    ensures forall m :: m in messages ==> m.partition in r
  {
    if messages == [] then map[]
    else
      var last := messages[|messages| - 1];
      assert messages == messages[..|messages| - 1] + [last];
      LatestByPartition(messages[..|messages| - 1])[last.partition := last]
  }

  ghost predicate StartStep(s: State, s': State) {
    && (s.phase.Down? || s.phase.Finished?)
    && s' == s.(phase := Collecting(s.committed, EMPTY))
  }

  ghost predicate PollStep(cfg: Config, s: State, s': State, p: nat) {
    && s.phase.Collecting? && |s.phase.batch.messages| < cfg.maximum
    && p < |s.logs| && p < |s.phase.next| && s.phase.next[p] < |s.logs[p]|
    && var o := s.phase.next[p];
       var m := Message(p, o, s.logs[p][o]);
       var next := s.phase.next[p := o + 1];
       s' == s.(phase := match Classify(cfg.decode, s.phase.batch.eventIds, m)
                         case Accept(row) => Collecting(next, Accepted(s.phase.batch, row, m))
                         case Poison(reason) => Producing(next, s.phase.batch, m, reason))
  }

  ghost predicate ProduceStep(cfg: Config, s: State, s': State) {
    && s.phase.Producing?
    && s' == s.(dlq := s.dlq + [RecordOf(cfg, s.phase.poison, s.phase.reason)],
                phase := Quarantining(s.phase.next, s.phase.batch, s.phase.poison, s.phase.reason))
  }

  ghost predicate QuarantineStep(cfg: Config, s: State, s': State) {
    && s.phase.Quarantining?
    && s' == s.(quarantine := InsertRecord(s.quarantine, RecordOf(cfg, s.phase.poison, s.phase.reason)),
                phase := Collecting(s.phase.next, Poisoned(s.phase.batch, s.phase.reason, s.phase.poison)))
  }

  /** The bound or the idle timeout ends collection; an all-poison batch skips the table. */
  ghost predicate EndCollectStep(s: State, s': State) {
    && s.phase.Collecting? && s.phase.batch.messages != []
    && s' == s.(phase :=
         if s.phase.batch.events != []
         then Appending(s.phase.next, s.phase.batch, Call(s.phase.batch.events, Probe, 0))
         else Committing(s.phase.next, s.phase.batch, 0, 0, LatestByPartition(s.phase.batch.messages)))
  }

  ghost predicate AppendStep(s: State, s': State) {
    && s.phase.Appending? && s'.phase.Appending?
    && s' == s.(bronze := s'.bronze, phase := s.phase.(call := s'.phase.call))
    && CallStep(s.bronze, s.phase.call, s'.bronze, s'.phase.call)
  }

  ghost predicate AppendedStep(s: State, s': State) {
    && s.phase.Appending? && s.phase.call.phase.Returned?
    && s' == s.(phase := Committing(s.phase.next, s.phase.batch, s.phase.call.phase.written,
         s.phase.call.phase.alreadyPresent, LatestByPartition(s.phase.batch.messages)))
  }

  /** One confirmed synchronous commit, partitions in ascending order. */
  ghost predicate CommitStep(s: State, s': State, p: nat) {
    && s.phase.Committing? && p in s.phase.pending && p < |s.committed|
    && (forall q :: q in s.phase.pending ==> p <= q)
    && s' == s.(committed := s.committed[p := s.phase.pending[p].offset + 1],
                phase := s.phase.(pending := s.phase.pending - {p}))
  }

  ghost predicate FinishStep(s: State, s': State) {
    && s.phase.Committing? && s.phase.pending == map[]
    && s' == s.(phase := Finished(Report(|s.phase.batch.messages|, s.phase.written,
                                         s.phase.alreadyPresent, Total(s.phase.batch.reasonCounts))))
  }

  /** A crash, or any error that halts the run, at any point. */
  ghost predicate CrashStep(s: State, s': State) { s' == s.(phase := Down) }

  ghost predicate ProducerStep(s: State, s': State, p: nat, value: Option<Bytes>) {
    p < |s.logs| && s' == s.(logs := s.logs[p := s.logs[p] + [value]])
  }

  ghost predicate OtherWriterStep(s: State, s': State) {
    s' == s.(bronze := s'.bronze) && OthersMerge(s.bronze, s'.bronze)
  }

  ghost predicate ConsumerStep(cfg: Config, s: State, s': State) {
    || StartStep(s, s')
    || (exists p: nat :: PollStep(cfg, s, s', p))
    || ProduceStep(cfg, s, s')
    || QuarantineStep(cfg, s, s')
    || EndCollectStep(s, s')
    || AppendStep(s, s')
    || AppendedStep(s, s')
    || (exists p: nat :: CommitStep(s, s', p))
    || FinishStep(s, s')
    || CrashStep(s, s')
  }

  ghost predicate EnvironmentStep(s: State, s': State) {
    OtherWriterStep(s, s') || exists p: nat, value :: ProducerStep(s, s', p, value)
  }

  ghost predicate Step(cfg: Config, s: State, s': State) {
    ConsumerStep(cfg, s, s') || EnvironmentStep(s, s')
  }

  /** Before the first run: nothing committed, nothing quarantined, any table with unique keys. */
  ghost predicate Init(s: State) {
    && |s.committed| == |s.logs| && (forall p :: 0 <= p < |s.committed| ==> s.committed[p] == 0)
    && UniqueKeys(s.bronze.Rows()) && s.dlq == [] && s.quarantine == [] && s.phase.Down?
  }

  ghost predicate Run(cfg: Config, states: seq<State>) {
    && states != []
    && forall i, j :: 0 <= i && j == i + 1 < |states| ==> Step(cfg, states[i], states[j])
  }

  // ---- what is kept of a message ----

  predicate InLog(s: State, m: Message) {
    m.partition < |s.logs| && m.offset < |s.logs[m.partition]| && s.logs[m.partition][m.offset] == m.value
  }

  ghost predicate QuarantinedAs(cfg: Config, s: State, m: Message, reason: string) {
    RecordOf(cfg, m, reason) in s.dlq && RecordOf(cfg, m, reason) in s.quarantine
  }

  /**
   * Kept for good: a decodable message in bronze with its identity content, or quarantined as the
   * repetition of an event id that bronze holds; any other message quarantined under its reason.
   */
  ghost predicate Kept(cfg: Config, s: State, m: Message) {
    match cfg.decode(m.value)
    case Event(row) =>
      || HeldAs(s.bronze.Rows(), row)
      || (QuarantinedAs(cfg, s, m, REASON_DUPLICATE_EVENT_ID) && row.key in Keys(s.bronze.Rows()))
    case Rejected(code, text) => QuarantinedAs(cfg, s, m, ReasonOf(code, text))
  }

  /** One record, in the topic and in the table, has the source, the reason and the bytes of the message. */
  ghost predicate DeadLettered(s: State, topic: string, m: Message, reason: string) {
    exists r :: r in s.dlq && r in s.quarantine && Records(r, topic, m.partition, m.offset, reason, m.value)
  }

  /**
   * What is kept of a message, in its own terms. A decodable one: a row of its event id with equal content, or its
   * bytes as those of a repeated id that bronze has a row of. Any other: its bytes under the reason of its failure.
   */
  ghost predicate KeptByContent(cfg: Config, s: State, m: Message) {
    match cfg.decode(m.value)
    case Event(row) =>
      || (exists held :: held in s.bronze.Rows() && held.key == row.key && !Differs(held, row))
      || (DeadLettered(s, cfg.topic, m, "duplicate-event-id") &&
            exists held :: held in s.bronze.Rows() && held.key == row.key)
    case Rejected(code, text) =>
      if exists before: string, after: string :: text == before + "repeats event_id" + after
      then DeadLettered(s, cfg.topic, m, "duplicate-event-id") else DeadLettered(s, cfg.topic, m, code)
  }

  lemma QuarantinedIsDeadLettered(cfg: Config, s: State, m: Message, reason: string)
    requires QuarantinedAs(cfg, s, m, reason)
    ensures DeadLettered(s, cfg.topic, m, reason)
  {
    BuiltRecord(cfg.topic, m.partition, m.offset, reason, m.value);
  }

  lemma KeptIsByContent(cfg: Config, s: State, m: Message)
    requires Kept(cfg, s, m)
    ensures KeptByContent(cfg, s, m)
  {
    match cfg.decode(m.value)
    case Event(row) =>
      if QuarantinedAs(cfg, s, m, REASON_DUPLICATE_EVENT_ID) {
        QuarantinedIsDeadLettered(cfg, s, m, REASON_DUPLICATE_EVENT_ID);
      }
    case Rejected(code, text) =>
      ReasonIff(code, text);
      QuarantinedIsDeadLettered(cfg, s, m, ReasonOf(code, text));
  }

  lemma SafeByContent(cfg: Config, s: State)
    requires Safe(cfg, s)
    ensures forall m :: InLog(s, m) && m.offset < s.committed[m.partition] ==> KeptByContent(cfg, s, m)
  {
    forall m | InLog(s, m) && m.offset < s.committed[m.partition] ensures KeptByContent(cfg, s, m) {
      KeptIsByContent(cfg, s, m);
    }
  }

  /** Kept for good, or about to be by the append of the collected events. */
  ghost predicate Treated(cfg: Config, s: State, b: Batch, m: Message) {
    match cfg.decode(m.value)
    case Event(row) =>
      row in b.events || (QuarantinedAs(cfg, s, m, REASON_DUPLICATE_EVENT_ID) && row.key in b.eventIds)
    case Rejected(code, text) => QuarantinedAs(cfg, s, m, ReasonOf(code, text))
  }

  ghost predicate Genuine(cfg: Config, s: State, r: DlqRecord) {
    exists m, reason :: InLog(s, m) && r == RecordOf(cfg, m, reason)
  }

  ghost predicate DistinctIds(table: seq<DlqRecord>) {
    forall i, j :: 0 <= i < j < |table| ==> table[i].eventId != table[j].eventId
  }

  /** The committed prefix of every partition is kept. */
  ghost predicate Safe(cfg: Config, s: State) {
    && |s.committed| == |s.logs| && (forall p :: 0 <= p < |s.committed| ==> s.committed[p] <= |s.logs[p]|)
    && forall m :: InLog(s, m) && m.offset < s.committed[m.partition] ==> Kept(cfg, s, m)
  }

  ghost predicate Stored(cfg: Config, s: State) {
    && UniqueKeys(s.bronze.Rows()) && DistinctIds(s.quarantine)
    && (forall r :: r in s.dlq ==> Genuine(cfg, s, r))
    && (forall r :: r in s.quarantine ==> Genuine(cfg, s, r))
  }

  /** `next[p]` is one past the last collected offset, and collection has no gaps. */
  ghost predicate Gapless(s: State, next: seq<nat>, messages: seq<Message>) {
    && |next| == |s.logs| == |s.committed|
    && (forall p :: 0 <= p < |next| ==> s.committed[p] <= next[p] <= |s.logs[p]|)
    && Behind(s, next, messages) && LatestAt(next, LatestByPartition(messages))
  }

  /** The messages are in the logs, before the next offsets. */
  ghost predicate Behind(s: State, next: seq<nat>, messages: seq<Message>)
    requires |next| == |s.logs|
  {
    forall m :: m in messages ==> InLog(s, m) && m.offset < next[m.partition]
  }

  /** The last messages of the partitions are those just before the next offsets. */
  ghost predicate LatestAt(next: seq<nat>, latest: map<nat, Message>) {
    forall p :: p in latest ==> p < |next| && latest[p].offset + 1 == next[p]
  }

  ghost predicate Covers(cfg: Config, s: State, next: seq<nat>, b: Batch, hole: Option<Message>) {
    && |next| == |s.logs| == |s.committed|
    && forall m :: InLog(s, m) && s.committed[m.partition] <= m.offset < next[m.partition] && hole != Some(m) ==>
         m in b.messages && Treated(cfg, s, b, m)
  }

  ghost predicate Counted(b: Batch) {
    && b.eventIds == Keys(b.events) && UniqueKeys(b.events)
    && |b.messages| == |b.events| + Total(b.reasonCounts)
  }

  /** The poll moved past `poison`, which the batch does not list yet. */
  ghost predicate Pending(cfg: Config, s: State, next: seq<nat>, b: Batch, m: Message, reason: string) {
    && InLog(s, m) && |next| == |s.committed| == |s.logs| && next[m.partition] == m.offset + 1
    && s.committed[m.partition] <= m.offset
    && Gapless(s, next[m.partition := m.offset], b.messages)
    && Covers(cfg, s, next, b, Some(m)) && Counted(b)
    && Classify(cfg.decode, b.eventIds, m) == Poison(reason)
  }

  ghost predicate PhaseOk(cfg: Config, s: State) {
    match s.phase
    case Down => true
    case Collecting(next, b) => Gapless(s, next, b.messages) && Covers(cfg, s, next, b, None) && Counted(b)
    case Producing(next, b, m, reason) => Pending(cfg, s, next, b, m, reason)
    case Quarantining(next, b, m, reason) =>
      Pending(cfg, s, next, b, m, reason) && RecordOf(cfg, m, reason) in s.dlq
    case Appending(next, b, call) =>
      && Gapless(s, next, b.messages) && Covers(cfg, s, next, b, None) && Counted(b)
      && call.batch == b.events && CallOk(s.bronze, call)
    case Committing(next, b, written, present, pending) =>
      && |next| == |s.logs| == |s.committed| && Counted(b) && written + present == |b.events|
      && (forall p :: 0 <= p < |next| ==> s.committed[p] <= next[p] <= |s.logs[p]|)
      && (forall m :: InLog(s, m) && m.offset < next[m.partition] ==> Kept(cfg, s, m))
      && (forall p :: p in pending ==> p < |next| && pending[p].offset + 1 == next[p])
    case Finished(r) => r.received == r.written + r.alreadyPresent + r.quarantined
  }

  ghost predicate Inv(cfg: Config, s: State) {
    ValidTopic(cfg.topic) && Safe(cfg, s) && Stored(cfg, s) && PhaseOk(cfg, s)
  }

  // ---- what only grows ----

  ghost predicate Durable(s: State, s': State) {
    && |s'.logs| == |s.logs| && (forall p :: 0 <= p < |s.logs| ==> s.logs[p] <= s'.logs[p])
    && Grows(s.bronze, s'.bronze) && s.dlq <= s'.dlq && s.quarantine <= s'.quarantine
  }

  lemma HeldGrows(rows: seq<Row>, rows': seq<Row>, row: Row)
    requires rows <= rows'
    ensures HeldAs(rows, row) ==> HeldAs(rows', row)
    ensures row.key in Keys(rows) ==> row.key in Keys(rows')
  {
    if HeldAs(rows, row) {
      var held :| held in rows && held.key == row.key && !Differs(held, row);
      assert held in rows';
    }
    if row.key in Keys(rows) {
      var held :| held in rows && held.key == row.key;
      assert held in rows';
    }
  }

  lemma KeptGrows(cfg: Config, s: State, s': State, m: Message)
    requires Durable(s, s') && Kept(cfg, s, m)
    ensures Kept(cfg, s', m)
  {
    match cfg.decode(m.value)
    case Event(row) => HeldGrows(s.bronze.Rows(), s'.bronze.Rows(), row);
    case Rejected(_, _) =>
  }

  lemma GenuineGrows(cfg: Config, s: State, s': State, r: DlqRecord)
    requires Durable(s, s') && Genuine(cfg, s, r)
    ensures Genuine(cfg, s', r)
  {
    var m, reason :| InLog(s, m) && r == RecordOf(cfg, m, reason);
    assert InLog(s', m);
  }

  /** Durable growth with the same commits keeps the store, given what is new in it. */
  lemma StoreGrows(cfg: Config, s: State, s': State)
    requires Durable(s, s') && Safe(cfg, s) && Stored(cfg, s) && s'.committed == s.committed
    requires UniqueKeys(s'.bronze.Rows()) && DistinctIds(s'.quarantine)
    requires forall r :: (r in s'.dlq && r !in s.dlq) || (r in s'.quarantine && r !in s.quarantine) ==>
               Genuine(cfg, s', r)
    ensures Safe(cfg, s') && Stored(cfg, s')
  {
    forall m | InLog(s', m) && m.offset < s'.committed[m.partition] ensures Kept(cfg, s', m) {
      assert InLog(s, m);
      KeptGrows(cfg, s, s', m);
    }
    forall r | r in s'.dlq || r in s'.quarantine ensures Genuine(cfg, s', r) {
      if r in s.dlq || r in s.quarantine { GenuineGrows(cfg, s, s', r); }
    }
  }

  // ---- every step keeps the invariant ----

  lemma OneMore(messages: seq<Message>, m: Message)
    ensures LatestByPartition(messages + [m]) == LatestByPartition(messages)[m.partition := m]
  {
    assert (messages + [m])[..|messages|] == messages;
  }

  lemma KeysOneMore(rows: seq<Row>, row: Row)
    ensures Keys(rows + [row]) == Keys(rows) + {row.key}
    ensures UniqueKeys(rows) && row.key !in Keys(rows) ==> UniqueKeys(rows + [row])
  {
    var more := rows + [row];
    forall k ensures k in Keys(more) <==> k in Keys(rows) + {row.key} {
      if k in Keys(rows) {
        var r :| r in rows && r.key == k;
        assert r in more;
      }
      assert more[|rows|] == row && row in more;
    }
    forall i | row.key !in Keys(rows) && 0 <= i < |rows| ensures rows[i].key != row.key {
      assert rows[i] in rows && rows[i].key in Keys(rows);
    }
  }

  lemma StillBehind(s: State, next: seq<nat>, messages: seq<Message>, m: Message)
    requires |next| == |s.logs| && Behind(s, next, messages) && InLog(s, m) && next[m.partition] == m.offset
    ensures Behind(s, next[m.partition := m.offset + 1], messages + [m])
  {
  }

  lemma LatestMoves(next: seq<nat>, latest: map<nat, Message>, m: Message)
    requires LatestAt(next, latest) && m.partition < |next|
    ensures LatestAt(next[m.partition := m.offset + 1], latest[m.partition := m])
  {
  }

  lemma CollectedOneMore(s: State, next: seq<nat>, messages: seq<Message>, m: Message)
    requires Gapless(s, next, messages) && InLog(s, m) && next[m.partition] == m.offset
    ensures Gapless(s, next[m.partition := m.offset + 1], messages + [m])
  {
    OneMore(messages, m);
    StillBehind(s, next, messages, m);
    LatestMoves(next, LatestByPartition(messages), m);
  }

  lemma AcceptedBatch(cfg: Config, s: State, next: seq<nat>, b: Batch, row: Row, m: Message)
    requires Gapless(s, next, b.messages) && Covers(cfg, s, next, b, None) && Counted(b)
    requires InLog(s, m) && next[m.partition] == m.offset
    requires cfg.decode(m.value) == Event(row) && row.key !in b.eventIds
    ensures var next', b' := next[m.partition := m.offset + 1], Accepted(b, row, m);
      Gapless(s, next', b'.messages) && Covers(cfg, s, next', b', None) && Counted(b')
  {
    CollectedOneMore(s, next, b.messages, m);
    KeysOneMore(b.events, row);
    AcceptedCovers(cfg, s, next, b, row, m);
  }

  lemma PollAcceptsPhase(cfg: Config, s: State, s': State, p: nat)
    requires PhaseOk(cfg, s) && PollStep(cfg, s, s', p) && s'.phase.Collecting?
    ensures PhaseOk(cfg, s')
  {
    var next, b := s.phase.next, s.phase.batch;
    var m := Message(p, next[p], s.logs[p][next[p]]);
    CoversGrows(cfg, s, s', next, b, None);
    AcceptedBatch(cfg, s', next, b, cfg.decode(m.value).row, m);
  }

  lemma PollAccepts(cfg: Config, s: State, s': State, p: nat)
    requires Inv(cfg, s) && PollStep(cfg, s, s', p) && s'.phase.Collecting?
    ensures Inv(cfg, s')
  {
    StoreGrows(cfg, s, s');
    PollAcceptsPhase(cfg, s, s', p);
  }

  lemma AcceptedCovers(cfg: Config, s: State, next: seq<nat>, b: Batch, row: Row, m: Message)
    requires Covers(cfg, s, next, b, None) && InLog(s, m) && next[m.partition] == m.offset
    requires cfg.decode(m.value) == Event(row)
    ensures Covers(cfg, s, next[m.partition := m.offset + 1], Accepted(b, row, m), None)
  {
    var b', next' := Accepted(b, row, m), next[m.partition := m.offset + 1];
    assert b'.messages[|b.messages|] == m && b'.events[|b.events|] == row;
    forall m' | InLog(s, m') && s.committed[m'.partition] <= m'.offset < next'[m'.partition]
      ensures m' in b'.messages && Treated(cfg, s, b', m')
    {
      if m'.partition == m.partition && m'.offset == m.offset {
        assert m' == m;
      } else {
        assert m' in b.messages && Treated(cfg, s, b, m');
      }
    }
  }

  lemma PollRejectsPhase(cfg: Config, s: State, s': State, p: nat)
    requires PhaseOk(cfg, s) && PollStep(cfg, s, s', p) && s'.phase.Producing?
    ensures PhaseOk(cfg, s')
  {
    var next, b := s.phase.next, s.phase.batch;
    var m := Message(p, next[p], s.logs[p][next[p]]);
    var next' := next[p := next[p] + 1];
    CoversGrows(cfg, s, s', next, b, None);
    RejectedCovers(cfg, s', next, b, m);
    assert next'[p := next[p]] == next;
    assert Gapless(s', next, b.messages);
  }

  lemma PollRejects(cfg: Config, s: State, s': State, p: nat)
    requires Inv(cfg, s) && PollStep(cfg, s, s', p) && s'.phase.Producing?
    ensures Inv(cfg, s')
  {
    StoreGrows(cfg, s, s');
    PollRejectsPhase(cfg, s, s', p);
  }

  lemma RejectedCovers(cfg: Config, s: State, next: seq<nat>, b: Batch, m: Message)
    requires Covers(cfg, s, next, b, None) && InLog(s, m) && next[m.partition] == m.offset
    ensures Covers(cfg, s, next[m.partition := m.offset + 1], b, Some(m))
  {
    var next' := next[m.partition := m.offset + 1];
    forall m' | InLog(s, m') && s.committed[m'.partition] <= m'.offset < next'[m'.partition] && m' != m
      ensures m' in b.messages && Treated(cfg, s, b, m')
    {
      assert m'.partition == m.partition ==> m'.offset != m.offset;
    }
  }

  lemma CoversGrows(cfg: Config, s: State, s': State, next: seq<nat>, b: Batch, hole: Option<Message>)
    requires Covers(cfg, s, next, b, hole) && Durable(s, s') && s'.committed == s.committed
    requires forall p :: 0 <= p < |next| ==> next[p] <= |s.logs[p]|
    ensures Covers(cfg, s', next, b, hole)
  {
    forall m | InLog(s', m) && s'.committed[m.partition] <= m.offset < next[m.partition] && hole != Some(m)
      ensures m in b.messages && Treated(cfg, s', b, m)
    {
      assert InLog(s, m) && Treated(cfg, s, b, m);
    }
  }

  lemma GaplessGrows(s: State, s': State, next: seq<nat>, messages: seq<Message>)
    requires Gapless(s, next, messages) && Durable(s, s') && s'.committed == s.committed
    ensures Gapless(s', next, messages)
  {
    forall p | 0 <= p < |next| ensures next[p] <= |s'.logs[p]| { assert s.logs[p] <= s'.logs[p]; }
    forall m | m in messages ensures InLog(s', m) && m.offset < next[m.partition] {
      assert InLog(s, m) && s.logs[m.partition] <= s'.logs[m.partition];
    }
  }

  lemma PendingGrows(cfg: Config, s: State, s': State, next: seq<nat>, b: Batch, m: Message, reason: string)
    requires Pending(cfg, s, next, b, m, reason) && Durable(s, s') && s'.committed == s.committed
    ensures Pending(cfg, s', next, b, m, reason)
  {
    var before := next[m.partition := m.offset];
    forall p | 0 <= p < |next| ensures next[p] <= |s.logs[p]| {
      assert before[p] <= |s.logs[p]|;
    }
    GaplessGrows(s, s', before, b.messages);
    CoversGrows(cfg, s, s', next, b, Some(m));
  }

  lemma ProduceKeeps(cfg: Config, s: State, s': State)
    requires Inv(cfg, s) && ProduceStep(cfg, s, s')
    ensures Inv(cfg, s')
  {
    var r := RecordOf(cfg, s.phase.poison, s.phase.reason);
    assert InLog(s', s.phase.poison) && Genuine(cfg, s', r);
    assert forall r' :: r' in s'.dlq ==> r' in s.dlq || r' == r;
    StoreGrows(cfg, s, s');
    PendingGrows(cfg, s, s', s.phase.next, s.phase.batch, s.phase.poison, s.phase.reason);
    assert s'.dlq[|s.dlq|] == r;
  }

  /** A retained quarantine row of the same identity is the same record: replays agree. */
  lemma InsertedRecordIsHeld(cfg: Config, s: State, m: Message, reason: string)
    requires ValidTopic(cfg.topic) && Stored(cfg, s) && InLog(s, m)
    ensures RecordOf(cfg, m, reason) in InsertRecord(s.quarantine, RecordOf(cfg, m, reason))
    ensures DistinctIds(InsertRecord(s.quarantine, RecordOf(cfg, m, reason)))
  {
    var r := RecordOf(cfg, m, reason);
    if Known(s.quarantine, r.eventId) {
      var i :| 0 <= i < |s.quarantine| && s.quarantine[i].eventId == r.eventId;
      assert s.quarantine[i] in s.quarantine;
      var m', reason' :| InLog(s, m') && s.quarantine[i] == RecordOf(cfg, m', reason');
      KeyMaterialInjective(cfg.topic, m.partition, m.offset, reason, cfg.topic, m'.partition, m'.offset, reason');
      assert s.quarantine[i] == r;
    } else {
      var table := s.quarantine + [r];
      assert table[|s.quarantine|] == r;
    }
  }

  lemma QuarantinedCovers(cfg: Config, s: State, next: seq<nat>, b: Batch, m: Message, reason: string)
    requires Covers(cfg, s, next, b, Some(m)) && QuarantinedAs(cfg, s, m, reason)
    requires Classify(cfg.decode, b.eventIds, m) == Poison(reason)
    ensures Covers(cfg, s, next, Poisoned(b, reason, m), None)
  {
    var b' := Poisoned(b, reason, m);
    forall m' | InLog(s, m') && s.committed[m'.partition] <= m'.offset < next[m'.partition]
      ensures m' in b'.messages && Treated(cfg, s, b', m')
    {
      if m' == m {
        assert b'.messages[|b.messages|] == m;
      } else {
        assert m' in b.messages && Treated(cfg, s, b, m');
      }
    }
  }

  lemma QuarantinedBatch(cfg: Config, s: State, next: seq<nat>, b: Batch, m: Message, reason: string)
    requires Pending(cfg, s, next, b, m, reason) && QuarantinedAs(cfg, s, m, reason)
    ensures var b' := Poisoned(b, reason, m);
      Gapless(s, next, b'.messages) && Covers(cfg, s, next, b', None) && Counted(b')
  {
    assert next[m.partition := m.offset][m.partition := m.offset + 1] == next;
    CollectedOneMore(s, next[m.partition := m.offset], b.messages, m);
    TotalCountsOneMore(b, reason, m);
    QuarantinedCovers(cfg, s, next, b, m, reason);
  }

  lemma QuarantineKeeps(cfg: Config, s: State, s': State)
    requires Inv(cfg, s) && QuarantineStep(cfg, s, s')
    ensures Inv(cfg, s')
  {
    var next, b, m, reason := s.phase.next, s.phase.batch, s.phase.poison, s.phase.reason;
    var r := RecordOf(cfg, m, reason);
    InsertedRecordIsHeld(cfg, s, m, reason);
    assert InLog(s', m) && Genuine(cfg, s', r);
    assert forall r' :: r' in s'.quarantine ==> r' in s.quarantine || r' == r;
    StoreGrows(cfg, s, s');
    PendingGrows(cfg, s, s', next, b, m, reason);
    QuarantinedBatch(cfg, s', next, b, m, reason);
  }

  /** Once the events are held, everything the batch treated is kept. */
  lemma TreatedIsKept(cfg: Config, s: State, b: Batch, m: Message)
    requires Treated(cfg, s, b, m) && Counted(b) && Settled(s.bronze.Rows(), b.events)
    ensures Kept(cfg, s, m)
  {
    match cfg.decode(m.value)
    case Event(row) =>
      if row in b.events {
        assert HeldAs(s.bronze.Rows(), row);
      } else {
        var held :| held in b.events && held.key == row.key;
        assert HeldAs(s.bronze.Rows(), held);
      }
    case Rejected(_, _) =>
  }

  lemma CoveredIsKept(cfg: Config, s: State, next: seq<nat>, b: Batch, m: Message)
    requires Safe(cfg, s) && Covers(cfg, s, next, b, None) && Counted(b) && Settled(s.bronze.Rows(), b.events)
    requires InLog(s, m) && m.offset < next[m.partition]
    ensures Kept(cfg, s, m)
  {
    if m.offset >= s.committed[m.partition] { TreatedIsKept(cfg, s, b, m); }
  }

  lemma AllCoveredKept(cfg: Config, s: State, s': State, next: seq<nat>, b: Batch)
    requires Safe(cfg, s) && Covers(cfg, s, next, b, None) && Counted(b) && Settled(s.bronze.Rows(), b.events)
    requires Durable(s, s') && s'.logs == s.logs
    ensures forall m :: InLog(s', m) && m.offset < next[m.partition] ==> Kept(cfg, s', m)
  {
    forall m | InLog(s', m) && m.offset < next[m.partition] ensures Kept(cfg, s', m) {
      assert InLog(s, m);
      CoveredIsKept(cfg, s, next, b, m);
      KeptGrows(cfg, s, s', m);
    }
  }

  lemma ReadyToCommit(cfg: Config, s: State, s': State, next: seq<nat>, b: Batch, written: nat, present: nat)
    requires Inv(cfg, s) && Gapless(s, next, b.messages) && Covers(cfg, s, next, b, None) && Counted(b)
    requires Settled(s.bronze.Rows(), b.events) && written + present == |b.events|
    requires s' == s.(phase := Committing(next, b, written, present, LatestByPartition(b.messages)))
    ensures Inv(cfg, s')
  {
    StoreGrows(cfg, s, s');
    AllCoveredKept(cfg, s, s', next, b);
    assert PhaseOk(cfg, s');
  }

  lemma EndCollectKeeps(cfg: Config, s: State, s': State)
    requires Inv(cfg, s) && EndCollectStep(s, s')
    ensures Inv(cfg, s')
  {
    StoreGrows(cfg, s, s');
    if s.phase.batch.events == [] {
      ReadyToCommit(cfg, s, s', s.phase.next, s.phase.batch, 0, 0);
    } else {
      CoversGrows(cfg, s, s', s.phase.next, s.phase.batch, None);
    }
  }

  lemma AppendKeeps(cfg: Config, s: State, s': State)
    requires Inv(cfg, s) && AppendStep(s, s')
    ensures Inv(cfg, s')
  {
    CallStepKeeps(s.bronze, s.phase.call, s'.bronze, s'.phase.call);
    StoreGrows(cfg, s, s');
    CoversGrows(cfg, s, s', s.phase.next, s.phase.batch, None);
  }

  lemma AppendedKeeps(cfg: Config, s: State, s': State)
    requires Inv(cfg, s) && AppendedStep(s, s')
    ensures Inv(cfg, s')
  {
    var next, b, call := s.phase.next, s.phase.batch, s.phase.call;
    assert CallOk(s.bronze, call) && call.batch == b.events;
    assert Settled(s.bronze.Rows(), b.events);
    assert Gapless(s, next, b.messages) && Covers(cfg, s, next, b, None) && Counted(b);
    ReadyToCommit(cfg, s, s', next, b, call.phase.written, call.phase.alreadyPresent);
  }

  /** What is kept below `next` is kept after a commit. */
  lemma KeptBelow(cfg: Config, s: State, s': State, next: seq<nat>)
    requires s'.logs == s.logs && Durable(s, s') && |next| == |s.logs|
    requires forall m :: InLog(s, m) && m.offset < next[m.partition] ==> Kept(cfg, s, m)
    ensures forall m :: InLog(s', m) && m.offset < next[m.partition] ==> Kept(cfg, s', m)
  {
    forall m | InLog(s', m) && m.offset < next[m.partition] ensures Kept(cfg, s', m) {
      assert InLog(s, m);
      KeptGrows(cfg, s, s', m);
    }
  }

  lemma CommitStores(cfg: Config, s: State, s': State)
    requires Stored(cfg, s) && s'.bronze == s.bronze && s'.dlq == s.dlq && s'.quarantine == s.quarantine
    requires Durable(s, s')
    ensures Stored(cfg, s')
  {
    forall r | r in s'.dlq || r in s'.quarantine ensures Genuine(cfg, s', r) {
      GenuineGrows(cfg, s, s', r);
    }
  }

  lemma CommitKeeps(cfg: Config, s: State, s': State, p: nat)
    requires Inv(cfg, s) && CommitStep(s, s', p)
    ensures Inv(cfg, s')
  {
    var next := s.phase.next;
    CommitStores(cfg, s, s');
    KeptBelow(cfg, s, s', next);
    assert forall q :: 0 <= q < |next| ==> s'.committed[q] <= next[q];
    assert PhaseOk(cfg, s');
    assert Safe(cfg, s');
  }

  lemma BatchGrows(cfg: Config, s: State, s': State)
    requires Inv(cfg, s) && Durable(s, s') && s'.committed == s.committed && s'.phase == s.phase
    ensures PhaseOk(cfg, s')
  {
    match s.phase
    case Collecting(next, b) =>
      GaplessGrows(s, s', next, b.messages);
      CoversGrows(cfg, s, s', next, b, None);
    case Producing(next, b, m, reason) => PendingGrows(cfg, s, s', next, b, m, reason);
    case Quarantining(next, b, m, reason) => PendingGrows(cfg, s, s', next, b, m, reason);
    case Appending(next, b, call) =>
      GaplessGrows(s, s', next, b.messages);
      CoversGrows(cfg, s, s', next, b, None);
      CallOkGrows(s.bronze, s'.bronze, call);
    case Committing(next, b, _, _, _) =>
      forall m | InLog(s', m) && m.offset < next[m.partition] ensures Kept(cfg, s', m) {
        assert InLog(s, m);
        KeptGrows(cfg, s, s', m);
      }
    case _ =>
  }

  /** Other parties only add: producers to the logs, other writers to bronze. */
  lemma OthersKeep(cfg: Config, s: State, s': State)
    requires Inv(cfg, s) && EnvironmentStep(s, s')
    ensures Inv(cfg, s')
  {
    if OtherWriterStep(s, s') { OthersGrow(s.bronze, s'.bronze); }
    StoreGrows(cfg, s, s');
    BatchGrows(cfg, s, s');
  }

  lemma RestartKeeps(cfg: Config, s: State, s': State)
    requires Inv(cfg, s) && (StartStep(s, s') || CrashStep(s, s') || FinishStep(s, s'))
    ensures Inv(cfg, s')
  {
    StoreGrows(cfg, s, s');
    if StartStep(s, s') { assert Total(map[]) == 0; }
  }

  lemma ConsumerStepKeeps(cfg: Config, s: State, s': State)
    requires Inv(cfg, s) && ConsumerStep(cfg, s, s')
    ensures Inv(cfg, s')
  {
    if p: nat :| PollStep(cfg, s, s', p) {
      if s'.phase.Collecting? { PollAccepts(cfg, s, s', p); } else { PollRejects(cfg, s, s', p); }
    } else if ProduceStep(cfg, s, s') {
      ProduceKeeps(cfg, s, s');
    } else if QuarantineStep(cfg, s, s') {
      QuarantineKeeps(cfg, s, s');
    } else if EndCollectStep(s, s') {
      EndCollectKeeps(cfg, s, s');
    } else if AppendStep(s, s') {
      AppendKeeps(cfg, s, s');
    } else if AppendedStep(s, s') {
      AppendedKeeps(cfg, s, s');
    } else if p: nat :| CommitStep(s, s', p) {
      CommitKeeps(cfg, s, s', p);
    } else {
      RestartKeeps(cfg, s, s');
    }
  }

  ghost predicate Advances(s: State, s': State) {
    && Durable(s, s') && |s'.committed| == |s.committed|
    && forall p :: 0 <= p < |s.committed| ==> s.committed[p] <= s'.committed[p]
  }

  /** A commit never moves an offset back, since collection starts at the committed offset. */
  lemma CommitAdvances(cfg: Config, s: State, s': State, p: nat)
    requires Inv(cfg, s) && CommitStep(s, s', p)
    ensures Advances(s, s')
  {
  }

  /** Steps that touch the DLQ and the phase only. */
  lemma CollectingAdvances(cfg: Config, s: State, s': State)
    requires ProduceStep(cfg, s, s') || QuarantineStep(cfg, s, s')
    ensures Advances(s, s')
  {
  }

  lemma BronzeAdvances(cfg: Config, s: State, s': State)
    requires Inv(cfg, s) && (AppendStep(s, s') || OtherWriterStep(s, s'))
    ensures Advances(s, s')
  {
    if AppendStep(s, s') {
      CallStepKeeps(s.bronze, s.phase.call, s'.bronze, s'.phase.call);
    } else {
      OthersGrow(s.bronze, s'.bronze);
    }
  }

  lemma StepAdvances(cfg: Config, s: State, s': State)
    requires Inv(cfg, s) && Step(cfg, s, s')
    ensures Advances(s, s')
  {
    if p: nat :| CommitStep(s, s', p) {
      CommitAdvances(cfg, s, s', p);
    } else if ProduceStep(cfg, s, s') || QuarantineStep(cfg, s, s') {
      CollectingAdvances(cfg, s, s');
    } else if AppendStep(s, s') || OtherWriterStep(s, s') {
      BronzeAdvances(cfg, s, s');
    } else if p: nat, value :| ProducerStep(s, s', p, value) {
    } else {
      assert s' == s.(phase := s'.phase);
    }
  }

  lemma StepKeeps(cfg: Config, s: State, s': State)
    requires Inv(cfg, s) && Step(cfg, s, s')
    ensures Inv(cfg, s') && Advances(s, s')
  {
    StepAdvances(cfg, s, s');
    if ConsumerStep(cfg, s, s') {
      ConsumerStepKeeps(cfg, s, s');
    } else {
      OthersKeep(cfg, s, s');
    }
  }

  lemma InitIsInv(cfg: Config, s: State)
    requires ValidTopic(cfg.topic) && Init(s)
    ensures Inv(cfg, s)
  {
  }

  /**
   * Over every run, with crashes and restarts at any point: each message below a committed offset
   * is kept, the tables keep unique identities, and every completed run's counts add up.
   */
  lemma {:induction false} EveryRunIsSafe(cfg: Config, states: seq<State>)
    requires ValidTopic(cfg.topic) && Run(cfg, states) && Init(states[0])
    ensures var last := states[|states| - 1];
      && Inv(cfg, last) && |last.committed| == |last.logs| == |states[0].logs|
      && (forall m :: InLog(last, m) && m.offset < last.committed[m.partition] ==> KeptByContent(cfg, last, m))
      && UniqueKeys(last.bronze.Rows())
      && (last.phase.Finished? ==>
            last.phase.report.received == last.phase.report.written + last.phase.report.alreadyPresent
                                          + last.phase.report.quarantined)
  {
    InitIsInv(cfg, states[0]);
    if |states| > 1 {
      EveryRunIsSafe(cfg, states[..|states| - 1]);
      assert Step(cfg, states[|states| - 2], states[|states| - 1]);
      StepKeeps(cfg, states[|states| - 2], states[|states| - 1]);
    }
    SafeByContent(cfg, states[|states| - 1]);
  }

  lemma NextAdvances(cfg: Config, states: seq<State>, j: nat)
    requires ValidTopic(cfg.topic) && Run(cfg, states) && Init(states[0]) && 0 < j < |states|
    ensures Advances(states[j - 1], states[j])
  {
    EveryRunIsSafe(cfg, states[..j]);
    var s, s' := states[j - 1], states[j];
    assert Step(cfg, s, s');
    StepKeeps(cfg, s, s');
  }

  lemma {:induction false} AdvancesThrough(states: seq<State>, i: nat, j: nat)
    requires i <= j < |states|
    requires forall a, b :: 0 <= a && b == a + 1 < |states| ==> Advances(states[a], states[b])
    ensures Advances(states[i], states[j])
    decreases j - i
  {
    if i < j {
      AdvancesThrough(states, i, j - 1);
      var s, s' := states[j - 1], states[j];
      AdvancesTransitive(states[i], s, s');
    } else {
      AdvancesReflexive(states[i]);
    }
  }

  lemma RunAdvances(cfg: Config, states: seq<State>, i: nat, j: nat)
    requires ValidTopic(cfg.topic) && Run(cfg, states) && Init(states[0]) && i <= j < |states|
    ensures Advances(states[i], states[j])
  {
    forall a, b | 0 <= a && b == a + 1 < |states| ensures Advances(states[a], states[b]) {
      NextAdvances(cfg, states, b);
    }
    AdvancesThrough(states, i, j);
  }

  lemma AdvancesReflexive(s: State)
    ensures Advances(s, s)
  {
  }

  lemma AdvancesTransitive(a: State, b: State, c: State)
    requires Advances(a, b) && Advances(b, c)
    ensures Advances(a, c)
  {
  }

  lemma DeadLetteredGrows(s: State, s': State, topic: string, m: Message, reason: string)
    requires Durable(s, s') && DeadLettered(s, topic, m, reason)
    ensures DeadLettered(s', topic, m, reason)
  {
    var r :| r in s.dlq && r in s.quarantine && Records(r, topic, m.partition, m.offset, reason, m.value);
    assert r in s'.dlq && r in s'.quarantine;
  }

  lemma KeptByContentGrows(cfg: Config, s: State, s': State, m: Message)
    requires Durable(s, s') && KeptByContent(cfg, s, m)
    ensures KeptByContent(cfg, s', m)
  {
    match cfg.decode(m.value)
    case Event(row) =>
      HeldGrows(s.bronze.Rows(), s'.bronze.Rows(), row);
      if HeldAs(s.bronze.Rows(), row) {
      } else {
        DeadLetteredGrows(s, s', cfg.topic, m, "duplicate-event-id");
        var held :| held in s.bronze.Rows() && held.key == row.key;
        assert held in s'.bronze.Rows();
      }
    case Rejected(code, text) =>
      if DeadLettered(s, cfg.topic, m, "duplicate-event-id") {
        DeadLetteredGrows(s, s', cfg.topic, m, "duplicate-event-id");
      }
      if DeadLettered(s, cfg.topic, m, code) { DeadLetteredGrows(s, s', cfg.topic, m, code); }
  }

  /** Along a run committed offsets never go down, and what was kept at one point stays kept. */
  lemma RunsOnlyAdd(cfg: Config, states: seq<State>, i: nat, j: nat, m: Message)
    requires ValidTopic(cfg.topic) && Run(cfg, states) && Init(states[0]) && i <= j < |states|
    ensures |states[j].committed| == |states[i].committed|
    ensures forall p :: 0 <= p < |states[i].committed| ==> states[i].committed[p] <= states[j].committed[p]
    ensures KeptByContent(cfg, states[i], m) ==> KeptByContent(cfg, states[j], m)
  {
    RunAdvances(cfg, states, i, j);
    if KeptByContent(cfg, states[i], m) { KeptByContentGrows(cfg, states[i], states[j], m); }
  }

  lemma SameSourceSameRecord(cfg: Config, s: State, a: DlqRecord, b: DlqRecord)
    requires Genuine(cfg, s, a) && Genuine(cfg, s, b)
    requires a.partition == b.partition && a.offset == b.offset && a.reason == b.reason
    ensures a == b
  {
    var m, reason :| InLog(s, m) && a == RecordOf(cfg, m, reason);
    var m', reason' :| InLog(s, m') && b == RecordOf(cfg, m', reason');
    assert m == m';
  }

  /** Over all crash replays the quarantine table has one row per topic, partition, offset and reason. */
  lemma QuarantinedOnce(cfg: Config, states: seq<State>, i: nat, j: nat)
    requires ValidTopic(cfg.topic) && Run(cfg, states) && Init(states[0])
    requires i < |states[|states| - 1].quarantine| && j < |states[|states| - 1].quarantine|
    ensures var a, b := states[|states| - 1].quarantine[i], states[|states| - 1].quarantine[j];
      i != j ==> a.topic != b.topic || a.partition != b.partition || a.offset != b.offset || a.reason != b.reason
  {
    var last := states[|states| - 1];
    EveryRunIsSafe(cfg, states);
    var a, b := last.quarantine[i], last.quarantine[j];
    assert a in last.quarantine && b in last.quarantine;
    if a.partition == b.partition && a.offset == b.offset && a.reason == b.reason {
      SameSourceSameRecord(cfg, last, a, b);
    }
  }
}
