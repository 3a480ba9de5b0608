/** One run of the consumer as code: collect, append, commit. Every run of it is a run of the protocol. */
module IngestRun {
  import opened Wrappers
  import opened ByteStrings
  import opened DeltaRows
  import opened AppendProtocol
  import opened DeadLetter
  import opened IngestBatch
  import opened IngestProtocol
  import opened IngestCode

  type ProtocolState = IngestProtocol.State

  // ---- runs ----

  lemma OneStep(cfg: Config, s: ProtocolState, s': ProtocolState) returns (states: seq<ProtocolState>)
    requires IngestProtocol.Step(cfg, s, s')
    ensures IngestProtocol.Run(cfg, states) && states[0] == s && states[|states| - 1] == s'
  {
    states := [s, s'];
  }

  lemma Extended(cfg: Config, before: seq<ProtocolState>, s': ProtocolState) returns (states: seq<ProtocolState>)
    requires IngestProtocol.Run(cfg, before) && IngestProtocol.Step(cfg, before[|before| - 1], s')
    ensures IngestProtocol.Run(cfg, states) && states[0] == before[0] && states[|states| - 1] == s'
  {
    states := before + [s'];
  }

  lemma Chained(cfg: Config, a: seq<ProtocolState>, b: seq<ProtocolState>)
    returns (states: seq<ProtocolState>)
    requires IngestProtocol.Run(cfg, a) && IngestProtocol.Run(cfg, b) && a[|a| - 1] == b[0]
    ensures IngestProtocol.Run(cfg, states) && states[0] == a[0] && states[|states| - 1] == b[|b| - 1]
  {
    states := a + b[1..];
    forall i, j | 0 <= i && j == i + 1 < |states| ensures IngestProtocol.Step(cfg, states[i], states[j]) {
      if j < |a| {
        assert states[i] == a[i] && states[j] == a[j];
      } else {
        assert states[j] == b[j - |a| + 1] && states[i] == b[i - |a| + 1];
      }
    }
  }

  /** A run keeps the invariant, wherever it starts, and only adds. */
  lemma {:induction false} RunKeeps(cfg: Config, states: seq<ProtocolState>)
    requires IngestProtocol.Run(cfg, states) && IngestProtocol.Inv(cfg, states[0])
    ensures IngestProtocol.Inv(cfg, states[|states| - 1]) && Advances(states[0], states[|states| - 1])
  {
    if |states| > 1 {
      var before := states[..|states| - 1];
      RunKeeps(cfg, before);
      var s, s' := states[|states| - 2], states[|states| - 1];
      assert IngestProtocol.Step(cfg, s, s');
      StepKeeps(cfg, s, s');
      AdvancesTransitive(states[0], s, s');
    } else {
      AdvancesReflexive(states[0]);
    }
  }

  // ---- collecting ----

  /** What collection leaves of a state: an error halts the run. */
  function AfterCollecting(s: ProtocolState, next: seq<nat>, c: Collected): ProtocolState {
    s.(dlq := c.topic, quarantine := c.table, phase := if c.error.Some? then Down else Collecting(next, c.batch))
  }

  function CollectedIn(s: ProtocolState): Collected
    requires s.phase.Collecting?
  {
    Collected(s.phase.batch, s.dlq, s.quarantine, None)
  }

  /** The message is the next one of its partition. */
  predicate Due(cfg: Config, s: ProtocolState, m: Message) {
    && s.phase.Collecting? && |s.phase.batch.messages| < cfg.maximum
    && |s.phase.next| == |s.logs| && InLog(s, m) && s.phase.next[m.partition] == m.offset
  }

  lemma AcceptedSteps(cfg: Config, s: ProtocolState, m: Message, row: Row) returns (states: seq<ProtocolState>)
    requires Due(cfg, s, m) && Classify(cfg.decode, s.phase.batch.eventIds, m) == Accept(row)
    ensures IngestProtocol.Run(cfg, states) && states[0] == s
    ensures states[|states| - 1] == s.(phase := Collecting(s.phase.next[m.partition := m.offset + 1],
                                                           Accepted(s.phase.batch, row, m)))
  {
    var s' := s.(phase := Collecting(s.phase.next[m.partition := m.offset + 1], Accepted(s.phase.batch, row, m)));
    assert PollStep(cfg, s, s', m.partition);
    states := OneStep(cfg, s, s');
  }

  /** The state after the poll that delivers a poison message. */
  function PoisonPolled(s: ProtocolState, m: Message, reason: string): ProtocolState
    requires s.phase.Collecting? && m.partition < |s.phase.next|
  {
    s.(phase := Producing(s.phase.next[m.partition := m.offset + 1], s.phase.batch, m, reason))
  }

  lemma PolledStep(cfg: Config, s: ProtocolState, m: Message, reason: string) returns (states: seq<ProtocolState>)
    requires Due(cfg, s, m) && Classify(cfg.decode, s.phase.batch.eventIds, m) == Poison(reason)
    ensures IngestProtocol.Run(cfg, states) && states[0] == s && states[|states| - 1] == PoisonPolled(s, m, reason)
  {
    assert PollStep(cfg, s, PoisonPolled(s, m, reason), m.partition);
    states := OneStep(cfg, s, PoisonPolled(s, m, reason));
  }

  lemma ProducedStep(cfg: Config, before: seq<ProtocolState>, s: ProtocolState) returns (states: seq<ProtocolState>)
    requires IngestProtocol.Run(cfg, before) && before[|before| - 1] == s && s.phase.Producing?
    ensures IngestProtocol.Run(cfg, states) && states[0] == before[0]
    ensures states[|states| - 1] == s.(dlq := s.dlq + [RecordOf(cfg, s.phase.poison, s.phase.reason)],
      phase := Quarantining(s.phase.next, s.phase.batch, s.phase.poison, s.phase.reason))
  {
    var s' := s.(dlq := s.dlq + [RecordOf(cfg, s.phase.poison, s.phase.reason)],
      phase := Quarantining(s.phase.next, s.phase.batch, s.phase.poison, s.phase.reason));
    assert ProduceStep(cfg, s, s');
    states := Extended(cfg, before, s');
  }

  lemma QuarantinedStep(cfg: Config, before: seq<ProtocolState>, s: ProtocolState) returns (states: seq<ProtocolState>)
    requires IngestProtocol.Run(cfg, before) && before[|before| - 1] == s && s.phase.Quarantining?
    ensures IngestProtocol.Run(cfg, states) && states[0] == before[0]
    ensures states[|states| - 1] ==
      s.(quarantine := InsertRecord(s.quarantine, RecordOf(cfg, s.phase.poison, s.phase.reason)),
         phase := Collecting(s.phase.next, Poisoned(s.phase.batch, s.phase.reason, s.phase.poison)))
  {
    var s' := s.(quarantine := InsertRecord(s.quarantine, RecordOf(cfg, s.phase.poison, s.phase.reason)),
                 phase := Collecting(s.phase.next, Poisoned(s.phase.batch, s.phase.reason, s.phase.poison)));
    assert QuarantineStep(cfg, s, s');
    states := Extended(cfg, before, s');
  }

  lemma Halted(cfg: Config, before: seq<ProtocolState>) returns (states: seq<ProtocolState>)
    requires IngestProtocol.Run(cfg, before)
    ensures IngestProtocol.Run(cfg, states) && states[0] == before[0]
    ensures states[|states| - 1] == before[|before| - 1].(phase := Down)
  {
    var s := before[|before| - 1];
    assert CrashStep(s, s.(phase := Down));
    states := Extended(cfg, before, s.(phase := Down));
  }

  /** A quarantine goes as far as its fate lets it, and halts the run when it does not succeed. */
  lemma PoisonSteps(cfg: Config, s: ProtocolState, m: Message, reason: string, fate: Fate)
    returns (states: seq<ProtocolState>)
    requires Due(cfg, s, m) && Classify(cfg.decode, s.phase.batch.eventIds, m) == Poison(reason)
    ensures IngestProtocol.Run(cfg, states) && states[0] == s
    ensures states[|states| - 1] ==
      AfterCollecting(s, s.phase.next[m.partition := m.offset + 1], CollectOne(cfg, CollectedIn(s), m, fate))
  {
    states := PolledStep(cfg, s, m, reason);
    if fate != Unconfirmed(false) { states := ProducedStep(cfg, states, states[|states| - 1]); }
    if fate.Confirmed? || fate == AppendFails(true) || Succeeds(s.quarantine, RecordOf(cfg, m, reason), fate) {
      states := QuarantinedStep(cfg, states, states[|states| - 1]);
    }
    if !Succeeds(s.quarantine, RecordOf(cfg, m, reason), fate) { states := Halted(cfg, states); }
  }

  /** One turn of the collecting loop is a poll step, followed for poison by the quarantine and perhaps a halt. */
  lemma CollectOneIsProtocolSteps(cfg: Config, s: ProtocolState, m: Message, fate: Fate)
    returns (states: seq<ProtocolState>)
    requires Due(cfg, s, m)
    ensures IngestProtocol.Run(cfg, states) && states[0] == s
    ensures states[|states| - 1] ==
      AfterCollecting(s, s.phase.next[m.partition := m.offset + 1], CollectOne(cfg, CollectedIn(s), m, fate))
  {
    match Classify(cfg.decode, s.phase.batch.eventIds, m)
    case Accept(row) => states := AcceptedSteps(cfg, s, m, row);
    case Poison(reason) => states := PoisonSteps(cfg, s, m, reason, fate);
  }

  /** Each delivered message is the one at its partition's next offset: polling has no gaps. */
  predicate PolledInOrder(logs: seq<seq<Option<Bytes>>>, next: seq<nat>, polls: seq<Polled>)
    decreases |polls|
  {
    if polls == [] then true
    else if !polls[0].Delivered? then PolledInOrder(logs, next, polls[1..])
    else
      var m := polls[0].message;
      && m.partition < |next| == |logs| && next[m.partition] == m.offset
      && m.offset < |logs[m.partition]| && logs[m.partition][m.offset] == m.value
      && PolledInOrder(logs, next[m.partition := m.offset + 1], polls[1..])
  }

  ghost predicate OfPartitions(messages: seq<Message>, n: nat) {
    forall m :: m in messages ==> m.partition < n
  }

  /** The whole polling loop is a run from where collection starts. */
  lemma {:induction false} CollectFromIsRun(cfg: Config, s: ProtocolState, polls: seq<Polled>)
    returns (states: seq<ProtocolState>, next: seq<nat>)
    requires s.phase.Collecting? && |s.phase.next| == |s.logs| && PolledInOrder(s.logs, s.phase.next, polls)
    requires OfPartitions(s.phase.batch.messages, |s.logs|)
    ensures IngestProtocol.Run(cfg, states) && states[0] == s
    ensures states[|states| - 1] == AfterCollecting(s, next, CollectFrom(cfg, CollectedIn(s), polls))
    ensures OfPartitions(CollectFrom(cfg, CollectedIn(s), polls).batch.messages, |s.logs|)
    decreases |polls|
  {
    next := s.phase.next;
    if polls == [] || |s.phase.batch.messages| >= cfg.maximum {
      states := [s];
    } else if polls[0].BrokerError? {
      states := Halted(cfg, [s]);
    } else if !polls[0].Delivered? {
      states, next := CollectFromIsRun(cfg, s, polls[1..]);
    } else {
      var m, fate := polls[0].message, polls[0].fate;
      next := next[m.partition := m.offset + 1];
      var first := CollectOneIsProtocolSteps(cfg, s, m, fate);
      var c := CollectOne(cfg, CollectedIn(s), m, fate);
      if c.error.Some? {
        states := first;
        assert CollectFrom(cfg, c, polls[1..]) == c;
      } else {
        var s1 := AfterCollecting(s, next, c);
        assert CollectedIn(s1) == c;
        var more;
        more, next := CollectFromIsRun(cfg, s1, polls[1..]);
        states := Chained(cfg, first, more);
      }
    }
  }

  // ---- appending ----

  /** The trace of an append call is a run while the consumer is in it. */
  lemma {:induction false} AppendIsRun(cfg: Config, s: ProtocolState, trace: seq<(Table, Call)>)
    returns (states: seq<ProtocolState>)
    requires Interleaved(trace) && s.phase.Appending? && trace[0] == (s.bronze, s.phase.call)
    ensures IngestProtocol.Run(cfg, states) && states[0] == s
    ensures var (t, call) := trace[|trace| - 1];
      states[|states| - 1] == s.(bronze := t, phase := s.phase.(call := call))
    decreases |trace|
  {
    if |trace| == 1 {
      states := [s];
    } else {
      var before := trace[..|trace| - 1];
      states := AppendIsRun(cfg, s, before);
      var (t, call) := before[|before| - 1];
      var (t', call') := trace[|trace| - 1];
      assert Move(trace[|trace| - 2], trace[|trace| - 1]);
      var s1 := s.(bronze := t, phase := s.phase.(call := call));
      var s2 := s.(bronze := t', phase := s.phase.(call := call'));
      MoveIsStep(cfg, s1, s2);
      states := Extended(cfg, states, s2);
    }
  }

  lemma MoveIsStep(cfg: Config, s: ProtocolState, s': ProtocolState)
    requires s.phase.Appending? && s'.phase.Appending?
    requires s' == s.(bronze := s'.bronze, phase := s.phase.(call := s'.phase.call))
    requires Move((s.bronze, s.phase.call), (s'.bronze, s'.phase.call))
    ensures IngestProtocol.Step(cfg, s, s')
  {
    if CallStep(s.bronze, s.phase.call, s'.bronze, s'.phase.call) {
      assert AppendStep(s, s');
    } else {
      assert OtherWriterStep(s, s');
    }
  }

  // ---- committing ----

  /** The committed offset of each partition, zero where the broker holds none. */
  function Offsets(n: nat, committed: map<nat, nat>): (r: seq<nat>)
    ensures |r| == n && forall p :: 0 <= p < n ==> r[p] == if p in committed then committed[p] else 0
  {
    seq(n, p requires 0 <= p < n => if p in committed then committed[p] else 0)
  }

  /** Offsets of the partitions that are not in `rest`, over those committed before. */
  function Committed(before: map<nat, nat>, latest: map<nat, Message>, rest: set<nat>): map<nat, nat> {
    before + Except(CommitOffsets(latest), rest)
  }

  function Restricted(latest: map<nat, Message>, rest: set<nat>): map<nat, Message> {
    map p | p in latest && p in rest :: latest[p]
  }

  function CommittedState(s: ProtocolState, before: map<nat, nat>, latest: map<nat, Message>, rest: set<nat>)
    : ProtocolState
    requires s.phase.Committing?
  {
    s.(committed := Offsets(|s.logs|, Committed(before, latest, rest)),
       phase := s.phase.(pending := Restricted(latest, rest)))
  }

  lemma OneMoreCommitted(n: nat, before: map<nat, nat>, latest: map<nat, Message>, rest: set<nat>, p: nat)
    requires p in latest && p in rest && p < n
    ensures Restricted(latest, rest - {p}) == Restricted(latest, rest) - {p}
    ensures Offsets(n, Committed(before, latest, rest - {p})) ==
            Offsets(n, Committed(before, latest, rest))[p := latest[p].offset + 1]
  {
  }

  lemma CommitOneStep(
      cfg: Config, s: ProtocolState, before: map<nat, nat>, latest: map<nat, Message>, rest: set<nat>, p: nat)
    requires s.phase.Committing? && p in latest && p in rest && (forall q :: q in rest ==> p <= q)
    requires p < |s.logs|
    ensures IngestProtocol.Step(cfg, CommittedState(s, before, latest, rest),
                                CommittedState(s, before, latest, rest - {p}))
  {
    OneMoreCommitted(|s.logs|, before, latest, rest, p);
    var a, b := CommittedState(s, before, latest, rest), CommittedState(s, before, latest, rest - {p});
    assert p in a.phase.pending && a.phase.pending[p] == latest[p] && p < |a.committed|;
    assert b.committed == a.committed[p := latest[p].offset + 1];
    assert b.phase == a.phase.(pending := a.phase.pending - {p});
    assert CommitStep(a, b, p);
  }

  /** The least of the partitions that are still to be committed. */
  lemma LeastLeft(from: set<nat>, rest: set<nat>) returns (p: nat)
    requires rest < from && forall a, b :: a in from && a !in rest && b in rest ==> a < b
    ensures p in from && p !in rest && forall q :: q in from ==> p <= q
  {
    var x :| x in from && x !in rest;
    LeastExists(from - rest, x);
    p :| p in from - rest && forall q :: q in from - rest ==> p <= q;
    forall q | q in from ensures p <= q {
      if q !in rest { assert q in from - rest; }
    }
  }

  /** The commits of all partitions below those in `rest`, in order, are a run. */
  lemma {:induction false} CommitsAreRun(
      cfg: Config, s: ProtocolState, before: map<nat, nat>, latest: map<nat, Message>, from: set<nat>, rest: set<nat>)
    returns (states: seq<ProtocolState>)
    requires s.phase.Committing? && forall q :: q in latest ==> q < |s.logs|
    requires rest <= from <= latest.Keys && forall a, b :: a in from && a !in rest && b in rest ==> a < b
    ensures IngestProtocol.Run(cfg, states) && states[0] == CommittedState(s, before, latest, from)
    ensures states[|states| - 1] == CommittedState(s, before, latest, rest)
    decreases |from|
  {
    if from == rest {
      states := [CommittedState(s, before, latest, from)];
    } else {
      var p := LeastLeft(from, rest);
      CommitOneStep(cfg, s, before, latest, from, p);
      var first := OneStep(cfg, CommittedState(s, before, latest, from), CommittedState(s, before, latest, from - {p}));
      var more := CommitsAreRun(cfg, s, before, latest, from - {p}, rest);
      states := Chained(cfg, first, more);
    }
  }

  lemma NothingCommitted(s: ProtocolState, before: map<nat, nat>, latest: map<nat, Message>)
    requires s.phase.Committing? && s.phase.pending == latest && s.committed == Offsets(|s.logs|, before)
    ensures CommittedState(s, before, latest, latest.Keys) == s
  {
    assert Except(CommitOffsets(latest), latest.Keys) == map[];
    assert Restricted(latest, latest.Keys) == latest;
  }

  /** What the commits leave when all are confirmed. */
  lemma AllCommitted(cfg: Config, run: seq<ProtocolState>, s: ProtocolState, before: map<nat, nat>,
                     latest: map<nat, Message>)
    returns (states: seq<ProtocolState>)
    requires IngestProtocol.Run(cfg, run) && run[|run| - 1] == s
    requires s.phase.Committing? && s.phase.pending == latest && s.committed == Offsets(|s.logs|, before)
    requires forall q :: q in latest ==> q < |s.logs|
    ensures IngestProtocol.Run(cfg, states) && states[0] == run[0]
    ensures states[|states| - 1] == s.(committed := Offsets(|s.logs|, before + CommitOffsets(latest)),
      phase := Finished(Report(|s.phase.batch.messages|, s.phase.written, s.phase.alreadyPresent,
                               Total(s.phase.batch.reasonCounts))))
  {
    NothingCommitted(s, before, latest);
    var more := CommitsAreRun(cfg, s, before, latest, latest.Keys, {});
    states := Chained(cfg, run, more);
    assert Except(CommitOffsets(latest), {}) == CommitOffsets(latest);
    var s1 := CommittedState(s, before, latest, {});
    var s2 := s1.(phase := Finished(Report(|s.phase.batch.messages|, s.phase.written, s.phase.alreadyPresent,
                                           Total(s.phase.batch.reasonCounts))));
    assert s1.phase.pending == map[];
    assert FinishStep(s1, s2);
    states := Extended(cfg, states, s2);
  }

  function NotBefore(latest: map<nat, Message>, p: nat, landed: bool): set<nat> {
    set q | q in latest && (p < q || (q == p && !landed))
  }

  lemma BeforeIsRest(latest: map<nat, Message>, p: nat, landed: bool)
    ensures NotBefore(latest, p, landed) <= latest.Keys
    ensures forall a, b :: a in latest.Keys && a !in NotBefore(latest, p, landed) && b in NotBefore(latest, p, landed) ==>
              a < b
    ensures Except(CommitOffsets(latest), NotBefore(latest, p, landed)) ==
            CommittedBefore(CommitOffsets(latest), p, landed)
  {
  }

  /** What the commits leave when that of partition `p` is not confirmed: the run halts. */
  lemma CommitHalts(cfg: Config, run: seq<ProtocolState>, s: ProtocolState, before: map<nat, nat>,
                    latest: map<nat, Message>, p: nat, landed: bool)
    returns (states: seq<ProtocolState>)
    requires IngestProtocol.Run(cfg, run) && run[|run| - 1] == s
    requires s.phase.Committing? && s.phase.pending == latest && s.committed == Offsets(|s.logs|, before)
    requires p in latest && forall q :: q in latest ==> q < |s.logs|
    ensures IngestProtocol.Run(cfg, states) && states[0] == run[0]
    ensures states[|states| - 1] ==
      s.(committed := Offsets(|s.logs|, before + CommittedBefore(CommitOffsets(latest), p, landed)), phase := Down)
  {
    var rest := NotBefore(latest, p, landed);
    NothingCommitted(s, before, latest);
    BeforeIsRest(latest, p, landed);
    var more := CommitsAreRun(cfg, s, before, latest, latest.Keys, rest);
    states := Chained(cfg, run, more);
    states := Halted(cfg, states);
  }

  // ---- the code of one run ----

  datatype IngestError = NotCollected(collect: CollectError) | Refused | NotAppended(append: AppendError) | NotCommitted

  /** The protocol state that the objects and a phase amount to. */
  function At(logs: seq<seq<Option<Bytes>>>, committed: map<nat, nat>, bronze: Table, topic: seq<DlqRecord>,
              quarantine: seq<DlqRecord>, phase: IngestProtocol.Phase): ProtocolState
  {
    IngestProtocol.State(logs, Offsets(|logs|, committed), bronze, topic, quarantine, phase)
  }

  method SumCounts(counts: map<string, nat>) returns (total: nat)
    ensures total == Total(counts)
  {
    var rest := counts;
    total := 0;
    while rest != map[]
      invariant total + Total(rest) == Total(counts)
      decreases |rest|
    {
      assert rest.Keys != {};
      var reason :| reason in rest;
      TotalWithout(rest, reason);
      total := total + rest[reason];
      rest := rest - {reason};
    }
  }

  ghost predicate TurnsOk(turns: seq<Turn>) {
    && |turns| == 3
    && forall i :: 0 <= i < |turns| ==>
         UniqueKeys(turns[i].beforeCheck) && UniqueKeys(turns[i].beforeMerge) && UniqueKeys(turns[i].beforeVerify)
  }

  lemma EndsCollecting(cfg: Config, run: seq<ProtocolState>, s: ProtocolState) returns (states: seq<ProtocolState>)
    requires IngestProtocol.Run(cfg, run) && run[|run| - 1] == s
    requires s.phase.Collecting? && s.phase.batch.messages != []
    ensures IngestProtocol.Run(cfg, states) && states[0] == run[0]
    ensures var b := s.phase.batch;
      states[|states| - 1] == s.(phase :=
        if b.events != [] then Appending(s.phase.next, b, Call(b.events, Probe, 0))
        else Committing(s.phase.next, b, 0, 0, LatestByPartition(b.messages)))
  {
    var b := s.phase.batch;
    var s' := s.(phase :=
      if b.events != [] then Appending(s.phase.next, b, Call(b.events, Probe, 0))
      else Committing(s.phase.next, b, 0, 0, LatestByPartition(b.messages)));
    assert EndCollectStep(s, s');
    states := Extended(cfg, run, s');
  }

  lemma Appended(cfg: Config, run: seq<ProtocolState>, s: ProtocolState) returns (states: seq<ProtocolState>)
    requires IngestProtocol.Run(cfg, run) && run[|run| - 1] == s
    requires s.phase.Appending? && s.phase.call.phase.Returned?
    ensures IngestProtocol.Run(cfg, states) && states[0] == run[0]
    ensures states[|states| - 1] == s.(phase := Committing(s.phase.next, s.phase.batch, s.phase.call.phase.written,
      s.phase.call.phase.alreadyPresent, LatestByPartition(s.phase.batch.messages)))
  {
    var s' := s.(phase := Committing(s.phase.next, s.phase.batch, s.phase.call.phase.written,
      s.phase.call.phase.alreadyPresent, LatestByPartition(s.phase.batch.messages)));
    assert AppendedStep(s, s');
    states := Extended(cfg, run, s');
  }

  /** The append of a collected batch: nothing is appended of a batch of poison messages only. */
  method AppendEvents(cfg: Config, events: seq<Row>, table: DeltaTable, afterProbe: seq<Row>, turns: seq<Turn>,
                      ghost run: seq<ProtocolState>, ghost s: ProtocolState)
    returns (r: Result<(nat, nat), AppendError>, ghost states: seq<ProtocolState>)
    requires TurnsOk(turns) && UniqueKeys(afterProbe)
    requires IngestProtocol.Run(cfg, run) && run[|run| - 1] == s && s.bronze == table.table
    requires s.phase.Collecting? && s.phase.batch.messages != [] && s.phase.batch.events == events
    modifies table
    ensures IngestProtocol.Run(cfg, states) && states[0] == run[0]
    ensures states[|states| - 1] == s.(bronze := table.table, phase :=
      if r.Err? then Down
      else Committing(s.phase.next, s.phase.batch, r.value.0, r.value.1, LatestByPartition(s.phase.batch.messages)))
  {
    states := EndsCollecting(cfg, run, s);
    if events == [] {
      return Ok((0, 0)), states;
    }
    ghost var trace;
    ghost var s1 := states[|states| - 1];
    r, trace := table.AppendRows(events, afterProbe, turns);
    ghost var appending := AppendIsRun(cfg, s1, trace);
    states := Chained(cfg, states, appending);
    if r.Err? {
      states := Halted(cfg, states);
    } else {
      states := Appended(cfg, states, states[|states| - 1]);
    }
  }

  method CommitBatch(cfg: Config, messages: seq<Message>, broker: Broker, unconfirmed: set<nat>, landed: set<nat>,
                     ghost run: seq<ProtocolState>, ghost s: ProtocolState)
    returns (ok: bool, ghost states: seq<ProtocolState>)
    requires IngestProtocol.Run(cfg, run) && run[|run| - 1] == s && s.committed == Offsets(|s.logs|, broker.committed)
    requires s.phase.Committing? && s.phase.pending == LatestByPartition(messages) && s.phase.batch.messages == messages
    requires OfPartitions(messages, |s.logs|)
    modifies broker
    ensures IngestProtocol.Run(cfg, states) && states[0] == run[0]
    ensures states[|states| - 1] == s.(committed := Offsets(|s.logs|, broker.committed), phase :=
      if !ok then Down
      else Finished(Report(|messages|, s.phase.written, s.phase.alreadyPresent, Total(s.phase.batch.reasonCounts))))
    ensures ok && OffsetsRise(messages) ==> CommittedPast(broker.committed, messages)
  {
    ghost var before := broker.committed;
    ghost var latest := LatestByPartition(messages);
    assert forall q :: q in latest ==> latest[q] in messages && latest[q].partition == q;
    var r := CommitMessages(messages, broker, unconfirmed, landed);
    ok := r.Ok?;
    if ok {
      states := AllCommitted(cfg, run, s, before, latest);
    } else {
      var p := r.error.partition;
      states := CommitHalts(cfg, run, s, before, latest, p, p in landed);
    }
  }

  lemma {:induction false} DeliveredInOrder(logs: seq<seq<Option<Bytes>>>, next: seq<nat>, polls: seq<Polled>)
    requires PolledInOrder(logs, next, polls)
    ensures forall m :: m in DeliveredMessages(polls) ==> m.partition < |next| && next[m.partition] <= m.offset
    ensures OffsetsRise(DeliveredMessages(polls))
    decreases |polls|
  {
    if polls != [] {
      if polls[0].Delivered? {
        var m := polls[0].message;
        DeliveredInOrder(logs, next[m.partition := m.offset + 1], polls[1..]);
      } else {
        DeliveredInOrder(logs, next, polls[1..]);
      }
    }
  }

  /** What one run receives: the delivered messages, up to the bound. */
  function Received(cfg: Config, polls: seq<Polled>): seq<Message> { UpTo(cfg.maximum, DeliveredMessages(polls)) }

  lemma ReceivedRises(cfg: Config, logs: seq<seq<Option<Bytes>>>, next: seq<nat>, polls: seq<Polled>)
    requires PolledInOrder(logs, next, polls)
    ensures OffsetsRise(Received(cfg, polls))
  {
    DeliveredInOrder(logs, next, polls);
  }

  lemma Started(cfg: Config, s: ProtocolState) returns (states: seq<ProtocolState>)
    requires s.phase.Down?
    ensures IngestProtocol.Run(cfg, states) && states[0] == s
    ensures states[|states| - 1] == s.(phase := Collecting(s.committed, EMPTY))
  {
    assert StartStep(s, s.(phase := Collecting(s.committed, EMPTY)));
    states := OneStep(cfg, s, s.(phase := Collecting(s.committed, EMPTY)));
  }

  /** Collection as a run, whatever its outcome. */
  method Collect(cfg: Config, polls: seq<Polled>, dlq: DeadLetterQueue, ghost s: ProtocolState)
    returns (r: Result<(seq<Row>, seq<Message>, map<string, nat>), CollectError>,
             ghost states: seq<ProtocolState>, ghost next: seq<nat>, ghost ids: set<string>)
    requires s.phase.Down? && |s.committed| == |s.logs| && PolledInOrder(s.logs, s.committed, polls)
    requires s.dlq == dlq.topic && s.quarantine == dlq.table
    modifies dlq
    ensures IngestProtocol.Run(cfg, states) && states[0] == s
    ensures states[|states| - 1] == s.(dlq := dlq.topic, quarantine := dlq.table, phase :=
      if r.Err? then Down else Collecting(next, Batch(r.value.0, r.value.1, ids, r.value.2)))
    ensures r.Ok? ==> r.value.1 != [] && OfPartitions(r.value.1, |s.logs|) && r.value.1 == Received(cfg, polls)
  {
    states := Started(cfg, s);
    ghost var more;
    more, next := CollectFromIsRun(cfg, states[|states| - 1], polls);
    states := Chained(cfg, states, more);
    ghost var c := CollectFrom(cfg, Collected(EMPTY, dlq.topic, dlq.table, None), polls);
    ids := c.batch.eventIds;
    r := CollectMessages(cfg, polls, dlq);
    CollectsDelivered(cfg, Collected(EMPTY, s.dlq, s.quarantine, None), polls);
    if r.Err? { states := Halted(cfg, states); }
  }

  /**
   * One run of the consumer. Whatever the broker, the DLQ, the table and the other writers do, what the run does to
   * them is a run of the protocol, which ends with a report or down. So the invariant holds after it when it held
   * before, and no message below a committed offset is lost.
   */
  method Ingest(cfg: Config, polls: seq<Polled>, dlq: DeadLetterQueue, refused: bool, table: DeltaTable,
                afterProbe: seq<Row>, turns: seq<Turn>, broker: Broker, unconfirmed: set<nat>, landed: set<nat>,
                ghost logs: seq<seq<Option<Bytes>>>)
    returns (r: Result<Report, IngestError>, ghost states: seq<ProtocolState>)
    requires PolledInOrder(logs, Offsets(|logs|, broker.committed), polls) && TurnsOk(turns) && UniqueKeys(afterProbe)
    modifies dlq, table, broker
    ensures IngestProtocol.Run(cfg, states)
    ensures states[0] == old(At(logs, broker.committed, table.table, dlq.topic, dlq.table, Down))
    ensures states[|states| - 1] ==
      At(logs, broker.committed, table.table, dlq.topic, dlq.table, if r.Ok? then Finished(r.value) else Down)
    ensures IngestProtocol.Inv(cfg, states[0]) ==>
      var last := states[|states| - 1];
      IngestProtocol.Inv(cfg, last) && Advances(states[0], last) &&
      forall m :: InLog(last, m) && m.offset < last.committed[m.partition] ==> KeptByContent(cfg, last, m)
    ensures r.Ok? ==> r.value.received == |Received(cfg, polls)| > 0
    ensures r.Ok? ==> CommittedPast(broker.committed, Received(cfg, polls))
    ensures IngestProtocol.Inv(cfg, states[0]) && r.Ok? ==>
              r.value.received == r.value.written + r.value.alreadyPresent + r.value.quarantined
  {
    r, states := IngestOnce(cfg, polls, dlq, refused, table, afterProbe, turns, broker, unconfirmed, landed, logs);
    if IngestProtocol.Inv(cfg, states[0]) {
      RunKeeps(cfg, states);
      SafeByContent(cfg, states[|states| - 1]);
    }
  }

  method IngestOnce(cfg: Config, polls: seq<Polled>, dlq: DeadLetterQueue, refused: bool, table: DeltaTable,
                    afterProbe: seq<Row>, turns: seq<Turn>, broker: Broker, unconfirmed: set<nat>, landed: set<nat>,
                    ghost logs: seq<seq<Option<Bytes>>>)
    returns (r: Result<Report, IngestError>, ghost states: seq<ProtocolState>)
    requires PolledInOrder(logs, Offsets(|logs|, broker.committed), polls) && TurnsOk(turns) && UniqueKeys(afterProbe)
    modifies dlq, table, broker
    ensures IngestProtocol.Run(cfg, states)
    ensures states[0] == old(At(logs, broker.committed, table.table, dlq.topic, dlq.table, Down))
    ensures states[|states| - 1] ==
      At(logs, broker.committed, table.table, dlq.topic, dlq.table, if r.Ok? then Finished(r.value) else Down)
    ensures r.Ok? ==> r.value.received == |Received(cfg, polls)| > 0
    ensures r.Ok? ==> CommittedPast(broker.committed, Received(cfg, polls))
  {
    ghost var s, next, ids;
    s := At(logs, broker.committed, table.table, dlq.topic, dlq.table, Down);
    ReceivedRises(cfg, logs, s.committed, polls);
    var collected;
    collected, states, next, ids := Collect(cfg, polls, dlq, s);
    if collected.Err? {
      return Err(NotCollected(collected.error)), states;
    }
    var (events, messages, reasonCounts) := collected.value;
    // Scope and classification of the records are enforced here.
    if refused {
      states := Halted(cfg, states);
      return Err(Refused), states;
    }
    var appended;
    appended, states := AppendEvents(cfg, events, table, afterProbe, turns, states, states[|states| - 1]);
    if appended.Err? {
      return Err(NotAppended(appended.error)), states;
    }
    var ok;
    ok, states := CommitBatch(cfg, messages, broker, unconfirmed, landed, states, states[|states| - 1]);
    if !ok {
      return Err(NotCommitted), states;
    }
    var quarantined := SumCounts(reasonCounts);
    return Ok(Report(|messages|, appended.value.0, appended.value.1, quarantined)), states;
  }
}
