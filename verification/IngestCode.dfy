/** The collecting and committing loops of one run, against the protocol's own step functions. */
module IngestCode {
  import opened Wrappers
  import opened DeltaRows
  import opened DeadLetter
  import opened IngestBatch
  import opened IngestProtocol

  datatype Polled = Idle | PartitionEof | BrokerError | Delivered(message: Message, fate: Fate)

  datatype CollectError = BrokerFailure | DeadLetterFailure | NothingReceived

  /** What collection has built, and what its DLQ sink holds, so far. */
  datatype Collected = Collected(
    batch: Batch, topic: seq<DlqRecord>, table: seq<DlqRecord>, error: Option<CollectError>)

  function CollectOne(cfg: Config, c: Collected, m: Message, fate: Fate): Collected {
    match Classify(cfg.decode, c.batch.eventIds, m)
    case Accept(row) => c.(batch := Accepted(c.batch, row, m))
    case Poison(reason) =>
      var record := RecordOf(cfg, m, reason);
      var topic, table := TopicAfter(c.topic, record, fate), TableAfter(c.table, record, fate);
      if Succeeds(c.table, record, fate) then Collected(Poisoned(c.batch, reason, m), topic, table, None)
      else Collected(c.batch, topic, table, Some(DeadLetterFailure))
  }

  /** Collection of a bounded batch: it stops at the bound, at an error, or when polls run out. */
  function CollectFrom(cfg: Config, c: Collected, polls: seq<Polled>): Collected
    decreases |polls|
  {
    if polls == [] || c.error.Some? || |c.batch.messages| >= cfg.maximum then c
    else match polls[0]
      case Idle => CollectFrom(cfg, c, polls[1..])
      case PartitionEof => CollectFrom(cfg, c, polls[1..])
      case BrokerError => c.(error := Some(BrokerFailure))
      case Delivered(m, fate) => CollectFrom(cfg, CollectOne(cfg, c, m, fate), polls[1..])
  }

  /** How collection ends: with a non-empty batch, or in an error. */
  ghost predicate EndsAs(c: Collected, dlq: DeadLetterQueue,
                         r: Result<(seq<Row>, seq<Message>, map<string, nat>), CollectError>)
    reads dlq
  {
    && dlq.topic == c.topic && dlq.table == c.table
    && r == (if c.error.Some? then Err(c.error.value)
             else if c.batch.messages == [] then Err(NothingReceived)
             else Ok((c.batch.events, c.batch.messages, c.batch.reasonCounts)))
  }

  /** One delivered message: an event is collected; poison is quarantined first, and counted if that succeeds. */
  method CollectMessage(cfg: Config, b: Batch, m: Message, fate: Fate, dlq: DeadLetterQueue)
    returns (ok: bool, b': Batch)
    modifies dlq
    ensures var c := CollectOne(cfg, Collected(b, old(dlq.topic), old(dlq.table), None), m, fate);
      c == Collected(b', dlq.topic, dlq.table, if ok then None else Some(DeadLetterFailure))
  {
    match Classify(cfg.decode, b.eventIds, m)
    case Accept(row) =>
      return true, Batch(b.events + [row], b.messages + [m], b.eventIds + {row.key}, b.reasonCounts);
    case Poison(reason) =>
      ok := dlq.Quarantine(cfg.topic, m.partition, m.offset, reason, m.value, fate);
      var count := if reason in b.reasonCounts then b.reasonCounts[reason] else 0;
      b' := if ok then b.(messages := b.messages + [m], reasonCounts := b.reasonCounts[reason := count + 1]) else b;
  }

  method CollectMessages(cfg: Config, polls: seq<Polled>, dlq: DeadLetterQueue)
    returns (r: Result<(seq<Row>, seq<Message>, map<string, nat>), CollectError>)
    modifies dlq
    ensures EndsAs(CollectFrom(cfg, Collected(EMPTY, old(dlq.topic), old(dlq.table), None), polls), dlq, r)
  {
    var batch, at := EMPTY, 0;
    ghost var c := CollectFrom(cfg, Collected(EMPTY, dlq.topic, dlq.table, None), polls);
    while |batch.messages| < cfg.maximum && at < |polls|
      invariant at <= |polls| && c == CollectFrom(cfg, Collected(batch, dlq.topic, dlq.table, None), polls[at..])
    {
      var poll := polls[at];
      assert polls[at..][0] == poll && polls[at..][1..] == polls[at + 1..];
      at := at + 1;
      if poll.BrokerError? {
        return Err(BrokerFailure);
      }
      if poll.Delivered? {
        var ok;
        ok, batch := CollectMessage(cfg, batch, poll.message, poll.fate, dlq);
        if !ok {
          return Err(DeadLetterFailure);
        }
      }
    }
    if batch.messages == [] {
      return Err(NothingReceived);
    }
    return Ok((batch.events, batch.messages, batch.reasonCounts));
  }

  /** The events have distinct ids, and every collected message is an event or counted under its reason. */
  lemma {:induction false} CollectedCounts(cfg: Config, c: Collected, polls: seq<Polled>)
    requires Counted(c.batch)
    ensures Counted(CollectFrom(cfg, c, polls).batch)
    ensures |c.batch.messages| <= cfg.maximum ==> |CollectFrom(cfg, c, polls).batch.messages| <= cfg.maximum
    decreases |polls|
  {
    if polls != [] && c.error.None? && |c.batch.messages| < cfg.maximum {
      match polls[0]
      case BrokerError =>
      case Delivered(m, fate) =>
        match Classify(cfg.decode, c.batch.eventIds, m) {
          case Accept(row) => KeysOneMore(c.batch.events, row);
          case Poison(reason) => TotalCountsOneMore(c.batch, reason, m);
        }
        CollectedCounts(cfg, CollectOne(cfg, c, m, fate), polls[1..]);
      case _ =>
        CollectedCounts(cfg, c, polls[1..]);
    }
  }

  /** The messages that the polls deliver. */
  function DeliveredMessages(polls: seq<Polled>): seq<Message> {
    if polls == [] then []
    else if polls[0].Delivered? then [polls[0].message] + DeliveredMessages(polls[1..])
    else DeliveredMessages(polls[1..])
  }

  /** The first messages, up to a bound. */
  function UpTo(maximum: int, messages: seq<Message>): seq<Message> {
    if maximum <= 0 then [] else if maximum < |messages| then messages[..maximum] else messages
  }

  /** Collection that ends without error has collected what was delivered, up to the bound. */
  lemma {:induction false} CollectsDelivered(cfg: Config, c: Collected, polls: seq<Polled>)
    ensures CollectFrom(cfg, c, polls).error.None? ==>
              CollectFrom(cfg, c, polls).batch.messages ==
              c.batch.messages + UpTo(cfg.maximum - |c.batch.messages|, DeliveredMessages(polls))
    decreases |polls|
  {
    if polls != [] && c.error.None? && |c.batch.messages| < cfg.maximum {
      match polls[0]
      case BrokerError =>
      case Delivered(m, fate) =>
        CollectsDelivered(cfg, CollectOne(cfg, c, m, fate), polls[1..]);
        FailureStops(cfg, CollectOne(cfg, c, m, fate), polls[1..]);
        OneMoreOf(c.batch.messages, m, DeliveredMessages(polls[1..]), cfg.maximum);
      case _ =>
        CollectsDelivered(cfg, c, polls[1..]);
    }
  }

  lemma FailureStops(cfg: Config, c: Collected, polls: seq<Polled>)
    ensures c.error.Some? ==> CollectFrom(cfg, c, polls).error == c.error
  {
  }

  lemma OneMoreOf(messages: seq<Message>, m: Message, rest: seq<Message>, maximum: nat)
    requires |messages| < maximum
    ensures messages + [m] + UpTo(maximum - |messages + [m]|, rest) == messages + UpTo(maximum - |messages|, [m] + rest)
  {
  }

  datatype CommitError = NotConfirmed(partition: nat)

  /** The group's committed offsets; a commit may land although its confirmation does not arrive. */
  class Broker {
    var committed: map<nat, nat>

    constructor ()
      ensures committed == map[]
    {
      committed := map[];
    }

    method Commit(m: Message, lands: bool)
      modifies this
      ensures committed == if lands then old(committed)[m.partition := m.offset + 1] else old(committed)
    {
      if lands { committed := committed[m.partition := m.offset + 1]; }
    }
  }

  lemma {:induction false} LeastExists(keys: set<nat>, x: nat)
    requires x in keys
    ensures exists p :: p in keys && forall q :: q in keys ==> p <= q
    decreases x
  {
    if y :| y in keys && y < x {
      LeastExists(keys, y);
    }
  }

  function CommitOffsets(latest: map<nat, Message>): map<nat, nat> {
    map p | p in latest :: latest[p].offset + 1
  }

  /** What the broker holds when the commit of partition `p` was not confirmed. */
  function CommittedBefore(offsets: map<nat, nat>, p: nat, landed: bool): map<nat, nat> {
    map q | q in offsets && (q < p || (q == p && landed)) :: offsets[q]
  }

  /** The offsets committed once only the partitions in `rest` are left. */
  function Except(offsets: map<nat, nat>, rest: set<nat>): map<nat, nat> {
    map q | q in offsets && q !in rest :: offsets[q]
  }

  /** `rest` is the upper end of the partitions and `p` its least one. */
  ghost predicate NextInOrder(offsets: map<nat, nat>, rest: set<nat>, p: nat) {
    && p in rest && rest <= offsets.Keys && (forall q :: q in rest ==> p <= q)
    && forall a, b :: a in offsets && a !in rest && b in rest ==> a < b
  }

  lemma InOrder(offsets: map<nat, nat>, rest: set<nat>, p: nat)
    requires NextInOrder(offsets, rest, p)
    ensures Except(offsets, rest) == CommittedBefore(offsets, p, false)
    ensures Except(offsets, rest)[p := offsets[p]] == CommittedBefore(offsets, p, true)
    ensures Except(offsets, rest - {p}) == CommittedBefore(offsets, p, true)
  {
  }

  lemma LatestNext(messages: seq<Message>, i: nat)
    requires i < |messages|
    ensures LatestByPartition(messages[..i + 1]) ==
            LatestByPartition(messages[..i])[messages[i].partition := messages[i]]
  {
    assert messages[..i + 1][..i] == messages[..i];
  }

  method LatestMessages(messages: seq<Message>) returns (latest: map<nat, Message>)
    ensures latest == LatestByPartition(messages)
  {
    latest := map[];
    for i := 0 to |messages|
      invariant latest == LatestByPartition(messages[..i])
    {
      LatestNext(messages, i);
      latest := latest[messages[i].partition := messages[i]];
    }
    assert messages[..|messages|] == messages;
  }

  method LeastOf(keys: set<nat>) returns (p: nat)
    requires keys != {}
    ensures p in keys && forall q :: q in keys ==> p <= q
  {
    var x :| x in keys;
    LeastExists(keys, x);
    p :| p in keys && forall q :: q in keys ==> p <= q;
  }

  /** All partitions but the `pending` upper ones are committed, and confirmed. */
  ghost predicate Progress(offsets: map<nat, nat>, pending: set<nat>, done: map<nat, nat>, unconfirmed: set<nat>) {
    && pending <= offsets.Keys && done == Except(offsets, pending) && done.Keys !! unconfirmed
    && forall a, b :: a in offsets && a !in pending && b in pending ==> a < b
  }

  lemma ProgressNext(offsets: map<nat, nat>, pending: set<nat>, done: map<nat, nat>, unconfirmed: set<nat>, p: nat)
    requires Progress(offsets, pending, done, unconfirmed) && p in pending && forall q :: q in pending ==> p <= q
    ensures p !in unconfirmed ==> Progress(offsets, pending - {p}, done[p := offsets[p]], unconfirmed)
    ensures done == CommittedBefore(offsets, p, false) && done[p := offsets[p]] == CommittedBefore(offsets, p, true)
  {
    InOrder(offsets, pending, p);
  }

  /** The commit of the least pending partition. */
  method CommitNext(m: Message, lands: bool, broker: Broker, ghost offsets: map<nat, nat>, ghost pending: set<nat>,
                    ghost done: map<nat, nat>, ghost unconfirmed: set<nat>, ghost before: map<nat, nat>)
    requires Progress(offsets, pending, done, unconfirmed) && broker.committed == before + done
    requires m.partition in pending && forall q :: q in pending ==> m.partition <= q
    requires m.partition in offsets && offsets[m.partition] == m.offset + 1
    modifies broker
    ensures broker.committed == before + CommittedBefore(offsets, m.partition, lands)
    ensures lands ==> broker.committed == before + done[m.partition := m.offset + 1]
    ensures m.partition !in unconfirmed ==>
              Progress(offsets, pending - {m.partition}, done[m.partition := m.offset + 1], unconfirmed)
  {
    ProgressNext(offsets, pending, done, unconfirmed, m.partition);
    broker.Commit(m, lands);
    assert (before + done)[m.partition := m.offset + 1] == before + done[m.partition := m.offset + 1];
  }

  // ---- the last message of a partition ----

  /** Within a partition later messages have greater offsets. */
  ghost predicate OffsetsRise(messages: seq<Message>) {
    forall i, j :: 0 <= i < j < |messages| && messages[i].partition == messages[j].partition ==>
      messages[i].offset < messages[j].offset
  }

  /** When offsets rise, the offset to commit is beyond every message of the partition. */
  lemma {:induction false} CommitsPast(messages: seq<Message>)
    requires OffsetsRise(messages)
    ensures forall m :: m in messages ==>
              m.partition in CommitOffsets(LatestByPartition(messages)) &&
              m.offset < CommitOffsets(LatestByPartition(messages))[m.partition]
  {
    if messages != [] {
      var front, last := messages[..|messages| - 1], messages[|messages| - 1];
      CommitsPast(front);
      assert messages == front + [last];
      forall m | m in messages ensures m.offset <= LatestByPartition(messages)[m.partition].offset {
        if m != last && m.partition == last.partition {
          var i :| 0 <= i < |front| && front[i] == m;
          assert messages[i] == m && messages[|front|] == last;
        }
      }
    }
  }

  /** Every message received is below the committed offset of its partition. */
  ghost predicate CommittedPast(committed: map<nat, nat>, messages: seq<Message>) {
    forall m :: m in messages ==> m.partition in committed && m.offset < committed[m.partition]
  }

  lemma CommittedArePast(before: map<nat, nat>, messages: seq<Message>)
    requires OffsetsRise(messages)
    ensures CommittedPast(before + CommitOffsets(LatestByPartition(messages)), messages)
  {
    CommitsPast(messages);
  }

  /** `unconfirmed` are the partitions whose commit fails; of these `landed` reach the broker anyway. */
  method CommitMessages(messages: seq<Message>, broker: Broker, unconfirmed: set<nat>, landed: set<nat>)
    returns (r: Result<map<nat, nat>, CommitError>)
    modifies broker
    ensures var offsets := CommitOffsets(LatestByPartition(messages));
      && (r.Ok? <==> offsets.Keys !! unconfirmed)
      && (r.Ok? ==> r.value == offsets && broker.committed == old(broker.committed) + offsets)
      && (r.Err? ==>
            var p := r.error.partition;
            p in offsets && p in unconfirmed &&
            broker.committed == old(broker.committed) + CommittedBefore(offsets, p, p in landed))
    ensures r.Ok? && OffsetsRise(messages) ==> CommittedPast(broker.committed, messages)
  {
    var latest := LatestMessages(messages);
    ghost var offsets := CommitOffsets(latest);
    ghost var before := broker.committed;
    var done: map<nat, nat>, pending := map[], latest.Keys;
    while pending != {}
      invariant Progress(offsets, pending, done, unconfirmed) && broker.committed == before + done
    {
      var p := LeastOf(pending);
      CommitNext(latest[p], p !in unconfirmed || p in landed, broker, offsets, pending, done, unconfirmed, before);
      if p in unconfirmed {
        return Err(NotConfirmed(p));
      }
      done := done[p := latest[p].offset + 1];
      pending := pending - {p};
    }
    assert done == offsets;
    if OffsetsRise(messages) { CommittedArePast(before, messages); }
    return Ok(done);
  }
}
