/** What one polled message does to a batch under collection; counts per DLQ reason. */
module IngestBatch {
  import opened Wrappers
  import opened ByteStrings
  import opened DeltaRows
  import opened DeadLetter

  datatype Decoded = Event(row: Row) | Rejected(code: string, text: string)
  type Decoder = Option<Bytes> -> Decoded

  datatype Message = Message(partition: nat, offset: nat, value: Option<Bytes>)

  datatype Batch = Batch(
    events: seq<Row>, messages: seq<Message>, eventIds: set<string>, reasonCounts: map<string, nat>)

  const EMPTY := Batch([], [], {}, map[])

  datatype Verdict = Accept(row: Row) | Poison(reason: string)

  predicate OccursAt(text: string, part: string, i: nat) { i + |part| <= |text| && text[i..i + |part|] == part }

  predicate Mentions(text: string, part: string) { exists i: nat :: i <= |text| && OccursAt(text, part, i) }

  /** The reason of a failure is read off its text first, then off its kind. */
  function ReasonOf(code: string, text: string): string {
    if Mentions(text, "repeats event_id") then REASON_DUPLICATE_EVENT_ID else code
  }

  lemma MentionsIff(text: string, part: string)
    ensures Mentions(text, part) <==> exists before: string, after: string :: text == before + part + after
  {
    if Mentions(text, part) {
      var i: nat :| i <= |text| && OccursAt(text, part, i);
      assert text == text[..i] + part + text[i + |part|..];
    }
    if before: string, after: string :| text == before + part + after {
      assert OccursAt(text, part, |before|);
    }
  }

  /** A text that says so makes the reason a repeated event id, whatever its kind. */
  lemma ReasonIff(code: string, text: string)
    ensures ReasonOf(code, text) == if exists before: string, after: string :: text == before + "repeats event_id" + after
                                    then "duplicate-event-id" else code
  {
    MentionsIff(text, "repeats event_id");
  }

  function Classify(decode: Decoder, eventIds: set<string>, m: Message): Verdict {
    match decode(m.value)
    case Event(row) => if row.key in eventIds then Poison(REASON_DUPLICATE_EVENT_ID) else Accept(row)
    case Rejected(code, text) => Poison(ReasonOf(code, text))
  }

  function Accepted(b: Batch, row: Row, m: Message): Batch {
    Batch(b.events + [row], b.messages + [m], b.eventIds + {row.key}, b.reasonCounts)
  }

  function Poisoned(b: Batch, reason: string, m: Message): Batch {
    var count := if reason in b.reasonCounts then b.reasonCounts[reason] else 0;
    b.(messages := b.messages + [m], reasonCounts := b.reasonCounts[reason := count + 1])
  }

  ghost function Total(counts: map<string, nat>): nat {
    if counts == map[] then 0
    else
      var k :| k in counts;
      counts[k] + Total(counts - {k})
  }

  lemma {:induction false} TotalWithout(counts: map<string, nat>, k: string)
    requires k in counts
    ensures Total(counts) == counts[k] + Total(counts - {k})
    decreases |counts|
  {
    var j :| j in counts && Total(counts) == counts[j] + Total(counts - {j});
    if j != k {
      TotalWithout(counts - {j}, k);
      TotalWithout(counts - {k}, j);
      assert counts - {j} - {k} == counts - {k} - {j};
    }
  }

  lemma TotalCountsOneMore(b: Batch, reason: string, m: Message)
    ensures Total(Poisoned(b, reason, m).reasonCounts) == Total(b.reasonCounts) + 1
  {
    var counts, counts' := b.reasonCounts, Poisoned(b, reason, m).reasonCounts;
    TotalWithout(counts', reason);
    assert counts' - {reason} == counts - {reason};
    if reason in counts {
      TotalWithout(counts, reason);
    } else {
      assert counts - {reason} == counts;
    }
  }
}
