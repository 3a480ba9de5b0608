/** Dead-letter records: what is kept of a poison message and under which identity. */
module DeadLetter {
  import opened Wrappers
  import opened ByteStrings
  import opened DecimalDigits

  const MAX_LINE_BYTES: nat := 2 * 1024 * 1024
  const REASON_DUPLICATE_EVENT_ID := "duplicate-event-id"

  datatype DlqRecord = DlqRecord(
    eventId: string, topic: string, partition: nat, offset: nat, reason: string, raw: Bytes)

  function NatString(n: nat): (r: string) {
    var ds := Digits(n);
    seq(|ds|, i requires 0 <= i < |ds| => (48 + (ds[i] as int)) as char)
  }

  /** The text hashed into `dlq_event_id`; the hash is taken to be injective, so it stands for itself. */
  function KeyMaterial(topic: string, partition: nat, offset: nat, reason: string): string {
    topic + "/" + NatString(partition) + "/" + NatString(offset) + "/" + reason
  }

  function BuildRecord(topic: string, partition: nat, offset: nat, reason: string, value: Option<Bytes>)
    : (r: DlqRecord)
  {
    var raw := if value.None? then [] else value.value;
    DlqRecord(KeyMaterial(topic, partition, offset, reason), topic, partition, offset, reason,
              if |raw| > MAX_LINE_BYTES then raw[..MAX_LINE_BYTES] else raw)
  }

  /** The record of a message: where it came from, the reason, and its bytes up to two mebibytes. */
  ghost predicate Records(r: DlqRecord, topic: string, partition: nat, offset: nat, reason: string, value: Option<Bytes>) {
    && r.topic == topic && r.partition == partition && r.offset == offset && r.reason == reason
    && (value.None? ==> r.raw == [])
    && (value.Some? && |value.value| <= 2097152 ==> r.raw == value.value)
    && (value.Some? && |value.value| > 2097152 ==> r.raw == value.value[..2097152])
  }

  lemma BuiltRecord(topic: string, partition: nat, offset: nat, reason: string, value: Option<Bytes>)
    ensures Records(BuildRecord(topic, partition, offset, reason, value), topic, partition, offset, reason, value)
  {
  }

  /** Kafka topic names, `[A-Za-z0-9][A-Za-z0-9._-]{0,248}`. */
  predicate ValidTopic(topic: string) {
    1 <= |topic| <= 249 && IsAlphanumeric(topic[0]) &&
    forall i :: 0 <= i < |topic| ==> IsAlphanumeric(topic[i]) || topic[i] in "._-"
  }

  /** A topic name: 1 to 249 letters, digits, dots, underscores and hyphens, a letter or digit first. */
  lemma ValidTopicIff(topic: string)
    ensures ValidTopic(topic) <==>
            && 1 <= |topic| <= 249 && topic[0] != '.' && topic[0] != '_' && topic[0] != '-'
            && forall i :: 0 <= i < |topic| ==>
                 || 97 <= topic[i] as int <= 122 || 65 <= topic[i] as int <= 90 || 48 <= topic[i] as int <= 57
                 || topic[i] == '.' || topic[i] == '_' || topic[i] == '-'
  {
  }

  predicate IsAlphanumeric(c: char) { 'a' <= c <= 'z' || 'A' <= c <= 'Z' || '0' <= c <= '9' }

  lemma CutAtSlash(a: string, x: string, b: string, y: string)
    requires '/' !in a && '/' !in b && a + "/" + x == b + "/" + y
    ensures a == b && x == y
  {
    var s, t := a + "/" + x, b + "/" + y;
    assert s[|a|] == '/' && t[|b|] == '/';
    assert |a| == |b|;
    assert a == s[..|a|] && b == t[..|b|];
    assert x == s[|a| + 1..] && y == t[|b| + 1..];
  }

  lemma NatStringInjective(m: nat, n: nat)
    requires NatString(m) == NatString(n)
    ensures m == n
  {
    var a, b := Digits(m), Digits(n);
    assert |NatString(m)| == |a| && |NatString(n)| == |b|;
    forall i | 0 <= i < |a| ensures a[i] == b[i] {
      assert NatString(m)[i] as int == 48 + (a[i] as int);
      assert NatString(n)[i] as int == 48 + (b[i] as int);
    }
    assert a == b;
    DigitsInjective(m, n);
  }

  lemma NatStringHasNoSlash(n: nat)
    ensures '/' !in NatString(n)
  {
    var t := NatString(n);
    forall i | 0 <= i < |t| ensures t[i] != '/' {
      assert t[i] as int >= 48;
    }
  }

  /** For valid topic names the key material tells topic, partition, offset and reason apart. */
  lemma KeyMaterialInjective(topic: string, p: nat, o: nat, reason: string,
                             topic': string, p': nat, o': nat, reason': string)
    requires ValidTopic(topic) && ValidTopic(topic')
    requires KeyMaterial(topic, p, o, reason) == KeyMaterial(topic', p', o', reason')
    ensures topic == topic' && p == p' && o == o' && reason == reason'
  {
    var offsets, offsets' := NatString(o) + "/" + reason, NatString(o') + "/" + reason';
    var rest, rest' := NatString(p) + "/" + offsets, NatString(p') + "/" + offsets';
    assert KeyMaterial(topic, p, o, reason) == topic + "/" + rest;
    assert KeyMaterial(topic', p', o', reason') == topic' + "/" + rest';
    NatStringHasNoSlash(p);
    NatStringHasNoSlash(p');
    NatStringHasNoSlash(o);
    NatStringHasNoSlash(o');
    CutAtSlash(topic, rest, topic', rest');
    CutAtSlash(NatString(p), offsets, NatString(p'), offsets');
    CutAtSlash(NatString(o), reason, NatString(o'), reason');
    NatStringInjective(p, p');
    NatStringInjective(o, o');
  }

  /** A topic name with a slash would let two different messages share one identity. */
  lemma SlashInTopicIsAmbiguous()
    ensures KeyMaterial("a/1", 2, 3, "x") == "a/1/2/3/x" == KeyMaterial("a", 1, 2, "3/x")
  {
    assert Digits(1) == [1] && Digits(2) == [2] && Digits(3) == [3];
    assert NatString(1) == "1" && NatString(2) == "2" && NatString(3) == "3";
  }

  predicate Known(table: seq<DlqRecord>, eventId: string) {
    exists i :: 0 <= i < |table| && table[i].eventId == eventId
  }

  /** The quarantine table is keyed by `eventId`; a retained key is not written again. */
  function InsertRecord(table: seq<DlqRecord>, record: DlqRecord): seq<DlqRecord> {
    if Known(table, record.eventId) then table else table + [record]
  }

  /** What becomes of one quarantine: a produce and an append may each fail, and may have landed all the same. */
  datatype Fate = Confirmed | Unconfirmed(landed: bool) | AppendFails(landed: bool)

  predicate Succeeds(table: seq<DlqRecord>, record: DlqRecord, fate: Fate) {
    fate.Confirmed? || (fate.AppendFails? && Known(table, record.eventId))
  }

  function TopicAfter(topic: seq<DlqRecord>, record: DlqRecord, fate: Fate): seq<DlqRecord> {
    if fate == Unconfirmed(false) then topic else topic + [record]
  }

  function TableAfter(table: seq<DlqRecord>, record: DlqRecord, fate: Fate): seq<DlqRecord> {
    if fate.Confirmed? || fate == AppendFails(true) then InsertRecord(table, record) else table
  }

  /** The DLQ sink: topic first, then table. Success means that both hold the record; an error says nothing. */
  class DeadLetterQueue {
    var topic: seq<DlqRecord>
    var table: seq<DlqRecord>

    constructor ()
      ensures topic == [] && table == []
    {
      topic, table := [], [];
    }

    /**
     * When it succeeds the topic holds the record of the message, and so does the table unless it held the id
     * before.
     */
    method Quarantine(sourceTopic: string, partition: nat, offset: nat, reason: string, value: Option<Bytes>, fate: Fate)
      returns (ok: bool)
      modifies this
      ensures var record := BuildRecord(sourceTopic, partition, offset, reason, value);
        && (ok <==> Succeeds(old(table), record, fate))
        && topic == TopicAfter(old(topic), record, fate) && table == TableAfter(old(table), record, fate)
      ensures ok ==> exists r :: r in topic && Records(r, sourceTopic, partition, offset, reason, value) &&
                       Known(table, r.eventId) && (!Known(old(table), r.eventId) ==> r in table)
    {
      var record := BuildRecord(sourceTopic, partition, offset, reason, value);
      BuiltRecord(sourceTopic, partition, offset, reason, value);
      if fate != Unconfirmed(false) {
        topic := topic + [record];
      }
      if fate.Unconfirmed? {
        return false;
      }
      assert topic[|old(topic)|] == record;
      ok := AppendQuarantineRow(record, fate);
    }

    /** A row retained from before a crash is left as it is; `append_events` may raise after inserting. */
    method AppendQuarantineRow(record: DlqRecord, fate: Fate) returns (ok: bool)
      requires !fate.Unconfirmed?
      modifies this`table
      ensures ok <==> Succeeds(old(table), record, fate)
      ensures table == TableAfter(old(table), record, fate)
      ensures ok ==> Known(table, record.eventId) && (!Known(old(table), record.eventId) ==> record in table)
    {
      if Known(table, record.eventId) {
        return true;
      }
      if fate != AppendFails(false) {
        table := table + [record];
        assert table[|old(table)|] == record;
      }
      return fate.Confirmed?;
    }
  }
}
