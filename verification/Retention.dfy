/** Enforcing a retention plan on a table: re-check, delete in chunks under a lifted flag, restore, audit, verify. */
module Retention {
  import opened Wrappers
  import opened Sequences
  import opened Ordering
  import opened DeltaRows
  import AppendProtocol
  import opened RetentionPlan

  const MAX_KEYS_PER_DELETE: nat := 1000

  /** The rows a delete of some keys leaves. */
  function Drop(rows: seq<Held>, keys: set<string>): (r: seq<Held>)
    ensures forall h :: h in r <==> h in rows && h.row.key !in keys
  {
    if rows == [] then []
    else if rows[0].row.key in keys then Drop(rows[1..], keys)
    else [rows[0]] + Drop(rows[1..], keys)
  }

  lemma {:induction false} DropDrop(rows: seq<Held>, a: set<string>, b: set<string>)
    ensures Drop(Drop(rows, a), b) == Drop(rows, a + b)
  {
    if rows != [] {
      DropDrop(rows[1..], a, b);
    }
  }

  lemma {:induction false} DropNone(rows: seq<Held>)
    ensures Drop(rows, {}) == rows
  {
    if rows != [] {
      DropNone(rows[1..]);
      assert rows == [rows[0]] + rows[1..];
    }
  }

  /** The rows that are not expired, as they were. */
  function Survivors(rule: Rule, rows: seq<Held>): (r: seq<Held>)
    ensures forall h :: h in r <==> h in rows && !rule.Is(h, Expired)
  {
    if rows == [] then []
    else if rule.Is(rows[0], Expired) then Survivors(rule, rows[1..])
    else [rows[0]] + Survivors(rule, rows[1..])
  }

  lemma {:induction false} DropIsSurvivors(rule: Rule, rows: seq<Held>, keys: set<string>)
    requires forall h :: h in rows ==> (h.row.key in keys <==> rule.Is(h, Expired))
    ensures Drop(rows, keys) == Survivors(rule, rows)
  {
    if rows != [] {
      assert rows[0] in rows && forall h :: h in rows[1..] ==> h in rows;
      DropIsSurvivors(rule, rows[1..], keys);
    }
  }

  lemma {:induction false} SurvivorsAppend(rule: Rule, a: seq<Held>, h: Held)
    ensures Survivors(rule, a + [h]) == Survivors(rule, a) + (if rule.Is(h, Expired) then [] else [h])
  {
    if a == [] {
      assert [] + [h] == [h] && [h][1..] == [];
    } else {
      assert (a + [h])[1..] == a[1..] + [h];
      SurvivorsAppend(rule, a[1..], h);
    }
  }

  lemma {:induction false} SurvivorCount(rule: Rule, rows: seq<Held>)
    ensures |Survivors(rule, rows)| + |TierRows(rule, rows, Expired)| == |rows|
  {
    if rows != [] {
      var front, last := rows[..|rows| - 1], rows[|rows| - 1];
      assert rows == front + [last];
      SurvivorCount(rule, front);
      SurvivorsAppend(rule, front, last);
    }
  }

  lemma {:induction false} NoneExpired(rule: Rule, rows: seq<Held>)
    requires forall h :: h in rows ==> !rule.Is(h, Expired)
    ensures TierRows(rule, rows, Expired) == []
  {
    if rows != [] {
      var front, last := rows[..|rows| - 1], rows[|rows| - 1];
      assert rows == front + [last];
      assert last in rows && forall h :: h in front ==> h in rows;
      NoneExpired(rule, front);
    }
  }

  // ---- which batches pass the re-check ----

  /** `_assert_batch_in_policy` on the rows a table holds. */
  ghost predicate BatchInPolicy(rule: Rule, rows: seq<Held>, keys: seq<string>) {
    && (forall h :: h in rows && h.row.key in keys ==> rule.Is(h, Expired))
    && (forall k :: k in keys ==> exists h :: h in rows && h.row.key == k)
  }

  /** No key of an expired row is also that of a row of another day or another tier. */
  ghost predicate KeysApart(rule: Rule, rows: seq<Held>) {
    forall a, b :: a in rows && b in rows && a.row.key == b.row.key && rule.Is(a, Expired) ==>
      rule.Is(b, Expired) && Date(a.occurredAt.value) == Date(b.occurredAt.value)
  }

  /** Keys of one batch that only expired rows have, none of them met in an earlier batch. */
  ghost predicate BatchApart(rule: Rule, rows: seq<Held>, batches: seq<Batch>, i: nat)
    requires i < |batches|
  {
    && (forall k :: k in batches[i].keys ==> k !in AllKeys(batches[..i]))
    && (forall h :: h in rows && h.row.key in batches[i].keys ==> rule.Is(h, Expired))
  }

  ghost predicate ApartUpTo(rule: Rule, rows: seq<Held>, batches: seq<Batch>, n: nat)
    requires n <= |batches|
  {
    forall i :: 0 <= i < n ==> BatchApart(rule, rows, batches, i)
  }

  lemma ApartOneMore(rule: Rule, rows: seq<Held>, batches: seq<Batch>, n: nat)
    requires n < |batches| && ApartUpTo(rule, rows, batches, n) && BatchApart(rule, rows, batches, n)
    ensures ApartUpTo(rule, rows, batches, n + 1)
  {
  }

  lemma PlannedKeyHasRow(rule: Rule, rows: seq<Held>, batches: seq<Batch>, i: nat, k: string) returns (h: Held)
    requires IsWindowed(TierRows(rule, rows, Expired), batches) && i < |batches| && k in batches[i].keys
    ensures h in rows && rule.Is(h, Expired) && OnDay(h, batches[i].window) && h.row.key == k
  {
    var expired := TierRows(rule, rows, Expired);
    var day := batches[i].window;
    KeyInSorted(batches[i].keys, DayRows(expired, day), k);
    h :| h in DayRows(expired, day) && h.row.key == k;
    assert h in expired;
  }

  lemma ExpiredRowIsPlanned(rule: Rule, rows: seq<Held>, batches: seq<Batch>, h: Held) returns (i: nat)
    requires IsWindowed(TierRows(rule, rows, Expired), batches) && h in rows && rule.Is(h, Expired)
    ensures i < |batches| && h.row.key in batches[i].keys && OnDay(h, batches[i].window)
  {
    var expired := TierRows(rule, rows, Expired);
    assert h in expired;
    i :| 0 <= i < |batches| && OnDay(h, batches[i].window);
    assert h in DayRows(expired, batches[i].window);
    KeyInSorted(batches[i].keys, DayRows(expired, batches[i].window), h.row.key);
  }

  /** When its turn comes a batch passes the re-check exactly when its keys are apart. */
  lemma InPolicyWhenApart(rule: Rule, rows: seq<Held>, batches: seq<Batch>, i: nat)
    requires IsWindowed(TierRows(rule, rows, Expired), batches) && i < |batches|
    ensures BatchInPolicy(rule, Drop(rows, AllKeys(batches[..i])), batches[i].keys) <==>
            BatchApart(rule, rows, batches, i)
  {
    var before := AllKeys(batches[..i]);
    var left := Drop(rows, before);
    if BatchInPolicy(rule, left, batches[i].keys) {
      forall k | k in batches[i].keys ensures k !in before {
        assert exists h :: h in left && h.row.key == k;
      }
    }
    if BatchApart(rule, rows, batches, i) {
      forall k | k in batches[i].keys ensures exists h :: h in left && h.row.key == k {
        var h := PlannedKeyHasRow(rule, rows, batches, i, k);
        assert h in left;
      }
    }
  }

  lemma ApartBatches(rule: Rule, rows: seq<Held>, batches: seq<Batch>, i: nat)
    requires IsWindowed(TierRows(rule, rows, Expired), batches) && i < |batches| && KeysApart(rule, rows)
    ensures BatchApart(rule, rows, batches, i)
  {
    forall k | k in batches[i].keys ensures k !in AllKeys(batches[..i]) {
      AllKeysAt(batches[..i], k);
      var h := PlannedKeyHasRow(rule, rows, batches, i, k);
      if j :| 0 <= j < i && k in batches[..i][j].keys {
        assert batches[j].window < batches[i].window;
        var h' := PlannedKeyHasRow(rule, rows, batches, j, k);
      }
    }
    forall h | h in rows && h.row.key in batches[i].keys ensures rule.Is(h, Expired) {
      var a := PlannedKeyHasRow(rule, rows, batches, i, h.row.key);
    }
  }

  lemma SamePlace(rule: Rule, rows: seq<Held>, batches: seq<Batch>, i: nat, j: nat, k: string)
    requires i < |batches| && j < |batches| && k in batches[i].keys && k in batches[j].keys
    requires BatchApart(rule, rows, batches, i) && BatchApart(rule, rows, batches, j)
    ensures i == j
  {
    if i < j {
      assert batches[..j][i] == batches[i];
      AllKeysAt(batches[..j], k);
    } else if j < i {
      assert batches[..i][j] == batches[j];
      AllKeysAt(batches[..i], k);
    }
  }

  /** Every batch passes its re-check exactly when no key of an expired row is shared across days or tiers. */
  lemma EveryBatchApartIff(rule: Rule, rows: seq<Held>, batches: seq<Batch>)
    requires IsWindowed(TierRows(rule, rows, Expired), batches)
    ensures ApartUpTo(rule, rows, batches, |batches|) <==> KeysApart(rule, rows)
  {
    if KeysApart(rule, rows) {
      forall i | 0 <= i < |batches| ensures BatchApart(rule, rows, batches, i) { ApartBatches(rule, rows, batches, i); }
    }
    if ApartUpTo(rule, rows, batches, |batches|) {
      forall a, b | a in rows && b in rows && a.row.key == b.row.key && rule.Is(a, Expired)
        ensures rule.Is(b, Expired) && Date(a.occurredAt.value) == Date(b.occurredAt.value)
      {
        var i := ExpiredRowIsPlanned(rule, rows, batches, a);
        assert BatchApart(rule, rows, batches, i);
        var j := ExpiredRowIsPlanned(rule, rows, batches, b);
        SamePlace(rule, rows, batches, i, j, a.row.key);
      }
    }
  }

  /** Once all batches have passed, what their deletion leaves is the rows that are not expired. */
  lemma AllDeleted(rule: Rule, rows: seq<Held>, batches: seq<Batch>)
    requires IsWindowed(TierRows(rule, rows, Expired), batches)
    requires ApartUpTo(rule, rows, batches, |batches|)
    ensures Drop(rows, AllKeys(batches)) == Survivors(rule, rows)
  {
    forall h | h in rows ensures h.row.key in AllKeys(batches) <==> rule.Is(h, Expired) {
      AllKeysAt(batches, h.row.key);
      if h.row.key in AllKeys(batches) {
        var i :| 0 <= i < |batches| && h.row.key in batches[i].keys;
        assert BatchApart(rule, rows, batches, i);
      }
      if rule.Is(h, Expired) {
        var i := ExpiredRowIsPlanned(rule, rows, batches, h);
      }
    }
    DropIsSurvivors(rule, rows, AllKeys(batches));
  }

  // ---- the audit log ----

  datatype Mode = PlanDelete | Delete | TierArchive
  datatype Window = Day(day: int) | ColdTier

  /** What the audit id is hashed from, the table being fixed. */
  datatype AuditId = AuditId(mode: Mode, window: Window, keys: seq<string>, dryRun: bool)

  datatype AuditRecord = AuditRecord(
    id: AuditId, policy: Policy, planned: nat, deleted: nat, archived: nat, operator: string)

  function PlanRecord(rule: Rule, operator: string, b: Batch): AuditRecord {
    AuditRecord(AuditId(PlanDelete, Day(b.window), b.keys, true), rule.policy, |b.keys|, 0, 0, operator)
  }

  function DeleteRecord(rule: Rule, operator: string, b: Batch): AuditRecord {
    AuditRecord(AuditId(Delete, Day(b.window), b.keys, false), rule.policy, |b.keys|, |b.keys|, 0, operator)
  }

  function ArchiveRecord(rule: Rule, operator: string, keys: seq<string>): AuditRecord {
    AuditRecord(AuditId(TierArchive, ColdTier, keys, false), rule.policy, |keys|, 0, |keys|, operator)
  }

  ghost predicate UniqueIds(audit: seq<AuditRecord>) {
    forall a, b :: a in audit && b in audit && a.id == b.id ==> a == b
  }

  /** A retained record of the same batch that differs, in policy or operator. */
  predicate AuditConflicts(audit: seq<AuditRecord>, record: AuditRecord) {
    exists r :: r in audit && r.id == record.id && r != record
  }

  function DeleteRecords(rule: Rule, operator: string, batches: seq<Batch>): seq<AuditRecord> {
    Map((b: Batch) => DeleteRecord(rule, operator, b), batches)
  }

  /** The audited deletions of a plan are different records and add up to its expired rows. */
  lemma AuditedDeletionsAddUp(rule: Rule, operator: string, rows: seq<Held>, plan: Plan)
    requires IsPlan(rule, rows, plan)
    ensures var records := DeleteRecords(rule, operator, plan.batches);
      && (forall i, j :: 0 <= i < j < |records| ==> records[i].id != records[j].id)
      && Sum(Map((r: AuditRecord) => r.deleted, records)) == plan.expired
  {
    var records := DeleteRecords(rule, operator, plan.batches);
    PlannedAddsUp(TierRows(rule, rows, Expired), plan.batches);
    assert Map((r: AuditRecord) => r.deleted, records) == Planned(plan.batches);
  }

  // ---- the tables ----

  /** How an operation on stored tables ends: well, or with an error before or after taking effect. */
  datatype Fault = Fine | Before | After

  /** The ASCII characters that `strip` removes. */
  predicate IsSpace(c: char) { c == ' ' || 9 <= c as int <= 13 || 28 <= c as int <= 31 }

  /** Non-empty, and unchanged by `strip`. */
  /** ASCII white space: tab to carriage return, the four separators and the blank. */
  predicate IsBlank(c: char) { c as int in {9, 10, 11, 12, 13, 28, 29, 30, 31, 32} }

  /** An operator is a text that is not empty and has no white space at its ends. */
  lemma OperatorIff(s: string)
    ensures IsOperator(s) <==> |s| > 0 && !IsBlank(s[0]) && !IsBlank(s[|s| - 1])
  {
  }

  predicate IsOperator(s: string) { s != "" && !IsSpace(s[0]) && !IsSpace(s[|s| - 1]) }

  // ---- a completed run in terms of ages ----

  /** The log holds a record of the batch. */
  ghost predicate Recorded(audit: seq<AuditRecord>, b: Batch, policy: Policy, operator: string, applied: bool) {
    exists a :: a in audit && a.id.mode == (if applied then Delete else PlanDelete) && a.id.window == Day(b.window) &&
      a.id.keys == b.keys && a.id.dryRun == !applied && a.policy == policy && a.planned == |b.keys| &&
      a.deleted == (if applied then |b.keys| else 0) && a.archived == 0 && a.operator == operator
  }

  /**
   * The plan is that of the ages. An applied run leaves, in order, exactly the rows up to the cold horizon, and
   * archives those beyond the hot one if asked to. Either way every batch is recorded.
   */
  ghost predicate EnforcedByAges(rule: Rule, operator: string, rows0: seq<Held>, plan: Plan, apply: bool, archiving: bool,
                                 rows: seq<Held>, audit: seq<AuditRecord>, archive: seq<Row>)
  {
    var hot, cold := rule.policy.hotDays * 86_400_000_000, rule.policy.coldYears * 365 * 86_400_000_000;
    && IsPlanByAges(rule.policy, rule.reference, rows0, plan)
    && (forall i :: 0 <= i < |plan.batches| ==> Recorded(audit, plan.batches[i], rule.policy, operator, apply))
    && rows == (if apply then Filter((h: Held) => !OlderThan(h, rule.reference, cold), rows0) else rows0)
    && (apply && archiving ==> forall h :: h in rows && AgeWithin(h, rule.reference, hot, cold) ==> HeldAs(archive, h.row))
  }

  /** The rows of the cold keys, in the order of the table. */
  ghost function ColdRows(rows: seq<Held>, coldKeys: seq<string>): seq<Row> {
    Map((h: Held) => h.row, Filter((h: Held) => h.row.key in coldKeys, rows))
  }

  function ChunkEnd(n: nat, start: nat): nat { if start + 1000 < n then start + 1000 else n }

  function ChunkAt(cold: seq<Row>, start: nat): seq<Row>
    requires start <= |cold|
  {
    cold[start..ChunkEnd(|cold|, start)]
  }

  /**
   * The log holds one record for each chunk of a thousand rows that starts before `end`, with the chunk's keys in
   * order.
   */
  ghost predicate ChunksRecorded(audit: seq<AuditRecord>, cold: seq<Row>, policy: Policy, operator: string, end: nat) {
    forall start: nat :: start < |cold| && start < end && start % 1000 == 0 ==>
      ChunkIsRecorded(audit, ChunkAt(cold, start), policy, operator)
  }

  ghost predicate ChunkIsRecorded(audit: seq<AuditRecord>, chunk: seq<Row>, policy: Policy, operator: string) {
    exists a :: a in audit && a.id.mode == TierArchive && a.id.window == ColdTier && !a.id.dryRun &&
      multiset(a.id.keys) == multiset(RowKeys(chunk)) &&
      (forall i, j :: 0 <= i < j < |a.id.keys| ==> TextPrecedes(a.id.keys[i], a.id.keys[j])) &&
      a.policy == policy && a.planned == |chunk| && a.deleted == 0 && a.archived == |chunk| && a.operator == operator
  }

  lemma RecordOfChunk(audit: seq<AuditRecord>, chunk: seq<Row>, rule: Rule, operator: string)
    requires ArchiveRecord(rule, operator, Sort(TextLe, RowKeys(chunk))) in audit
    ensures ChunkIsRecorded(audit, chunk, rule.policy, operator)
  {
    var keys := Sort(TextLe, RowKeys(chunk));
    TextOrder();
    SortSorted(TextLe, RowKeys(chunk));
    forall i, j | 0 <= i < j < |keys| ensures TextPrecedes(keys[i], keys[j]) { TextLeByPositions(keys[i], keys[j]); }
    assert ArchiveRecord(rule, operator, keys) in audit;
  }

  lemma ChunkRecorded(before: seq<AuditRecord>, audit: seq<AuditRecord>, cold: seq<Row>, policy: Policy, operator: string,
                      at: nat)
    requires at < |cold| && at % 1000 == 0 && before <= audit && ChunksRecorded(before, cold, policy, operator, at)
    requires ChunkIsRecorded(audit, ChunkAt(cold, at), policy, operator)
    ensures ChunksRecorded(audit, cold, policy, operator, ChunkEnd(|cold|, at))
  {
    forall start: nat | start < |cold| && start < at + 1000 && start % 1000 == 0
      ensures ChunkIsRecorded(audit, ChunkAt(cold, start), policy, operator)
    {
      if start < at {
        StaysRecorded(before, audit, ChunkAt(cold, start), policy, operator);
      } else {
        assert start == at;
      }
    }
  }

  lemma StaysRecorded(before: seq<AuditRecord>, audit: seq<AuditRecord>, chunk: seq<Row>, policy: Policy, operator: string)
    requires before <= audit && ChunkIsRecorded(before, chunk, policy, operator)
    ensures ChunkIsRecorded(audit, chunk, policy, operator)
  {
  }

  /** The archive only got rows of `cold`, the log only archive records. */
  ghost predicate OnlyArchived(
      archive0: seq<Row>, archive: seq<Row>, audit0: seq<AuditRecord>, audit: seq<AuditRecord>, cold: seq<Row>)
  {
    && archive0 <= archive && audit0 <= audit && UniqueIds(audit)
    && (forall a :: a in audit ==> a in audit0 || a.id.mode == TierArchive)
    && (forall row :: row in archive ==> row in archive0 || row in cold)
  }

  lemma OnlyArchivedMore(
      archive0: seq<Row>, archive: seq<Row>, archive': seq<Row>, audit0: seq<AuditRecord>, audit: seq<AuditRecord>,
      audit': seq<AuditRecord>, cold: seq<Row>, start: nat, end: nat)
    requires start <= end <= |cold| && OnlyArchived(archive0, archive, audit0, audit, cold)
    requires OnlyArchived(archive, archive', audit, audit', cold[start..end])
    ensures OnlyArchived(archive0, archive', audit0, audit', cold)
  {
  }

  lemma SettledMore(archive: seq<Row>, archive': seq<Row>, cold: seq<Row>, start: nat, end: nat)
    requires start <= end <= |cold| && archive <= archive'
    requires Settled(archive, cold[..start]) && Settled(archive', cold[start..end])
    ensures Settled(archive', cold[..end])
  {
    SettledGrows(archive, archive', cold[..start]);
    assert cold[..end] == cold[..start] + cold[start..end];
  }

  /** The chunks before `start` are archived and recorded. */
  ghost predicate ArchivedUpTo(
      archive0: seq<Row>, archive: seq<Row>, audit0: seq<AuditRecord>, audit: seq<AuditRecord>, cold: seq<Row>,
      start: nat, policy: Policy, operator: string)
  {
    && start <= |cold| && (start % 1000 == 0 || start == |cold|) && OnlyArchived(archive0, archive, audit0, audit, cold)
    && Settled(archive, cold[..start]) && ChunksRecorded(audit, cold, policy, operator, start)
  }

  lemma ArchivedNext(
      archive0: seq<Row>, archive: seq<Row>, archive': seq<Row>, audit0: seq<AuditRecord>, audit: seq<AuditRecord>,
      audit': seq<AuditRecord>, cold: seq<Row>, start: nat, policy: Policy, operator: string)
    requires start < |cold| && ArchivedUpTo(archive0, archive, audit0, audit, cold, start, policy, operator)
    requires OnlyArchived(archive, archive', audit, audit', ChunkAt(cold, start))
    requires Settled(archive', ChunkAt(cold, start)) && ChunkIsRecorded(audit', ChunkAt(cold, start), policy, operator)
    ensures ArchivedUpTo(archive0, archive', audit0, audit', cold, ChunkEnd(|cold|, start), policy, operator)
  {
    var end := ChunkEnd(|cold|, start);
    OnlyArchivedMore(archive0, archive, archive', audit0, audit, audit', cold, start, end);
    SettledMore(archive, archive', cold, start, end);
    ChunkRecorded(audit, audit', cold, policy, operator, start);
  }

  lemma ColdAreAmong(rule: Rule, rows: seq<Held>, plan: Plan, cold: seq<Row>)
    requires IsPlan(rule, rows, plan) && cold == RowsWithKeys(rows, KeySet(plan.coldKeys))
    ensures forall h :: h in rows && rule.Is(h, Cold) ==> h.row in cold
  {
    forall h | h in rows && rule.Is(h, Cold) ensures h.row in cold {
      assert h in TierRows(rule, rows, Cold);
      KeyInSorted(plan.coldKeys, TierRows(rule, rows, Cold), h.row.key);
    }
  }

  lemma {:induction false} ColdRowsAre(rows: seq<Held>, coldKeys: seq<string>, keep: Held -> bool)
    requires forall h :: keep(h) <==> h.row.key in coldKeys
    ensures RowsWithKeys(rows, KeySet(coldKeys)) == Map((h: Held) => h.row, Filter(keep, rows))
  {
    if rows != [] { ColdRowsAre(rows[1..], coldKeys, keep); }
  }

  lemma {:induction false} SurvivorsAre(rule: Rule, rows: seq<Held>, keep: Held -> bool)
    requires forall h :: keep(h) <==> !rule.Is(h, Expired)
    ensures Survivors(rule, rows) == Filter(keep, rows)
  {
    if rows != [] { SurvivorsAre(rule, rows[1..], keep); }
  }

  lemma SurvivorsByAges(rule: Rule, rows: seq<Held>, cold: int)
    requires rule.policy.Valid() && cold == rule.policy.coldYears * 365 * 86_400_000_000
    ensures Survivors(rule, rows) == Filter((h: Held) => !OlderThan(h, rule.reference, cold), rows)
  {
    forall h: Held ensures OlderThan(h, rule.reference, cold) <==> rule.Is(h, Expired) {
      if h.occurredAt.Some? { TierIff(rule.policy, h.occurredAt.value, rule.reference); }
    }
    SurvivorsAre(rule, rows, (h: Held) => !OlderThan(h, rule.reference, cold));
  }

  lemma EnforcedIsByAges(rule: Rule, operator: string, rows0: seq<Held>, plan: Plan, apply: bool, archiving: bool,
                         rows: seq<Held>, audit: seq<AuditRecord>, archive: seq<Row>)
    requires rule.policy.Valid() && IsPlan(rule, rows0, plan)
    requires forall i :: 0 <= i < |plan.batches| ==> RecordFor(rule, operator, plan.batches[i], apply) in audit
    requires rows == if apply then Survivors(rule, rows0) else rows0
    requires apply && archiving ==> forall h :: h in rows && rule.Is(h, Cold) ==> HeldAs(archive, h.row)
    ensures EnforcedByAges(rule, operator, rows0, plan, apply, archiving, rows, audit, archive)
  {
    var hot, cold := rule.policy.hotDays * 86_400_000_000, rule.policy.coldYears * 365 * 86_400_000_000;
    PlanByAges(rule, rows0, plan);
    SurvivorsByAges(rule, rows0, cold);
    forall i | 0 <= i < |plan.batches| ensures Recorded(audit, plan.batches[i], rule.policy, operator, apply) {
      var a := RecordFor(rule, operator, plan.batches[i], apply);
      assert a in audit;
    }
    forall h: Held | AgeWithin(h, rule.reference, hot, cold) ensures rule.Is(h, Cold) {
      TierIff(rule.policy, h.occurredAt.value, rule.reference);
    }
  }

  class GovernedTable {
    /** No operation on a healthy store fails. */
    const healthy: bool
    var rows: seq<Held>
    var appendOnly: bool
    var audit: seq<AuditRecord>
    var archive: AppendProtocol.Table

    constructor (rows: seq<Held>, appendOnly: bool, audit: seq<AuditRecord>, archive: AppendProtocol.Table,
                healthy: bool)
      ensures this.rows == rows && this.appendOnly == appendOnly && this.audit == audit
      ensures this.archive == archive && this.healthy == healthy
    {
      this.rows, this.appendOnly, this.audit, this.archive := rows, appendOnly, audit, archive;
      this.healthy := healthy;
    }

    method NextFault() returns (f: Fault)
      ensures healthy ==> f == Fine
    {
      if healthy { f := Fine; } else { f := *; }
    }

    method SetAppendOnly(value: bool) returns (ok: bool)
      modifies this`appendOnly
      ensures ok ==> appendOnly == value
      ensures healthy ==> ok
    {
      var fault := NextFault();
      if fault != Before { appendOnly := value; }
      ok := fault == Fine;
    }

    /** `DeltaTable.delete`, refused while the table is append-only. */
    method DeleteKeys(keys: set<string>) returns (r: Result<(), RetentionError>, ghost removed: set<string>)
      modifies this`rows
      ensures removed <= keys && rows == Drop(old(rows), removed)
      ensures r.Ok? ==> removed == keys
      ensures r.Err? ==> r.error in {AppendOnlyTable, StorageFailed}
      ensures appendOnly ==> r == Err(AppendOnlyTable) && removed == {}
      ensures healthy && !appendOnly ==> r.Ok?
    {
      removed := {};
      DropNone(rows);
      if appendOnly { return Err(AppendOnlyTable), removed; }
      var fault := NextFault();
      if fault != Before {
        rows := Drop(rows, keys);
        removed := keys;
      }
      r := if fault == Fine then Ok(()) else Err(StorageFailed);
    }

    /** The keys of a batch, a thousand at a time. */
    method DeleteChunks(keys: seq<string>) returns (r: Result<nat, RetentionError>, ghost removed: set<string>)
      modifies this`rows
      ensures removed <= KeySet(keys) && rows == Drop(old(rows), removed)
      ensures r.Ok? ==> r.value == |keys| && removed == KeySet(keys)
      ensures r.Err? ==> r.error in {AppendOnlyTable, StorageFailed}
      ensures healthy && !appendOnly ==> r.Ok?
    {
      var deleted, start := 0, 0;
      removed := {};
      DropNone(rows);
      while start < |keys|
        invariant start <= |keys| && deleted == start
        invariant removed == KeySet(keys[..start]) && rows == Drop(old(rows), removed)
      {
        var end := if start + MAX_KEYS_PER_DELETE < |keys| then start + MAX_KEYS_PER_DELETE else |keys|;
        var chunk := keys[start..end];
        assert keys[..end] == keys[..start] + chunk;
        var outcome;
        ghost var gone;
        outcome, gone := DeleteKeys(KeySet(chunk));
        DropDrop(old(rows), removed, gone);
        removed := removed + gone;
        if outcome.Err? { return Err(outcome.error), removed; }
        deleted, start := deleted + |chunk|, end;
      }
      assert keys[..|keys|] == keys;
      return Ok(deleted), removed;
    }

    /**
     * `_delete_batch`. Whatever happens, only keys of the batch go, and the append-only flag is what it
     * was unless restoring it is what failed.
     */
    method DeleteBatch(batch: Batch) returns (r: Result<nat, RetentionError>, ghost removed: set<string>)
      modifies this`rows, this`appendOnly
      ensures removed <= KeySet(batch.keys) && rows == Drop(old(rows), removed)
      ensures r.Ok? ==> r.value == |batch.keys| && removed == KeySet(batch.keys)
      ensures r != Err(RestoreFailed) ==> appendOnly == old(appendOnly)
      ensures r.Err? ==> r.error in {AppendOnlyTable, StorageFailed, RestoreFailed}
      ensures healthy ==> r.Ok?
    {
      var lifting := appendOnly;
      var lifted := true;
      removed := {};
      DropNone(rows);
      if lifting { lifted := SetAppendOnly(false); }
      if lifted { r, removed := DeleteChunks(batch.keys); } else { r := Err(StorageFailed); }
      if lifting {
        var restored := SetAppendOnly(true);
        if !restored { r := Err(RestoreFailed); }
      }
    }

    /** `_assert_batch_in_policy` */
    method AssertBatchInPolicy(rule: Rule, batch: Batch) returns (r: Result<(), RetentionError>)
      requires Timed(rule, rows)
      ensures r.Ok? ==> BatchInPolicy(rule, rows, batch.keys)
      ensures BatchInPolicy(rule, rows, batch.keys) && healthy ==> r.Ok?
      ensures r.Err? ==> r.error == StorageFailed || r.error == KeysMissing || r.error.OutOfPolicy?
    {
      var fault := NextFault();
      if fault != Fine { return Err(StorageFailed); }
      var wanted := KeySet(batch.keys);
      var found: set<string> := {};
      for i := 0 to |rows|
        invariant forall h :: h in rows[..i] && h.row.key in wanted ==> rule.Is(h, Expired)
        invariant forall k :: k in found ==> k in wanted && exists h :: h in rows && h.row.key == k
        invariant forall h :: h in rows[..i] && h.row.key in wanted ==> h.row.key in found
      {
        var h := rows[i];
        assert h in rows && rows[..i + 1] == rows[..i] + [h];
        if h.row.key in wanted {
          found := found + {h.row.key};
          if !rule.Is(h, Expired) { return Err(OutOfPolicy(h.row.key)); }
        }
      }
      assert rows[..|rows|] == rows;
      if !(wanted <= found) { return Err(KeysMissing); }
      assert forall k :: k in batch.keys ==> k in wanted;
      return Ok(());
    }

    /** `_append_audit_record`: one row, inserted if its id is absent. */
    method AppendAudit(record: AuditRecord) returns (r: Result<(), RetentionError>)
      requires UniqueIds(audit)
      modifies this`audit
      ensures old(audit) <= audit && UniqueIds(audit)
      ensures forall a :: a in audit ==> a in old(audit) || a == record
      ensures r.Ok? ==> record in audit
      ensures r.Err? ==> r.error in {StorageFailed, AuditConflict}
      ensures healthy ==> (r.Ok? <==> !AuditConflicts(old(audit), record))
    {
      var fault := NextFault();
      if fault == Before { return Err(StorageFailed); }
      if AuditConflicts(audit, record) { return Err(AuditConflict); }
      if record !in audit { audit := audit + [record]; }
      r := if fault == Fine then Ok(()) else Err(StorageFailed);
    }

    /**
     * `append_rows` on one chunk of the archive: a missing archive is created with it, as it is; else the chunk is
     * merged between two replay checks.
     */
    method AppendArchive(chunk: seq<Row>) returns (r: Result<(), RetentionError>)
      modifies this`archive
      ensures old(archive).Rows() <= archive.Rows()
      ensures r.Ok? ==> Settled(archive.Rows(), chunk)
      ensures forall row :: row in archive.Rows() ==> row in old(archive).Rows() || row in chunk
      ensures r.Ok? && old(archive).Missing? ==> archive == AppendProtocol.Table.Table(chunk, true)
      ensures r.Err? ==> r.error == StorageFailed || r.error.ArchiveFailed?
    {
      if chunk == [] { return Err(ArchiveFailed(EmptyBatch)); }
      var fault := NextFault();
      if fault == Before { return Err(StorageFailed); }
      if archive.Missing? {
        archive := AppendProtocol.Table.Table(chunk, true);
        SettledItself(chunk);
        return if fault == After then Err(StorageFailed) else Ok(());
      }
      if !archive.appendOnly { return Err(ArchiveFailed(NotAppendOnly)); }
      var check := RejectConflictingReplays(archive.rows, chunk);
      if check.Err? { return Err(ArchiveFailed(check.error)); }
      MergeUniqueKeys(archive.rows, chunk);
      archive := archive.(rows := MergeInsert(archive.rows, chunk));
      if fault == After { return Err(StorageFailed); }
      check := RejectConflictingReplays(archive.rows, chunk);
      if check.Err? { return Err(ArchiveFailed(check.error)); }
      CheckedAndPresentIsSettled(archive.rows, chunk);
      return Ok(());
    }

    /** One chunk is archived, then recorded. */
    method ArchiveChunk(rule: Rule, operator: string, chunk: seq<Row>) returns (r: Result<(), RetentionError>)
      requires UniqueIds(audit)
      modifies this`archive, this`audit
      ensures OnlyArchived(old(archive).Rows(), archive.Rows(), old(audit), audit, chunk)
      ensures r.Ok? ==> Settled(archive.Rows(), chunk) && ChunkIsRecorded(audit, chunk, rule.policy, operator)
      ensures r.Err? ==> r.error in {StorageFailed, AuditConflict} || r.error.ArchiveFailed?
    {
      r := AppendArchive(chunk);
      if r.Err? { return; }
      r := AppendAudit(ArchiveRecord(rule, operator, Sort(TextLe, RowKeys(chunk))));
      if r.Ok? { RecordOfChunk(audit, chunk, rule, operator); }
    }

    /** The chunks of the cold rows in turn. */
    method ArchiveRows(rule: Rule, operator: string, cold: seq<Row>) returns (r: Result<(), RetentionError>)
      requires UniqueIds(audit)
      modifies this`archive, this`audit
      ensures OnlyArchived(old(archive).Rows(), archive.Rows(), old(audit), audit, cold)
      ensures r.Ok? ==> Settled(archive.Rows(), cold) && ChunksRecorded(audit, cold, rule.policy, operator, |cold|)
      ensures r.Err? ==> r.error in {StorageFailed, AuditConflict} || r.error.ArchiveFailed?
    {
      var start := 0;
      ghost var archive0, audit0 := archive.Rows(), audit;
      while start < |cold|
        invariant ArchivedUpTo(archive0, archive.Rows(), audit0, audit, cold, start, rule.policy, operator)
      {
        var end := if start + MAX_KEYS_PER_DELETE < |cold| then start + MAX_KEYS_PER_DELETE else |cold|;
        var chunk := cold[start..end];
        ghost var archived, logged := archive.Rows(), audit;
        r := ArchiveChunk(rule, operator, chunk);
        OnlyArchivedMore(archive0, archived, archive.Rows(), audit0, logged, audit, cold, start, end);
        if r.Err? { return; }
        ArchivedNext(archive0, archived, archive.Rows(), audit0, logged, audit, cold, start, rule.policy, operator);
        start := end;
      }
      assert cold[..|cold|] == cold;
      return Ok(());
    }

    /** `_archive_cold_rows`: exactly the rows with a cold key go to the archive, each chunk of them recorded. */
    method ArchiveColdRows(rule: Rule, plan: Plan, operator: string) returns (r: Result<(), RetentionError>)
      requires UniqueIds(audit) && IsPlan(rule, rows, plan)
      modifies this`archive, this`audit
      ensures old(archive).Rows() <= archive.Rows() && old(audit) <= audit && UniqueIds(audit)
      ensures forall a :: a in audit ==> a in old(audit) || a.id.mode == TierArchive
      ensures r.Ok? ==> forall h :: h in rows && rule.Is(h, Cold) ==> HeldAs(archive.Rows(), h.row)
      ensures var cold := ColdRows(rows, plan.coldKeys);
        && (forall row :: row in archive.Rows() ==> row in old(archive).Rows() || row in cold)
        && (r.Ok? ==> Settled(archive.Rows(), cold) && ChunksRecorded(audit, cold, rule.policy, operator, |cold|))
      ensures r.Err? ==> r.error in {StorageFailed, AuditConflict} || r.error.ArchiveFailed?
    {
      var cold := RowsWithKeys(rows, KeySet(plan.coldKeys));
      ColdRowsAre(rows, plan.coldKeys, (h: Held) => h.row.key in plan.coldKeys);
      r := ArchiveRows(rule, operator, cold);
      ColdAreAmong(rule, rows, plan, cold);
    }

    /** One batch of a plan: re-check, delete, audit. Nothing goes before the re-check has passed. */
    method EnforceBatch(rule: Rule, plan: Plan, operator: string, i: nat, ghost rows0: seq<Held>)
      returns (r: Result<(), RetentionError>, ghost gone: set<string>)
      requires IsPlan(rule, rows0, plan) && i < |plan.batches| && UniqueIds(audit)
      requires rows == Drop(rows0, AllKeys(plan.batches[..i]))
      modifies this`rows, this`appendOnly, this`audit
      ensures gone <= KeySet(plan.batches[i].keys) && rows == Drop(old(rows), gone)
      ensures r.Ok? || gone != {} ==> BatchApart(rule, rows0, plan.batches, i)
      ensures r.Ok? ==> gone == KeySet(plan.batches[i].keys)
      ensures r != Err(RestoreFailed) ==> appendOnly == old(appendOnly)
      ensures old(audit) <= audit && UniqueIds(audit)
      ensures forall a :: a in audit ==> a in old(audit) || a == DeleteRecord(rule, operator, plan.batches[i])
      ensures r.Ok? ==> DeleteRecord(rule, operator, plan.batches[i]) in audit
      ensures (healthy && BatchApart(rule, rows0, plan.batches, i)
               && !AuditConflicts(old(audit), DeleteRecord(rule, operator, plan.batches[i]))) ==> r.Ok?
      ensures r.Err? ==> IsDeletionError(r.error)
    {
      var batch := plan.batches[i];
      gone := {};
      DropNone(rows);
      InPolicyWhenApart(rule, rows0, plan.batches, i);
      r := AssertBatchInPolicy(rule, batch);
      if r.Err? { return; }
      var deleted;
      deleted, gone := DeleteBatch(batch);
      if deleted.Err? { return Err(deleted.error), gone; }
      r := AppendAudit(DeleteRecord(rule, operator, batch).(deleted := deleted.value));
    }

    /** The first `n` batches of a plan are deleted and audited. */
    ghost predicate Progress(rule: Rule, operator: string, plan: Plan, rows0: seq<Held>, audit0: seq<AuditRecord>, n: nat)
      reads this
    {
      && n <= |plan.batches| && rows == Drop(rows0, AllKeys(plan.batches[..n]))
      && ApartUpTo(rule, rows0, plan.batches, n)
      && audit0 <= audit && UniqueIds(audit) && AuditedSoFar(audit0, audit, rule, operator, plan.batches, n)
    }

    /** The next batch; on failure some of its expired rows may be gone, and nothing of later batches. */
    method EnforceNext(rule: Rule, plan: Plan, operator: string, i: nat, ghost rows0: seq<Held>,
                       ghost audit0: seq<AuditRecord>)
      returns (r: Result<(), RetentionError>, ghost removed: set<string>)
      requires IsPlan(rule, rows0, plan) && i < |plan.batches| && Progress(rule, operator, plan, rows0, audit0, i)
      modifies this`rows, this`appendOnly, this`audit
      ensures r.Ok? ==> Progress(rule, operator, plan, rows0, audit0, i + 1)
      ensures rows == Drop(rows0, removed) && removed <= AllKeys(plan.batches[..i + 1])
      ensures forall h :: h in rows0 && h.row.key in removed ==> rule.Is(h, Expired)
      ensures r != Err(RestoreFailed) ==> appendOnly == old(appendOnly)
      ensures old(audit) <= audit && UniqueIds(audit)
      ensures healthy && BatchApart(rule, rows0, plan.batches, i) && NoAuditConflict(audit0, rule, operator, plan) ==>
                r.Ok?
      ensures r.Err? ==> IsDeletionError(r.error) && Partly(rule, operator, plan, rows0, i, removed)
    {
      if NoAuditConflict(audit0, rule, operator, plan) {
        ConflictOnlyFromBefore(audit0, audit, rule, operator, plan.batches, i);
      }
      ghost var before, gone := audit, {};
      r, gone := EnforceBatch(rule, plan, operator, i, rows0);
      removed := AllKeys(plan.batches[..i]) + gone;
      DropDrop(rows0, AllKeys(plan.batches[..i]), gone);
      AllKeysOneMore(plan.batches, i);
      RemovedAreExpired(rule, rows0, plan.batches, i, gone);
      if r.Ok? {
        ApartOneMore(rule, rows0, plan.batches, i);
        AuditedOneMore(audit0, before, audit, rule, operator, plan.batches, i);
      }
    }

    /** What any exit leaves: whole batches audited, of one more at most some expired rows gone. */
    ghost predicate Partly(rule: Rule, operator: string, plan: Plan, rows0: seq<Held>, done: nat, removed: set<string>)
      reads this
    {
      && done <= |plan.batches| && rows == Drop(rows0, removed)
      && (forall h :: h in rows0 && h.row.key in removed ==> rule.Is(h, Expired))
      && (forall i :: 0 <= i < done ==> DeleteRecord(rule, operator, plan.batches[i]) in audit)
      && removed <= AllKeys(if done < |plan.batches| then plan.batches[..done + 1] else plan.batches)
    }

    /**
     * The batches of a plan in turn. Deletion comes before its record, so a failure can leave the one
     * batch it happened in unaudited; no other.
     */
    method DeleteBatches(rule: Rule, plan: Plan, operator: string)
      returns (r: Result<(), RetentionError>, ghost done: nat, ghost removed: set<string>)
      requires IsPlan(rule, rows, plan) && UniqueIds(audit)
      modifies this`rows, this`appendOnly, this`audit
      ensures r.Ok? ==> done == |plan.batches| && Progress(rule, operator, plan, old(rows), old(audit), done)
      ensures r.Err? ==> Partly(rule, operator, plan, old(rows), done, removed) && IsDeletionError(r.error)
      ensures r != Err(RestoreFailed) ==> appendOnly == old(appendOnly)
      ensures old(audit) <= audit && UniqueIds(audit)
      ensures healthy && KeysApart(rule, old(rows)) && NoAuditConflict(old(audit), rule, operator, plan) ==> r.Ok?
    {
      ghost var rows0, audit0 := rows, audit;
      done, removed := 0, {};
      DropNone(rows);
      EveryBatchApartIff(rule, rows0, plan.batches);
      for i := 0 to |plan.batches|
        invariant done == i && Progress(rule, operator, plan, rows0, audit0, i) && appendOnly == old(appendOnly)
      {
        r, removed := EnforceNext(rule, plan, operator, i, rows0, audit0);
        if r.Err? { return; }
        done := i + 1;
      }
      return Ok(()), done, removed;
    }

    /** A run over all batches leaves exactly the rows that are not expired. */
    lemma Finished(rule: Rule, operator: string, plan: Plan, rows0: seq<Held>, audit0: seq<AuditRecord>)
      returns (removed: set<string>)
      requires IsPlan(rule, rows0, plan) && Progress(rule, operator, plan, rows0, audit0, |plan.batches|)
      ensures rows == Survivors(rule, rows0) && KeysApart(rule, rows0)
      ensures Partly(rule, operator, plan, rows0, |plan.batches|, removed)
    {
      removed := AllKeys(plan.batches);
      assert plan.batches[..|plan.batches|] == plan.batches;
      RemovedAreExpired(rule, rows0, plan.batches, |plan.batches|, {});
      EveryBatchApartIff(rule, rows0, plan.batches);
      AllDeleted(rule, rows0, plan.batches);
    }

    /** `plan_retention` on the stored rows. */
    method ReadPlan(rule: Rule) returns (r: Result<Plan, RetentionError>)
      ensures r.Ok? ==> IsPlan(rule, rows, r.value)
      ensures healthy ==> (r.Ok? <==> Timed(rule, rows))
      ensures r.Err? ==> r.error in {StorageFailed, NotATimestamp, LaterThanReference}
    {
      var fault := NextFault();
      if fault != Fine { return Err(StorageFailed); }
      r := PlanRetention(rule, rows);
    }

    /** A dry run records each planned batch and changes nothing else. */
    method RecordPlan(rule: Rule, plan: Plan, operator: string) returns (r: Result<(), RetentionError>)
      requires UniqueIds(audit)
      modifies this`audit
      ensures old(audit) <= audit && UniqueIds(audit)
      ensures forall a :: a in audit ==> a in old(audit) || (a.id.dryRun && a.deleted == 0)
      ensures r.Ok? ==> forall i :: 0 <= i < |plan.batches| ==> PlanRecord(rule, operator, plan.batches[i]) in audit
      ensures r.Err? ==> r.error in {StorageFailed, AuditConflict}
    {
      for i := 0 to |plan.batches|
        invariant old(audit) <= audit && UniqueIds(audit)
        invariant forall a :: a in audit ==> a in old(audit) || (a.id.dryRun && a.deleted == 0)
        invariant forall k :: 0 <= k < i ==> PlanRecord(rule, operator, plan.batches[k]) in audit
      {
        ghost var before := audit;
        r := AppendAudit(PlanRecord(rule, operator, plan.batches[i]));
        if r.Err? { return; }
        assert forall k :: 0 <= k < i ==> PlanRecord(rule, operator, plan.batches[k]) in before;
      }
      return Ok(());
    }

    /** The check after deletion; on what a finished run leaves it can only fail to read. */
    method VerifyRemaining(rule: Rule, plan: Plan, ghost rows0: seq<Held>) returns (r: Result<(), RetentionError>)
      requires IsPlan(rule, rows0, plan) && rows == Survivors(rule, rows0)
      ensures r.Err? ==> r.error == StorageFailed
      ensures healthy ==> r.Ok?
    {
      assert Timed(rule, rows);
      SurvivorCount(rule, rows0);
      NoneExpired(rule, rows);
      var remaining := ReadPlan(rule);
      if remaining.Err? { return Err(StorageFailed); }
      if remaining.value.total != plan.total - plan.expired { return Err(CountMismatch); }
      if remaining.value.expired != 0 { return Err(ExpiredRemain); }
      return Ok(());
    }

    method ArchiveIfAsked(rule: Rule, plan: Plan, operator: string, archiving: bool)
      returns (r: Result<(), RetentionError>)
      requires UniqueIds(audit) && IsPlan(rule, rows, plan)
      modifies this`archive, this`audit
      ensures old(archive).Rows() <= archive.Rows() && old(audit) <= audit && UniqueIds(audit)
      ensures forall a :: a in audit ==> a in old(audit) || a.id.mode == TierArchive
      ensures r.Ok? && archiving ==> forall h :: h in rows && rule.Is(h, Cold) ==> HeldAs(archive.Rows(), h.row)
      ensures !archiving ==> r.Ok? && audit == old(audit)
      ensures r.Err? ==> r.error in {StorageFailed, AuditConflict} || r.error.ArchiveFailed?
    {
      r := Ok(());
      if archiving && plan.coldKeys != [] {
        r := ArchiveColdRows(rule, plan, operator);
      } else if archiving {
        NoColdRows(rule, rows, plan);
      }
    }

    /**
     * `enforce_retention` with `apply`. Every exit has removed only expired rows, of at most one batch that
     * is not audited, and has the append-only flag back unless restoring it failed. A normal exit leaves
     * exactly the rows that are not expired, every batch audited, the cold rows archived when asked for.
     */
    method Apply(rule: Rule, plan: Plan, operator: string, archiving: bool)
      returns (r: Result<(), RetentionError>, ghost done: nat, ghost removed: set<string>)
      requires IsPlan(rule, rows, plan) && UniqueIds(audit)
      modifies this
      ensures Partly(rule, operator, plan, old(rows), done, removed)
      ensures r.Ok? ==> rows == Survivors(rule, old(rows)) && done == |plan.batches|
      ensures r.Ok? ==> KeysApart(rule, old(rows)) && NoAuditConflict(old(audit), rule, operator, plan)
      ensures r.Ok? && archiving ==> forall h :: h in rows && rule.Is(h, Cold) ==> HeldAs(archive.Rows(), h.row)
      ensures r != Err(RestoreFailed) ==> appendOnly == old(appendOnly)
      ensures old(audit) <= audit && UniqueIds(audit) && old(archive).Rows() <= archive.Rows()
      ensures healthy && !archiving && KeysApart(rule, old(rows)) && NoAuditConflict(old(audit), rule, operator, plan)
              ==> r.Ok?
      ensures r.Err? ==> IsDeletionError(r.error) || r.error.ArchiveFailed?
    {
      ghost var rows0, audit0 := rows, audit;
      done, removed := 0, {};
      DropNone(rows);
      r := ArchiveIfAsked(rule, plan, operator, archiving);
      if r.Err? { return; }
      ghost var audit1 := audit;
      r, done, removed := DeleteBatches(rule, plan, operator);
      if r.Err? { return; }
      removed := Finished(rule, operator, plan, rows0, audit1);
      r := VerifyRemaining(rule, plan, rows0);
    }

    /** What is gone are expired rows, and when rows are gone they are those of a plan's first batches. */
    ghost predicate OnlyExpiredGone(rule: Rule, operator: string, rows0: seq<Held>, done: nat, removed: set<string>)
      reads this
    {
      && rows == Drop(rows0, removed)
      && (forall h :: h in rows0 && h.row.key in removed ==> rule.Is(h, Expired))
      && (removed != {} ==>
            exists plan :: IsPlan(rule, rows0, plan) && Partly(rule, operator, plan, rows0, done, removed))
    }

    lemma NothingGone(rule: Rule, operator: string)
      ensures OnlyExpiredGone(rule, operator, rows, 0, {})
    {
      DropNone(rows);
    }

    lemma GoneFromPlan(rule: Rule, operator: string, plan: Plan, rows0: seq<Held>, done: nat, removed: set<string>)
      requires IsPlan(rule, rows0, plan) && Partly(rule, operator, plan, rows0, done, removed)
      ensures OnlyExpiredGone(rule, operator, rows0, done, removed)
    {
    }

    /** An applied run as `enforce_retention` goes through it once the plan is read. */
    method ApplyPlan(rule: Rule, plan: Plan, operator: string, archiving: bool)
      returns (outcome: Result<(), RetentionError>, ghost done: nat, ghost removed: set<string>)
      requires IsPlan(rule, rows, plan) && UniqueIds(audit)
      modifies this
      ensures OnlyExpiredGone(rule, operator, old(rows), done, removed)
      ensures outcome.Ok? ==> rows == Survivors(rule, old(rows))
      ensures outcome.Ok? ==> forall i :: 0 <= i < |plan.batches| ==> DeleteRecord(rule, operator, plan.batches[i]) in audit
      ensures outcome.Ok? && archiving ==> forall h :: h in rows && rule.Is(h, Cold) ==> HeldAs(archive.Rows(), h.row)
      ensures outcome != Err(RestoreFailed) ==> appendOnly == old(appendOnly)
      ensures old(audit) <= audit && UniqueIds(audit) && old(archive).Rows() <= archive.Rows()
      ensures outcome.Err? ==> IsDeletionError(outcome.error) || outcome.error.ArchiveFailed?
      ensures healthy && !archiving ==> (outcome.Ok? <==> Completes(rule, operator, old(rows), old(audit)))
    {
      OnePlan(rule, operator, rows, audit, plan);
      ghost var rows0 := rows;
      outcome, done, removed := Apply(rule, plan, operator, archiving);
      GoneFromPlan(rule, operator, plan, rows0, done, removed);
    }

    method DryRun(rule: Rule, plan: Plan, operator: string) returns (outcome: Result<(), RetentionError>)
      requires UniqueIds(audit)
      modifies this`audit
      ensures OnlyExpiredGone(rule, operator, old(rows), 0, {})
      ensures old(audit) <= audit && UniqueIds(audit)
      ensures outcome.Ok? ==> forall i :: 0 <= i < |plan.batches| ==> PlanRecord(rule, operator, plan.batches[i]) in audit
      ensures outcome.Err? ==> outcome.error in {StorageFailed, AuditConflict}
    {
      outcome := RecordPlan(rule, plan, operator);
      NothingGone(rule, operator);
    }

    /** `enforce_retention` after the plan is read. */
    method EnforcePlan(rule: Rule, plan: Plan, operator: string, apply: bool, archiving: bool)
      returns (outcome: Result<(), RetentionError>, ghost done: nat, ghost removed: set<string>)
      requires IsPlan(rule, rows, plan) && UniqueIds(audit)
      modifies this
      ensures OnlyExpiredGone(rule, operator, old(rows), done, removed)
      ensures outcome != Err(RestoreFailed) ==> appendOnly == old(appendOnly)
      ensures old(audit) <= audit && UniqueIds(audit) && old(archive).Rows() <= archive.Rows()
      ensures !apply ==> removed == {} && archive == old(archive) && appendOnly == old(appendOnly)
      ensures outcome.Ok? && apply ==> rows == Survivors(rule, old(rows))
      ensures outcome.Ok? ==> forall i :: 0 <= i < |plan.batches| ==>
                RecordFor(rule, operator, plan.batches[i], apply) in audit
      ensures outcome.Ok? && apply && archiving ==> forall h :: h in rows && rule.Is(h, Cold) ==> HeldAs(archive.Rows(), h.row)
      ensures outcome.Err? ==> outcome.error != CountMismatch && outcome.error != ExpiredRemain
      ensures healthy && apply && !archiving ==>
                (outcome.Ok? <==> Completes(rule, operator, old(rows), old(audit)))
    {
      done, removed := 0, {};
      if apply {
        outcome, done, removed := ApplyPlan(rule, plan, operator, archiving);
      } else {
        outcome := DryRun(rule, plan, operator);
      }
    }

    method EnforceRun(rule: Rule, operator: string, apply: bool, archiving: bool)
      returns (r: Result<Plan, RetentionError>, ghost done: nat, ghost removed: set<string>)
      requires UniqueIds(audit)
      modifies this
      ensures r.Ok? ==> IsOperator(operator) && IsPlan(rule, old(rows), r.value)
      ensures operator == "" || IsBlank(operator[0]) || IsBlank(operator[|operator| - 1]) ==> r == Err(NoOperator)
      ensures OnlyExpiredGone(rule, operator, old(rows), done, removed)
      ensures r != Err(RestoreFailed) ==> appendOnly == old(appendOnly)
      ensures old(audit) <= audit && UniqueIds(audit) && old(archive).Rows() <= archive.Rows()
      ensures !apply ==> removed == {} && archive == old(archive) && appendOnly == old(appendOnly)
      ensures r.Ok? && apply ==> rows == Survivors(rule, old(rows))
      ensures r.Ok? ==> forall i :: 0 <= i < |r.value.batches| ==>
                RecordFor(rule, operator, r.value.batches[i], apply) in audit
      ensures r.Ok? && apply && archiving ==> forall h :: h in rows && rule.Is(h, Cold) ==> HeldAs(archive.Rows(), h.row)
      ensures r.Err? ==> r.error != CountMismatch && r.error != ExpiredRemain
      ensures healthy && apply && !archiving ==>
                (r.Ok? <==> operator != "" && !IsBlank(operator[0]) && !IsBlank(operator[|operator| - 1])
                            && Completes(rule, operator, old(rows), old(audit)))
    {
      done, removed := 0, {};
      NothingGone(rule, operator);
      OperatorIff(operator);
      if !IsOperator(operator) { return Err(NoOperator), done, removed; }
      r := ReadPlan(rule);
      if r.Err? { return; }
      var outcome;
      outcome, done, removed := EnforcePlan(rule, r.value, operator, apply, archiving);
      if outcome.Err? { r := Err(outcome.error); }
    }

    /** `enforce_retention` */
    method Enforce(rule: Rule, operator: string, apply: bool, archiving: bool)
      returns (r: Result<Plan, RetentionError>, ghost done: nat, ghost removed: set<string>)
      requires UniqueIds(audit)
      modifies this
      ensures r.Ok? ==> IsOperator(operator) && IsPlan(rule, old(rows), r.value)
      ensures operator == "" || IsBlank(operator[0]) || IsBlank(operator[|operator| - 1]) ==> r == Err(NoOperator)
      ensures OnlyExpiredGone(rule, operator, old(rows), done, removed)
      ensures r != Err(RestoreFailed) ==> appendOnly == old(appendOnly)
      ensures old(audit) <= audit && UniqueIds(audit) && old(archive).Rows() <= archive.Rows()
      ensures !apply ==> removed == {} && archive == old(archive) && appendOnly == old(appendOnly)
      ensures r.Ok? && apply ==> rows == Survivors(rule, old(rows))
      ensures r.Ok? ==> forall i :: 0 <= i < |r.value.batches| ==>
                RecordFor(rule, operator, r.value.batches[i], apply) in audit
      ensures r.Ok? && apply && archiving ==> forall h :: h in rows && rule.Is(h, Cold) ==> HeldAs(archive.Rows(), h.row)
      ensures r.Err? ==> r.error != CountMismatch && r.error != ExpiredRemain
      ensures healthy && apply && !archiving ==>
                (r.Ok? <==> operator != "" && !IsBlank(operator[0]) && !IsBlank(operator[|operator| - 1])
                            && Completes(rule, operator, old(rows), old(audit)))
      ensures r.Ok? && rule.policy.Valid() ==>
                EnforcedByAges(rule, operator, old(rows), r.value, apply, archiving, rows, audit, archive.Rows())
    {
      ghost var rows0 := rows;
      r, done, removed := EnforceRun(rule, operator, apply, archiving);
      if r.Ok? && rule.policy.Valid() {
        DropNone(rows0);
        EnforcedIsByAges(rule, operator, rows0, r.value, apply, archiving, rows, audit, archive.Rows());
      }
    }
  }

  function RecordFor(rule: Rule, operator: string, b: Batch, apply: bool): AuditRecord {
    if apply then DeleteRecord(rule, operator, b) else PlanRecord(rule, operator, b)
  }

  /** What an applied run needs of the table and the log to complete. */
  ghost predicate Completes(rule: Rule, operator: string, rows: seq<Held>, audit: seq<AuditRecord>) {
    && Timed(rule, rows) && KeysApart(rule, rows)
    && forall plan :: IsPlan(rule, rows, plan) ==> NoAuditConflict(audit, rule, operator, plan)
  }

  lemma OnePlan(rule: Rule, operator: string, rows: seq<Held>, audit: seq<AuditRecord>, plan: Plan)
    requires IsPlan(rule, rows, plan)
    ensures Completes(rule, operator, rows, audit) <==>
            KeysApart(rule, rows) && NoAuditConflict(audit, rule, operator, plan)
  {
    forall other | IsPlan(rule, rows, other) ensures other == plan { PlanIgnoresRowOrder(rule, rows, rows, other, plan); }
  }

  lemma AllKeysOneMore(batches: seq<Batch>, i: nat)
    requires i < |batches|
    ensures AllKeys(batches[..i + 1]) == AllKeys(batches[..i]) + KeySet(batches[i].keys)
    ensures i + 1 == |batches| ==> batches[..i + 1] == batches
  {
    assert batches[..i + 1][..i] == batches[..i] && batches[..i + 1][i] == batches[i];
  }

  predicate IsDeletionError(e: RetentionError) {
    e in {AppendOnlyTable, StorageFailed, RestoreFailed, KeysMissing, AuditConflict} || e.OutOfPolicy?
  }

  /** Rows of batches that passed the re-check are expired. */
  lemma RemovedAreExpired(rule: Rule, rows: seq<Held>, batches: seq<Batch>, i: nat, gone: set<string>)
    requires i <= |batches| && ApartUpTo(rule, rows, batches, i)
    requires gone != {} ==> i < |batches| && gone <= KeySet(batches[i].keys) && BatchApart(rule, rows, batches, i)
    ensures forall h :: h in rows && h.row.key in AllKeys(batches[..i]) + gone ==> rule.Is(h, Expired)
  {
    forall h | h in rows && h.row.key in AllKeys(batches[..i]) + gone ensures rule.Is(h, Expired) {
      AllKeysAt(batches[..i], h.row.key);
      if h.row.key in AllKeys(batches[..i]) {
        var k :| 0 <= k < i && h.row.key in batches[..i][k].keys;
        assert BatchApart(rule, rows, batches, k);
      }
    }
  }

  /** No retained record stands in the way of the plan's deletion records. */
  ghost predicate NoAuditConflict(audit: seq<AuditRecord>, rule: Rule, operator: string, plan: Plan) {
    forall i :: 0 <= i < |plan.batches| ==> !AuditConflicts(audit, DeleteRecord(rule, operator, plan.batches[i]))
  }

  /** The log holds the deletion records of the first `n` batches, and nothing else new. */
  ghost predicate AuditedSoFar(audit0: seq<AuditRecord>, audit: seq<AuditRecord>, rule: Rule, operator: string,
                               batches: seq<Batch>, n: nat)
    requires n <= |batches|
  {
    && (forall k :: 0 <= k < n ==> DeleteRecord(rule, operator, batches[k]) in audit)
    && (forall a :: a in audit ==>
          a in audit0 || exists k :: 0 <= k < n && a == DeleteRecord(rule, operator, batches[k]))
  }

  lemma AuditedOneMore(audit0: seq<AuditRecord>, before: seq<AuditRecord>, audit: seq<AuditRecord>, rule: Rule,
                       operator: string, batches: seq<Batch>, i: nat)
    requires i < |batches| && AuditedSoFar(audit0, before, rule, operator, batches, i) && before <= audit
    requires DeleteRecord(rule, operator, batches[i]) in audit
    requires forall a :: a in audit ==> a in before || a == DeleteRecord(rule, operator, batches[i])
    ensures AuditedSoFar(audit0, audit, rule, operator, batches, i + 1)
  {
    forall k | 0 <= k < i ensures DeleteRecord(rule, operator, batches[k]) in audit {
      assert DeleteRecord(rule, operator, batches[k]) in before;
    }
  }

  /** Records of other windows do not conflict. */
  lemma ConflictOnlyFromBefore(audit0: seq<AuditRecord>, audit: seq<AuditRecord>, rule: Rule, operator: string,
                               batches: seq<Batch>, i: nat)
    requires i < |batches| && AuditedSoFar(audit0, audit, rule, operator, batches, i)
    requires forall j, k :: 0 <= j < k < |batches| ==> batches[j].window < batches[k].window
    requires !AuditConflicts(audit0, DeleteRecord(rule, operator, batches[i]))
    ensures !AuditConflicts(audit, DeleteRecord(rule, operator, batches[i]))
  {
  }

  lemma NoColdRows(rule: Rule, rows: seq<Held>, plan: Plan)
    requires IsPlan(rule, rows, plan) && plan.coldKeys == []
    ensures forall h :: h in rows ==> !rule.Is(h, Cold)
  {
    SameElements(plan.coldKeys, KeysOf(TierRows(rule, rows, Cold)));
    assert TierRows(rule, rows, Cold) == [];
  }

  function RowsWithKeys(rows: seq<Held>, keys: set<string>): (r: seq<Row>)
    ensures forall h :: h in rows && h.row.key in keys ==> h.row in r
  {
    if rows == [] then []
    else if rows[0].row.key in keys then [rows[0].row] + RowsWithKeys(rows[1..], keys)
    else RowsWithKeys(rows[1..], keys)
  }

  function RowKeys(rows: seq<Row>): seq<string> { Map((row: Row) => row.key, rows) }
}
