/**
 * The insert-only merge of `append_rows` into an append-only Delta table, as the
 * rows a table holds and as the steps of one call between which other writers run.
 */
module DeltaRows {
  import opened Wrappers
  import opened Sequences

  datatype Value = Null | Datum(text: string)
  datatype Cell = Cell(column: string, value: Value)

  /** A row is an ordered dictionary; `key` is the text of its key column. */
  datatype Row = Row(key: string, cells: seq<Cell>)

  datatype AppendError =
    | EmptyBatch
    | AlreadyCreated
    | NotAppendOnly
    | ShapeMismatch
    | Conflict(keys: seq<string>)
    | CommitFailed

  const REPLAY_GUARD_EXCLUDED_COLUMNS: set<string> :=
    {"ingested_at", "promoted_at", "record_classification", "executed_at", "computed_at"}

  function Lookup(cells: seq<Cell>, column: string): Value {
    if cells == [] then Null
    else if cells[0].column == column then cells[0].value
    else Lookup(cells[1..], column)
  }

  function GuardColumns(cells: seq<Cell>): seq<string> {
    if cells == [] then []
    else if cells[0].column in REPLAY_GUARD_EXCLUDED_COLUMNS then GuardColumns(cells[1..])
    else [cells[0].column] + GuardColumns(cells[1..])
  }

  /** `replay_guard_columns`: the guard columns, when all rows of the batch share them. */
  function BatchGuardColumns(batch: seq<Row>): (r: Result<seq<string>, AppendError>)
    ensures r.Ok? <==> (batch != [] &&
                        forall i, j :: 0 <= i < |batch| && 0 <= j < |batch| ==>
                          GuardColumns(batch[i].cells) == GuardColumns(batch[j].cells))
    ensures r.Ok? ==> forall row :: row in batch ==> GuardColumns(row.cells) == r.value
  {
    if batch == [] then Err(EmptyBatch)
    else
      var columns := GuardColumns(batch[0].cells);
      if forall i :: 0 <= i < |batch| ==> GuardColumns(batch[i].cells) == columns
      then Ok(columns) else Err(ShapeMismatch)
  }

  predicate AgreesOn(columns: seq<string>, a: Row, b: Row) {
    forall i :: 0 <= i < |columns| ==> Lookup(a.cells, columns[i]) == Lookup(b.cells, columns[i])
  }

  function Keys(rows: seq<Row>): set<string> { set row | row in rows :: row.key }

  ghost predicate UniqueKeys(rows: seq<Row>) {
    forall i, j :: 0 <= i < j < |rows| ==> rows[i].key != rows[j].key
  }

  /** The row a dictionary built from `stored` holds under `key`: the last one. */
  function Existing(stored: seq<Row>, key: string): (r: Option<Row>)
    ensures r.None? <==> key !in Keys(stored)
    ensures r.Some? ==> r.value in stored && r.value.key == key
  {
    if stored == [] then None
    else if stored[|stored| - 1].key == key then Some(stored[|stored| - 1])
    else
      assert stored == stored[..|stored| - 1] + [stored[|stored| - 1]];
      Existing(stored[..|stored| - 1], key)
  }

  predicate Conflicts(stored: seq<Row>, row: Row, columns: seq<string>) {
    var existing := Existing(stored, row.key);
    existing.Some? && !AgreesOn(columns, existing.value, row)
  }

  function ConflictingKeys(stored: seq<Row>, batch: seq<Row>, columns: seq<string>): seq<string> {
    if batch == [] then []
    else
      var rest := ConflictingKeys(stored, batch[..|batch| - 1], columns);
      var row := batch[|batch| - 1];
      if Conflicts(stored, row, columns) then rest + [row.key] else rest
  }

  lemma {:induction false} NoConflictingKeys(stored: seq<Row>, batch: seq<Row>, columns: seq<string>)
    ensures ConflictingKeys(stored, batch, columns) == [] <==>
            forall row :: row in batch ==> !Conflicts(stored, row, columns)
  {
    if batch != [] {
      NoConflictingKeys(stored, batch[..|batch| - 1], columns);
      assert batch == batch[..|batch| - 1] + [batch[|batch| - 1]];
    }
  }

  /** Outcome of `reject_conflicting_replays` on one snapshot of the table. */
  function ReplayCheck(stored: seq<Row>, batch: seq<Row>): (r: Result<(), AppendError>) {
    var columns := BatchGuardColumns(batch);
    if columns.Err? then Err(columns.error)
    else
      var conflicts := ConflictingKeys(stored, batch, columns.value);
      if conflicts == [] then Ok(()) else Err(Conflict(conflicts))
  }

  /** The check passes exactly when no retained row differs from the batch on a guard column. */
  lemma ReplayCheckMeaning(stored: seq<Row>, batch: seq<Row>)
    ensures ReplayCheck(stored, batch).Ok? <==>
            (BatchGuardColumns(batch).Ok? &&
             forall row :: row in batch && row.key in Keys(stored) ==>
               AgreesOn(GuardColumns(row.cells), Existing(stored, row.key).value, row))
  {
    if BatchGuardColumns(batch).Ok? {
      NoConflictingKeys(stored, batch, BatchGuardColumns(batch).value);
    }
  }

  // ---- the same, cell by cell ----

  /** Neither a processing instant nor an optional label. */
  predicate IsContent(column: string) {
    && column != "ingested_at" && column != "promoted_at" && column != "record_classification"
    && column != "executed_at" && column != "computed_at"
  }

  function ContentColumns(cells: seq<Cell>): seq<string> {
    Map((c: Cell) => c.column, Filter((c: Cell) => IsContent(c.column), cells))
  }

  /** The first cell of the column has the value; a column that has no cell is null. */
  ghost predicate Shows(cells: seq<Cell>, column: string, value: Value) {
    || (exists i :: 0 <= i < |cells| && cells[i] == Cell(column, value) &&
          forall j :: 0 <= j < i ==> cells[j].column != column)
    || (value == Null && forall i :: 0 <= i < |cells| ==> cells[i].column != column)
  }

  /** Some content column of `row` has another value in `held`. */
  ghost predicate Differs(held: Row, row: Row) {
    exists i, v, w :: 0 <= i < |row.cells| && IsContent(row.cells[i].column) &&
      Shows(row.cells, row.cells[i].column, v) && Shows(held.cells, row.cells[i].column, w) && v != w
  }

  ghost predicate IsLastOf(stored: seq<Row>, i: nat, key: string) {
    i < |stored| && stored[i].key == key && forall j :: i < j < |stored| ==> stored[j].key != key
  }

  ghost predicate SameShape(batch: seq<Row>) {
    forall i, j :: 0 <= i < |batch| && 0 <= j < |batch| ==>
      ContentColumns(batch[i].cells) == ContentColumns(batch[j].cells)
  }

  /** The row of the key that is retained, the last one, differs from `row`. */
  ghost predicate Clashes(stored: seq<Row>, row: Row) {
    exists i: nat :: IsLastOf(stored, i, row.key) && Differs(stored[i], row)
  }

  /** Retained rows of the keys contradict the batch. */
  ghost predicate Contradicts(rows: seq<Row>, batch: seq<Row>, keys: seq<string>) {
    keys != [] && forall key :: key in keys ==> ContradictsAt(rows, batch, key)
  }

  ghost predicate ContradictsAt(rows: seq<Row>, batch: seq<Row>, key: string) {
    exists held, row :: held in rows && row in batch && held.key == key && row.key == key && Differs(held, row)
  }

  lemma ContradictsAtGrows(rows: seq<Row>, rows': seq<Row>, batch: seq<Row>, key: string)
    requires rows <= rows'
    ensures ContradictsAt(rows, batch, key) ==> ContradictsAt(rows', batch, key)
  {
    if ContradictsAt(rows, batch, key) {
      var held, row :| held in rows && row in batch && held.key == key && row.key == key && Differs(held, row);
      assert held in rows';
    }
  }

  lemma ContradictsGrows(rows: seq<Row>, rows': seq<Row>, batch: seq<Row>, keys: seq<string>)
    requires rows <= rows' && Contradicts(rows, batch, keys)
    ensures Contradicts(rows', batch, keys)
  {
    forall key | key in keys ensures ContradictsAt(rows', batch, key) {
      ContradictsAtGrows(rows, rows', batch, key);
    }
  }

  lemma ClashContradicts(rows: seq<Row>, batch: seq<Row>, row: Row)
    requires row in batch && Clashes(rows, row)
    ensures ContradictsAt(rows, batch, row.key)
  {
    var i: nat :| IsLastOf(rows, i, row.key) && Differs(rows[i], row);
    assert rows[i] in rows;
  }

  /** With unique keys a row is contradicted exactly when it clashes. */
  lemma ContradictedClashes(rows: seq<Row>, batch: seq<Row>, row: Row)
    requires UniqueKeys(rows) && UniqueKeys(batch) && row in batch
    ensures ContradictsAt(rows, batch, row.key) <==> Clashes(rows, row)
  {
    if Clashes(rows, row) { ClashContradicts(rows, batch, row); }
    if ContradictsAt(rows, batch, row.key) {
      var held, other :| held in rows && other in batch && held.key == row.key && other.key == row.key && Differs(held, other);
      OneOfKey(batch, row, other);
      var i :| 0 <= i < |rows| && rows[i] == held;
      assert IsLastOf(rows, i, row.key);
    }
  }

  /** Content that is held is not contradicted. */
  lemma HeldIsNotContradicted(rows: seq<Row>, batch: seq<Row>, row: Row)
    requires UniqueKeys(rows) && UniqueKeys(batch) && row in batch && HeldAs(rows, row)
    ensures !ContradictsAt(rows, batch, row.key)
  {
    var same :| same in rows && same.key == row.key && !Differs(same, row);
    forall held, other | held in rows && other in batch && held.key == row.key && other.key == row.key
      ensures !Differs(held, other)
    {
      OneOfKey(batch, row, other);
      OneOfKey(rows, same, held);
    }
  }

  lemma OneOfKey(rows: seq<Row>, a: Row, b: Row)
    requires UniqueKeys(rows) && a in rows && b in rows && a.key == b.key
    ensures a == b
  {
    var i :| 0 <= i < |rows| && rows[i] == a;
    var j :| 0 <= j < |rows| && rows[j] == b;
  }

  lemma {:induction false} LookupShows(cells: seq<Cell>, column: string, value: Value)
    ensures Lookup(cells, column) == value <==> Shows(cells, column, value)
  {
    if cells != [] && cells[0].column != column {
      var rest := cells[1..];
      LookupShows(rest, column, value);
      if i :| 0 <= i < |rest| && rest[i] == Cell(column, value) && forall j :: 0 <= j < i ==> rest[j].column != column {
        var k := i + 1;
        assert cells[k] == Cell(column, value);
        assert forall j :: 0 < j < k ==> cells[j] == rest[j - 1];
      }
      if i :| 0 <= i < |cells| && cells[i] == Cell(column, value) && forall j :: 0 <= j < i ==> cells[j].column != column {
        assert rest[i - 1] == cells[i];
        assert forall j :: 0 <= j < i - 1 ==> rest[j] == cells[j + 1];
      }
    }
  }

  ghost predicate HasColumn(cells: seq<Cell>, column: string) {
    exists i :: 0 <= i < |cells| && cells[i].column == column
  }

  lemma HasColumnStep(cells: seq<Cell>, column: string)
    requires cells != []
    ensures HasColumn(cells, column) <==> cells[0].column == column || HasColumn(cells[1..], column)
  {
    if i :| 0 <= i < |cells[1..]| && cells[1..][i].column == column { assert cells[i + 1].column == column; }
    if i :| 0 < i < |cells| && cells[i].column == column { assert cells[1..][i - 1].column == column; }
  }

  /** The guard columns are the content columns of the row in the order of its cells. */
  lemma {:induction false} GuardColumnsAre(cells: seq<Cell>)
    ensures GuardColumns(cells) == ContentColumns(cells)
  {
    if cells != [] { GuardColumnsAre(cells[1..]); }
  }

  lemma {:induction false} IsGuarded(cells: seq<Cell>, column: string)
    ensures column in GuardColumns(cells) <==> IsContent(column) && HasColumn(cells, column)
  {
    if cells != [] {
      IsGuarded(cells[1..], column);
      HasColumnStep(cells, column);
    }
  }

  lemma AgreesByCells(held: Row, row: Row)
    ensures AgreesOn(GuardColumns(row.cells), held, row) <==> !Differs(held, row)
  {
    var columns := GuardColumns(row.cells);
    if !AgreesOn(columns, held, row) {
      var k :| 0 <= k < |columns| && Lookup(held.cells, columns[k]) != Lookup(row.cells, columns[k]);
      assert columns[k] in columns;
      IsGuarded(row.cells, columns[k]);
      var i :| 0 <= i < |row.cells| && row.cells[i].column == columns[k];
      LookupShows(row.cells, columns[k], Lookup(row.cells, columns[k]));
      LookupShows(held.cells, columns[k], Lookup(held.cells, columns[k]));
    }
    if Differs(held, row) {
      var i, v, w :| 0 <= i < |row.cells| && IsContent(row.cells[i].column) &&
        Shows(row.cells, row.cells[i].column, v) && Shows(held.cells, row.cells[i].column, w) && v != w;
      LookupShows(row.cells, row.cells[i].column, v);
      LookupShows(held.cells, row.cells[i].column, w);
      IsGuarded(row.cells, row.cells[i].column);
    }
  }

  lemma {:induction false} ExistingIsLast(stored: seq<Row>, key: string) returns (i: nat)
    requires Existing(stored, key).Some?
    ensures IsLastOf(stored, i, key) && stored[i] == Existing(stored, key).value
  {
    var n := |stored| - 1;
    if stored[n].key == key {
      i := n;
    } else {
      i := ExistingIsLast(stored[..n], key);
      forall j | i < j < |stored| ensures stored[j].key != key {
        if j < n { assert stored[..n][j] == stored[j]; }
      }
    }
  }

  lemma LastIsExisting(stored: seq<Row>, key: string, i: nat)
    requires IsLastOf(stored, i, key)
    ensures Existing(stored, key) == Some(stored[i])
  {
    assert stored[i] in stored && key in Keys(stored);
    var j := ExistingIsLast(stored, key);
    assert i == j;
  }

  lemma ConflictsByCells(stored: seq<Row>, row: Row)
    ensures Conflicts(stored, row, GuardColumns(row.cells)) <==> Clashes(stored, row)
  {
    if Existing(stored, row.key).Some? {
      var i := ExistingIsLast(stored, row.key);
      AgreesByCells(stored[i], row);
    }
    if Clashes(stored, row) {
      var i: nat :| IsLastOf(stored, i, row.key) && Differs(stored[i], row);
      LastIsExisting(stored, row.key, i);
      AgreesByCells(stored[i], row);
    }
  }

  lemma {:induction false} ConflictingKeysAre(stored: seq<Row>, batch: seq<Row>, columns: seq<string>, key: string)
    requires forall row :: row in batch ==> GuardColumns(row.cells) == columns
    ensures key in ConflictingKeys(stored, batch, columns) <==>
            exists row :: row in batch && row.key == key && Clashes(stored, row)
  {
    if batch != [] {
      var front, last := batch[..|batch| - 1], batch[|batch| - 1];
      assert batch == front + [last];
      ConflictingKeysAre(stored, front, columns, key);
      ConflictsByCells(stored, last);
    }
  }

  lemma ShapesByCells(batch: seq<Row>)
    ensures BatchGuardColumns(batch).Ok? <==> batch != [] && SameShape(batch)
  {
    forall i | 0 <= i < |batch| ensures GuardColumns(batch[i].cells) == ContentColumns(batch[i].cells) {
      GuardColumnsAre(batch[i].cells);
    }
  }

  /** The keys whose retained row clashes with the batch's row of that key. */
  ghost predicate AreClashing(keys: seq<string>, stored: seq<Row>, batch: seq<Row>) {
    forall key :: key in keys <==> exists row :: row in batch && row.key == key && Clashes(stored, row)
  }

  lemma NoneClashing(stored: seq<Row>, batch: seq<Row>, keys: seq<string>)
    requires AreClashing(keys, stored, batch)
    ensures keys == [] <==> forall row :: row in batch ==> !Clashes(stored, row)
  {
    if keys != [] { assert keys[0] in keys; }
    if row :| row in batch && Clashes(stored, row) { assert row.key in keys; }
  }

  /**
   * An empty batch and one of several shapes are refused. Any other is refused exactly for the keys whose retained
   * row has another value in a content column of the batch's row.
   */
  ghost predicate IsReplayOutcome(stored: seq<Row>, batch: seq<Row>, r: Result<(), AppendError>) {
    if batch == [] then r == Err(EmptyBatch)
    else if !SameShape(batch) then r == Err(ShapeMismatch)
    else if forall row :: row in batch ==> !Clashes(stored, row) then r == Ok(())
    else r.Err? && r.error.Conflict? && AreClashing(r.error.keys, stored, batch)
  }

  lemma ReplayCheckByCells(stored: seq<Row>, batch: seq<Row>)
    ensures IsReplayOutcome(stored, batch, ReplayCheck(stored, batch))
  {
    ShapesByCells(batch);
    if BatchGuardColumns(batch).Ok? {
      var columns := BatchGuardColumns(batch).value;
      var keys := ConflictingKeys(stored, batch, columns);
      forall key ensures key in keys <==> exists row :: row in batch && row.key == key && Clashes(stored, row) {
        ConflictingKeysAre(stored, batch, columns, key);
      }
      NoneClashing(stored, batch, keys);
    }
  }

  lemma ConflictContradicts(stored: seq<Row>, batch: seq<Row>)
    requires ReplayCheck(stored, batch).Err? && ReplayCheck(stored, batch).error.Conflict?
    ensures Contradicts(stored, batch, ReplayCheck(stored, batch).error.keys)
  {
    ReplayCheckByCells(stored, batch);
    var keys := ReplayCheck(stored, batch).error.keys;
    forall key | key in keys ensures ContradictsAt(stored, batch, key) {
      var row :| row in batch && row.key == key && Clashes(stored, row);
      ClashContradicts(stored, batch, row);
    }
    NoneClashing(stored, batch, keys);
  }

  method RejectConflictingReplays(stored: seq<Row>, batch: seq<Row>)
    returns (r: Result<(), AppendError>)
    ensures r == ReplayCheck(stored, batch)
  {
    ReplayCheckByCells(stored, batch);
    var columns := BatchGuardColumns(batch);
    if columns.Err? {
      return Err(columns.error);
    }
    var conflicts: seq<string> := [];
    for i := 0 to |batch|
      invariant conflicts == ConflictingKeys(stored, batch[..i], columns.value)
    {
      assert batch[..i + 1][..i] == batch[..i];
      if Conflicts(stored, batch[i], columns.value) {
        conflicts := conflicts + [batch[i].key];
      }
    }
    assert batch[..|batch|] == batch;
    r := if conflicts == [] then Ok(()) else Err(Conflict(conflicts));
  }

  /** Every row of the batch is stored under its key with equal content. */
  ghost predicate Settled(stored: seq<Row>, batch: seq<Row>) {
    forall row :: row in batch ==> HeldAs(stored, row)
  }

  ghost predicate HeldAs(stored: seq<Row>, row: Row) {
    exists held :: held in stored && held.key == row.key && !Differs(held, row)
  }

  lemma SettledGrows(stored: seq<Row>, stored': seq<Row>, batch: seq<Row>)
    requires stored <= stored' && Settled(stored, batch)
    ensures Settled(stored', batch)
  {
    forall row | row in batch ensures HeldAs(stored', row) {
      var held :| held in stored && held.key == row.key && !Differs(held, row);
      assert held in stored';
    }
  }

  lemma SettledItself(batch: seq<Row>)
    ensures Settled(batch, batch)
  {
    forall row | row in batch ensures HeldAs(batch, row) {
      DiffersFromNoOther(row);
    }
  }

  lemma CheckedAndPresentIsSettled(stored: seq<Row>, batch: seq<Row>)
    requires ReplayCheck(stored, batch).Ok? && Keys(batch) <= Keys(stored)
    ensures Settled(stored, batch)
  {
    var columns := BatchGuardColumns(batch).value;
    NoConflictingKeys(stored, batch, columns);
    forall row | row in batch ensures HeldAs(stored, row) {
      assert row.key in Keys(batch);
      var held := Existing(stored, row.key).value;
      assert !Conflicts(stored, row, columns);
      AgreesByCells(held, row);
    }
  }

  /** `when_not_matched_insert_all`: the source rows whose key the target lacks. */
  function Absent(stored: seq<Row>, batch: seq<Row>): (r: seq<Row>)
    ensures forall row :: row in r <==> row in batch && row.key !in Keys(stored)
    ensures |r| <= |batch|
  {
    if batch == [] then []
    else if batch[0].key in Keys(stored) then Absent(stored, batch[1..])
    else [batch[0]] + Absent(stored, batch[1..])
  }

  function MergeInsert(stored: seq<Row>, batch: seq<Row>): seq<Row> {
    stored + Absent(stored, batch)
  }

  lemma {:induction false} AbsentUnique(stored: seq<Row>, batch: seq<Row>)
    requires UniqueKeys(batch)
    ensures UniqueKeys(Absent(stored, batch))
  {
    if batch != [] {
      AbsentUnique(stored, batch[1..]);
      forall row | row in Absent(stored, batch[1..]) ensures row.key != batch[0].key {
        assert row in batch[1..];
      }
    }
  }

  lemma MergeKeys(stored: seq<Row>, batch: seq<Row>)
    ensures Keys(MergeInsert(stored, batch)) == Keys(stored) + Keys(batch)
  {
    var merged, absent := MergeInsert(stored, batch), Absent(stored, batch);
    forall k ensures k in Keys(merged) <==> k in Keys(stored) + Keys(batch) {
      if k in Keys(batch) && k !in Keys(stored) {
        var row :| row in batch && row.key == k;
        assert row in absent && row in merged;
      }
      if k in Keys(stored) {
        var row :| row in stored && row.key == k;
        assert row in merged;
      }
      if k in Keys(merged) {
        var row :| row in merged && row.key == k;
        assert row in stored || row in absent;
      }
    }
  }

  lemma JoinedUnique(a: seq<Row>, b: seq<Row>)
    requires forall row :: row in b ==> row.key !in Keys(a)
    ensures UniqueKeys(a + b) <==> UniqueKeys(a) && UniqueKeys(b)
  {
    var both := a + b;
    assert a == both[..|a|] && b == both[|a|..];
    if UniqueKeys(both) {
      assert forall i :: 0 <= i < |b| ==> b[i] == both[|a| + i];
    }
    forall i, j | UniqueKeys(a) && UniqueKeys(b) && 0 <= i < j < |both| ensures both[i].key != both[j].key {
      if i < |a| <= j { assert b[j - |a|] in b && a[i] in a; }
    }
  }

  /** A merge leaves keys unique exactly when the table had unique keys and so have the rows it inserts. */
  lemma MergeUniqueKeys(stored: seq<Row>, batch: seq<Row>)
    ensures UniqueKeys(MergeInsert(stored, batch)) <==> UniqueKeys(stored) && UniqueKeys(Absent(stored, batch))
    ensures UniqueKeys(stored) && UniqueKeys(batch) ==> UniqueKeys(MergeInsert(stored, batch))
    ensures Keys(MergeInsert(stored, batch)) == Keys(stored) + Keys(batch)
  {
    JoinedUnique(stored, Absent(stored, batch));
    if UniqueKeys(batch) { AbsentUnique(stored, batch); }
    MergeKeys(stored, batch);
  }

  /** Nothing is inserted exactly when every key of the batch is held already. */
  lemma MergeInsertsNothing(stored: seq<Row>, batch: seq<Row>)
    ensures Absent(stored, batch) == [] <==> Keys(batch) <= Keys(stored)
  {
    if Absent(stored, batch) != [] {
      var row := Absent(stored, batch)[0];
      assert row in Absent(stored, batch) && row.key in Keys(batch);
    } else {
      forall k | k in Keys(batch) ensures k in Keys(stored) {
        var row :| row in batch && row.key == k;
        assert row !in Absent(stored, batch);
      }
    }
  }

  /** A batch that repeats a key, which `append_rows` does not look for, stores both rows. */
  lemma RepeatedKeyIsStoredTwice()
    ensures exists batch: seq<Row> :: !UniqueKeys(MergeInsert([], batch))
  {
    var row := Row("e1", []);
    var batch := [row, row];
    assert Absent([], batch[1..]) == [row];
    assert MergeInsert([], batch) == [row, row];
    assert MergeInsert([], batch)[0].key == MergeInsert([], batch)[1].key;
  }

  lemma DiffersFromNoOther(row: Row)
    ensures !Differs(row, row)
  {
    AgreesByCells(row, row);
  }

  /** After a batch with distinct keys was merged, the check it passed before passes again. */
  lemma CheckedAgain(stored: seq<Row>, batch: seq<Row>)
    requires ReplayCheck(stored, batch).Ok? && UniqueKeys(batch) && UniqueKeys(stored)
    ensures ReplayCheck(MergeInsert(stored, batch), batch).Ok?
  {
    var merged := MergeInsert(stored, batch);
    MergeUniqueKeys(stored, batch);
    ReplayCheckByCells(stored, batch);
    ReplayCheckByCells(merged, batch);
    forall row | row in batch ensures !Clashes(merged, row) {
      if Clashes(merged, row) {
        var i: nat :| IsLastOf(merged, i, row.key) && Differs(merged[i], row);
        if i < |stored| {
          assert IsLastOf(stored, i, row.key);
        } else {
          var added := Absent(stored, batch)[i - |stored|];
          assert added in Absent(stored, batch) && merged[i] == added;
          OneOfKey(batch, added, row);
          DiffersFromNoOther(row);
        }
      }
    }
  }
}
