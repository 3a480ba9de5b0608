/** One `append_rows` call as steps, any number of calls interleaved, and the call as code. */
module AppendProtocol {
  import opened Wrappers
  import opened Sequences
  import opened DeltaRows

  const MAX_COMMIT_ATTEMPTS: nat := 3

  datatype Table = Missing | Table(rows: seq<Row>, appendOnly: bool) {
    function Rows(): seq<Row> { if Missing? then [] else rows }
  }

  datatype Phase =
    | Probe
    | Create
    | Check(attempt: nat)
    | Merge(attempt: nat)
    | Verify(written: nat)
    | Returned(written: nat, alreadyPresent: nat)
    | Raised(error: AppendError)

  /** `inserted` counts what this call added to the table, also when it raises later. */
  datatype Call = Call(batch: seq<Row>, phase: Phase, inserted: nat)

  /** One atomic step of a call. Between two steps any other call may step. */
  ghost predicate CallStep(t: Table, c: Call, t': Table, c': Call) {
    && c'.batch == c.batch
    && match c.phase
       case Probe =>
         t' == t && c' == c.(phase := if c.batch == [] then Raised(EmptyBatch)
                                      else if t.Missing? then Create else Check(1))
       case Create =>
         if t.Missing? then
           t' == Table(c.batch, true) && c' == Call(c.batch, Returned(|c.batch|, 0), |c.batch|)
         else
           t' == t && c' == c.(phase := Raised(AlreadyCreated))
       case Check(attempt) =>
         && t.Table? && t' == t
         && var check := ReplayCheck(t.rows, c.batch);
            c' == c.(phase := if !t.appendOnly then Raised(NotAppendOnly)
                              else if check.Err? then Raised(check.error) else Merge(attempt))
       case Merge(attempt) =>
         && t.Table?
         && (|| (t' == t.(rows := MergeInsert(t.rows, c.batch)) &&
                 c' == Call(c.batch, Verify(|Absent(t.rows, c.batch)|), c.inserted + |Absent(t.rows, c.batch)|))
             || (t' == t && c' == c.(phase := if attempt >= MAX_COMMIT_ATTEMPTS then Raised(CommitFailed)
                                               else Check(attempt + 1))))
       case Verify(written) =>
         && t.Table? && t' == t
         && var check := ReplayCheck(t.rows, c.batch);
            c' == c.(phase := if check.Err? then Raised(check.error)
                              else Returned(written, if written <= |c.batch| then |c.batch| - written else 0))
       case Returned(_, _) => false
       case Raised(_) => false
  }

  ghost predicate CallOk(t: Table, c: Call) {
    match c.phase
    case Probe => c.inserted == 0
    case Create => c.inserted == 0 && c.batch != []
    case Check(_) => c.inserted == 0 && t.Table? && c.batch != []
    case Merge(_) => c.inserted == 0 && t.Table? && c.batch != [] && BatchGuardColumns(c.batch).Ok?
    case Verify(w) => c.inserted == w <= |c.batch| && t.Table? && Keys(c.batch) <= Keys(t.rows)
    case Returned(w, present) =>
      c.inserted == w && w + present == |c.batch| && t.Table? && Settled(t.rows, c.batch)
    case Raised(error) =>
      c.inserted <= |c.batch| && (error.Conflict? ==> Contradicts(t.Rows(), c.batch, error.keys))
  }

  /** The table only ever grows at its end, so no retained row changes or goes away. */
  ghost predicate Grows(t: Table, t': Table) {
    && (t.Table? ==> t'.Table? && t'.appendOnly == t.appendOnly)
    && t.Rows() <= t'.Rows()
  }

  lemma CallOkGrows(t: Table, t': Table, c: Call)
    requires CallOk(t, c) && Grows(t, t')
    ensures CallOk(t', c)
  {
    if c.phase.Returned? { SettledGrows(t.rows, t'.rows, c.batch); }
    if c.phase.Verify? {
      forall k | k in Keys(c.batch) ensures k in Keys(t'.rows) {
        var row :| row in t.rows && row.key == k;
        assert row in t'.rows;
      }
    }
    if c.phase.Raised? && c.phase.error.Conflict? {
      ContradictsGrows(t.Rows(), t'.Rows(), c.batch, c.phase.error.keys);
    }
  }

  lemma CheckRaises(rows: seq<Row>, batch: seq<Row>)
    ensures ReplayCheck(rows, batch).Err? && ReplayCheck(rows, batch).error.Conflict? ==>
              Contradicts(rows, batch, ReplayCheck(rows, batch).error.keys)
  {
    if ReplayCheck(rows, batch).Err? && ReplayCheck(rows, batch).error.Conflict? { ConflictContradicts(rows, batch); }
  }

  /** What one step of a call keeps: its own bookkeeping, the growth of the table, unique keys, the row count. */
  lemma CallStepKeeps(t: Table, c: Call, t': Table, c': Call)
    requires CallStep(t, c, t', c') && CallOk(t, c)
    ensures CallOk(t', c') && Grows(t, t')
    ensures |t'.Rows()| - |t.Rows()| == c'.inserted - c.inserted
    ensures UniqueKeys(t.Rows()) && UniqueKeys(c.batch) ==> UniqueKeys(t'.Rows())
  {
    match c.phase
    case Create =>
      if t.Missing? {
        forall row | row in c.batch ensures HeldAs(t'.rows, row) {
          DiffersFromNoOther(row);
        }
      }
    case Check(_) =>
      CheckRaises(t.rows, c.batch);
    case Merge(_) =>
      MergeUniqueKeys(t.rows, c.batch);
    case Verify(w) =>
      CheckRaises(t.rows, c.batch);
      if ReplayCheck(t.rows, c.batch).Ok? { CheckedAndPresentIsSettled(t.rows, c.batch); }
    case _ =>
  }

  datatype State = State(table: Table, calls: seq<Call>)

  ghost predicate Start(s: State) {
    && UniqueKeys(s.table.Rows())
    && forall i :: 0 <= i < |s.calls| ==>
         s.calls[i].phase == Probe && s.calls[i].inserted == 0 && UniqueKeys(s.calls[i].batch)
  }

  ghost predicate StepBy(i: nat, s: State, s': State) {
    && i < |s.calls| && |s'.calls| == |s.calls|
    && s'.calls == s.calls[i := s'.calls[i]]
    && CallStep(s.table, s.calls[i], s'.table, s'.calls[i])
  }

  ghost predicate Step(s: State, s': State) { exists i: nat :: StepBy(i, s, s') }

  /** A run interleaves the calls in any way; a call that crashed just steps no more. */
  ghost predicate Run(states: seq<State>) {
    && states != []
    && forall i, j :: 0 <= i && j == i + 1 < |states| ==> Step(states[i], states[j])
  }

  function Inserted(calls: seq<Call>): nat {
    if calls == [] then 0 else calls[0].inserted + Inserted(calls[1..])
  }

  ghost predicate Inv(s: State) {
    && UniqueKeys(s.table.Rows())
    && forall i :: 0 <= i < |s.calls| ==> CallOk(s.table, s.calls[i]) && UniqueKeys(s.calls[i].batch)
  }

  lemma {:induction false} InsertedUpdate(calls: seq<Call>, i: nat, c: Call)
    requires i < |calls|
    ensures Inserted(calls[i := c]) == Inserted(calls) - calls[i].inserted + c.inserted
  {
    if i == 0 {
      assert calls[0 := c][1..] == calls[1..];
    } else {
      assert calls[i := c][1..] == calls[1..][i - 1 := c];
      InsertedUpdate(calls[1..], i - 1, c);
    }
  }

  lemma StepKeepsInv(s: State, s': State)
    requires Step(s, s') && Inv(s)
    ensures Inv(s') && Grows(s.table, s'.table)
    ensures |s'.table.Rows()| - |s.table.Rows()| == Inserted(s'.calls) - Inserted(s.calls)
  {
    var i: nat :| StepBy(i, s, s');
    CallStepKeeps(s.table, s.calls[i], s'.table, s'.calls[i]);
    InsertedUpdate(s.calls, i, s'.calls[i]);
    forall j | 0 <= j < |s.calls| && j != i ensures CallOk(s'.table, s'.calls[j]) {
      CallOkGrows(s.table, s'.table, s.calls[j]);
    }
  }

  lemma {:induction false} StartedInserted(calls: seq<Call>)
    requires forall i :: 0 <= i < |calls| ==> calls[i].inserted == 0
    ensures Inserted(calls) == 0
  {
    if calls != [] { StartedInserted(calls[1..]); }
  }

  /**
   * Every interleaving of any number of calls: keys stay unique, rows only get added, a call
   * that returned has its whole batch held, and the rows inserted add up to the table's growth.
   */
  lemma {:induction false} InterleavedCalls(states: seq<State>)
    requires Run(states) && Start(states[0])
    ensures var first, last := states[0], states[|states| - 1];
      && UniqueKeys(last.table.Rows())
      && Grows(first.table, last.table)
      && |last.table.Rows()| == |first.table.Rows()| + Inserted(last.calls)
      && |last.calls| == |first.calls|
      && Inv(last)
      && forall i :: 0 <= i < |last.calls| ==>
           last.calls[i].batch == first.calls[i].batch &&
           (last.calls[i].phase.Returned? ==>
              Settled(last.table.Rows(), last.calls[i].batch) &&
              last.calls[i].phase.written == last.calls[i].inserted &&
              last.calls[i].phase.written + last.calls[i].phase.alreadyPresent == |last.calls[i].batch|)
  {
    if |states| == 1 {
      StartedInserted(states[0].calls);
    } else {
      var before := states[..|states| - 1];
      InterleavedCalls(before);
      var s, s' := before[|before| - 1], states[|states| - 1];
      assert Step(states[|states| - 2], states[|states| - 1]);
      StepKeepsInv(s, s');
    }
  }

  lemma NextGrows(states: seq<State>, j: nat)
    requires Run(states) && Start(states[0]) && 0 < j < |states|
    ensures Inv(states[j]) && states[j - 1].table.Rows() <= states[j].table.Rows()
  {
    InterleavedCalls(states[..j]);
    var s, s' := states[j - 1], states[j];
    assert Step(s, s');
    StepKeepsInv(s, s');
  }

  lemma {:induction false} RunGrows(states: seq<State>, i: nat, j: nat)
    requires Run(states) && Start(states[0]) && i <= j < |states|
    ensures Inv(states[j]) && states[i].table.Rows() <= states[j].table.Rows()
    decreases j - i
  {
    if i < j {
      RunGrows(states, i, j - 1);
      NextGrows(states, j);
    } else {
      InterleavedCalls(states[..j + 1]);
    }
  }

  /** A row once retained stays the one row of its key at every later point of the run. */
  lemma RetainedRowsNeverChange(states: seq<State>, i: nat, j: nat, row: Row, later: Row)
    requires Run(states) && Start(states[0]) && i <= j < |states|
    requires row in states[i].table.Rows()
    ensures row in states[j].table.Rows()
    ensures later in states[j].table.Rows() && later.key == row.key ==> later == row
  {
    RunGrows(states, i, j);
    var early, late := states[i].table.Rows(), states[j].table.Rows();
    var a :| 0 <= a < |early| && early[a] == row;
    assert late[a] == row;
    if later in late && later.key == row.key {
      var b :| 0 <= b < |late| && late[b] == later;
    }
  }

  ghost predicate NothingNew(s: State, i: nat) {
    && s.table.Table? && i < |s.calls|
    && Keys(s.calls[i].batch) <= Keys(s.table.rows)
    && s.calls[i].inserted == 0 && !s.calls[i].phase.Create?
  }

  lemma NothingNewStays(s: State, s': State, i: nat)
    requires Step(s, s') && Inv(s) && NothingNew(s, i)
    ensures NothingNew(s', i) && s'.calls[i].batch == s.calls[i].batch
  {
    StepKeepsInv(s, s');
    MergeInsertsNothing(s.table.rows, s.calls[i].batch);
    forall k | k in Keys(s.calls[i].batch) ensures k in Keys(s'.table.rows) {
      var row :| row in s.table.rows && row.key == k;
      assert row in s'.table.rows;
    }
  }

  /** A call whose keys are all retained when it starts writes nothing, however it is interleaved. */
  lemma {:induction false} RepeatedCallWritesNothing(states: seq<State>, i: nat)
    requires Run(states) && Inv(states[0]) && i < |states[0].calls|
    requires states[0].table.Table? && states[0].calls[i].phase == Probe
    requires Keys(states[0].calls[i].batch) <= Keys(states[0].table.rows)
    ensures var last := states[|states| - 1];
      && Inv(last) && NothingNew(last, i) && last.calls[i].batch == states[0].calls[i].batch
      && (last.calls[i].phase.Returned? ==> last.calls[i].phase == Returned(0, |last.calls[i].batch|))
  {
    if |states| > 1 {
      var before := states[..|states| - 1];
      RepeatedCallWritesNothing(before, i);
      assert Step(states[|states| - 2], states[|states| - 1]);
      StepKeepsInv(states[|states| - 2], states[|states| - 1]);
      NothingNewStays(states[|states| - 2], states[|states| - 1], i);
    }
    assert CallOk(states[|states| - 1].table, states[|states| - 1].calls[i]);
  }

  /** What other writers may do to the table between two steps of a call. */
  ghost predicate OthersMerge(t: Table, t': Table) {
    t' == t || exists batch :: UniqueKeys(batch) && Merged(t, batch, t')
  }

  ghost predicate Merged(t: Table, batch: seq<Row>, t': Table) {
    if t.Missing? then t' == Table(batch, true)
    else t' == t.(rows := MergeInsert(t.rows, batch))
  }

  lemma OthersGrow(t: Table, t': Table)
    requires OthersMerge(t, t')
    ensures Grows(t, t')
    ensures UniqueKeys(t.Rows()) ==> UniqueKeys(t'.Rows())
  {
    if t' != t {
      var batch :| UniqueKeys(batch) && Merged(t, batch, t');
      if t.Table? { MergeUniqueKeys(t.rows, batch); }
    }
  }

  /** One call seen alone: its own steps with other writers' merges in between. */
  ghost predicate Interleaved(trace: seq<(Table, Call)>) {
    && trace != []
    && forall i, j :: 0 <= i && j == i + 1 < |trace| ==> Move(trace[i], trace[j])
  }

  ghost predicate Move(a: (Table, Call), b: (Table, Call)) {
    || CallStep(a.0, a.1, b.0, b.1)
    || (b.1 == a.1 && OthersMerge(a.0, b.0))
  }

  lemma {:induction false} InterleavedCall(trace: seq<(Table, Call)>)
    requires Interleaved(trace) && trace[0].1.phase == Probe && trace[0].1.inserted == 0
    ensures var last := trace[|trace| - 1];
      CallOk(last.0, last.1) && Grows(trace[0].0, last.0) && last.1.batch == trace[0].1.batch &&
      (UniqueKeys(trace[0].0.Rows()) && UniqueKeys(trace[0].1.batch) ==> UniqueKeys(last.0.Rows()))
  {
    if |trace| > 1 {
      var before := trace[..|trace| - 1];
      InterleavedCall(before);
      var a, b := before[|before| - 1], trace[|trace| - 1];
      assert Move(trace[|trace| - 2], trace[|trace| - 1]);
      if CallStep(a.0, a.1, b.0, b.1) {
        CallStepKeeps(a.0, a.1, b.0, b.1);
      } else {
        OthersGrow(a.0, b.0);
        CallOkGrows(a.0, b.0, a.1);
      }
    }
  }

  /** The same, and when `quiet` no other writer changes the table. */
  ghost predicate Traced(quiet: bool, trace: seq<(Table, Call)>) {
    && trace != []
    && forall i, j :: 0 <= i && j == i + 1 < |trace| ==> TracedMove(quiet, trace[i], trace[j])
  }

  ghost predicate TracedMove(quiet: bool, a: (Table, Call), b: (Table, Call)) {
    || CallStep(a.0, a.1, b.0, b.1)
    || (b.1 == a.1 && OthersMerge(a.0, b.0) && (quiet ==> b.0 == a.0))
  }

  lemma TracedIsInterleaved(quiet: bool, trace: seq<(Table, Call)>)
    requires Traced(quiet, trace)
    ensures Interleaved(trace)
  {
    forall i, j | 0 <= i && j == i + 1 < |trace| ensures Move(trace[i], trace[j]) {
      assert TracedMove(quiet, trace[i], trace[j]);
    }
  }

  lemma Stepped(quiet: bool, trace: seq<(Table, Call)>, t: Table, c: Call, t': Table, c': Call)
    returns (r: seq<(Table, Call)>)
    requires Traced(quiet, trace) && trace[|trace| - 1] == (t, c) && CallStep(t, c, t', c')
    ensures Traced(quiet, r) && r[0] == trace[0] && r[|r| - 1] == (t', c')
  {
    r := trace + [(t', c')];
  }

  lemma Interrupted(quiet: bool, trace: seq<(Table, Call)>, t: Table, c: Call, t': Table) returns (r: seq<(Table, Call)>)
    requires Traced(quiet, trace) && trace[|trace| - 1] == (t, c) && OthersMerge(t, t') && (quiet ==> t' == t)
    ensures Traced(quiet, r) && r[0] == trace[0] && r[|r| - 1] == (t', c)
  {
    r := trace + [(t', c)];
  }

  // ---- what the outcome says about the cells ----

  /**
   * Content is held when the call returned, retained rows contradict it when the call raised a conflict, and the call
   * never returns when a row retained before contradicts it.
   */
  ghost predicate OutcomeHolds(first: Table, last: Table, batch: seq<Row>, phase: Phase) {
    && (phase.Returned? ==> forall row :: row in batch ==> HeldAs(last.Rows(), row))
    && (phase.Raised? && phase.error.Conflict? ==> Contradicts(last.Rows(), batch, phase.error.keys))
    && (phase.Returned? ==> forall row :: row in batch ==> !ContradictsAt(first.Rows(), batch, row.key))
  }

  lemma CallOutcome(trace: seq<(Table, Call)>)
    requires Interleaved(trace) && trace[0].1.phase == Probe && trace[0].1.inserted == 0
    requires UniqueKeys(trace[0].0.Rows()) && UniqueKeys(trace[0].1.batch)
    ensures var last := trace[|trace| - 1];
      UniqueKeys(last.0.Rows()) && OutcomeHolds(trace[0].0, last.0, trace[0].1.batch, last.1.phase)
  {
    InterleavedCall(trace);
    var first, last := trace[0].0, trace[|trace| - 1];
    if last.1.phase.Returned? {
      forall row | row in last.1.batch
        ensures HeldAs(last.0.Rows(), row) && !ContradictsAt(first.Rows(), last.1.batch, row.key)
      {
        HeldIsNotContradicted(last.0.Rows(), last.1.batch, row);
        ContradictsAtGrows(first.Rows(), last.0.Rows(), last.1.batch, row.key);
      }
    }
  }

  // ---- a call that no other writer meets ----

  /** The rows of the batch whose keys the table lacks, in their order. */
  ghost function NewRows(rows: seq<Row>, batch: seq<Row>): seq<Row> {
    Filter((row: Row) => forall held :: held in rows ==> held.key != row.key, batch)
  }

  /**
   * A missing table is created with the batch. An existing one must be append-only, and no row of it may contradict
   * the batch, of one shape, in a content column; then it gets the rows whose keys it lacks.
   */
  ghost predicate AppendsAlone(t: Table, batch: seq<Row>, t': Table, r: Result<(nat, nat), AppendError>) {
    if batch == [] then t' == t && r == Err(EmptyBatch)
    else if t.Missing? then t' == Table(batch, true) && r == Ok((|batch|, 0))
    else if !t.appendOnly then t' == t && r == Err(NotAppendOnly)
    else if !SameShape(batch) then t' == t && r == Err(ShapeMismatch)
    else if exists row :: row in batch && ContradictsAt(t.rows, batch, row.key) then
      t' == t && r.Err? && r.error.Conflict? && Contradicts(t.rows, batch, r.error.keys)
    else
      var added := |NewRows(t.rows, batch)|;
      t' == t.(rows := t.rows + NewRows(t.rows, batch)) && r.Ok? && r.value.0 == added && r.value.1 == |batch| - added
  }

  lemma {:induction false} AbsentIsNew(rows: seq<Row>, batch: seq<Row>, keep: Row -> bool)
    requires forall row: Row :: keep(row) <==> row.key !in Keys(rows)
    ensures Absent(rows, batch) == Filter(keep, batch)
  {
    if batch != [] { AbsentIsNew(rows, batch[1..], keep); }
  }

  lemma AbsentIsNewRows(rows: seq<Row>, batch: seq<Row>)
    ensures Absent(rows, batch) == NewRows(rows, batch)
  {
    AbsentIsNew(rows, batch, (row: Row) => forall held :: held in rows ==> held.key != row.key);
  }

  /** Where a lone call is: the table as it was, or merged once. */
  ghost predicate AloneAt(first: Table, batch: seq<Row>, t: Table, c: Call) {
    c.batch == batch &&
    match c.phase
    case Probe => t == first
    case Create => batch != [] && t == first && t.Missing?
    case Check(attempt) => batch != [] && t == first && t.Table?
    case Merge(attempt) => batch != [] && t == first && t.Table? && t.appendOnly && ReplayCheck(t.rows, batch).Ok?
    case Verify(written) =>
      && batch != [] && first.Table? && first.appendOnly && ReplayCheck(first.rows, batch).Ok?
      && t == first.(rows := MergeInsert(first.rows, batch)) && written == |Absent(first.rows, batch)|
    case Returned(written, present) => AppendsAlone(first, batch, t, Ok((written, present)))
    case Raised(error) => AloneRaises(first, batch, t, error)
  }

  /** Nothing but a commit that keeps failing changes what a lone call does. */
  ghost predicate AloneRaises(first: Table, batch: seq<Row>, t: Table, error: AppendError) {
    if error == CommitFailed then t == first else AppendsAlone(first, batch, t, Err(error))
  }

  lemma RefusedAlone(t: Table, batch: seq<Row>)
    requires t.Table? && t.appendOnly && batch != [] && UniqueKeys(t.rows) && UniqueKeys(batch)
    requires ReplayCheck(t.rows, batch).Err?
    ensures AppendsAlone(t, batch, t, Err(ReplayCheck(t.rows, batch).error))
    ensures ReplayCheck(t.rows, batch).error != CommitFailed
  {
    ReplayCheckByCells(t.rows, batch);
    CheckRaises(t.rows, batch);
    if SameShape(batch) {
      var row :| row in batch && Clashes(t.rows, row);
      ClashContradicts(t.rows, batch, row);
    }
  }

  lemma MergedAlone(t: Table, batch: seq<Row>)
    requires t.Table? && t.appendOnly && batch != [] && UniqueKeys(t.rows) && UniqueKeys(batch)
    requires ReplayCheck(t.rows, batch).Ok?
    ensures var n := |Absent(t.rows, batch)|;
      AppendsAlone(t, batch, t.(rows := MergeInsert(t.rows, batch)), Ok((n, |batch| - n)))
  {
    ReplayCheckByCells(t.rows, batch);
    forall row | row in batch ensures !ContradictsAt(t.rows, batch, row.key) {
      ContradictedClashes(t.rows, batch, row);
    }
    AbsentIsNewRows(t.rows, batch);
  }

  lemma AloneStep(first: Table, batch: seq<Row>, t: Table, c: Call, t': Table, c': Call)
    requires UniqueKeys(first.Rows()) && UniqueKeys(batch) && AloneAt(first, batch, t, c)
    requires CallStep(t, c, t', c')
    ensures AloneAt(first, batch, t', c')
  {
    match c.phase
    case Check(_) =>
      if t.appendOnly && ReplayCheck(t.rows, batch).Err? { RefusedAlone(t, batch); }
    case Verify(written) =>
      CheckedAgain(first.rows, batch);
      MergedAlone(first, batch);
    case _ =>
  }

  /** A lone call does exactly what `AppendsAlone` says. */
  lemma {:induction false} AloneCall(trace: seq<(Table, Call)>)
    requires Traced(true, trace) && trace[0].1.phase == Probe
    requires UniqueKeys(trace[0].0.Rows()) && UniqueKeys(trace[0].1.batch)
    ensures var last := trace[|trace| - 1]; AloneAt(trace[0].0, trace[0].1.batch, last.0, last.1)
  {
    if |trace| > 1 {
      var before := trace[..|trace| - 1];
      AloneCall(before);
      var a, b := before[|before| - 1], trace[|trace| - 1];
      assert TracedMove(true, trace[|trace| - 2], trace[|trace| - 1]);
      if CallStep(a.0, a.1, b.0, b.1) {
        AloneStep(trace[0].0, trace[0].1.batch, a.0, a.1, b.0, b.1);
      }
    }
  }

  function Outcome(r: Result<(nat, nat), AppendError>): Phase {
    match r case Ok(counts) => Returned(counts.0, counts.1) case Err(error) => Raised(error)
  }

  /** What the environment does during one attempt: other writers' batches and the commit's fate. */
  datatype Turn = Turn(beforeCheck: seq<Row>, beforeMerge: seq<Row>, commitFails: bool, beforeVerify: seq<Row>) {
    predicate Quiet() { beforeCheck == [] && beforeMerge == [] && beforeVerify == [] }
  }

  /** No other writer comes in. */
  ghost predicate AllQuiet(turns: seq<Turn>) { forall i :: 0 <= i < |turns| ==> turns[i].Quiet() }

  /** The first commits all fail. */
  ghost predicate AllFail(turns: seq<Turn>, n: int) { n <= |turns| && forall i :: 0 <= i < n ==> turns[i].commitFails }

  class DeltaTable {
    var table: Table

    constructor (initial: Table)
      ensures table == initial
    {
      table := initial;
    }

    method OtherWriter(batch: seq<Row>)
      requires UniqueKeys(batch)
      modifies this
      ensures Merged(old(table), batch, table) && OthersMerge(old(table), table)
      ensures batch == [] && old(table).Table? ==> table == old(table)
    {
      if table.Missing? {
        table := Table(batch, true);
      } else {
        table := Table(MergeInsert(table.rows, batch), table.appendOnly);
      }
      assert UniqueKeys(batch) && Merged(old(table), batch, table);
    }

    /** Other writers get their turn in the middle of a call. */
    method Interrupt(ghost quiet: bool, batch: seq<Row>, ghost call: Call, ghost before: seq<(Table, Call)>)
      returns (ghost trace: seq<(Table, Call)>)
      requires UniqueKeys(batch) && Traced(quiet, before) && before[|before| - 1] == (table, call)
      requires quiet ==> batch == [] && table.Table?
      modifies this
      ensures table.Table? && Traced(quiet, trace) && trace[0] == before[0] && trace[|trace| - 1] == (table, call)
    {
      ghost var t := table;
      OtherWriter(batch);
      trace := Interrupted(quiet, before, t, call, table);
    }

    /** The atomic merge of one call. */
    method CommitMerge(ghost quiet: bool, batch: seq<Row>, attempt: nat, ghost before: seq<(Table, Call)>)
      returns (written: nat, ghost trace: seq<(Table, Call)>)
      requires table.Table? && Traced(quiet, before) && before[|before| - 1] == (table, Call(batch, Merge(attempt), 0))
      modifies this
      ensures table == Table(MergeInsert(old(table).rows, batch), old(table).appendOnly)
      ensures written == |Absent(old(table).rows, batch)| <= |batch|
      ensures Traced(quiet, trace) && trace[0] == before[0]
      ensures trace[|trace| - 1] == (table, Call(batch, Verify(written), written))
    {
      ghost var t := table;
      written := |Absent(table.rows, batch)|;
      table := Table(MergeInsert(table.rows, batch), table.appendOnly);
      trace := Stepped(quiet, before, t, Call(batch, Merge(attempt), 0), table, Call(batch, Verify(written), written));
    }

    /** One pass of the commit loop; None when the commit failed and another attempt is due. */
    method Attempt(ghost quiet: bool, batch: seq<Row>, attempt: nat, turn: Turn, ghost before: seq<(Table, Call)>)
      returns (r: Option<Result<(nat, nat), AppendError>>, ghost trace: seq<(Table, Call)>)
      requires UniqueKeys(turn.beforeCheck) && UniqueKeys(turn.beforeMerge) && UniqueKeys(turn.beforeVerify)
      requires table.Table? && Traced(quiet, before) && (quiet ==> turn.Quiet())
      requires before[|before| - 1] == (table, Call(batch, Check(attempt), 0))
      modifies this
      ensures table.Table? && Traced(quiet, trace) && trace[0] == before[0]
      ensures trace[|trace| - 1].0 == table && trace[|trace| - 1].1.batch == batch
      ensures r.None? || r == Some(Err(CommitFailed)) || (r.Some? && r.value.Ok?) ==>
                turn.commitFails == (r.None? || r == Some(Err(CommitFailed)))
      ensures r == Some(Err(CommitFailed)) ==> attempt >= MAX_COMMIT_ATTEMPTS
      ensures r.None? ==> attempt < MAX_COMMIT_ATTEMPTS &&
                          trace[|trace| - 1].1 == Call(batch, Check(attempt + 1), 0)
      ensures r.Some? ==> trace[|trace| - 1].1.phase == Outcome(r.value)
    {
      ghost var call := Call(batch, Check(attempt), 0);
      trace := Interrupt(quiet, turn.beforeCheck, call, before);
      if !table.appendOnly {
        trace := Stepped(quiet, trace, table, call, table, call.(phase := Raised(NotAppendOnly)));
        return Some(Err(NotAppendOnly)), trace;
      }
      var check := RejectConflictingReplays(table.rows, batch);
      if check.Err? {
        trace := Stepped(quiet, trace, table, call, table, call.(phase := Raised(check.error)));
        return Some(Err(check.error)), trace;
      }
      trace := Stepped(quiet, trace, table, call, table, call.(phase := Merge(attempt)));
      call := call.(phase := Merge(attempt));
      trace := Interrupt(quiet, turn.beforeMerge, call, trace);
      if turn.commitFails {
        if attempt >= MAX_COMMIT_ATTEMPTS {
          trace := Stepped(quiet, trace, table, call, table, call.(phase := Raised(CommitFailed)));
          return Some(Err(CommitFailed)), trace;
        }
        trace := Stepped(quiet, trace, table, call, table, call.(phase := Check(attempt + 1)));
        return None, trace;
      }
      var counts;
      counts, trace := MergeAndVerify(quiet, batch, attempt, turn.beforeVerify, trace);
      return Some(counts), trace;
    }

    method MergeAndVerify(ghost quiet: bool, batch: seq<Row>, attempt: nat, beforeVerify: seq<Row>,
                          ghost before: seq<(Table, Call)>)
      returns (r: Result<(nat, nat), AppendError>, ghost trace: seq<(Table, Call)>)
      requires UniqueKeys(beforeVerify) && table.Table? && Traced(quiet, before) && (quiet ==> beforeVerify == [])
      requires before[|before| - 1] == (table, Call(batch, Merge(attempt), 0))
      modifies this
      ensures table.Table? && Traced(quiet, trace) && trace[0] == before[0]
      ensures trace[|trace| - 1].0 == table && trace[|trace| - 1].1.batch == batch
      ensures trace[|trace| - 1].1.phase == Outcome(r) && r != Err(CommitFailed)
    {
      var written;
      written, trace := CommitMerge(quiet, batch, attempt, before);
      ghost var call := Call(batch, Verify(written), written);
      trace := Interrupt(quiet, beforeVerify, call, trace);
      var check := RejectConflictingReplays(table.rows, batch);
      if check.Err? {
        trace := Stepped(quiet, trace, table, call, table, call.(phase := Raised(check.error)));
        return Err(check.error), trace;
      }
      trace := Stepped(quiet, trace, table, call, table, call.(phase := Returned(written, |batch| - written)));
      return Ok((written, |batch| - written)), trace;
    }

    /**
     * `append_rows`. The ghost trace shows every state the code passes through to be a step of
     * the call or a merge by another writer, so all the run theorems speak about this code.
     */
    method AppendRows(batch: seq<Row>, afterProbe: seq<Row>, turns: seq<Turn>)
      returns (r: Result<(nat, nat), AppendError>, ghost trace: seq<(Table, Call)>)
      requires |turns| == 3 && UniqueKeys(afterProbe)
      requires forall i :: 0 <= i < |turns| ==>
        UniqueKeys(turns[i].beforeCheck) && UniqueKeys(turns[i].beforeMerge) && UniqueKeys(turns[i].beforeVerify)
      modifies this
      ensures Interleaved(trace)
      ensures trace[0] == (old(table), Call(batch, Probe, 0)) && trace[|trace| - 1].0 == table
      ensures trace[|trace| - 1].1.phase == Outcome(r)
      ensures r.Ok? ==> r.value.0 + r.value.1 == |batch| && Settled(table.Rows(), batch)
      ensures old(table).Rows() <= table.Rows()
      ensures UniqueKeys(old(table).Rows()) && UniqueKeys(batch) ==>
                UniqueKeys(table.Rows()) && OutcomeHolds(old(table), table, batch, Outcome(r))
      ensures UniqueKeys(old(table).Rows()) && UniqueKeys(batch) && afterProbe == [] && AllQuiet(turns) ==>
                if r == Err(CommitFailed) then table == old(table) else AppendsAlone(old(table), batch, table, r)
      ensures r == Err(CommitFailed) ==> turns[0].commitFails && turns[1].commitFails && turns[2].commitFails
      ensures old(table).Table? && turns[0].commitFails && turns[1].commitFails && turns[2].commitFails ==> r.Err?
    {
      ghost var quiet := afterProbe == [] && AllQuiet(turns);
      r, trace := AppendTraced(quiet, batch, afterProbe, turns);
      TracedIsInterleaved(quiet, trace);
      InterleavedCall(trace);
      if UniqueKeys(old(table).Rows()) && UniqueKeys(batch) {
        CallOutcome(trace);
        if quiet { AloneCall(trace); }
      }
    }

    method AppendTraced(ghost quiet: bool, batch: seq<Row>, afterProbe: seq<Row>, turns: seq<Turn>)
      returns (r: Result<(nat, nat), AppendError>, ghost trace: seq<(Table, Call)>)
      requires |turns| == 3 && UniqueKeys(afterProbe)
      requires forall i :: 0 <= i < |turns| ==>
        UniqueKeys(turns[i].beforeCheck) && UniqueKeys(turns[i].beforeMerge) && UniqueKeys(turns[i].beforeVerify)
      requires quiet ==> afterProbe == [] && AllQuiet(turns)
      modifies this
      ensures Traced(quiet, trace)
      ensures trace[0] == (old(table), Call(batch, Probe, 0)) && trace[|trace| - 1].0 == table
      ensures trace[|trace| - 1].1.batch == batch && trace[|trace| - 1].1.phase == Outcome(r)
      ensures r == Err(CommitFailed) ==> AllFail(turns, 3)
      ensures old(table).Table? && AllFail(turns, 3) ==> r.Err?
    {
      ghost var call := Call(batch, Probe, 0);
      trace := [(table, call)];
      if batch == [] {
        trace := Stepped(quiet, trace, table, call, table, call.(phase := Raised(EmptyBatch)));
        return Err(EmptyBatch), trace;
      }
      if table.Missing? {
        trace := Stepped(quiet, trace, table, call, table, call.(phase := Create));
        call := call.(phase := Create);
        if afterProbe != [] {
          OtherWriter(afterProbe);
          trace := Interrupted(quiet, trace, Missing, call, table);
          trace := Stepped(quiet, trace, table, call, table, call.(phase := Raised(AlreadyCreated)));
          InterleavedCall(trace);
          return Err(AlreadyCreated), trace;
        }
        table := Table(batch, true);
        trace := Stepped(quiet, trace, Missing, call, table, Call(batch, Returned(|batch|, 0), |batch|));
        return Ok((|batch|, 0)), trace;
      }
      trace := Stepped(quiet, trace, table, call, table, call.(phase := Check(1)));
      var attempt := 1;
      var outcome: Option<Result<(nat, nat), AppendError>> := None;
      while outcome.None?
        invariant table.Table? && Traced(quiet, trace) && trace[0] == (old(table), Call(batch, Probe, 0))
        invariant trace[|trace| - 1].0 == table && trace[|trace| - 1].1.batch == batch
        invariant outcome.None? ==> attempt <= 3 && AllFail(turns, attempt - 1)
        invariant outcome == Some(Err(CommitFailed)) ==> AllFail(turns, 3)
        invariant AllFail(turns, 3) && outcome.Some? ==> outcome.value.Err?
        invariant outcome.None? ==> 1 <= attempt <= MAX_COMMIT_ATTEMPTS &&
                                    trace[|trace| - 1].1 == Call(batch, Check(attempt), 0)
        invariant outcome.Some? ==> trace[|trace| - 1].1.phase == Outcome(outcome.value)
        decreases MAX_COMMIT_ATTEMPTS + 1 - attempt, outcome.None?
      {
        outcome, trace := Attempt(quiet, batch, attempt, turns[attempt - 1], trace);
        if outcome.None? { attempt := attempt + 1; }
      }
      return outcome.value, trace;
    }
  }
}
