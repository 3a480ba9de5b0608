/** The retention policy, and the plan of date-windowed deletion batches for a table. */
module RetentionPlan {
  import opened Wrappers
  import opened Sequences
  import opened Ordering
  import opened DeltaRows

  /** Times are microseconds since the epoch, in UTC. */
  const DAY: int := 86_400_000_000
  const MAX_HOT_RETENTION_DAYS: int := 366
  const MAX_COLD_RETENTION_YEARS: int := 25

  datatype RetentionError =
    | NoOperator
    | BadHotDays
    | BadColdYears
    | ColdNotBeyondHot
    | NotATimestamp
    | LaterThanReference
    | StorageFailed
    | OutOfPolicy(key: string)
    | KeysMissing
    | AppendOnlyTable
    | RestoreFailed
    | AuditConflict
    | ArchiveFailed(error: AppendError)
    | CountMismatch
    | ExpiredRemain

  datatype Policy = Policy(hotDays: int, coldYears: int) {
    predicate Valid() {
      && 1 <= hotDays <= MAX_HOT_RETENTION_DAYS && 1 <= coldYears <= MAX_COLD_RETENTION_YEARS
      && hotDays < coldYears * 365
    }
  }

  /** `RetentionPolicy.__post_init__` */
  function MakePolicy(hotDays: int, coldYears: int): (r: Result<Policy, RetentionError>)
    ensures r.Ok? <==> Policy(hotDays, coldYears).Valid()
    ensures r.Ok? ==> r.value == Policy(hotDays, coldYears)
    ensures r.Ok? <==> 1 <= hotDays <= 366 && 1 <= coldYears <= 25 && hotDays < coldYears * 365
  {
    if !(1 <= hotDays <= MAX_HOT_RETENTION_DAYS) then Err(BadHotDays)
    else if !(1 <= coldYears <= MAX_COLD_RETENTION_YEARS) then Err(BadColdYears)
    else if coldYears * 365 <= hotDays then Err(ColdNotBeyondHot)
    else Ok(Policy(hotDays, coldYears))
  }

  datatype Tier = Hot | Cold | Expired

  /** `tier_for` */
  function TierFor(p: Policy, occurredAt: int, reference: int): Result<Tier, RetentionError> {
    if occurredAt > reference then Err(LaterThanReference)
    else
      var age := reference - occurredAt;
      if age <= p.hotDays * DAY then Ok(Hot)
      else if age <= p.coldYears * 365 * DAY then Ok(Cold)
      else Ok(Expired)
  }

  /** The tiers by age: hot days and cold years of 365 days, in microseconds, each horizon included. */
  lemma TierIff(p: Policy, occurredAt: int, reference: int)
    requires p.Valid()
    ensures var age, tier := reference - occurredAt, TierFor(p, occurredAt, reference);
      && (tier == Err(LaterThanReference) <==> age < 0)
      && (tier == Ok(Hot) <==> 0 <= age <= p.hotDays * 86_400_000_000)
      && (tier == Ok(Cold) <==> p.hotDays * 86_400_000_000 < age <= p.coldYears * 365 * 86_400_000_000)
      && (tier == Ok(Expired) <==> p.coldYears * 365 * 86_400_000_000 < age)
  {
    assert 0 < p.hotDays * DAY < p.coldYears * 365 * DAY;
  }

  /** A row only moves from hot to cold to expired as the reference time goes on, and passes through each. */
  lemma TierOnlyAges(p: Policy, occurredAt: int, reference: int, later: int)
    requires p.Valid() && occurredAt <= reference <= later
    ensures TierFor(p, occurredAt, reference).Ok? && TierFor(p, occurredAt, later).Ok?
    ensures TierFor(p, occurredAt, reference) == Ok(Cold) ==> TierFor(p, occurredAt, later) != Ok(Hot)
    ensures TierFor(p, occurredAt, reference) == Ok(Expired) ==> TierFor(p, occurredAt, later) == Ok(Expired)
    ensures TierFor(p, occurredAt, occurredAt) == Ok(Hot)
    ensures TierFor(p, occurredAt, occurredAt + p.coldYears * 365 * DAY) == Ok(Cold)
    ensures TierFor(p, occurredAt, occurredAt + p.coldYears * 365 * DAY + 1) == Ok(Expired)
  {
    assert p.hotDays * DAY < p.coldYears * 365 * DAY;
  }

  /** A stored row as retention reads it: its key, its time column when that is a timestamp. */
  datatype Held = Held(row: Row, occurredAt: Option<int>)

  /** A policy applied at a reference time. */
  datatype Rule = Rule(policy: Policy, reference: int) {
    function Tier(h: Held): Result<Tier, RetentionError> {
      if h.occurredAt.None? then Err(NotATimestamp) else TierFor(policy, h.occurredAt.value, reference)
    }

    predicate Is(h: Held, tier: Tier) { Tier(h) == Ok(tier) }
  }

  /** The UTC date of a time, as days since the epoch. */
  function Date(time: int): int { time / DAY }

  // ---- the rows of a tier and of a day ----

  function TierRows(rule: Rule, rows: seq<Held>, tier: Tier): (r: seq<Held>)
    ensures forall h :: h in r <==> h in rows && rule.Is(h, tier)
  {
    if rows == [] then []
    else
      var front, last := rows[..|rows| - 1], rows[|rows| - 1];
      assert rows == front + [last];
      if rule.Is(last, tier) then TierRows(rule, front, tier) + [last] else TierRows(rule, front, tier)
  }

  function KeysOf(rows: seq<Held>): (r: seq<string>)
    ensures |r| == |rows| && forall i :: 0 <= i < |rows| ==> r[i] == rows[i].row.key
  {
    seq(|rows|, i requires 0 <= i < |rows| => rows[i].row.key)
  }

  predicate OnDay(h: Held, day: int) { h.occurredAt.Some? && Date(h.occurredAt.value) == day }

  function DayRows(rows: seq<Held>, day: int): (r: seq<Held>)
    ensures forall h :: h in r <==> h in rows && OnDay(h, day)
  {
    if rows == [] then []
    else
      var front, last := rows[..|rows| - 1], rows[|rows| - 1];
      assert rows == front + [last];
      if OnDay(last, day) then DayRows(front, day) + [last] else DayRows(front, day)
  }

  predicate Timed(rule: Rule, rows: seq<Held>) { forall h :: h in rows ==> rule.Tier(h).Ok? }

  datatype Batch = Batch(window: int, keys: seq<string>)

  datatype Plan = Plan(
    total: nat, hot: nat, cold: nat, expired: nat, batches: seq<Batch>, coldKeys: seq<string>)

  ghost predicate SortedKeys(keys: seq<string>, rows: seq<Held>) {
    Sorted(TextLe, keys) && multiset(keys) == multiset(KeysOf(rows))
  }

  /** Date windows in order, each with the sorted keys of the expired rows of its day; no day left out. */
  ghost predicate IsWindowed(expired: seq<Held>, batches: seq<Batch>) {
    && (forall i, j :: 0 <= i < j < |batches| ==> batches[i].window < batches[j].window)
    && (forall i :: 0 <= i < |batches| ==>
          batches[i].keys != [] && SortedKeys(batches[i].keys, DayRows(expired, batches[i].window)))
    && (forall h :: h in expired ==> exists i :: 0 <= i < |batches| && OnDay(h, batches[i].window))
  }

  ghost predicate IsPlan(rule: Rule, rows: seq<Held>, plan: Plan) {
    && Timed(rule, rows) && plan.total == |rows|
    && plan.hot == |TierRows(rule, rows, Hot)| && plan.cold == |TierRows(rule, rows, Cold)|
    && plan.expired == |TierRows(rule, rows, Expired)|
    && SortedKeys(plan.coldKeys, TierRows(rule, rows, Cold))
    && IsWindowed(TierRows(rule, rows, Expired), plan.batches)
  }

  // ---- planning ----

  /** The rows of each tier. */
  ghost predicate IsClassified(rule: Rule, rows: seq<Held>, hot: seq<Held>, cold: seq<Held>, expired: seq<Held>) {
    && Timed(rule, rows) && hot == TierRows(rule, rows, Hot) && cold == TierRows(rule, rows, Cold)
    && expired == TierRows(rule, rows, Expired)
  }

  lemma ClassifyNext(rule: Rule, rows: seq<Held>, h: Held, hot: seq<Held>, cold: seq<Held>, expired: seq<Held>)
    requires IsClassified(rule, rows, hot, cold, expired)
    ensures rule.Tier(h) == Ok(Hot) ==> IsClassified(rule, rows + [h], hot + [h], cold, expired)
    ensures rule.Tier(h) == Ok(Cold) ==> IsClassified(rule, rows + [h], hot, cold + [h], expired)
    ensures rule.Tier(h) == Ok(Expired) ==> IsClassified(rule, rows + [h], hot, cold, expired + [h])
  {
    assert (rows + [h])[..|rows|] == rows;
  }

  /** One pass over the table: its rows by tier, or the error of the first row that has none. */
  method Classify(rule: Rule, rows: seq<Held>)
    returns (r: Result<(seq<Held>, seq<Held>, seq<Held>), RetentionError>)
    ensures r.Ok? <==> Timed(rule, rows)
    ensures r.Ok? ==> r.value == (TierRows(rule, rows, Hot), TierRows(rule, rows, Cold), TierRows(rule, rows, Expired))
    ensures r.Err? ==> exists i :: 0 <= i < |rows| && rule.Tier(rows[i]) == Err(r.error) && Timed(rule, rows[..i])
  {
    var hot: seq<Held>, cold: seq<Held>, expired: seq<Held> := [], [], [];
    for i := 0 to |rows|
      invariant IsClassified(rule, rows[..i], hot, cold, expired)
    {
      var tier := rule.Tier(rows[i]);
      ClassifyNext(rule, rows[..i], rows[i], hot, cold, expired);
      assert rows[..i + 1] == rows[..i] + [rows[i]];
      match tier
      case Err(error) => return Err(error);
      case Ok(Hot) => hot := hot + [rows[i]];
      case Ok(Cold) => cold := cold + [rows[i]];
      case Ok(Expired) => expired := expired + [rows[i]];
    }
    assert rows[..|rows|] == rows;
    return Ok((hot, cold, expired));
  }

  /** The days are those of the windows, none of which is empty. */
  ghost predicate Listed(windows: map<int, seq<string>>, days: seq<int>) {
    && Distinct(days) && (forall day :: day in days <==> day in windows)
    && (forall day :: day in windows ==> windows[day] != [])
  }

  /** The windows hold the keys of the rows of their days. */
  ghost predicate Filled(windows: map<int, seq<string>>, rows: seq<Held>) {
    forall day :: WindowOf(windows, day) == KeysOf(DayRows(rows, day))
  }

  ghost predicate Windowed(windows: map<int, seq<string>>, days: seq<int>, rows: seq<Held>) {
    Listed(windows, days) && Filled(windows, rows)
  }

  function WindowOf(windows: map<int, seq<string>>, day: int): seq<string> {
    if day in windows then windows[day] else []
  }

  lemma DayKeysNext(rows: seq<Held>, h: Held, day: int)
    ensures KeysOf(DayRows(rows + [h], day)) ==
            KeysOf(DayRows(rows, day)) + (if OnDay(h, day) then [h.row.key] else [])
  {
    assert (rows + [h])[..|rows|] == rows;
    assert DayRows(rows + [h], day) == DayRows(rows, day) + (if OnDay(h, day) then [h] else []);
  }

  lemma FilledNext(windows: map<int, seq<string>>, rows: seq<Held>, h: Held)
    requires Filled(windows, rows) && h.occurredAt.Some?
    ensures var day := Date(h.occurredAt.value);
      Filled(windows[day := WindowOf(windows, day) + [h.row.key]], rows + [h])
  {
    var day := Date(h.occurredAt.value);
    var windows' := windows[day := WindowOf(windows, day) + [h.row.key]];
    forall d ensures WindowOf(windows', d) == KeysOf(DayRows(rows + [h], d)) {
      assert WindowOf(windows, d) == KeysOf(DayRows(rows, d));
      DayKeysNext(rows, h, d);
    }
  }

  lemma ListedNext(windows: map<int, seq<string>>, days: seq<int>, day: int, keys: seq<string>)
    requires Listed(windows, days) && keys != []
    ensures Listed(windows[day := keys], if day in windows then days else days + [day])
  {
  }

  method AddToWindow(windows: map<int, seq<string>>, days: seq<int>, h: Held, ghost rows: seq<Held>)
    returns (windows': map<int, seq<string>>, days': seq<int>)
    requires Windowed(windows, days, rows) && h.occurredAt.Some?
    ensures Windowed(windows', days', rows + [h])
  {
    var day := Date(h.occurredAt.value);
    FilledNext(windows, rows, h);
    ListedNext(windows, days, day, WindowOf(windows, day) + [h.row.key]);
    days' := if day in windows then days else days + [day];
    windows' := windows[day := WindowOf(windows, day) + [h.row.key]];
  }

  /** The expired rows' keys by the day they occurred, and the days as first met. */
  method GroupByDay(rows: seq<Held>) returns (windows: map<int, seq<string>>, days: seq<int>)
    requires forall h :: h in rows ==> h.occurredAt.Some?
    ensures Windowed(windows, days, rows)
  {
    windows, days := map[], [];
    for i := 0 to |rows|
      invariant Windowed(windows, days, rows[..i])
    {
      assert rows[i] in rows;
      assert rows[..i + 1] == rows[..i] + [rows[i]];
      windows, days := AddToWindow(windows, days, rows[i], rows[..i]);
    }
    assert rows[..|rows|] == rows;
  }

  predicate IntLe(a: int, b: int) { a <= b }

  lemma SortedDays(days: seq<int>)
    requires Distinct(days)
    ensures var r := Sort(IntLe, days);
      (forall i, j :: 0 <= i < j < |r| ==> r[i] < r[j]) && forall day :: day in r <==> day in days
  {
    SortSorted(IntLe, days);
    SameElements(Sort(IntLe, days), days);
    DistinctPermutation(days, Sort(IntLe, days));
  }

  ghost predicate IsBatchOf(b: Batch, day: int, expired: seq<Held>) {
    b.window == day && b.keys != [] && SortedKeys(b.keys, DayRows(expired, day))
  }

  ghost predicate AreBatchesOf(batches: seq<Batch>, days: seq<int>, expired: seq<Held>) {
    Related((b: Batch, day: int) => IsBatchOf(b, day, expired), batches, days)
  }

  lemma OneMoreBatch(batches: seq<Batch>, days: seq<int>, b: Batch, day: int, expired: seq<Held>)
    requires AreBatchesOf(batches, days, expired) && IsBatchOf(b, day, expired)
    ensures AreBatchesOf(batches + [b], days + [day], expired)
  {
    RelatedOneMore((b: Batch, day: int) => IsBatchOf(b, day, expired), batches, days, b, day);
  }

  method BatchOf(windows: map<int, seq<string>>, day: int, ghost found: seq<int>, ghost expired: seq<Held>)
    returns (b: Batch)
    requires Windowed(windows, found, expired) && day in windows
    ensures IsBatchOf(b, day, expired)
  {
    TextOrder();
    SortSorted(TextLe, windows[day]);
    assert WindowOf(windows, day) == KeysOf(DayRows(expired, day));
    b := Batch(day, Sort(TextLe, windows[day]));
  }

  lemma DaysListed(windows: map<int, seq<string>>, found: seq<int>, days: seq<int>, expired: seq<Held>)
    requires Windowed(windows, found, expired) && forall day :: day in days <==> day in found
    ensures forall day :: day in days ==> day in windows
    ensures forall day :: DayRows(expired, day) != [] ==> day in days
  {
    forall day | DayRows(expired, day) != [] ensures day in days {
      assert WindowOf(windows, day) == KeysOf(DayRows(expired, day));
    }
  }

  method SortedBatches(expired: seq<Held>) returns (batches: seq<Batch>)
    requires forall h :: h in expired ==> h.occurredAt.Some?
    ensures IsWindowed(expired, batches)
  {
    var windows, found := GroupByDay(expired);
    var days := Sort(IntLe, found);
    SortedDays(found);
    DaysListed(windows, found, days, expired);
    batches := BatchesOfDays(windows, days, found, expired);
    InDayOrder(expired, days, batches);
  }

  method BatchesOfDays(windows: map<int, seq<string>>, days: seq<int>, ghost found: seq<int>, ghost expired: seq<Held>)
    returns (batches: seq<Batch>)
    requires Windowed(windows, found, expired) && forall day :: day in days ==> day in windows
    ensures AreBatchesOf(batches, days, expired)
  {
    batches := [];
    for i := 0 to |days|
      invariant AreBatchesOf(batches, days[..i], expired)
    {
      assert days[i] in days;
      var b := BatchOf(windows, days[i], found, expired);
      OneMoreBatch(batches, days[..i], b, days[i], expired);
      assert days[..i + 1] == days[..i] + [days[i]];
      batches := batches + [b];
    }
    assert days[..|days|] == days;
  }

  lemma InDayOrder(expired: seq<Held>, days: seq<int>, batches: seq<Batch>)
    requires forall h :: h in expired ==> h.occurredAt.Some?
    requires AreBatchesOf(batches, days, expired)
    requires forall i, j :: 0 <= i < j < |days| ==> days[i] < days[j]
    requires forall day :: DayRows(expired, day) != [] ==> day in days
    ensures IsWindowed(expired, batches)
  {
    DaysCover(expired, days, batches);
  }

  lemma DaysCover(expired: seq<Held>, days: seq<int>, batches: seq<Batch>)
    requires forall h :: h in expired ==> h.occurredAt.Some?
    requires |batches| == |days| && forall i :: 0 <= i < |days| ==> batches[i].window == days[i]
    requires forall day :: DayRows(expired, day) != [] ==> day in days
    ensures forall h :: h in expired ==> exists i :: 0 <= i < |batches| && OnDay(h, batches[i].window)
  {
    forall h | h in expired ensures exists i :: 0 <= i < |batches| && OnDay(h, batches[i].window) {
      var day := Date(h.occurredAt.value);
      assert h in DayRows(expired, day);
      var i :| 0 <= i < |days| && days[i] == day;
      assert OnDay(h, batches[i].window);
    }
  }

  // ---- a plan in terms of ages ----

  predicate AgeWithin(h: Held, reference: int, above: int, upTo: int) {
    h.occurredAt.Some? && above < reference - h.occurredAt.value <= upTo
  }

  predicate OlderThan(h: Held, reference: int, age: int) {
    h.occurredAt.Some? && age < reference - h.occurredAt.value
  }

  /** The keys of the rows, repeated ones included, in text order. */
  ghost predicate HoldsKeys(keys: seq<string>, rows: seq<Held>) {
    && multiset(keys) == multiset(Map((h: Held) => h.row.key, rows))
    && forall i, j :: 0 <= i < j < |keys| ==> TextPrecedes(keys[i], keys[j])
  }

  /** The windows are the UTC days on which expired rows occurred, in order, each with their keys. */
  ghost predicate AreWindows(batches: seq<Batch>, rows: seq<Held>, reference: int, horizon: int) {
    && (forall i, j :: 0 <= i < j < |batches| ==> batches[i].window < batches[j].window)
    && (forall i :: 0 <= i < |batches| ==> IsWindow(batches[i], rows, reference, horizon))
    && (forall h :: h in rows && OlderThan(h, reference, horizon) ==>
          exists i :: 0 <= i < |batches| && batches[i].window == h.occurredAt.value / 86_400_000_000)
  }

  ghost predicate IsWindow(b: Batch, rows: seq<Held>, reference: int, horizon: int) {
    b.keys != [] && HoldsKeys(b.keys, Filter((h: Held) =>
      OlderThan(h, reference, horizon) && h.occurredAt.value / 86_400_000_000 == b.window, rows))
  }

  /** The horizons in microseconds. */
  ghost predicate IsPlanByAges(p: Policy, reference: int, rows: seq<Held>, plan: Plan) {
    var hot, cold := p.hotDays * 86_400_000_000, p.coldYears * 365 * 86_400_000_000;
    && (forall h :: h in rows ==> h.occurredAt.Some? && h.occurredAt.value <= reference)
    && plan.total == |rows|
    && plan.hot == |Filter((h: Held) => AgeWithin(h, reference, -1, hot), rows)|
    && plan.cold == |Filter((h: Held) => AgeWithin(h, reference, hot, cold), rows)|
    && plan.expired == |Filter((h: Held) => OlderThan(h, reference, cold), rows)|
    && HoldsKeys(plan.coldKeys, Filter((h: Held) => AgeWithin(h, reference, hot, cold), rows))
    && AreWindows(plan.batches, rows, reference, cold)
  }

  lemma {:induction false} TierRowsAre(rule: Rule, rows: seq<Held>, tier: Tier, keep: Held -> bool)
    requires forall h :: keep(h) <==> rule.Is(h, tier)
    ensures TierRows(rule, rows, tier) == Filter(keep, rows)
  {
    if rows != [] {
      var front, last := rows[..|rows| - 1], rows[|rows| - 1];
      TierRowsAre(rule, front, tier, keep);
      FilterAppend(keep, front, [last]);
      assert rows == front + [last] && [last][1..] == [];
    }
  }

  lemma {:induction false} DayRowsAre(rows: seq<Held>, day: int, keep: Held -> bool)
    requires forall h :: keep(h) <==> OnDay(h, day)
    ensures DayRows(rows, day) == Filter(keep, rows)
  {
    if rows != [] {
      var front, last := rows[..|rows| - 1], rows[|rows| - 1];
      DayRowsAre(front, day, keep);
      FilterAppend(keep, front, [last]);
      assert rows == front + [last] && [last][1..] == [];
    }
  }

  lemma KeysHeld(keys: seq<string>, rows: seq<Held>)
    requires SortedKeys(keys, rows)
    ensures HoldsKeys(keys, rows)
  {
    assert KeysOf(rows) == Map((h: Held) => h.row.key, rows);
    forall i, j | 0 <= i < j < |keys| ensures TextPrecedes(keys[i], keys[j]) {
      TextLeByPositions(keys[i], keys[j]);
    }
  }

  lemma TiersByAges(rule: Rule, rows: seq<Held>)
    requires rule.policy.Valid()
    ensures var hot, cold := rule.policy.hotDays * 86_400_000_000, rule.policy.coldYears * 365 * 86_400_000_000;
      && TierRows(rule, rows, Hot) == Filter((h: Held) => AgeWithin(h, rule.reference, -1, hot), rows)
      && TierRows(rule, rows, Cold) == Filter((h: Held) => AgeWithin(h, rule.reference, hot, cold), rows)
      && TierRows(rule, rows, Expired) == Filter((h: Held) => OlderThan(h, rule.reference, cold), rows)
  {
    var hot, cold := rule.policy.hotDays * 86_400_000_000, rule.policy.coldYears * 365 * 86_400_000_000;
    forall h: Held
      ensures AgeWithin(h, rule.reference, -1, hot) <==> rule.Is(h, Hot)
      ensures AgeWithin(h, rule.reference, hot, cold) <==> rule.Is(h, Cold)
      ensures OlderThan(h, rule.reference, cold) <==> rule.Is(h, Expired)
    {
      if h.occurredAt.Some? { TierIff(rule.policy, h.occurredAt.value, rule.reference); }
    }
    TierRowsAre(rule, rows, Hot, (h: Held) => AgeWithin(h, rule.reference, -1, hot));
    TierRowsAre(rule, rows, Cold, (h: Held) => AgeWithin(h, rule.reference, hot, cold));
    TierRowsAre(rule, rows, Expired, (h: Held) => OlderThan(h, rule.reference, cold));
  }

  lemma WindowsByAges(rows: seq<Held>, reference: int, horizon: int, batches: seq<Batch>)
    requires IsWindowed(Filter((h: Held) => OlderThan(h, reference, horizon), rows), batches)
    ensures AreWindows(batches, rows, reference, horizon)
  {
    var expired := Filter((h: Held) => OlderThan(h, reference, horizon), rows);
    forall i | 0 <= i < |batches| ensures IsWindow(batches[i], rows, reference, horizon) {
      var b := batches[i];
      DayRowsAre(expired, b.window, (h: Held) => OnDay(h, b.window));
      FilterTwice((h: Held) => OlderThan(h, reference, horizon), (h: Held) => OnDay(h, b.window), (h: Held) =>
        OlderThan(h, reference, horizon) && h.occurredAt.value / 86_400_000_000 == b.window, rows);
      KeysHeld(b.keys, DayRows(expired, b.window));
    }
    forall h | h in rows && OlderThan(h, reference, horizon)
      ensures exists i :: 0 <= i < |batches| && batches[i].window == h.occurredAt.value / 86_400_000_000
    {
      assert h in expired;
      var i :| 0 <= i < |batches| && OnDay(h, batches[i].window);
      assert batches[i].window == h.occurredAt.value / 86_400_000_000;
    }
  }

  lemma PlanByAges(rule: Rule, rows: seq<Held>, plan: Plan)
    requires rule.policy.Valid() && IsPlan(rule, rows, plan)
    ensures IsPlanByAges(rule.policy, rule.reference, rows, plan)
  {
    TiersByAges(rule, rows);
    KeysHeld(plan.coldKeys, TierRows(rule, rows, Cold));
    WindowsByAges(rows, rule.reference, rule.policy.coldYears * 365 * 86_400_000_000, plan.batches);
    forall h | h in rows ensures h.occurredAt.Some? && h.occurredAt.value <= rule.reference {
      if h.occurredAt.Some? { TierIff(rule.policy, h.occurredAt.value, rule.reference); }
    }
  }

  lemma TimedByAges(rule: Rule, rows: seq<Held>)
    ensures Timed(rule, rows) <==> forall h :: h in rows ==> h.occurredAt.Some? && h.occurredAt.value <= rule.reference
  {
  }

  /** `plan_retention`: a plan exactly when every row has a time up to the reference. */
  method PlanRetention(rule: Rule, rows: seq<Held>) returns (r: Result<Plan, RetentionError>)
    ensures r.Ok? <==> Timed(rule, rows)
    ensures r.Ok? ==> IsPlan(rule, rows, r.value)
    ensures r.Ok? <==> forall h :: h in rows ==> h.occurredAt.Some? && h.occurredAt.value <= rule.reference
    ensures r.Ok? && rule.policy.Valid() ==> IsPlanByAges(rule.policy, rule.reference, rows, r.value)
    ensures r.Err? ==> exists i :: 0 <= i < |rows| && rule.Tier(rows[i]) == Err(r.error) && Timed(rule, rows[..i])
  {
    TimedByAges(rule, rows);
    var tiers := Classify(rule, rows);
    if tiers.Err? { return Err(tiers.error); }
    var (hot, cold, expired) := tiers.value;
    var batches := SortedBatches(expired);
    TextOrder();
    SortSorted(TextLe, KeysOf(cold));
    var plan := Plan(|rows|, |hot|, |cold|, |expired|, batches, Sort(TextLe, KeysOf(cold)));
    if rule.policy.Valid() { PlanByAges(rule, rows, plan); }
    return Ok(plan);
  }

  // ---- what a plan is ----

  function Planned(batches: seq<Batch>): seq<int> { Map((b: Batch) => |b.keys|, batches) }

  /** The planned keys of all windows. */
  function AllKeys(batches: seq<Batch>): set<string> {
    if batches == [] then {} else AllKeys(batches[..|batches| - 1]) + KeySet(batches[|batches| - 1].keys)
  }

  function KeySet(keys: seq<string>): set<string> { set k | k in keys }

  lemma {:induction false} AllKeysAt(batches: seq<Batch>, key: string)
    ensures key in AllKeys(batches) <==> exists i :: 0 <= i < |batches| && key in batches[i].keys
  {
    if batches != [] {
      var front, last := batches[..|batches| - 1], batches[|batches| - 1];
      AllKeysAt(front, key);
      assert batches == front + [last];
    }
  }

  lemma KeyInSorted(keys: seq<string>, rows: seq<Held>, key: string)
    requires SortedKeys(keys, rows)
    ensures key in keys <==> exists h :: h in rows && h.row.key == key
  {
    SameElements(keys, KeysOf(rows));
    if key in keys {
      assert key in KeysOf(rows);
      var i :| 0 <= i < |rows| && KeysOf(rows)[i] == key;
      assert rows[i] in rows;
    }
    if h :| h in rows && h.row.key == key {
      var i :| 0 <= i < |rows| && rows[i] == h;
      assert KeysOf(rows)[i] == key;
      assert key in KeysOf(rows);
    }
  }

  // ---- the windows cover every expired row once ----

  function DaySizes(rows: seq<Held>, days: seq<int>): (r: seq<int>)
    ensures |r| == |days| && forall i :: 0 <= i < |r| ==> r[i] == |DayRows(rows, days[i])|
  {
    seq(|days|, i requires 0 <= i < |days| => |DayRows(rows, days[i])|)
  }

  lemma {:induction false} SumOneMore(a: seq<int>, b: seq<int>, k: nat)
    requires |a| == |b| && k < |a| && b[k] == a[k] + 1
    requires forall i :: 0 <= i < |a| && i != k ==> a[i] == b[i]
    ensures Sum(b) == Sum(a) + 1
  {
    if k == 0 {
      assert a[1..] == b[1..];
    } else {
      SumOneMore(a[1..], b[1..], k - 1);
    }
  }

  lemma {:induction false} SumZero(a: seq<int>)
    requires forall i :: 0 <= i < |a| ==> a[i] == 0
    ensures Sum(a) == 0
  {
    if a != [] { SumZero(a[1..]); }
  }

  lemma DaySizesOneMore(front: seq<Held>, last: Held, days: seq<int>, k: nat)
    requires k < |days| && OnDay(last, days[k])
    requires forall i, j :: 0 <= i < j < |days| ==> days[i] < days[j]
    ensures Sum(DaySizes(front + [last], days)) == Sum(DaySizes(front, days)) + 1
  {
    var rows := front + [last];
    assert rows[..|front|] == front;
    forall i | 0 <= i < |days|
      ensures |DayRows(rows, days[i])| == |DayRows(front, days[i])| + (if i == k then 1 else 0)
    {
      assert i < k ==> days[i] < days[k];
      assert i > k ==> days[k] < days[i];
    }
    SumOneMore(DaySizes(front, days), DaySizes(rows, days), k);
  }

  lemma {:induction false} DaysPartition(rows: seq<Held>, days: seq<int>)
    requires forall i, j :: 0 <= i < j < |days| ==> days[i] < days[j]
    requires forall h :: h in rows ==> exists i :: 0 <= i < |days| && OnDay(h, days[i])
    ensures Sum(DaySizes(rows, days)) == |rows|
  {
    if rows == [] {
      SumZero(DaySizes(rows, days));
    } else {
      var front, last := rows[..|rows| - 1], rows[|rows| - 1];
      assert rows == front + [last] && last in rows;
      assert forall h :: h in front ==> h in rows;
      DaysPartition(front, days);
      var k :| 0 <= k < |days| && OnDay(last, days[k]);
      DaySizesOneMore(front, last, days, k);
    }
  }

  function Windows(batches: seq<Batch>): seq<int> { Map((b: Batch) => b.window, batches) }

  /** The planned deletions add up to the expired rows, repeated keys included. */
  lemma PlannedAddsUp(expired: seq<Held>, batches: seq<Batch>)
    requires IsWindowed(expired, batches)
    ensures Sum(Planned(batches)) == |expired|
  {
    var days := Windows(batches);
    forall h | h in expired ensures exists i :: 0 <= i < |days| && OnDay(h, days[i]) {
      var i :| 0 <= i < |batches| && OnDay(h, batches[i].window);
      assert OnDay(h, days[i]);
    }
    DaysPartition(expired, days);
    forall i | 0 <= i < |batches| ensures Planned(batches)[i] == DaySizes(expired, days)[i] {
      SameElements(batches[i].keys, KeysOf(DayRows(expired, days[i])));
    }
    assert Planned(batches) == DaySizes(expired, days);
  }

  // ---- a plan is unique, and the order of the rows is immaterial ----

  lemma {:induction false} TierCounts(rule: Rule, rows: seq<Held>, tier: Tier, h: Held)
    ensures multiset(TierRows(rule, rows, tier))[h] == if rule.Is(h, tier) then multiset(rows)[h] else 0
  {
    if rows != [] {
      var front, last := rows[..|rows| - 1], rows[|rows| - 1];
      TierCounts(rule, front, tier, h);
      assert multiset(rows) == multiset(front) + multiset{last} by { assert rows == front + [last]; }
    }
  }

  lemma {:induction false} DayCounts(rows: seq<Held>, day: int, h: Held)
    ensures multiset(DayRows(rows, day))[h] == if OnDay(h, day) then multiset(rows)[h] else 0
  {
    if rows != [] {
      var front, last := rows[..|rows| - 1], rows[|rows| - 1];
      DayCounts(front, day, h);
      assert multiset(rows) == multiset(front) + multiset{last} by { assert rows == front + [last]; }
    }
  }

  lemma PermutedTier(rule: Rule, a: seq<Held>, b: seq<Held>, tier: Tier)
    requires multiset(a) == multiset(b)
    ensures multiset(TierRows(rule, a, tier)) == multiset(TierRows(rule, b, tier))
  {
    forall h ensures multiset(TierRows(rule, a, tier))[h] == multiset(TierRows(rule, b, tier))[h] {
      TierCounts(rule, a, tier, h);
      TierCounts(rule, b, tier, h);
    }
  }

  lemma PermutedDay(a: seq<Held>, b: seq<Held>, day: int)
    requires multiset(a) == multiset(b)
    ensures multiset(DayRows(a, day)) == multiset(DayRows(b, day))
  {
    forall h ensures multiset(DayRows(a, day))[h] == multiset(DayRows(b, day))[h] {
      DayCounts(a, day, h);
      DayCounts(b, day, h);
    }
  }

  lemma PermutedKeys(a: seq<Held>, b: seq<Held>)
    requires multiset(a) == multiset(b)
    ensures multiset(KeysOf(a)) == multiset(KeysOf(b))
  {
    var key := (h: Held) => h.row.key;
    assert KeysOf(a) == Map(key, a) && KeysOf(b) == Map(key, b);
    MapPermutation(key, a, b);
  }

  lemma SortedKeysUnique(k: seq<string>, l: seq<string>, a: seq<Held>, b: seq<Held>)
    requires SortedKeys(k, a) && SortedKeys(l, b) && multiset(a) == multiset(b)
    ensures k == l
  {
    PermutedKeys(a, b);
    TextOrder();
    SortedUnique(TextLe, k, l);
  }

  ghost predicate Ascending(s: seq<int>) { forall i, j :: 0 <= i < j < |s| ==> s[i] < s[j] }

  lemma InTail(s: seq<int>, x: int)
    requires s != [] && Ascending(s)
    ensures x in s[1..] <==> x in s && x != s[0]
  {
  }

  lemma {:induction false} AscendingSameElements(a: seq<int>, b: seq<int>)
    requires Ascending(a) && Ascending(b) && forall x :: x in a <==> x in b
    ensures a == b
  {
    assert b != [] ==> b[0] in b && b[0] in a;
    if a != [] {
      assert a[0] in a && a[0] in b;
      forall x ensures x in a[1..] <==> x in b[1..] {
        InTail(a, x);
        InTail(b, x);
      }
      AscendingSameElements(a[1..], b[1..]);
      assert a == [a[0]] + a[1..] && b == [b[0]] + b[1..];
    }
  }

  /** The windows of a plan are the days on which some row expired. */
  lemma WindowsAreDays(expired: seq<Held>, batches: seq<Batch>, day: int)
    requires IsWindowed(expired, batches)
    ensures day in Windows(batches) <==> exists h :: h in expired && OnDay(h, day)
  {
    var days := Windows(batches);
    if day in days {
      var i :| 0 <= i < |days| && days[i] == day;
      var key := batches[i].keys[0];
      assert key in batches[i].keys;
      KeyInSorted(batches[i].keys, DayRows(expired, day), key);
    }
    if h :| h in expired && OnDay(h, day) {
      var i :| 0 <= i < |batches| && OnDay(h, batches[i].window);
      assert days[i] == day;
    }
  }

  lemma SameWindows(a: seq<Held>, b: seq<Held>, p: seq<Batch>, q: seq<Batch>)
    requires multiset(a) == multiset(b) && IsWindowed(a, p) && IsWindowed(b, q)
    ensures p == q
  {
    SameElements(a, b);
    forall day ensures day in Windows(p) <==> day in Windows(q) {
      WindowsAreDays(a, p, day);
      WindowsAreDays(b, q, day);
    }
    AscendingSameElements(Windows(p), Windows(q));
    forall i | 0 <= i < |p| ensures p[i] == q[i] {
      assert Windows(p)[i] == Windows(q)[i];
      PermutedDay(a, b, p[i].window);
      SortedKeysUnique(p[i].keys, q[i].keys, DayRows(a, p[i].window), DayRows(b, p[i].window));
    }
  }

  /** A table has one plan, whatever order its rows are read in. */
  lemma PlanIgnoresRowOrder(rule: Rule, a: seq<Held>, b: seq<Held>, p: Plan, q: Plan)
    requires multiset(a) == multiset(b) && IsPlan(rule, a, p) && IsPlan(rule, b, q)
    ensures p == q
  {
    SameElements(a, b);
    PermutedTier(rule, a, b, Hot);
    PermutedTier(rule, a, b, Cold);
    PermutedTier(rule, a, b, Expired);
    SameElements(TierRows(rule, a, Hot), TierRows(rule, b, Hot));
    SameElements(TierRows(rule, a, Cold), TierRows(rule, b, Cold));
    SameElements(TierRows(rule, a, Expired), TierRows(rule, b, Expired));
    SortedKeysUnique(p.coldKeys, q.coldKeys, TierRows(rule, a, Cold), TierRows(rule, b, Cold));
    SameWindows(TierRows(rule, a, Expired), TierRows(rule, b, Expired), p.batches, q.batches);
  }

  /** Every row is in one tier. */
  lemma {:induction false} TiersPartition(rule: Rule, rows: seq<Held>)
    requires Timed(rule, rows)
    ensures |TierRows(rule, rows, Hot)| + |TierRows(rule, rows, Cold)| + |TierRows(rule, rows, Expired)| == |rows|
  {
    if rows != [] {
      var front, last := rows[..|rows| - 1], rows[|rows| - 1];
      assert rows == front + [last] && last in rows;
      assert forall h :: h in front ==> h in rows;
      TiersPartition(rule, front);
    }
  }
}
