/** Statistics periods: calendar months in UTC. */
module Periods {
  import opened Wrappers

  /** Times are microseconds since the start of year 1, the first instant a `datetime` can hold. */
  const DAY: int := 86_400_000_000
  const LAST_YEAR: int := 9999

  /** December 9999, counting months from January of year 1. */
  const LAST_MONTH: nat := 119_987

  predicate Leap(y: int) { y % 4 == 0 && (y % 100 != 0 || y % 400 == 0) }

  function DaysBeforeYear(y: int): int { (y - 1) * 365 + (y - 1) / 4 - (y - 1) / 100 + (y - 1) / 400 }

  function DaysInMonth(y: int, m: int): int {
    if m == 2 then (if Leap(y) then 29 else 28) else if m in {4, 6, 9, 11} then 30 else 31
  }

  function DaysBeforeMonth(y: int, m: nat): int {
    if m <= 1 then 0 else DaysBeforeMonth(y, m - 1) + DaysInMonth(y, m - 1)
  }

  /** `datetime(y, m, 1, tzinfo=UTC)` */
  function MonthStart(y: int, m: nat): int { (DaysBeforeYear(y) + DaysBeforeMonth(y, m)) * DAY }

  lemma Floor4(y: int)
    ensures y / 4 - (y - 1) / 4 == if y % 4 == 0 then 1 else 0
  {
  }

  lemma Floor100(y: int)
    ensures y / 100 - (y - 1) / 100 == if y % 100 == 0 then 1 else 0
  {
  }

  lemma Floor400(y: int)
    ensures y / 400 - (y - 1) / 400 == if y % 400 == 0 then 1 else 0
  {
  }

  lemma FourCenturies(y: int)
    requires y % 400 == 0
    ensures y % 100 == 0
  {
  }

  lemma Century(y: int)
    requires y % 100 == 0
    ensures y % 4 == 0
  {
  }

  lemma YearLength(y: int)
    ensures DaysBeforeYear(y + 1) - DaysBeforeYear(y) == if Leap(y) then 366 else 365
  {
    Floor4(y);
    Floor100(y);
    Floor400(y);
    if y % 400 == 0 { FourCenturies(y); }
    if y % 100 == 0 { Century(y); }
  }

  lemma MonthsOfYear(y: int)
    ensures DaysBeforeMonth(y, 12) + 31 == if Leap(y) then 366 else 365
  {
    var february := DaysInMonth(y, 2);
    assert DaysBeforeMonth(y, 2) == DaysBeforeMonth(y, 1) + 31 == 31;
    assert DaysBeforeMonth(y, 3) == 31 + february;
    assert DaysBeforeMonth(y, 4) == 62 + february;
    assert DaysBeforeMonth(y, 5) == 92 + february;
    assert DaysBeforeMonth(y, 6) == 123 + february;
    assert DaysBeforeMonth(y, 7) == 153 + february;
    assert DaysBeforeMonth(y, 8) == 184 + february;
    assert DaysBeforeMonth(y, 9) == 215 + february;
    assert DaysBeforeMonth(y, 10) == 245 + february;
    assert DaysBeforeMonth(y, 11) == 276 + february;
    assert DaysBeforeMonth(y, 12) == 306 + february;
  }

  // ---- months numbered from January of year 1 ----

  function YearOf(n: nat): int { n / 12 + 1 }
  function MonthOf(n: nat): nat { n % 12 + 1 }
  function Start(n: nat): int { MonthStart(YearOf(n), MonthOf(n)) }

  lemma NextStart(n: nat)
    ensures Start(n + 1) == Start(n) + DaysInMonth(YearOf(n), MonthOf(n)) * DAY
    ensures Start(n) < Start(n + 1)
  {
    var y, m := YearOf(n), MonthOf(n);
    if m == 12 {
      YearLength(y);
      MonthsOfYear(y);
      assert YearOf(n + 1) == y + 1 && MonthOf(n + 1) == 1;
    } else {
      assert YearOf(n + 1) == y && MonthOf(n + 1) == m + 1;
    }
  }

  // ---- ascending bounds tile the line ----

  ghost predicate Rising(start: nat -> int) { forall m: nat, n: nat :: n == m + 1 ==> start(m) < start(n) }

  lemma StartRises()
    ensures Rising(Start)
  {
    forall m: nat, n: nat | n == m + 1 ensures Start(m) < Start(n) { NextStart(m); }
  }

  lemma {:induction false} RisesThrough(start: nat -> int, a: nat, b: nat)
    requires Rising(start) && a <= b
    ensures start(a) <= start(b)
    decreases b
  {
    if a < b {
      RisesThrough(start, a, b - 1);
      var c: nat := b - 1;
      assert start(c) < start(b);
    }
  }

  lemma {:induction false} Holding(start: nat -> int, t: int, n: nat) returns (k: nat)
    requires start(0) <= t < start(n)
    ensures k < n && start(k) <= t < start(k + 1)
  {
    var m: nat := n - 1;
    if start(m) <= t {
      k := m;
    } else {
      k := Holding(start, t, m);
    }
  }

  lemma HeldOnce(start: nat -> int, t: int, m: nat, n: nat)
    requires Rising(start) && start(m) <= t < start(m + 1) && start(n) <= t < start(n + 1)
    ensures m == n
  {
    if m < n { RisesThrough(start, m + 1, n); }
    if n < m { RisesThrough(start, n + 1, m); }
  }

  // ---- period texts ----

  datatype PeriodError = BadPattern | YearOutOfRange

  predicate IsDigit(c: char) { '0' <= c <= '9' }

  function Value(c: char): int { c as int - '0' as int }

  /** `PERIOD_PATTERN`: four digits, a hyphen, a month from 01 to 12. */
  predicate MatchesPeriod(s: string) {
    && |s| == 7 && s[4] == '-'
    && IsDigit(s[0]) && IsDigit(s[1]) && IsDigit(s[2]) && IsDigit(s[3]) && IsDigit(s[5]) && IsDigit(s[6])
    && 1 <= Value(s[5]) * 10 + Value(s[6]) <= 12
  }

  function YearText(s: string): int
    requires MatchesPeriod(s)
  {
    Value(s[0]) * 1000 + Value(s[1]) * 100 + Value(s[2]) * 10 + Value(s[3])
  }

  function MonthText(s: string): int
    requires MatchesPeriod(s)
  {
    Value(s[5]) * 10 + Value(s[6])
  }

  /** `parse_period`; a bound outside the years a `datetime` can hold raises. */
  function ParsePeriod(s: string): Result<(int, int), PeriodError> {
    if !MatchesPeriod(s) then Err(BadPattern)
    else
      var y, m := YearText(s), MonthText(s);
      if y < 1 || (m == 12 && y == LAST_YEAR) then Err(YearOutOfRange)
      else Ok((MonthStart(y, m), if m == 12 then MonthStart(y + 1, 1) else MonthStart(y, m + 1)))
  }

  /** `_in_period` */
  predicate Within(t: int, bounds: (int, int)) { bounds.0 <= t < bounds.1 }

  predicate InPeriod(t: int, s: string) { ParsePeriod(s).Ok? && Within(t, ParsePeriod(s).value) }

  function DigitChar(d: int): char
    requires 0 <= d < 10
  {
    ('0' as int + d) as char
  }

  function PeriodText(n: nat): string
    requires YearOf(n) <= LAST_YEAR
  {
    var y, m := YearOf(n), MonthOf(n);
    [DigitChar(y / 1000), DigitChar(y / 100 % 10), DigitChar(y / 10 % 10), DigitChar(y % 10), '-',
     DigitChar(m / 10), DigitChar(m % 10)]
  }

  /** The number of the month a text names. */
  function Number(s: string): int
    requires MatchesPeriod(s)
  {
    12 * (YearText(s) - 1) + MonthText(s) - 1
  }

  lemma FourDigits(y: int)
    requires 0 <= y <= LAST_YEAR
    ensures 0 <= y / 1000 < 10
    ensures y / 1000 * 1000 + y / 100 % 10 * 100 + y / 10 % 10 * 10 + y % 10 == y
  {
    var a, b := y / 10, y / 100;
    assert y == a * 10 + y % 10;
    assert b == a / 10 && a == b * 10 + a % 10;
    assert y / 1000 == b / 10 && b == y / 1000 * 10 + b % 10;
  }

  lemma ReadDigits(y: int, m: int, s: string)
    requires 0 <= y <= LAST_YEAR && 1 <= m <= 12 && |s| == 7 && s[4] == '-' && y / 1000 < 10
    requires s[0] == DigitChar(y / 1000) && s[1] == DigitChar(y / 100 % 10) && s[2] == DigitChar(y / 10 % 10)
    requires s[3] == DigitChar(y % 10) && s[5] == DigitChar(m / 10) && s[6] == DigitChar(m % 10)
    ensures MatchesPeriod(s) && YearText(s) == y && MonthText(s) == m
  {
    FourDigits(y);
  }

  lemma PeriodTextReads(n: nat)
    requires YearOf(n) <= LAST_YEAR
    ensures MatchesPeriod(PeriodText(n)) && YearText(PeriodText(n)) == YearOf(n) && MonthText(PeriodText(n)) == MonthOf(n)
    ensures Number(PeriodText(n)) == n
  {
    FourDigits(YearOf(n));
    ReadDigits(YearOf(n), MonthOf(n), PeriodText(n));
  }

  lemma SameNumberSameText(s: string, t: string)
    requires MatchesPeriod(s) && MatchesPeriod(t) && Number(s) == Number(t)
    ensures s == t
  {
    assert YearText(s) == YearText(t) && MonthText(s) == MonthText(t);
    forall i | 0 <= i < 7 ensures s[i] == t[i] {
      assert Value(s[0]) == Value(t[0]) && Value(s[1]) == Value(t[1]);
      assert Value(s[2]) == Value(t[2]) && Value(s[3]) == Value(t[3]);
      assert Value(s[5]) == Value(t[5]) && Value(s[6]) == Value(t[6]);
    }
  }

  lemma ParsedBounds(s: string)
    requires ParsePeriod(s).Ok?
    ensures 0 <= Number(s) < LAST_MONTH
    ensures ParsePeriod(s).value == (Start(Number(s)), Start(Number(s) + 1))
  {
    var n := Number(s);
    assert YearOf(n) == YearText(s) && MonthOf(n) == MonthText(s);
    if MonthText(s) == 12 {
      assert YearOf(n + 1) == YearText(s) + 1 && MonthOf(n + 1) == 1;
    } else {
      assert YearOf(n + 1) == YearText(s) && MonthOf(n + 1) == MonthText(s) + 1;
    }
  }

  lemma Bounded(t: int, s: string)
    requires InPeriod(t, s)
    ensures MatchesPeriod(s) && 0 <= Number(s) < LAST_MONTH && Start(Number(s)) <= t < Start(Number(s) + 1)
  {
    ParsedBounds(s);
  }

  lemma OneText(start: nat -> int, t: int, s: string, u: string)
    requires Rising(start) && MatchesPeriod(s) && MatchesPeriod(u) && 0 <= Number(s) && 0 <= Number(u)
    requires start(Number(s)) <= t < start(Number(s) + 1) && start(Number(u)) <= t < start(Number(u) + 1)
    ensures s == u
  {
    HeldOnce(start, t, Number(s), Number(u));
    SameNumberSameText(s, u);
  }

  /** No instant is in two periods. */
  lemma NoTwoPeriods(t: int, s: string, u: string)
    requires InPeriod(t, s) && InPeriod(t, u)
    ensures s == u
  {
    Bounded(t, s);
    Bounded(t, u);
    StartRises();
    OneText(Start, t, s, u);
  }

  lemma BeforeLastMonth(t: int, s: string)
    requires InPeriod(t, s)
    ensures t < Start(LAST_MONTH)
  {
    Bounded(t, s);
    StartRises();
    RisesThrough(Start, Number(s) + 1, LAST_MONTH);
  }

  lemma BeforeLast(k: nat)
    requires k < LAST_MONTH
    ensures 1 <= YearOf(k) <= LAST_YEAR && !(YearOf(k) == LAST_YEAR && MonthOf(k) == 12)
  {
  }

  lemma TextParses(k: nat)
    requires k < LAST_MONTH
    ensures YearOf(k) <= LAST_YEAR && ParsePeriod(PeriodText(k)).Ok? && Number(PeriodText(k)) == k
  {
    BeforeLast(k);
    PeriodTextReads(k);
  }

  lemma InPeriodOf(start: nat -> int, t: int, s: string, k: nat)
    requires ParsePeriod(s) == Ok((start(k), start(k + 1))) && start(k) <= t < start(k + 1)
    ensures InPeriod(t, s)
  {
  }

  lemma TextBounds(k: nat)
    requires k < LAST_MONTH
    ensures YearOf(k) <= LAST_YEAR && ParsePeriod(PeriodText(k)) == Ok((Start(k), Start(k + 1)))
  {
    TextParses(k);
    ParsedBounds(PeriodText(k));
  }

  lemma HasPeriod(t: int, k: nat)
    requires k < LAST_MONTH && Start(k) <= t < Start(k + 1)
    ensures YearOf(k) <= LAST_YEAR && InPeriod(t, PeriodText(k))
  {
    TextBounds(k);
    InPeriodOf(Start, t, PeriodText(k), k);
  }

  lemma PeriodOf(start: nat -> int, t: int) returns (k: nat)
    requires start(0) <= t < start(LAST_MONTH)
    ensures k < LAST_MONTH && start(k) <= t < start(k + 1)
  {
    k := Holding(start, t, LAST_MONTH);
  }

  lemma FirstStart()
    ensures Start(0) == 0
  {
  }

  lemma HoldingMonth(t: int) returns (k: nat)
    requires 0 <= t < Start(LAST_MONTH)
    ensures k < LAST_MONTH && Start(k) <= t < Start(k + 1)
  {
    FirstStart();
    k := PeriodOf(Start, t);
  }

  lemma FindPeriod(t: int, k: nat) returns (s: string)
    requires k < LAST_MONTH && Start(k) <= t < Start(k + 1)
    ensures InPeriod(t, s)
  {
    HasPeriod(t, k);
    s := PeriodText(k);
  }

  ghost predicate HasSomePeriod(t: int) { exists s :: InPeriod(t, s) }

  /** An instant is in some period exactly when it is before December 9999; by `NoTwoPeriods` in one only. */
  lemma SomePeriodIff(t: int)
    requires t >= 0
    ensures HasSomePeriod(t) <==> t < Start(LAST_MONTH)
  {
    if t < Start(LAST_MONTH) {
      var k := HoldingMonth(t);
      var s := FindPeriod(t, k);
    }
    if HasSomePeriod(t) {
      var s :| InPeriod(t, s);
      BeforeLastMonth(t, s);
    }
  }

  // ---- periods by their texts ----

  /** Four digits for the year, a hyphen, two for a month from 01 to 12. */
  predicate Names(s: string, y: int, m: int) {
    && |s| == 7 && s[4] == '-' && (forall i :: 0 <= i < 7 && i != 4 ==> '0' <= s[i] <= '9')
    && y == 1000 * (s[0] as int - 48) + 100 * (s[1] as int - 48) + 10 * (s[2] as int - 48) + (s[3] as int - 48)
    && m == 10 * (s[5] as int - 48) + (s[6] as int - 48) && 1 <= m <= 12
  }

  lemma NamesIff(s: string, y: int, m: int)
    ensures Names(s, y, m) <==> MatchesPeriod(s) && YearText(s) == y && MonthText(s) == m
  {
    if MatchesPeriod(s) { assert forall i :: 0 <= i < 7 && i != 4 ==> IsDigit(s[i]); }
  }

  /** A text is a period exactly when it names a month of the years 1 to 9999 other than the very last. */
  lemma ParsesIff(s: string)
    ensures ParsePeriod(s).Ok? <==> exists y, m :: Names(s, y, m) && y >= 1 && !(y == 9999 && m == 12)
    ensures ParsePeriod(s) == Err(BadPattern) <==> forall y, m :: !Names(s, y, m)
  {
    forall y, m ensures Names(s, y, m) <==> MatchesPeriod(s) && YearText(s) == y && MonthText(s) == m {
      NamesIff(s, y, m);
    }
    if MatchesPeriod(s) { assert Names(s, YearText(s), MonthText(s)); }
  }

  lemma LengthAt(start: nat -> int, s: string, length: int)
    requires MatchesPeriod(s) && ParsePeriod(s).Ok? && 0 <= Number(s)
    requires ParsePeriod(s).value == (start(Number(s)), start(Number(s) + 1))
    requires start(Number(s) + 1) == start(Number(s)) + length
    ensures ParsePeriod(s).value.1 - ParsePeriod(s).value.0 == length
  {
  }

  lemma MonthAt(s: string, y: int, m: int)
    requires Names(s, y, m) && y >= 1
    ensures MatchesPeriod(s) && 0 <= Number(s) && YearOf(Number(s)) == y && MonthOf(Number(s)) == m
  {
    NamesIff(s, y, m);
  }

  lemma CalendarDays(y: int, m: int)
    ensures DaysInMonth(y, m) * DAY ==
            86_400_000_000 * (if m == 2 then (if y % 4 == 0 && (y % 100 != 0 || y % 400 == 0) then 29 else 28)
                              else if m == 4 || m == 6 || m == 9 || m == 11 then 30 else 31)
  {
  }

  lemma LengthOf(s: string)
    requires ParsePeriod(s).Ok?
    ensures ParsePeriod(s).value.1 - ParsePeriod(s).value.0 ==
            DaysInMonth(YearOf(Number(s)), MonthOf(Number(s))) * DAY
  {
    ParsedBounds(s);
    NextStart(Number(s));
    LengthAt(Start, s, DaysInMonth(YearOf(Number(s)), MonthOf(Number(s))) * DAY);
  }

  lemma ParsedYear(s: string, y: int, m: int)
    requires Names(s, y, m) && ParsePeriod(s).Ok?
    ensures y >= 1
  {
    NamesIff(s, y, m);
  }

  /** A period lasts the days of its month, of 86,400 million microseconds each. */
  lemma PeriodDays(s: string, y: int, m: int)
    requires Names(s, y, m) && ParsePeriod(s).Ok?
    ensures ParsePeriod(s).value.1 - ParsePeriod(s).value.0 ==
            86_400_000_000 * (if m == 2 then (if y % 4 == 0 && (y % 100 != 0 || y % 400 == 0) then 29 else 28)
                              else if m == 4 || m == 6 || m == 9 || m == 11 then 30 else 31)
  {
    ParsedYear(s, y, m);
    MonthAt(s, y, m);
    LengthOf(s);
    CalendarDays(y, m);
  }

  lemma BoundsAdjoin(start: nat -> int, s: string, t: string)
    requires MatchesPeriod(s) && MatchesPeriod(t) && ParsePeriod(s).Ok? && ParsePeriod(t).Ok?
    requires 0 <= Number(s) && Number(t) == Number(s) + 1
    requires ParsePeriod(s).value == (start(Number(s)), start(Number(s) + 1))
    requires ParsePeriod(t).value == (start(Number(t)), start(Number(t) + 1))
    ensures ParsePeriod(s).value.1 == ParsePeriod(t).value.0
  {
  }

  lemma NextNumber(s: string, t: string, y: int, m: int)
    requires Names(s, y, m) && Names(t, if m == 12 then y + 1 else y, if m == 12 then 1 else m + 1)
    ensures MatchesPeriod(s) && MatchesPeriod(t) && Number(t) == Number(s) + 1
    ensures y == 1 && m == 1 ==> Number(s) == 0
  {
    NamesIff(s, y, m);
    NamesIff(t, if m == 12 then y + 1 else y, if m == 12 then 1 else m + 1);
  }

  /** Each period starts where the one of the month before it ends; the first one starts at 0. */
  lemma PeriodsAdjoin(s: string, t: string, y: int, m: int)
    requires Names(s, y, m) && Names(t, if m == 12 then y + 1 else y, if m == 12 then 1 else m + 1)
    requires ParsePeriod(s).Ok? && ParsePeriod(t).Ok?
    ensures ParsePeriod(s).value.1 == ParsePeriod(t).value.0
    ensures y == 1 && m == 1 ==> ParsePeriod(s).value.0 == 0
  {
    NextNumber(s, t, y, m);
    ParsedBounds(s);
    ParsedBounds(t);
    BoundsAdjoin(Start, s, t);
    FirstStart();
  }

  /** December 9999 starts 3,652,028 days after the first instant. */
  lemma LastMonthStart()
    ensures Start(LAST_MONTH) == 3_652_028 * 86_400_000_000
  {
    assert YearOf(LAST_MONTH) == 9999 && MonthOf(LAST_MONTH) == 12;
    MonthsOfYear(9999);
    assert DaysBeforeYear(9999) == 3_651_694;
  }

  /** The months have the lengths of the calendar, leap years included. */
  lemma KnownMonths()
    ensures ParsePeriod("2024-02").Ok? && ParsePeriod("9999-12") == Err(YearOutOfRange)
    ensures ParsePeriod("0000-01") == Err(YearOutOfRange) && ParsePeriod("2024-13") == Err(BadPattern)
    ensures var (start, end) := ParsePeriod("2024-02").value; end - start == 29 * DAY
    ensures var (start, end) := ParsePeriod("1900-02").value; end - start == 28 * DAY
  {
    var leap, century := "2024-02", "1900-02";
    assert YearText(leap) == 2024 && MonthText(leap) == 2 && YearText(century) == 1900 && MonthText(century) == 2;
    assert DaysBeforeMonth(2024, 3) == DaysBeforeMonth(2024, 2) + 29;
    assert DaysBeforeMonth(1900, 3) == DaysBeforeMonth(1900, 2) + 28;
    assert YearText("9999-12") == 9999 && MonthText("9999-12") == 12 && YearText("0000-01") == 0;
  }
}
