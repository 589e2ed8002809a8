/**
 * The proleptic Gregorian calendar in a zone of fixed offset, and the last monthly reset before
 * an instant (`utils/utils.go`).
 *
 * Instants are whole Unix seconds. Resets are whole seconds too, so "before a reset" only depends
 * on the floor of a finer instant.
 */
module Calendar {
  const DAY: int := 86400

  predicate IsLeap(year: int) {
    year % 4 == 0 && (year % 100 != 0 || year % 400 == 0)
  }

  /** Days of the years before `year`, counted from 1970-01-01. */
  function DaysBeforeYear(year: int): int {
    365 * (year - 1970) + (year - 1) / 4 - (year - 1) / 100 + (year - 1) / 400 - 477
  }

  /** Days of a common year before its 0-based month `m`; 12 stands for the end of the year. */
  function DaysBeforeMonth(m: int): int
    requires 0 <= m <= 12
  {
    [0, 31, 59, 90, 120, 151, 181, 212, 243, 273, 304, 334, 365][m]
  }

  /**
   * Months are numbered without a gap: month `m` (1 to 12) of year `y` has the index
   * `12 * y + m - 1`, so month arithmetic needs no carry.
   */
  function MonthStart(k: int): int {
    var year, m := k / 12, k % 12;
    DaysBeforeYear(year) + DaysBeforeMonth(m) + if m >= 2 && IsLeap(year) then 1 else 0
  }

  function MonthLength(k: int): int {
    var year, m := k / 12, k % 12;
    if m == 1 then if IsLeap(year) then 29 else 28
    else if m == 3 || m == 5 || m == 8 || m == 10 then 30
    else 31
  }

  lemma YearLength(year: int)
    ensures DaysBeforeYear(year + 1) == DaysBeforeYear(year) + if IsLeap(year) then 366 else 365
  {
    assert year / 4 == (year - 1) / 4 + if year % 4 == 0 then 1 else 0;
    assert year / 100 == (year - 1) / 100 + if year % 100 == 0 then 1 else 0;
    assert year / 400 == (year - 1) / 400 + if year % 400 == 0 then 1 else 0;
  }

  /** Consecutive months tile the days. */
  lemma MonthsTile(k: int)
    ensures MonthStart(k + 1) == MonthStart(k) + MonthLength(k)
    ensures 28 <= MonthLength(k) <= 31
  {
    var year, m := k / 12, k % 12;
    if m == 11 {
      YearLength(year);
      assert (k + 1) / 12 == year + 1 && (k + 1) % 12 == 0;
    } else {
      assert (k + 1) / 12 == year && (k + 1) % 12 == m + 1;
    }
  }

  lemma {:induction false} MonthStartsIncrease(j: int, k: int)
    requires j < k
    ensures MonthStart(j) < MonthStart(k)
    decreases k - j
  {
    hide MonthStart, MonthLength;
    MonthsTile(k - 1);
    if j < k - 1 {
      MonthStartsIncrease(j, k - 1);
    }
  }

  ghost predicate InMonth(day: int, k: int) {
    MonthStart(k) <= day < MonthStart(k + 1)
  }

  /** The month that contains `day`, searched from month `k`. */
  function MonthFrom(day: int, k: int): (r: int)
    ensures InMonth(day, r)
    decreases if day < MonthStart(k) then MonthStart(k) - day
              else if day >= MonthStart(k + 1) then day - MonthStart(k + 1) + 1
              else 0
  {
    hide MonthStart, MonthLength;
    MonthsTile(k - 1); MonthsTile(k); MonthsTile(k + 1);
    if day < MonthStart(k) then MonthFrom(day, k - 1)
    else if day >= MonthStart(k + 1) then MonthFrom(day, k + 1)
    else k
  }

  function MonthOf(day: int): (k: int)
    ensures InMonth(day, k)
  {
    MonthFrom(day, 12 * 1970)
  }

  lemma MonthIsUnique(day: int, j: int, k: int)
    requires InMonth(day, j) && InMonth(day, k)
    ensures j == k
  {
    hide MonthStart, MonthLength;
    if j < k - 1 {
      MonthStartsIncrease(j + 1, k);
    } else if k < j - 1 {
      MonthStartsIncrease(k + 1, j);
    }
  }

  /** The civil fields of an instant, and the instant of civil fields. Month and day may overflow. */
  function LocalDay(t: int, offset: int): int { (t + offset) / DAY }

  function Year(t: int, offset: int): int { MonthOf(LocalDay(t, offset)) / 12 }

  function Month(t: int, offset: int): int { MonthOf(LocalDay(t, offset)) % 12 + 1 }

  function DayOfMonth(t: int, offset: int): int {
    LocalDay(t, offset) - MonthStart(MonthOf(LocalDay(t, offset))) + 1
  }

  function Date(year: int, month: int, day: int, secondOfDay: int, offset: int): int {
    DAY * (MonthStart(12 * year + month - 1) + day - 1) + secondOfDay - offset
  }

  function AddDays(t: int, days: int): int { t + DAY * days }

  /** The three numbers scanned from the configured clock. */
  datatype Clock = Clock(hour: int, minute: int, second: int)

  /** `day` is the configured day of the month; 0 and everything outside 1 to 31 disables resets. */
  datatype ResetRule = ResetRule(day: int, clock: Clock, offset: int)

  /** A clock that is out of range is an error, and an error means midnight. */
  function ClockSecond(clock: Clock): (r: int)
    ensures 0 <= r < DAY
  {
    if 0 <= clock.hour <= 23 && 0 <= clock.minute <= 59 && 0 <= clock.second <= 59 then
      3600 * clock.hour + 60 * clock.minute + clock.second
    else
      0
  }

  function ActualResetInstant(year: int, month: int, rule: ResetRule): int {
    var firstDayOfNextMonth := Date(year, month + 1, 1, 0, rule.offset);
    var lastDayOfMonth := DayOfMonth(AddDays(firstDayOfNextMonth, -1), rule.offset);
    var day := if rule.day > lastDayOfMonth then lastDayOfMonth else rule.day;
    Date(year, month, day, ClockSecond(rule.clock), rule.offset)
  }

  function GetLastResetInstant(rule: ResetRule, current: int): int {
    if rule.day < 1 || rule.day > 31 then current
    else
      var year, month := Year(current, rule.offset), Month(current, rule.offset);
      var thisMonth := ActualResetInstant(year, month, rule);
      if current >= thisMonth then thisMonth
      else if month - 1 < 1 then ActualResetInstant(year - 1, 12, rule)
      else ActualResetInstant(year, month - 1, rule)
  }

  // ---------------------------------------------------------------- the reset schedule

  predicate Scheduled(rule: ResetRule) {
    1 <= rule.day <= 31
  }

  /** The schedule itself: one reset a month, on the configured day or the last day before it. */
  function ResetOf(rule: ResetRule, k: int): int {
    var day := if rule.day < MonthLength(k) then rule.day else MonthLength(k);
    DAY * (MonthStart(k) + day - 1) + ClockSecond(rule.clock) - rule.offset
  }

  /** The code's "first of next month minus one day" clamps exactly like the schedule. */
  lemma ActualResetIsScheduled(year: int, month: int, rule: ResetRule)
    ensures ActualResetInstant(year, month, rule) == ResetOf(rule, 12 * year + month - 1)
  {
    var k := 12 * year + month - 1;
    var last := AddDays(Date(year, month + 1, 1, 0, rule.offset), -1);
    MonthsTile(k);
    assert LocalDay(last, rule.offset) == MonthStart(k + 1) - 1 by {
      assert last + rule.offset == DAY * (MonthStart(k + 1) - 1);
    }
    MonthIsUnique(MonthStart(k + 1) - 1, k, MonthOf(MonthStart(k + 1) - 1));
  }

  lemma ShortMonthsAreFollowedByLong(k: int)
    ensures MonthLength(k) <= 30 ==> MonthLength(k + 1) == 31
  {
    assert k % 12 == 11 ==> (k + 1) % 12 == 0;
    assert k % 12 < 11 ==> (k + 1) % 12 == k % 12 + 1;
  }

  /** Resets of consecutive months are 28 to 31 days apart, whatever the clamping. */
  lemma ResetsAreSpaced(rule: ResetRule, k: int)
    requires Scheduled(rule)
    ensures 28 * DAY <= ResetOf(rule, k + 1) - ResetOf(rule, k) <= 31 * DAY
  {
    hide MonthStart, MonthLength;
    MonthsTile(k);
    MonthsTile(k + 1);
    ShortMonthsAreFollowedByLong(k);
  }

  lemma {:induction false} ResetsIncrease(rule: ResetRule, j: int, k: int)
    requires Scheduled(rule) && j < k
    ensures ResetOf(rule, j) < ResetOf(rule, k)
    decreases k - j
  {
    hide ResetOf;
    ResetsAreSpaced(rule, k - 1);
    if j < k - 1 {
      ResetsIncrease(rule, j, k - 1);
    }
  }

  /** The month whose reset is the last one at `current`. */
  function LastResetMonth(rule: ResetRule, current: int): int {
    var k := MonthOf(LocalDay(current, rule.offset));
    if current >= ResetOf(rule, k) then k else k - 1
  }

  lemma LastResetMonthBrackets(rule: ResetRule, current: int)
    requires Scheduled(rule)
    ensures var k := LastResetMonth(rule, current); ResetOf(rule, k) <= current < ResetOf(rule, k + 1)
  {
    hide MonthStart, MonthLength, MonthOf;
    var k := MonthOf(LocalDay(current, rule.offset));
    MonthsTile(k - 1);
    MonthsTile(k);
    MonthsTile(k + 1);
  }

  lemma LastResetIsOfItsMonth(rule: ResetRule, current: int)
    requires Scheduled(rule)
    ensures GetLastResetInstant(rule, current) == ResetOf(rule, LastResetMonth(rule, current))
  {
    hide MonthStart, MonthLength;
    var k := MonthOf(LocalDay(current, rule.offset));
    var year, month := Year(current, rule.offset), Month(current, rule.offset);
    assert 12 * year + month - 1 == k;
    ActualResetIsScheduled(year, month, rule);
    ActualResetIsScheduled(year - 1, 12, rule);
    ActualResetIsScheduled(year, month - 1, rule);
  }

  /**
   * The last reset instant is a scheduled reset, is not after `current`, and is the greatest such
   * reset. All three hold across year ends, short months and leap days.
   */
  lemma LastResetIsGreatest(rule: ResetRule, current: int)
    requires Scheduled(rule)
    ensures exists k :: GetLastResetInstant(rule, current) == ResetOf(rule, k)
    ensures GetLastResetInstant(rule, current) <= current
    ensures forall k :: ResetOf(rule, k) <= current ==> ResetOf(rule, k) <= GetLastResetInstant(rule, current)
  {
    hide ResetOf, GetLastResetInstant, LastResetMonth;
    LastResetIsOfItsMonth(rule, current);
    LastResetMonthBrackets(rule, current);
    var m := LastResetMonth(rule, current);
    forall k | ResetOf(rule, k) <= current
      ensures ResetOf(rule, k) <= ResetOf(rule, m)
    {
      if m + 1 < k {
        ResetsIncrease(rule, m + 1, k);
      } else if k < m {
        ResetsIncrease(rule, k, m);
      }
    }
  }

  /** Time only moves the last reset forward. */
  lemma LastResetIsMonotone(rule: ResetRule, s: int, t: int)
    requires Scheduled(rule) && s <= t
    ensures GetLastResetInstant(rule, s) <= GetLastResetInstant(rule, t)
  {
    hide ResetOf, GetLastResetInstant;
    LastResetIsOfItsMonth(rule, s);
    LastResetIsGreatest(rule, s);
    LastResetIsGreatest(rule, t);
  }

  ghost predicate ReachesLastReset(preserve: int, rule: ResetRule, current: int) {
    GetLastResetInstant(rule, current) >= current - preserve
  }

  lemma January1970()
    ensures MonthStart(12 * 1970) == 0 && MonthLength(12 * 1970) == 31 && MonthStart(12 * 1970 + 1) == 31
  {
    assert (12 * 1970) / 12 == 1970 && (12 * 1970) % 12 == 0;
    assert (12 * 1970 + 1) / 12 == 1970 && (12 * 1970 + 1) % 12 == 1;
    assert DaysBeforeYear(1970) == 0;
  }

  /**
   * How long records must be kept so that the current cycle always survives: one second short of
   * 31 days. The default of 31 days is enough for every rule and instant, and no shorter span is.
   */
  lemma PreservationIsTight(preserve: int)
    ensures (forall rule, current | Scheduled(rule) :: ReachesLastReset(preserve, rule, current))
        <==> preserve >= 31 * DAY - 1
  {
    hide MonthStart, MonthLength, GetLastResetInstant;
    if preserve >= 31 * DAY - 1 {
      forall rule, current | Scheduled(rule)
        ensures ReachesLastReset(preserve, rule, current)
      {
        LastResetIsOfItsMonth(rule, current);
        LastResetMonthBrackets(rule, current);
        ResetsAreSpaced(rule, LastResetMonth(rule, current));
      }
    } else {
      // January 1970 with a reset on the first: one second before the reset of February.
      var rule, current, k := ResetRule(1, Clock(0, 0, 0), 0), 31 * DAY - 1, 12 * 1970;
      January1970();
      MonthsTile(k + 1);
      assert ResetOf(rule, k) == 0 && ResetOf(rule, k + 1) == 31 * DAY;
      LastResetIsOfItsMonth(rule, current);
      LastResetMonthBrackets(rule, current);
      var m := LastResetMonth(rule, current);
      if m < k {
        if m + 1 < k { ResetsIncrease(rule, m + 1, k); }
      } else if k < m {
        if k + 1 < m { ResetsIncrease(rule, k + 1, m); }
      }
      assert !ReachesLastReset(preserve, rule, current);
    }
  }

  // ---------------------------------------------------------------- what a reset reads as

  /** The scheduled second of the day splits back into the three numbers of the clock. */
  lemma ClockFields(clock: Clock)
    ensures var r := ClockSecond(clock);
      if 0 <= clock.hour < 24 && 0 <= clock.minute < 60 && 0 <= clock.second < 60 then
        r / 3600 == clock.hour && r % 3600 / 60 == clock.minute && r % 60 == clock.second
      else
        r == 0
  {
    if 0 <= clock.hour < 24 && 0 <= clock.minute < 60 && 0 <= clock.second < 60 {
      var low := 60 * clock.minute + clock.second;
      assert 0 <= low < 3600;
      assert ClockSecond(clock) == 3600 * clock.hour + low;
    }
  }

  /**
   * Read in the zone of its rule, the last reset shows the configured time of day, and the configured day of
   * the month; if the month has no such day it shows the day before the first of the next month.
   */
  lemma LastResetReads(rule: ResetRule, current: int)
    requires Scheduled(rule)
    ensures var r, c := GetLastResetInstant(rule, current), rule.clock;
      var inRange := 0 <= c.hour < 24 && 0 <= c.minute < 60 && 0 <= c.second < 60;
      && (r + rule.offset) % DAY == (if inRange then 3600 * c.hour + 60 * c.minute + c.second else 0)
      && DayOfMonth(r, rule.offset) <= rule.day
      && (DayOfMonth(r, rule.offset) < rule.day ==> DayOfMonth(r + DAY, rule.offset) == 1)
  {
    hide MonthStart, MonthLength, MonthOf, GetLastResetInstant, LastResetMonth, ClockSecond;
    var r, k := GetLastResetInstant(rule, current), LastResetMonth(rule, current);
    LastResetIsOfItsMonth(rule, current);
    MonthsTile(k);
    MonthsTile(k + 1);
    var day := if rule.day < MonthLength(k) then rule.day else MonthLength(k);
    assert r + rule.offset == DAY * (MonthStart(k) + day - 1) + ClockSecond(rule.clock);
    assert LocalDay(r, rule.offset) == MonthStart(k) + day - 1;
    assert LocalDay(r + DAY, rule.offset) == MonthStart(k) + day;
    MonthIsUnique(MonthStart(k) + day - 1, k, MonthOf(MonthStart(k) + day - 1));
    if day < rule.day {
      MonthIsUnique(MonthStart(k + 1), k + 1, MonthOf(MonthStart(k + 1)));
    }
    assert (r + rule.offset) % DAY == ClockSecond(rule.clock);
    ClockReads(rule.clock);
  }

  lemma ClockReads(c: Clock)
    ensures ClockSecond(c) ==
      if 0 <= c.hour < 24 && 0 <= c.minute < 60 && 0 <= c.second < 60 then 3600 * c.hour + 60 * c.minute + c.second
      else 0
  {
  }

  /** A zone east of Greenwich resets earlier by its offset: the civil schedule is the same in every zone. */
  lemma ZonesShiftResets(rule: ResetRule, current: int)
    requires Scheduled(rule)
    ensures GetLastResetInstant(rule, current)
         == GetLastResetInstant(rule.(offset := 0), current + rule.offset) - rule.offset
  {
    hide GetLastResetInstant, MonthStart, MonthLength, MonthOf, ClockSecond, DAY;
    LastResetIsOfItsMonth(rule, current);
    LastResetIsOfItsMonth(rule.(offset := 0), current + rule.offset);
    assert LocalDay(current, rule.offset) == LocalDay(current + rule.offset, 0);
  }

  /** The calendar repeats after 400 years of 146097 days. */
  lemma GregorianCycle(k: int)
    ensures MonthStart(k + 4800) == MonthStart(k) + 146097
  {
    hide DaysBeforeMonth;
    var year := k / 12;
    assert (k + 4800) / 12 == year + 400 && (k + 4800) % 12 == k % 12;
    CycleOfYears(year);
  }

  lemma CycleOfYears(year: int)
    ensures DaysBeforeYear(year + 400) == DaysBeforeYear(year) + 146097
    ensures IsLeap(year + 400) == IsLeap(year)
  {
    assert (year + 399) / 4 == (year - 1) / 4 + 100;
    assert (year + 399) / 100 == (year - 1) / 100 + 4;
    assert (year + 399) / 400 == (year - 1) / 400 + 1;
  }

  /**
   * Where the calendar stands: February 1900, 2000 and 2024 begin on the days history puts them, counted from
   * 1970-01-01, and have 28, 29 and 29 days.
   */
  lemma KnownMonths()
    ensures MonthStart(12 * 1970) == 0
    ensures MonthStart(12 * 1900 + 1) == -25536 && MonthStart(12 * 1900 + 2) == -25508
    ensures MonthStart(12 * 2000 + 1) == 10988 && MonthStart(12 * 2000 + 2) == 11017
    ensures MonthStart(12 * 2024 + 1) == 19754 && MonthStart(12 * 2024 + 2) == 19783
  {
    hide MonthStart;
    January1970();
    KnownFebruary(1900);
    KnownFebruary(2000);
    KnownFebruary(2024);
  }

  /** The lengths of the months, January being 0. */
  lemma CivilMonths(k: int)
    ensures var days := MonthStart(k + 1) - MonthStart(k);
      && (k % 12 in {0, 2, 4, 6, 7, 9, 11} ==> days == 31)
      && (k % 12 in {3, 5, 8, 10} ==> days == 30)
      && (k % 12 == 1 ==> days == if k / 12 % 4 == 0 && (k / 12 % 100 != 0 || k / 12 % 400 == 0) then 29 else 28)
  {
    MonthsTile(k);
  }

  lemma KnownFebruary(year: int)
    ensures MonthStart(12 * year + 1) == DaysBeforeYear(year) + 31
    ensures MonthStart(12 * year + 2) == DaysBeforeYear(year) + 59 + if IsLeap(year) then 1 else 0
  {
    assert (12 * year + 1) / 12 == year && (12 * year + 1) % 12 == 1;
    assert (12 * year + 2) / 12 == year && (12 * year + 2) % 12 == 2;
  }
}
