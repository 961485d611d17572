/** Weekdays of day numbers, the n-th and the last weekday of a month, and ISO week dates, after
    the formulas of src/utils/date.h. Sunday is 0 and Saturday 6. */
module Weekdays {
  import opened Arithmetic
  import opened CivilDate

  const MONDAY := 1
  const THURSDAY := 4

  /** The weekday of day number `z`: day 0 is a Thursday. */
  function Weekday(z: int): (wd: int)
    ensures IsWeekday(wd)
  {
    (z + 4) % 7
  }

  /** The weekday of a 32-bit day number as date.h computes it, in unsigned arithmetic. */
  function WeekdayFromDays(z: int): int
    requires -0x8000_0000 <= z < 0x8000_0000
  {
    var u := z % 0x1_0000_0000;
    if z >= -4 then ((u + 4) % 0x1_0000_0000) % 7 else u % 7
  }

  /** The unsigned formula is exact for every 32-bit day number, negative ones included. */
  lemma WeekdayIsExact(z: int)
    requires -0x8000_0000 <= z < 0x8000_0000
    ensures WeekdayFromDays(z) == Weekday(z) == (z + 4) % 7
  {
    if z < -4 {
      assert z % 0x1_0000_0000 == z + 0x1_0000_0000;
      assert z + 0x1_0000_0000 == (z + 4) + 7 * 613566756;
    }
  }

  /** Days to go forward from weekday `y` to weekday `x`. */
  function WeekdayDiff(x: int, y: int): int {
    var wdu := x - y;
    wdu - TruncDiv(if wdu >= 0 then wdu else wdu - 6, 7) * 7
  }

  /** 1970-01-01 was a Thursday, and each day of the calendar falls on the weekday after that of the
      day before. */
  lemma WeekdaysFollow(d: Date)
    requires Ok(d)
    ensures Weekday(ToDays(Date(1970, 1, 1))) == 4
    ensures Ok(NextDay(d)) && Weekday(ToDays(NextDay(d))) == (Weekday(ToDays(d)) + 1) % 7
  {
    hide ToDays;
    CountsDays(d);
    EpochIsDayZero();
    WeekdayStep(ToDays(d), 1);
  }

  predicate IsWeekday(wd: int) { 0 <= wd <= 6 }

  /** The difference is the one number of days below a week that leads from `y` to `x`. */
  lemma WeekdayDiffForward(x: int, y: int)
    requires IsWeekday(x) && IsWeekday(y)
    ensures WeekdayDiff(x, y) == (if x >= y then x - y else x - y + 7)
  {
  }

  lemma WeekdayStep(z: int, k: int)
    requires 0 <= k < 7
    ensures Weekday(z + k) == if Weekday(z) + k < 7 then Weekday(z) + k else Weekday(z) + k - 7
    ensures Weekday(z - k) == if Weekday(z) >= k then Weekday(z) - k else Weekday(z) - k + 7
  {
    var q := (z + 4) / 7;
    QuotientUnique(z + k + 4, 7, if Weekday(z) + k < 7 then q else q + 1);
    QuotientUnique(z - k + 4, 7, if Weekday(z) >= k then q else q - 1);
  }

  lemma WeekdayWeeks(z: int, w: int)
    ensures Weekday(z + 7 * w) == Weekday(z)
  {
    assert z + 7 * w + 4 == 7 * ((z + 4) / 7 + w) + (z + 4) % 7;
  }

  /** Days on the same weekday are whole weeks apart. */
  lemma SameWeekday(a: int, b: int)
    requires Weekday(a) == Weekday(b)
    ensures (a - b) % 7 == 0
  {
    assert a - b == 7 * ((a + 4) / 7 - (b + 4) / 7);
  }

  // ---------------------------------------------------------------- weekday[index]

  /** The `index`-th such weekday of a month. */
  datatype MonthWeekday = MonthWeekday(year: int, month: int, weekday: int, index: int)

  predicate MonthWeekdayOk(w: MonthWeekday) {
    && 1 <= w.month <= 12 && IsWeekday(w.weekday) && w.index >= 1
    && (w.index > 4 ==>
          WeekdayDiff(w.weekday, Weekday(ToDays(Date(w.year, w.month, 1)))) + (w.index - 1) * 7 + 1
          <= LastDay(w.year, w.month))
  }

  function MonthWeekdayFromDays(n: int): MonthWeekday {
    var d := FromDays(n);
    MonthWeekday(d.year, d.month, Weekday(n), TruncDiv(d.day - 1, 7) + 1)
  }

  function MonthWeekdayToDays(w: MonthWeekday): int {
    var d := ToDays(Date(w.year, w.month, 1));
    d + (WeekdayDiff(w.weekday, Weekday(d)) + (w.index - 1) * 7)
  }

  /** Week arithmetic of a month: day `k` after the first is the (k/7+1)-th of its weekday. */
  lemma WeekOfMonth(first: int, k: int)
    requires 0 <= k
    ensures first + WeekdayDiff(Weekday(first + k), Weekday(first)) + (k / 7) * 7 == first + k
  {
    WeekdayWeeks(first + k % 7, k / 7);
    assert first + k == first + k % 7 + 7 * (k / 7);
    WeekdayStep(first, k % 7);
    WeekdayDiffForward(Weekday(first + k), Weekday(first));
  }

  /** Every day number is rebuilt from its weekday-of-month form, and that form is valid. */
  lemma MonthWeekdayRoundTrip(n: int)
    ensures MonthWeekdayOk(MonthWeekdayFromDays(n))
    ensures MonthWeekdayToDays(MonthWeekdayFromDays(n)) == n
  {
    hide ToDays, FromDays, WeekdayDiff, Weekday;
    var d := FromDays(n);
    DaysRoundTrip(n);
    DaysOfMonth(n, d.year, d.month);
    var first := ToDays(Date(d.year, d.month, 1));
    WeekOfMonth(first, d.day - 1);
    assert WeekdayDiff(Weekday(n), Weekday(first)) + (d.day - 1) / 7 * 7 + 1 == d.day;
  }

  /** The form names the day's month and weekday, and its index counts the weeks back to the first
      such weekday of the month. */
  lemma MonthWeekdayCounts(n: int)
    ensures var w := MonthWeekdayFromDays(n);
            && FromDays(n).year == w.year && FromDays(n).month == w.month && Weekday(n) == w.weekday
            && forall j: nat ::
                 (var d := FromDays(n - 7 * j); d.year == w.year && d.month == w.month) <==> j < w.index
  {
    hide ToDays, FromDays, Weekday;
    var w := MonthWeekdayFromDays(n);
    DaysRoundTrip(n);
    DaysOfMonth(n, w.year, w.month);
    forall j: nat
      ensures (var d := FromDays(n - 7 * j); d.year == w.year && d.month == w.month) <==> j < w.index
    {
      DaysOfMonth(n - 7 * j, w.year, w.month);
    }
  }

  /** Every valid weekday-of-month form is rebuilt from its day number. */
  lemma MonthWeekdayUnique(w: MonthWeekday)
    requires MonthWeekdayOk(w)
    ensures MonthWeekdayFromDays(MonthWeekdayToDays(w)) == w
  {
    hide ToDays, FromDays, WeekdayDiff, Weekday;
    var first := ToDays(Date(w.year, w.month, 1));
    var k := WeekdayDiff(w.weekday, Weekday(first));
    WeekdayDiffForward(w.weekday, Weekday(first));
    WeekdayStep(first, k);
    WeekdayWeeks(first + k, w.index - 1);
    var n := first + k + 7 * (w.index - 1);
    DaysOfMonth(n, w.year, w.month);
    assert (k + 7 * (w.index - 1)) / 7 == w.index - 1;
  }

  // ---------------------------------------------------------------- weekday[last]

  function LastWeekdayToDays(y: int, m: int, wd: int): int
    requires 1 <= m <= 12
  {
    var d := ToDays(Date(y, m, LastDay(y, m)));
    d - WeekdayDiff(Weekday(d), wd)
  }

  lemma LastWeekdayBounds(y: int, m: int, wd: int)
    requires 1 <= m <= 12 && IsWeekday(wd)
    ensures var last := ToDays(Date(y, m, LastDay(y, m)));
            last - 6 <= LastWeekdayToDays(y, m, wd) <= last
    ensures Weekday(LastWeekdayToDays(y, m, wd)) == wd
  {
    hide ToDays, WeekdayDiff, Weekday;
    var last := ToDays(Date(y, m, LastDay(y, m)));
    WeekdayDiffForward(Weekday(last), wd);
    WeekdayStep(last, WeekdayDiff(Weekday(last), wd));
  }

  /** The last weekday of a month lies in the month, on that weekday, and no later day of the
      month falls on it. */
  lemma LastWeekdayIsLast(y: int, m: int, wd: int, n: int)
    requires 1 <= m <= 12 && IsWeekday(wd)
    ensures var r := LastWeekdayToDays(y, m, wd);
            && FromDays(r).year == y && FromDays(r).month == m && Weekday(r) == wd
            && (FromDays(n).year == y && FromDays(n).month == m && Weekday(n) == wd ==> n <= r)
  {
    hide ToDays, FromDays, LastWeekdayToDays, Weekday;
    var r := LastWeekdayToDays(y, m, wd);
    LastWeekdayBounds(y, m, wd);
    DayInMonth(y, m, LastDay(y, m));
    DaysOfMonth(r, y, m);
    DaysOfMonth(n, y, m);
    if Weekday(n) == wd {
      SameWeekday(n, r);
    }
  }

  // ---------------------------------------------------------------- ISO week dates

  /** The Monday that starts ISO week 1 of year `y`: the one after the last Thursday of the
      year before. */
  function IsoYearStart(y: int): int {
    LastWeekdayToDays(y - 1, 12, THURSDAY) + WeekdayDiff(MONDAY, THURSDAY)
  }

  /** The ISO year that formatting prints. */
  function IsoYear(n: int): int {
    var y := FromDays(n + 3).year;
    if n < IsoYearStart(y) then y - 1 else y
  }

  /** The ISO week number that formatting prints. */
  function IsoWeek(n: int): int {
    var y := FromDays(n + 3).year;
    var st := if n < IsoYearStart(y) then IsoYearStart(y - 1) else IsoYearStart(y);
    TruncDiv(n - st, 7) + 1
  }

  /** The day number that parsing builds from an ISO year, a week number and a weekday. */
  function IsoToDays(year: int, week: int, weekday: int): int {
    IsoYearStart(year) + 7 * (week - 1) + WeekdayDiff(weekday, MONDAY)
  }

  function NewYear(y: int): int { ToDays(Date(y, 1, 1)) }

  /** ISO week 1 starts on a Monday and is the week of 4 January. */
  lemma IsoYearStartBounds(y: int)
    ensures NewYear(y) - 3 <= IsoYearStart(y) <= NewYear(y) + 3
    ensures Weekday(IsoYearStart(y)) == MONDAY
  {
    hide ToDays, LastWeekdayToDays, Weekday;
    YearLength(y - 1);
    LastWeekdayBounds(y - 1, 12, THURSDAY);
    WeekdayStep(LastWeekdayToDays(y - 1, 12, THURSDAY), 4);
  }

  /** Formatting finds the ISO year that holds the day. */
  lemma IsoYearHolds(n: int)
    ensures IsoYearStart(IsoYear(n)) <= n < IsoYearStart(IsoYear(n) + 1)
  {
    hide ToDays, FromDays, IsoYearStart;
    var y := FromDays(n + 3).year;
    YearInRange(n + 3, y, y);
    YearLength(y);
    YearLength(y - 1);
    IsoYearStartBounds(y - 1);
    IsoYearStartBounds(y);
    IsoYearStartBounds(y + 1);
  }

  lemma IsoWeekByYear(n: int)
    ensures IsoWeek(n) == (n - IsoYearStart(IsoYear(n))) / 7 + 1
  {
    hide ToDays, FromDays, IsoYearStart;
    IsoYearHolds(n);
  }

  lemma {:induction false} IsoYearStartMonotone(a: int, b: int)
    requires a <= b
    ensures IsoYearStart(a) <= IsoYearStart(b)
    decreases b - a
  {
    if a < b {
      hide IsoYearStart;
      IsoYearStartMonotone(a, b - 1);
      IsoYearLength(b - 1);
    }
  }

  /** An ISO year has 52 or 53 whole weeks. */
  lemma IsoYearLength(y: int)
    ensures var len := IsoYearStart(y + 1) - IsoYearStart(y); len == 52 * 7 || len == 53 * 7
  {
    hide ToDays, IsoYearStart, Weekday, IsLeap;
    YearLength(y);
    IsoYearStartBounds(y);
    IsoYearStartBounds(y + 1);
    SameWeekday(IsoYearStart(y + 1), IsoYearStart(y));
  }

  /** The year and week printed for a day, with its weekday, parse back to that day, and the
      week number is 1 to 53. */
  lemma IsoRoundTrip(n: int)
    ensures IsoToDays(IsoYear(n), IsoWeek(n), Weekday(n)) == n
    ensures 1 <= IsoWeek(n) <= 53
  {
    hide ToDays, FromDays, IsoYearStart, WeekdayDiff, Weekday;
    IsoYearHolds(n);
    var y := IsoYear(n);
    IsoYearLength(y);
    IsoYearStartBounds(y);
    WeekOfMonth(IsoYearStart(y), n - IsoYearStart(y));
  }

  /** Parsing followed by formatting gives back every week date of the ISO calendar. */
  lemma IsoDateUnique(year: int, week: int, weekday: int)
    requires 1 <= week && IsWeekday(weekday)
    requires IsoYearStart(year) + 7 * (week - 1) < IsoYearStart(year + 1)
    ensures var n := IsoToDays(year, week, weekday);
            IsoYear(n) == year && IsoWeek(n) == week && Weekday(n) == weekday
  {
    hide ToDays, FromDays, IsoYearStart, IsoYear, WeekdayDiff, Weekday;
    var start := IsoYearStart(year);
    var k := WeekdayDiff(weekday, MONDAY);
    var n := start + 7 * (week - 1) + k;
    WeekdayDiffForward(weekday, MONDAY);
    IsoYearStartBounds(year);
    IsoYearLength(year);
    WeekdayWeeks(start, week - 1);
    WeekdayStep(start + 7 * (week - 1), k);
    IsoYearHolds(n);
    IsoWeekByYear(n);
    if IsoYear(n) < year {
      IsoYearStartMonotone(IsoYear(n) + 1, year);
    } else if IsoYear(n) > year {
      IsoYearStartMonotone(year + 1, IsoYear(n));
    }
  }

  /** The Thursday of a day's week, weeks starting on Monday. */
  function ThursdayOf(n: int): int { n - WeekdayDiff(Weekday(n), MONDAY) + 3 }

  /** Section 4.1.4 of ISO 8601: a week belongs to the year of its Thursday, and is numbered by
      the Thursdays of that year. */
  lemma IsoByThursday(n: int)
    ensures var t := ThursdayOf(n);
            Weekday(t) == THURSDAY && IsoYear(n) == FromDays(t).year
            && IsoWeek(n) == (t - NewYear(IsoYear(n))) / 7 + 1
  {
    hide ToDays, FromDays, IsoYearStart, IsoYear, IsoWeek, WeekdayDiff, Weekday;
    var t := ThursdayOf(n);
    var y := IsoYear(n);
    WeekdayDiffForward(Weekday(n), MONDAY);
    WeekdayStep(n, WeekdayDiff(Weekday(n), MONDAY));
    WeekdayStep(t - 3, 3);
    IsoYearHolds(n);
    IsoWeekByYear(n);
    IsoYearStartBounds(y);
    IsoYearStartBounds(y + 1);
    SameWeekday(t - 3, IsoYearStart(y));
    SameWeekday(IsoYearStart(y + 1), t - 3);
    YearLength(y);
    YearInRange(t, y, y);
  }

  lemma KnownDates()
    ensures ToDays(Date(1970, 1, 1)) == 0 && ToDays(Date(2016, 1, 3)) == 16803
    ensures FromDays(3) == Date(1970, 1, 4) && FromDays(2) == Date(1970, 1, 3) && FromDays(16806) == Date(2016, 1, 6)
  {
    hide FromDays, ToDays;
    DateRoundTrip(Date(1970, 1, 4));
    DateRoundTrip(Date(1970, 1, 3));
    DateRoundTrip(Date(2016, 1, 6));
    KnownDayNumbers();
  }

  lemma KnownYearEnds()
    ensures ToDays(Date(1969, 12, 31)) == -1 && ToDays(Date(2014, 12, 31)) == 16435
    ensures ToDays(Date(2015, 12, 31)) == 16800
  {
  }

  lemma KnownDayNumbers()
    ensures ToDays(Date(1970, 1, 1)) == 0 && ToDays(Date(1970, 1, 3)) == 2 && ToDays(Date(1970, 1, 4)) == 3
    ensures ToDays(Date(2016, 1, 3)) == 16803 && ToDays(Date(2016, 1, 6)) == 16806
  {
    hide ToDays, IsLeap;
    KnownYearEnds();
    YearLength(1969);
    YearLength(2015);
    DayInMonth(1970, 1, 3);
    DayInMonth(1970, 1, 4);
    DayInMonth(2016, 1, 3);
    DayInMonth(2016, 1, 6);
  }

  lemma KnownYearStarts()
    ensures IsoYearStart(1970) == -3 && IsoYearStart(2015) == 16433 && IsoYearStart(2016) == 16804
  {
    hide ToDays, IsLeap;
    KnownYearEnds();
  }

  /** 1970-01-01 is the Thursday of week 1 of 1970, and the day before the Wednesday of the same
      week; 2016-01-03 is the Sunday of week 53 of 2015. */
  lemma KnownWeekDates()
    ensures ToDays(Date(1970, 1, 1)) == 0 && IsoYear(0) == 1970 && IsoWeek(0) == 1 && Weekday(0) == 4
    ensures IsoYear(-1) == 1970 && IsoWeek(-1) == 1 && Weekday(-1) == 3
    ensures ToDays(Date(2016, 1, 3)) == 16803 && IsoYear(16803) == 2015 && IsoWeek(16803) == 53 && Weekday(16803) == 0
  {
    hide ToDays, FromDays, IsoYearStart;
    KnownDates();
    KnownYearStarts();
  }
}
