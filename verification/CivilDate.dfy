/** Proleptic Gregorian dates and day numbers (days since 1970-01-01), after the conversion
    algorithms of src/utils/date.h. Integers are unbounded. */
module CivilDate {
  import opened Arithmetic

  datatype Date = Date(year: int, month: int, day: int)

  predicate IsLeap(y: int) {
    y % 4 == 0 && (y % 100 != 0 || y % 400 == 0)
  }

  /** The number of days in a month. */
  function LastDay(y: int, m: int): int
    requires 1 <= m <= 12
  {
    if m == 2 then (if IsLeap(y) then 29 else 28)
    else if m == 4 || m == 6 || m == 9 || m == 11 then 30
    else 31
  }

  /** A date of the calendar (the range of the year's storage type is left out). */
  predicate Ok(d: Date) {
    1 <= d.month <= 12 && 1 <= d.day <= LastDay(d.year, d.month)
  }

  /** Chronological order of dates: year, then month, then day. */
  predicate Earlier(a: Date, b: Date) {
    || a.year < b.year
    || (a.year == b.year && a.month < b.month)
    || (a.year == b.year && a.month == b.month && a.day < b.day)
  }

  /** Day number of a date, by 400-year eras of years that start in March. */
  function ToDays(date: Date): int {
    var y := date.year - (if date.month <= 2 then 1 else 0);
    var era := TruncDiv(if y >= 0 then y else y - 399, 400);
    var yoe := y - era * 400;
    var doy := (153 * (if date.month > 2 then date.month - 3 else date.month + 9) + 2) / 5 + date.day - 1;
    var doe := yoe * 365 + yoe / 4 - yoe / 100 + doy;
    era * 146097 + doe - 719468
  }

  /** Date of a day number: the era, then the day within it. */
  function FromDays(n: int): Date {
    var z := n + 719468;
    var era := TruncDiv(if z >= 0 then z else z - 146096, 146097);
    FromDayOfEra(era, z - era * 146097)
  }

  function FromDayOfEra(era: int, doe: int): Date {
    var yoe := YearOfEra(doe);
    FromDayOfYear(yoe + era * 400, doe - (365 * yoe + yoe / 4 - yoe / 100))
  }

  function YearOfEra(doe: int): int {
    (doe - doe / 1460 + doe / 36524 - doe / 146096) / 365
  }

  /** The date of day `doy` (from 0) of the year that starts in March of year `y`. */
  function FromDayOfYear(y: int, doy: int): Date {
    var mp := (5 * doy + 2) / 153;
    var d := doy - (153 * mp + 2) / 5 + 1;
    var m := if mp < 10 then mp + 3 else mp - 9;
    Date(y + (if m <= 2 then 1 else 0), m, d)
  }

  /** The calendar's own successor rule: the next day of the month, else the first of the next
      month, else New Year. It is stated without day numbers. */
  function NextDay(d: Date): Date
    requires Ok(d)
  {
    if d.day < LastDay(d.year, d.month) then Date(d.year, d.month, d.day + 1)
    else if d.month < 12 then Date(d.year, d.month + 1, 1)
    else Date(d.year + 1, 1, 1)
  }

  // ---------------------------------------------------------------- March-based years

  /** Days before 1 March of year y of one era (the two-century corrections included). */
  function YearStart(yoe: int): int {
    365 * yoe + yoe / 4 - yoe / 100
  }

  function MonthStart(mp: int): int {
    (153 * mp + 2) / 5
  }

  lemma EraIsFloor(y: int)
    ensures TruncDiv(if y >= 0 then y else y - 399, 400) == y / 400
    ensures TruncDiv(if y >= 0 then y else y - 146096, 146097) == y / 146097
  {
  }

  /** The days of an era as centuries, four-year cycles, years and days within the year. */
  lemma YearStartOfParts(c: int, q: int, y: int)
    requires 0 <= c < 4 && 0 <= q < 25 && 0 <= y < 4
    ensures YearStart(100 * c + 4 * q + y) == 36524 * c + 1461 * q + 365 * y
  {
  }

  /** The formula's correction terms cancel the leap days before the century's four-year cycle. */
  lemma YearFormulaOfParts(c: int, q: int, s: int)
    requires 0 <= c < 4 && 0 <= q < 25 && 0 <= s <= 1460
    requires 1461 * q + s == 36524 ==> c == 3
    requires 1461 * q + s <= 36524
    ensures YearOfEra(36524 * c + 1461 * q + s)
            == 100 * c + 4 * q + (if s == 1460 then 3 else s / 365)
  {
    var doe := 36524 * c + 1461 * q + s;
    assert doe / 36524 - doe / 146096 == c;
    var e := (24 * c + q + s) / 1460;
    assert doe == 1460 * (25 * c + q) + (24 * c + q + s);
    assert doe / 1460 == 25 * c + q + e;
    assert doe - doe / 1460 + c == 365 * (100 * c + 4 * q) + (s - e);
    assert e == 0 || (e == 1 && s >= 1364);
  }

  lemma PartsOfEra(doe: int) returns (c: int, q: int, s: int)
    requires 0 <= doe < 146097
    ensures 0 <= c < 4 && 0 <= q < 25 && 0 <= s <= 1460
    ensures doe == 36524 * c + 1461 * q + s
    ensures 1461 * q + s <= 36524 && (1461 * q + s == 36524 ==> c == 3)
  {
    c := if doe == 146096 then 3 else doe / 36524;
    q := (doe - 36524 * c) / 1461;
    s := doe - 36524 * c - 1461 * q;
  }

  lemma LastDayOfCycle(c: int, q: int)
    requires 0 <= c < 4 && 0 <= q < 25 && (q == 24 ==> c == 3)
    ensures IsLeap(100 * c + 4 * q + 3 + 1)
  {
  }

  /** The year-of-era formula picks the March year that holds the day of the era. */
  lemma YearHoldsDay(doe: int)
    requires 0 <= doe < 146097
    ensures 0 <= YearOfEra(doe) < 400
    ensures 0 <= doe - YearStart(YearOfEra(doe)) < 365 + (if IsLeap(YearOfEra(doe) + 1) then 1 else 0)
  {
    var c, q, s := PartsOfEra(doe);
    var y := if s == 1460 then 3 else s / 365;
    YearFormulaOfParts(c, q, s);
    YearStartOfParts(c, q, y);
    if s == 1460 {
      LastDayOfCycle(c, q);
    }
  }

  /** A day of a March year lies in the month that the month formula picks. */
  lemma MonthOfYear(doy: int)
    requires 0 <= doy < 366
    ensures var mp := (5 * doy + 2) / 153;
            0 <= mp < 12 && MonthStart(mp) <= doy && (mp < 11 ==> doy < MonthStart(mp + 1))
  {
  }

  /** The days before 1 March of year `y`, counted over all eras. */
  function EraDays(y: int): int {
    (y / 400) * 146097 + YearStart(y % 400)
  }

  lemma LeapByFour(k: int, r: int)
    ensures (400 * k + r) % 4 == r % 4
  {
    assert 400 * k + r == 4 * (100 * k + r / 4) + r % 4;
  }

  lemma LeapByHundred(k: int, r: int)
    ensures (400 * k + r) % 100 == r % 100
  {
    assert 400 * k + r == 100 * (4 * k + r / 100) + r % 100;
  }

  lemma LeapByEra(k: int, r: int)
    ensures (400 * k + r) % 400 == r % 400
  {
    assert 400 * k + r == 400 * (k + r / 400) + r % 400;
  }

  /** Leap years repeat with the era. */
  lemma LeapInEra(y: int)
    ensures IsLeap(y + 1) == IsLeap(y % 400 + 1)
  {
    var k, r := y / 400, y % 400 + 1;
    assert y + 1 == 400 * k + r;
    LeapByFour(k, r);
    LeapByHundred(k, r);
    LeapByEra(k, r);
  }

  lemma YearStartStep(yoe: int)
    requires 0 <= yoe < 399
    ensures YearStart(yoe + 1) == YearStart(yoe) + 365 + (if IsLeap(yoe + 1) then 1 else 0)
  {
  }

  lemma EraDaysStep(y: int)
    ensures EraDays(y + 1) == EraDays(y) + 365 + (if IsLeap(y + 1) then 1 else 0)
  {
    LeapInEra(y);
    if y % 400 == 399 {
      assert (y + 1) / 400 == y / 400 + 1 && (y + 1) % 400 == 0;
    } else {
      assert (y + 1) / 400 == y / 400 && (y + 1) % 400 == y % 400 + 1;
      YearStartStep(y % 400);
    }
  }

  lemma {:induction false} EraDaysMonotone(a: int, b: int)
    requires a <= b
    ensures EraDays(a) + 365 * (b - a) <= EraDays(b)
    decreases b - a
  {
    hide EraDays, IsLeap;
    if a < b {
      EraDaysMonotone(a, b - 1);
      EraDaysStep(b - 1);
    }
  }

  /** A date seen as March year, month since March and day. */
  function MarchYear(d: Date): int { d.year - (if d.month <= 2 then 1 else 0) }

  function MarchMonth(d: Date): int { if d.month > 2 then d.month - 3 else d.month + 9 }

  /** Days from 1 March of year 0 to the date. */
  function MarchDay(d: Date): int {
    EraDays(MarchYear(d)) + MonthStart(MarchMonth(d)) + d.day - 1
  }

  lemma ToDaysParts(d: Date)
    ensures ToDays(d) == MarchDay(d) - 719468
  {
    EraIsFloor(MarchYear(d));
  }

  lemma DayOfYearBounds(d: Date)
    requires Ok(d)
    ensures 0 <= MarchMonth(d) < 12
    ensures var doy := MonthStart(MarchMonth(d)) + d.day - 1;
            0 <= doy < 365 + (if IsLeap(MarchYear(d) + 1) then 1 else 0) &&
            (MarchMonth(d) < 11 ==> doy < MonthStart(MarchMonth(d) + 1))
  {
  }

  // ---------------------------------------------------------------- main results

  lemma EraYear(era: int, yoe: int)
    requires 0 <= yoe < 400
    ensures (yoe + era * 400) / 400 == era && (yoe + era * 400) % 400 == yoe
    ensures IsLeap(yoe + era * 400 + 1) == IsLeap(yoe + 1)
    ensures EraDays(yoe + era * 400) == era * 146097 + YearStart(yoe)
  {
    LeapInEra(yoe + era * 400);
  }

  /** The date built from a day of a March year is valid and has that day, month and year. */
  lemma DateOfMarchDay(y: int, doy: int)
    requires 0 <= doy < 365 + (if IsLeap(y + 1) then 1 else 0)
    ensures var d := FromDayOfYear(y, doy);
            Ok(d) && MarchYear(d) == y && MonthStart(MarchMonth(d)) + d.day - 1 == doy
  {
    MonthOfYear(doy);
  }

  lemma DateOfYearAndDay(era: int, yoe: int, doy: int)
    requires 0 <= yoe < 400 && 0 <= doy < 365 + (if IsLeap(yoe + 1) then 1 else 0)
    ensures var d := FromDayOfYear(yoe + era * 400, doy);
            Ok(d) && MarchDay(d) == era * 146097 + YearStart(yoe) + doy
  {
    EraYear(era, yoe);
    DateOfMarchDay(yoe + era * 400, doy);
  }

  lemma DateOfDayOfEra(era: int, doe: int)
    requires 0 <= doe < 146097
    ensures Ok(FromDayOfEra(era, doe)) && MarchDay(FromDayOfEra(era, doe)) == era * 146097 + doe
  {
    hide YearOfEra, MarchDay, FromDayOfYear;
    YearHoldsDay(doe);
    var yoe := YearOfEra(doe);
    var doy := doe - YearStart(yoe);
    assert FromDayOfEra(era, doe) == FromDayOfYear(yoe + era * 400, doy);
    DateOfYearAndDay(era, yoe, doy);
  }

  lemma FromDaysByEra(n: int)
    ensures FromDays(n) == FromDayOfEra((n + 719468) / 146097, (n + 719468) % 146097)
  {
    EraIsFloor(n + 719468);
  }

  /** Every day number is the number of the date it is converted to, and that date is valid. */
  lemma DaysRoundTrip(n: int)
    ensures Ok(FromDays(n))
    ensures ToDays(FromDays(n)) == n
  {
    hide ToDays, FromDays, FromDayOfEra, MarchDay;
    FromDaysByEra(n);
    DateOfDayOfEra((n + 719468) / 146097, (n + 719468) % 146097);
    ToDaysParts(FromDays(n));
  }

  lemma LaterYear(y: int, doy: int, z: int)
    requires y < z && doy < 365 + (if IsLeap(y + 1) then 1 else 0)
    ensures EraDays(y) + doy < EraDays(z)
  {
    EraDaysStep(y);
    EraDaysMonotone(y + 1, z);
  }

  lemma {:induction false} MonthStartMonotone(m: int, n: int)
    requires 0 <= m <= n
    ensures MonthStart(m) <= MonthStart(n)
    decreases n
  {
    if m < n {
      MonthStartMonotone(m, n - 1);
    }
  }

  lemma MarchDayIncreasing(a: Date, b: Date)
    requires Ok(a) && Ok(b) && Earlier(a, b)
    ensures MarchDay(a) < MarchDay(b)
  {
    hide EraDays, MonthStart, IsLeap;
    DayOfYearBounds(a);
    DayOfYearBounds(b);
    if MarchYear(a) < MarchYear(b) {
      LaterYear(MarchYear(a), MonthStart(MarchMonth(a)) + a.day - 1, MarchYear(b));
    } else if MarchMonth(a) < MarchMonth(b) {
      MonthStartMonotone(MarchMonth(a) + 1, MarchMonth(b));
    }
  }

  /** Day numbers order dates as the calendar does. */
  lemma ToDaysIncreasing(a: Date, b: Date)
    requires Ok(a) && Ok(b) && Earlier(a, b)
    ensures ToDays(a) < ToDays(b)
  {
    hide ToDays, MarchDay;
    MarchDayIncreasing(a, b);
    ToDaysParts(a);
    ToDaysParts(b);
  }

  /** Every valid date is the date of its day number. */
  lemma DateRoundTrip(d: Date)
    requires Ok(d)
    ensures FromDays(ToDays(d)) == d
  {
    hide ToDays, FromDays;
    var e := FromDays(ToDays(d));
    DaysRoundTrip(ToDays(d));
    if Earlier(d, e) {
      ToDaysIncreasing(d, e);
    } else if Earlier(e, d) {
      ToDaysIncreasing(e, d);
    }
  }

  lemma MonthLength(d: Date)
    requires Ok(d) && d.month != 2
    ensures MonthStart(MarchMonth(d) + 1) == MonthStart(MarchMonth(d)) + LastDay(d.year, d.month)
  {
  }

  lemma NextMarchDay(d: Date)
    requires Ok(d)
    ensures Ok(NextDay(d)) && MarchDay(NextDay(d)) == MarchDay(d) + 1
  {
    hide EraDays;
    if d.day < LastDay(d.year, d.month) {
    } else if d.month == 2 {
      assert MonthStart(11) == 337;
      EraDaysStep(MarchYear(d));
    } else {
      MonthLength(d);
    }
  }

  /** Day numbers follow the calendar's successor rule, so from 1970-01-01 (day 0) they count
      the days of the Gregorian calendar. */
  lemma CountsDays(d: Date)
    requires Ok(d)
    ensures Ok(NextDay(d))
    ensures ToDays(NextDay(d)) == ToDays(d) + 1
  {
    hide ToDays, MarchDay;
    ToDaysParts(d);
    ToDaysParts(NextDay(d));
    NextMarchDay(d);
  }

  lemma EpochIsDayZero()
    ensures ToDays(Date(1970, 1, 1)) == 0
  {
  }

  lemma DayInMonth(y: int, m: int, d: int)
    ensures ToDays(Date(y, m, d)) == ToDays(Date(y, m, 1)) + d - 1
  {
    hide ToDays, EraDays, MonthStart;
    ToDaysParts(Date(y, m, d));
    ToDaysParts(Date(y, m, 1));
  }

  /** The day numbers of a month are exactly those from its first day to its last. */
  lemma DaysOfMonth(n: int, y: int, m: int)
    requires 1 <= m <= 12
    ensures var first := ToDays(Date(y, m, 1));
            first <= n < first + LastDay(y, m) <==> FromDays(n).year == y && FromDays(n).month == m
    ensures FromDays(n).year == y && FromDays(n).month == m ==> n == ToDays(Date(y, m, 1)) + FromDays(n).day - 1
  {
    hide ToDays, FromDays;
    var first := ToDays(Date(y, m, 1));
    if first <= n < first + LastDay(y, m) {
      DayInMonth(y, m, n - first + 1);
      DateRoundTrip(Date(y, m, n - first + 1));
    }
    if FromDays(n).year == y && FromDays(n).month == m {
      DaysRoundTrip(n);
      DayInMonth(y, m, FromDays(n).day);
    }
  }

  lemma YearLength(y: int)
    ensures ToDays(Date(y + 1, 1, 1)) == ToDays(Date(y, 12, 31)) + 1
    ensures ToDays(Date(y, 12, 31)) == ToDays(Date(y, 1, 1)) + (if IsLeap(y) then 365 else 364)
  {
    hide ToDays, EraDays;
    CountsDays(Date(y, 12, 31));
    ToDaysParts(Date(y, 1, 1));
    ToDaysParts(Date(y, 12, 31));
    EraDaysStep(y - 1);
  }

  /** A day number's year fits the 16-bit year that date.h stores (and calls valid) exactly
      when the day number lies between the first and the last such day. */
  lemma YearInRange(n: int, lo: int, hi: int)
    requires lo <= hi
    ensures lo <= FromDays(n).year <= hi <==> ToDays(Date(lo, 1, 1)) <= n <= ToDays(Date(hi, 12, 31))
  {
    YearAtLeast(n, lo);
    YearAtMost(n, hi);
  }

  lemma YearAtLeast(n: int, lo: int)
    ensures lo <= FromDays(n).year <==> ToDays(Date(lo, 1, 1)) <= n
  {
    hide ToDays, FromDays;
    DaysRoundTrip(n);
    var d, first := FromDays(n), Date(lo, 1, 1);
    if Earlier(d, first) {
      ToDaysIncreasing(d, first);
    } else if Earlier(first, d) {
      ToDaysIncreasing(first, d);
    }
  }

  lemma YearAtMost(n: int, hi: int)
    ensures FromDays(n).year <= hi <==> n <= ToDays(Date(hi, 12, 31))
  {
    hide ToDays, FromDays;
    DaysRoundTrip(n);
    var d, final := FromDays(n), Date(hi, 12, 31);
    if Earlier(d, final) {
      ToDaysIncreasing(d, final);
    } else if Earlier(final, d) {
      ToDaysIncreasing(final, d);
    }
  }
}
