/** The day interval of an instant (src/utils/getDayIntervals.ts), over the
    calendar arithmetic of ECMAScript's Date (section 21.4.1 of ECMA-262). An
    instant is integer milliseconds since 1970-01-01T00:00Z. The process time
    zone is a fixed `offset`: milliseconds east of UTC, with no daylight
    saving, so local time is `t + offset`. */
module DayIntervals {

  const MsPerDay := 86400000

  /** The day number of an instant: the floor of `t / MsPerDay`, which is
      what Dafny's division computes for a positive divisor. */
  function Day(t: int): int {
    t / MsPerDay
  }

  /** An instant lies in its day. */
  lemma DayBounds(t: int)
    ensures Day(t) * MsPerDay <= t < Day(t) * MsPerDay + MsPerDay
  {
  }

  lemma DayMonotone(t1: int, t2: int)
    requires t1 <= t2
    ensures Day(t1) <= Day(t2)
  {
    DayBounds(t1);
    DayBounds(t2);
  }

  /** The day number of a midnight, divided back. */
  lemma DayOfMidnight(d: int)
    ensures Day(d * MsPerDay) == d
    ensures (d * MsPerDay) % MsPerDay == 0
  {
  }

  // ---------------------------------------------------------------------
  // Years

  predicate IsLeapYear(y: int) {
    y % 4 == 0 && (y % 100 != 0 || y % 400 == 0)
  }

  function DaysInYear(y: int): int {
    if IsLeapYear(y) then 366 else 365
  }

  /** The day number of the first day of year `y`. */
  function DayFromYear(y: int): int {
    365 * (y - 1970) + (y - 1969) / 4 - (y - 1901) / 100 + (y - 1601) / 400
  }

  /** Consecutive years start one year-length apart. */
  lemma DayFromYearStep(y: int)
    ensures DayFromYear(y + 1) == DayFromYear(y) + DaysInYear(y)
  {
    FloorStep4(y);
    FloorStep100(y);
    FloorStep400(y);
    var leapDays := (y + 1 - 1969) / 4 - (y - 1969) / 4 - ((y + 1 - 1901) / 100 - (y - 1901) / 100) + ((y + 1 - 1601) / 400 - (y - 1601) / 400);
    LeapDivisors(y);
    assert leapDays == if IsLeapYear(y) then 1 else 0;
  }

  /** A multiple of 400 is a multiple of 100, and a multiple of 100 is a
      multiple of 4. */
  lemma LeapDivisors(y: int)
    ensures y % 400 == 0 ==> y % 100 == 0
    ensures y % 100 == 0 ==> y % 4 == 0
  {
    if y % 400 == 0 {
      MultipleMod(4 * (y / 400), 100);
    }
    if y % 100 == 0 {
      MultipleMod(25 * (y / 100), 4);
    }
  }

  lemma MultipleMod(k: int, n: int)
    requires n == 4 || n == 100
    ensures (n * k) % n == 0
  {
  }

  /** The leap-day counts of DayFromYear grow by one exactly at multiples of
      4, 100 and 400. */
  lemma FloorStep4(y: int)
    ensures (y + 1 - 1969) / 4 - (y - 1969) / 4 == if y % 4 == 0 then 1 else 0
  {
  }

  lemma FloorStep100(y: int)
    ensures (y + 1 - 1901) / 100 - (y - 1901) / 100 == if y % 100 == 0 then 1 else 0
  {
  }

  lemma FloorStep400(y: int)
    ensures (y + 1 - 1601) / 400 - (y - 1601) / 400 == if y % 400 == 0 then 1 else 0
  {
  }

  /** Later years start later: a year's days all come before the next
      year's. */
  lemma {:induction false} DayFromYearMonotone(y1: int, y2: int)
    requires y1 < y2
    ensures DayFromYear(y1 + 1) <= DayFromYear(y2)
    decreases y2 - y1
  {
    if y1 + 1 < y2 {
      DayFromYearMonotone(y1 + 1, y2);
      DayFromYearStep(y1 + 1);
    }
  }

  function YearUp(y: int, d: int): (r: int)
    requires DayFromYear(y) <= d
    ensures DayFromYear(r) <= d < DayFromYear(r + 1)
    decreases d - DayFromYear(y)
  {
    DayFromYearStep(y);
    if d < DayFromYear(y + 1) then y else YearUp(y + 1, d)
  }

  function YearDown(y: int, d: int): (r: int)
    requires d < DayFromYear(y + 1)
    ensures DayFromYear(r) <= d < DayFromYear(r + 1)
    decreases DayFromYear(y + 1) - d
  {
    DayFromYearStep(y);
    if DayFromYear(y) <= d then y else YearDown(y - 1, d)
  }

  /** The year containing day `d`. */
  function YearFromDay(d: int): (y: int)
    ensures DayFromYear(y) <= d < DayFromYear(y + 1)
  {
    if d >= 0 then YearUp(1970, d) else YearDown(1969, d)
  }

  /** That year is the only one containing day `d`. */
  lemma YearFromDayUnique(d: int, y: int)
    requires DayFromYear(y) <= d < DayFromYear(y + 1)
    ensures YearFromDay(d) == y
  {
    var z := YearFromDay(d);
    if z < y {
      DayFromYearMonotone(z, y);
    } else if y < z {
      DayFromYearMonotone(y, z);
    }
  }

  function YearFromTime(t: int): int {
    YearFromDay(Day(t))
  }

  function DayWithinYear(t: int): (n: int)
    ensures 0 <= n < DaysInYear(YearFromTime(t))
  {
    DayFromYearStep(YearFromTime(t));
    Day(t) - DayFromYear(YearFromTime(t))
  }

  predicate InLeapYear(t: int) {
    IsLeapYear(YearFromTime(t))
  }

  // ---------------------------------------------------------------------
  // Months and dates

  /** Days of the year before month `m` (0 = January; 12 = the whole year). */
  function DaysBeforeMonth(m: int, leap: bool): int
    requires 0 <= m <= 12
  {
    [0, 31, 59, 90, 120, 151, 181, 212, 243, 273, 304, 334, 365][m] + if leap && m >= 2 then 1 else 0
  }

  /** The month holding day `n` of the year (0-based). */
  function MonthFromDay(n: int, leap: bool): (m: int)
    requires 0 <= n < if leap then 366 else 365
    ensures 0 <= m < 12 && DaysBeforeMonth(m, leap) <= n < DaysBeforeMonth(m + 1, leap)
  {
    var l := if leap then 1 else 0;
    if n < 31 then 0
    else if n < 59 + l then 1
    else if n < 90 + l then 2
    else if n < 120 + l then 3
    else if n < 151 + l then 4
    else if n < 181 + l then 5
    else if n < 212 + l then 6
    else if n < 243 + l then 7
    else if n < 273 + l then 8
    else if n < 304 + l then 9
    else if n < 334 + l then 10
    else 11
  }

  function MonthFromTime(t: int): (m: int)
    ensures 0 <= m < 12
  {
    MonthFromDay(DayWithinYear(t), InLeapYear(t))
  }

  function DaysInMonth(y: int, m: int): int
    requires 0 <= m < 12
  {
    DaysBeforeMonth(m + 1, IsLeapYear(y)) - DaysBeforeMonth(m, IsLeapYear(y))
  }

  /** The day of the month, from 1. */
  function DateFromTime(t: int): (d: int)
    ensures 1 <= d <= DaysInMonth(YearFromTime(t), MonthFromTime(t))
  {
    DayWithinYear(t) - DaysBeforeMonth(MonthFromTime(t), InLeapYear(t)) + 1
  }

  /** MakeDay: the day number of a year, month and date, where a month past
      11 or below 0 moves into another year and a date past the month's end
      runs into the following months. */
  function MakeDay(year: int, month: int, date: int): int {
    var ym := year + month / 12;
    var mn := month % 12;
    DayFromYear(ym) + DaysBeforeMonth(mn, IsLeapYear(ym)) + date - 1
  }

  /** One date later is one day later, whatever the month. */
  lemma MakeDayNext(y: int, m: int, d: int)
    ensures MakeDay(y, m, d + 1) == MakeDay(y, m, d) + 1
    ensures MakeDay(y, m, d + 1) * MsPerDay == MakeDay(y, m, d) * MsPerDay + MsPerDay
  {
  }

  /** Taking an instant apart and putting its year, month and date back
      together gives its day. */
  lemma MakeDayOfTime(t: int)
    ensures MakeDay(YearFromTime(t), MonthFromTime(t), DateFromTime(t)) == Day(t)
  {
  }

  /** The month of a day of the year is the only one whose span holds it. */
  lemma MonthFromDayUnique(n: int, leap: bool, m: int)
    requires 0 <= m < 12 && DaysBeforeMonth(m, leap) <= n < DaysBeforeMonth(m + 1, leap)
    ensures MonthFromDay(n, leap) == m
  {
  }

  /** Reading year, month and date back from the first instant of a day gives
      the components it was made from. */
  lemma TimeOfMakeDay(y: int, m: int, d: int)
    requires 0 <= m < 12 && 1 <= d <= DaysInMonth(y, m)
    ensures YearFromTime(MakeDay(y, m, d) * MsPerDay) == y
    ensures MonthFromTime(MakeDay(y, m, d) * MsPerDay) == m
    ensures DateFromTime(MakeDay(y, m, d) * MsPerDay) == d
  {
    var leap := IsLeapYear(y);
    var n := DaysBeforeMonth(m, leap) + d - 1;
    var day := MakeDay(y, m, d);
    assert day == DayFromYear(y) + n;
    var t := day * MsPerDay;
    DayOfMidnight(day);
    DayFromYearStep(y);
    assert DaysBeforeMonth(m + 1, leap) <= DaysBeforeMonth(12, leap);
    YearFromDayUnique(day, y);
    assert YearFromTime(t) == y;
    assert DayWithinYear(t) == n;
    MonthFromDayUnique(n, leap, m);
  }

  /** The date after a month's last is the first of the next month, and the
      date after 31 December is 1 January of the next year. */
  lemma MonthRollover(y: int, m: int)
    requires 0 <= m < 12
    ensures MakeDay(y, m, DaysInMonth(y, m) + 1) == MakeDay(y, m + 1, 1)
  {
    DayFromYearStep(y);
  }

  /** Years 0 to 99 passed to Date.UTC or the Date constructor mean 1900 to
      1999. */
  function MakeFullYear(y: int): int {
    if 0 <= y <= 99 then 1900 + y else y
  }

  /** `Date.UTC(y, m, d, 0, 0, 0, 0)`. */
  function DateUtc(y: int, m: int, d: int): int {
    MakeDay(MakeFullYear(y), m, d) * MsPerDay
  }

  /** `new Date(y, m, d, 0, 0, 0, 0)`: the components read as local time. */
  function LocalDate(y: int, m: int, d: int, offset: int): int {
    DateUtc(y, m, d) - offset
  }

  /** `getFullYear()`: the year of the local time. */
  function FullYear(t: int, offset: int): int {
    YearFromTime(t + offset)
  }

  // ---------------------------------------------------------------------
  // getDayIntervals

  datatype Interval = Interval(start: int, end: int)

  /** getDayIntervals as written: the local year with the UTC month and date,
      `startDate` through Date.UTC and `endDate` through the local-time
      constructor with the date one higher. */
  function GetDayIntervals(t: int, offset: int): (r: Interval)
    ensures r.start % MsPerDay == 0
    ensures r.end == r.start + MsPerDay - offset
  {
    var y, m, d := FullYear(t, offset), MonthFromTime(t), DateFromTime(t);
    MakeDayNext(MakeFullYear(y), m, d);
    DayOfMidnight(MakeDay(MakeFullYear(y), m, d));
    Interval(DateUtc(y, m, d), LocalDate(y, m, d + 1, offset))
  }

  /** The local and the UTC year of `t` are the same. */
  predicate YearsAgree(t: int, offset: int) {
    FullYear(t, offset) == YearFromTime(t)
  }

  /** `t` does not fall in the years 0 to 99, which Date.UTC would move
      into the twentieth century. */
  predicate OutsideTwoDigitYears(t: int) {
    !(0 <= YearFromTime(t) <= 99)
  }

  /** When the years agree, startDate is the UTC midnight that begins the day
      of `t`. */
  lemma StartDateIsUtcMidnight(t: int, offset: int)
    requires YearsAgree(t, offset) && OutsideTwoDigitYears(t)
    ensures GetDayIntervals(t, offset).start == Day(t) * MsPerDay
    ensures GetDayIntervals(t, offset).start <= t < GetDayIntervals(t, offset).start + MsPerDay
  {
    MakeDayOfTime(t);
    DayBounds(t);
  }

  /** In UTC, endDate is the next UTC midnight: one day after startDate. */
  lemma EndDateIsNextMidnight(t: int)
    requires OutsideTwoDigitYears(t)
    ensures GetDayIntervals(t, 0).end == GetDayIntervals(t, 0).start + MsPerDay
    ensures GetDayIntervals(t, 0).end == (Day(t) + 1) * MsPerDay
  {
    StartDateIsUtcMidnight(t, 0);
  }

  /** The interval of an instant whose UTC day `d` lies in 1970, in a UTC
      process: from the midnight that begins day `d` to the one that begins
      day `d + 1`. */
  lemma IntervalIn1970(t: int, d: int)
    requires 0 <= d < 365 && Day(t) == d
    ensures GetDayIntervals(t, 0) == Interval(d * MsPerDay, (d + 1) * MsPerDay)
  {
    YearFromDayUnique(d, 1970);
    EndDateIsNextMidnight(t);
  }

  /** Noon on 31 January 1970: the interval runs to 1 February 00:00. */
  lemma EndOfJanuary()
    ensures GetDayIntervals(30 * MsPerDay + 43200000, 0) == Interval(30 * MsPerDay, 31 * MsPerDay)
    ensures YearFromTime(31 * MsPerDay) == 1970
    ensures MonthFromTime(31 * MsPerDay) == 1 && DateFromTime(31 * MsPerDay) == 1
  {
    IntervalIn1970(30 * MsPerDay + 43200000, 30);
    assert MakeDay(1970, 1, 1) == 31;
    TimeOfMakeDay(1970, 1, 1);
  }

  /** Noon on 31 December 1970: the interval runs to 1 January 1971. */
  lemma EndOfYear()
    ensures GetDayIntervals(364 * MsPerDay + 43200000, 0) == Interval(364 * MsPerDay, 365 * MsPerDay)
    ensures YearFromTime(365 * MsPerDay) == 1971
    ensures MonthFromTime(365 * MsPerDay) == 0 && DateFromTime(365 * MsPerDay) == 1
  {
    IntervalIn1970(364 * MsPerDay + 43200000, 364);
    assert MakeDay(1971, 0, 1) == 365;
    TimeOfMakeDay(1971, 0, 1);
  }

  /** startDate never moves backwards as the instant moves forwards. */
  lemma StartDateMonotone(t1: int, t2: int, offset: int)
    requires t1 <= t2
    requires YearsAgree(t1, offset) && OutsideTwoDigitYears(t1)
    requires YearsAgree(t2, offset) && OutsideTwoDigitYears(t2)
    ensures GetDayIntervals(t1, offset).start <= GetDayIntervals(t2, offset).start
  {
    StartDateIsUtcMidnight(t1, offset);
    StartDateIsUtcMidnight(t2, offset);
    DayMonotone(t1, t2);
  }

  /** The interval of a startDate begins at that same startDate. */
  lemma StartDateIdempotent(t: int, offset: int)
    requires YearsAgree(t, offset) && OutsideTwoDigitYears(t)
    requires YearsAgree(GetDayIntervals(t, offset).start, offset)
    ensures GetDayIntervals(GetDayIntervals(t, offset).start, offset).start == GetDayIntervals(t, offset).start
  {
    var s := GetDayIntervals(t, offset).start;
    StartDateIsUtcMidnight(t, offset);
    DayOfMidnight(Day(t));
    StartDateIsUtcMidnight(s, offset);
  }

  /** 1969-12-31T23:30Z in a zone one hour east of UTC: locally it is
      already 1970, so startDate becomes 31 December 1970, 364 days after the
      instant rather than the midnight before it. */
  lemma LocalYearMismatch()
    ensures GetDayIntervals(-1800000, 3600000).start == 364 * MsPerDay
    ensures !(GetDayIntervals(-1800000, 3600000).start <= -1800000)
  {
    assert Day(-1800000) == -1;
    assert Day(1800000) == 0;
    YearFromDayUnique(-1, 1969);
    YearFromDayUnique(0, 1970);
    assert DayWithinYear(-1800000) == 364;
    assert MonthFromTime(-1800000) == 11;
    assert DateFromTime(-1800000) == 31;
  }

  /** The evidently intended day interval: the UTC midnight that begins the
      day of `t`, from the UTC year, month and date, and the UTC midnight one
      date later. */
  function DayIntervalsUtc(t: int): (r: Interval)
    ensures r.start % MsPerDay == 0
    ensures r.start <= t < r.end
    ensures r.end == r.start + MsPerDay
  {
    var y, m, d := YearFromTime(t), MonthFromTime(t), DateFromTime(t);
    MakeDayOfTime(t);
    MakeDayNext(y, m, d);
    DayOfMidnight(Day(t));
    DayBounds(t);
    Interval(MakeDay(y, m, d) * MsPerDay, MakeDay(y, m, d + 1) * MsPerDay)
  }

  /** In a UTC process, and outside the years 0 to 99, the code as written
      computes the intended interval. */
  lemma AsWrittenAgreesInUtc(t: int)
    requires OutsideTwoDigitYears(t)
    ensures GetDayIntervals(t, 0) == DayIntervalsUtc(t)
  {
    StartDateIsUtcMidnight(t, 0);
    MakeDayOfTime(t);
  }
}
