/**
 * Calendar arithmetic the widget borrows from JavaScript's `Date` and moment:
 * local calendar days, instants within a day, the proleptic Gregorian month
 * lengths, the day number and weekday of a day (ECMAScript counts days from
 * 1970-01-01, a Thursday, and numbers weekdays from Sunday = 0), and the
 * order of instants that `<` on two `Date` values compares.
 *
 * Months are numbered 1..12 here; JavaScript's `getMonth()` counts 0..11.
 */
module Dates {

  const MILLIS_PER_DAY := 86_400_000

  /** A local calendar day: the key moment's `isSame(_, 'day')` compares. */
  datatype CalendarDay = CalendarDay(year: int, month: int, day: int)

  /** A local instant: a calendar day and the milliseconds since its midnight. */
  datatype Instant = Instant(date: CalendarDay, millis: int)

  predicate IsLeapYear(y: int) {
    y % 4 == 0 && (y % 100 != 0 || y % 400 == 0)
  }

  function YearLength(y: int): int {
    if IsLeapYear(y) then 366 else 365
  }

  /** The number of days of month `m` of year `y` (Gregorian rule). */
  function DaysInMonth(y: int, m: int): (n: int)
    requires 1 <= m <= 12
    ensures 28 <= n <= 31
    ensures m == 2 ==> (n == 29 <==> IsLeapYear(y)) && (n == 28 <==> !IsLeapYear(y))
    ensures m != 2 ==> (n == 30 <==> m == 4 || m == 6 || m == 9 || m == 11)
    ensures m != 2 ==> (n == 31 <==> !(m == 4 || m == 6 || m == 9 || m == 11))
  {
    if m == 2 then (if IsLeapYear(y) then 29 else 28)
    else if m == 4 || m == 6 || m == 9 || m == 11 then 30
    else 31
  }

  predicate ValidDay(d: CalendarDay) {
    1 <= d.month <= 12 && 1 <= d.day <= DaysInMonth(d.year, d.month)
  }

  predicate ValidInstant(t: Instant) {
    ValidDay(t.date) && 0 <= t.millis < MILLIS_PER_DAY
  }

  /** The instant `new Date(y, m, d)` denotes: the day's local midnight. */
  function Midnight(d: CalendarDay): Instant {
    Instant(d, 0)
  }

  /** Strict calendar order: earlier year, else earlier month, else earlier day. */
  predicate DayBefore(a: CalendarDay, b: CalendarDay) {
    a.year < b.year ||
    (a.year == b.year && (a.month < b.month || (a.month == b.month && a.day < b.day)))
  }

  /** Days from 0000-01-01 to January 1st of year `y` (negative before year 0). */
  function DaysBeforeYear(y: int): int {
    365 * y + (y + 3) / 4 - (y + 99) / 100 + (y + 399) / 400
  }

  /** Days from January 1st of year `y` to the first day of month `m`. */
  function DaysBeforeMonth(y: int, m: int): int
    requires 1 <= m <= 12
  {
    var common :=
      if m == 1 then 0 else if m == 2 then 31 else if m == 3 then 59
      else if m == 4 then 90 else if m == 5 then 120 else if m == 6 then 151
      else if m == 7 then 181 else if m == 8 then 212 else if m == 9 then 243
      else if m == 10 then 273 else if m == 11 then 304 else 334;
    if m > 2 && IsLeapYear(y) then common + 1 else common
  }

  /** Days from 0000-01-01 to `d`. */
  function DayNumber(d: CalendarDay): int
    requires 1 <= d.month <= 12
  {
    DaysBeforeYear(d.year) + DaysBeforeMonth(d.year, d.month) + d.day - 1
  }

  const EPOCH := CalendarDay(1970, 1, 1)

  /** ECMAScript's day count: days from 1970-01-01 to `d`. */
  function EpochDay(d: CalendarDay): int
    requires 1 <= d.month <= 12
  {
    DayNumber(d) - DayNumber(EPOCH)
  }

  /** `getDay()`: 0 is Sunday, 1 Monday, ..., 6 Saturday; 1970-01-01 was a Thursday. */
  function Weekday(d: CalendarDay): (w: int)
    requires 1 <= d.month <= 12
    ensures 0 <= w < 7
    ensures d == EPOCH ==> w == 4
  {
    (EpochDay(d) + 4) % 7
  }

  predicate IsSunday(d: CalendarDay)
    requires 1 <= d.month <= 12
  {
    Weekday(d) == 0
  }

  /** The local time value of an instant, in milliseconds since the epoch's midnight. */
  function TimeValue(t: Instant): int
    requires 1 <= t.date.month <= 12
  {
    EpochDay(t.date) * MILLIS_PER_DAY + t.millis
  }

  /** `a < b` on two `Date` values: the comparison of their time values. */
  predicate InstantBefore(a: Instant, b: Instant)
    requires 1 <= a.date.month <= 12 && 1 <= b.date.month <= 12
  {
    TimeValue(a) < TimeValue(b)
  }

  /** The day after `d` in the calendar. */
  function NextDay(d: CalendarDay): (r: CalendarDay)
    requires ValidDay(d)
    ensures ValidDay(r) && DayBefore(d, r)
  {
    if d.day < DaysInMonth(d.year, d.month) then CalendarDay(d.year, d.month, d.day + 1)
    else if d.month < 12 then CalendarDay(d.year, d.month + 1, 1)
    else CalendarDay(d.year + 1, 1, 1)
  }

  /** Consecutive years begin `YearLength` days apart. */
  lemma {:induction false} DaysBeforeNextYear(y: int)
    ensures DaysBeforeYear(y + 1) == DaysBeforeYear(y) + YearLength(y)
  {
    QuarterStep(y);
    CenturyStep(y);
    QuadCenturyStep(y);
  }

  /** The count of multiples of 4 up to `y` grows by one exactly at a multiple of 4. */
  lemma QuarterStep(y: int)
    ensures (y + 4) / 4 == (y + 3) / 4 + (if y % 4 == 0 then 1 else 0)
  {
  }

  /** The count of multiples of 100 up to `y` grows by one exactly at a multiple of 100. */
  lemma CenturyStep(y: int)
    ensures (y + 100) / 100 == (y + 99) / 100 + (if y % 100 == 0 then 1 else 0)
  {
  }

  /** The count of multiples of 400 up to `y` grows by one exactly at a multiple of 400. */
  lemma QuadCenturyStep(y: int)
    ensures (y + 400) / 400 == (y + 399) / 400 + (if y % 400 == 0 then 1 else 0)
  {
  }

  /** The months of a year tile it: each begins where the previous one ends. */
  lemma MonthsTileYear(y: int, m: int)
    requires 1 <= m <= 12
    ensures m < 12 ==> DaysBeforeMonth(y, m + 1) == DaysBeforeMonth(y, m) + DaysInMonth(y, m)
    ensures m == 12 ==> DaysBeforeMonth(y, m) + DaysInMonth(y, m) == YearLength(y)
  {
  }

  /**
   * The day after a valid day has the next day number. In particular the
   * month length `DaysInMonth(y, m)` is the date of "day 0 of the next
   * month", which is how the widget finds it.
   */
  lemma {:induction false} NextDayNumber(d: CalendarDay)
    requires ValidDay(d)
    ensures DayNumber(NextDay(d)) == DayNumber(d) + 1
  {
    MonthsTileYear(d.year, d.month);
    if d.day == DaysInMonth(d.year, d.month) && d.month == 12 {
      DaysBeforeNextYear(d.year);
    }
  }

  /**
   * "Day 0 of the next month" is the month's last day: the day just before
   * the first of the following month (January of the next year after
   * December) is day `DaysInMonth(y, m)` of month `m`.
   */
  lemma {:induction false} LastDayIsDayZeroOfNextMonth(y: int, m: int)
    requires 1 <= m <= 12
    ensures m < 12 ==>
              DayNumber(CalendarDay(y, m + 1, 1)) - 1 == DayNumber(CalendarDay(y, m, DaysInMonth(y, m)))
    ensures m == 12 ==>
              DayNumber(CalendarDay(y + 1, 1, 1)) - 1 == DayNumber(CalendarDay(y, m, DaysInMonth(y, m)))
  {
    NextDayNumber(CalendarDay(y, m, DaysInMonth(y, m)));
  }

  /** Weekdays advance by one, cyclically, from each day to the next. */
  lemma {:induction false} WeekdayOfNextDay(d: CalendarDay)
    requires ValidDay(d)
    ensures Weekday(NextDay(d)) == (Weekday(d) + 1) % 7
  {
    NextDayNumber(d);
    WeekdayStep(EpochDay(d), EpochDay(NextDay(d)));
  }

  /** Consecutive day counts have consecutive weekdays, modulo 7. */
  lemma WeekdayStep(a: int, b: int)
    requires b == a + 1
    ensures (b + 4) % 7 == ((a + 4) % 7 + 1) % 7
  {
  }

  /** Year starts are strictly increasing: every year has days. */
  lemma {:induction false} DaysBeforeYearIncreasing(a: int, b: int)
    requires a < b
    ensures DaysBeforeYear(a) + YearLength(a) <= DaysBeforeYear(b)
    decreases b - a
  {
    DaysBeforeNextYear(a);
    if a + 1 < b {
      DaysBeforeYearIncreasing(a + 1, b);
    }
  }

  /** Month starts are strictly increasing within a year. */
  lemma DaysBeforeMonthIncreasing(y: int, a: int, b: int)
    requires 1 <= a < b <= 12
    ensures DaysBeforeMonth(y, a) + DaysInMonth(y, a) <= DaysBeforeMonth(y, b)
  {
  }

  /** A valid day's number lies within its year's range of day numbers. */
  lemma DayNumberWithinYear(d: CalendarDay)
    requires ValidDay(d)
    ensures DaysBeforeYear(d.year) <= DayNumber(d) < DaysBeforeYear(d.year) + YearLength(d.year)
  {
  }

  /**
   * Calendar order and day-number order agree on valid days, so the day
   * number is a faithful key for ordering and for the weekday.
   */
  lemma {:induction false} DayBeforeIffSmallerNumber(a: CalendarDay, b: CalendarDay)
    requires ValidDay(a) && ValidDay(b)
    ensures DayBefore(a, b) <==> DayNumber(a) < DayNumber(b)
    ensures a == b <==> DayNumber(a) == DayNumber(b)
  {
    DayNumberWithinYear(a);
    DayNumberWithinYear(b);
    if a.year < b.year {
      DaysBeforeYearIncreasing(a.year, b.year);
    } else if b.year < a.year {
      DaysBeforeYearIncreasing(b.year, a.year);
    } else if a.month < b.month {
      DaysBeforeMonthIncreasing(a.year, a.month, b.month);
    } else if b.month < a.month {
      DaysBeforeMonthIncreasing(a.year, b.month, a.month);
    }
  }

  /**
   * `midnight(d) < now` holds exactly when `d` is an earlier calendar day
   * than `now`'s, or is `now`'s own day and `now` is past midnight.
   */
  lemma {:induction false} MidnightBeforeIff(d: CalendarDay, now: Instant)
    requires ValidDay(d) && ValidInstant(now)
    ensures InstantBefore(Midnight(d), now) <==>
            DayBefore(d, now.date) || (d == now.date && 0 < now.millis)
  {
    DayBeforeIffSmallerNumber(d, now.date);
    var a, b := EpochDay(d), EpochDay(now.date);
    if a < b {
      assert a * MILLIS_PER_DAY + MILLIS_PER_DAY <= b * MILLIS_PER_DAY;
    } else if b < a {
      assert b * MILLIS_PER_DAY + MILLIS_PER_DAY <= a * MILLIS_PER_DAY;
    }
  }
}
