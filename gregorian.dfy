/** Proleptic Gregorian calendar arithmetic: leap years and month lengths as
    section 5.7 and Appendix C of RFC 3339 define them, day numbers, weekdays
    and the successor of a date. */
module Gregorian {

  /** A calendar date; month 1..12, day 1..31 when valid. */
  datatype Date = Date(year: int, month: int, day: int)

  /** Appendix C of RFC 3339: divisible by 4, and not by 100 unless by 400. */
  predicate IsLeapYear(year: int) {
    year % 4 == 0 && (year % 100 != 0 || year % 400 == 0)
  }

  /** Section 5.7 of RFC 3339: the maximum day number of each month. */
  function DaysInMonth(year: int, month: int): (n: int)
    requires 1 <= month <= 12
    ensures 28 <= n <= 31
  {
    if month == 2 then (if IsLeapYear(year) then 29 else 28)
    else if month == 4 || month == 6 || month == 9 || month == 11 then 30
    else 31
  }

  predicate ValidDate(d: Date) {
    1 <= d.month <= 12 && 1 <= d.day <= DaysInMonth(d.year, d.month)
  }

  function YearLength(year: int): int {
    if IsLeapYear(year) then 366 else 365
  }

  /** Days from 0001-01-01 to the first of January of `year`, counted by the
      leap-year rule in closed form. */
  function DaysBeforeYear(year: int): int {
    var p := year - 1;
    365 * p + p / 4 - p / 100 + p / 400
  }

  /** Days from the first of January to the first of `month`, read from the
      cumulative table of a common year plus the leap day. */
  function DaysBeforeMonth(year: int, month: int): int
    requires 1 <= month <= 13
  {
    [0, 31, 59, 90, 120, 151, 181, 212, 243, 273, 304, 334, 365][month - 1]
    + (if month > 2 && IsLeapYear(year) then 1 else 0)
  }

  /** The number of days from 0001-01-01 (day 0, a Monday) to `d`. */
  function DayNumber(d: Date): int
    requires 1 <= d.month <= 12
  {
    DaysBeforeYear(d.year) + DaysBeforeMonth(d.year, d.month) + d.day - 1
  }

  /** The weekday of a day number in JavaScript's getDay() numbering:
      0 is Sunday, 1 is Monday, ..., 6 is Saturday. */
  function WeekdayOfDayNumber(n: int): (w: int)
    ensures 0 <= w <= 6
  {
    (n + 1) % 7
  }

  function Weekday(d: Date): (w: int)
    requires 1 <= d.month <= 12
    ensures 0 <= w <= 6
  {
    WeekdayOfDayNumber(DayNumber(d))
  }

  /** The day after `d`. */
  function NextDay(d: Date): Date
    requires ValidDate(d)
  {
    if d.day < DaysInMonth(d.year, d.month) then Date(d.year, d.month, d.day + 1)
    else if d.month < 12 then Date(d.year, d.month + 1, 1)
    else Date(d.year + 1, 1, 1)
  }

  /** The first of the month after (year, month); January of the next year
      after December, as JavaScript's `new Date(year, month + 1, 1)` rolls over. */
  function FirstOfNextMonth(year: int, month: int): Date
    requires 1 <= month <= 12
  {
    if month == 12 then Date(year + 1, 1, 1) else Date(year, month + 1, 1)
  }

  /** Chronological order of dates: by year, then month, then day. */
  predicate DateLess(a: Date, b: Date) {
    a.year < b.year
    || (a.year == b.year && a.month < b.month)
    || (a.year == b.year && a.month == b.month && a.day < b.day)
  }

  /** Stepping the numerator of a floor division by 4, 100 or 400 from p to
      p + 1 raises the quotient by one exactly when p + 1 is a multiple. */
  lemma QuarterStep(p: int)
    ensures (p + 1) / 4 == p / 4 + (if (p + 1) % 4 == 0 then 1 else 0)
  {
    assert p == 4 * (p / 4) + p % 4;
  }

  lemma CenturyStep(p: int)
    ensures (p + 1) / 100 == p / 100 + (if (p + 1) % 100 == 0 then 1 else 0)
  {
    assert p == 100 * (p / 100) + p % 100;
  }

  lemma QuadricentennialStep(p: int)
    ensures (p + 1) / 400 == p / 400 + (if (p + 1) % 400 == 0 then 1 else 0)
  {
    assert p == 400 * (p / 400) + p % 400;
  }

  /** A multiple of 400 is a multiple of 100, and a multiple of 100 one of 4. */
  lemma MultipleOf400(y: int)
    requires y % 400 == 0
    ensures y % 100 == 0
  {
    assert y == 100 * (4 * (y / 400));
  }

  lemma MultipleOf100(y: int)
    requires y % 100 == 0
    ensures y % 4 == 0
  {
    assert y == 4 * (25 * (y / 100));
  }

  /** The closed form of DaysBeforeYear grows by exactly one year length per year. */
  lemma DaysBeforeNextYear(year: int)
    ensures DaysBeforeYear(year + 1) == DaysBeforeYear(year) + YearLength(year)
  {
    var p := year - 1;
    QuarterStep(p);
    CenturyStep(p);
    QuadricentennialStep(p);
    if year % 400 == 0 {
      MultipleOf400(year);
      MultipleOf100(year);
    } else if year % 100 == 0 {
      MultipleOf100(year);
    }
  }

  /** Every day of an earlier year precedes the first of January of a later one. */
  lemma {:induction false} DaysBeforeYearMonotone(a: int, b: int)
    requires a < b
    ensures DaysBeforeYear(a) + YearLength(a) <= DaysBeforeYear(b)
    decreases b - a
  {
    DaysBeforeNextYear(a);
    if a + 1 < b {
      DaysBeforeYearMonotone(a + 1, b);
    }
  }

  /** Every day of an earlier month precedes the first of a later month. */
  lemma DaysBeforeMonthMonotone(year: int, m1: int, m2: int)
    requires 1 <= m1 < m2 <= 12
    ensures DaysBeforeMonth(year, m1) + DaysInMonth(year, m1) <= DaysBeforeMonth(year, m2)
  {
  }

  /** The month table agrees with the month lengths: consecutive entries differ
      by DaysInMonth, and the whole year adds up to YearLength. */
  lemma MonthTableAgrees(year: int, month: int)
    requires 1 <= month <= 12
    ensures DaysBeforeMonth(year, month + 1) == DaysBeforeMonth(year, month) + DaysInMonth(year, month)
    ensures DaysBeforeMonth(year, 13) == YearLength(year)
  {
  }

  /** The successor of a valid date is valid and has the next day number. */
  lemma NextDayNumber(d: Date)
    requires ValidDate(d)
    ensures ValidDate(NextDay(d))
    ensures DayNumber(NextDay(d)) == DayNumber(d) + 1
  {
    MonthTableAgrees(d.year, d.month);
    if d.day == DaysInMonth(d.year, d.month) && d.month == 12 {
      DaysBeforeNextYear(d.year);
    }
  }

  /** One day later is one weekday later, Saturday wrapping to Sunday. */
  lemma WeekStep(m: int)
    ensures (m + 1) % 7 == if m % 7 == 6 then 0 else m % 7 + 1
  {
  }

  /** Weekdays advance by one, cyclically, from each day to the next. */
  lemma WeekdayOfNextDay(d: Date)
    requires ValidDate(d)
    ensures Weekday(NextDay(d)) == (Weekday(d) + 1) % 7
  {
    NextDayNumber(d);
    WeekStep(DayNumber(d) + 1);
  }

  /** The last day of a month is the day before the first of the next month,
      so the day-of-month of "first of next month minus one" is DaysInMonth. */
  lemma LastDayPrecedesNextMonth(year: int, month: int)
    requires 1 <= month <= 12
    ensures NextDay(Date(year, month, DaysInMonth(year, month))) == FirstOfNextMonth(year, month)
    ensures DayNumber(FirstOfNextMonth(year, month)) == DayNumber(Date(year, month, DaysInMonth(year, month))) + 1
  {
    NextDayNumber(Date(year, month, DaysInMonth(year, month)));
  }

  /** NextDay is the immediate successor in chronological order: it is later
      than `t`, and a valid date is earlier than it exactly when it is `t` or
      earlier than `t`. */
  lemma NextDayIsSuccessor(t: Date, d: Date)
    requires ValidDate(t) && ValidDate(d)
    ensures DateLess(t, NextDay(t))
    ensures DateLess(d, NextDay(t)) <==> d == t || DateLess(d, t)
  {
  }

  /** Day numbers follow chronological order. */
  lemma DayNumberMonotone(a: Date, b: Date)
    requires ValidDate(a) && ValidDate(b)
    ensures DateLess(a, b) <==> DayNumber(a) < DayNumber(b)
  {
    MonthTableAgrees(a.year, a.month);
    MonthTableAgrees(b.year, b.month);
    if a.year < b.year {
      DaysBeforeYearMonotone(a.year, b.year);
    } else if b.year < a.year {
      DaysBeforeYearMonotone(b.year, a.year);
    } else if a.month < b.month {
      DaysBeforeMonthMonotone(a.year, a.month, b.month);
    } else if b.month < a.month {
      DaysBeforeMonthMonotone(a.year, b.month, a.month);
    }
  }

  /** 1970-01-01, the JavaScript epoch, was a Thursday. */
  lemma EpochIsThursday()
    ensures Weekday(Date(1970, 1, 1)) == 4
  {
  }
}
