/** Calendar arithmetic the calendar component borrows from its date library:
    days in a month, weekday of a date, adding and subtracting days and months,
    and comparing calendar days. Dates are proleptic Gregorian, without a time of day. */
module Dates {

  /** A calendar day; `month` runs 1..12 (January is 1), `day` 1..DaysInMonth. */
  datatype Date = Date(year: int, month: int, day: int)

  function Min(a: int, b: int): int { if a <= b then a else b }

  predicate IsLeapYear(y: int) {
    y % 4 == 0 && (y % 100 != 0 || y % 400 == 0)
  }

  function DaysInYear(y: int): int {
    if IsLeapYear(y) then 366 else 365
  }

  function DaysInMonth(y: int, m: int): (n: int)
    requires 1 <= m <= 12
    ensures 28 <= n <= 31
    ensures m == 2 ==> (n == 29 <==> IsLeapYear(y))
  {
    if m == 2 then (if IsLeapYear(y) then 29 else 28)
    else if m == 4 || m == 6 || m == 9 || m == 11 then 30
    else 31
  }

  predicate ValidDate(d: Date) {
    1 <= d.month <= 12 && 1 <= d.day <= DaysInMonth(d.year, d.month)
  }

  /** The form the calendar keeps its reference month in: day 1 of a month. */
  predicate IsFirstOfMonth(d: Date) {
    ValidDate(d) && d.day == 1
  }

  /** Days in the months of year `y` before month `m`. */
  function DaysBeforeMonth(y: int, m: int): nat
    requires 1 <= m <= 12
  {
    if m == 1 then 0 else DaysBeforeMonth(y, m - 1) + DaysInMonth(y, m - 1)
  }

  /** Days in the years before year `y`, counted from 1 January of year 1
      (negative for years before 1). */
  function DaysBeforeYear(y: int): int {
    365 * (y - 1) + (y - 1) / 4 - (y - 1) / 100 + (y - 1) / 400
  }

  /** The number of days from 1 January of year 1 to `d`. */
  function DayNumber(d: Date): int
    requires ValidDate(d)
  {
    DaysBeforeYear(d.year) + DaysBeforeMonth(d.year, d.month) + d.day - 1
  }

  /** Weekday index of `d`, Sunday = 0 ... Saturday = 6 (1 January of year 1 was a Monday). */
  function Weekday(d: Date): (w: int)
    requires ValidDate(d)
    ensures 0 <= w < 7
  {
    (DayNumber(d) + 1) % 7
  }

  /** `a` is a strictly earlier calendar day than `b`. */
  predicate Precedes(a: Date, b: Date) {
    a.year < b.year ||
    (a.year == b.year && (a.month < b.month || (a.month == b.month && a.day < b.day)))
  }

  lemma DivStep(x: int)
    ensures (x + 1) / 4 - x / 4 == (if (x + 1) % 4 == 0 then 1 else 0)
    ensures (x + 1) / 100 - x / 100 == (if (x + 1) % 100 == 0 then 1 else 0)
    ensures (x + 1) / 400 - x / 400 == (if (x + 1) % 400 == 0 then 1 else 0)
  {
  }

  lemma DaysBeforeYearStep(y: int)
    ensures DaysBeforeYear(y + 1) == DaysBeforeYear(y) + DaysInYear(y)
  {
    DivStep(y - 1);
    var d4, d100, d400 := y / 4 - (y - 1) / 4, y / 100 - (y - 1) / 100, y / 400 - (y - 1) / 400;
    assert DaysBeforeYear(y + 1) - DaysBeforeYear(y) == 365 + d4 - d100 + d400;
    LeapDays(y, d4, d100, d400);
  }

  /** The leap rule as a day count: 365, plus one every 4th year, minus one every 100th,
      plus one every 400th. */
  lemma LeapDays(y: int, d4: int, d100: int, d400: int)
    requires d4 == (if y % 4 == 0 then 1 else 0)
    requires d100 == (if y % 100 == 0 then 1 else 0)
    requires d400 == (if y % 400 == 0 then 1 else 0)
    ensures DaysInYear(y) == 365 + d4 - d100 + d400
  {
    if y % 400 == 0 {
      CenturyOfQuadCentury(y / 400);
    } else if y % 100 == 0 {
      LeapOfCentury(y / 100);
    }
  }

  /** Every 400th year is also a 100th and a 4th year. */
  lemma CenturyOfQuadCentury(q: int)
    ensures (400 * q) % 100 == 0 && (400 * q) % 4 == 0
  {
    LeapOfCentury(4 * q);
  }

  /** Every 100th year is also a 4th year. */
  lemma LeapOfCentury(q: int)
    ensures (100 * q) % 100 == 0 && (100 * q) % 4 == 0
  {
    assert 100 * q == 4 * (25 * q);
  }

  lemma YearEnd(y: int)
    ensures DaysBeforeMonth(y, 12) + DaysInMonth(y, 12) == DaysInYear(y)
  {
    var feb := DaysInMonth(y, 2);
    assert DaysBeforeMonth(y, 2) == 31;
    assert DaysBeforeMonth(y, 3) == 31 + feb;
    assert DaysBeforeMonth(y, 4) == 62 + feb;
    assert DaysBeforeMonth(y, 5) == 92 + feb;
    assert DaysBeforeMonth(y, 6) == 123 + feb;
    assert DaysBeforeMonth(y, 7) == 153 + feb;
    assert DaysBeforeMonth(y, 8) == 184 + feb;
    assert DaysBeforeMonth(y, 9) == 215 + feb;
    assert DaysBeforeMonth(y, 10) == 245 + feb;
    assert DaysBeforeMonth(y, 11) == 276 + feb;
    assert DaysBeforeMonth(y, 12) == 306 + feb;
  }

  /** Every month ends no later than the last day of its year. */
  lemma {:induction false} MonthFitsInYear(y: int, m: int)
    requires 1 <= m <= 12
    ensures DaysBeforeMonth(y, m) + DaysInMonth(y, m) <= DaysInYear(y)
    decreases 12 - m
  {
    if m == 12 {
      YearEnd(y);
    } else {
      MonthFitsInYear(y, m + 1);
    }
  }

  /** An earlier month of the same year ends before a later one begins. */
  lemma {:induction false} MonthsInOrder(y: int, m: int, n: int)
    requires 1 <= m < n <= 12
    ensures DaysBeforeMonth(y, m) + DaysInMonth(y, m) <= DaysBeforeMonth(y, n)
    decreases n
  {
    if m + 1 < n {
      MonthsInOrder(y, m, n - 1);
    }
  }

  /** An earlier year ends before a later one begins. */
  lemma {:induction false} YearsInOrder(y: int, z: int)
    requires y < z
    ensures DaysBeforeYear(y) + DaysInYear(y) <= DaysBeforeYear(z)
    decreases z - y
  {
    DaysBeforeYearStep(y);
    if y + 1 < z {
      YearsInOrder(y + 1, z);
    }
  }

  lemma DayNumberWithinYear(d: Date)
    requires ValidDate(d)
    ensures DaysBeforeYear(d.year) <= DayNumber(d) < DaysBeforeYear(d.year) + DaysInYear(d.year)
  {
    MonthFitsInYear(d.year, d.month);
  }

  lemma EarlierHasSmallerDayNumber(a: Date, b: Date)
    requires ValidDate(a) && ValidDate(b) && Precedes(a, b)
    ensures DayNumber(a) < DayNumber(b)
  {
    if a.year < b.year {
      DayNumberWithinYear(a);
      DayNumberWithinYear(b);
      YearsInOrder(a.year, b.year);
    } else if a.month < b.month {
      MonthsInOrder(a.year, a.month, b.month);
    }
  }

  /** The calendar order of dates is the order of their day numbers. */
  lemma PrecedesIffEarlierDayNumber(a: Date, b: Date)
    requires ValidDate(a) && ValidDate(b)
    ensures Precedes(a, b) <==> DayNumber(a) < DayNumber(b)
  {
    if Precedes(a, b) {
      EarlierHasSmallerDayNumber(a, b);
    } else if a != b {
      EarlierHasSmallerDayNumber(b, a);
    }
  }

  /** Distinct valid dates have distinct day numbers. */
  lemma DayNumberInjective(a: Date, b: Date)
    requires ValidDate(a) && ValidDate(b) && DayNumber(a) == DayNumber(b)
    ensures a == b
  {
    PrecedesIffEarlierDayNumber(a, b);
    PrecedesIffEarlierDayNumber(b, a);
  }

  /** The calendar day after `d`. */
  function NextDay(d: Date): (r: Date)
    requires ValidDate(d)
    ensures ValidDate(r) && DayNumber(r) == DayNumber(d) + 1
  {
    if d.day < DaysInMonth(d.year, d.month) then Date(d.year, d.month, d.day + 1)
    else if d.month < 12 then Date(d.year, d.month + 1, 1)
    else
      YearEnd(d.year);
      DaysBeforeYearStep(d.year);
      Date(d.year + 1, 1, 1)
  }

  /** The calendar day before `d`. */
  function PreviousDay(d: Date): (r: Date)
    requires ValidDate(d)
    ensures ValidDate(r) && DayNumber(r) == DayNumber(d) - 1
  {
    if d.day > 1 then Date(d.year, d.month, d.day - 1)
    else if d.month > 1 then Date(d.year, d.month - 1, DaysInMonth(d.year, d.month - 1))
    else
      YearEnd(d.year - 1);
      DaysBeforeYearStep(d.year - 1);
      Date(d.year - 1, 12, 31)
  }

  /** `d` moved `n` days forward, as the date library's `add(n, 'day')`. */
  function AddDays(d: Date, n: nat): (r: Date)
    requires ValidDate(d)
    ensures ValidDate(r) && DayNumber(r) == DayNumber(d) + n
    decreases n
  {
    if n == 0 then d else AddDays(NextDay(d), n - 1)
  }

  /** `d` moved `n` days back, as the date library's `subtract(n, 'day')`. */
  function SubtractDays(d: Date, n: nat): (r: Date)
    requires ValidDate(d)
    ensures ValidDate(r) && DayNumber(r) == DayNumber(d) - n
    decreases n
  {
    if n == 0 then d else SubtractDays(PreviousDay(d), n - 1)
  }

  /** Each day's weekday follows the previous day's, wrapping from Saturday to Sunday. */
  lemma WeekdayOfNextDay(d: Date)
    requires ValidDate(d)
    ensures Weekday(NextDay(d)) == (Weekday(d) + 1) % 7
  {
    var k := DayNumber(d) + 1;
    assert Weekday(NextDay(d)) == (k + 1) % 7;
    ModSuccessor(k);
  }

  lemma ModSuccessor(k: int)
    ensures (k + 1) % 7 == (k % 7 + 1) % 7
  {
  }

  /** Two fixed points of the weekday count: 1 January 1970 was a Thursday and
      1 January 2000 a Saturday. */
  lemma KnownWeekdays()
    ensures Weekday(Date(1970, 1, 1)) == 4
    ensures Weekday(Date(2000, 1, 1)) == 6
  {
  }

  /** Months counted from January of year 0. */
  function MonthIndex(d: Date): int {
    12 * d.year + d.month - 1
  }

  lemma MonthIndexInjective(a: Date, b: Date)
    requires 1 <= a.month <= 12 && 1 <= b.month <= 12
    requires MonthIndex(a) == MonthIndex(b)
    ensures a.year == b.year && a.month == b.month
  {
  }

  /** `d` moved `n` months, as the date library's `add(n, 'month')`
      (`subtract(n, 'month')` is `n` negated): the month changes by exactly `n`, and the day
      is kept unless the target month is shorter, in which case it is that month's last day. */
  function AddMonths(d: Date, n: int): (r: Date)
    requires ValidDate(d)
    ensures ValidDate(r) && MonthIndex(r) == MonthIndex(d) + n
    ensures d.day <= DaysInMonth(r.year, r.month) ==> r.day == d.day
    ensures d.day > DaysInMonth(r.year, r.month) ==> r.day == DaysInMonth(r.year, r.month)
  {
    var target := MonthIndex(d) + n;
    var y, m := target / 12, target % 12 + 1;
    Date(y, m, Min(d.day, DaysInMonth(y, m)))
  }
}
