/** The calendar's displayed month and the previous/next buttons that replace it
    (src/components/Calendar/index.tsx, `currentDate` state and its two handlers). */
module Navigation {
  import opened Dates
  import CalendarGrid

  /** The month the calendar shows. The component keeps it as day 1 of that month. */
  class MonthNavigator {
    var currentDate: Date

    ghost predicate Valid()
      reads this
    {
      IsFirstOfMonth(currentDate)
    }

    /** Initial state: day 1 of the month that contains `today`. */
    constructor (today: Date)
      requires ValidDate(today)
      ensures Valid()
      ensures currentDate == Date(today.year, today.month, 1)
    {
      currentDate := Date(today.year, today.month, 1);
    }

    /** The "previous month" button: one calendar month back. */
    method HandlePreviousMonth()
      requires Valid()
      modifies this
      ensures Valid()
      ensures currentDate == AddMonths(old(currentDate), -1)
      ensures MonthIndex(currentDate) == MonthIndex(old(currentDate)) - 1
    {
      currentDate := AddMonths(currentDate, -1);
    }

    /** The "next month" button: one calendar month forward. */
    method HandleNextMonth()
      requires Valid()
      modifies this
      ensures Valid()
      ensures currentDate == AddMonths(old(currentDate), 1)
      ensures MonthIndex(currentDate) == MonthIndex(old(currentDate)) + 1
    {
      currentDate := AddMonths(currentDate, 1);
    }
  }

  /** Moving a first-of-month date by whole months never clamps the day: it stays 1. */
  lemma ShiftKeepsFirstOfMonth(d: Date, n: int)
    requires IsFirstOfMonth(d)
    ensures IsFirstOfMonth(AddMonths(d, n))
    ensures MonthIndex(AddMonths(d, n)) == MonthIndex(d) + n
  {
  }

  /** Next month: same year and the following month, or January of the next year after December. */
  lemma NextMonthRollover(d: Date)
    requires IsFirstOfMonth(d)
    ensures d.month < 12 ==> AddMonths(d, 1) == Date(d.year, d.month + 1, 1)
    ensures d.month == 12 ==> AddMonths(d, 1) == Date(d.year + 1, 1, 1)
  {
    var r := AddMonths(d, 1);
    var expected := if d.month < 12 then Date(d.year, d.month + 1, 1) else Date(d.year + 1, 1, 1);
    assert MonthIndex(r) == MonthIndex(expected);
    MonthIndexInjective(r, expected);
  }

  /** Previous month: same year and the preceding month, or December of the previous year after January. */
  lemma PreviousMonthRollover(d: Date)
    requires IsFirstOfMonth(d)
    ensures d.month > 1 ==> AddMonths(d, -1) == Date(d.year, d.month - 1, 1)
    ensures d.month == 1 ==> AddMonths(d, -1) == Date(d.year - 1, 12, 1)
  {
    var r := AddMonths(d, -1);
    var expected := if d.month > 1 then Date(d.year, d.month - 1, 1) else Date(d.year - 1, 12, 1);
    assert MonthIndex(r) == MonthIndex(expected);
    MonthIndexInjective(r, expected);
  }

  /** Next and previous month undo each other on the dates the calendar holds. */
  lemma NextPreviousRoundTrip(d: Date)
    requires IsFirstOfMonth(d)
    ensures AddMonths(AddMonths(d, 1), -1) == d
    ensures AddMonths(AddMonths(d, -1), 1) == d
  {
    var forwardBack := AddMonths(AddMonths(d, 1), -1);
    var backForward := AddMonths(AddMonths(d, -1), 1);
    MonthIndexInjective(forwardBack, d);
    MonthIndexInjective(backForward, d);
  }

  /** Going one month forward and back again shows the same grid, given the same rules. */
  lemma GridAfterRoundTrip(d: Date, today: Date, blocked: CalendarGrid.Option<CalendarGrid.BlockedDates>)
    requires IsFirstOfMonth(d)
    ensures IsFirstOfMonth(AddMonths(AddMonths(d, 1), -1))
    ensures CalendarGrid.Grid(AddMonths(AddMonths(d, 1), -1), today, blocked) == CalendarGrid.Grid(d, today, blocked)
  {
    NextPreviousRoundTrip(d);
  }
}
