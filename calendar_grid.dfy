/** The month grid of the booking calendar (src/components/Calendar/index.tsx, `calendarWeeks`):
    the days of the reference month, padded with the days of the neighbouring months that
    complete its first and last week, each marked disabled or not, split into weeks of 7. */
module CalendarGrid {
  import opened Dates

  datatype Option<T> = None | Some(value: T)

  /** Server-side blocking rules for one month: weekdays (0 = Sunday) blocked on every
      occurrence, and days of the month blocked once. */
  datatype BlockedDates = BlockedDates(blockedWeekDays: seq<int>, blockedDates: seq<int>)

  /** One cell of the grid. */
  datatype CalendarDay = CalendarDay(date: Date, disabled: bool)

  /** One row of the grid; `week` is its 1-based position. */
  datatype CalendarWeek = CalendarWeek(week: int, days: seq<CalendarDay>)

  function Reverse<T>(s: seq<T>): seq<T> {
    seq(|s|, i requires 0 <= i < |s| => s[|s| - 1 - i])
  }

  function LastDayOfMonth(ref: Date): Date
    requires IsFirstOfMonth(ref)
  {
    Date(ref.year, ref.month, DaysInMonth(ref.year, ref.month))
  }

  /** Day 1 through the last day of the reference month. */
  function InMonthDates(ref: Date): seq<Date>
    requires IsFirstOfMonth(ref)
  {
    seq(DaysInMonth(ref.year, ref.month), i => Date(ref.year, ref.month, i + 1))
  }

  /** The days of the previous month that share day 1's week: one per weekday before day 1's,
      listed as "1, 2, ... days before day 1" and then reversed. */
  function PreviousMonthFill(ref: Date): seq<Date>
    requires IsFirstOfMonth(ref)
  {
    Reverse(seq(Weekday(ref), i requires 0 <= i => SubtractDays(ref, i + 1)))
  }

  /** The days of the next month that share the last day's week. */
  function NextMonthFill(ref: Date): seq<Date>
    requires IsFirstOfMonth(ref)
  {
    var last := LastDayOfMonth(ref);
    seq(7 - (Weekday(last) + 1), i requires 0 <= i => AddDays(last, i + 1))
  }

  /** The availability rule for a day of the reference month: it has already ended before
      `today` began, or its weekday is blocked, or its day of the month is blocked. */
  predicate IsDisabled(date: Date, today: Date, blocked: BlockedDates)
    requires ValidDate(date)
  {
    Precedes(date, today) ||
    Weekday(date) in blocked.blockedWeekDays ||
    date.day in blocked.blockedDates
  }

  /** Padding cells: disabled unconditionally. */
  function PaddingCells(dates: seq<Date>): seq<CalendarDay> {
    seq(|dates|, i requires 0 <= i < |dates| => CalendarDay(dates[i], true))
  }

  /** Cells of the reference month, each disabled by the availability rule. */
  function MonthCells(dates: seq<Date>, today: Date, blocked: BlockedDates): seq<CalendarDay>
    requires forall i :: 0 <= i < |dates| ==> ValidDate(dates[i])
  {
    seq(|dates|, i requires 0 <= i < |dates| =>
      CalendarDay(dates[i], IsDisabled(dates[i], today, blocked)))
  }

  /** The flat list of grid cells: padding before, the month, padding after. */
  function CalendarDays(ref: Date, today: Date, blocked: BlockedDates): seq<CalendarDay>
    requires IsFirstOfMonth(ref)
  {
    PaddingCells(PreviousMonthFill(ref)) +
    MonthCells(InMonthDates(ref), today, blocked) +
    PaddingCells(NextMonthFill(ref))
  }

  /** The cells in rows of 7: row `k` (numbered `k + 1`) holds cells `7k` up to `7k + 6`,
      cut short at the end of the list. */
  function Weeks(days: seq<CalendarDay>): seq<CalendarWeek> {
    seq((|days| + 6) / 7, k requires 0 <= k < (|days| + 6) / 7 =>
      CalendarWeek(k + 1, days[7 * k .. Min(7 * k + 7, |days|)]))
  }

  /** The grid the calendar shows: nothing while the blocking rules are absent. */
  function Grid(ref: Date, today: Date, blocked: Option<BlockedDates>): seq<CalendarWeek>
    requires IsFirstOfMonth(ref)
  {
    match blocked
    case None => []
    case Some(rules) => Weeks(CalendarDays(ref, today, rules))
  }

  /** All the cells of the rows, in row order. */
  function Flatten(weeks: seq<CalendarWeek>): seq<CalendarDay> {
    if weeks == [] then [] else weeks[0].days + Flatten(weeks[1..])
  }

  /** The week partition as the component performs it: a pass over the cells that,
      at every index that is a multiple of 7, appends the row starting there. */
  method PartitionWeeks(days: seq<CalendarDay>) returns (weeks: seq<CalendarWeek>)
    ensures weeks == Weeks(days)
  {
    weeks := [];
    var i := 0;
    while i < |days|
      invariant 0 <= i <= |days|
      invariant |weeks| == (i + 6) / 7
      invariant forall k :: 0 <= k < |weeks| ==>
        weeks[k] == CalendarWeek(k + 1, days[7 * k .. Min(7 * k + 7, |days|)])
    {
      if i % 7 == 0 {
        weeks := weeks + [CalendarWeek(i / 7 + 1, days[i .. Min(i + 7, |days|)])];
      }
      i := i + 1;
    }
  }

  /** The grid builder: no weeks while the blocking rules are absent; otherwise rows of
      exactly 7 cells, numbered from 1, which read in order give back the flat cell list. */
  method BuildCalendarWeeks(ref: Date, today: Date, blocked: Option<BlockedDates>)
    returns (weeks: seq<CalendarWeek>)
    requires IsFirstOfMonth(ref)
    ensures weeks == Grid(ref, today, blocked)
    ensures blocked.None? <==> weeks == []
    ensures blocked.Some? ==> Flatten(weeks) == CalendarDays(ref, today, blocked.value)
    ensures forall k :: 0 <= k < |weeks| ==> weeks[k].week == k + 1 && |weeks[k].days| == 7
  {
    match blocked
    case None =>
      weeks := [];
    case Some(rules) =>
      var days := CalendarDays(ref, today, rules);
      GridIsWholeWeeks(ref, today, rules);
      weeks := PartitionWeeks(days);
      WeeksFlatten(days);
      WholeWeeks(days);
  }

  // ---------------------------------------------------------------------------
  // The week partition

  lemma {:induction false} FlattenFrom(weeks: seq<CalendarWeek>, days: seq<CalendarDay>, k: nat)
    requires weeks == Weeks(days) && k <= |weeks|
    ensures Flatten(weeks[k..]) == days[Min(7 * k, |days|)..]
    decreases |weeks| - k
  {
    if k == |weeks| {
      assert weeks[k..] == [];
    } else {
      FlattenFrom(weeks, days, k + 1);
      assert weeks[k..][1..] == weeks[k + 1..];
      var lo, hi := 7 * k, Min(7 * k + 7, |days|);
      assert days[lo..] == days[lo..hi] + days[hi..];
    }
  }

  /** Reading the rows in order gives back every cell, in order, for any list of cells. */
  lemma WeeksFlatten(days: seq<CalendarDay>)
    ensures Flatten(Weeks(days)) == days
  {
    FlattenFrom(Weeks(days), days, 0);
  }

  /** When the cells fill whole weeks, every row has exactly 7 cells. */
  lemma WholeWeeks(days: seq<CalendarDay>)
    requires |days| % 7 == 0
    ensures |Weeks(days)| == |days| / 7
    ensures forall k :: 0 <= k < |Weeks(days)| ==>
      Weeks(days)[k].week == k + 1 && Weeks(days)[k].days == days[7 * k .. 7 * k + 7]
  {
  }

  // ---------------------------------------------------------------------------
  // The cells

  lemma PreviousMonthFillDates(ref: Date)
    requires IsFirstOfMonth(ref)
    ensures var p := PreviousMonthFill(ref);
      |p| == Weekday(ref) && forall i :: 0 <= i < |p| ==> p[i] == SubtractDays(ref, |p| - i)
  {
  }

  lemma NextMonthFillDates(ref: Date)
    requires IsFirstOfMonth(ref)
    ensures var q := NextMonthFill(ref);
      && |q| == 6 - Weekday(LastDayOfMonth(ref))
      && forall j :: 0 <= j < |q| ==> q[j] == AddDays(LastDayOfMonth(ref), j + 1)
  {
  }

  /** The flat list's length: leading padding, the month, trailing padding. */
  lemma CalendarDaysLength(ref: Date, today: Date, blocked: BlockedDates)
    requires IsFirstOfMonth(ref)
    ensures |CalendarDays(ref, today, blocked)| ==
      Weekday(ref) + DaysInMonth(ref.year, ref.month) + (6 - Weekday(LastDayOfMonth(ref)))
  {
    PreviousMonthFillDates(ref);
    NextMonthFillDates(ref);
  }

  lemma LeadingCells(ref: Date, today: Date, blocked: BlockedDates)
    requires IsFirstOfMonth(ref)
    ensures var days, w := CalendarDays(ref, today, blocked), Weekday(ref);
      w <= |days| &&
      forall i :: 0 <= i < w ==> days[i] == CalendarDay(SubtractDays(ref, w - i), true)
  {
    PreviousMonthFillDates(ref);
    var p := PaddingCells(PreviousMonthFill(ref));
    var rest := MonthCells(InMonthDates(ref), today, blocked) + PaddingCells(NextMonthFill(ref));
    assert CalendarDays(ref, today, blocked) == p + rest;
  }

  lemma MonthCellsAt(ref: Date, today: Date, blocked: BlockedDates)
    requires IsFirstOfMonth(ref)
    ensures var days := CalendarDays(ref, today, blocked);
      var w, n := Weekday(ref), DaysInMonth(ref.year, ref.month);
      w + n <= |days| &&
      forall i :: w <= i < w + n ==>
        days[i] == CalendarDay(Date(ref.year, ref.month, i - w + 1),
                               IsDisabled(Date(ref.year, ref.month, i - w + 1), today, blocked))
  {
    PreviousMonthFillDates(ref);
    var p := PaddingCells(PreviousMonthFill(ref));
    var m := MonthCells(InMonthDates(ref), today, blocked);
    var q := PaddingCells(NextMonthFill(ref));
    var days := CalendarDays(ref, today, blocked);
    assert days == p + m + q;
    forall i | |p| <= i < |p| + |m| ensures days[i] == m[i - |p|] { }
  }

  lemma TrailingCells(ref: Date, today: Date, blocked: BlockedDates)
    requires IsFirstOfMonth(ref)
    ensures var days := CalendarDays(ref, today, blocked);
      var w, n := Weekday(ref), DaysInMonth(ref.year, ref.month);
      w + n <= |days| &&
      forall i :: w + n <= i < |days| ==>
        days[i] == CalendarDay(AddDays(LastDayOfMonth(ref), i - (w + n) + 1), true)
  {
    PreviousMonthFillDates(ref);
    NextMonthFillDates(ref);
    var front := PaddingCells(PreviousMonthFill(ref)) + MonthCells(InMonthDates(ref), today, blocked);
    var q := PaddingCells(NextMonthFill(ref));
    var days := CalendarDays(ref, today, blocked);
    assert days == front + q;
    forall i | |front| <= i < |days| ensures days[i] == q[i - |front|] { }
  }

  /** Where each part of the flat list sits and what it holds. */
  lemma CalendarDaysLayout(ref: Date, today: Date, blocked: BlockedDates)
    requires IsFirstOfMonth(ref)
    ensures var days := CalendarDays(ref, today, blocked);
      var w, n := Weekday(ref), DaysInMonth(ref.year, ref.month);
      var last := LastDayOfMonth(ref);
      && |days| == w + n + (6 - Weekday(last))
      && (forall i :: 0 <= i < w ==> days[i] == CalendarDay(SubtractDays(ref, w - i), true))
      && (forall i :: w <= i < w + n ==>
            days[i] == CalendarDay(Date(ref.year, ref.month, i - w + 1),
                                   IsDisabled(Date(ref.year, ref.month, i - w + 1), today, blocked)))
      && (forall i :: w + n <= i < |days| ==>
            days[i] == CalendarDay(AddDays(last, i - (w + n) + 1), true))
  {
    CalendarDaysLength(ref, today, blocked);
    LeadingCells(ref, today, blocked);
    MonthCellsAt(ref, today, blocked);
    TrailingCells(ref, today, blocked);
  }

  /** Cell `i` of the grid is the `i`-th day counted from the Sunday on or before day 1. */
  lemma GridDayNumbers(ref: Date, today: Date, blocked: BlockedDates)
    requires IsFirstOfMonth(ref)
    ensures var days := CalendarDays(ref, today, blocked);
      forall i :: 0 <= i < |days| ==>
        ValidDate(days[i].date) && DayNumber(days[i].date) == DayNumber(ref) - Weekday(ref) + i
  {
    CalendarDaysLayout(ref, today, blocked);
  }

  /** The grid covers whole weeks: between four and six of them. */
  lemma GridIsWholeWeeks(ref: Date, today: Date, blocked: BlockedDates)
    requires IsFirstOfMonth(ref)
    ensures |CalendarDays(ref, today, blocked)| % 7 == 0
    ensures 28 <= |CalendarDays(ref, today, blocked)| <= 42
  {
    CalendarDaysLength(ref, today, blocked);
    var n := DaysInMonth(ref.year, ref.month);
    var d := DayNumber(ref) + 1;
    assert Weekday(ref) == d % 7;
    assert Weekday(LastDayOfMonth(ref)) == (d + n - 1) % 7;
    WholeWeeksArithmetic(d, n);
  }

  /** Padding day 1's weekday up to Sunday and the last day's up to Saturday fills whole weeks. */
  lemma WholeWeeksArithmetic(d: int, n: int)
    requires 28 <= n <= 31
    ensures (d % 7 + n + (6 - (d + n - 1) % 7)) % 7 == 0
    ensures 28 <= d % 7 + n + (6 - (d + n - 1) % 7) <= 42
  {
    var a, b := d / 7, (d + n - 1) / 7;
    assert d % 7 + n + (6 - (d + n - 1) % 7) == 7 * (b - a + 1);
  }

  /** The cells are consecutive calendar days, and the cell in column `c` of any row
      falls on weekday `c`; in particular the grid starts on a Sunday. */
  lemma GridIsConsecutive(ref: Date, today: Date, blocked: BlockedDates)
    requires IsFirstOfMonth(ref)
    ensures var days := CalendarDays(ref, today, blocked);
      && (forall i :: 0 <= i < |days| ==> ValidDate(days[i].date) && Weekday(days[i].date) == i % 7)
      && (forall i :: 0 <= i < |days| - 1 ==>
            DayNumber(days[i + 1].date) == DayNumber(days[i].date) + 1)
  {
    var days := CalendarDays(ref, today, blocked);
    GridDayNumbers(ref, today, blocked);
    var sunday := DayNumber(ref) - Weekday(ref);
    ModAnchor(DayNumber(ref) + 1);
    forall i | 0 <= i < |days|
      ensures Weekday(days[i].date) == i % 7
    {
      ModShift(sunday, i);
    }
  }

  lemma ModAnchor(x: int)
    ensures (x - x % 7) % 7 == 0
  {
  }

  lemma ModShift(a: int, i: nat)
    requires (a + 1) % 7 == 0
    ensures (a + i + 1) % 7 == i % 7
  {
    assert a + 1 == 7 * ((a + 1) / 7);
  }

  /** No day appears twice in the grid. */
  lemma GridDatesDistinct(ref: Date, today: Date, blocked: BlockedDates)
    requires IsFirstOfMonth(ref)
    ensures var days := CalendarDays(ref, today, blocked);
      forall i, j :: 0 <= i < j < |days| ==> days[i].date != days[j].date
  {
    GridDayNumbers(ref, today, blocked);
  }

  /** The cells from position `Weekday(ref)` on are exactly the days 1..DaysInMonth of the
      reference month, in order; every day of that month has its cell there. */
  lemma InMonthCells(ref: Date, today: Date, blocked: BlockedDates)
    requires IsFirstOfMonth(ref)
    ensures var days := CalendarDays(ref, today, blocked);
      var w, n := Weekday(ref), DaysInMonth(ref.year, ref.month);
      && w + n <= |days|
      && (forall i :: w <= i < w + n ==> days[i].date == Date(ref.year, ref.month, i - w + 1))
      && (forall d :: ValidDate(d) && d.year == ref.year && d.month == ref.month ==>
            days[w + d.day - 1].date == d)
  {
    CalendarDaysLayout(ref, today, blocked);
  }

  /** Leading padding: exactly `Weekday(ref)` cells, the days just before day 1 in ascending
      order, all disabled whatever the blocking rules say. */
  lemma LeadingPadding(ref: Date, today: Date, blocked: BlockedDates)
    requires IsFirstOfMonth(ref)
    ensures var days := CalendarDays(ref, today, blocked);
      var w := Weekday(ref);
      && w <= |days|
      && (forall i :: 0 <= i < w ==>
            days[i].disabled && ValidDate(days[i].date) && Precedes(days[i].date, ref)
            && DayNumber(days[i].date) == DayNumber(ref) - (w - i))
  {
    var days := CalendarDays(ref, today, blocked);
    CalendarDaysLayout(ref, today, blocked);
    forall i | 0 <= i < Weekday(ref)
      ensures Precedes(days[i].date, ref)
    {
      PrecedesIffEarlierDayNumber(days[i].date, ref);
    }
  }

  /** Trailing padding: exactly `6 - Weekday(last day)` cells, the days just after the last
      day in ascending order, all disabled whatever the blocking rules say. */
  lemma TrailingPadding(ref: Date, today: Date, blocked: BlockedDates)
    requires IsFirstOfMonth(ref)
    ensures var days := CalendarDays(ref, today, blocked);
      var w, n := Weekday(ref), DaysInMonth(ref.year, ref.month);
      var last := LastDayOfMonth(ref);
      && |days| == w + n + (6 - Weekday(last))
      && (forall j :: w + n <= j < |days| ==>
            days[j].disabled && ValidDate(days[j].date) && Precedes(last, days[j].date)
            && DayNumber(days[j].date) == DayNumber(last) + (j - (w + n) + 1))
  {
    var days := CalendarDays(ref, today, blocked);
    CalendarDaysLayout(ref, today, blocked);
    var w, n := Weekday(ref), DaysInMonth(ref.year, ref.month);
    forall j | w + n <= j < |days|
      ensures Precedes(LastDayOfMonth(ref), days[j].date)
    {
      PrecedesIffEarlierDayNumber(LastDayOfMonth(ref), days[j].date);
    }
  }

  /** A day of the reference month is disabled exactly when it lies before today's date
      (today itself stays open), its weekday is blocked, or its day of the month is blocked. */
  lemma InMonthAvailability(ref: Date, today: Date, blocked: BlockedDates)
    requires IsFirstOfMonth(ref) && ValidDate(today)
    ensures var days := CalendarDays(ref, today, blocked);
      var w, n := Weekday(ref), DaysInMonth(ref.year, ref.month);
      forall i :: w <= i < w + n ==>
        ValidDate(days[i].date) &&
        (days[i].disabled <==>
           DayNumber(days[i].date) < DayNumber(today) ||
           Weekday(days[i].date) in blocked.blockedWeekDays ||
           days[i].date.day in blocked.blockedDates)
  {
    var days := CalendarDays(ref, today, blocked);
    CalendarDaysLayout(ref, today, blocked);
    var w, n := Weekday(ref), DaysInMonth(ref.year, ref.month);
    forall i | w <= i < w + n
      ensures Precedes(days[i].date, today) <==> DayNumber(days[i].date) < DayNumber(today)
    {
      PrecedesIffEarlierDayNumber(days[i].date, today);
    }
  }

  /** A 31-day month starting on a Wednesday (October 2025) seen on its 15th, with Sundays
      and the 20th blocked: the 14th is past, the 15th is open, Sunday the 19th and the 20th
      are blocked, and so is Sunday the 26th; the grid opens with three disabled September
      days and closes with a disabled 1 November. */
  lemma WednesdayStartExample()
    ensures var ref, today := Date(2025, 10, 1), Date(2025, 10, 15);
      var days := CalendarDays(ref, today, BlockedDates([0], [20]));
      && Weekday(ref) == 3 && |days| == 35
      && days[0] == CalendarDay(Date(2025, 9, 28), true)
      && days[1] == CalendarDay(Date(2025, 9, 29), true)
      && days[2] == CalendarDay(Date(2025, 9, 30), true)
      && days[3 + 13] == CalendarDay(Date(2025, 10, 14), true)
      && days[3 + 14] == CalendarDay(Date(2025, 10, 15), false)
      && days[3 + 18] == CalendarDay(Date(2025, 10, 19), true)
      && days[3 + 19] == CalendarDay(Date(2025, 10, 20), true)
      && days[3 + 20] == CalendarDay(Date(2025, 10, 21), false)
      && days[3 + 25] == CalendarDay(Date(2025, 10, 26), true)
      && days[34] == CalendarDay(Date(2025, 11, 1), true)
  {
    var ref, today := Date(2025, 10, 1), Date(2025, 10, 15);
    var blocked := BlockedDates([0], [20]);
    CalendarDaysLayout(ref, today, blocked);
    assert Weekday(ref) == 3;
    assert Weekday(Date(2025, 10, 31)) == 5;
    GridIsConsecutive(ref, today, blocked);
  }
}
