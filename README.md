# Booking calendar: month grid and month navigation

This project models the logic of the `Calendar` component of an appointment-booking
web app (`src/components/Calendar/index.tsx`). The component shows one month as a grid
of whole weeks. The grid holds the days of the displayed month and, to fill the first
and last week, a few days of the neighbouring months. Each day is marked available or
disabled. The rules for this come from the server (blocked weekdays and blocked days of
the month) and from the current date. Two buttons move the displayed month back or
forward. When the confirmation notice closes, the component strips the query string
from the current path.

The model has four modules:

- `Dates` (`dates.dfy`): the date arithmetic the component gets from its date library,
  as integer functions on `Date(year, month, day)`. Dates are proleptic Gregorian and
  have no time of day. The functions cover leap years, days in a month, the day number
  counted from 1 January of year 1, the weekday (Sunday = 0), the previous and next day,
  adding and subtracting days, adding months, and calendar order (`Precedes`).
- `CalendarGrid` (`calendar_grid.dfy`): the grid builder `calendarWeeks`. It covers
  the in-month days, the leading and trailing padding, the availability rule, and the
  partition into weeks. The flat list is a function (`CalendarDays`), and the
  availability rule for a day of the month is the predicate `IsDisabled`. The `reduce` that
  pushes each week into an accumulator is a method with a loop (`PartitionWeeks`),
  proved equal to the chunking function `Weeks`. `BuildCalendarWeeks` is the whole
  builder.
- `Navigation` (`navigation.dfy`): the component's `currentDate` state, as the class
  `MonthNavigator` with a `currentDate` field. Its constructor sets the field to day 1
  of the current month. `HandlePreviousMonth` and `HandleNextMonth` replace the field.
  This module also holds the lemmas about month rollover and round trips.
- `QueryPath` (`query_path.dfy`): the path computed in `onUpdateUrlAfterCloseToast`.
  It models the string operations `indexOf` and `substring`, including how `substring`
  clamps and swaps its bounds.

"Now" is a parameter, `today: Date` (the current calendar day). The source disables a
day when the end of that day is before the current instant. For calendar days this
means the day is strictly before today's date, so today itself stays available.

Decisions on how the code is read:

- The date library moves a date by months the way `AddMonths` does. The month changes by
  exactly `n`. The day is clamped to the length of the target month. The component only
  ever holds day 1, so the clamp never applies there (`ShiftKeepsFirstOfMonth`).
- The grid builder takes the weekday of the reference date as the weekday of day 1, and
  it subtracts days from the reference date to get the leading padding. Both are only
  right when the reference date is day 1. So `CalendarDays` and `BuildCalendarWeeks`
  require `IsFirstOfMonth(ref)`. The component guarantees this: it sets the day to 1 at
  start-up, and `MonthNavigator.Valid()` shows that month moves keep it.
- The week number `i / 7 + 1` is a floating-point division in the source. It is only
  computed when `i % 7 == 0`, so integer division gives the same value.
- The grid is meant to cover whole weeks by construction. The code gets there with
  `7 - (lastWeekDay + 1)` trailing days, and the model uses that expression as written.
  `GridIsWholeWeeks` proves that the total is a multiple of 7 and between 28 and 42.

## Model

| member | source | states |
|---|---|---|
| `Dates.DaysInMonth` | src/components/Calendar/index.tsx:117-118 | a month has 28 to 31 days; February has 29 exactly in leap years |
| `Dates.PrecedesIffEarlierDayNumber` | src/components/Calendar/index.tsx:154 | the calendar order of two valid dates is the order of their day numbers, in both directions |
| `Dates.DayNumberInjective` | src/components/Calendar/index.tsx:154 | two valid dates with the same day number are the same date |
| `Dates.NextDay` | src/components/Calendar/index.tsx:143 | the next day is a valid date whose day number is one more, across month and year ends |
| `Dates.PreviousDay` | src/components/Calendar/index.tsx:129 | the previous day is a valid date whose day number is one less, across month and year starts |
| `Dates.AddDays` | src/components/Calendar/index.tsx:140-144 | adding `n` days gives a valid date exactly `n` day numbers later |
| `Dates.SubtractDays` | src/components/Calendar/index.tsx:125-131 | subtracting `n` days gives a valid date exactly `n` day numbers earlier |
| `Dates.WeekdayOfNextDay` | src/components/Calendar/index.tsx:125-144 | the weekday of the next day is the weekday after, wrapping from Saturday (6) to Sunday (0) |
| `Dates.Weekday` | src/components/Calendar/index.tsx:123 | the weekday index of a valid date is 0..6, Sunday = 0; `KnownWeekdays` and `WeekdayOfNextDay` pin it to the real calendar |
| `Dates.KnownWeekdays` | src/components/Calendar/index.tsx:123 | the weekday count is anchored: 1970-01-01 is a Thursday and 2000-01-01 a Saturday |
| `Dates.AddMonths` | src/components/Calendar/index.tsx:78-86 | moving by `n` months gives a valid date exactly `n` months away; the day is kept, or clamped to the last day when the target month is shorter |
| `Navigation.MonthNavigator.constructor` | src/components/Calendar/index.tsx:48-50 | the initial displayed month is day 1 of today's month |
| `Navigation.MonthNavigator.HandlePreviousMonth` | src/components/Calendar/index.tsx:78-81 | replaces the displayed month with the one before it and keeps it on day 1 |
| `Navigation.MonthNavigator.HandleNextMonth` | src/components/Calendar/index.tsx:83-86 | replaces the displayed month with the one after it and keeps it on day 1 |
| `Navigation.ShiftKeepsFirstOfMonth` | src/components/Calendar/index.tsx:78-86 | moving day 1 of a month by any number of months lands on day 1 of the month that many months away |
| `Navigation.NextMonthRollover` | src/components/Calendar/index.tsx:83-86 | next month is the following month of the same year, and December goes to January of the next year |
| `Navigation.PreviousMonthRollover` | src/components/Calendar/index.tsx:78-81 | previous month is the preceding month of the same year, and January goes to December of the previous year |
| `Navigation.NextPreviousRoundTrip` | src/components/Calendar/index.tsx:78-86 | next then previous month, and previous then next month, give back the original first-of-month date |
| `Navigation.GridAfterRoundTrip` | src/components/Calendar/index.tsx:78-86 | after one month forward and one back, the grid equals the original grid for the same rules and today |
| `CalendarGrid.PartitionWeeks` | src/components/Calendar/index.tsx:164-177 | the loop that pushes a week at every multiple of 7 builds exactly the chunking `Weeks(days)` |
| `CalendarGrid.BuildCalendarWeeks` | src/components/Calendar/index.tsx:112-180 | no weeks exactly when the blocking rules are absent; otherwise weeks numbered 1, 2, ... of exactly 7 days that concatenate back to the flat day list |
| `CalendarGrid.WeeksFlatten` | src/components/Calendar/index.tsx:164-177 | concatenating the weeks gives back the flat list, for any list |
| `CalendarGrid.WholeWeeks` | src/components/Calendar/index.tsx:164-177 | when the list length is a multiple of 7, week `k` is numbered `k + 1` and holds elements `7k` to `7k + 6` |
| `CalendarGrid.CalendarDaysLayout` | src/components/Calendar/index.tsx:146-162 | the flat list is the leading padding (disabled), then day 1 to the last day with the availability rule, then the trailing padding (disabled), with the stated lengths |
| `CalendarGrid.GridDayNumbers` | src/components/Calendar/index.tsx:125-144 | cell `i` holds the valid date whose day number is `i` past the Sunday on or before day 1 |
| `CalendarGrid.GridIsWholeWeeks` | src/components/Calendar/index.tsx:123-146 | the flat list's length is a multiple of 7, between 28 and 42 |
| `CalendarGrid.GridIsConsecutive` | src/components/Calendar/index.tsx:125-144 | each cell is the day after the previous cell, and the cell at position `i` falls on weekday `i % 7`, so the grid starts on a Sunday |
| `CalendarGrid.GridDatesDistinct` | src/components/Calendar/index.tsx:117-144 | no date appears twice in the grid |
| `CalendarGrid.InMonthCells` | src/components/Calendar/index.tsx:117-121 | after the leading padding come exactly days 1 to the last day of the reference month, in order, and every day of that month has its cell there |
| `CalendarGrid.LeadingPadding` | src/components/Calendar/index.tsx:123-149 | there are `weekday(day 1)` leading cells: the days immediately before day 1, in ascending order, earlier than day 1 and all disabled |
| `CalendarGrid.TrailingPadding` | src/components/Calendar/index.tsx:133-161 | there are `6 - weekday(last day)` trailing cells: the days immediately after the last day, in ascending order, later than it and all disabled |
| `CalendarGrid.InMonthAvailability` | src/components/Calendar/index.tsx:150-157 | an in-month day is disabled exactly when its day number is below today's, or its weekday is blocked, or its day of the month is blocked |
| `CalendarGrid.WednesdayStartExample` | src/components/Calendar/index.tsx:150-157 | October 2025 viewed on the 15th with Sundays and the 20th blocked: the 14th is past, the 15th is open, Sundays the 19th and 26th and the 20th are blocked, the 21st is open, and the grid is 35 cells opening with disabled 28 to 30 September and closing with a disabled 1 November |
| `QueryPath.IndexOf` | src/components/Calendar/index.tsx:73 | returns -1 exactly when the character is absent; otherwise the position of its first occurrence |
| `QueryPath.Substring` | src/components/Calendar/index.tsx:71-74 | in-range bounds give the slice between them, swapped bounds are exchanged, and a negative end counts as 0 |
| `QueryPath.PathWithoutQueryParams` | src/components/Calendar/index.tsx:70-74 | a path with a `?` becomes the text before its first `?`; a path without one becomes the empty string |

## Left out

- Fetching the blocking rules (src/components/Calendar/index.tsx:95-110): this is network I/O. The rules are an `Option<BlockedDates>` parameter, and `None` stands for pending or failed. The source discards stale responses through its data layer's keyed cache, which is not part of this model.
- Router access, `router.push` with shallow routing, and the toast's open state (src/components/Calendar/index.tsx:54-76): these are framework side effects. Only the computed path is modelled.
- Date and month-name formatting (src/components/Calendar/index.tsx:60-61, 90-91, 224): this is locale string formatting by the date library.
- `getWeekDays` (src/components/Calendar/index.tsx:17, 88): src/utils/get-week-days is not part of this model.
- Rendering and click handling (src/components/Calendar/index.tsx:182-264): a disabled day cannot be selected because of how disabled buttons behave, not because of the component's logic.
- Time of day: dates carry no time. The source keeps the time of day of "now" in `currentDate`, but only whole calendar days are compared.
- The date library itself: its arithmetic is modelled in `Dates` under the proleptic Gregorian calendar, with unbounded years. The library's own range limits and time zones are not modelled.
- src/components/Toast/index.tsx, src/components/Tooltip/index.tsx and src/pages/home/index.tsx: these are presentational wrappers and pages without logic.
- String positions: `IndexOf` and `Substring` count positions in characters (Unicode scalar values), not in UTF-16 code units as the browser's string operations do. The positions differ when a character outside the Basic Multilingual Plane comes before the `?`; the text `PathWithoutQueryParams` returns is the same either way.
