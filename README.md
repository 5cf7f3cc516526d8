# Office attendance calendar — a verified model

The repository holds two small React calendars.

- **newapl.tsx**, the office attendance tracker, shows a month grid. The
  user marks the weekdays they were in the office. The tracker shows the
  working days of the month, the attendance percentage rounded to a tenth,
  and the working days still to go. Next and Previous move the shown month
  with `setMonth` and clear the selection.
- **src/Calendar.js** with **src/CalendarGrid.js** is a working-day
  calendar. It keeps the current date, a list of holidays and a list of
  days toggled as working days. It lays the month out as a table of rows of
  seven cells and shows the numerator and denominator of a working-day
  percentage.

This project models the calendar core of both in Dafny and proves
properties of it. The core is made of these parts:

- the proleptic Gregorian calendar JavaScript's `Date` computes on;
- the `Date` operations the components call: the constructor with its
  month and day overflow, `setMonth`, `getDay`, and the days-in-month idiom
  `new Date(y, m + 1, 0).getDate()`;
- the counting loops;
- the grid construction and the row chunking;
- the two selection state machines.

Modules, one per concern:

- `Gregorian` (gregorian.dfy) covers the calendar:
  - dates as `(year, month counted from 0, day)` triples;
  - month lengths under the 4/100/400 rule;
  - a day number for every day, with 1 January of year 1 as day 1;
  - the normalisation of an out-of-range day (JavaScript's MakeDay);
  - weekdays (0 = Sunday);
  - weekday counts;
  - the month shift that the corrections use.
- `DateLists` (date_lists.dfy) holds `filter(d => d !== x)`, `includes`
  and the toggle built from them.
- `JsDate` (js_date.dfy) holds `new Date(y, m, d)`, including the
  constructor's reading of a year from 0 to 99 as 1900 to 1999, `setMonth`,
  and the days-in-month idiom.
- `Attendance` (attendance.dfy) holds newapl.tsx: the counting loop, the
  grid generator, the statistics, and a `Tracker` class for the state.
- `HolidayCalendar` (holiday_calendar.dfy) holds src/Calendar.js: the
  weekday and holiday tests, the counting loop, the numerator filter, and
  a `CalendarApp` class for the state.
- `CalendarGrid` (calendar_grid.dfy) holds src/CalendarGrid.js: the cell
  list and its rows.

The state classes keep the behaviour as written. The three findings below
are each modelled twice: once as written, with a concrete lemma showing the
problem, and once corrected, with the intended property proved. The
corrected operations are `Gregorian.ShiftMonth`,
`HolidayCalendar.CountedDaysInMonth` and the `…Fixed` methods of the two
classes.

## Model

| member | source | states |
|---|---|---|
| Gregorian.MonthLength | newapl.tsx:40-44 | a month has 28 to 31 days; February has 29 exactly in a leap year of the 4/100/400 rule |
| Gregorian.AddMonths | src/Calendar.js:13 | moving a month count forwards or back gives a valid month whose index (12 × year + month) moves by exactly that count, carrying into and borrowing from the year |
| Gregorian.IndexInjective | src/Calendar.js:19 | two valid months with the same index are the same month |
| Gregorian.AddMonthsCompose | newapl.tsx:82 | two month shifts in a row equal one shift by their sum |
| Gregorian.NextMonth | src/Calendar.js:19 | the month after December is January of the next year; any other month is followed by the next month of the same year |
| Gregorian.PrevMonth | src/Calendar.js:13 | the month before January is December of the previous year; any other month is preceded by the previous month of the same year |
| Gregorian.Normalize | newapl.tsx:20 | MakeDay's handling of an out-of-range day of the month always yields a valid calendar date (where it lands: NormalizeDayNumber) |
| Gregorian.NormalizeDayNumber | newapl.tsx:20 | day `d` of a month, in range or not, lands exactly `d - 1` days after the 1st of that month (overflow carries into later months, day 0 and below borrow from earlier ones) |
| Gregorian.NormalizeInRange | newapl.tsx:20 | a day the month has is kept as it is |
| Gregorian.NormalizeDayZero | newapl.tsx:16 | day 0 of a month is the last day of the month before |
| Gregorian.NormalizeOverflow | newapl.tsx:82 | a day past the end of a month, by at most the length of the next month, lands in the next month at the excess |
| Gregorian.DayNumberOrder | newapl.tsx:21 | day numbers follow calendar order in both directions, and two valid dates share a day number only when they are equal |
| Gregorian.WeekdayOf | newapl.tsx:21 | `getDay()` lies in 0 .. 6; with 1 January 2024 a Monday and one step per day it is the day of the week |
| Gregorian.IsWeekend | src/CalendarGrid.js:33 | the weekend test of all three components (newapl.tsx:21 and 66 too): true exactly when `getDay()` is 0 or 6 |
| Gregorian.NextDayWeekday | newapl.tsx:21 | the day after any day, across month and year ends too, has the next weekday modulo 7 |
| Gregorian.JanuaryFirst2024IsMonday | newapl.tsx:21 | 1 January 2024 has `getDay()` 1 (Monday) |
| Gregorian.WeekdayColumn | newapl.tsx:54-66 | day `j` of a month has weekday `(weekday of the 1st + j - 1) mod 7`, so a grid with that many padding cells puts every day in the column of its weekday |
| Gregorian.FirstWeekday | src/CalendarGrid.js:11-15 | the weekday of the 1st, the number of padding cells, lies in 0 .. 6 |
| Gregorian.WeekdayDates | newapl.tsx:19-24 | the listed days are exactly the days 1 .. n of the month that are neither Saturday nor Sunday, in ascending order |
| Gregorian.CountIsLength | newapl.tsx:19-24 | the count of non-weekend days is the length of that list |
| Gregorian.CountStep | newapl.tsx:21-23 | the count goes up by one at day `n` exactly when day `n` is not a weekend day |
| Gregorian.WeekPeriod | newapl.tsx:19-24 | any seven consecutive days of a month hold exactly five weekdays |
| Gregorian.FourWeeks | newapl.tsx:19-24 | the first 28 days of every month hold 20 weekdays |
| Gregorian.WeekdaysInMonthBounds | newapl.tsx:13-26 | every month has between 20 and 23 weekdays, so no divisor of a percentage is zero |
| Gregorian.WeekdaysByFirstWeekday | newapl.tsx:13-26 | a month's weekdays are 20 plus the weekdays among its days after the 28th, which depend only on the weekday of its 1st and its length |
| Gregorian.January2024 | newapl.tsx:13-26 | January 2024 starts on a Monday and has 23 weekdays |
| Gregorian.February2024 | src/Calendar.js:63-74 | February 2024 has 29 days and 21 weekdays |
| Gregorian.DistinctWeekdaysBound | newapl.tsx:185 | a duplicate-free list of weekdays of one month is no longer than that month's weekday count |
| Gregorian.ShiftMonth | src/Calendar.js:11-21 | the intended navigation target: a valid 1st of the month whose index is `n` more |
| Gregorian.ShiftMonthYear | src/Calendar.js:11-21 | a shift by at most twelve months stays within one year of the start |
| Gregorian.ShiftMonthRoundTrip | src/Calendar.js:11-21 | shifting by `n` and back by `n` restores the month |
| DateLists.Without | newapl.tsx:75 | `filter(d => d !== x)` removes every occurrence of `x` and keeps every other element as often as it occurred (a multiset equation); the length drops by the number of occurrences, and a duplicate-free list stays duplicate-free |
| DateLists.WithoutMember | src/Calendar.js:29 | an element survives the filter exactly when it was present and differs from `x` |
| DateLists.Toggle | newapl.tsx:72-79 | after the toggle, `x` is present exactly when it was absent before, every other element is present exactly when it was before, and duplicate-freedom is kept |
| DateLists.ToggleAbsent | src/Calendar.js:31 | toggling an absent element appends it |
| DateLists.ToggleTwiceAbsent | newapl.tsx:72-79 | toggling an absent element twice gives back exactly the original list |
| DateLists.ToggleTwicePresent | src/Calendar.js:27-33 | toggling a present element of a duplicate-free list twice gives a permutation of the original (the same multiset) |
| DateLists.ToggleAllBuilds | newapl.tsx:72-79 | every duplicate-free list is the result of toggling its elements in order, starting from the empty selection |
| JsDate.ConstructorYear | src/Calendar.js:19 | the constructor reads a year from 0 to 99 as 1900 to 1999 with the same last two digits, keeps every other year, and never yields a year from 0 to 99 |
| JsDate.ConstructorYearTwice | src/Calendar.js:19 | a year the constructor has read is read again unchanged |
| JsDate.NewDate | newapl.tsx:20 | `new Date(y, m, d)` always yields a valid calendar date |
| JsDate.NewDateDayNumber | src/Calendar.js:13 | the constructed date lies `d - 1` days after the 1st of month `m` counted from January of the constructor's year (1900 + y for a year from 0 to 99) |
| JsDate.SetMonth | newapl.tsx:82 | `setMonth` always yields a valid calendar date |
| JsDate.SetMonthDayNumber | newapl.tsx:82 | `setMonth(m)` moves the date to `day - 1` days after the 1st of month `m` counted from January of the same year, with no two-digit reading |
| JsDate.MonthOfYear | src/CalendarGrid.js:11-15 | month `m` in 0 .. 11 counted from January is month `m` of that year |
| JsDate.DaysInMonth | src/CalendarGrid.js:16-20 | `new Date(y, m + 1, 0).getDate()` lies in 28 .. 31 |
| JsDate.DayZero | src/CalendarGrid.js:16-20 | `new Date(y, m + 1, 0)` is the last day of month `m`, so its `getDate()` is the length of month `m`, December included |
| JsDate.ConstructedMonth | src/CalendarGrid.js:11-15 | the month the constructor shows for a current date is valid and has the current date's month |
| JsDate.NewDateInMonth | src/CalendarGrid.js:28 | a day the month has is constructed unchanged, in the constructor's year |
| JsDate.GetDayOf | src/CalendarGrid.js:11-15 | `new Date(y, m, d).getDay()` is the weekday of day `d` of month `m` of the constructor's year |
| JsDate.SetMonthShift | newapl.tsx:82 | `setMonth(getMonth() + n)` keeps the day when the target month has it, and otherwise rolls over into the month after by the excess |
| Attendance.GetDaysInMonth | newapl.tsx:40-44 | the length of the shown month: 28 to 31, February with 29 exactly in leap years and every other month with at least 30 |
| Attendance.GetWorkingDaysInMonth | newapl.tsx:13-26 | the loop counts exactly the non-weekend days of the shown month, 20 to 23 of them |
| Attendance.DayOf | newapl.tsx:61-67 | the cell of day `i` carries that date, day of month `i`, and the weekend flag of that date |
| Attendance.GenerateCalendarDays | newapl.tsx:50-70 | weekday-of-the-1st empty cells, then one cell per day 1 .. totalDays in order, each with its date, its day of the month and a weekend flag true exactly on Saturday and Sunday |
| Attendance.RoundedTenths | newapl.tsx:35 | the percentage in tenths is 1000n/w rounded half up (stated as bounds on 2w × p); it lies in 0 .. 1000 when n ≤ w, is 0 for n = 0 and 1000 for n = w |
| Attendance.AttendanceStats | newapl.tsx:28-38 | the working days are the weekdays of the shown month (20 to 23); the remaining days plus the selected count give the working days; the percentage is the rounded ratio; and a selection no larger than the working days gives 0 .. 100% and no negative remainder |
| Attendance.TenDaysInJanuary2024 | newapl.tsx:28-38 | ten selected days in January 2024 give 23 working days, 43.5% and 13 days to go |
| Attendance.Tracker.constructor | newapl.tsx:9-10 | the initial state has no selection and today as the current month, and satisfies the invariant |
| Attendance.Tracker.ToggleDate | newapl.tsx:72-79 | for a weekday of the shown month, the one kind of date its caller (newapl.tsx:185) passes, the selection becomes the toggle of the old one, the month is unchanged, and the invariant (distinct weekdays of the shown month) is kept |
| Attendance.Tracker.ClickDay | newapl.tsx:185-186 | a weekend cell leaves the selection as it is, any other cell toggles its date; the invariant (distinct weekdays of the shown month) is kept |
| Attendance.Tracker.NavigateMonth | newapl.tsx:81-84 | the month becomes `setMonth(getMonth() + direction)` of the old one, the selection is cleared, and the invariant is kept |
| Attendance.Tracker.NavigateMonthFixed | newapl.tsx:81-84 | corrected navigation: the 1st of the month exactly `direction` months away; the selection is cleared |
| Attendance.Tracker.CurrentStats | newapl.tsx:28-38 | in every reachable state the selection is no larger than the working days, so the percentage lies in 0 .. 100% and the remaining days are not negative |
| Attendance.NavigateKeepsDay | newapl.tsx:82 | from a day up to the 28th, navigation keeps the day of the month and moves the month index by exactly `direction` |
| Attendance.NavigateRoundTrip | newapl.tsx:81-84 | from a day up to the 28th, navigating by `direction` and back gives back the date |
| Attendance.NextFromJanuary31 | newapl.tsx:82 | Next from 31 January 2024 shows 2 March 2024, two months on |
| Attendance.NavigateRoundTripFails | newapl.tsx:81-84 | Next then Previous from 31 January 2024 ends on 2 February 2024, not in January |
| HolidayCalendar.IsWeekday | src/Calendar.js:48-51 | true exactly when `getDay()` is neither 0 nor 6, that is, exactly when the day is not a weekend day |
| HolidayCalendar.IsWeekdayOn | src/Calendar.js:68-69 | `isWeekday(new Date(year, month, day))` for a day the month has is the weekday test of that day in the constructor's year |
| HolidayCalendar.IsHoliday | src/Calendar.js:53-60 | a date is a holiday exactly when some holiday has its day, month and year |
| HolidayCalendar.GetWeekdaysInMonth | src/Calendar.js:63-74 | the loop, which recomputes the month length in its guard and tests each day with `isWeekday`, counts exactly the weekdays of the current month, 20 to 23 of them, with no holiday subtracted |
| HolidayCalendar.CountedDays | src/Calendar.js:38-41 | the numerator keeps exactly the listed days that are weekdays and not holidays; it is no longer than the list and duplicate-free when the list is |
| HolidayCalendar.CalendarApp.constructor | src/Calendar.js:7-9 | the initial state is today, no holidays and no working days |
| HolidayCalendar.CalendarApp.HandlePrevMonth | src/Calendar.js:11-15 | the date becomes `new Date(year, month - 1, 1)`; the holidays and working days are unchanged |
| HolidayCalendar.CalendarApp.HandleNextMonth | src/Calendar.js:17-21 | the date becomes `new Date(year, month + 1, 1)`; the holidays and working days are unchanged |
| HolidayCalendar.CalendarApp.HandleShiftMonthFixed | src/Calendar.js:11-21 | corrected navigation: the 1st of the month exactly `n` months away, with the lists unchanged |
| HolidayCalendar.CalendarApp.HandleHolidayChange | src/Calendar.js:23-25 | the holidays become exactly the new list; nothing else changes |
| HolidayCalendar.CalendarApp.HandleWorkingDayToggle | src/Calendar.js:27-33 | the working days become the toggle of the old list, with no weekend check, and stay duplicate-free; nothing else changes |
| HolidayCalendar.CalendarApp.CalculateWorkingDaysPercentage | src/Calendar.js:36-45 | the denominator is the weekdays of the current month (at least 20); the numerator is the number of listed days that are weekdays and not holidays, at most the list length |
| HolidayCalendar.CalendarApp.CalculateWorkingDaysPercentageFixed | src/Calendar.js:36-45 | corrected numerator: the listed weekdays of the current month that are not holidays, never more than the denominator |
| HolidayCalendar.WeekendNotCounted | src/Calendar.js:38-41 | toggling on a weekend day leaves the numerator unchanged |
| HolidayCalendar.HolidayNotCounted | src/Calendar.js:38-41 | toggling on a holiday leaves the numerator unchanged |
| HolidayCalendar.NotCountedAppended | src/Calendar.js:40 | appending a day the filter rejects leaves the filtered list unchanged |
| HolidayCalendar.CountedAppended | src/Calendar.js:38-41 | toggling on a weekday that is not a holiday appends it to the numerator's list |
| HolidayCalendar.NavigationShift | src/Calendar.js:11-21 | outside the years 0 .. 99, `new Date(year, month ± n, 1)` is exactly the 1st of the month `n` months away |
| HolidayCalendar.NavigateBack | src/Calendar.js:11-21 | moving `n` months and back restores the month when neither year lies in 0 .. 99 |
| HolidayCalendar.PrevAfterNext | src/Calendar.js:11-21 | Previous after Next restores the (year, month) for every year outside -1 .. 99 |
| HolidayCalendar.NextAfterPrev | src/Calendar.js:11-21 | Next after Previous restores the (year, month) for every year outside 0 .. 100 |
| HolidayCalendar.NextFromDecember99 | src/Calendar.js:17-21 | Next from December of year 99 shows January 2000 |
| HolidayCalendar.PrevThenNextFromJanuary100 | src/Calendar.js:11-21 | Previous from January of year 100 shows December 99, and Next from there shows January 2000 |
| HolidayCalendar.CountedDaysInMonth | src/Calendar.js:38-41 | corrected numerator: exactly the listed days of month `k` that are weekdays and not holidays, duplicate-free when the list is |
| HolidayCalendar.CountedInMonthBound | src/Calendar.js:43 | the corrected numerator never exceeds the weekdays of the month |
| HolidayCalendar.SameMonthAgrees | src/Calendar.js:38-41 | when every listed day lies in the current month, the corrected and the as-written numerators agree |
| HolidayCalendar.WholeMonthCounted | src/Calendar.js:38-41 | with no holidays, all weekdays of a month listed give a numerator equal to the month's weekday count |
| HolidayCalendar.AllWeekdaysCounted | src/Calendar.js:38-41 | a list of weekdays with no holidays passes the filter whole |
| HolidayCalendar.NumeratorExceedsDenominator | src/Calendar.js:36-45 | all 23 weekdays of January 2024 listed while February 2024 (21 weekdays) is shown give numerator 23 over denominator 21 |
| CalendarGrid.DayCellOf | src/CalendarGrid.js:28-40 | the cell of a day carries that date; `isWeekend` exactly on Saturday and Sunday, `isHoliday` exactly when the date is among the holidays, `isWorkingDay` exactly when it is among the working days |
| CalendarGrid.BuildDays | src/CalendarGrid.js:11-45 | `firstDay` is the weekday of the 1st (0 .. 6) and `daysInMonth` the month length (28 .. 31); the list has `firstDay` padding cells, then the cells of days 1 .. daysInMonth in order with their three flags |
| CalendarGrid.Rows | src/CalendarGrid.js:50-52 | `ceil(len / 7)` rows, each of 1 to 7 cells, all but the last of exactly 7 |
| CalendarGrid.RowCell | src/CalendarGrid.js:51 | cell `j` of row `i` is cell `7i + j` of the list |
| CalendarGrid.RowsStep | src/CalendarGrid.js:51 | the first row is the first seven cells (or all of them) and the other rows are the rows of the rest |
| CalendarGrid.FlattenRows | src/CalendarGrid.js:50-52 | putting the rows back together gives the cell list unchanged |
| CalendarGrid.MonthRows | src/CalendarGrid.js:50 | a month table has 4 to 6 rows: 4 only for a 28-day February starting on a Sunday, and 6 exactly when padding and days pass 35 cells |

## Left out

- Time of day and time zones are left out. A `Date` is modelled as its
  local (year, month, day) fields. So the UTC shift of
  `toISOString().split('T')[0]` (newapl.tsx:73) is not modelled: east of
  UTC it names the previous day, but it affects the key of the selection
  test (newapl.tsx:172) and of the toggle alike.
- The string forms of selection keys are left out: `toISOString` in
  newapl.tsx and `toDateString` with its parse back by `new Date(day)` in
  src/Calendar.js. Keys are modelled as the dates themselves.
- The range limit of JavaScript dates (±8.64e15 ms) is left out; years are
  unbounded.
- Floating point is left out. In newapl.tsx the percentage is computed
  exactly, in tenths of a percent, rounded half up as `Math.round` does for
  non-negative values. Binary rounding error of `n / w * 100 * 10` is not
  modelled.
- In src/Calendar.js only the numerator and denominator are modelled;
  `toFixed(2)` and the `calculation` string are not.
- `getDayName` (`toLocaleDateString`) is left out because it depends on the
  locale. So is the `dayName` field of a grid cell.
- `submitAttendance` is left out because it is network I/O (`fetch`) and
  message text.
- The JSX, the UI components, the CSS class names of src/DayCell.js, and
  the `useState`/`useMemo` mechanics are left out. The state is modelled as
  the fields of `Tracker` and `CalendarApp`. A re-render is the next method
  call.
- src/CalendarHeader.js, a month-name lookup, is not part of this model.
- src/DayCell.js is not part of this model beyond what its clicks deliver.
  Every click reaches `HandleWorkingDayToggle` with the cell's date.
  `onHolidayChange` is passed to it but never called, so the application's
  holiday list always stays empty. The model still takes
  arbitrary holiday lists.
- newapl.tsx builds the grid months through the constructor. For a current
  month in the years 0 .. 99 they show 1900 .. 1999, while `setMonth` keeps
  the year as it is. The model keeps this difference: the grid uses
  `ConstructedMonth` and navigation uses `SetMonth`.
- Gregorian.Normalize: its contract states only that the result is a
  valid date. Where the date lands is stated by Gregorian.NormalizeDayNumber.
- JsDate.NewDate: its contract states only that the result is a valid
  date. Where the date lands is stated by JsDate.NewDateDayNumber.
- JsDate.SetMonth: its contract states only that the result is a valid
  date. Where the date lands is stated by JsDate.SetMonthDayNumber.
- JsDate.DaysInMonth: defined as the month length in the constructor's
  year. JsDate.DayZero proves that the `new Date(y, m + 1, 0).getDate()`
  idiom yields this value.
- Attendance.GetWorkingDaysInMonth: the count is stated against
  `Gregorian.WeekdaysInMonth` and bounded by 20 .. 23. "At most
  daysInMonth" follows from the upper bound and is not stated separately.
- HolidayCalendar.GetWeekdaysInMonth: likewise.

## Findings

| source | as written | input that shows it | evidently intended | confidence | as-written member | corrected member |
|---|---|---|---|---|---|---|
| newapl.tsx:82 | `setMonth(getMonth() + direction)` keeps the day of the month, and a day the target month lacks rolls over into the month after | 31 January 2024, Next: shows 2 March 2024 and skips February; Previous from there gives 2 February | move exactly one month, e.g. to the 1st of the adjacent month | not executed | Attendance.NextFromJanuary31 | Attendance.Tracker.NavigateMonthFixed |
| src/Calendar.js:19 | `new Date(getFullYear(), getMonth() + 1, 1)` hands the year back to the constructor, which reads 0 .. 99 as 1900 .. 1999 | 1 December of year 99, Next: shows January 2000, not January 100 | move to the 1st of the adjacent month of the same calendar | not executed | HolidayCalendar.NextFromDecember99 | HolidayCalendar.CalendarApp.HandleShiftMonthFixed |
| src/Calendar.js:38-41 | the numerator counts every listed weekday that is not a holiday, whatever its month, and navigation never clears the list | all 23 weekdays of January 2024 listed, then Next to February 2024: numerator 23 over 21 weekdays, above 100% | count only the working days of the shown month | not executed | HolidayCalendar.NumeratorExceedsDenominator | HolidayCalendar.CountedDaysInMonth |
