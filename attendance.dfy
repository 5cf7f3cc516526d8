/** The office attendance tracker of newapl.tsx: a month grid in which the
    user selects the weekdays they were in the office, the attendance
    statistics for the shown month, and the component state (the selected
    dates and the current month) with its three transitions. */
module Attendance {
  import opened Gregorian
  import opened JsDate
  import opened DateLists

  /** `getDaysInMonth`: the last day of the shown month, through the
      `new Date(year, month + 1, 0)` idiom (see DayZero): 28 or 29 days
      for February by the leap-year rule, 30 or 31 for the other months. */
  function GetDaysInMonth(date: Date): (n: int)
    requires date.Valid()
    ensures n == MonthLength(ConstructorYear(date.year), date.month)
    ensures 28 <= n <= 31
    ensures date.month == 1 ==> (n == 29 <==> IsLeapYear(ConstructorYear(date.year)))
    ensures date.month != 1 ==> 30 <= n
  {
    DaysInMonth(date.year, date.month)
  }

  /** `getWorkingDaysInMonth`: the days 1 .. totalDays of the shown month
      whose weekday is neither Sunday (0) nor Saturday (6), counted one by
      one. There are always at least 20, so the division of the percentage
      is never by zero. */
  method GetWorkingDaysInMonth(date: Date) returns (workingDays: int)
    requires date.Valid()
    ensures workingDays == WeekdaysInMonth(ConstructedMonth(date))
    ensures 20 <= workingDays <= 23
  {
    var year := date.year;
    var month := date.month;
    var totalDays := DaysInMonth(year, month);
    ghost var k := ConstructedMonth(date);
    workingDays := 0;
    var day := 1;
    while day <= totalDays
      invariant 1 <= day <= totalDays + 1
      invariant workingDays == CountWeekdays(k, day - 1)
    {
      var weekday := GetDayOf(year, month, day);
      CountStep(k, day, weekday != 0 && weekday != 6);
      if weekday != 0 && weekday != 6 {
        workingDays := workingDays + 1;
      }
      day := day + 1;
    }
    WeekdaysInMonthBounds(k);
  }

  /** A cell of the month grid: padding before the 1st, or a day. */
  datatype CalendarDay = Empty | Day(date: Date, dayOfMonth: int, isWeekend: bool)

  /** The cell `generateCalendarDays` pushes for day `i` of the shown month:
      that date, its day of the month, and whether it is a Saturday or a
      Sunday. */
  method DayOf(currentMonth: Date, i: int) returns (cell: CalendarDay)
    requires currentMonth.Valid()
    requires var k := ConstructedMonth(currentMonth);
             1 <= i <= MonthLength(k.year, k.month)
    ensures var k := ConstructedMonth(currentMonth);
            cell == Day(Date(k.year, k.month, i), i, IsWeekend(Date(k.year, k.month, i)))
  {
    var date := NewDate(currentMonth.year, currentMonth.month, i);
    NewDateInMonth(currentMonth.year, currentMonth.month, i);
    cell := Day(date, i, WeekdayOf(date) == 0 || WeekdayOf(date) == 6);
  }

  /** `generateCalendarDays`: one empty cell per weekday before the 1st,
      then one cell per day of the shown month in ascending order, each
      flagged as weekend exactly when it falls on a Saturday or a Sunday.
      By WeekdayColumn, the cell of every day sits in the column (index
      modulo 7) of its weekday. */
  method GenerateCalendarDays(currentMonth: Date) returns (days: seq<CalendarDay>)
    requires currentMonth.Valid()
    ensures var k := ConstructedMonth(currentMonth);
            |days| == FirstWeekday(k) + MonthLength(k.year, k.month)
    ensures var k := ConstructedMonth(currentMonth);
            forall i :: 0 <= i < FirstWeekday(k) ==> days[i] == Empty
    ensures var k := ConstructedMonth(currentMonth);
            forall j :: 1 <= j <= MonthLength(k.year, k.month) ==>
              var cell := days[FirstWeekday(k) + j - 1];
              cell == Day(Date(k.year, k.month, j), j, IsWeekend(Date(k.year, k.month, j)))
  {
    ghost var k := ConstructedMonth(currentMonth);
    days := [];
    var totalDays := GetDaysInMonth(currentMonth);
    var startingDayOfWeek := GetDayOf(currentMonth.year, currentMonth.month, 1);
    var i := 0;
    while i < startingDayOfWeek
      invariant 0 <= i <= startingDayOfWeek && |days| == i
      invariant forall t :: 0 <= t < i ==> days[t] == Empty
    {
      days := days + [Empty];
      i := i + 1;
    }
    i := 1;
    while i <= totalDays
      invariant 1 <= i <= totalDays + 1
      invariant |days| == startingDayOfWeek + i - 1
      invariant forall t :: 0 <= t < startingDayOfWeek ==> days[t] == Empty
      invariant forall j :: 1 <= j < i ==>
                  var cell := days[startingDayOfWeek + j - 1];
                  cell == Day(Date(k.year, k.month, j), j, IsWeekend(Date(k.year, k.month, j)))
    {
      var cell := DayOf(currentMonth, i);
      days := days + [cell];
      i := i + 1;
    }
  }

  /** The statistics shown above the grid; the percentage in tenths of a
      percent. */
  datatype Stats = Stats(workingDays: int, percentTenths: int, remainingDays: int)

  /** `Math.round(n / w * 100 * 10) / 10` on exact rationals, in tenths:
      1000n/w rounded to the nearest integer, a half rounded up. */
  function RoundedTenths(n: nat, w: int): (p: int)
    requires w > 0
    ensures 2 * w * p <= 2000 * n + w < 2 * w * (p + 1)
    ensures n <= w ==> 0 <= p <= 1000
    ensures n == 0 ==> p == 0
    ensures n == w ==> p == 1000
  {
    var p := (2000 * n + w) / (2 * w);
    RoundingBounds(n, w, p);
    p
  }

  lemma RoundingBounds(n: nat, w: int, p: int)
    requires w > 0 && p == (2000 * n + w) / (2 * w)
    ensures 2 * w * p <= 2000 * n + w < 2 * w * (p + 1)
    ensures n <= w ==> 0 <= p <= 1000
    ensures n == 0 ==> p == 0
    ensures n == w ==> p == 1000
  {
    var m := 2000 * n + w;
    var d := 2 * w;
    var r := m % d;
    assert m == d * p + r && 0 <= r < d;
    if p < 0 { ScaleMono(d, p, -1); }
    if n <= w && p > 1000 { ScaleMono(d, 1001, p); }
    if n == 0 && p > 0 { ScaleMono(d, 1, p); }
    if n == w && p < 1000 { ScaleMono(d, p + 1, 1000); }
  }

  lemma ScaleMono(a: int, x: int, y: int)
    requires a > 0 && x <= y
    ensures a * x <= a * y
  {
  }

  /** `attendanceStats` for `selectedCount` selected dates: the working
      days of the shown month, the rounded percentage and the working days
      still to go. */
  function AttendanceStats(currentMonth: Date, selectedCount: nat): (s: Stats)
    requires currentMonth.Valid()
    ensures s.workingDays == WeekdaysInMonth(ConstructedMonth(currentMonth))
    ensures 20 <= s.workingDays <= 23
    ensures s.remainingDays + selectedCount == s.workingDays
    ensures 2 * s.workingDays * s.percentTenths <= 2000 * selectedCount + s.workingDays
             < 2 * s.workingDays * (s.percentTenths + 1)
    ensures selectedCount <= s.workingDays ==> 0 <= s.percentTenths <= 1000 && 0 <= s.remainingDays
  {
    var workingDays := WeekdaysInMonth(ConstructedMonth(currentMonth));
    WeekdaysInMonthBounds(ConstructedMonth(currentMonth));
    Stats(workingDays, RoundedTenths(selectedCount, workingDays), workingDays - selectedCount)
  }

  /** Ten office days in January 2024, a month of 23 working days, make
      43.5% with 13 days to go. */
  lemma TenDaysInJanuary2024(d: Date)
    requires d == Date(2024, 0, 15)
    ensures AttendanceStats(d, 10) == Stats(23, 435, 13)
  {
    January2024(ConstructedMonth(d));
    TenOfTwentyThree(AttendanceStats(d, 10));
  }

  lemma TenOfTwentyThree(s: Stats)
    requires s.workingDays == 23 && s.remainingDays + 10 == 23
    requires 46 * s.percentTenths <= 20023 < 46 * (s.percentTenths + 1)
    ensures s == Stats(23, 435, 13)
  {
  }

  /** The component state: the selected dates and the current month. */
  class Tracker {
    var selectedDates: seq<Date>
    var currentMonth: Date

    /** Every selected date is a distinct weekday of the shown month. */
    ghost predicate Valid()
      reads this
    {
      currentMonth.Valid() && NoDuplicates(selectedDates)
      && forall x :: x in selectedDates ==> IsWeekdayIn(x, ConstructedMonth(currentMonth))
    }

    /** The initial state: no selection, the current month is today. */
    constructor(today: Date)
      requires today.Valid()
      ensures Valid() && selectedDates == [] && currentMonth == today
    {
      selectedDates := [];
      currentMonth := today;
    }

    /** `toggleDate`: remove every occurrence of a selected date, otherwise
        append it. Its one caller, the click handler, passes a weekday of
        the shown month, so the selection keeps holding distinct weekdays
        of that month. */
    method ToggleDate(date: Date)
      requires Valid() && IsWeekdayIn(date, ConstructedMonth(currentMonth))
      modifies this
      ensures Valid()
      ensures selectedDates == Toggle(old(selectedDates), date)
      ensures currentMonth == old(currentMonth)
    {
      if date in selectedDates {
        selectedDates := Without(selectedDates, date);
      } else {
        selectedDates := selectedDates + [date];
      }
      assert selectedDates == Toggle(old(selectedDates), date);
      forall x | x in selectedDates
        ensures IsWeekdayIn(x, ConstructedMonth(currentMonth))
      {
        assert x in old(selectedDates) || x == date;
      }
    }

    /** The click handler of the day cell `dayOfMonth` of the grid: a weekend
        cell does nothing, any other toggles its date. */
    method ClickDay(dayOfMonth: int)
      requires Valid()
      requires var k := ConstructedMonth(currentMonth);
               1 <= dayOfMonth <= MonthLength(k.year, k.month)
      modifies this
      ensures Valid()
      ensures currentMonth == old(currentMonth)
      ensures var k := ConstructedMonth(currentMonth);
              var date := Date(k.year, k.month, dayOfMonth);
              selectedDates == if IsWeekend(date) then old(selectedDates)
                               else Toggle(old(selectedDates), date)
    {
      var date := NewDate(currentMonth.year, currentMonth.month, dayOfMonth);
      NewDateInMonth(currentMonth.year, currentMonth.month, dayOfMonth);
      var isWeekend := WeekdayOf(date) == 0 || WeekdayOf(date) == 6;
      if !isWeekend {
        ToggleDate(date);
      }
    }

    /** `navigateMonth`: `setMonth(getMonth() + direction)` on the current
        month, and the selection cleared. */
    method NavigateMonth(direction: int)
      requires Valid()
      modifies this
      ensures Valid()
      ensures currentMonth == SetMonth(old(currentMonth), old(currentMonth).month + direction)
      ensures selectedDates == []
    {
      currentMonth := SetMonth(currentMonth, currentMonth.month + direction);
      selectedDates := [];
    }

    /** `navigateMonth` as intended: the 1st of the month `direction`
        months away, so that no month is skipped, and the selection
        cleared. */
    method NavigateMonthFixed(direction: int)
      requires Valid()
      modifies this
      ensures Valid()
      ensures currentMonth == ShiftMonth(old(currentMonth), direction)
      ensures currentMonth.Key().Index() == old(currentMonth).Key().Index() + direction
      ensures selectedDates == []
    {
      currentMonth := ShiftMonth(currentMonth, direction);
      selectedDates := [];
    }

    /** The statistics of the current state. Since only weekdays of the
        shown month can be selected, and each at most once, the selection
        never exceeds the working days. */
    function CurrentStats(): (s: Stats)
      reads this
      requires Valid()
      ensures s == AttendanceStats(currentMonth, |selectedDates|)
      ensures |selectedDates| <= s.workingDays
      ensures 0 <= s.percentTenths <= 1000 && 0 <= s.remainingDays
    {
      DistinctWeekdaysBound(selectedDates, ConstructedMonth(currentMonth));
      AttendanceStats(currentMonth, |selectedDates|)
    }
  }

  /** Navigation keeps the day of the month and, for a day the target month
      has, moves the current month by exactly `direction` months; a later
      day rolls over into the month after. */
  lemma NavigateKeepsDay(d: Date, direction: int)
    requires d.Valid() && d.day <= 28
    ensures SetMonth(d, d.month + direction).day == d.day
    ensures SetMonth(d, d.month + direction).Key().Index() == d.Key().Index() + direction
  {
    SetMonthShift(d, direction);
  }

  /** From a day up to the 28th, Next then Previous gives back the date. */
  lemma NavigateRoundTrip(d: Date, direction: int)
    requires d.Valid() && d.day <= 28
    ensures var e := SetMonth(d, d.month + direction);
            SetMonth(e, e.month - direction) == d
  {
    var e := SetMonth(d, d.month + direction);
    NavigateKeepsDay(d, direction);
    var f := SetMonth(e, e.month - direction);
    NavigateKeepsDay(e, -direction);
    assert f.day == d.day && f.Key().Index() == d.Key().Index();
    IndexInjective(f.Key(), d.Key());
    assert f.year == d.year && f.month == d.month;
  }

  /** Next from January 31st, 2024 shows March: February has no 31st and the
      date rolls over to March 2nd. */
  lemma NextFromJanuary31(d: Date)
    requires d == Date(2024, 0, 31)
    ensures SetMonth(d, d.month + 1) == Date(2024, 2, 2)
    ensures SetMonth(d, d.month + 1).Key().Index() == d.Key().Index() + 2
  {
    var t := AddMonths(d.Key(), 1);
    IndexInjective(t, MonthKey(2024, 1));
    IndexInjective(AddMonths(t, 1), MonthKey(2024, 2));
    SetMonthShift(d, 1);
  }

  /** Next then Previous from January 31st, 2024 lands in February. */
  lemma NavigateRoundTripFails(d: Date)
    requires d == Date(2024, 0, 31)
    ensures var e := SetMonth(d, d.month + 1);
            SetMonth(e, e.month - 1) == Date(2024, 1, 2)
  {
    NextFromJanuary31(d);
    var e := SetMonth(d, d.month + 1);
    SetMonthShift(e, -1);
  }
}
