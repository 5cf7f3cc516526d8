/** The calendar component of src/Calendar.js: the current date, the
    holidays and the days marked as working days, the month navigation, and
    the working-day percentage of the current month. */
module HolidayCalendar {
  import opened Gregorian
  import opened JsDate
  import opened DateLists

  /** `isWeekday`: getDay() is neither Sunday (0) nor Saturday (6), so a
      day is a weekday exactly when it is not a weekend day. */
  predicate IsWeekday(date: Date)
    requires 0 <= date.month < 12
    ensures IsWeekday(date) <==> !IsWeekend(date)
  {
    WeekdayOf(date) != 0 && WeekdayOf(date) != 6
  }

  /** `isWeekday(new Date(year, month, day))` for a day the month has. */
  method IsWeekdayOn(year: int, month: int, day: int) returns (b: bool)
    requires 0 <= month < 12 && 1 <= day <= MonthLength(ConstructorYear(year), month)
    ensures b == IsWeekday(Date(ConstructorYear(year), month, day))
  {
    var currentDate := NewDate(year, month, day);
    NewDateInMonth(year, month, day);
    b := IsWeekday(currentDate);
  }

  /** `isHoliday`: `holidays.some(h => ...)`, comparing getDate(),
      getMonth() and getFullYear(); a date is a holiday exactly when it is
      one of the holidays. */
  function IsHoliday(date: Date, holidays: seq<Date>): (r: bool)
    ensures r <==> date in holidays
  {
    if holidays == [] then false
    else
      var h := holidays[0];
      assert holidays == [h] + holidays[1..];
      (h.day == date.day && h.month == date.month && h.year == date.year)
      || IsHoliday(date, holidays[1..])
  }

  /** `getWeekdaysInMonth`: the weekdays among days 1 .. daysInMonth of the
      current month, counted one by one; holidays are not subtracted. There
      are always at least 20, so the percentage never divides by zero. */
  method GetWeekdaysInMonth(date: Date) returns (weekdays: int)
    requires date.Valid()
    ensures weekdays == WeekdaysInMonth(ConstructedMonth(date))
    ensures 20 <= weekdays <= 23
  {
    var year := date.year;
    var month := date.month;
    ghost var k := ConstructedMonth(date);
    weekdays := 0;
    var day := 1;
    while day <= DaysInMonth(year, month)
      invariant 1 <= day <= DaysInMonth(year, month) + 1
      invariant weekdays == CountWeekdays(k, day - 1)
    {
      var isWeekday := IsWeekdayOn(year, month, day);
      CountStep(k, day, isWeekday);
      if isWeekday {
        weekdays := weekdays + 1;
      }
      day := day + 1;
    }
    WeekdaysInMonthBounds(k);
  }

  /** The entries of `workingDays` the numerator of
      `calculateWorkingDaysPercentage` keeps: `filter(day => isWeekday(date)
      && !isHoliday(date))`, in their order. */
  function CountedDays(workingDays: seq<Date>, holidays: seq<Date>): (r: seq<Date>)
    requires AllValid(workingDays)
    ensures forall x :: x in r ==> x in workingDays && IsWeekday(x) && x !in holidays
    ensures forall x :: x in workingDays && IsWeekday(x) && x !in holidays ==> x in r
    ensures |r| <= |workingDays|
    ensures NoDuplicates(workingDays) ==> NoDuplicates(r)
  {
    if workingDays == [] then []
    else
      var d := workingDays[0];
      assert workingDays == [d] + workingDays[1..];
      assert d in workingDays;
      var rest := CountedDays(workingDays[1..], holidays);
      if IsWeekday(d) && !IsHoliday(d, holidays) then
        assert NoDuplicates(workingDays) ==> d !in rest by {
          if NoDuplicates(workingDays) {
            assert d !in workingDays[1..];
          }
        }
        [d] + rest
      else rest
  }

  /** The two numbers `calculateWorkingDaysPercentage` shows as
      `(numWorkingDays / totalWeekdays) * 100`. */
  datatype Calculation = Calculation(numWorkingDays: int, totalWeekdays: int)

  /** The component state. */
  class CalendarApp {
    var currentDate: Date
    var holidays: seq<Date>
    var workingDays: seq<Date>

    /** All dates are calendar dates and no working day is listed twice. */
    ghost predicate Valid()
      reads this
    {
      currentDate.Valid()
      && AllValid(holidays) && AllValid(workingDays)
      && NoDuplicates(workingDays)
    }

    /** The initial state: today, no holidays, no working days. */
    constructor(today: Date)
      requires today.Valid()
      ensures Valid()
      ensures currentDate == today && holidays == [] && workingDays == []
    {
      currentDate := today;
      holidays := [];
      workingDays := [];
    }

    /** `handlePrevMonth`: the 1st of the month before, through the
        constructor; the holidays and working days are kept. */
    method HandlePrevMonth()
      requires Valid()
      modifies this
      ensures Valid()
      ensures currentDate == NewDate(old(currentDate).year, old(currentDate).month - 1, 1)
      ensures holidays == old(holidays) && workingDays == old(workingDays)
    {
      currentDate := NewDate(currentDate.year, currentDate.month - 1, 1);
    }

    /** `handleNextMonth`: the 1st of the month after, likewise. */
    method HandleNextMonth()
      requires Valid()
      modifies this
      ensures Valid()
      ensures currentDate == NewDate(old(currentDate).year, old(currentDate).month + 1, 1)
      ensures holidays == old(holidays) && workingDays == old(workingDays)
    {
      currentDate := NewDate(currentDate.year, currentDate.month + 1, 1);
    }

    /** `handlePrevMonth` and `handleNextMonth` as intended: the 1st of the
        month `n` months away, with no reading of the year as a two-digit
        one. */
    method HandleShiftMonthFixed(n: int)
      requires Valid()
      modifies this
      ensures Valid()
      ensures currentDate == ShiftMonth(old(currentDate), n)
      ensures holidays == old(holidays) && workingDays == old(workingDays)
    {
      currentDate := ShiftMonth(currentDate, n);
    }

    /** `handleHolidayChange`: the holidays replaced by the new list as it
        is; nothing else changes. */
    method HandleHolidayChange(newHolidays: seq<Date>)
      requires Valid()
      requires AllValid(newHolidays)
      modifies this
      ensures Valid()
      ensures holidays == newHolidays
      ensures currentDate == old(currentDate) && workingDays == old(workingDays)
    {
      holidays := newHolidays;
    }

    /** `handleWorkingDayToggle`: remove the day if it is listed, otherwise
        append it. There is no weekend or month check: every click on a day
        cell arrives here. */
    method HandleWorkingDayToggle(day: Date)
      requires Valid() && day.Valid()
      modifies this
      ensures Valid()
      ensures workingDays == Toggle(old(workingDays), day)
      ensures currentDate == old(currentDate) && holidays == old(holidays)
    {
      if day in workingDays {
        workingDays := Without(workingDays, day);
      } else {
        workingDays := workingDays + [day];
      }
      assert workingDays == Toggle(old(workingDays), day);
      forall x | x in workingDays
        ensures x.Valid()
      {
        assert x in old(workingDays) || x == day;
      }
    }

    /** `calculateWorkingDaysPercentage`, without the floating-point
        division: the working days counted and the weekdays of the current
        month. */
    method CalculateWorkingDaysPercentage() returns (c: Calculation)
      requires Valid()
      ensures c.totalWeekdays == WeekdaysInMonth(ConstructedMonth(currentDate))
      ensures 20 <= c.totalWeekdays
      ensures c.numWorkingDays == |CountedDays(workingDays, holidays)|
      ensures 0 <= c.numWorkingDays <= |workingDays|
    {
      var totalWeekdays := GetWeekdaysInMonth(currentDate);
      var numWorkingDays := |CountedDays(workingDays, holidays)|;
      c := Calculation(numWorkingDays, totalWeekdays);
    }

    /** `calculateWorkingDaysPercentage` as intended: only the working days
        of the current month count, so the numerator never exceeds the
        denominator. */
    method CalculateWorkingDaysPercentageFixed() returns (c: Calculation)
      requires Valid()
      ensures c.totalWeekdays == WeekdaysInMonth(ConstructedMonth(currentDate))
      ensures c.numWorkingDays == |CountedDaysInMonth(workingDays, holidays, ConstructedMonth(currentDate))|
      ensures 0 <= c.numWorkingDays <= c.totalWeekdays
    {
      var totalWeekdays := GetWeekdaysInMonth(currentDate);
      var k := ConstructedMonth(currentDate);
      CountedInMonthBound(workingDays, holidays, k);
      var numWorkingDays := |CountedDaysInMonth(workingDays, holidays, k)|;
      c := Calculation(numWorkingDays, totalWeekdays);
    }
  }

  /** A weekend day toggled into the working days changes nothing in the
      numerator. */
  lemma WeekendNotCounted(workingDays: seq<Date>, holidays: seq<Date>, day: Date)
    requires AllValid(workingDays)
    requires day.Valid() && !IsWeekday(day) && day !in workingDays
    ensures CountedDays(workingDays + [day], holidays) == CountedDays(workingDays, holidays)
  {
    NotCountedAppended(workingDays, holidays, day);
  }

  /** Likewise a holiday. */
  lemma HolidayNotCounted(workingDays: seq<Date>, holidays: seq<Date>, day: Date)
    requires AllValid(workingDays)
    requires day.Valid() && day in holidays && day !in workingDays
    ensures CountedDays(workingDays + [day], holidays) == CountedDays(workingDays, holidays)
  {
    NotCountedAppended(workingDays, holidays, day);
  }

  lemma {:induction false} NotCountedAppended(workingDays: seq<Date>, holidays: seq<Date>, day: Date)
    requires AllValid(workingDays)
    requires day.Valid() && !(IsWeekday(day) && !IsHoliday(day, holidays))
    ensures CountedDays(workingDays + [day], holidays) == CountedDays(workingDays, holidays)
  {
    if workingDays == [] {
      assert [day][1..] == [];
    } else {
      assert (workingDays + [day])[1..] == workingDays[1..] + [day];
      NotCountedAppended(workingDays[1..], holidays, day);
    }
  }

  /** A weekday that is not a holiday adds one to the numerator when it is
      toggled on. */
  lemma {:induction false} CountedAppended(workingDays: seq<Date>, holidays: seq<Date>, day: Date)
    requires AllValid(workingDays)
    requires day.Valid() && IsWeekday(day) && day !in holidays
    ensures CountedDays(workingDays + [day], holidays) == CountedDays(workingDays, holidays) + [day]
  {
    if workingDays == [] {
      assert [day][1..] == [];
    } else {
      assert (workingDays + [day])[1..] == workingDays[1..] + [day];
      CountedAppended(workingDays[1..], holidays, day);
    }
  }

  /** Next and Previous move the month by one exactly, to its 1st, for any
      current date whose year the constructor does not reinterpret. */
  lemma NavigationShift(d: Date, n: int)
    requires d.Valid() && !(0 <= d.year <= 99)
    ensures NewDate(d.year, d.month + n, 1) == ShiftMonth(d, n)
  {
    var k := AddMonths(d.Key(), n);
    IndexInjective(AddMonths(MonthKey(d.year, 0), d.month + n), k);
    NormalizeInRange(k, 1);
  }

  /** Moving `n` months and back gives back the month, when neither year is
      one the constructor reinterprets. */
  lemma NavigateBack(d: Date, n: int)
    requires d.Valid() && !(0 <= d.year <= 99) && !(0 <= ShiftMonth(d, n).year <= 99)
    ensures var e := NewDate(d.year, d.month + n, 1);
            NewDate(e.year, e.month - n, 1).Key() == d.Key()
  {
    NavigationShift(d, n);
    NavigationShift(ShiftMonth(d, n), -n);
    ShiftMonthRoundTrip(d, n);
  }

  /** Previous after Next gives back the month, away from the years 0 .. 99. */
  lemma PrevAfterNext(d: Date)
    requires d.Valid() && (d.year < -1 || d.year > 99)
    ensures var e := NewDate(d.year, d.month + 1, 1);
            NewDate(e.year, e.month - 1, 1).Key() == d.Key()
  {
    ShiftMonthYear(d, 1);
    NavigateBack(d, 1);
  }

  /** Next after Previous gives back the month, away from the years 0 .. 100. */
  lemma NextAfterPrev(d: Date)
    requires d.Valid() && (d.year < 0 || d.year > 100)
    ensures var e := NewDate(d.year, d.month - 1, 1);
            NewDate(e.year, e.month + 1, 1).Key() == d.Key()
  {
    ShiftMonthYear(d, -1);
    NavigateBack(d, -1);
  }

  /** Next from December of year 99 shows January 2000: the constructor reads
      the year 99 as 1999. */
  lemma NextFromDecember99(d: Date)
    requires d == Date(99, 11, 1)
    ensures NewDate(d.year, d.month + 1, 1) == Date(2000, 0, 1)
  {
    var k := AddMonths(MonthKey(1999, 0), 12);
    IndexInjective(k, MonthKey(2000, 0));
    NormalizeInRange(k, 1);
  }

  /** Previous from January of year 100 reaches December of year 99, from
      which Next shows January 2000 rather than January 100. */
  lemma PrevThenNextFromJanuary100(d: Date)
    requires d == Date(100, 0, 1)
    ensures NewDate(d.year, d.month - 1, 1) == Date(99, 11, 1)
    ensures var e := NewDate(d.year, d.month - 1, 1);
            NewDate(e.year, e.month + 1, 1) == Date(2000, 0, 1)
  {
    var k := AddMonths(MonthKey(100, 0), -1);
    IndexInjective(k, MonthKey(99, 11));
    NormalizeInRange(k, 1);
    NextFromDecember99(Date(99, 11, 1));
  }

  /** The numerator with the days of other months left out: the entries of
      `workingDays` in month `k` that are weekdays and not holidays. */
  function CountedDaysInMonth(workingDays: seq<Date>, holidays: seq<Date>, k: MonthKey): (r: seq<Date>)
    requires AllValid(workingDays)
    ensures forall x :: x in r ==> x in workingDays && x.Key() == k && IsWeekday(x) && x !in holidays
    ensures forall x :: x in workingDays && x.Key() == k && IsWeekday(x) && x !in holidays ==> x in r
    ensures NoDuplicates(workingDays) ==> NoDuplicates(r)
  {
    if workingDays == [] then []
    else
      var d := workingDays[0];
      assert workingDays == [d] + workingDays[1..];
      assert d in workingDays;
      var rest := CountedDaysInMonth(workingDays[1..], holidays, k);
      if d.Key() == k && IsWeekday(d) && !IsHoliday(d, holidays) then
        assert NoDuplicates(workingDays) ==> d !in rest by {
          if NoDuplicates(workingDays) {
            assert d !in workingDays[1..];
          }
        }
        [d] + rest
      else rest
  }

  /** The month-restricted numerator never exceeds the weekdays of the
      month, so the percentage stays within 0 .. 100. */
  lemma CountedInMonthBound(workingDays: seq<Date>, holidays: seq<Date>, k: MonthKey)
    requires k.Valid() && NoDuplicates(workingDays)
    requires AllValid(workingDays)
    ensures |CountedDaysInMonth(workingDays, holidays, k)| <= WeekdaysInMonth(k)
  {
    var r := CountedDaysInMonth(workingDays, holidays, k);
    forall x | x in r
      ensures IsWeekdayIn(x, k)
    {
      assert x in workingDays;
    }
    DistinctWeekdaysBound(r, k);
  }

  /** When every listed day lies in the current month both numerators agree. */
  lemma {:induction false} SameMonthAgrees(workingDays: seq<Date>, holidays: seq<Date>, k: MonthKey)
    requires AllValid(workingDays)
    requires forall x :: x in workingDays ==> x.Key() == k
    ensures CountedDaysInMonth(workingDays, holidays, k) == CountedDays(workingDays, holidays)
  {
    if workingDays != [] {
      assert workingDays[0] in workingDays;
      assert forall x :: x in workingDays[1..] ==> x in workingDays;
      SameMonthAgrees(workingDays[1..], holidays, k);
    }
  }

  /** As written, the days of other months count too: all 23 weekdays of
      January 2024 kept as working days while February 2024, which has 21,
      is shown, give a numerator of 23 over a denominator of 21. */
  lemma NumeratorExceedsDenominator(ws: seq<Date>, j: MonthKey, k: MonthKey)
    requires j == MonthKey(2024, 0) && k == MonthKey(2024, 1)
    requires ws == WeekdayDates(j, MonthLength(j.year, j.month))
    ensures |CountedDays(ws, [])| == 23
    ensures WeekdaysInMonth(k) == 21
  {
    January2024(j);
    February2024(k);
    WholeMonthCounted(j);
  }

  /** All weekdays of a month, without holidays, are counted whole. */
  lemma WholeMonthCounted(j: MonthKey)
    requires j.Valid()
    ensures var ws := WeekdayDates(j, MonthLength(j.year, j.month));
            AllValid(ws) && |CountedDays(ws, [])| == WeekdaysInMonth(j)
  {
    var ws := WeekdayDates(j, MonthLength(j.year, j.month));
    CountIsLength(j, MonthLength(j.year, j.month));
    assert AllValid(ws) && forall x :: x in ws ==> IsWeekday(x) by {
      assert forall x :: x in ws ==> IsWeekdayIn(x, j);
    }
    AllWeekdaysCounted(ws);
  }

  /** A list of weekdays with no holidays is counted whole. */
  lemma {:induction false} AllWeekdaysCounted(ws: seq<Date>)
    requires AllValid(ws) && forall x :: x in ws ==> IsWeekday(x)
    ensures CountedDays(ws, []) == ws
  {
    if ws != [] {
      var rest := ws[1..];
      assert ws == [ws[0]] + rest;
      assert ws[0] in ws;
      assert AllValid(rest) && forall x :: x in rest ==> IsWeekday(x) by {
        assert forall x :: x in rest ==> x in ws;
      }
      AllWeekdaysCounted(rest);
    }
  }
}
