/** The parts of JavaScript's Date that the components use, on the local
    calendar: the constructor `new Date(y, m, d)`, `setMonth`, and the
    days-in-month idiom `new Date(y, m + 1, 0).getDate()`. Time of day and
    time zones are not modelled. */
module JsDate {
  import opened Gregorian

  /** The constructor reads a year argument from 0 to 99 as 1900 to 1999
      and keeps every other year. The year it yields is never such a
      two-digit year, so reading it again changes nothing. */
  function ConstructorYear(y: int): (r: int)
    ensures 0 <= y <= 99 ==> 1900 <= r <= 1999 && r % 100 == y
    ensures !(0 <= y <= 99) ==> r == y
    ensures !(0 <= r <= 99)
  {
    if 0 <= y <= 99 then 1900 + y else y
  }

  /** A year the constructor has read is read again unchanged. */
  lemma ConstructorYearTwice(y: int)
    ensures ConstructorYear(ConstructorYear(y)) == ConstructorYear(y)
  {
  }

  /** `new Date(y, m, d)`: month `m` of year `y` counted from January, so
      that months outside 0..11 carry into other years, and day `d` counted
      from the 1st of that month, so that it may borrow or carry too. */
  function NewDate(y: int, m: int, d: int): (r: Date)
    ensures r.Valid()
  {
    Normalize(AddMonths(MonthKey(ConstructorYear(y), 0), m), d)
  }

  /** The constructed date lies `d - 1` days after the 1st of month `m`
      counted from January of the (constructor's) year. */
  lemma NewDateDayNumber(y: int, m: int, d: int)
    ensures DayNumber(NewDate(y, m, d)) == FirstDayNumber(AddMonths(MonthKey(ConstructorYear(y), 0), m)) + d - 1
  {
    NormalizeDayNumber(AddMonths(MonthKey(ConstructorYear(y), 0), m), d);
  }

  /** `date.setMonth(m)`: the same year (with no two-digit rule) and the same
      day of the month, in month `m` counted from January of that year. */
  function SetMonth(date: Date, m: int): (r: Date)
    ensures r.Valid()
  {
    Normalize(AddMonths(MonthKey(date.year, 0), m), date.day)
  }

  /** The date after `setMonth(m)` lies `day - 1` days after the 1st of
      month `m` counted from January of the date's year. */
  lemma SetMonthDayNumber(date: Date, m: int)
    ensures DayNumber(SetMonth(date, m)) == FirstDayNumber(AddMonths(MonthKey(date.year, 0), m)) + date.day - 1
  {
    NormalizeDayNumber(AddMonths(MonthKey(date.year, 0), m), date.day);
  }

  /** Month `m` counted from January of a year is month `m` of that year. */
  lemma MonthOfYear(y: int, m: int)
    requires 0 <= m < 12
    ensures AddMonths(MonthKey(y, 0), m) == MonthKey(y, m)
  {
    IndexInjective(AddMonths(MonthKey(y, 0), m), MonthKey(y, m));
  }

  /** `new Date(y, m + 1, 0).getDate()`, the days-in-month idiom of all three
      components, by the value DayZero proves it has. */
  function DaysInMonth(y: int, m: int): (n: int)
    requires 0 <= m < 12
    ensures 28 <= n <= 31
  {
    MonthLength(ConstructorYear(y), m)
  }

  /** Day 0 of month `m + 1` is the last day of month `m`, so the idiom
      yields the length of month `m`. */
  lemma DayZero(y: int, m: int)
    requires 0 <= m < 12
    ensures NewDate(y, m + 1, 0) == Date(ConstructorYear(y), m, DaysInMonth(y, m))
    ensures NewDate(y, m + 1, 0).day == DaysInMonth(y, m)
  {
    var k := AddMonths(MonthKey(ConstructorYear(y), 0), m + 1);
    AddMonthsCompose(MonthKey(ConstructorYear(y), 0), m + 1, -1);
    MonthOfYear(ConstructorYear(y), m);
    NormalizeDayZero(k);
  }

  /** The month both components display for a current date: its
      `getFullYear()` and `getMonth()` handed back to the constructor, which
      reads a year from 0 to 99 as 1900 to 1999. */
  function ConstructedMonth(date: Date): (k: MonthKey)
    requires date.Valid()
    ensures k.Valid() && k.month == date.month
  {
    MonthKey(ConstructorYear(date.year), date.month)
  }

  /** A day that exists in month `m` is constructed as it is. */
  lemma NewDateInMonth(y: int, m: int, d: int)
    requires 0 <= m < 12 && 1 <= d <= MonthLength(ConstructorYear(y), m)
    ensures NewDate(y, m, d) == Date(ConstructorYear(y), m, d)
  {
    MonthOfYear(ConstructorYear(y), m);
    NormalizeInRange(MonthKey(ConstructorYear(y), m), d);
  }

  /** `new Date(y, m, d).getDay()` for a day `d` that month `m` has. */
  method GetDayOf(y: int, m: int, d: int) returns (w: int)
    requires 0 <= m < 12 && 1 <= d <= MonthLength(ConstructorYear(y), m)
    ensures w == WeekdayOf(Date(ConstructorYear(y), m, d))
  {
    var date := NewDate(y, m, d);
    NewDateInMonth(y, m, d);
    w := WeekdayOf(date);
  }

  /** `setMonth(getMonth() + n)` moves the date `n` months and keeps its day
      of the month; a day the target month lacks rolls over into the month
      after it. */
  lemma SetMonthShift(date: Date, n: int)
    requires date.Valid()
    ensures var t := AddMonths(date.Key(), n);
            var len := MonthLength(t.year, t.month);
            var u := AddMonths(t, 1);
            SetMonth(date, date.month + n)
              == if date.day <= len then Date(t.year, t.month, date.day)
                 else Date(u.year, u.month, date.day - len)
  {
    var t := AddMonths(date.Key(), n);
    IndexInjective(AddMonths(MonthKey(date.year, 0), date.month + n), t);
    if date.day <= MonthLength(t.year, t.month) {
      NormalizeInRange(t, date.day);
    } else {
      NormalizeOverflow(t, date.day);
    }
  }
}
