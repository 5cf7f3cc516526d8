/** The proleptic Gregorian calendar, as JavaScript's Date computes it:
    month lengths under the 4/100/400 leap rule, a day number for every day,
    normalisation of an out-of-range day of the month, and the day of the week. */
module Gregorian {
  import opened DateLists

  /** A day in the fields a JavaScript Date exposes: the full year
      (getFullYear), the month counted from 0 for January (getMonth) and the
      day of the month counted from 1 (getDate). */
  datatype Date = Date(year: int, month: int, day: int) {
    /** The triple names an actual day of the calendar. */
    predicate Valid() {
      0 <= month < 12 && 1 <= day <= MonthLength(year, month)
    }

    /** The month this day lies in. */
    function Key(): MonthKey {
      MonthKey(year, month)
    }
  }

  /** Every date of the list is a calendar date. */
  predicate AllValid(s: seq<Date>) {
    forall x :: x in s ==> x.Valid()
  }

  /** A month of a year, the month counted from 0. */
  datatype MonthKey = MonthKey(year: int, month: int) {
    predicate Valid() {
      0 <= month < 12
    }

    /** The number of months since January of year 0. */
    function Index(): int {
      12 * year + month
    }
  }

  predicate IsLeapYear(y: int) {
    y % 4 == 0 && (y % 100 != 0 || y % 400 == 0)
  }

  function MonthLength(y: int, m: int): (n: int)
    requires 0 <= m < 12
    ensures 28 <= n <= 31
    ensures m == 1 ==> (n == 29 <==> IsLeapYear(y))
  {
    if m == 1 then (if IsLeapYear(y) then 29 else 28)
    else if m == 3 || m == 5 || m == 8 || m == 10 then 30
    else 31
  }

  function YearLength(y: int): int {
    if IsLeapYear(y) then 366 else 365
  }

  /** The month `n` months after `k` (before it when `n` is negative). */
  function AddMonths(k: MonthKey, n: int): (r: MonthKey)
    ensures r.Valid()
    ensures r.Index() == k.Index() + n
  {
    MonthKey(k.year + (k.month + n) / 12, (k.month + n) % 12)
  }

  /** Valid month keys are determined by their index. */
  lemma IndexInjective(a: MonthKey, b: MonthKey)
    requires a.Valid() && b.Valid() && a.Index() == b.Index()
    ensures a == b
  {
  }

  lemma AddMonthsCompose(k: MonthKey, a: int, b: int)
    ensures AddMonths(AddMonths(k, a), b) == AddMonths(k, a + b)
  {
    IndexInjective(AddMonths(AddMonths(k, a), b), AddMonths(k, a + b));
  }

  /** The following month: December carries into January of the next year. */
  lemma NextMonth(k: MonthKey)
    requires k.Valid()
    ensures AddMonths(k, 1) == if k.month == 11 then MonthKey(k.year + 1, 0) else MonthKey(k.year, k.month + 1)
  {
    var e := if k.month == 11 then MonthKey(k.year + 1, 0) else MonthKey(k.year, k.month + 1);
    IndexInjective(AddMonths(k, 1), e);
  }

  /** The preceding month: January borrows December of the previous year. */
  lemma PrevMonth(k: MonthKey)
    requires k.Valid()
    ensures AddMonths(k, -1) == if k.month == 0 then MonthKey(k.year - 1, 11) else MonthKey(k.year, k.month - 1)
  {
    var e := if k.month == 0 then MonthKey(k.year - 1, 11) else MonthKey(k.year, k.month - 1);
    IndexInjective(AddMonths(k, -1), e);
  }

  /** Days of the years 1 .. y - 1 (negative for years before 1). */
  function DaysBeforeYear(y: int): int {
    365 * (y - 1) + (y - 1) / 4 - (y - 1) / 100 + (y - 1) / 400
  }

  /** Days of the months before month `m` of year `y`. */
  function DaysBeforeMonth(y: int, m: int): int
    requires 0 <= m < 12
  {
    [0, 31, 59, 90, 120, 151, 181, 212, 243, 273, 304, 334][m]
      + (if m >= 2 && IsLeapYear(y) then 1 else 0)
  }

  /** The day number of a date: January 1st of year 1 is day 1. */
  function DayNumber(d: Date): int
    requires 0 <= d.month < 12
  {
    DaysBeforeYear(d.year) + DaysBeforeMonth(d.year, d.month) + d.day
  }

  /** The day number of the 1st of month `k`. */
  function FirstDayNumber(k: MonthKey): int
    requires k.Valid()
  {
    DayNumber(Date(k.year, k.month, 1))
  }

  /** Floor division steps up by one exactly at the multiples. */
  lemma FloorStep(n: int, k: int)
    requires k == 4 || k == 100 || k == 400
    ensures n / k - (n - 1) / k == if n % k == 0 then 1 else 0
  {
    var q, r := (n - 1) / k, (n - 1) % k;
    assert n - 1 == k * q + r && 0 <= r < k;
    if r == k - 1 {
      DivUnique(n, k, q + 1, 0);
    } else {
      DivUnique(n, k, q, r + 1);
    }
  }

  lemma DivUnique(n: int, k: int, q: int, r: int)
    requires k == 4 || k == 7 || k == 100 || k == 400
    requires n == k * q + r && 0 <= r < k
    ensures n / k == q && n % k == r
  {
  }

  lemma {:induction false} YearStep(y: int)
    ensures DaysBeforeYear(y + 1) == DaysBeforeYear(y) + YearLength(y)
  {
    FloorStep(y, 4);
    FloorStep(y, 100);
    FloorStep(y, 400);
    if y % 100 == 0 {
      DivUnique(y, 4, 25 * (y / 100), 0);
    }
    if y % 400 == 0 {
      DivUnique(y, 100, 4 * (y / 400), 0);
    }
  }

  /** The 1st of the following month comes MonthLength days after the 1st of `k`. */
  lemma MonthStep(k: MonthKey)
    requires k.Valid()
    ensures FirstDayNumber(AddMonths(k, 1)) == FirstDayNumber(k) + MonthLength(k.year, k.month)
  {
    NextMonth(k);
    if k.month == 11 {
      YearStep(k.year);
    }
  }

  lemma BorrowStep(k: MonthKey, d: int, r: Date)
    requires k.Valid() && r.Valid()
    requires var p := AddMonths(k, -1);
             DayNumber(r) == FirstDayNumber(p) + d + MonthLength(p.year, p.month) - 1
    ensures DayNumber(r) == FirstDayNumber(k) + d - 1
  {
    var p := AddMonths(k, -1);
    AddMonthsCompose(k, -1, 1);
    IndexInjective(AddMonths(k, 0), k);
    MonthStep(p);
  }

  lemma CarryStep(k: MonthKey, d: int, r: Date)
    requires k.Valid() && r.Valid()
    requires DayNumber(r) == FirstDayNumber(AddMonths(k, 1)) + d - MonthLength(k.year, k.month) - 1
    ensures DayNumber(r) == FirstDayNumber(k) + d - 1
  {
    MonthStep(k);
  }

  /** Day `d` counted from the 1st of `k`, normalised the way JavaScript's
      MakeDay does it: a day below 1 borrows from the preceding months and a
      day past the end of the month carries into the following ones. */
  function Normalize(k: MonthKey, d: int): (r: Date)
    requires k.Valid()
    ensures r.Valid()
    decreases if d < 1 then 1 else 0, if d < 1 then -d else d
  {
    if d < 1 then
      var p := AddMonths(k, -1);
      Normalize(p, d + MonthLength(p.year, p.month))
    else if d > MonthLength(k.year, k.month) then
      Normalize(AddMonths(k, 1), d - MonthLength(k.year, k.month))
    else
      Date(k.year, k.month, d)
  }

  /** The normalised date is the day `d - 1` days after the 1st of `k`. */
  lemma {:induction false} NormalizeDayNumber(k: MonthKey, d: int)
    requires k.Valid()
    ensures DayNumber(Normalize(k, d)) == FirstDayNumber(k) + d - 1
    decreases if d < 1 then 1 else 0, if d < 1 then -d else d
  {
    if d < 1 {
      var p := AddMonths(k, -1);
      NormalizeDayNumber(p, d + MonthLength(p.year, p.month));
      BorrowStep(k, d, Normalize(k, d));
    } else if d > MonthLength(k.year, k.month) {
      NormalizeDayNumber(AddMonths(k, 1), d - MonthLength(k.year, k.month));
      CarryStep(k, d, Normalize(k, d));
    }
  }

  /** A day of month `k` that exists is left as it is. */
  lemma NormalizeInRange(k: MonthKey, d: int)
    requires k.Valid() && 1 <= d <= MonthLength(k.year, k.month)
    ensures Normalize(k, d) == Date(k.year, k.month, d)
  {
  }

  /** Day 0 is the last day of the preceding month. */
  lemma NormalizeDayZero(k: MonthKey)
    requires k.Valid()
    ensures var p := AddMonths(k, -1);
            Normalize(k, 0) == Date(p.year, p.month, MonthLength(p.year, p.month))
  {
  }

  /** A day past the end of `k`, by at most the length of the next month,
      lands in the next month. */
  lemma NormalizeOverflow(k: MonthKey, d: int)
    requires k.Valid()
    requires MonthLength(k.year, k.month) < d
    requires d - MonthLength(k.year, k.month) <= MonthLength(AddMonths(k, 1).year, AddMonths(k, 1).month)
    ensures var n := AddMonths(k, 1);
            Normalize(k, d) == Date(n.year, n.month, d - MonthLength(k.year, k.month))
  {
  }

  /** Chronological order of dates. */
  predicate Before(a: Date, b: Date) {
    a.year < b.year
    || (a.year == b.year && a.month < b.month)
    || (a.year == b.year && a.month == b.month && a.day < b.day)
  }

  lemma {:induction false} YearsAscend(y1: int, y2: int)
    requires y1 < y2
    ensures DaysBeforeYear(y1) + YearLength(y1) <= DaysBeforeYear(y2)
    decreases y2 - y1
  {
    YearStep(y1);
    if y1 + 1 < y2 {
      YearsAscend(y1 + 1, y2);
      YearStep(y1 + 1);
    }
  }

  lemma MonthsAscend(y: int, m1: int, m2: int)
    requires 0 <= m1 < m2 < 12
    ensures DaysBeforeMonth(y, m1) + MonthLength(y, m1) <= DaysBeforeMonth(y, m2)
  {
  }

  lemma DayOfYearBounds(d: Date)
    requires d.Valid()
    ensures 1 <= DaysBeforeMonth(d.year, d.month) + d.day <= YearLength(d.year)
  {
  }

  /** Day numbers follow the order of the calendar, so no two days share one. */
  lemma {:induction false} DayNumberOrder(a: Date, b: Date)
    requires a.Valid() && b.Valid()
    ensures Before(a, b) <==> DayNumber(a) < DayNumber(b)
    ensures DayNumber(a) == DayNumber(b) <==> a == b
  {
    DayOfYearBounds(a);
    DayOfYearBounds(b);
    if a.year < b.year {
      YearsAscend(a.year, b.year);
    } else if b.year < a.year {
      YearsAscend(b.year, a.year);
    } else if a.month < b.month {
      MonthsAscend(a.year, a.month, b.month);
    } else if b.month < a.month {
      MonthsAscend(a.year, b.month, a.month);
    }
  }

  /** getDay(): 0 for Sunday up to 6 for Saturday; day 1 was a Monday. */
  function WeekdayOf(d: Date): (w: int)
    requires 0 <= d.month < 12
    ensures 0 <= w < 7
  {
    DayNumber(d) % 7
  }

  /** The weekend test the three components share: getDay() is 0 or 6. */
  predicate IsWeekend(d: Date)
    requires 0 <= d.month < 12
  {
    WeekdayOf(d) == 0 || WeekdayOf(d) == 6
  }

  /** Moving one day forward, across month and year ends too, moves the
      weekday one step round the week. */
  lemma NextDayWeekday(k: MonthKey, d: int)
    requires k.Valid()
    ensures WeekdayOf(Normalize(k, d + 1)) == (WeekdayOf(Normalize(k, d)) + 1) % 7
  {
    var a, b := Normalize(k, d), Normalize(k, d + 1);
    NormalizeDayNumber(k, d);
    NormalizeDayNumber(k, d + 1);
    TurnOfWeek(DayNumber(a), DayNumber(b));
  }

  lemma TurnOfWeek(x: int, y: int)
    requires y == x + 1
    ensures y % 7 == (x % 7 + 1) % 7
  {
  }

  /** 1 for a day number that falls on Monday to Friday, 0 for the weekend. */
  function WorkdayUnit(x: int): int {
    if x % 7 == 0 || x % 7 == 6 then 0 else 1
  }

  lemma {:induction false} FiveInSeven(x: int)
    ensures WorkdayUnit(x) + WorkdayUnit(x + 1) + WorkdayUnit(x + 2) + WorkdayUnit(x + 3)
          + WorkdayUnit(x + 4) + WorkdayUnit(x + 5) + WorkdayUnit(x + 6) == 5
  {
    ModSeven(x, 0); ModSeven(x, 1); ModSeven(x, 2); ModSeven(x, 3);
    ModSeven(x, 4); ModSeven(x, 5); ModSeven(x, 6);
  }

  /** Adding `j` days to a day number turns the week `j` steps further. */
  lemma ModSeven(x: int, j: int)
    requires 0 <= j < 7
    ensures (x + j) % 7 == if x % 7 + j < 7 then x % 7 + j else x % 7 + j - 7
  {
    var q, r := x / 7, x % 7;
    if r + j < 7 {
      DivUnique(x + j, 7, q, r + j);
    } else {
      DivUnique(x + j, 7, q + 1, r + j - 7);
    }
  }

  /** Day `j` of month `k` lies `j - 1` days after the 1st, so a grid that
      puts the 1st in column FirstWeekday(k) and fills the following cells
      left to right puts every day in the column of its weekday. */
  lemma WeekdayColumn(k: MonthKey, j: int)
    requires k.Valid() && j >= 1
    ensures WeekdayOf(Date(k.year, k.month, j)) == (FirstWeekday(k) + j - 1) % 7
  {
    var a := FirstDayNumber(k);
    assert DayNumber(Date(k.year, k.month, j)) == a + (j - 1);
    ShiftModSeven(a, j - 1);
  }

  lemma ShiftModSeven(a: int, b: int)
    requires b >= 0
    ensures (a + b) % 7 == (a % 7 + b) % 7
  {
    var q, r := a / 7, a % 7;
    var s := r + b;
    DivUnique(a + b, 7, q + s / 7, s % 7);
  }

  lemma JanuaryFirst2024IsMonday()
    ensures WeekdayOf(Date(2024, 0, 1)) == 1
  {
  }

  /** The weekdays (Monday to Friday) among days 1 .. n of month `k`, in
      ascending order. */
  function WeekdayDates(k: MonthKey, n: nat): (r: seq<Date>)
    requires k.Valid()
    ensures |r| <= n
    ensures forall x :: x in r ==> x.Key() == k && 1 <= x.day <= n && !IsWeekend(x)
    ensures forall d :: 1 <= d <= n && !IsWeekend(Date(k.year, k.month, d)) ==> Date(k.year, k.month, d) in r
    ensures forall i, j :: 0 <= i < j < |r| ==> r[i].day < r[j].day
  {
    if n == 0 then []
    else
      var d := Date(k.year, k.month, n);
      WeekdayDates(k, n - 1) + (if IsWeekend(d) then [] else [d])
  }

  /** The number of weekdays among days 1 .. n of month `k`. */
  function CountWeekdays(k: MonthKey, n: nat): nat
    requires k.Valid()
  {
    if n == 0 then 0
    else CountWeekdays(k, n - 1) + (if IsWeekend(Date(k.year, k.month, n)) then 0 else 1)
  }

  /** One step of the count, for a loop that has tested day `n` itself. */
  lemma CountStep(k: MonthKey, n: nat, b: bool)
    requires k.Valid() && n >= 1
    requires b <==> !IsWeekend(Date(k.year, k.month, n))
    ensures CountWeekdays(k, n) == CountWeekdays(k, n - 1) + (if b then 1 else 0)
  {
  }

  /** The count is the length of the list of weekdays. */
  lemma {:induction false} CountIsLength(k: MonthKey, n: nat)
    requires k.Valid()
    ensures CountWeekdays(k, n) == |WeekdayDates(k, n)|
  {
    if n > 0 {
      CountIsLength(k, n - 1);
    }
  }

  /** The number of weekdays in month `k`. */
  function WeekdaysInMonth(k: MonthKey): nat
    requires k.Valid()
  {
    CountWeekdays(k, MonthLength(k.year, k.month))
  }

  lemma WeekdayStep(k: MonthKey, n: nat)
    requires k.Valid() && n >= 1
    ensures CountWeekdays(k, n) == CountWeekdays(k, n - 1) + WorkdayUnit(DayNumber(Date(k.year, k.month, n)))
  {
  }

  /** Any seven consecutive days hold exactly five weekdays. */
  lemma {:induction false} WeekPeriod(k: MonthKey, n: nat)
    requires k.Valid()
    ensures CountWeekdays(k, n + 7) == CountWeekdays(k, n) + 5
  {
    FiveInSeven(DayNumber(Date(k.year, k.month, n + 1)));
    WeekdayStep(k, n + 1); WeekdayStep(k, n + 2); WeekdayStep(k, n + 3);
    WeekdayStep(k, n + 4); WeekdayStep(k, n + 5); WeekdayStep(k, n + 6);
    WeekdayStep(k, n + 7);
  }

  lemma {:induction false} CountGrowth(k: MonthKey, n: nat, j: nat)
    requires k.Valid()
    ensures CountWeekdays(k, n) <= CountWeekdays(k, n + j) <= CountWeekdays(k, n) + j
    decreases j
  {
    if j > 0 {
      CountGrowth(k, n, j - 1);
    }
  }

  /** Every month has between 20 and 23 weekdays: the four weeks of its first
      28 days hold 20, and at most three days remain. */
  lemma WeekdaysInMonthBounds(k: MonthKey)
    requires k.Valid()
    ensures 20 <= WeekdaysInMonth(k) <= 23
  {
    WeekPeriod(k, 0);
    WeekPeriod(k, 7);
    WeekPeriod(k, 14);
    WeekPeriod(k, 21);
    CountGrowth(k, 28, MonthLength(k.year, k.month) - 28);
  }

  /** getDay() of the 1st of month `k`: the number of padding cells before it. */
  function FirstWeekday(k: MonthKey): (w: int)
    requires k.Valid()
    ensures 0 <= w < 7
  {
    WeekdayOf(Date(k.year, k.month, 1))
  }

  /** `x` is a Monday to Friday of month `k`. */
  predicate IsWeekdayIn(x: Date, k: MonthKey) {
    k.Valid() && x.Key() == k && 1 <= x.day <= MonthLength(k.year, k.month) && !IsWeekend(x)
  }

  /** Distinct weekdays of one month are at most as many as the month has. */
  lemma DistinctWeekdaysBound(s: seq<Date>, k: MonthKey)
    requires k.Valid() && NoDuplicates(s)
    requires forall x :: x in s ==> IsWeekdayIn(x, k)
    ensures |s| <= WeekdaysInMonth(k)
  {
    var all := WeekdayDates(k, MonthLength(k.year, k.month));
    forall x | x in s
      ensures x in all
    {
      assert x == Date(k.year, k.month, x.day);
    }
    DistinctWithin(s, all);
    CountIsLength(k, MonthLength(k.year, k.month));
  }

  /** Weekdays among `e` consecutive days, the first of which has weekday `w`. */
  function ExtraWeekdays(w: int, e: nat): nat {
    if e == 0 then 0 else ExtraWeekdays(w, e - 1) + WorkdayUnit(w + e - 1)
  }

  lemma FourWeeksLater(x: int, c: int)
    ensures WorkdayUnit(x + 28 + c) == WorkdayUnit(x % 7 + c)
  {
    var q := x / 7;
    assert x + 28 + c == 7 * (q + 4) + (x % 7 + c);
    DivShift(x % 7 + c, q + 4);
  }

  lemma DivShift(y: int, q: int)
    ensures (7 * q + y) % 7 == y % 7
  {
    DivUnique(7 * q + y, 7, q + y / 7, y % 7);
  }

  /** The first four weeks of a month hold 20 weekdays. */
  lemma FourWeeks(k: MonthKey)
    requires k.Valid()
    ensures CountWeekdays(k, 28) == 20
  {
    WeekPeriod(k, 0);
    WeekPeriod(k, 7);
    WeekPeriod(k, 14);
    WeekPeriod(k, 21);
  }

  /** Day 29 + j of a month has the weekday of its 1st, moved j days on. */
  lemma LateDay(k: MonthKey, j: nat)
    requires k.Valid() && j < 3
    ensures CountWeekdays(k, 29 + j) == CountWeekdays(k, 28 + j) + WorkdayUnit(FirstWeekday(k) + j)
  {
    WeekdayStep(k, 29 + j);
    FourWeeksLater(FirstDayNumber(k), j);
  }

  /** A month's weekdays are the 20 of its first four weeks plus those among
      its remaining days, which depend only on the weekday of its 1st. */
  lemma WeekdaysByFirstWeekday(k: MonthKey)
    requires k.Valid()
    ensures WeekdaysInMonth(k) == 20 + ExtraWeekdays(FirstWeekday(k), MonthLength(k.year, k.month) - 28)
  {
    var w, len := FirstWeekday(k), MonthLength(k.year, k.month);
    FourWeeks(k);
    assert ExtraWeekdays(w, 1) == WorkdayUnit(w);
    assert ExtraWeekdays(w, 2) == ExtraWeekdays(w, 1) + WorkdayUnit(w + 1);
    assert ExtraWeekdays(w, 3) == ExtraWeekdays(w, 2) + WorkdayUnit(w + 2);
    LateDay(k, 0);
    LateDay(k, 1);
    LateDay(k, 2);
  }

  /** January 2024 starts on a Monday and has 23 weekdays. */
  lemma January2024(k: MonthKey)
    requires k == MonthKey(2024, 0)
    ensures FirstWeekday(k) == 1
    ensures WeekdaysInMonth(k) == 23
  {
    assert FirstWeekday(k) == 1;
    assert ExtraWeekdays(1, 3) == 3;
    WeekdaysByFirstWeekday(k);
  }

  /** February 2024, of the leap year 2024, has 29 days and 21 weekdays. */
  lemma February2024(k: MonthKey)
    requires k == MonthKey(2024, 1)
    ensures MonthLength(k.year, k.month) == 29
    ensures WeekdaysInMonth(k) == 21
  {
    assert FirstWeekday(k) == 4;
    assert ExtraWeekdays(4, 1) == 1;
    WeekdaysByFirstWeekday(k);
  }

  /** The 1st of the month `n` months after the month of `d`. */
  function ShiftMonth(d: Date, n: int): (r: Date)
    requires d.Valid()
    ensures r.Valid() && r.day == 1
    ensures r.Key().Index() == d.Key().Index() + n
  {
    var k := AddMonths(d.Key(), n);
    Date(k.year, k.month, 1)
  }

  /** A shift by at most a year lands in the same year or a neighbouring one. */
  lemma ShiftMonthYear(d: Date, n: int)
    requires d.Valid() && -12 <= n <= 12
    ensures d.year - 1 <= ShiftMonth(d, n).year <= d.year + 1
  {
    var r := ShiftMonth(d, n);
    assert 12 * r.year + r.month == 12 * d.year + d.month + n;
  }

  /** Shifting back by as many months restores the month. */
  lemma ShiftMonthRoundTrip(d: Date, n: int)
    requires d.Valid()
    ensures ShiftMonth(ShiftMonth(d, n), -n).Key() == d.Key()
  {
    IndexInjective(ShiftMonth(ShiftMonth(d, n), -n).Key(), d.Key());
  }
}
