/** The month table of src/CalendarGrid.js: empty cells up to the weekday
    of the 1st, one flagged cell per day of the month, and the list cut into
    table rows of seven. */
module CalendarGrid {
  import opened Gregorian
  import opened JsDate
  import opened HolidayCalendar

  /** A table cell: padding before the 1st, or the cell of a day with its
      three flags. */
  datatype Cell = Padding | DayCell(date: Date, isWeekend: bool, isHoliday: bool, isWorkingDay: bool)

  /** The cell pushed for day `day` of the current month: the date, whether
      it is a Saturday or a Sunday, whether a holiday has its day, month and
      year, and whether it is listed among the working days. */
  method DayCellOf(currentDate: Date, day: int, holidays: seq<Date>, workingDays: seq<Date>)
    returns (cell: Cell)
    requires currentDate.Valid()
    requires var k := ConstructedMonth(currentDate);
             1 <= day <= MonthLength(k.year, k.month)
    ensures var k := ConstructedMonth(currentDate);
            var date := Date(k.year, k.month, day);
            cell == DayCell(date, IsWeekend(date), date in holidays, date in workingDays)
  {
    var date := NewDate(currentDate.year, currentDate.month, day);
    NewDateInMonth(currentDate.year, currentDate.month, day);
    cell := DayCell(date, WeekdayOf(date) == 0 || WeekdayOf(date) == 6,
                    IsHoliday(date, holidays), date in workingDays);
  }

  /** The `firstDay` and `daysInMonth` of the current month and the cell
      list: `firstDay` padding cells, then the cells of days 1 ..
      daysInMonth in ascending order. */
  method BuildDays(currentDate: Date, holidays: seq<Date>, workingDays: seq<Date>)
    returns (firstDay: int, daysInMonth: int, days: seq<Cell>)
    requires currentDate.Valid()
    ensures var k := ConstructedMonth(currentDate);
            firstDay == FirstWeekday(k) && daysInMonth == MonthLength(k.year, k.month)
    ensures 0 <= firstDay < 7 && 28 <= daysInMonth <= 31
    ensures |days| == firstDay + daysInMonth
    ensures forall i :: 0 <= i < firstDay ==> days[i] == Padding
    ensures var k := ConstructedMonth(currentDate);
            forall j :: 1 <= j <= daysInMonth ==>
              var date := Date(k.year, k.month, j);
              days[firstDay + j - 1] == DayCell(date, IsWeekend(date), date in holidays, date in workingDays)
  {
    ghost var k := ConstructedMonth(currentDate);
    firstDay := GetDayOf(currentDate.year, currentDate.month, 1);
    daysInMonth := DaysInMonth(currentDate.year, currentDate.month);
    days := [];
    var i := 0;
    while i < firstDay
      invariant 0 <= i <= firstDay && |days| == i
      invariant forall t :: 0 <= t < i ==> days[t] == Padding
    {
      days := days + [Padding];
      i := i + 1;
    }
    var day := 1;
    while day <= daysInMonth
      invariant 1 <= day <= daysInMonth + 1
      invariant |days| == firstDay + day - 1
      invariant forall t :: 0 <= t < firstDay ==> days[t] == Padding
      invariant forall j :: 1 <= j < day ==>
                  var date := Date(k.year, k.month, j);
                  days[firstDay + j - 1] == DayCell(date, IsWeekend(date), date in holidays, date in workingDays)
    {
      var cell := DayCellOf(currentDate, day, holidays, workingDays);
      days := days + [cell];
      day := day + 1;
    }
  }

  function Min(a: int, b: int): int {
    if a <= b then a else b
  }

  /** The table rows: `Math.ceil(days.length / 7)` rows, row `i` being
      `days.slice(i * 7, i * 7 + 7)`. Every row but the last holds seven
      cells and the last one to seven. */
  function Rows<T>(days: seq<T>): (rows: seq<seq<T>>)
    ensures |rows| == (|days| + 6) / 7
    ensures forall i :: 0 <= i < |rows| ==> 1 <= |rows[i]| <= 7
    ensures forall i :: 0 <= i < |rows| - 1 ==> |rows[i]| == 7
  {
    seq((|days| + 6) / 7, i requires 0 <= i < (|days| + 6) / 7 => days[7 * i .. Min(7 * i + 7, |days|)])
  }

  /** Cell `j` of row `i` is cell `7 * i + j` of the list. */
  lemma RowCell<T>(days: seq<T>, i: int, j: int)
    requires 0 <= i < |Rows(days)| && 0 <= j < |Rows(days)[i]|
    ensures 7 * i + j < |days| && Rows(days)[i][j] == days[7 * i + j]
  {
  }

  /** The rows read one after the other. */
  function Flatten<T>(rows: seq<seq<T>>): seq<T> {
    if rows == [] then [] else rows[0] + Flatten(rows[1..])
  }

  /** The first row is the first seven cells (or all of them), and the
      other rows are the rows of the rest. */
  lemma RowsStep<T>(days: seq<T>)
    requires days != []
    ensures var m := Min(7, |days|);
            Rows(days)[0] == days[..m] && Rows(days)[1..] == Rows(days[m..])
  {
    var m := Min(7, |days|);
    var a, b := Rows(days)[1..], Rows(days[m..]);
    assert |a| == |b|;
    forall i | 0 <= i < |a|
      ensures a[i] == b[i]
    {
      assert |days| > 7;
      assert days[m..][7 * i .. Min(7 * i + 7, |days| - m)] == days[7 * (i + 1) .. Min(7 * (i + 1) + 7, |days|)];
    }
  }

  /** Putting the rows back together gives the cell list unchanged. */
  lemma {:induction false} FlattenRows<T>(days: seq<T>)
    ensures Flatten(Rows(days)) == days
    decreases |days|
  {
    if days != [] {
      var m := Min(7, |days|);
      var rows := Rows(days);
      RowsStep(days);
      FlattenRows(days[m..]);
      assert Flatten(rows) == rows[0] + Flatten(rows[1..]);
      assert days[..m] + days[m..] == days;
    }
  }

  /** A month table has four to six rows: four only for a 28-day February
      that starts on a Sunday, six exactly when the padding and the days
      together pass 35 cells. */
  lemma MonthRows<T>(days: seq<T>, k: MonthKey)
    requires k.Valid() && |days| == FirstWeekday(k) + MonthLength(k.year, k.month)
    ensures 4 <= |Rows(days)| <= 6
    ensures |Rows(days)| == 4 <==> FirstWeekday(k) == 0 && MonthLength(k.year, k.month) == 28
    ensures |Rows(days)| == 6 <==> |days| > 35
  {
  }
}
