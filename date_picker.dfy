/**
 * The calendar pop-up behind the date fields (src/components/DatePicker):
 * the month arithmetic, the 6-week grid of days it draws, the selected-day
 * rule and the open/month-offset state its buttons drive.
 */
module DatePicker {
  import opened Wrappers
  import opened Calendar
  import opened JsNumber
  import opened JsDate
  import opened Quarter

  /** A cell of the grid: a day and whether it lies in the month on view. */
  datatype CalendarDay = CalendarDay(date: Date, isCurrentMonth: bool)

  const GridSize := 42

  /** The midnight of day n is on day n, at time 0 of the day (so every
      getter reads the fields of day n). */
  lemma MidnightDay(n: int, t: int)
    requires t == n * MsPerDay
    ensures Day(t) == n && TimeWithinDay(t) == 0
  {
    DayOfMidnight(n);
  }

  /** Day 1 of month m (any integer) of year y is day 1 of month m % 12 of
      year y + m / 12. */
  lemma FirstOfMonthDay(y: int, m: int, n: int)
    requires n == MakeDay(y, m, 1)
    ensures YearFromDay(n) == y + m / 12 && MonthFromDay(n) == m % 12 && DateFromDay(n) == 1
  {
    assert (m % 12) / 12 == 0 && (m % 12) % 12 == m % 12;
    assert n == MakeDay(y + m / 12, m % 12, 1);
    CivilOfMakeDay(n, y + m / 12, m % 12, 1);
  }

  /** Day 1 of month m (any integer, overflow carrying into the year) of
      year y, at midnight, as `new Date(y, m, 1)` builds it: an integral
      year 0..99 means 1900..1999. */
  function FirstOfMonth(y: int, m: int): (r: Date)
    ensures r.Time? && FullYear(r.ms) == FullYearArg(y) + m / 12 && Month(r.ms) == m % 12
      && DateOfMonth(r.ms) == 1 && TimeWithinDay(r.ms) == 0
  {
    var n := MonthStartDay(y, m);
    FirstOfMonthDay(FullYearArg(y), m, n);
    MidnightDay(n, n * MsPerDay);
    Midnight(n)
  }

  /** The day number of FirstOfMonth(y, m). */
  function MonthStartDay(y: int, m: int): int {
    MakeDay(FullYearArg(y), m, 1)
  }

  /** FirstOfMonth is the Date constructor on those integer arguments. */
  lemma FirstOfMonthIsNewDate(y: int, m: int)
    ensures FirstOfMonth(y, m) == NewDate(FromInt(y), FromInt(m), FromInt(1))
  {
    NewDateInts(y, m, 1);
  }

  /** startOfMonth: `new Date(getFullYear(), getMonth(), 1)`, day 1 of the
      date's month at midnight (of year 1900 + y for a year y in 0..99). */
  function StartOfMonth(d: Date): (r: Date)
    ensures r.Time? <==> d.Time?
    ensures d.Time? ==> FullYear(r.ms) == FullYearArg(FullYear(d.ms)) && Month(r.ms) == Month(d.ms)
                        && DateOfMonth(r.ms) == 1 && TimeWithinDay(r.ms) == 0
  {
    if d.Invalid? then Invalid else FirstOfMonth(FullYear(d.ms), Month(d.ms))
  }

  /** addMonths(d, amount): `new Date(getFullYear(), getMonth() + amount, 1)`,
      day 1 of the month `amount` months after d's. */
  function AddMonths(d: Date, amount: int): (r: Date)
    ensures r.Time? <==> d.Time?
    ensures d.Time? ==> FullYear(r.ms) == FullYearArg(FullYear(d.ms)) + (Month(d.ms) + amount) / 12
                        && Month(r.ms) == (Month(d.ms) + amount) % 12
                        && DateOfMonth(r.ms) == 1 && TimeWithinDay(r.ms) == 0
  {
    if d.Invalid? then Invalid else FirstOfMonth(FullYear(d.ms), Month(d.ms) + amount)
  }

  /** The view month: the month of the value (or of today when the field
      is empty) moved by the offset the arrow buttons keep. */
  function ViewDate(value: string, now: int, monthOffset: int): (r: Date)
    ensures value == "" ==>
              && r.Time? && DateOfMonth(r.ms) == 1
              && FullYear(r.ms) == FullYearArg(FullYear(now)) + (Month(now) + monthOffset) / 12
              && Month(r.ms) == (Month(now) + monthOffset) % 12
    ensures value != "" ==> (r.Time? <==> ParseISODate(value).Time?)
    ensures value != "" && ParseISODate(value).Time? ==>
              var p := ParseISODate(value).ms;
              && DateOfMonth(r.ms) == 1
              && FullYear(r.ms) == FullYearArg(FullYear(p)) + (Month(p) + monthOffset) / 12
              && Month(r.ms) == (Month(p) + monthOffset) % 12
  {
    AddMonths(StartOfMonth(if value != "" then ParseISODate(value) else Time(now)), monthOffset)
  }

  // ---------------------------------------------------------------------
  // The grid

  /** Days from the Monday of the first week to the 1st of the month:
      `(getDay() + 6) % 7`. */
  function FirstDayOffset(t: int): (k: int)
    ensures 0 <= k < 7
  {
    (WeekDayOf(t) + 6) % 7
  }

  /** The time value of the grid's first cell: the Monday on or before the
      1st of the view month. */
  function GridStart(viewDate: Date): int
    requires viewDate.Time?
  {
    var first := StartOfMonth(viewDate).ms;
    first - FirstDayOffset(first) * MsPerDay
  }

  /** Cell k of a grid starting at time value `start`: the date k days
      later, flagged by whether it falls in month `month`. */
  function GridDay(start: int, month: int, k: int): CalendarDay {
    var date := Time(start + k * MsPerDay);
    CalendarDay(date, Month(date.ms) == month)
  }

  /** The first n cells of a grid starting at time value `start`: cell k
      is the date k days later, flagged by its month. */
  function GridDays(start: int, month: int, n: nat): (r: seq<CalendarDay>)
    ensures |r| == n
    ensures forall k :: 0 <= k < n ==> r[k] == GridDay(start, month, k)
  {
    if n == 0 then [] else GridDays(start, month, n - 1) + [GridDay(start, month, n - 1)]
  }

  /** buildCalendarGrid: 42 consecutive midnights from GridStart, each
      flagged by whether its month is the view date's; for an Invalid Date
      every cell is an Invalid Date outside the month. */
  method BuildCalendarGrid(viewDate: Date) returns (days: seq<CalendarDay>)
    ensures |days| == GridSize
    ensures viewDate.Invalid? ==> forall i :: 0 <= i < GridSize ==> days[i] == CalendarDay(Invalid, false)
    ensures viewDate.Time? ==> days == GridDays(GridStart(viewDate), Month(viewDate.ms), GridSize)
  {
    var firstOfMonth := StartOfMonth(viewDate);
    var startDate := Invalid;
    ghost var gs, vm := 0, 0;
    if firstOfMonth.Time? {
      var offset := FirstDayOffset(firstOfMonth.ms);
      gs, vm := firstOfMonth.ms - offset * MsPerDay, Month(viewDate.ms);
      assert gs == GridStart(viewDate);
      startDate := DaysLater(firstOfMonth, -offset);
    }
    days := [];
    var i := 0;
    while i < GridSize
      invariant 0 <= i <= GridSize && |days| == i
      invariant startDate.Time? <==> viewDate.Time?
      invariant viewDate.Time? ==> startDate.ms == gs && vm == Month(viewDate.ms)
      invariant viewDate.Invalid? ==> forall k :: 0 <= k < i ==> days[k] == CalendarDay(Invalid, false)
      invariant viewDate.Time? ==> days == GridDays(gs, vm, i)
    {
      var day := GridCell(startDate, viewDate, i);
      days := days + [day];
      i := i + 1;
    }
  }

  /** One pass of the grid loop: the day i days after the grid's first
      cell, flagged by whether its month is the view date's (two Invalid
      Dates have NaN months, which are never equal). */
  method GridCell(startDate: Date, viewDate: Date, i: int) returns (day: CalendarDay)
    ensures startDate.Invalid? ==> day == CalendarDay(Invalid, false)
    ensures startDate.Time? && viewDate.Time? ==> day == GridDay(startDate.ms, Month(viewDate.ms), i)
  {
    var current := DaysLater(startDate, i);
    var inMonth := current.Time? && viewDate.Time? && Month(current.ms) == Month(viewDate.ms);
    day := CalendarDay(current, inMonth);
  }

  /** `new Date(start)` moved by `setDate(start.getDate() + k)`: the same
      time of day k whole days later (k may be negative); an Invalid Date
      stays Invalid. */
  method DaysLater(start: Date, k: int) returns (r: Date)
    ensures start.Time? ==> r == Time(start.ms + k * MsPerDay)
    ensures start.Invalid? ==> r.Invalid?
  {
    r := start;
    if start.Time? {
      var t := start.ms;
      var x := DateOfMonth(t) + k;
      assert start == Time(t);
      SetDateShift(t, k, x, t + k * MsPerDay);
      r := SetDate(Time(t), FromInt(x));
    }
  }

  /** The grid starts on a Monday, at midnight, at most six days before the
      1st of the view month. */
  lemma GridStartsOnMonday(viewDate: Date)
    requires viewDate.Time?
    ensures WeekDayOf(GridStart(viewDate)) == 1 && TimeWithinDay(GridStart(viewDate)) == 0
    ensures StartOfMonth(viewDate).ms - 6 * MsPerDay <= GridStart(viewDate) <= StartOfMonth(viewDate).ms
  {
    var first := StartOfMonth(viewDate).ms;
    var n := MonthStartDay(FullYear(viewDate.ms), Month(viewDate.ms));
    assert first == n * MsPerDay;
    MondayStart(first, n, FirstDayOffset(first), GridStart(viewDate));
  }

  /** Going back FirstDayOffset days from the midnight of day n lands on the
      midnight of a Monday, at most six days earlier. */
  lemma MondayStart(first: int, n: int, off: int, s: int)
    requires first == n * MsPerDay && off == FirstDayOffset(first) && s == first - off * MsPerDay
    ensures WeekDayOf(s) == 1 && TimeWithinDay(s) == 0 && first - 6 * MsPerDay <= s <= first
  {
    MidnightDay(n, first);
    assert off == (WeekDay(n) + 6) % 7;
    MondayBefore(n, off);
    MidnightDay(n - off, s);
  }

  /** Going back `(WeekDay(n) + 6) % 7` days from day n lands on a Monday. */
  lemma MondayBefore(n: int, off: int)
    requires off == (WeekDay(n) + 6) % 7
    ensures WeekDay(n - off) == 1
  {
    var w := (n + 4) % 7;
    assert n + 4 == 7 * ((n + 4) / 7) + w;
    if w == 0 {
      assert off == 6;
      assert n - off + 4 == 7 * ((n + 4) / 7 - 1) + 1;
    } else {
      assert off == w - 1;
      assert n - off + 4 == 7 * ((n + 4) / 7) + 1;
    }
  }

  /** Cell i of the grid of viewDate (first: the 1st of the view month,
      off: its FirstDayOffset) is flagged as in the month exactly when it
      is one of the month's days, from cell off for as many cells as the
      month has days; cell off + d - 1 is then day d of that month. */
  lemma CurrentMonthCells(viewDate: Date, i: int, first: int, off: int, cell: CalendarDay)
    requires viewDate.Time? && 0 <= i < GridSize
    requires first == StartOfMonth(viewDate).ms && off == FirstDayOffset(first)
    requires cell == GridDay(GridStart(viewDate), Month(viewDate.ms), i)
    ensures cell.isCurrentMonth <==> off <= i < off + DaysInMonth(FullYear(first), Month(first))
    ensures off <= i < off + DaysInMonth(FullYear(first), Month(first)) ==>
      FullYear(cell.date.ms) == FullYear(first) && DateOfMonth(cell.date.ms) == i - off + 1
  {
    var n := MonthStartDay(FullYear(viewDate.ms), Month(viewDate.ms));
    assert first == n * MsPerDay;
    assert cell.date.ms == first + (i - off) * MsPerDay;
    CellOfMonth(first, n, off, i, cell.date.ms);
  }

  /** Cell i of a grid that starts `off` days before the midnight of day n,
      the 1st of its month. */
  lemma CellOfMonth(first: int, n: int, off: int, i: int, t: int)
    requires first == n * MsPerDay && DateOfMonth(first) == 1 && 0 <= off < 7 && 0 <= i < GridSize
    requires t == first + (i - off) * MsPerDay
    ensures Month(t) == Month(first) <==> off <= i < off + DaysInMonth(FullYear(first), Month(first))
    ensures off <= i < off + DaysInMonth(FullYear(first), Month(first)) ==>
      FullYear(t) == FullYear(first) && DateOfMonth(t) == i - off + 1
  {
    MidnightDay(n, first);
    var c := n + (i - off);
    MidnightDay(c, t);
    CellMonth(n, i - off, c);
  }

  /** Day c = n + j, for day n the 1st of its month and -6 <= j < 42, lies
      in n's month exactly when j < the month's length, and is then day
      j + 1. */
  lemma CellMonth(n: int, j: int, c: int)
    requires DateFromDay(n) == 1 && -6 <= j < GridSize && c == n + j
    ensures MonthFromDay(c) == MonthFromDay(n) <==> 0 <= j < DaysInMonth(YearFromDay(n), MonthFromDay(n))
    ensures 0 <= j < DaysInMonth(YearFromDay(n), MonthFromDay(n)) ==>
      YearFromDay(c) == YearFromDay(n) && DateFromDay(c) == j + 1
  {
    if 0 <= j < DaysInMonth(YearFromDay(n), MonthFromDay(n)) {
      SameMonthAhead(n, j, c);
    } else if j >= 0 {
      NextMonthAhead(n, j, c);
    } else if DateFromDay(c) - j <= DaysInMonth(YearFromDay(c), MonthFromDay(c)) {
      SameMonthAhead(c, -j, n);
      assert false;
    } else {
      NextMonthAhead(c, -j, n);
    }
  }

  /** Day t, i days after day n without passing the end of n's month, is
      in n's month and year, i days further into it. */
  lemma SameMonthAhead(n: int, i: int, t: int)
    requires t == n + i && 0 <= i && DateFromDay(n) + i <= DaysInMonth(YearFromDay(n), MonthFromDay(n))
    ensures YearFromDay(t) == YearFromDay(n) && MonthFromDay(t) == MonthFromDay(n)
    ensures DateFromDay(t) == DateFromDay(n) + i
  {
    var y, m, d := YearFromDay(n), MonthFromDay(n), DateFromDay(n);
    MakeDayOfCivil(n);
    MakeDayShift(y, m, d, i);
    CivilOfMakeDay(t, y, m, d + i);
  }

  /** Day t, i days after day n and past the end of n's month (by at most
      28 days), is in the following month. */
  lemma NextMonthAhead(n: int, i: int, t: int)
    requires t == n + i
    requires DaysInMonth(YearFromDay(n), MonthFromDay(n)) < DateFromDay(n) + i
    requires DateFromDay(n) + i <= DaysInMonth(YearFromDay(n), MonthFromDay(n)) + 28
    ensures MonthFromDay(t) != MonthFromDay(n)
  {
    var y, m, d := YearFromDay(n), MonthFromDay(n), DateFromDay(n);
    var k := d + i - DaysInMonth(y, m);
    var next := NextMonth(y, m);
    MakeDayOfCivil(n);
    MakeDayShift(y, m, d, i);
    MakeDayNextMonth(y, m, k);
    MakeDayNextMonthNormalised(y, m, k);
    CivilOfMakeDay(t, next.0, next.1, k);
  }

  /** Every day of the view month has its cell: day d is cell
      i = off + d - 1, which is inside the grid and flagged as in the month. */
  lemma EveryMonthDayShown(viewDate: Date, d: int, first: int, off: int, i: int, cell: CalendarDay)
    requires viewDate.Time? && first == StartOfMonth(viewDate).ms && off == FirstDayOffset(first)
    requires 1 <= d <= DaysInMonth(FullYear(first), Month(first)) && i == off + d - 1
    requires cell == GridDay(GridStart(viewDate), Month(viewDate.ms), i)
    ensures 0 <= i < GridSize
    ensures cell.isCurrentMonth && DateOfMonth(cell.date.ms) == d && FullYear(cell.date.ms) == FullYear(first)
  {
    CurrentMonthCells(viewDate, i, first, off, cell);
  }

  // ---------------------------------------------------------------------
  // Selection

  /** Year, month and day of the month all equal; NaN fields of an Invalid
      Date equal nothing. */
  predicate SameCalendarDay(a: Date, b: Date) {
    a.Time? && b.Time? && FullYear(a.ms) == FullYear(b.ms) && Month(a.ms) == Month(b.ms)
    && DateOfMonth(a.ms) == DateOfMonth(b.ms)
  }

  /** The isSelected test of a grid day; `parsed` is None for an empty
      field. The same test against today gives isToday. */
  predicate IsSelected(parsed: Option<Date>, day: Date) {
    parsed.Some? && SameCalendarDay(parsed.value, day)
  }

  /** A day is selected exactly when it is the value's day: both valid and
      on the same day number. */
  lemma IsSelectedSameDay(parsed: Option<Date>, day: Date)
    ensures IsSelected(parsed, day) <==>
      parsed.Some? && parsed.value.Time? && day.Time? && Day(parsed.value.ms) == Day(day.ms)
  {
    if parsed.Some? && parsed.value.Time? && day.Time? {
      var a, b := Day(parsed.value.ms), Day(day.ms);
      if SameCalendarDay(parsed.value, day) {
        MakeDayOfCivil(a);
        MakeDayOfCivil(b);
      }
    }
  }

  // ---------------------------------------------------------------------
  // Picker state

  /** The picker's state: whether the calendar is open and how many months
      the view has been moved from the value's month. */
  class Picker {
    var isOpen: bool
    var monthOffset: int

    constructor ()
      ensures !isOpen && monthOffset == 0
    {
      isOpen := false;
      monthOffset := 0;
    }

    /** The trigger button: toggles the calendar; opening it resets the
        view to the value's month. */
    method Toggle()
      modifies this
      ensures isOpen == !old(isOpen)
      ensures monthOffset == if isOpen then 0 else old(monthOffset)
    {
      var next := !isOpen;
      if next {
        monthOffset := 0;
      }
      isOpen := next;
    }

    /** A click outside the picker or the Escape key. */
    method Close()
      modifies this
      ensures !isOpen && monthOffset == old(monthOffset)
    {
      isOpen := false;
    }

    /** The previous-month arrow. */
    method PreviousMonth()
      modifies this
      ensures monthOffset == old(monthOffset) - 1 && isOpen == old(isOpen)
    {
      monthOffset := monthOffset - 1;
    }

    /** The next-month arrow. */
    method NextMonth()
      modifies this
      ensures monthOffset == old(monthOffset) + 1 && isOpen == old(isOpen)
    {
      monthOffset := monthOffset + 1;
    }

    /** handleDaySelect: emits the day as YYYY-MM-DD, resets the view and
        closes the calendar. */
    method SelectDay(date: Date) returns (emitted: string)
      modifies this
      ensures emitted == FormatISODate(date)
      ensures !isOpen && monthOffset == 0
    {
      emitted := FormatISODate(date);
      monthOffset := 0;
      isOpen := false;
    }
  }
}
