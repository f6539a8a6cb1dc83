/** Proleptic Gregorian day arithmetic, as ECMAScript defines it for Date
    values (ECMA-262, section 21.4.1: DayFromYear, YearFromTime, MonthFromTime,
    DateFromTime, WeekDay and MakeDay). A day number counts days from
    1970-01-01; months are 0-based (0 = January), dates 1-based. */
module Calendar {

  const MsPerDay: int := 86_400_000

  predicate IsLeap(y: int) {
    y % 4 == 0 && (y % 100 != 0 || y % 400 == 0)
  }

  function DaysInYear(y: int): int {
    if IsLeap(y) then 366 else 365
  }

  /** Day number of January 1st of year y (ECMA-262 DayFromYear). */
  function DayFromYear(y: int): int {
    365 * (y - 1970) + (y - 1969) / 4 - (y - 1901) / 100 + (y - 1601) / 400
  }

  function DaysInMonth(y: int, m: int): (n: int)
    requires 0 <= m < 12
    ensures 28 <= n <= 31
  {
    if m == 1 then (if IsLeap(y) then 29 else 28)
    else if m == 3 || m == 5 || m == 8 || m == 10 then 30
    else 31
  }

  /** Days of year y that lie before month m (m == 12 gives the year's length). */
  function DaysBeforeMonth(y: int, m: int): int
    requires 0 <= m <= 12
  {
    var leapDay := if IsLeap(y) && m >= 2 then 1 else 0;
    leapDay +
    (if m == 0 then 0 else if m == 1 then 31 else if m == 2 then 59
     else if m == 3 then 90 else if m == 4 then 120 else if m == 5 then 151
     else if m == 6 then 181 else if m == 7 then 212 else if m == 8 then 243
     else if m == 9 then 273 else if m == 10 then 304 else if m == 11 then 334
     else 365)
  }

  lemma MonthTable(y: int, m: int)
    requires 0 <= m < 12
    ensures DaysBeforeMonth(y, m + 1) == DaysBeforeMonth(y, m) + DaysInMonth(y, m)
    ensures DaysBeforeMonth(y, 12) == DaysInYear(y)
  {
  }

  lemma LeapStep4(y: int)
    ensures (y - 1968) / 4 == (y - 1969) / 4 + (if y % 4 == 0 then 1 else 0)
  {
    var q, r := (y - 1969) / 4, (y - 1969) % 4;
    assert y - 1969 == 4 * q + r;
    assert y % 4 == (r + 1) % 4;
  }

  lemma LeapStep100(y: int)
    ensures (y - 1900) / 100 == (y - 1901) / 100 + (if y % 100 == 0 then 1 else 0)
  {
    var q, r := (y - 1901) / 100, (y - 1901) % 100;
    assert y - 1901 == 100 * q + r;
    assert y % 100 == (r + 1) % 100;
  }

  lemma LeapStep400(y: int)
    ensures (y - 1600) / 400 == (y - 1601) / 400 + (if y % 400 == 0 then 1 else 0)
  {
    var q, r := (y - 1601) / 400, (y - 1601) % 400;
    assert y - 1601 == 400 * q + r;
    assert y % 400 == (r + 1) % 400;
  }

  /** Every multiple of 400 is a multiple of 100, and every multiple of 100
      a multiple of 4. */
  lemma DivisibilityChain(y: int)
    ensures y % 400 == 0 ==> y % 100 == 0
    ensures y % 100 == 0 ==> y % 4 == 0
  {
    if y % 400 == 0 {
      var k := y / 400;
      assert y == 100 * (4 * k);
    }
    if y % 100 == 0 {
      var k := y / 100;
      assert y == 4 * (25 * k);
    }
  }

  lemma DayFromYearStep(y: int)
    ensures DayFromYear(y + 1) == DayFromYear(y) + DaysInYear(y)
  {
    LeapStep4(y);
    LeapStep100(y);
    LeapStep400(y);
    DivisibilityChain(y);
    assert DayFromYear(y + 1) == 365 * (y - 1969) + (y - 1968) / 4 - (y - 1900) / 100 + (y - 1600) / 400;
  }

  lemma {:induction false} DayFromYearMonotone(a: int, b: int)
    requires a < b
    ensures DayFromYear(a) + DaysInYear(a) <= DayFromYear(b)
    decreases b - a
  {
    DayFromYearStep(a);
    if a + 1 < b {
      DayFromYearMonotone(a + 1, b);
      DayFromYearStep(a + 1);
    }
  }

  /** The year in which day n lies (ECMA-262 YearFromTime). */
  function YearFromDay(n: int): (y: int)
    ensures DayFromYear(y) <= n < DayFromYear(y + 1)
  {
    if n >= 0 then YearSearchUp(n, 1970) else YearSearchDown(n, 1969)
  }

  function YearSearchUp(n: int, y: int): (r: int)
    requires DayFromYear(y) <= n
    ensures DayFromYear(r) <= n < DayFromYear(r + 1)
    decreases n - DayFromYear(y)
  {
    DayFromYearStep(y);
    if n < DayFromYear(y + 1) then y else YearSearchUp(n, y + 1)
  }

  function YearSearchDown(n: int, y: int): (r: int)
    requires n < DayFromYear(y + 1)
    ensures DayFromYear(r) <= n < DayFromYear(r + 1)
    decreases DayFromYear(y + 1) - n
  {
    DayFromYearStep(y);
    if DayFromYear(y) <= n then y else YearSearchDown(n, y - 1)
  }

  /** A day lies in exactly one year. */
  lemma YearFromDayUnique(n: int, y: int)
    requires DayFromYear(y) <= n < DayFromYear(y + 1)
    ensures YearFromDay(n) == y
  {
    var x := YearFromDay(n);
    if x < y {
      DayFromYearMonotone(x, y);
      DayFromYearStep(x);
    } else if y < x {
      DayFromYearMonotone(y, x);
      DayFromYearStep(y);
    }
  }

  function DayWithinYear(n: int): (d: int)
    ensures 0 <= d < DaysInYear(YearFromDay(n))
  {
    DayFromYearStep(YearFromDay(n));
    n - DayFromYear(YearFromDay(n))
  }

  /** Month of day n, 0..11 (ECMA-262 MonthFromTime). */
  function MonthFromDay(n: int): (m: int)
    ensures 0 <= m < 12
    ensures DaysBeforeMonth(YearFromDay(n), m) <= DayWithinYear(n) < DaysBeforeMonth(YearFromDay(n), m + 1)
  {
    var d := DayWithinYear(n);
    var leap := if IsLeap(YearFromDay(n)) then 1 else 0;
    if d < 31 then 0
    else if d < 59 + leap then 1
    else if d < 90 + leap then 2
    else if d < 120 + leap then 3
    else if d < 151 + leap then 4
    else if d < 181 + leap then 5
    else if d < 212 + leap then 6
    else if d < 243 + leap then 7
    else if d < 273 + leap then 8
    else if d < 304 + leap then 9
    else if d < 334 + leap then 10
    else 11
  }

  /** Day of the month of day n, 1-based (ECMA-262 DateFromTime). */
  function DateFromDay(n: int): (d: int)
    ensures 1 <= d <= DaysInMonth(YearFromDay(n), MonthFromDay(n))
  {
    MonthTable(YearFromDay(n), MonthFromDay(n));
    DayWithinYear(n) - DaysBeforeMonth(YearFromDay(n), MonthFromDay(n)) + 1
  }

  /** Day of the week of day n, 0 = Sunday (ECMA-262 WeekDay; 1970-01-01 was a Thursday). */
  function WeekDay(n: int): (w: int)
    ensures 0 <= w < 7
  {
    (n + 4) % 7
  }

  /** ECMA-262 MakeDay on integer arguments: month overflow carries into the
      year (floor division), and the date may lie outside the month. */
  function MakeDay(y: int, m: int, d: int): int {
    var ym, mn := y + m / 12, m % 12;
    DayFromYear(ym) + DaysBeforeMonth(ym, mn) + d - 1
  }

  /** Months start in order: a later month never starts earlier in the year. */
  lemma {:induction false} DaysBeforeMonthMonotone(y: int, a: int, b: int)
    requires 0 <= a <= b <= 12
    ensures DaysBeforeMonth(y, a) <= DaysBeforeMonth(y, b)
    decreases b - a
  {
    if a < b {
      MonthTable(y, a);
      DaysBeforeMonthMonotone(y, a + 1, b);
    }
  }

  /** A day of the year lies in exactly one month. */
  lemma MonthOfBracket(n: int, m: int)
    requires 0 <= m < 12
    requires DaysBeforeMonth(YearFromDay(n), m) <= DayWithinYear(n) < DaysBeforeMonth(YearFromDay(n), m + 1)
    ensures MonthFromDay(n) == m
  {
    var y, k := YearFromDay(n), MonthFromDay(n);
    if k < m {
      DaysBeforeMonthMonotone(y, k + 1, m);
    } else if m < k {
      DaysBeforeMonthMonotone(y, m + 1, k);
    }
  }

  /** A valid calendar date survives MakeDay followed by the three field functions. */
  lemma CivilOfMakeDay(n: int, y: int, m: int, d: int)
    requires 0 <= m < 12 && 1 <= d <= DaysInMonth(y, m) && n == MakeDay(y, m, d)
    ensures YearFromDay(n) == y && MonthFromDay(n) == m && DateFromDay(n) == d
  {
    assert m / 12 == 0 && m % 12 == m;
    assert n == DayFromYear(y) + DaysBeforeMonth(y, m) + d - 1;
    MonthTable(y, m);
    DayFromYearStep(y);
    DaysBeforeMonthMonotone(y, m + 1, 12);
    YearFromDayUnique(n, y);
    MonthOfBracket(n, m);
  }

  /** Every day is MakeDay of its own year, month and date. */
  lemma MakeDayOfCivil(n: int)
    ensures MakeDay(YearFromDay(n), MonthFromDay(n), DateFromDay(n)) == n
  {
    var m := MonthFromDay(n);
    assert m / 12 == 0 && m % 12 == m;
  }

  /** Day 1 of the following month comes right after the last day of this one. */
  lemma MakeDayNextMonth(y: int, m: int, d: int)
    requires 0 <= m < 12
    ensures MakeDay(y, m + 1, d) == MakeDay(y, m, d) + DaysInMonth(y, m)
  {
    assert m / 12 == 0 && m % 12 == m;
    MonthTable(y, m);
    if m == 11 {
      assert (m + 1) / 12 == 1 && (m + 1) % 12 == 0;
      DayFromYearStep(y);
    } else {
      assert (m + 1) / 12 == 0 && (m + 1) % 12 == m + 1;
    }
  }

  /** The month that follows month m of year y, as (year, month). */
  function NextMonth(y: int, m: int): (r: (int, int))
    requires 0 <= m < 12
    ensures 0 <= r.1 < 12
  {
    if m == 11 then (y + 1, 0) else (y, m + 1)
  }

  lemma MakeDayNextMonthNormalised(y: int, m: int, d: int)
    requires 0 <= m < 12
    ensures MakeDay(NextMonth(y, m).0, NextMonth(y, m).1, d) == MakeDay(y, m + 1, d)
  {
    if m == 11 {
      assert (m + 1) / 12 == 1 && (m + 1) % 12 == 0;
    } else {
      assert (m + 1) / 12 == 0 && (m + 1) % 12 == m + 1;
    }
  }

  /** MakeDay is linear in its date argument. */
  lemma MakeDayShift(y: int, m: int, d: int, k: int)
    ensures MakeDay(y, m, d + k) == MakeDay(y, m, d) + k
  {
  }

  /** Moving i days ahead without passing the end of the month keeps the
      year and month and adds i to the date. */
  lemma DaysAheadSameMonth(n: int, i: int)
    requires 0 <= i && DateFromDay(n) + i <= DaysInMonth(YearFromDay(n), MonthFromDay(n))
    ensures YearFromDay(n + i) == YearFromDay(n) && MonthFromDay(n + i) == MonthFromDay(n)
    ensures DateFromDay(n + i) == DateFromDay(n) + i
  {
    var y, m, d := YearFromDay(n), MonthFromDay(n), DateFromDay(n);
    MakeDayOfCivil(n);
    MakeDayShift(y, m, d, i);
    forall t | t == n + i
      ensures YearFromDay(t) == y && MonthFromDay(t) == m && DateFromDay(t) == d + i
    {
      CivilOfMakeDay(t, y, m, d + i);
    }
  }

  /** Moving past the end of the month (by less than 28 further days) lands
      in the following month. */
  lemma DaysAheadNextMonth(n: int, i: int)
    requires DaysInMonth(YearFromDay(n), MonthFromDay(n)) < DateFromDay(n) + i
    requires DateFromDay(n) + i <= DaysInMonth(YearFromDay(n), MonthFromDay(n)) + 28
    ensures (YearFromDay(n + i), MonthFromDay(n + i)) == NextMonth(YearFromDay(n), MonthFromDay(n))
    ensures DateFromDay(n + i) == DateFromDay(n) + i - DaysInMonth(YearFromDay(n), MonthFromDay(n))
  {
    var y, m, d := YearFromDay(n), MonthFromDay(n), DateFromDay(n);
    var k := d + i - DaysInMonth(y, m);
    var next := NextMonth(y, m);
    MakeDayOfCivil(n);
    MakeDayShift(y, m, d, i);
    MakeDayNextMonth(y, m, k);
    MakeDayNextMonthNormalised(y, m, k);
    forall t | t == n + i
      ensures YearFromDay(t) == next.0 && MonthFromDay(t) == next.1 && DateFromDay(t) == k
    {
      CivilOfMakeDay(t, next.0, next.1, k);
    }
  }
}
