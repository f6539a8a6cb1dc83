/** JavaScript Date values as the planner uses them (ECMA-262, section 21.4).
    A Date holds a time value in milliseconds since 1970-01-01T00:00Z, or is
    an Invalid Date (time value NaN). The local time zone is taken to be UTC,
    so local and UTC getters and setters agree, `new Date(y, m, d)` and
    `Date.UTC(y, m, d)` agree, and there is no daylight-saving shift. */
module JsDate {
  import opened Wrappers
  import opened Calendar
  import opened JsString
  import opened JsNumber

  datatype Date = Invalid | Time(ms: int)

  const MsPerHour: int := 3_600_000
  const MsPerMinute: int := 60_000
  const MsPerSecond: int := 1000

  /** Day number of a time value (ECMA-262 Day). */
  function Day(t: int): int {
    t / MsPerDay
  }

  function TimeWithinDay(t: int): (r: int)
    ensures 0 <= r < MsPerDay
  {
    t % MsPerDay
  }

  /** Midnight at the start of day n. */
  function Midnight(n: int): (d: Date)
    ensures d.Time?
  {
    Time(n * MsPerDay)
  }

  lemma DayOfMidnight(n: int)
    ensures Day(n * MsPerDay) == n && TimeWithinDay(n * MsPerDay) == 0
  {
  }

  lemma DayOfTime(n: int, r: int)
    requires 0 <= r < MsPerDay
    ensures Day(n * MsPerDay + r) == n && TimeWithinDay(n * MsPerDay + r) == r
  {
  }

  /** Adding k whole days to a time value adds k to its day number and
      keeps its time of day. */
  lemma DayAfterDays(t: int, k: int)
    ensures Day(t + k * MsPerDay) == Day(t) + k
    ensures TimeWithinDay(t + k * MsPerDay) == TimeWithinDay(t)
  {
    assert t + k * MsPerDay == (Day(t) + k) * MsPerDay + TimeWithinDay(t);
    DayOfTime(Day(t) + k, TimeWithinDay(t));
  }

  /** Midnights are ordered as their day numbers are. */
  lemma MidnightOrder(a: int, b: int)
    ensures Midnight(a).ms <= Midnight(b).ms <==> a <= b
  {
    if a <= b {
      assert b * MsPerDay - a * MsPerDay == (b - a) * MsPerDay;
    } else {
      assert a * MsPerDay - b * MsPerDay == (a - b) * MsPerDay;
    }
  }

  /** k days after the midnight of day n is the midnight of day n + k. */
  lemma MidnightAfterDays(n: int, k: int)
    ensures Midnight(n).ms + k * MsPerDay == Midnight(n + k).ms
  {
    assert (n + k) * MsPerDay == n * MsPerDay + k * MsPerDay;
  }

  /** Two midnights lie a whole number of days apart: `(b - a) / 86400000`
      is exact. */
  lemma DaysBetweenMidnights(a: int, b: int)
    ensures (Midnight(b).ms - Midnight(a).ms) / MsPerDay == b - a
  {
    assert Midnight(b).ms - Midnight(a).ms == (b - a) * MsPerDay;
  }

  /** getTime(): NaN for an Invalid Date. */
  function GetTime(d: Date): (n: Number)
    ensures d.Time? <==> n.Finite?
  {
    if d.Time? then FromInt(d.ms) else NaN
  }

  function FullYear(t: int): int {
    YearFromDay(Day(t))
  }

  /** 0-based month of a time value. */
  function Month(t: int): (m: int)
    ensures 0 <= m < 12
  {
    MonthFromDay(Day(t))
  }

  /** The month as people number it, 1..12 (`getMonth() + 1`). */
  function MonthNumber(t: int): (mo: int)
    ensures 1 <= mo <= 12
  {
    Month(t) + 1
  }

  /** 1-based day of the month of a time value. */
  function DateOfMonth(t: int): (d: int)
    ensures 1 <= d <= 31
  {
    DateFromDay(Day(t))
  }

  /** Day of the week, 0 = Sunday. */
  function WeekDayOf(t: int): (w: int)
    ensures 0 <= w < 7
  {
    WeekDay(Day(t))
  }

  /** The year mapping of `new Date(year, ...)` and `Date.UTC(year, ...)`:
      an integral year 0..99 means 1900..1999 (ECMA-262 MakeFullYear). */
  function MakeFullYear(y: Number): (r: Number)
    ensures r.Finite? <==> y.Finite?
  {
    if y.Finite? && 0 <= ToInteger(y.r) <= 99 then FromInt(1900 + ToInteger(y.r)) else y
  }

  /** The year `new Date(y, ...)` actually uses for an integer y. */
  function FullYearArg(y: int): (r: int)
    ensures 0 <= y <= 99 ==> r == 1900 + y
    ensures (y < 0 || y > 99) ==> r == y
  {
    if 0 <= y <= 99 then 1900 + y else y
  }

  /** `new Date(year, monthIndex, day)` (also `Date.UTC`): midnight of the
      day MakeDay computes from the truncated arguments, Invalid if any
      argument is not finite. */
  function NewDate(y: Number, m: Number, d: Number): (r: Date)
    ensures r.Time? <==> (y.Finite? && m.Finite? && d.Finite?)
    ensures r.Time? ==> TimeWithinDay(r.ms) == 0
  {
    var fy := MakeFullYear(y);
    if fy.Finite? && m.Finite? && d.Finite? then
      DayOfMidnight(MakeDay(ToInteger(fy.r), ToInteger(m.r), ToInteger(d.r)));
      Midnight(MakeDay(ToInteger(fy.r), ToInteger(m.r), ToInteger(d.r)))
    else Invalid
  }

  lemma ToIntegerOfInt(i: int)
    ensures ToInteger(i as real) == i
  {
  }

  /** On integer arguments, `new Date(y, m, d)` is MakeDay of the arguments
      after the 0..99 year mapping. */
  lemma NewDateInts(y: int, m: int, d: int)
    ensures NewDate(FromInt(y), FromInt(m), FromInt(d)) == Midnight(MakeDay(FullYearArg(y), m, d))
  {
    ToIntegerOfInt(y);
    ToIntegerOfInt(m);
    ToIntegerOfInt(d);
    ToIntegerOfInt(FullYearArg(y));
  }

  /** setDate(dt): same year, month and time of day, with the day of the
      month replaced by dt (which may lie outside the month). */
  function SetDate(d: Date, dt: Number): (r: Date)
    ensures r.Time? <==> d.Time? && dt.Finite?
  {
    if d.Invalid? || !dt.Finite? then Invalid
    else Time(MakeDay(FullYear(d.ms), Month(d.ms), ToInteger(dt.r)) * MsPerDay + TimeWithinDay(d.ms))
  }

  /** `d.setDate(d.getDate() + k)` moves the date k whole days: x is the
      new day of the month and t2 the time value k days later. */
  lemma SetDateShift(t: int, k: int, x: int, t2: int)
    requires x == DateOfMonth(t) + k && t2 == t + k * MsPerDay
    ensures SetDate(Time(t), FromInt(x)) == Time(t2)
  {
    ToIntegerOfInt(x);
    var n, r := Day(t), TimeWithinDay(t);
    var y, m, dd := YearFromDay(n), MonthFromDay(n), DateFromDay(n);
    MakeDayOfCivil(n);
    MakeDayMoved(y, m, dd, k, x);
    assert t == n * MsPerDay + r;
    assert (n + k) * MsPerDay + r == t2;
  }

  lemma MakeDayMoved(y: int, m: int, d: int, k: int, x: int)
    requires x == d + k
    ensures MakeDay(y, m, x) == MakeDay(y, m, d) + k
  {
  }

  /** `d.setDate(d.getDate() + k)`: k more days of the month. An Invalid
      Date has NaN for getDate(), and a non-finite k gives NaN too. */
  function SetDateAhead(d: Date, k: Number): (r: Date)
    ensures r.Time? <==> d.Time? && k.Finite?
  {
    if d.Invalid? then Invalid else SetDate(d, Add(FromInt(DateOfMonth(d.ms)), k))
  }

  /** A whole number of days k moves the time value by k days (t2). */
  lemma SetDateAheadWhole(t: int, k: int, t2: int)
    requires t2 == t + k * MsPerDay
    ensures SetDateAhead(Time(t), FromInt(k)) == Time(t2)
  {
    var x := DateOfMonth(t) + k;
    assert Add(FromInt(DateOfMonth(t)), FromInt(k)) == FromInt(x);
    SetDateShift(t, k, x, t2);
  }

  /** A non-negative k moves the date by its whole part, so never back. */
  lemma SetDateAheadFinite(t: int, r: real, t2: int)
    requires r >= 0.0 && t2 == t + r.Floor * MsPerDay
    ensures SetDateAhead(Time(t), Finite(r)) == Time(t2) && t2 >= t
  {
    DaysAheadNotBack(t, r.Floor, t2);
    var d := DateOfMonth(t);
    var x := d + r.Floor;
    forall sum | sum == Add(FromInt(DateOfMonth(t)), Finite(r))
      ensures SetDate(Time(t), sum) == Time(t2)
    {
      WholePartShift(d, r, sum.r, x);
      SetDateSameWhole(t, sum, FromInt(x));
      SetDateShift(t, r.Floor, x, t2);
    }
  }

  lemma DaysAheadNotBack(t: int, k: int, t2: int)
    requires k >= 0 && t2 == t + k * MsPerDay
    ensures t2 >= t
  {
  }

  lemma WholePartShift(d: int, r: real, q: real, x: int)
    requires d >= 1 && r >= 0.0 && q == d as real + r && x == d + r.Floor
    ensures ToInteger(q) == x && ToInteger(x as real) == x
  {
  }

  /** setDate only looks at the integer part of its argument. */
  lemma SetDateSameWhole(t: int, a: Number, b: Number)
    requires a.Finite? && b.Finite? && ToInteger(a.r) == ToInteger(b.r)
    ensures SetDate(Time(t), a) == SetDate(Time(t), b)
  {
  }

  /** setHours(0, 0, 0, 0). */
  function StartOfDay(d: Date): (r: Date)
    ensures r.Time? <==> d.Time?
    ensures d.Time? ==> r.ms <= d.ms < r.ms + MsPerDay && TimeWithinDay(r.ms) == 0
  {
    if d.Time? then Midnight(Day(d.ms)) else Invalid
  }

  /** setHours(23, 59, 59, 999). */
  function EndOfDay(d: Date): (r: Date)
    ensures r.Time? <==> d.Time?
    ensures d.Time? ==> d.ms <= r.ms && Day(r.ms) == Day(d.ms) && TimeWithinDay(r.ms) == MsPerDay - 1
  {
    if d.Time? then Time(Day(d.ms) * MsPerDay + MsPerDay - 1) else Invalid
  }

  /** `new Date(d.getTime() + ms)`. */
  function AddMs(d: Date, ms: int): (r: Date)
    ensures r.Time? <==> d.Time?
    ensures d.Time? ==> r.ms == d.ms + ms
  {
    if d.Time? then Time(d.ms + ms) else Invalid
  }

  /** The relational `a > b` on two Dates (compares time values; false if either is Invalid). */
  predicate After(a: Date, b: Date) {
    a.Time? && b.Time? && a.ms > b.ms
  }

  // ---------------------------------------------------------------------
  // Date.prototype.toISOString and toTimeString

  function Hours(t: int): (h: int)
    ensures 0 <= h < 24
  {
    TimeWithinDay(t) / MsPerHour
  }

  function Minutes(t: int): (m: int)
    ensures 0 <= m < 60
  {
    TimeWithinDay(t) / MsPerMinute % 60
  }

  function Seconds(t: int): (s: int)
    ensures 0 <= s < 60
  {
    TimeWithinDay(t) / MsPerSecond % 60
  }

  function Millis(t: int): (ms: int)
    ensures 0 <= ms < 1000
  {
    TimeWithinDay(t) % MsPerSecond
  }

  /** The year field of the ISO form: four digits for 0..9999, otherwise a
      sign and six digits (the expanded years of ECMA-262, section 21.4.1.32.1). */
  function YearText(y: int): (s: string)
    ensures |s| >= 4
  {
    if 0 <= y <= 9999 then FixedDigits(y, 4)
    else (if y < 0 then "-" else "+") + FixedDigits(if y < 0 then -y else y, 6)
  }

  /** A separator character followed by exactly w digits of n, then the rest. */
  function Field(sep: char, n: nat, w: nat, rest: string): string {
    [sep] + FixedDigits(n, w) + rest
  }

  /** YYYY-MM-DDTHH:mm:ss.sssZ from the fields of a date (month 1-based). */
  function IsoText(y: int, mo: nat, dd: nat, h: nat, mi: nat, sec: nat, ms: nat): (s: string)
    ensures |s| >= 24
  {
    YearText(y) +
    Field('-', mo, 2,
      Field('-', dd, 2,
        Field('T', h, 2,
          Field(':', mi, 2,
            Field(':', sec, 2,
              Field('.', ms, 3, "Z"))))))
  }

  /** toISOString of a valid Date: its UTC fields in the ISO form. */
  function IsoString(t: int): (s: string)
    ensures |s| >= 24
  {
    IsoText(FullYear(t), MonthNumber(t), DateOfMonth(t), Hours(t), Minutes(t), Seconds(t), Millis(t))
  }

  /** `toTimeString().slice(0, 5)`: the local time as HH:mm. */
  function TimeHHmm(t: int): (s: string)
    ensures |s| == 5 && s[2] == ':'
  {
    FixedDigits(Hours(t), 2) + ":" + FixedDigits(Minutes(t), 2)
  }

  // ---------------------------------------------------------------------
  // new Date(string)

  /** Reads `sep` followed by exactly w digits; the value and what follows. */
  function ReadField(s: string, sep: char, w: nat): Option<(int, string)> {
    if |s| >= w + 1 && s[0] == sep && AllDigits(s[1..w + 1]) then
      Some((DigitsValue(s[1..w + 1]), s[w + 1..]))
    else None
  }

  /** An optional field: absent (the default is used) unless s starts with sep. */
  function ReadOptionalField(s: string, sep: char, w: nat, default: int): Option<(int, string)> {
    if |s| > 0 && s[0] == sep then ReadField(s, sep, w) else Some((default, s))
  }

  /** The year of the Date Time String Format: four digits, or a sign and six
      digits ("-000000" is not allowed). */
  function ReadYear(s: string): Option<(int, string)> {
    if |s| >= 7 && (s[0] == '+' || s[0] == '-') && AllDigits(s[1..7]) then
      var v: int := DigitsValue(s[1..7]);
      if s[0] == '-' && v == 0 then None
      else Some((if s[0] == '-' then -v else v, s[7..]))
    else if |s| >= 4 && AllDigits(s[..4]) then Some((DigitsValue(s[..4]), s[4..]))
    else None
  }

  /** The time-zone suffix: none (local time, here UTC), "Z", or ±HH:mm.
      The result is the offset in milliseconds to subtract. */
  function ReadZone(s: string): Option<int> {
    if s == "" || s == "Z" then Some(0)
    else if |s| == 6 && (s[0] == '+' || s[0] == '-') && AllDigits(s[1..3]) && s[3] == ':' && AllDigits(s[4..6]) then
      var h, m := DigitsValue(s[1..3]), DigitsValue(s[4..6]);
      if h > 23 || m > 59 then None
      else Some((if s[0] == '-' then -1 else 1) * (h * MsPerHour + m * MsPerMinute))
    else None
  }

  /** The time part "THH:mm[:ss[.sss]]" and zone, or nothing at all (a
      date-only form, read as UTC). The result is (time within the day, offset). */
  function ReadTime(s: string): Option<(int, int)> {
    if s == "" then Some((0, 0))
    else
      match ReadField(s, 'T', 2)
      case None => None
      case Some((h, r1)) =>
        match ReadField(r1, ':', 2)
        case None => None
        case Some((mi, r2)) =>
          match ReadOptionalField(r2, ':', 2, 0)
          case None => None
          case Some((sec, r3)) =>
            match (if |r2| > 0 && r2[0] == ':' then ReadOptionalField(r3, '.', 3, 0) else Some((0, r3)))
            case None => None
            case Some((ms, r4)) =>
              match ReadZone(r4)
              case None => None
              case Some(off) =>
                if mi > 59 || sec > 59 || h > 24 || (h == 24 && (mi > 0 || sec > 0 || ms > 0)) then None
                else Some((h * MsPerHour + mi * MsPerMinute + sec * MsPerSecond + ms, off))
  }

  /** The optional "-MM" and "-DD" of the date part; the day needs the month. */
  function ReadMonthDay(s: string): Option<(int, int, string)> {
    match ReadOptionalField(s, '-', 2, 1)
    case None => None
    case Some((mo, r1)) =>
      match (if |s| > 0 && s[0] == '-' then ReadOptionalField(r1, '-', 2, 1) else Some((1, r1)))
      case None => None
      case Some((dd, r2)) => Some((mo, dd, r2))
  }

  /** `new Date(text)` for the Date Time String Format of ECMA-262, section
      21.4.1.32: YYYY[-MM[-DD]][THH:mm[:ss[.sss]]][Z|±HH:mm]; out-of-range
      fields and every other text give an Invalid Date. */
  function ParseTimestamp(s: string): (d: Date) {
    match ReadYear(s)
    case None => Invalid
    case Some((y, r0)) =>
      match ReadMonthDay(r0)
      case None => Invalid
      case Some((mo, dd, r1)) =>
        match ReadTime(r1)
        case None => Invalid
        case Some((tod, off)) =>
          if mo < 1 || mo > 12 || dd < 1 || dd > DaysInMonth(y, mo - 1) then Invalid
          else Time(MakeDay(y, mo - 1, dd) * MsPerDay + tod - off)
  }

  lemma ReadFieldOf(sep: char, n: nat, w: nat, rest: string)
    requires n < Pow10(w)
    ensures ReadField(Field(sep, n, w, rest), sep, w) == Some((n, rest))
  {
    var s := Field(sep, n, w, rest);
    assert s[1..w + 1] == FixedDigits(n, w);
    assert s[w + 1..] == rest;
    FixedDigitsValue(n, w);
  }

  lemma ReadYearOf(y: int, rest: string)
    requires -999999 <= y <= 999999
    ensures ReadYear(YearText(y) + rest) == Some((y, rest))
  {
    var s := YearText(y) + rest;
    if 0 <= y <= 9999 {
      assert Pow10(4) == 10000;
      FixedDigitsValue(y, 4);
      assert s[..4] == FixedDigits(y, 4) && s[4..] == rest;
      assert IsDigit(s[0]);
    } else {
      var a := if y < 0 then -y else y;
      assert Pow10(6) == 1000000;
      FixedDigitsValue(a, 6);
      assert s[1..7] == FixedDigits(a, 6) && s[7..] == rest;
    }
  }

  lemma TimeFields(t: int)
    ensures TimeWithinDay(t) == Hours(t) * MsPerHour + Minutes(t) * MsPerMinute + Seconds(t) * MsPerSecond + Millis(t)
  {
    var w := TimeWithinDay(t);
    var q := w / MsPerSecond;
    assert w == q * 1000 + Millis(t);
    var q2 := q / 60;
    assert q == q2 * 60 + Seconds(t);
    assert w / MsPerMinute == q2 by {
      assert w == q2 * 60000 + (Seconds(t) * 1000 + Millis(t));
    }
    var q3 := q2 / 60;
    assert q2 == q3 * 60 + Minutes(t);
    assert w / MsPerHour == q3 by {
      assert w == q3 * 3600000 + (Minutes(t) * 60000 + Seconds(t) * 1000 + Millis(t));
    }
  }

  lemma ReadMonthDayOf(mo: nat, dd: nat, rest: string)
    requires mo < 100 && dd < 100
    ensures ReadMonthDay(Field('-', mo, 2, Field('-', dd, 2, rest))) == Some((mo, dd, rest))
  {
    assert Pow10(2) == 100;
    ReadFieldOf('-', mo, 2, Field('-', dd, 2, rest));
    ReadFieldOf('-', dd, 2, rest);
  }

  lemma ReadTimeOf(h: nat, mi: nat, sec: nat, ms: nat)
    requires h < 24 && mi < 60 && sec < 60 && ms < 1000
    ensures ReadTime(Field('T', h, 2, Field(':', mi, 2, Field(':', sec, 2, Field('.', ms, 3, "Z")))))
         == Some((h * MsPerHour + mi * MsPerMinute + sec * MsPerSecond + ms, 0))
  {
    assert Pow10(2) == 100 && Pow10(3) == 1000;
    var r4 := Field('.', ms, 3, "Z");
    var r3 := Field(':', sec, 2, r4);
    var r2 := Field(':', mi, 2, r3);
    ReadFieldOf('T', h, 2, r2);
    ReadFieldOf(':', mi, 2, r3);
    ReadFieldOf(':', sec, 2, r4);
    ReadFieldOf('.', ms, 3, "Z");
  }

  lemma ReadTimeOfHHmm(h: nat, mi: nat)
    requires h < 24 && mi < 60
    ensures ReadTime(Field('T', h, 2, Field(':', mi, 2, ""))) == Some((h * MsPerHour + mi * MsPerMinute, 0))
  {
    assert Pow10(2) == 100;
    ReadFieldOf('T', h, 2, Field(':', mi, 2, ""));
    ReadFieldOf(':', mi, 2, "");
  }

  /** Reading back the fields of the ISO form gives the time value t that
      MakeDay and the time of day describe. */
  lemma ParseIsoFields(s: string, t: int, y: int, mo: nat, dd: nat, h: nat, mi: nat, sec: nat, ms: nat)
    requires -999999 <= y <= 999999 && 1 <= mo <= 12 && 1 <= dd <= DaysInMonth(y, mo - 1)
    requires h < 24 && mi < 60 && sec < 60 && ms < 1000
    requires s == IsoText(y, mo, dd, h, mi, sec, ms)
    requires t == MakeDay(y, mo - 1, dd) * MsPerDay + (h * MsPerHour + mi * MsPerMinute + sec * MsPerSecond + ms)
    ensures ParseTimestamp(s) == Time(t)
  {
    var rt := Field('T', h, 2, Field(':', mi, 2, Field(':', sec, 2, Field('.', ms, 3, "Z"))));
    var r0 := Field('-', mo, 2, Field('-', dd, 2, rt));
    ReadYearOf(y, r0);
    ReadMonthDayOf(mo, dd, rt);
    ReadTimeOf(h, mi, sec, ms);
    ParseTimestampOf(s, y, r0, mo, dd, rt, (h * MsPerHour + mi * MsPerMinute + sec * MsPerSecond + ms, 0));
  }

  /** Reading back the ISO form of a time value gives the same time value,
      for every year the six-digit expanded form can hold. */
  lemma ParseIsoString(t: int)
    requires -999999 <= FullYear(t) <= 999999
    ensures ParseTimestamp(IsoString(t)) == Time(t)
  {
    DateOfMonthInMonth(t);
    TimeFields(t);
    MakeDayOfFields(t);
    ParseIsoFields(IsoString(t), t, FullYear(t), MonthNumber(t), DateOfMonth(t), Hours(t), Minutes(t), Seconds(t), Millis(t));
  }

  lemma DateOfMonthInMonth(t: int)
    ensures DateOfMonth(t) <= DaysInMonth(FullYear(t), MonthNumber(t) - 1)
  {
  }

  /** The date fields of a time value give back its day number. */
  lemma MakeDayOfFields(t: int)
    ensures MakeDay(FullYear(t), MonthNumber(t) - 1, DateOfMonth(t)) == Day(t)
  {
    MakeDayOfCivil(Day(t));
  }

  /** ParseTimestamp once its three parts have been read. */
  lemma ParseTimestampOf(s: string, y: int, r0: string, mo: int, dd: int, r1: string, tt: (int, int))
    requires ReadYear(s) == Some((y, r0)) && ReadMonthDay(r0) == Some((mo, dd, r1)) && ReadTime(r1) == Some(tt)
    requires 1 <= mo <= 12 && 1 <= dd <= DaysInMonth(y, mo - 1)
    ensures ParseTimestamp(s) == Time(MakeDay(y, mo - 1, dd) * MsPerDay + tt.0 - tt.1)
  {
  }

  /** The time value of "YYYY-MM-DDTHH:mm" is the date's midnight plus the time of day. */
  lemma ParseDateAndTime(y: int, mo: nat, dd: nat, h: nat, mi: nat)
    requires 0 <= y <= 9999 && 1 <= mo <= 12 && 1 <= dd <= DaysInMonth(y, mo - 1) && h < 24 && mi < 60
    ensures ParseTimestamp(YearText(y) + Field('-', mo, 2, Field('-', dd, 2, Field('T', h, 2, Field(':', mi, 2, "")))))
         == Time(MakeDay(y, mo - 1, dd) * MsPerDay + h * MsPerHour + mi * MsPerMinute)
  {
    var rt := Field('T', h, 2, Field(':', mi, 2, ""));
    var r0 := Field('-', mo, 2, Field('-', dd, 2, rt));
    ReadYearOf(y, r0);
    ReadMonthDayOf(mo, dd, rt);
    ReadTimeOfHHmm(h, mi);
    ParseTimestampOf(YearText(y) + r0, y, r0, mo, dd, rt, (h * MsPerHour + mi * MsPerMinute, 0));
  }
}
