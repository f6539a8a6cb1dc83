/** The quarter calendar engine (src/lib/quarter.ts): quarter arithmetic,
    the YYYY-MM-DD parse/format pair, Monday-start weeks numbered by
    ISO 8601:2004 section 3.2.2, and the grouping of a quarter's weeks into
    its three months. */
module Quarter {
  import opened Wrappers
  import opened Calendar
  import opened JsString
  import opened JsNumber
  import opened JsDate

  datatype QuarterKey = QuarterKey(year: int, quarter: int)

  /** A Monday-to-Sunday week: start and end are midnights six days apart. */
  datatype WeekInfo = WeekInfo(start: Date, end: Date, isoWeek: int, month: int)

  datatype MonthInfo = MonthInfo(month: int, weeks: seq<WeekInfo>)

  datatype QuarterStructure = QuarterStructure(
    year: int, quarter: int, labelText: string, months: seq<MonthInfo>, weeks: seq<WeekInfo>)

  // ---------------------------------------------------------------------
  // Quarter arithmetic

  /** The quarter (1..4) of a valid date's month, with the date's own year. */
  function GetQuarterFromDate(t: int): (k: QuarterKey)
    ensures k.year == FullYear(t)
    ensures 1 <= k.quarter <= 4
    ensures 3 * (k.quarter - 1) <= Month(t) < 3 * k.quarter
  {
    QuarterKey(FullYear(t), Month(t) / 3 + 1)
  }

  /** JavaScript's `%`: the remainder takes the sign of the dividend. */
  function JsRem(a: int, b: int): (r: int)
    requires b > 0
    ensures a >= 0 ==> r == a % b
    ensures a < 0 ==> -b < r <= 0
  {
    if a >= 0 then a % b else -((-a) % b)
  }

  /** Shift by delta quarters through the running total year*4 + (quarter-1):
      the year is its floor quotient by 4, the quarter its truncated remainder plus one. */
  function ShiftQuarter(k: QuarterKey, delta: int): QuarterKey {
    var total := k.year * 4 + (k.quarter - 1) + delta;
    QuarterKey(total / 4, JsRem(total, 4) + 1)
  }

  predicate ValidQuarter(k: QuarterKey) {
    1 <= k.quarter <= 4
  }

  function Total(k: QuarterKey): int {
    k.year * 4 + (k.quarter - 1)
  }

  /** For a non-negative running total, shifting lands on a valid quarter
      whose total is the old total plus delta. */
  lemma ShiftQuarterTotal(k: QuarterKey, delta: int)
    requires Total(k) + delta >= 0
    ensures ValidQuarter(ShiftQuarter(k, delta))
    ensures Total(ShiftQuarter(k, delta)) == Total(k) + delta
  {
    var total := Total(k) + delta;
    assert total == 4 * (total / 4) + total % 4;
  }

  /** Shifting by zero is the identity on valid quarters with a non-negative total. */
  lemma ShiftQuarterZero(k: QuarterKey)
    requires ValidQuarter(k) && Total(k) >= 0
    ensures ShiftQuarter(k, 0) == k
  {
    var total := Total(k);
    assert total / 4 == k.year && total % 4 == k.quarter - 1 by {
      assert total == 4 * k.year + (k.quarter - 1);
    }
  }

  /** Shifting forward then back by the same amount returns the starting quarter. */
  lemma ShiftQuarterRoundTrip(k: QuarterKey, delta: int)
    requires ValidQuarter(k) && Total(k) >= 0 && Total(k) + delta >= 0
    ensures ValidQuarter(ShiftQuarter(k, delta))
    ensures ShiftQuarter(ShiftQuarter(k, delta), -delta) == k
  {
    ShiftQuarterTotal(k, delta);
    var k2 := ShiftQuarter(k, delta);
    ShiftQuarterTotal(k2, -delta);
    var k3 := ShiftQuarter(k2, -delta);
    assert Total(k3) == Total(k);
    assert k3.year == k.year by {
      assert 4 * k3.year + (k3.quarter - 1) == 4 * k.year + (k.quarter - 1);
    }
  }

  /** Q4 2025 + 1 = Q1 2026. */
  lemma ShiftQuarterAcrossYearEnd()
    ensures ShiftQuarter(QuarterKey(2025, 4), 1) == QuarterKey(2026, 1)
  {
  }

  /** Q1 of year y, minus one, is Q4 of year y - 1. */
  lemma ShiftQuarterBackFromFirst(y: int)
    requires y >= 1
    ensures ShiftQuarter(QuarterKey(y, 1), -1) == QuarterKey(y - 1, 4)
  {
    var total := 4 * y - 1;
    assert total == 4 * (y - 1) + 3;
  }

  /** With a negative running total the truncating `%` yields a quarter <= 0:
      Q2 of year -1 shifted by zero becomes "quarter -2". */
  lemma ShiftQuarterNegativeTotal()
    ensures ShiftQuarter(QuarterKey(-1, 2), 0) == QuarterKey(-1, -2)
    ensures !ValidQuarter(ShiftQuarter(QuarterKey(-1, 2), 0))
  {
  }

  // ---------------------------------------------------------------------
  // YYYY-MM-DD parse and format

  /** addDays: the time value moved by whole days (Invalid stays Invalid). */
  function AddDays(d: Date, days: int): (r: Date)
    ensures r.Time? <==> d.Time?
    ensures d.Time? ==> r.ms == d.ms + days * MsPerDay
  {
    AddMs(d, days * MsPerDay)
  }

  /** The `n`-th piece of a split, read with Number(); a missing piece is undefined. */
  function Piece(parts: seq<string>, i: nat): Value {
    if i < |parts| then Num(StringToNumber(parts[i])) else Undefined
  }

  /** `(v ?? 1)`: only a missing piece defaults to 1; a NaN piece stays NaN. */
  function PieceOrOne(v: Value): Number {
    if IsNullish(v) then Finite(1.0) else ToNumber(v)
  }

  /** parseISODate: split on '-', read each piece with Number(), and build
      `new Date(year, (month ?? 1) - 1, day ?? 1)`. */
  function ParseISODate(s: string): (d: Date) {
    var parts := Split(s, '-');
    NewDate(ToNumber(Piece(parts, 0)), Add(PieceOrOne(Piece(parts, 1)), Finite(-1.0)), PieceOrOne(Piece(parts, 2)))
  }

  /** The decimal text of a Number as `${n}` writes it, for the numbers a
      date getter returns: an integer, or NaN. */
  function TwoDigits(n: int): (s: string)
    requires n >= 0
  {
    PadStart(NatToString(n), 2, '0')
  }

  /** formatISODate: `${year}-${MM}-${DD}` with month and day padded to two
      digits and the year unpadded; an Invalid Date gives "NaN-NaN-NaN". */
  function FormatISODate(d: Date): (s: string)
    ensures d.Invalid? ==> s == "NaN-NaN-NaN"
  {
    match d
    case Invalid => "NaN-NaN-NaN"
    case Time(t) => IntToString(FullYear(t)) + "-" + TwoDigits(Month(t) + 1) + "-" + TwoDigits(DateOfMonth(t))
  }

  /** Month and day are always written with exactly two digits. */
  lemma FormatISODatePadded(t: int)
    ensures FormatISODate(Time(t)) == IntToString(FullYear(t)) + "-" + FixedDigits(Month(t) + 1, 2) + "-" + FixedDigits(DateOfMonth(t), 2)
  {
    PadTwoValue(Month(t) + 1);
    PadTwoValue(DateOfMonth(t));
  }

  /** `formatISODate(parseISODate(s))`, the canonical form every stored date takes. */
  function CanonicalDate(s: string): (r: string) {
    FormatISODate(ParseISODate(s))
  }

  lemma SplitDate(y: string, m: string, d: string)
    requires '-' !in y && '-' !in m && '-' !in d
    ensures Split(y + "-" + m + "-" + d, '-') == [y, m, d]
  {
    assert y + "-" + m + "-" + d == y + ['-'] + (m + ['-'] + d);
    SplitAppend(y, '-', m + ['-'] + d);
    SplitAppend(m, '-', d);
    SplitNoSeparator(d, '-');
  }

  lemma SplitDigitPieces(y: string, m: string, d: string)
    requires AllDigits(y) && AllDigits(m) && AllDigits(d)
    ensures Split(y + "-" + m + "-" + d, '-') == [y, m, d]
  {
    SplitDate(y, m, d);
  }

  lemma NewDateOfPieces(a: Number, b: Number, c: Number, y: int, m: int, d: int)
    requires a == FromInt(y) && b == FromInt(m) && c == FromInt(d)
    ensures NewDate(a, Add(b, Finite(-1.0)), c) == Midnight(MakeDay(FullYearArg(y), m - 1, d))
  {
    assert Add(b, Finite(-1.0)) == FromInt(m - 1);
    NewDateInts(y, m - 1, d);
  }

  /** A present piece is its text read with Number(). */
  lemma PieceNumber(parts: seq<string>, i: nat, v: Number)
    requires i < |parts| && StringToNumber(parts[i]) == v
    ensures Piece(parts, i) == Num(v)
  {
  }

  /** The Number() readings of three pieces. */
  lemma PieceNumbers(parts: seq<string>, y: int, m: int, d: int)
    requires |parts| == 3
    requires StringToNumber(parts[0]) == FromInt(y) && StringToNumber(parts[1]) == FromInt(m) && StringToNumber(parts[2]) == FromInt(d)
    ensures ToNumber(Piece(parts, 0)) == FromInt(y)
    ensures PieceOrOne(Piece(parts, 1)) == FromInt(m)
    ensures PieceOrOne(Piece(parts, 2)) == FromInt(d)
  {
    PieceNumber(parts, 0, FromInt(y));
    PieceNumber(parts, 1, FromInt(m));
    PieceNumber(parts, 2, FromInt(d));
  }

  lemma PieceNumbersTwo(parts: seq<string>, y: int, m: int)
    requires |parts| == 2
    requires StringToNumber(parts[0]) == FromInt(y) && StringToNumber(parts[1]) == FromInt(m)
    ensures ToNumber(Piece(parts, 0)) == FromInt(y)
    ensures PieceOrOne(Piece(parts, 1)) == FromInt(m)
    ensures PieceOrOne(Piece(parts, 2)) == FromInt(1)
  {
    PieceNumber(parts, 0, FromInt(y));
    PieceNumber(parts, 1, FromInt(m));
  }

  /** Three integer pieces are read as `new Date(year, month - 1, day)`. */
  lemma ParseThreePieces(s: string, ys: string, ms: string, ds: string, y: int, m: int, d: int)
    requires Split(s, '-') == [ys, ms, ds]
    requires StringToNumber(ys) == FromInt(y) && StringToNumber(ms) == FromInt(m) && StringToNumber(ds) == FromInt(d)
    ensures ParseISODate(s) == Midnight(MakeDay(FullYearArg(y), m - 1, d))
  {
    var parts := Split(s, '-');
    PieceNumbers(parts, y, m, d);
    NewDateOfPieces(ToNumber(Piece(parts, 0)), PieceOrOne(Piece(parts, 1)), PieceOrOne(Piece(parts, 2)), y, m, d);
  }

  /** Two integer pieces are read as `new Date(year, month - 1, 1)`. */
  lemma ParseTwoPieces(s: string, ys: string, ms: string, y: int, m: int)
    requires Split(s, '-') == [ys, ms]
    requires StringToNumber(ys) == FromInt(y) && StringToNumber(ms) == FromInt(m)
    ensures ParseISODate(s) == Midnight(MakeDay(FullYearArg(y), m - 1, 1))
  {
    var parts := Split(s, '-');
    PieceNumbersTwo(parts, y, m);
    NewDateOfPieces(ToNumber(Piece(parts, 0)), PieceOrOne(Piece(parts, 1)), PieceOrOne(Piece(parts, 2)), y, m, 1);
  }

  lemma SplitDigitPiecesTwo(y: string, m: string)
    requires AllDigits(y) && AllDigits(m)
    ensures Split(y + "-" + m, '-') == [y, m]
  {
    SplitAppend(y, '-', m);
    SplitNoSeparator(m, '-');
  }

  /** Parsing "Y-MM-DD" with a decimal year Y and month/day digit strings
      that Number() reads as mv and dv is `new Date(Y, mv - 1, dv)`. */
  lemma ParseDigits(y: nat, m: string, d: string, mv: int, dv: int)
    requires AllDigits(m) && AllDigits(d)
    requires StringToNumber(m) == FromInt(mv) && StringToNumber(d) == FromInt(dv)
    ensures ParseISODate(NatToString(y) + "-" + m + "-" + d) == Midnight(MakeDay(FullYearArg(y), mv - 1, dv))
  {
    SplitDigitPieces(NatToString(y), m, d);
    NatToStringNumber(y);
    ParseThreePieces(NatToString(y) + "-" + m + "-" + d, NatToString(y), m, d, y, mv, dv);
  }

  /** Number() reads a fixed-width digit field back as its value. */
  lemma FixedDigitsNumber(n: nat, w: nat)
    requires w >= 1 && n < Pow10(w)
    ensures StringToNumber(FixedDigits(n, w)) == FromInt(n)
  {
    FixedDigitsValue(n, w);
    DigitsNumber(FixedDigits(n, w));
  }

  /** The month and day fields of a formatted date read back as numbers. */
  lemma FormatFieldsNumbers(t: int)
    ensures StringToNumber(FixedDigits(Month(t) + 1, 2)) == FromInt(Month(t) + 1)
    ensures StringToNumber(FixedDigits(DateOfMonth(t), 2)) == FromInt(DateOfMonth(t))
  {
    assert Pow10(2) == 100;
    FixedDigitsNumber(Month(t) + 1, 2);
    FixedDigitsNumber(DateOfMonth(t), 2);
  }

  /** Formatting and parsing a date with a non-negative year gives
      `new Date(year, month, date)` of its fields. */
  lemma ParseFormatFields(t: int)
    requires FullYear(t) >= 0
    ensures ParseISODate(FormatISODate(Time(t))) == Midnight(MakeDay(FullYearArg(FullYear(t)), Month(t), DateOfMonth(t)))
  {
    FormatISODatePadded(t);
    FormatFieldsNumbers(t);
    ParseDigits(FullYear(t), FixedDigits(Month(t) + 1, 2), FixedDigits(DateOfMonth(t), 2), Month(t) + 1, DateOfMonth(t));
  }

  /** Reading back a formatted date gives midnight of the same day, for
      every year from 100 on. */
  lemma ParseFormatRoundTrip(t: int)
    requires FullYear(t) >= 100
    ensures ParseISODate(FormatISODate(Time(t))) == StartOfDay(Time(t))
  {
    ParseFormatFields(t);
    MakeDayOfCivil(Day(t));
  }

  /** Two valid dates in order stay in order once formatted and read back. */
  lemma ReadBackOrdered(a: int, b: int)
    requires a <= b && FullYear(a) >= 100 && FullYear(b) >= 100
    ensures !After(ParseISODate(FormatISODate(Time(a))), ParseISODate(FormatISODate(Time(b))))
  {
    ParseFormatRoundTrip(a);
    ParseFormatRoundTrip(b);
    MidnightOrder(Day(a), Day(b));
  }

  /** A formatted date is never empty text. */
  lemma FormattedNonEmpty(d: Date)
    ensures FormatISODate(d) != ""
  {
    if d.Time? {
      var t := d.ms;
      var y, m, dd := IntToString(FullYear(t)), TwoDigits(Month(t) + 1), TwoDigits(DateOfMonth(t));
      assert FormatISODate(d) == y + "-" + m + "-" + dd;
      assert |y + "-" + m + "-" + dd| >= 1;
    }
  }

  /** Years 0..99 do not survive: their text is read as 1900..1999. */
  lemma ParseFormatTwoDigitYear(t: int)
    requires 0 <= FullYear(t) <= 99
    ensures ParseISODate(FormatISODate(Time(t))) == Midnight(MakeDay(1900 + FullYear(t), Month(t), DateOfMonth(t)))
  {
    ParseFormatFields(t);
  }

  /** A missing month and day default to January 1st. */
  lemma ParseYearOnly(y: nat)
    ensures ParseISODate(NatToString(y)) == Midnight(MakeDay(FullYearArg(y), 0, 1))
  {
    SplitNoSeparator(NatToString(y), '-');
    NatToStringNumber(y);
    NewDateInts(y, 0, 1);
  }

  /** A missing day defaults to the 1st. */
  lemma ParseYearMonth(y: nat, m: string, mv: int)
    requires AllDigits(m) && StringToNumber(m) == FromInt(mv)
    ensures ParseISODate(NatToString(y) + "-" + m) == Midnight(MakeDay(FullYearArg(y), mv - 1, 1))
  {
    SplitDigitPiecesTwo(NatToString(y), m);
    NatToStringNumber(y);
    ParseTwoPieces(NatToString(y) + "-" + m, NatToString(y), m, y, mv);
  }

  /** Text with a non-numeric piece is an Invalid Date, which formats as "NaN-NaN-NaN". */
  lemma CanonicalOfNonDate()
    ensures ParseISODate("soon") == Invalid
    ensures CanonicalDate("soon") == "NaN-NaN-NaN"
  {
    SplitNoSeparator("soon", '-');
    NonNumericText("soon");
  }

  /** "NaN-NaN-NaN", the text of an Invalid Date, parses back to an Invalid Date. */
  lemma CanonicalOfNaN()
    ensures ParseISODate("NaN-NaN-NaN") == Invalid
  {
    ParseNaNText("NaN-NaN-NaN", "NaN");
  }

  lemma ParseNaNText(s: string, p: string)
    requires p == "NaN" && s == p + "-" + p + "-" + p
    ensures ParseISODate(s) == Invalid
  {
    SplitDate(p, p, p);
    NonNumericText(p);
    PieceNumber(Split(s, '-'), 0, NaN);
  }

  /** A formatted date depends only on the day, not on the time of day. */
  lemma FormatStartOfDay(t: int)
    ensures FormatISODate(StartOfDay(Time(t))) == FormatISODate(Time(t))
  {
    DayOfMidnight(Day(t));
  }

  /** A canonical date text with a year from 100 on is its own canonical form. */
  lemma CanonicalOfFormatted(t: int)
    requires FullYear(t) >= 100
    ensures CanonicalDate(FormatISODate(Time(t))) == FormatISODate(Time(t))
  {
    ParseFormatRoundTrip(t);
    FormatStartOfDay(t);
  }

  /** Canonicalising twice changes nothing once the canonical year is 100 or later. */
  lemma CanonicalDateIdempotent(s: string)
    requires ParseISODate(s).Time? ==> FullYear(ParseISODate(s).ms) >= 100
    ensures CanonicalDate(CanonicalDate(s)) == CanonicalDate(s)
  {
    CanonicalOfFormattedDate(ParseISODate(s));
  }

  /** The text formatISODate writes for any Date from the year 100 on, or for
      an Invalid Date, is already canonical. */
  lemma CanonicalOfFormattedDate(d: Date)
    requires d.Time? ==> FullYear(d.ms) >= 100
    ensures CanonicalDate(FormatISODate(d)) == FormatISODate(d)
  {
    if d.Invalid? {
      CanonicalOfNaN();
    } else {
      CanonicalOfFormatted(d.ms);
    }
  }

  // ---------------------------------------------------------------------
  // Weeks

  /** Midnight of the Monday on or before a date (Invalid stays Invalid). */
  function MondayOnOrBefore(d: Date): (r: Date)
    ensures r.Time? <==> d.Time?
    ensures d.Time? ==> TimeWithinDay(r.ms) == 0 && WeekDay(Day(r.ms)) == 1
    ensures d.Time? ==> r.ms <= d.ms < r.ms + 7 * MsPerDay
  {
    if d.Invalid? then Invalid
    else
      var n := Day(d.ms);
      var m := n - (WeekDay(n) + 6) % 7;
      DayOfMidnight(m);
      Midnight(m)
  }

  /** startOfWeek: step back (getDay() + 6) % 7 days with setDate, then
      setHours(0, 0, 0, 0). */
  method StartOfWeek(date: Date) returns (result: Date)
    ensures result == MondayOnOrBefore(date)
  {
    result := date;
    if result.Time? {
      var day := WeekDayOf(result.ms);
      var diff := (day + 6) % 7;
      WeekStartStep(result.ms);
      result := SetDate(result, FromInt(DateOfMonth(result.ms) - diff));
    }
    result := StartOfDay(result);
  }

  /** Stepping back (weekday + 6) % 7 days and taking the start of that day
      lands on the Monday on or before the date. */
  lemma WeekStartStep(t: int)
    ensures StartOfDay(SetDate(Time(t), FromInt(DateOfMonth(t) - (WeekDayOf(t) + 6) % 7))) == MondayOnOrBefore(Time(t))
  {
    var n, r := Day(t), TimeWithinDay(t);
    var diff := (WeekDay(n) + 6) % 7;
    var m := n - diff;
    forall x | x == DateOfMonth(t) - (WeekDayOf(t) + 6) % 7
      ensures SetDate(Time(t), FromInt(x)) == Time(m * MsPerDay + r)
    {
      SetDateBack(t, diff, x, m, r);
    }
    StartOfDayAt(m, r);
  }

  /** Moving a date back diff days keeps its time of day. */
  lemma SetDateBack(t: int, diff: int, x: int, m: int, r: int)
    requires x == DateOfMonth(t) - diff && m == Day(t) - diff && r == TimeWithinDay(t)
    ensures SetDate(Time(t), FromInt(x)) == Time(m * MsPerDay + r)
  {
    assert t + -diff * MsPerDay == m * MsPerDay + r;
    SetDateShift(t, -diff, x, m * MsPerDay + r);
  }

  /** setHours(0, 0, 0, 0) of a time on day m is the midnight of m. */
  lemma StartOfDayAt(m: int, r: int)
    requires 0 <= r < MsPerDay
    ensures StartOfDay(Time(m * MsPerDay + r)) == Midnight(m)
  {
    DayOfTime(m, r);
  }


  /** `a.getTime() >= b.getTime()`: false when either is Invalid. */
  predicate NotBefore(a: Date, b: Date) {
    a.Time? && b.Time? && a.ms >= b.ms
  }

  /** weekOverlapsRange: the week ends no earlier than the range starts, and
      starts no later than the range ends (both bounds inclusive). */
  predicate WeekOverlapsRange(week: WeekInfo, start: Date, end: Date) {
    NotBefore(week.end, start) && NotBefore(end, week.start)
  }

  /** The time value x lies between two valid dates, both inclusive. */
  predicate Within(x: int, lo: Date, hi: Date) {
    lo.Time? && hi.Time? && lo.ms <= x <= hi.ms
  }

  /** For well-formed intervals the test is exactly a non-empty intersection. */
  lemma WeekOverlapsIsIntersection(week: WeekInfo, start: Date, end: Date)
    requires week.start.Time? && week.end.Time? && start.Time? && end.Time?
    requires week.start.ms <= week.end.ms && start.ms <= end.ms
    ensures WeekOverlapsRange(week, start, end) <==>
      exists x :: Within(x, week.start, week.end) && Within(x, start, end)
  {
    if WeekOverlapsRange(week, start, end) {
      var x := if week.start.ms >= start.ms then week.start.ms else start.ms;
      assert Within(x, week.start, week.end) && Within(x, start, end);
    }
  }

  /** The week's own bounds overlap it; a range ending before the week starts
      or starting after it ends does not; an Invalid bound never overlaps. */
  lemma WeekOverlapsCases(week: WeekInfo, start: Date, end: Date)
    ensures week.start.Time? && week.end.Time? && week.start.ms <= week.end.ms ==>
      WeekOverlapsRange(week, week.start, week.end)
    ensures end.Time? && week.start.Time? && end.ms < week.start.ms ==> !WeekOverlapsRange(week, start, end)
    ensures start.Time? && week.end.Time? && start.ms > week.end.ms ==> !WeekOverlapsRange(week, start, end)
    ensures start.Invalid? || end.Invalid? ==> !WeekOverlapsRange(week, start, end)
  {
  }

  // ---------------------------------------------------------------------
  // Majority month

  /** Per-month day counts as (month, count) pairs in the insertion order of
      a JavaScript Map. */
  type Counts = seq<(int, int)>

  /** `counts.get(key) ?? 0`. */
  function CountOf(counts: Counts, key: int): int {
    if counts == [] then 0 else if counts[0].0 == key then counts[0].1 else CountOf(counts[1..], key)
  }

  /** `counts.set(key, value)`: an existing key keeps its place, a new key goes last. */
  function SetCount(counts: Counts, key: int, value: int): Counts {
    if counts == [] then [(key, value)]
    else if counts[0].0 == key then [(key, value)] + counts[1..]
    else [counts[0]] + SetCount(counts[1..], key, value)
  }

  /** Reading a key back after a set gives the new value; other keys are untouched. */
  lemma {:induction false} CountOfSetCount(counts: Counts, key: int, value: int, other: int)
    ensures CountOf(SetCount(counts, key, value), other) == if other == key then value else CountOf(counts, other)
  {
    if counts != [] && counts[0].0 != key {
      CountOfSetCount(counts[1..], key, value, other);
    }
  }

  /** f(n), f(n + 1), ..., f(n + i - 1). */
  function DayValues(n: int, i: nat, f: int -> int): (vs: seq<int>)
    ensures |vs| == i
  {
    if i == 0 then [] else DayValues(n, i - 1, f) + [f(n + i - 1)]
  }

  /** Entry k is the value of day n + k. */
  lemma {:induction false} DayValuesAt(n: int, i: nat, k: nat, f: int -> int)
    requires k < i
    ensures DayValues(n, i, f)[k] == f(n + k)
  {
    if k < i - 1 {
      DayValuesAt(n, i - 1, k, f);
    }
  }

  /** The months of the days n, n + 1, ..., n + i - 1. */
  function WeekMonths(n: int, i: nat): (ms: seq<int>)
    ensures |ms| == i
  {
    DayValues(n, i, MonthFromDay)
  }

  /** How many of the days n .. n + i - 1 fall in the given month. */
  function DaysIn(n: int, i: nat, month: int): nat {
    multiset(WeekMonths(n, i))[month]
  }

  /** The counts the counting loop builds from the months it reads, one day
      at a time: each month read adds one to its entry. */
  function Tally(ms: seq<int>): Counts {
    if ms == [] then []
    else
      var c := Tally(ms[..|ms| - 1]);
      var month := ms[|ms| - 1];
      SetCount(c, month, CountOf(c, month) + 1)
  }

  /** Reading one more month updates that month's entry. */
  lemma TallyAppend(ms: seq<int>, month: int)
    ensures Tally(ms + [month]) == SetCount(Tally(ms), month, CountOf(Tally(ms), month) + 1)
  {
    assert (ms + [month])[..|ms|] == ms;
  }

  /** The counting loop counts right: every month's entry is the number of
      times the month was read (0 for a month never read). */
  lemma {:induction false} TallyCounts(ms: seq<int>, month: int)
    ensures CountOf(Tally(ms), month) == multiset(ms)[month]
  {
    if ms != [] {
      var init, last := ms[..|ms| - 1], ms[|ms| - 1];
      assert ms == init + [last];
      TallyCounts(init, month);
      TallyCounts(init, last);
      CountOfSetCount(Tally(init), last, CountOf(Tally(init), last) + 1, month);
    }
  }

  /** Days from day n to the end of its month, day n included. */
  function DaysLeftInMonth(n: int): (k: int)
    ensures 1 <= k <= 31
  {
    DaysInMonth(YearFromDay(n), MonthFromDay(n)) - DateFromDay(n) + 1
  }

  /** The month following the month of day n. */
  function FollowingMonth(n: int): (m: int)
    ensures 0 <= m < 12 && m != MonthFromDay(n)
  {
    NextMonth(YearFromDay(n), MonthFromDay(n)).1
  }

  /** Day i of the week starting on day n lies in n's month for the first
      DaysLeftInMonth(n) days and in the following month after that. */
  lemma WeekDayMonth(n: int, i: int)
    requires 0 <= i < 7
    ensures MonthFromDay(n + i) == if i < DaysLeftInMonth(n) then MonthFromDay(n) else FollowingMonth(n)
  {
    if i < DaysLeftInMonth(n) {
      DaysAheadSameMonth(n, i);
    } else {
      DaysAheadNextMonth(n, i);
    }
  }

  /** Seven days of which the first k lie in month m1 and the others in m2. */
  function TwoMonthWeek(m1: int, m2: int, k: int): (ms: seq<int>)
    ensures |ms| == 7 && forall j :: 0 <= j < 7 ==> ms[j] == if j < k then m1 else m2
  {
    seq(7, j => if j < k then m1 else m2)
  }

  /** A week's days lie in its first day's month while days of that month
      remain, and in the following month after that. */
  lemma WeekMonthsShape(n: int)
    ensures WeekMonths(n, 7) == TwoMonthWeek(MonthFromDay(n), FollowingMonth(n), DaysLeftInMonth(n))
  {
    var ms, two := WeekMonths(n, 7), TwoMonthWeek(MonthFromDay(n), FollowingMonth(n), DaysLeftInMonth(n));
    forall j | 0 <= j < 7
      ensures ms[j] == two[j]
    {
      DayValuesAt(n, 7, j, MonthFromDay);
      WeekDayMonth(n, j);
    }
  }

  /** The counts after i days when the first k days fall in month m1 and the
      following ones in month m2. */
  function TwoMonthCounts(m1: int, m2: int, k: int, i: nat): Counts {
    if i == 0 then [] else if i <= k then [(m1, i)] else [(m1, k), (m2, i - k)]
  }

  /** Counting the first i days of a two-month week gives the two-month counts. */
  lemma {:induction false} TallyTwoMonths(m1: int, m2: int, k: int, i: nat)
    requires m1 != m2 && 1 <= k && i <= 7
    ensures Tally(TwoMonthWeek(m1, m2, k)[..i]) == TwoMonthCounts(m1, m2, k, i)
  {
    if i > 0 {
      var w := TwoMonthWeek(m1, m2, k);
      TallyTwoMonths(m1, m2, k, i - 1);
      assert w[..i] == w[..i - 1] + [w[i - 1]];
      TallyAppend(w[..i - 1], w[i - 1]);
      CountStep(m1, m2, k, i, Tally(w[..i - 1]), w[i - 1]);
    }
  }

  /** One step of the counting loop on the two-month shape. */
  lemma CountStep(m1: int, m2: int, k: int, i: nat, prev: Counts, month: int)
    requires m1 != m2 && 1 <= k && 0 < i
    requires prev == TwoMonthCounts(m1, m2, k, i - 1)
    requires month == if i - 1 < k then m1 else m2
    ensures SetCount(prev, month, CountOf(prev, month) + 1) == TwoMonthCounts(m1, m2, k, i)
  {
    if i <= k {
      if i > 1 {
        assert SetCount(prev, m1, i) == [(m1, i)] + prev[1..];
      }
    } else if i == k + 1 {
      assert SetCount(prev, m2, 1) == [(m1, k)] + SetCount(prev[1..], m2, 1);
    } else {
      assert prev[1..] == [(m2, i - 1 - k)];
      assert CountOf(prev, m2) == i - 1 - k;
      assert SetCount(prev, m2, i - k) == [(m1, k)] + SetCount(prev[1..], m2, i - k);
    }
  }

  /** The counts of a whole week: its first day's month with the days left in
      it, then the following month with the rest (if any). */
  lemma WeekTally(n: int)
    ensures Tally(WeekMonths(n, 7)) == TwoMonthCounts(MonthFromDay(n), FollowingMonth(n), DaysLeftInMonth(n), 7)
  {
    var two := TwoMonthWeek(MonthFromDay(n), FollowingMonth(n), DaysLeftInMonth(n));
    WeekMonthsShape(n);
    TallyTwoMonths(MonthFromDay(n), FollowingMonth(n), DaysLeftInMonth(n), 7);
    assert two[..7] == two;
  }

  /** The `forEach` over the counts: a strictly larger count replaces the
      selection, so the first of several equal maxima is kept. */
  function SelectMax(counts: Counts, selected: int, max: int): (int, int) {
    if counts == [] then (selected, max)
    else
      var prev := SelectMax(counts[..|counts| - 1], selected, max);
      var last := counts[|counts| - 1];
      if last.1 > prev.1 then last else prev
  }

  /** SelectMax finds the largest count; when it exceeds the starting maximum
      the selection is the key of the FIRST entry holding that count. */
  lemma {:induction false} SelectMaxFirst(counts: Counts, selected: int, max: int)
    ensures var r := SelectMax(counts, selected, max);
      r.1 >= max && (forall i :: 0 <= i < |counts| ==> counts[i].1 <= r.1)
    ensures var r := SelectMax(counts, selected, max);
      r.1 == max ==> r.0 == selected
    ensures var r := SelectMax(counts, selected, max);
      r.1 > max ==> exists i :: 0 <= i < |counts| && counts[i] == r && forall j :: 0 <= j < i ==> counts[j].1 < r.1
  {
    if counts != [] {
      var init := counts[..|counts| - 1];
      SelectMaxFirst(init, selected, max);
      var prev := SelectMax(init, selected, max);
      var last := counts[|counts| - 1];
      if last.1 > prev.1 {
        assert forall j :: 0 <= j < |counts| - 1 ==> counts[j] == init[j];
      } else if prev.1 > max {
        var i :| 0 <= i < |init| && init[i] == prev && forall j :: 0 <= j < i ==> init[j].1 < prev.1;
        assert counts[i] == prev;
      }
    }
  }

  /** The month a week starting on day n mostly belongs to: the month of the
      first day when at least four days remain in it, else the next month,
      which is the month of the week's last day. */
  function MajorityMonth(n: int): (m: int)
    ensures 0 <= m < 12
  {
    if DaysLeftInMonth(n) >= 4 then MonthFromDay(n) else MonthFromDay(n + 6)
  }

  /** Selecting from a whole week's two-month counts keeps the first month
      exactly when it holds at least four days. */
  lemma SelectTwoMonths(m1: int, m2: int, k: int)
    requires m1 != m2 && 1 <= k
    ensures SelectMax(TwoMonthCounts(m1, m2, k, 7), m1, 0).0 == if k >= 4 then m1 else m2
  {
    var c := TwoMonthCounts(m1, m2, k, 7);
    if k < 7 {
      assert c == [(m1, k), (m2, 7 - k)];
      assert c[..1] == [(m1, k)] && c[..1][..0] == [];
      assert SelectMax(c[..1], m1, 0) == (m1, k);
    } else {
      assert c == [(m1, 7)];
      assert c[..0] == [];
    }
  }

  /** In a whole week's two-month counts the month chosen by the four-day
      rule has at least four days and any other month at most three. */
  lemma CountTwoMonths(m1: int, m2: int, k: int, other: int)
    requires m1 != m2 && 1 <= k
    ensures var c := TwoMonthCounts(m1, m2, k, 7);
      CountOf(c, if k >= 4 then m1 else m2) >= 4 && (other != (if k >= 4 then m1 else m2) ==> CountOf(c, other) <= 3)
  {
    var c := TwoMonthCounts(m1, m2, k, 7);
    if k < 7 {
      assert c == [(m1, k), (m2, 7 - k)];
      assert c[1..] == [(m2, 7 - k)] && c[1..][1..] == [];
      assert CountOf(c, m2) == 7 - k;
      if other != m1 && other != m2 {
        assert CountOf(c[1..], other) == CountOf(c[1..][1..], other) == 0;
      }
    } else {
      assert c == [(m1, 7)];
      assert c[1..] == [];
    }
  }

  /** The four-day rule picks the first day's month when at least four days
      remain in it, and otherwise the month of the week's last day. */
  lemma MajorityByShape(n: int)
    ensures MajorityMonth(n) == if DaysLeftInMonth(n) >= 4 then MonthFromDay(n) else FollowingMonth(n)
  {
    WeekDayMonth(n, 6);
  }

  /** The counting and selection loops end on MajorityMonth. */
  lemma MajorityOfTally(n: int)
    ensures SelectMax(Tally(WeekMonths(n, 7)), MonthFromDay(n), 0).0 == MajorityMonth(n)
  {
    WeekTally(n);
    MajorityByShape(n);
    SelectTwoMonths(MonthFromDay(n), FollowingMonth(n), DaysLeftInMonth(n));
  }

  /** The majority month holds at least four of the week's seven days, and
      every other month at most three. */
  lemma MajorityMonthMost(n: int, other: int)
    ensures DaysIn(n, 7, MajorityMonth(n)) >= 4
    ensures other != MajorityMonth(n) ==> DaysIn(n, 7, other) <= 3
  {
    WeekTally(n);
    MajorityByShape(n);
    CountTwoMonths(MonthFromDay(n), FollowingMonth(n), DaysLeftInMonth(n), other);
    TallyCounts(WeekMonths(n, 7), MajorityMonth(n));
    TallyCounts(WeekMonths(n, 7), other);
  }

  /** getMajorityMonth: count the days of each month over the seven days
      from weekStart, then keep the month with a strictly larger count than
      any before it. weekStart is the time value of a valid Date. */
  method GetMajorityMonth(weekStart: int) returns (selectedMonth: int)
    ensures selectedMonth == MajorityMonth(Day(weekStart))
    ensures DaysIn(Day(weekStart), 7, selectedMonth) >= 4
  {
    var counts := CountWeekMonths(weekStart, MonthFromDay);
    selectedMonth := SelectMonth(counts, Month(weekStart));
    MajorityOfTally(Day(weekStart));
    MajorityMonthMost(Day(weekStart), selectedMonth);
  }

  /** The counting loop of getMajorityMonth: `counts` maps each month to its
      number of days among the seven days from weekStart. `month` stands for
      the month of a day; the trigger keeps the calendar behind it out of
      the loop's own reasoning. */
  method CountWeekMonths(weekStart: int, ghost month: int -> int) returns (counts: Counts)
    requires forall d {:trigger MonthFromDay(d)} :: month(d) == MonthFromDay(d)
    ensures counts == Tally(DayValues(Day(weekStart), 7, month))
  {
    ghost var n := Day(weekStart);
    counts := [];
    for i := 0 to 7
      invariant counts == Tally(DayValues(n, i, month))
    {
      counts := CountDay(counts, weekStart, i, month);
      TallyNextDay(n, i, month, month(n + i));
    }
  }

  /** The body of the counting loop for day i of the week: one more day for
      that day's month. */
  method CountDay(counts: Counts, weekStart: int, i: nat, ghost month: int -> int) returns (next: Counts)
    requires forall d {:trigger MonthFromDay(d)} :: month(d) == MonthFromDay(d)
    ensures next == SetCount(counts, month(Day(weekStart) + i), CountOf(counts, month(Day(weekStart) + i)) + 1)
  {
    var current := AddDays(Time(weekStart), i);
    DayAfterDays(weekStart, i);
    var m := Month(current.ms);
    next := SetCount(counts, m, CountOf(counts, m) + 1);
  }

  /** Reading the value of day n + i extends the tally of days n .. n + i - 1. */
  lemma TallyNextDay(n: int, i: nat, f: int -> int, month: int)
    requires month == f(n + i)
    ensures Tally(DayValues(n, i + 1, f)) == SetCount(Tally(DayValues(n, i, f)), month, CountOf(Tally(DayValues(n, i, f)), month) + 1)
  {
    assert DayValues(n, i + 1, f) == DayValues(n, i, f) + [month];
    TallyAppend(DayValues(n, i, f), month);
  }

  /** The selection loop of getMajorityMonth, starting from the first day's
      month with a maximum of 0. */
  method SelectMonth(counts: Counts, first: int) returns (selectedMonth: int)
    ensures selectedMonth == SelectMax(counts, first, 0).0
  {
    selectedMonth := first;
    var max := 0;
    for j := 0 to |counts|
      invariant (selectedMonth, max) == SelectMax(counts[..j], first, 0)
    {
      assert counts[..j + 1][..j] == counts[..j];
      if counts[j].1 > max {
        max := counts[j].1;
        selectedMonth := counts[j].0;
      }
    }
    assert counts[..|counts|] == counts;
  }

  // ---------------------------------------------------------------------
  // ISO week numbers

  /** The Thursday of the Monday-to-Sunday week holding day n. */
  function IsoThursday(n: int): (thu: int)
    ensures WeekDay(thu) == 4
    ensures n - 3 <= thu <= n + 3
  {
    n - (WeekDay(n) + 6) % 7 + 3
  }

  /** The week number of ISO 8601:2004 section 3.2.2: weeks run from Monday
      to Sunday and belong to the year of their Thursday, and week 1 is the
      week holding that year's first Thursday. */
  function IsoWeek(n: int): (w: int)
    ensures 1 <= w <= 53
  {
    WeekOfYear(IsoThursday(n))
  }

  /** The number of the week whose Thursday is day thu: one more than the
      whole weeks from January 1st of thu's year to thu. */
  function WeekOfYear(thu: int): (w: int)
    ensures 1 <= w <= 53
  {
    DayFromYearStep(YearFromDay(thu));
    (thu - DayFromYear(YearFromDay(thu))) / 7 + 1
  }

  /** `Math.ceil(k / 7)` for an integer k. */
  function CeilDiv7(k: int): (q: int)
    ensures 7 * q - 7 < k <= 7 * q
  {
    if k % 7 == 0 then k / 7 else k / 7 + 1
  }

  /** The day `Date.UTC(getUTCFullYear(), getUTCMonth(), getUTCDate())`
      gives for day n: n itself, except that years 0..99 move to 1900..1999. */
  function UtcTargetDay(n: int): int {
    MakeDay(FullYearArg(YearFromDay(n)), MonthFromDay(n), DateFromDay(n))
  }

  /** `getUTCDay() || 7`: 1 for Monday up to 7 for Sunday. */
  function IsoDayNumber(n: int): (d: int)
    ensures 1 <= d <= 7 && d % 7 == WeekDay(n)
  {
    if WeekDay(n) == 0 then 7 else WeekDay(n)
  }

  /** The day of `Date.UTC(y, 0, 1)`, with the same 0..99 mapping. */
  function UtcYearStart(y: int): int {
    MakeDay(FullYearArg(y), 0, 1)
  }

  /** The number getISOWeekNumber computes for day n, including the 0..99
      year mapping of both Date.UTC calls. */
  function IsoWeekAsComputed(n: int): int {
    var target := UtcTargetDay(n);
    var thu := target + 4 - IsoDayNumber(target);
    CeilDiv7(thu - UtcYearStart(YearFromDay(thu)) + 1)
  }

  /** getISOWeekNumber on a valid date: rebuild the date with Date.UTC, move
      it to the Thursday of its week with setUTCDate, and count the weeks
      from January 1st of that Thursday's year. */
  method IsoWeekOfTime(t: int) returns (week: int)
    ensures week == IsoWeekAsComputed(Day(t))
  {
    ghost var n := UtcTargetDay(Day(t));
    ghost var thu := n + 4 - IsoDayNumber(n);
    ghost var a := UtcYearStart(YearFromDay(thu));
    var target := UtcMidnightOf(t);
    target := MoveToThursday(target, n, thu);
    var yearStart := YearStartOf(target, thu);
    week := WeeksSince(yearStart, target, a, thu);
    ComputedAt(Day(t), n, thu, a);
  }

  /** The number computed for day n, in terms of its Date.UTC day, the
      Thursday reached from it, and the start of that Thursday's year. */
  lemma ComputedAt(n: int, target: int, thu: int, a: int)
    requires target == UtcTargetDay(n) && thu == target + 4 - IsoDayNumber(target)
    requires a == UtcYearStart(YearFromDay(thu))
    ensures IsoWeekAsComputed(n) == CeilDiv7(thu - a + 1)
  {
  }

  /** `Math.ceil(((target - yearStart) / 86400000 + 1) / 7)` for two midnights. */
  method WeeksSince(yearStart: Date, target: Date, ghost a: int, ghost b: int) returns (week: int)
    requires yearStart == Midnight(a) && target == Midnight(b)
    ensures week == CeilDiv7(b - a + 1)
  {
    DaysBetweenMidnights(a, b);
    week := CeilDiv7((target.ms - yearStart.ms) / MsPerDay + 1);
  }

  /** `new Date(Date.UTC(getUTCFullYear(), getUTCMonth(), getUTCDate()))`. */
  method UtcMidnightOf(t: int) returns (target: Date)
    ensures target == Midnight(UtcTargetDay(Day(t)))
  {
    NewDateInts(FullYear(t), Month(t), DateOfMonth(t));
    target := NewDate(FromInt(FullYear(t)), FromInt(Month(t)), FromInt(DateOfMonth(t)));
  }

  /** `target.setUTCDate(target.getUTCDate() + 4 - dayNumber)` with
      `dayNumber = target.getUTCDay() || 7`. */
  method MoveToThursday(target: Date, ghost n: int, ghost thu: int) returns (thursday: Date)
    requires target == Midnight(n) && thu == n + 4 - IsoDayNumber(n)
    ensures thursday == Midnight(thu)
  {
    DayOfMidnight(n);
    var dayNumber := WeekDayOf(target.ms);
    if dayNumber == 0 {
      dayNumber := 7;
    }
    var newDate := DateOfMonth(target.ms) + 4 - dayNumber;
    assert thu * MsPerDay == target.ms + (4 - dayNumber) * MsPerDay;
    SetDateShift(target.ms, 4 - dayNumber, newDate, thu * MsPerDay);
    thursday := SetDate(target, FromInt(newDate));
  }

  /** `new Date(Date.UTC(target.getUTCFullYear(), 0, 1))`. */
  method YearStartOf(target: Date, ghost thu: int) returns (yearStart: Date)
    requires target == Midnight(thu)
    ensures yearStart == Midnight(UtcYearStart(YearFromDay(thu)))
  {
    DayOfMidnight(thu);
    NewDateInts(FullYear(target.ms), 0, 1);
    yearStart := NewDate(FromInt(FullYear(target.ms)), FromInt(0), FromInt(1));
  }

  /** getISOWeekNumber: NaN for an Invalid Date (every step propagates NaN). */
  method GetISOWeekNumber(date: Date) returns (week: Number)
    ensures date.Invalid? ==> week == NaN
    ensures date.Time? ==> week == FromInt(IsoWeekAsComputed(Day(date.ms)))
  {
    if date.Invalid? {
      return NaN;
    }
    var w := IsoWeekOfTime(date.ms);
    week := FromInt(w);
  }

  /** Stepping by 4 - dayNumber, with Sunday counted as day 7, reaches the
      Thursday of the week. */
  lemma ThursdayByDayNumber(n: int)
    ensures n + 4 - IsoDayNumber(n) == IsoThursday(n)
  {
  }

  /** Outside years 0..99, Date.UTC of a day's own fields is that day. */
  lemma UtcTargetOutsideCentury(n: int)
    requires YearFromDay(n) < 0 || YearFromDay(n) > 99
    ensures UtcTargetDay(n) == n
  {
    MakeDayOfCivil(n);
  }

  /** Date.UTC(y, 0, 1) is January 1st of y, for y outside 0..99. */
  lemma YearStartDay(y: int)
    requires y < 0 || y > 99
    ensures UtcYearStart(y) == DayFromYear(y)
  {
    assert 0 / 12 == 0 && 0 % 12 == 0;
  }

  lemma CeilDiv7Succ(k: int)
    requires k >= 0
    ensures CeilDiv7(k + 1) == k / 7 + 1
  {
  }

  /** Outside years 0..99 the computed number is the ISO 8601 week number. */
  lemma IsoWeekAsComputedAgrees(n: int)
    requires YearFromDay(n) < 0 || YearFromDay(n) > 99
    requires YearFromDay(IsoThursday(n)) < 0 || YearFromDay(IsoThursday(n)) > 99
    ensures IsoWeekAsComputed(n) == IsoWeek(n)
  {
    var thu := IsoThursday(n);
    var a := UtcYearStart(YearFromDay(thu));
    ComputedFromThursday(n, thu, a);
    WeekCountOfThursday(thu, a);
  }

  /** Outside years 0..99 the computation reaches the day's own Thursday. */
  lemma ComputedFromThursday(n: int, thu: int, a: int)
    requires YearFromDay(n) < 0 || YearFromDay(n) > 99
    requires thu == IsoThursday(n) && a == UtcYearStart(YearFromDay(thu))
    ensures IsoWeekAsComputed(n) == CeilDiv7(thu - a + 1)
  {
    UtcTargetOutsideCentury(n);
    ThursdayByDayNumber(n);
    ComputedAt(n, n, thu, a);
  }

  /** Counting from Date.UTC(year, 0, 1) outside years 0..99 gives the ISO
      week number of the week whose Thursday is thu. */
  lemma WeekCountOfThursday(thu: int, a: int)
    requires YearFromDay(thu) < 0 || YearFromDay(thu) > 99
    requires a == UtcYearStart(YearFromDay(thu))
    ensures CeilDiv7(thu - a + 1) == WeekOfYear(thu)
  {
    var y := YearFromDay(thu);
    YearStartDay(y);
    CeilDiv7Succ(thu - DayFromYear(y));
  }

  /** The Monday starting the week that holds day n. */
  function MondayOf(n: int): (m: int)
    ensures WeekDay(m) == 1 && m <= n < m + 7
  {
    n - (WeekDay(n) + 6) % 7
  }

  /** Every day of the week starting on Monday m has the Thursday m + 3. */
  lemma IsoThursdayOfMonday(m: int, j: int, x: int)
    requires WeekDay(m) == 1 && 0 <= j < 7 && x == m + j
    ensures IsoThursday(x) == m + 3
  {
    var q := (m + 4) / 7;
    assert m + 4 == 7 * q + 1;
    if j == 6 {
      assert x + 4 == 7 * (q + 1);
      assert WeekDay(x) == 0;
    } else {
      assert x + 4 == 7 * q + (j + 1);
      assert WeekDay(x) == j + 1;
    }
  }

  /** All seven days of a Monday-to-Sunday week get the same number. */
  lemma IsoWeekSameWeek(n: int, j: int)
    requires 0 <= j < 7
    ensures IsoWeek(MondayOf(n) + j) == IsoWeek(n)
  {
    var m := MondayOf(n);
    forall x | x == MondayOf(n) + j
      ensures IsoThursday(x) == m + 3
    {
      IsoThursdayOfMonday(m, j, x);
    }
    IsoThursdayOfMonday(m, n - m, n);
  }

  /** Moving ahead (11 - weekday) % 7 days from any day reaches a Thursday. */
  lemma NextThursday(j: int)
    ensures WeekDay(j + (11 - WeekDay(j)) % 7) == 4
  {
    var w := WeekDay(j);
    var q := (j + 4) / 7;
    assert j + 4 == 7 * q + w;
    var d := (11 - w) % 7;
    if w <= 4 {
      assert d == 4 - w;
      assert j + d + 4 == 7 * q + 4;
    } else {
      assert d == 11 - w;
      assert j + d + 4 == 7 * (q + 1) + 4;
    }
  }

  /** The first Thursday of year y. */
  function FirstThursday(y: int): (f: int)
    ensures WeekDay(f) == 4 && YearFromDay(f) == y
    ensures DayFromYear(y) <= f < DayFromYear(y) + 7
  {
    var j1 := DayFromYear(y);
    NextThursday(j1);
    DayFromYearStep(y);
    YearFromDayUnique(j1 + (11 - WeekDay(j1)) % 7, y);
    j1 + (11 - WeekDay(j1)) % 7
  }

  /** Week 1 of year y is the week holding its first Thursday: every day of
      that week is numbered 1. */
  lemma IsoWeekOneHoldsFirstThursday(y: int, j: int)
    requires 0 <= j < 7
    ensures IsoWeek(MondayOf(FirstThursday(y)) + j) == 1
  {
    var first := FirstThursday(y);
    var m := MondayOf(first);
    assert m + 3 == first;
    forall x | x == MondayOf(FirstThursday(y)) + j
      ensures IsoThursday(x) == first
    {
      IsoThursdayOfMonday(m, j, x);
    }
    assert WeekOfYear(first) == 1;
  }

  /** 2024-01-01 (a Monday) is in week 1. */
  lemma IsoWeekOf2024January1()
    ensures MakeDay(2024, 0, 1) == 19723
    ensures IsoWeek(19723) == 1
  {
    assert DayFromYear(2024) == 19723;
    assert DayFromYear(2025) == 20089;
    assert IsoThursday(19723) == 19726;
    YearFromDayUnique(19726, 2024);
  }

  /** The week whose Thursday is 2020-12-31 is week 53 of 2020. */
  lemma LastWeekOf2020(thu: int)
    requires thu == MakeDay(2020, 11, 31)
    ensures WeekDay(thu) == 4 && WeekOfYear(thu) == 53
  {
    Year2020();
    YearFromDayUnique(thu, 2020);
  }

  /** Where 2020 and its December sit on the day line. */
  lemma Year2020()
    ensures DayFromYear(2020) == 18262 && DayFromYear(2021) == 18628
    ensures MakeDay(2020, 11, 31) == 18627
  {
  }

  /** 2020-12-31, a Thursday, is in week 53. */
  lemma IsoWeekOf2020December31(n: int)
    requires n == MakeDay(2020, 11, 31)
    ensures IsoWeek(n) == 53
  {
    LastWeekOf2020(n);
    assert IsoThursday(n) == n;
  }

  /** The Friday 2021-01-01 belongs to the last week of 2020: week 53. */
  lemma IsoWeekOf2021January1(n: int)
    requires n == MakeDay(2021, 0, 1)
    ensures IsoWeek(n) == 53
  {
    var thu := n - 1;
    DayBeforeNewYear2021(n, thu);
    LastWeekOf2020(thu);
    ThursdayBeforeFriday(n, thu);
  }

  lemma DayBeforeNewYear2021(n: int, thu: int)
    requires n == MakeDay(2021, 0, 1) && thu == n - 1
    ensures thu == MakeDay(2020, 11, 31)
  {
    assert DayFromYear(2021) == 18628;
  }

  /** The day after a Thursday has that Thursday as its week's Thursday. */
  lemma ThursdayBeforeFriday(n: int, thu: int)
    requires thu == n - 1 && WeekDay(thu) == 4
    ensures IsoThursday(n) == thu
  {
    var q := (n + 3) / 7;
    assert n + 3 == 7 * q + 4;
    assert WeekDay(n) == 5;
  }

  // ---------------------------------------------------------------------
  // Weeks of a quarter

  /** The week record made for the Monday at day n. */
  function WeekAt(n: int): (w: WeekInfo)
    ensures w.start == Midnight(n) && w.end == Midnight(n + 6) && w.month == MajorityMonth(n)
  {
    WeekInfo(Midnight(n), Midnight(n + 6), IsoWeekAsComputed(n), MajorityMonth(n))
  }

  lemma WeekAtFields(n: int, start: Date, end: Date, isoWeek: int, month: int)
    requires start == Midnight(n) && end == Midnight(n + 6)
    requires isoWeek == IsoWeekAsComputed(n) && month == MajorityMonth(n)
    ensures WeekInfo(start, end, isoWeek, month) == WeekAt(n)
  {
  }

  /** f(cur) + f(cur + 7) + ... over the days cur, cur + 7, ... not after last. */
  function Walk<T>(cur: int, last: int, f: int -> seq<T>): seq<T>
    decreases last - cur + 7
  {
    if cur > last then [] else f(cur) + Walk(cur + 7, last, f)
  }

  /** Every element of a walk comes from one of its days. */
  lemma {:induction false} WalkMember<T>(cur: int, last: int, f: int -> seq<T>, x: T) returns (n: int)
    requires x in Walk(cur, last, f)
    ensures cur <= n <= last && (n - cur) % 7 == 0 && x in f(n)
    decreases last - cur + 7
  {
    assert Walk(cur, last, f) == f(cur) + Walk(cur + 7, last, f);
    if x in f(cur) {
      n := cur;
    } else {
      n := WalkMember(cur + 7, last, f, x);
      assert n - cur == (n - (cur + 7)) + 7;
    }
  }

  /** When every day gives at most one element, a walk's elements come from
      days in increasing order, at least seven days apart. */
  lemma {:induction false} WalkOrder<T>(cur: int, last: int, f: int -> seq<T>, i: int, j: int) returns (a: int, b: int)
    requires forall n :: |f(n)| <= 1
    requires 0 <= i < j < |Walk(cur, last, f)|
    ensures cur <= a && a + 7 <= b <= last
    ensures Walk(cur, last, f)[i] in f(a) && Walk(cur, last, f)[j] in f(b)
    decreases last - cur + 7
  {
    var ws, head, tail := Walk(cur, last, f), f(cur), Walk(cur + 7, last, f);
    assert ws == head + tail;
    if |head| == 1 && i == 0 {
      a := cur;
      assert ws[i] == head[0];
      assert ws[j] == tail[j - 1] && ws[j] in tail;
      b := WalkMember(cur + 7, last, f, ws[j]);
    } else {
      a, b := WalkOrder(cur + 7, last, f, i - |head|, j - |head|);
      assert ws[i] == tail[i - |head|] && ws[j] == tail[j - |head|];
    }
  }

  /** One more day of a walk, as the collecting loop takes it. */
  lemma WalkStep<T>(done: seq<T>, next: seq<T>, cur: int, cur': int, last: int, f: int -> seq<T>, total: seq<T>)
    requires cur <= last && cur' == cur + 7 && next == f(cur)
    requires done + Walk(cur, last, f) == total
    ensures (done + next) + Walk(cur', last, f) == total
  {
    assert Walk(cur, last, f) == next + Walk(cur', last, f);
    assert done + (next + Walk(cur', last, f)) == (done + next) + Walk(cur', last, f);
  }

  /** The week of the Monday at day n if its majority month is one of the
      given months, nothing otherwise. */
  function KeptWeek(n: int, months: seq<int>): (r: seq<WeekInfo>)
    ensures |r| <= 1
  {
    if MajorityMonth(n) in months then [WeekAt(n)] else []
  }

  /** KeptWeek as a function of the day alone. */
  function KeptWeeks(months: seq<int>): int -> seq<WeekInfo> {
    n => KeptWeek(n, months)
  }

  /** The weeks kept from the candidate Mondays cur, cur + 7, ... not after
      day last. */
  function QuarterWeeks(cur: int, last: int, months: seq<int>): seq<WeekInfo> {
    Walk(cur, last, KeptWeeks(months))
  }

  /** The weeks collectWeeksForQuarter returns: candidates run from the
      Monday on or before the first date to the Monday on or before the last
      date; an Invalid bound gives no weeks. */
  function CollectedWeeks(quarterStart: Date, quarterEnd: Date, months: seq<int>): seq<WeekInfo> {
    if quarterStart.Time? && quarterEnd.Time? then
      QuarterWeeks(Day(MondayOnOrBefore(quarterStart).ms), Day(MondayOnOrBefore(quarterEnd).ms), months)
    else []
  }

  /** `a.getTime() <= b.getTime()`: false when either is Invalid. */
  predicate NotAfter(a: Date, b: Date) {
    a.Time? && b.Time? && a.ms <= b.ms
  }

  /** collectWeeksForQuarter: walk a cursor from startOfWeek(quarterStart) in
      steps of seven days while it is not after startOfWeek(quarterEnd),
      keeping each week whose majority month is a quarter month. */
  method CollectWeeksForQuarter(quarterStart: Date, quarterEnd: Date, quarterMonths: seq<int>)
    returns (weeks: seq<WeekInfo>)
    ensures weeks == CollectedWeeks(quarterStart, quarterEnd, quarterMonths)
  {
    var startCursor := StartOfWeek(quarterStart);
    var endCursor := StartOfWeek(quarterEnd);
    if startCursor.Invalid? || endCursor.Invalid? {
      // a NaN time value makes the loop test false at once
      return [];
    }
    weeks := WalkWeeks(startCursor, endCursor, quarterMonths, KeptWeeks(quarterMonths));
  }

  /** The cursor loop of collectWeeksForQuarter, from startCursor while not
      after endCursor, for two valid midnights. `keep` gives, for each
      candidate Monday, what the loop body appends; the trigger keeps the
      calendar behind each kept week out of the loop's own reasoning. */
  method WalkWeeks(startCursor: Date, endCursor: Date, quarterMonths: seq<int>, ghost keep: int -> seq<WeekInfo>)
    returns (weeks: seq<WeekInfo>)
    requires startCursor.Time? && TimeWithinDay(startCursor.ms) == 0
    requires endCursor.Time? && TimeWithinDay(endCursor.ms) == 0
    requires forall n {:trigger KeptWeek(n, quarterMonths)} :: keep(n) == KeptWeek(n, quarterMonths)
    ensures weeks == Walk(Day(startCursor.ms), Day(endCursor.ms), keep)
  {
    weeks := [];
    ghost var first, last := Day(startCursor.ms), Day(endCursor.ms);
    ghost var c := first;
    var cursor := startCursor;
    while NotAfter(cursor, endCursor)
      invariant cursor == Midnight(c) && endCursor == Midnight(last)
      invariant weeks + Walk(c, last, keep) == Walk(first, last, keep)
      decreases last - c + 7
    {
      MidnightOrder(c, last);
      ghost var c' := c + 7;
      var kept;
      kept, cursor := VisitCandidate(cursor, quarterMonths, c, c', keep);
      WalkStep(weeks, kept, c, c', last, keep, Walk(first, last, keep));
      weeks := weeks + kept;
      c := c';
    }
    MidnightOrder(c, last);
    assert Walk(c, last, keep) == [];
    assert weeks == weeks + [];
  }

  /** The body of the collection loop for the cursor at the midnight of day
      c: what it appends, and the cursor seven days later. */
  method VisitCandidate(cursor: Date, quarterMonths: seq<int>, ghost c: int, ghost c': int, ghost keep: int -> seq<WeekInfo>)
    returns (kept: seq<WeekInfo>, next: Date)
    requires cursor == Midnight(c) && c' == c + 7
    requires forall n {:trigger KeptWeek(n, quarterMonths)} :: keep(n) == KeptWeek(n, quarterMonths)
    ensures kept == keep(c) && next == Midnight(c')
  {
    DayOfMidnight(c);
    kept := WeekIfInQuarter(cursor, quarterMonths);
    MidnightAfterDays(c, 7);
    next := AddDays(cursor, 7);
  }

  /** The week record for the Monday midnight weekStart when its majority
      month is a quarter month, nothing otherwise. */
  method WeekIfInQuarter(weekStart: Date, quarterMonths: seq<int>) returns (kept: seq<WeekInfo>)
    requires weekStart.Time? && TimeWithinDay(weekStart.ms) == 0
    ensures kept == KeptWeek(Day(weekStart.ms), quarterMonths)
  {
    ghost var n := Day(weekStart.ms);
    assert weekStart == Midnight(n);
    var weekEnd := AddDays(weekStart, 6);
    var majorityMonth := GetMajorityMonth(weekStart.ms);
    if majorityMonth !in quarterMonths {
      return [];
    }
    var isoWeek := IsoWeekOfTime(weekStart.ms);
    assert weekEnd == Midnight(n + 6);
    WeekAtFields(n, weekStart, weekEnd, isoWeek, majorityMonth);
    kept := [WeekInfo(weekStart, weekEnd, isoWeek, majorityMonth)];
  }

  /** Days a multiple of seven apart share their day of the week. */
  lemma WeekDayAfterWeeks(a: int, b: int)
    requires (b - a) % 7 == 0
    ensures WeekDay(b) == WeekDay(a)
  {
    var q := (a + 4) / 7;
    var k := (b - a) / 7;
    assert a + 4 == 7 * q + WeekDay(a);
    assert b + 4 == 7 * (q + k) + WeekDay(a);
  }

  /** A kept week is the week record of a candidate Monday between cur and
      last, whose majority month is one of the given months. */
  lemma QuarterWeeksMember(cur: int, last: int, months: seq<int>, w: WeekInfo) returns (n: int)
    requires w in QuarterWeeks(cur, last, months)
    ensures cur <= n <= last && WeekDay(n) == WeekDay(cur)
    ensures w == WeekAt(n) && MajorityMonth(n) in months
  {
    n := WalkMember(cur, last, KeptWeeks(months), w);
    assert w in KeptWeek(n, months);
    WeekDayAfterWeeks(cur, n);
  }

  /** Every kept week runs from a Monday midnight to the Sunday midnight six
      days later, lies between the first and the last candidate, and has a
      majority month among the given months. */
  lemma QuarterWeeksShape(cur: int, last: int, months: seq<int>, w: WeekInfo)
    requires WeekDay(cur) == 1 && w in QuarterWeeks(cur, last, months)
    ensures w.start.Time? && w.end.Time? && w.end.ms == w.start.ms + 6 * MsPerDay
    ensures TimeWithinDay(w.start.ms) == 0 && WeekDay(Day(w.start.ms)) == 1
    ensures cur <= Day(w.start.ms) <= last && w.month in months
  {
    var n := QuarterWeeksMember(cur, last, months, w);
    DayOfMidnight(n);
  }

  /** Kept weeks come in order of strictly increasing start, at least seven
      days apart, so no week appears twice. */
  lemma QuarterWeeksIncreasing(cur: int, last: int, months: seq<int>, i: int, j: int)
    requires 0 <= i < j < |QuarterWeeks(cur, last, months)|
    ensures var ws := QuarterWeeks(cur, last, months);
      ws[i].start.Time? && ws[j].start.Time? && ws[i].start.ms + 7 * MsPerDay <= ws[j].start.ms
  {
    var keep := KeptWeeks(months);
    forall n ensures |keep(n)| <= 1 && forall w :: w in keep(n) ==> w.start == Midnight(n) {
      assert keep(n) == KeptWeek(n, months);
    }
    WalkOfWeeksIncreasing(cur, last, keep, i, j);
  }

  /** The same for any walk whose days each give at most one week, starting
      at that day's midnight. */
  lemma WalkOfWeeksIncreasing(cur: int, last: int, keep: int -> seq<WeekInfo>, i: int, j: int)
    requires forall n :: |keep(n)| <= 1 && forall w :: w in keep(n) ==> w.start == Midnight(n)
    requires 0 <= i < j < |Walk(cur, last, keep)|
    ensures var ws := Walk(cur, last, keep);
      ws[i].start.Time? && ws[j].start.Time? && ws[i].start.ms + 7 * MsPerDay <= ws[j].start.ms
  {
    var ws := Walk(cur, last, keep);
    var a, b := WalkOrder(cur, last, keep, i, j);
    assert ws[i].start == Midnight(a) && ws[j].start == Midnight(b);
    MidnightsAWeekApart(a, b);
  }

  /** Midnights at least seven days apart are at least seven days of
      milliseconds apart. */
  lemma MidnightsAWeekApart(a: int, b: int)
    requires a + 7 <= b
    ensures Midnight(a).ms + 7 * MsPerDay <= Midnight(b).ms
  {
    var k := b - a - 7;
    assert b * MsPerDay == a * MsPerDay + 7 * MsPerDay + k * MsPerDay;
  }

  // ---------------------------------------------------------------------
  // The quarter structure

  /** The three month indices of a quarter: 3 * (quarter - 1) and the next two. */
  function QuarterMonths(quarter: int): (months: seq<int>)
    ensures |months| == 3 && forall i :: 0 <= i < 3 ==> months[i] == 3 * (quarter - 1) + i
  {
    var firstMonth := (quarter - 1) * 3;
    [firstMonth, firstMonth + 1, firstMonth + 2]
  }

  /** `new Date(year, firstMonth, 1)`: the quarter's first day. */
  function QuarterStart(year: int, quarter: int): Date {
    NewDate(FromInt(year), FromInt((quarter - 1) * 3), FromInt(1))
  }

  /** `new Date(year, firstMonth + 3, 0)`: day 0 of the following month, the
      quarter's last day. */
  function QuarterEnd(year: int, quarter: int): Date {
    NewDate(FromInt(year), FromInt((quarter - 1) * 3 + 3), FromInt(0))
  }

  /** The weeks collectWeeksForQuarter gives for the quarter. */
  function WeeksOfQuarter(year: int, quarter: int): seq<WeekInfo> {
    CollectedWeeks(QuarterStart(year, quarter), QuarterEnd(year, quarter), QuarterMonths(quarter))
  }

  /** The weeks whose month is the given one, in their original order. */
  function WeeksOfMonth(weeks: seq<WeekInfo>, month: int): (r: seq<WeekInfo>)
    ensures |r| <= |weeks|
    ensures forall w :: w in r <==> w in weeks && w.month == month
  {
    if weeks == [] then []
    else
      assert weeks == [weeks[0]] + weeks[1..];
      (if weeks[0].month == month then [weeks[0]] else []) + WeeksOfMonth(weeks[1..], month)
  }

  /** One month record per month index, each holding that month's weeks. */
  function MonthsOf(months: seq<int>, weeks: seq<WeekInfo>): (r: seq<MonthInfo>)
    ensures |r| == |months|
  {
    if months == [] then []
    else [MonthInfo(months[0], WeeksOfMonth(weeks, months[0]))] + MonthsOf(months[1..], weeks)
  }

  /** The structure buildQuarterStructure assembles from the quarter's weeks. */
  function StructureOf(year: int, quarter: int, weeks: seq<WeekInfo>): QuarterStructure {
    QuarterStructure(year, quarter, "Q" + IntToString(quarter) + " " + IntToString(year),
      MonthsOf(QuarterMonths(quarter), weeks), weeks)
  }

  /** buildQuarterStructure: collect the quarter's weeks between its first
      and last day, then give each of its three months the weeks assigned to
      it. */
  method BuildQuarterStructure(year: int, quarter: int) returns (structure: QuarterStructure)
    ensures structure == StructureOf(year, quarter, WeeksOfQuarter(year, quarter))
  {
    var quarterMonths := QuarterMonths(quarter);
    var quarterStart := QuarterStart(year, quarter);
    var quarterEnd := QuarterEnd(year, quarter);
    var weeks := CollectWeeksForQuarter(quarterStart, quarterEnd, quarterMonths);
    var months := MonthsOf(quarterMonths, weeks);
    structure := QuarterStructure(year, quarter, "Q" + IntToString(quarter) + " " + IntToString(year), months, weeks);
  }

  /** The structure echoes year and quarter, and its month records list the
      quarter's three months in order, each holding exactly the weeks
      assigned to it. */
  lemma StructureMonths(year: int, quarter: int, weeks: seq<WeekInfo>)
    ensures var s := StructureOf(year, quarter, weeks);
      s.year == year && s.quarter == quarter && s.weeks == weeks && |s.months| == 3 &&
      forall i :: 0 <= i < 3 ==>
        s.months[i].month == 3 * (quarter - 1) + i &&
        s.months[i].weeks == WeeksOfMonth(weeks, s.months[i].month)
  {
    var months := QuarterMonths(quarter);
    MonthsOfAt(months, weeks, 0);
    MonthsOfAt(months, weeks, 1);
    MonthsOfAt(months, weeks, 2);
  }

  /** Record i is month i with its weeks. */
  lemma {:induction false} MonthsOfAt(months: seq<int>, weeks: seq<WeekInfo>, i: nat)
    requires i < |months|
    ensures MonthsOf(months, weeks)[i] == MonthInfo(months[i], WeeksOfMonth(weeks, months[i]))
  {
    if i > 0 {
      MonthsOfAt(months[1..], weeks, i - 1);
    }
  }

  /** The label reads "Q{quarter} {year}". */
  lemma StructureLabel(year: int, quarter: int, weeks: seq<WeekInfo>)
    requires 1 <= quarter <= 4 && year >= 0
    ensures StructureOf(year, quarter, weeks).labelText == ['Q', DigitChar(quarter), ' '] + NatToString(year)
  {
  }

  /** Among three distinct months that cover every week, the month lists'
      lengths add up to the number of weeks. */
  lemma {:induction false} WeeksOfMonthsCount(weeks: seq<WeekInfo>, a: int, b: int, c: int)
    requires a != b && b != c && a != c
    requires forall w :: w in weeks ==> w.month == a || w.month == b || w.month == c
    ensures |WeeksOfMonth(weeks, a)| + |WeeksOfMonth(weeks, b)| + |WeeksOfMonth(weeks, c)| == |weeks|
  {
    if weeks != [] {
      assert weeks[0] in weeks;
      WeeksOfMonthsCount(weeks[1..], a, b, c);
    }
  }

  /** When every week has one of the quarter's months, every week lies in
      exactly one month list, and the month lists together hold as many
      weeks as the quarter. */
  lemma StructurePartition(year: int, quarter: int, weeks: seq<WeekInfo>)
    requires forall w :: w in weeks ==> w.month in QuarterMonths(quarter)
    ensures var s := StructureOf(year, quarter, weeks);
      |s.months| == 3 &&
      (forall w :: w in weeks ==>
        (w in s.months[0].weeks || w in s.months[1].weeks || w in s.months[2].weeks) &&
        !(w in s.months[0].weeks && w in s.months[1].weeks) &&
        !(w in s.months[0].weeks && w in s.months[2].weeks) &&
        !(w in s.months[1].weeks && w in s.months[2].weeks)) &&
      |s.months[0].weeks| + |s.months[1].weeks| + |s.months[2].weeks| == |weeks|
  {
    var months := QuarterMonths(quarter);
    assert months == [months[0], months[1], months[2]];
    MonthsOfAt(months, weeks, 0);
    MonthsOfAt(months, weeks, 1);
    MonthsOfAt(months, weeks, 2);
    MonthListsPartition(weeks, months[0], months[1], months[2]);
  }

  /** The weeks of three distinct months that cover every week split the
      weeks between them. */
  lemma MonthListsPartition(weeks: seq<WeekInfo>, a: int, b: int, c: int)
    requires a != b && b != c && a != c
    requires forall w :: w in weeks ==> w.month == a || w.month == b || w.month == c
    ensures forall w :: w in weeks ==>
      (w in WeeksOfMonth(weeks, a) || w in WeeksOfMonth(weeks, b) || w in WeeksOfMonth(weeks, c)) &&
      !(w in WeeksOfMonth(weeks, a) && w in WeeksOfMonth(weeks, b)) &&
      !(w in WeeksOfMonth(weeks, a) && w in WeeksOfMonth(weeks, c)) &&
      !(w in WeeksOfMonth(weeks, b) && w in WeeksOfMonth(weeks, c))
    ensures |WeeksOfMonth(weeks, a)| + |WeeksOfMonth(weeks, b)| + |WeeksOfMonth(weeks, c)| == |weeks|
  {
    WeeksOfMonthsCount(weeks, a, b, c);
  }

  /** Every collected week has one of the given months. */
  lemma CollectedWeeksMonths(quarterStart: Date, quarterEnd: Date, months: seq<int>)
    ensures forall w :: w in CollectedWeeks(quarterStart, quarterEnd, months) ==> w.month in months
  {
    forall w | w in CollectedWeeks(quarterStart, quarterEnd, months)
      ensures w.month in months
    {
      var n := QuarterWeeksMember(Day(MondayOnOrBefore(quarterStart).ms), Day(MondayOnOrBefore(quarterEnd).ms), months, w);
    }
  }

  /** Hence the quarter's structure partitions its weeks among its months. */
  lemma QuarterStructurePartition(year: int, quarter: int)
    ensures var s := StructureOf(year, quarter, WeeksOfQuarter(year, quarter));
      |s.months| == 3 && |s.months[0].weeks| + |s.months[1].weeks| + |s.months[2].weeks| == |s.weeks|
  {
    CollectedWeeksMonths(QuarterStart(year, quarter), QuarterEnd(year, quarter), QuarterMonths(quarter));
    StructurePartition(year, quarter, WeeksOfQuarter(year, quarter));
  }

  /** Collected weeks are Monday-to-Sunday weeks in strictly increasing
      order, from the Monday on or before the first date to the Monday on or
      before the last date. */
  lemma CollectedWeeksOrder(quarterStart: Date, quarterEnd: Date, months: seq<int>, i: int, j: int)
    requires 0 <= i < j < |CollectedWeeks(quarterStart, quarterEnd, months)|
    ensures var ws := CollectedWeeks(quarterStart, quarterEnd, months);
      var first, last := MondayOnOrBefore(quarterStart), MondayOnOrBefore(quarterEnd);
      first.Time? && last.Time? &&
      ws[i].start.Time? && ws[j].start.Time? && ws[i].end.Time? &&
      ws[i].end.ms == ws[i].start.ms + 6 * MsPerDay && WeekDay(Day(ws[i].start.ms)) == 1 &&
      first.ms <= ws[i].start.ms && ws[j].start.ms <= last.ms &&
      ws[i].start.ms + 7 * MsPerDay <= ws[j].start.ms
  {
    var first, last := MondayOnOrBefore(quarterStart), MondayOnOrBefore(quarterEnd);
    var cur, end := Day(first.ms), Day(last.ms);
    var ws := QuarterWeeks(cur, end, months);
    assert ws[i] in ws && ws[j] in ws;
    QuarterWeeksShape(cur, end, months, ws[i]);
    QuarterWeeksShape(cur, end, months, ws[j]);
    QuarterWeeksIncreasing(cur, end, months, i, j);
  }

  // ---------------------------------------------------------------------
  // Which candidate weeks are kept, and which days they cover

  /** Every element a day of the walk gives is in the walk. */
  lemma {:induction false} WalkCovers<T>(cur: int, last: int, f: int -> seq<T>, n: int, x: T)
    requires cur <= n <= last && (n - cur) % 7 == 0 && x in f(n)
    ensures x in Walk(cur, last, f)
    decreases n - cur
  {
    assert Walk(cur, last, f) == f(cur) + Walk(cur + 7, last, f);
    if n != cur {
      assert (n - (cur + 7)) % 7 == 0;
      WalkCovers(cur + 7, last, f, n, x);
    }
  }

  /** A walk whose last day is a multiple of seven days after its first ends
      with what that last day gives. */
  lemma {:induction false} WalkLast<T>(cur: int, last: int, f: int -> seq<T>)
    requires cur <= last && (last - cur) % 7 == 0
    ensures Walk(cur, last, f) == Walk(cur, last - 7, f) + f(last)
    decreases last - cur
  {
    if cur == last {
      assert Walk(cur + 7, last, f) == [];
    } else {
      assert (last - (cur + 7)) % 7 == 0;
      WalkLast(cur + 7, last, f);
      assert Walk(cur, last, f) == f(cur) + Walk(cur + 7, last, f);
      assert Walk(cur, last - 7, f) == f(cur) + Walk(cur + 7, last - 7, f);
    }
  }

  /** Two days with the same day of the week are a multiple of seven apart. */
  lemma SameWeekDayApart(a: int, b: int)
    requires WeekDay(a) == WeekDay(b)
    ensures (b - a) % 7 == 0
  {
    var p, q := (a + 4) / 7, (b + 4) / 7;
    assert a + 4 == 7 * p + WeekDay(a);
    assert b + 4 == 7 * q + WeekDay(a);
    assert b - a == 7 * (q - p);
  }

  /** A candidate Monday between the first and the last candidate gives a
      kept week exactly when its majority month is one of the given months:
      the converse of QuarterWeeksMember. */
  lemma CollectedWeeksExactly(quarterStart: Date, quarterEnd: Date, months: seq<int>, n: int)
    requires quarterStart.Time? && quarterEnd.Time? && WeekDay(n) == 1
    requires Day(MondayOnOrBefore(quarterStart).ms) <= n <= Day(MondayOnOrBefore(quarterEnd).ms)
    ensures WeekAt(n) in CollectedWeeks(quarterStart, quarterEnd, months) <==> MajorityMonth(n) in months
  {
    var cur, last := Day(MondayOnOrBefore(quarterStart).ms), Day(MondayOnOrBefore(quarterEnd).ms);
    DayOfMidnight(cur);
    if MajorityMonth(n) in months {
      SameWeekDayApart(cur, n);
      assert WeekAt(n) in KeptWeeks(months)(n);
      WalkCovers(cur, last, KeptWeeks(months), n, WeekAt(n));
    }
    if WeekAt(n) in CollectedWeeks(quarterStart, quarterEnd, months) {
      var k := QuarterWeeksMember(cur, last, months, WeekAt(n));
      MidnightInjective(k, n);
    }
  }

  /** Different days have different midnights. */
  lemma MidnightInjective(a: int, b: int)
    requires Midnight(a) == Midnight(b)
    ensures a == b
  {
    DayOfMidnight(a);
    DayOfMidnight(b);
  }

  /** Every day from the first to the last date lies in the Monday-to-Sunday
      week of its Monday, which is a candidate; that week is kept when its
      majority month is one of the given months. */
  lemma CollectedDay(quarterStart: Date, quarterEnd: Date, months: seq<int>, d: int)
    requires quarterStart.Time? && quarterEnd.Time?
    requires Day(quarterStart.ms) <= d <= Day(quarterEnd.ms)
    ensures WeekAt(MondayOf(d)).start.ms <= Midnight(d).ms <= WeekAt(MondayOf(d)).end.ms
    ensures Day(MondayOnOrBefore(quarterStart).ms) <= MondayOf(d) <= Day(MondayOnOrBefore(quarterEnd).ms)
    ensures WeekAt(MondayOf(d)) in CollectedWeeks(quarterStart, quarterEnd, months) <==> MajorityMonth(MondayOf(d)) in months
  {
    var m := MondayOf(d);
    var first, last := MondayOnOrBefore(quarterStart), MondayOnOrBefore(quarterEnd);
    var cur, end := Day(first.ms), Day(last.ms);
    DayOfMidnight(cur);
    DayOfMidnight(end);
    DayOfTime(Day(quarterStart.ms), TimeWithinDay(quarterStart.ms));
    DayOfTime(Day(quarterEnd.ms), TimeWithinDay(quarterEnd.ms));
    MondayWithin(cur, Day(quarterStart.ms));
    MondayWithin(end, Day(quarterEnd.ms));
    SameWeekDayApart(cur, m);
    SameWeekDayApart(m, end);
    MidnightOrder(m, d);
    MidnightOrder(d, m + 6);
    CollectedWeeksExactly(quarterStart, quarterEnd, months, m);
  }

  /** The Monday on or before a day lies less than a week before it. */
  lemma MondayWithin(m: int, n: int)
    requires Midnight(m).ms <= n * MsPerDay + TimeWithinDay(n * MsPerDay) < Midnight(m).ms + 7 * MsPerDay
    requires 0 <= TimeWithinDay(n * MsPerDay) < MsPerDay
    ensures m <= n < m + 7
  {
  }

  /** `new Date(year, firstMonth, 1)` and `new Date(year, firstMonth + 3, 0)`
      are the midnights of the first day of the quarter's first month and of
      the last day of its third month, in the year the Date constructor
      uses (years 0..99 read as 19xx). */
  lemma QuarterBounds(year: int, quarter: int)
    requires 1 <= quarter <= 4
    ensures var y, first := FullYearArg(year), 3 * (quarter - 1);
      QuarterStart(year, quarter) == Midnight(DayFromYear(y) + DaysBeforeMonth(y, first)) &&
      QuarterEnd(year, quarter) == Midnight(DayFromYear(y) + DaysBeforeMonth(y, first + 3) - 1)
  {
    var y, first := FullYearArg(year), 3 * (quarter - 1);
    QuarterStartDay(year, quarter, y, first);
    QuarterEndDay(year, quarter, y, first);
  }

  lemma QuarterStartDay(year: int, quarter: int, y: int, first: int)
    requires 1 <= quarter <= 4 && y == FullYearArg(year) && first == 3 * (quarter - 1)
    ensures QuarterStart(year, quarter) == Midnight(DayFromYear(y) + DaysBeforeMonth(y, first))
  {
    var m := (quarter - 1) * 3;
    NewDateInts(year, m, 1);
    FirstDayOfMonth(y, first, m);
  }

  lemma QuarterEndDay(year: int, quarter: int, y: int, first: int)
    requires 1 <= quarter <= 4 && y == FullYearArg(year) && first == 3 * (quarter - 1)
    ensures QuarterEnd(year, quarter) == Midnight(DayFromYear(y) + DaysBeforeMonth(y, first + 3) - 1)
  {
    var m := (quarter - 1) * 3 + 3;
    var n := DayFromYear(y) + DaysBeforeMonth(y, first + 3) - 1;
    DayBeforeMonth(y, first, m);
    QuarterEndOfDay(year, quarter, y, m, n);
  }

  lemma QuarterEndOfDay(year: int, quarter: int, y: int, m: int, n: int)
    requires y == FullYearArg(year) && m == (quarter - 1) * 3 + 3 && MakeDay(y, m, 0) == n
    ensures QuarterEnd(year, quarter) == Midnight(n)
  {
    NewDateInts(year, m, 0);
  }

  /** Day 1 of month m of year y, for a month of the year. */
  lemma FirstDayOfMonth(y: int, first: int, m: int)
    requires 0 <= first < 12 && m == first
    ensures MakeDay(y, m, 1) == DayFromYear(y) + DaysBeforeMonth(y, first)
  {
    assert m / 12 == 0 && m % 12 == first;
  }

  /** Day 0 of month m = first + 3: the last day of month first + 2, also
      when m is 12 (day 0 of the next year's January). */
  lemma DayBeforeMonth(y: int, first: int, m: int)
    requires 0 <= first <= 9 && m == first + 3
    ensures MakeDay(y, m, 0) == DayFromYear(y) + DaysBeforeMonth(y, first + 3) - 1
  {
    if m == 12 {
      assert m / 12 == 1 && m % 12 == 0;
      DayFromYearStep(y);
      MonthTable(y, 11);
    } else {
      assert m / 12 == 0 && m % 12 == m;
    }
  }

  /** A day from the first day of month `first` to the last day of month
      first + 2 lies in one of those three months of the same year. */
  lemma DayOfThreeMonths(y: int, first: int, e: int)
    requires 0 <= first && first + 3 <= 12
    requires DayFromYear(y) + DaysBeforeMonth(y, first) <= e < DayFromYear(y) + DaysBeforeMonth(y, first + 3)
    ensures YearFromDay(e) == y && first <= MonthFromDay(e) < first + 3
  {
    DaysBeforeMonthMonotone(y, first + 3, 12);
    MonthTable(y, 0);
    DayFromYearStep(y);
    YearFromDayUnique(e, y);
    var m := MonthFromDay(e);
    if m < first {
      DaysBeforeMonthMonotone(y, m + 1, first);
    } else if m >= first + 3 {
      DaysBeforeMonthMonotone(y, first + 3, m);
    }
  }

  /** Quarter coverage. Every day d of the quarter lies in the week of its
      Monday; that week is in the structure's weeks exactly when its
      majority month is a quarter month, and it always is when all seven of
      its days lie in the quarter. So the only days left out are at most
      three at either end, in a boundary week whose majority belongs to the
      neighbouring quarter. */
  lemma QuarterCoverage(year: int, quarter: int, d: int)
    requires 1 <= quarter <= 4
    requires Day(QuarterStart(year, quarter).ms) <= d <= Day(QuarterEnd(year, quarter).ms)
    ensures WeekAt(MondayOf(d)).start.ms <= Midnight(d).ms <= WeekAt(MondayOf(d)).end.ms
    ensures WeekAt(MondayOf(d)) in WeeksOfQuarter(year, quarter) <==> MajorityMonth(MondayOf(d)) in QuarterMonths(quarter)
    ensures Day(QuarterStart(year, quarter).ms) <= MondayOf(d) && MondayOf(d) + 6 <= Day(QuarterEnd(year, quarter).ms)
            ==> WeekAt(MondayOf(d)) in WeeksOfQuarter(year, quarter)
  {
    QuarterBounds(year, quarter);
    var months := QuarterMonths(quarter);
    var y, first := FullYearArg(year), 3 * (quarter - 1);
    QuarterMonthsFrom(quarter, first);
    CoverageWithin(QuarterStart(year, quarter), QuarterEnd(year, quarter), months, y, first,
      DayFromYear(y) + DaysBeforeMonth(y, first), DayFromYear(y) + DaysBeforeMonth(y, first + 3) - 1, d);
  }

  lemma QuarterMonthsFrom(quarter: int, first: int)
    requires first == 3 * (quarter - 1)
    ensures QuarterMonths(quarter) == [first, first + 1, first + 2]
  {
  }

  /** Quarter coverage for the bounds lo and hi of three whole months of
      year y. */
  lemma CoverageWithin(quarterStart: Date, quarterEnd: Date, months: seq<int>, y: int, first: int, lo: int, hi: int, d: int)
    requires 0 <= first && first + 3 <= 12 && months == [first, first + 1, first + 2]
    requires lo == DayFromYear(y) + DaysBeforeMonth(y, first) && hi == DayFromYear(y) + DaysBeforeMonth(y, first + 3) - 1
    requires quarterStart == Midnight(lo) && quarterEnd == Midnight(hi)
    requires Day(quarterStart.ms) <= d <= Day(quarterEnd.ms)
    ensures WeekAt(MondayOf(d)).start.ms <= Midnight(d).ms <= WeekAt(MondayOf(d)).end.ms
    ensures WeekAt(MondayOf(d)) in CollectedWeeks(quarterStart, quarterEnd, months) <==> MajorityMonth(MondayOf(d)) in months
    ensures Day(quarterStart.ms) <= MondayOf(d) && MondayOf(d) + 6 <= Day(quarterEnd.ms)
            ==> WeekAt(MondayOf(d)) in CollectedWeeks(quarterStart, quarterEnd, months)
  {
    DayOfMidnight(lo);
    DayOfMidnight(hi);
    CollectedDay(quarterStart, quarterEnd, months, d);
    var m := MondayOf(d);
    if lo <= m && m + 6 <= hi {
      WholeWeekInMonths(months, y, first, lo, hi, m);
    }
  }

  /** A week whose seven days lie in three whole months of one year has its
      majority month among them. */
  lemma WholeWeekInMonths(months: seq<int>, y: int, first: int, lo: int, hi: int, m: int)
    requires 0 <= first && first + 3 <= 12 && months == [first, first + 1, first + 2]
    requires lo == DayFromYear(y) + DaysBeforeMonth(y, first) && hi == DayFromYear(y) + DaysBeforeMonth(y, first + 3) - 1
    requires lo <= m && m + 6 <= hi
    ensures MajorityMonth(m) in months
  {
    DayOfThreeMonths(y, first, m);
    forall x | x == m + 6
      ensures first <= MonthFromDay(x) < first + 3
    {
      DayOfThreeMonths(y, first, x);
    }
    var v := MajorityMonth(m);
    assert first <= v < first + 3;
    assert months[v - first] == v;
  }

  /** buildQuarterStructure(2025, 3): the label is "Q3 2025" and the months
      are July, August and September. The first week starts on Monday
      2025-06-30, before 2025-07-01. The last week ends on Sunday
      2025-09-28: the week of Monday 2025-09-29 holds five October days and
      is left to the fourth quarter, so 2025-09-29 and 2025-09-30 lie in no
      week of the structure. */
  lemma Q3Of2025(year: int, quarter: int)
    requires year == 2025 && quarter == 3
    ensures var s := StructureOf(year, quarter, WeeksOfQuarter(year, quarter));
      && s.labelText == "Q3 2025"
      && |s.months| == 3 && s.months[0].month == 6 && s.months[1].month == 7 && s.months[2].month == 8
      && |s.weeks| > 1
      && s.weeks[0].start == Midnight(MakeDay(year, 5, 30))
      && s.weeks[0].start.ms < Midnight(MakeDay(year, 6, 1)).ms
      && s.weeks[|s.weeks| - 1].start == Midnight(MakeDay(year, 8, 22))
      && s.weeks[|s.weeks| - 1].end == Midnight(MakeDay(year, 8, 28))
      && WeekAt(MakeDay(year, 8, 29)) !in s.weeks
  {
    var ws := WeeksOfQuarter(year, quarter);
    StructureMonths(year, quarter, ws);
    Label2025Q3(year, quarter);
    Weeks2025Q3(year, quarter, ws);
  }

  /** The label of the third quarter of 2025. */
  lemma Label2025Q3(year: int, quarter: int)
    requires year == 2025 && quarter == 3
    ensures StructureOf(year, quarter, []).labelText == "Q3 2025"
  {
    assert IntToString(quarter) == "3";
    assert NatToString(year) == NatToString(202) + ['5'];
    assert NatToString(202) == NatToString(20) + ['2'];
    assert NatToString(20) == NatToString(2) + ['0'];
  }

  /** The weeks of the third quarter of 2025. */
  lemma Weeks2025Q3(year: int, quarter: int, ws: seq<WeekInfo>)
    requires year == 2025 && quarter == 3 && ws == WeeksOfQuarter(year, quarter)
    ensures |ws| > 1
    ensures ws[0].start == Midnight(MakeDay(year, 5, 30)) && ws[0].start.ms < Midnight(MakeDay(year, 6, 1)).ms
    ensures ws[|ws| - 1].start == Midnight(MakeDay(year, 8, 22)) && ws[|ws| - 1].end == Midnight(MakeDay(year, 8, 28))
    ensures WeekAt(MakeDay(year, 8, 29)) !in ws
  {
    var a, b, c := MakeDay(year, 5, 30), MakeDay(year, 8, 22), MakeDay(year, 8, 29);
    ThirdQuarterDays(year, a, b, c);
    MondayJune30(year, a);
    WeekDayAhead(a, c);
    MidnightOrder(a, a + 1);
    ThirdQuarterWeeks(year, quarter, ws, a, b, c);
  }

  /** In a year from 100 on whose June 30 is a Monday, the third quarter's
      weeks run from the week of June 30 to the week of September 22; the
      week of September 29 is left to the fourth quarter. */
  lemma ThirdQuarterWeeks(year: int, quarter: int, ws: seq<WeekInfo>, a: int, b: int, c: int)
    requires year >= 100 && quarter == 3 && ws == WeeksOfQuarter(year, quarter)
    requires a == MakeDay(year, 5, 30) && b == MakeDay(year, 8, 22) && c == MakeDay(year, 8, 29)
    requires WeekDay(a) == 1 && WeekDay(c) == 1 && a < b && c == b + 7 && (b - a) % 7 == 0
    ensures |ws| > 1 && ws[0].start == Midnight(a)
    ensures ws[|ws| - 1].start == Midnight(b) && ws[|ws| - 1].end == Midnight(b + 6)
    ensures WeekAt(c) !in ws
  {
    ThirdQuarterBounds(year, quarter);
    ThirdQuarterMajorities(year, a, b, c);
    KeptAtEnds(QuarterStart(year, quarter), QuarterEnd(year, quarter), QuarterMonths(quarter), a, b, c);
  }

  /** June 30, 2025 is a Monday. */
  lemma MondayJune30(year: int, a: int)
    requires year == 2025 && a == MakeDay(year, 5, 30)
    ensures WeekDay(a) == 1
  {
  }

  /** Thirteen weeks on, the week day is the same. */
  lemma WeekDayAhead(a: int, c: int)
    requires c == a + 91
    ensures WeekDay(c) == WeekDay(a)
  {
  }

  /** June 30, September 22 and September 29 of one year lie 84 and 91
      days apart, and the quarter's first day and the Sunday ending the
      week of September 22 are the days after June 30 and September 22. */
  lemma ThirdQuarterDays(year: int, a: int, b: int, c: int)
    requires a == MakeDay(year, 5, 30) && b == MakeDay(year, 8, 22) && c == MakeDay(year, 8, 29)
    ensures b == a + 84 && c == b + 7 && c == a + 91 && a < b && (b - a) % 7 == 0
    ensures a + 1 == MakeDay(year, 6, 1) && b + 6 == MakeDay(year, 8, 28)
  {
  }

  /** The majority months of the weeks starting on June 30 (July), September
      22 (September) and September 29 (October) of any year. */
  lemma ThirdQuarterMajorities(year: int, a: int, b: int, c: int)
    requires a == MakeDay(year, 5, 30) && b == MakeDay(year, 8, 22) && c == MakeDay(year, 8, 29)
    ensures MajorityMonth(a) == 6 && MajorityMonth(b) == 8 && MajorityMonth(c) == 9
    ensures MajorityMonth(a) in [6, 7, 8] && MajorityMonth(b) in [6, 7, 8] && MajorityMonth(c) !in [6, 7, 8]
  {
    MajorityOfLateDay(year, 5, 30, a, 6);
    MajorityOfEarlyDay(year, 8, 22, b);
    MajorityOfLateDay(year, 8, 29, c, 9);
  }

  /** A week starting at least four days before its month's end belongs to
      that month. */
  lemma MajorityOfEarlyDay(year: int, m: int, d: int, n: int)
    requires 0 <= m < 12 && 1 <= d && d + 3 <= DaysInMonth(year, m) && n == MakeDay(year, m, d)
    ensures MajorityMonth(n) == m
  {
    CivilOfMakeDay(n, year, m, d);
  }

  /** A week starting on day d of month m, fewer than four days before the
      month's end, belongs to the following month m2. */
  lemma MajorityOfLateDay(year: int, m: int, d: int, n: int, m2: int)
    requires 0 <= m < 11 && m2 == m + 1 && 1 <= d <= DaysInMonth(year, m) < d + 3 && n == MakeDay(year, m, d)
    ensures MajorityMonth(n) == m2
  {
    CivilOfMakeDay(n, year, m, d);
    MajorityOfShortRest(n);
    SeventhDayMonth(n, year, m, m2);
  }

  /** Six days after day n, when that passes the end of n's month, lie in the
      following month. */
  lemma SeventhDayMonth(n: int, year: int, m: int, m2: int)
    requires 0 <= m < 11 && m2 == m + 1 && YearFromDay(n) == year && MonthFromDay(n) == m
    requires DaysLeftInMonth(n) < 4
    ensures MonthFromDay(n + 6) == m2
  {
    DaysAheadNextMonth(n, 6);
    assert NextMonth(year, m) == (year, m2);
  }

  /** A week starting fewer than four days before its month's end takes the
      month of its seventh day. */
  lemma MajorityOfShortRest(n: int)
    requires DaysLeftInMonth(n) < 4
    ensures MajorityMonth(n) == MonthFromDay(n + 6)
  {
  }


  /** From the year 100 on, the third quarter runs from the day after June 30
      to the day after September 29. */
  lemma ThirdQuarterBounds(year: int, quarter: int)
    requires year >= 100 && quarter == 3
    ensures QuarterStart(year, quarter) == Midnight(MakeDay(year, 5, 30) + 1)
    ensures QuarterEnd(year, quarter) == Midnight(MakeDay(year, 8, 29) + 1)
    ensures QuarterMonths(quarter) == [6, 7, 8]
  {
    QuarterBounds(year, quarter);
    ThirdQuarterDayNumbers(year, FullYearArg(year));
  }

  /** June 30 and September 29 of year y in MakeDay terms. */
  lemma ThirdQuarterDayNumbers(year: int, y: int)
    requires y == year
    ensures DayFromYear(y) + DaysBeforeMonth(y, 6) == MakeDay(year, 5, 30) + 1
    ensures DayFromYear(y) + DaysBeforeMonth(y, 9) - 1 == MakeDay(year, 8, 29) + 1
  {
  }


  /** When the first date is the day after Monday a, the last date the day
      after Monday c, and of the candidates a, ..., b = c - 7, c only c has
      its majority month outside the given months, the weeks run from the
      week of a to the week of b, and c gives no week. */
  lemma KeptAtEnds(first: Date, last: Date, months: seq<int>, a: int, b: int, c: int)
    requires first == Midnight(a + 1) && last == Midnight(c + 1)
    requires WeekDay(a) == 1 && WeekDay(c) == 1 && a < b && c == b + 7 && (b - a) % 7 == 0
    requires MajorityMonth(a) in months && MajorityMonth(b) in months && MajorityMonth(c) !in months
    ensures var ws := CollectedWeeks(first, last, months);
      && |ws| > 1 && ws[0].start == Midnight(a)
      && ws[|ws| - 1].start == Midnight(b) && ws[|ws| - 1].end == Midnight(b + 6)
      && WeekAt(c) !in ws
  {
    MondayBefore(a);
    MondayBefore(c);
    WalkOfKept(KeptWeeks(months), months, a, b, c, CollectedWeeks(first, last, months));
    CollectedWeeksExactly(first, last, months, c);
  }

  /** The same for the walk itself, with the kept weeks behind a function
      parameter. */
  lemma WalkOfKept(keep: int -> seq<WeekInfo>, months: seq<int>, a: int, b: int, c: int, ws: seq<WeekInfo>)
    requires forall n {:trigger KeptWeek(n, months)} :: keep(n) == KeptWeek(n, months)
    requires a < b && c == b + 7 && (b - a) % 7 == 0 && ws == Walk(a, c, keep)
    requires MajorityMonth(a) in months && MajorityMonth(b) in months && MajorityMonth(c) !in months
    ensures |ws| > 1 && ws[0].start == Midnight(a) && ws[|ws| - 1].start == Midnight(b) && ws[|ws| - 1].end == Midnight(b + 6)
  {
    KeptWeekAt(keep, months, a);
    KeptWeekAt(keep, months, b);
    NoWeekAt(keep, months, c);
    WalkEnds(a, b, c, keep);
  }

  /** The Monday on or before the day after Monday m is m. */
  lemma MondayBefore(m: int)
    requires WeekDay(m) == 1
    ensures Day(MondayOnOrBefore(Midnight(m + 1)).ms) == m
  {
    DayOfMidnight(m + 1);
    DayOfMidnight(m);
    assert WeekDay(m + 1) == 2;
  }

  /** A walk whose first and next-to-last days give one element each and
      whose last day gives none starts and ends with those two elements. */
  lemma WalkEnds<T>(cur: int, mid: int, last: int, f: int -> seq<T>)
    requires cur < mid && last == mid + 7 && (mid - cur) % 7 == 0
    requires |f(cur)| == 1 && |f(mid)| == 1 && f(last) == []
    ensures var ws := Walk(cur, last, f); |ws| > 1 && ws[0] == f(cur)[0] && ws[|ws| - 1] == f(mid)[0]
  {
    assert Walk(cur, last, f) == f(cur) + Walk(cur + 7, last, f);
    WalkLast(cur, last, f);
    WalkLast(cur, mid, f);
    assert Walk(cur, last, f) == Walk(cur, mid - 7, f) + f(mid) + [];
  }

  /** A candidate with a majority month among the given months gives its
      Monday-to-Sunday week. */
  lemma KeptWeekAt(keep: int -> seq<WeekInfo>, months: seq<int>, n: int)
    requires forall n {:trigger KeptWeek(n, months)} :: keep(n) == KeptWeek(n, months)
    requires MajorityMonth(n) in months
    ensures |keep(n)| == 1 && keep(n)[0].start == Midnight(n) && keep(n)[0].end == Midnight(n + 6)
  {
    assert keep(n) == KeptWeek(n, months);
  }

  /** A candidate with a majority month outside the given months gives nothing. */
  lemma NoWeekAt(keep: int -> seq<WeekInfo>, months: seq<int>, n: int)
    requires forall n {:trigger KeptWeek(n, months)} :: keep(n) == KeptWeek(n, months)
    requires MajorityMonth(n) !in months
    ensures keep(n) == []
  {
    assert keep(n) == KeptWeek(n, months);
  }
}
