/** JavaScript numbers and loosely typed JSON values, as far as the planner
    inspects them: the Number() conversion of strings (ECMA-262 section
    7.1.4.1.1, StringToNumber), truthiness, `??`, Math.max and the
    integer truncation that Date setters apply (ToIntegerOrInfinity).
    Finite numbers are exact reals: IEEE-754 rounding is not modelled. */
module JsNumber {
  import opened JsString

  datatype Number = NaN | PosInf | NegInf | Finite(r: real)

  function FromInt(i: int): (n: Number)
    ensures n.Finite?
  {
    Finite(i as real)
  }

  /** ToIntegerOrInfinity on a finite value: truncation toward zero. */
  function ToInteger(r: real): (i: int)
    ensures r >= 0.0 ==> i == r.Floor
    ensures r < 0.0 ==> i == -((-r).Floor)
  {
    if r >= 0.0 then r.Floor else -((-r).Floor)
  }

  function Negate(a: Number): Number {
    match a
    case NaN => NaN
    case PosInf => NegInf
    case NegInf => PosInf
    case Finite(r) => Finite(-r)
  }

  /** The `+` operator on two numbers. */
  function Add(a: Number, b: Number): (c: Number)
    ensures (a.Finite? && b.Finite?) <==> c.Finite?
    ensures a.Finite? && b.Finite? ==> c.r == a.r + b.r
  {
    if a.NaN? || b.NaN? then NaN
    else if a.PosInf? then (if b.NegInf? then NaN else PosInf)
    else if a.NegInf? then (if b.PosInf? then NaN else NegInf)
    else if b.PosInf? || b.NegInf? then b
    else Finite(a.r + b.r)
  }

  /** Math.max of two numbers (NaN if either is NaN). */
  function Max(a: Number, b: Number): (c: Number)
    ensures a.Finite? && b.Finite? ==> c.Finite? && c.r >= a.r && c.r >= b.r && (c.r == a.r || c.r == b.r)
  {
    if a.NaN? || b.NaN? then NaN
    else if a.PosInf? || b.PosInf? then PosInf
    else if a.NegInf? then b
    else if b.NegInf? then a
    else if a.r >= b.r then a else b
  }

  predicate IsFiniteNumber(a: Number) {
    a.Finite?
  }

  /** The relational `<` on numbers: false whenever NaN is involved. */
  predicate Less(a: Number, b: Number) {
    match (a, b)
    case (NaN, _) => false
    case (_, NaN) => false
    case (NegInf, NegInf) => false
    case (NegInf, _) => true
    case (_, PosInf) => !a.PosInf?
    case (PosInf, _) => false
    case (_, NegInf) => false
    case (Finite(x), Finite(y)) => x < y
  }

  /** ToBoolean of a number: false for 0 and NaN. */
  predicate NumberTruthy(a: Number) {
    !a.NaN? && a != Finite(0.0)
  }

  /** A JSON-ish value as it arrives from storage, a request body or the URL. */
  datatype Value = Undefined | Null | Bool(b: bool) | Num(n: Number) | Str(s: string)

  predicate IsNullish(v: Value) {
    v.Undefined? || v.Null?
  }

  /** ToBoolean of a value. */
  predicate Truthy(v: Value) {
    match v
    case Undefined => false
    case Null => false
    case Bool(b) => b
    case Num(n) => NumberTruthy(n)
    case Str(s) => s != ""
  }

  /** The Number() conversion of a value. */
  function ToNumber(v: Value): Number {
    match v
    case Undefined => NaN
    case Null => Finite(0.0)
    case Bool(b) => Finite(if b then 1.0 else 0.0)
    case Num(n) => n
    case Str(s) => StringToNumber(s)
  }

  /** `n || 0` on a number: NaN and 0 both become 0. */
  function OrZero(n: Number): (r: Number)
    ensures r != NaN && (n.Finite? ==> r.Finite?)
  {
    if NumberTruthy(n) then n else Finite(0.0)
  }

  function RadixDigit(c: char): int {
    if '0' <= c <= '9' then c as int - '0' as int
    else if 'a' <= c <= 'z' then c as int - 'a' as int + 10
    else if 'A' <= c <= 'Z' then c as int - 'A' as int + 10
    else 36
  }

  predicate AllRadixDigits(s: string, radix: int) {
    forall i :: 0 <= i < |s| ==> RadixDigit(s[i]) < radix
  }

  function RadixValue(s: string, radix: nat): (n: nat)
    requires AllRadixDigits(s, radix)
  {
    if s == [] then 0 else RadixValue(s[..|s| - 1], radix) * radix + RadixDigit(s[|s| - 1])
  }

  lemma {:induction false} RadixValueDecimal(s: string)
    requires AllDigits(s)
    ensures AllRadixDigits(s, 10) && RadixValue(s, 10) == DigitsValue(s)
  {
    if s != [] {
      RadixValueDecimal(s[..|s| - 1]);
    }
  }

  function IndexOfAny(s: string, cs: set<char>): (i: nat)
    ensures i <= |s|
    ensures i < |s| ==> s[i] in cs
    ensures forall j :: 0 <= j < i ==> s[j] !in cs
  {
    if s == [] then 0 else if s[0] in cs then 0 else 1 + IndexOfAny(s[1..], cs)
  }

  /** StrUnsignedDecimalLiteral: "Infinity", or a mantissa with an optional exponent. */
  function UnsignedDecimal(t: string): Number {
    if t == "Infinity" then PosInf
    else
      var e := IndexOfAny(t, {'e', 'E'});
      if e < |t| then WithExponent(Mantissa(t[..e]), t[e + 1..]) else Mantissa(t)
  }

  /** Digits with an optional '.' and fraction digits; at least one digit
      overall. The value is the digits read as one integer, scaled down by
      the number of fraction digits. */
  function Mantissa(m: string): Number {
    var dot := IndexOfAny(m, {'.'});
    var whole := m[..dot];
    var frac := if dot < |m| then m[dot + 1..] else "";
    if !AllDigits(whole + frac) || |whole + frac| == 0 then NaN
    else Finite(Scale(DigitsValue(whole + frac) as real, -|frac|))
  }

  /** r * 10^k. */
  function Scale(r: real, k: int): real
    decreases if k >= 0 then k else -k
  {
    if k == 0 then r else if k > 0 then Scale(r, k - 1) * 10.0 else Scale(r, k + 1) / 10.0
  }

  function WithExponent(m: Number, x: string): Number {
    if !m.Finite? || !IsSignedInteger(x) then NaN
    else Finite(Scale(m.r, SignedIntegerValue(x)))
  }

  predicate IsSignedInteger(s: string) {
    if |s| > 0 && (s[0] == '+' || s[0] == '-') then |s| > 1 && AllDigits(s[1..])
    else |s| > 0 && AllDigits(s)
  }

  function SignedIntegerValue(s: string): int
    requires IsSignedInteger(s)
  {
    if s[0] == '-' then 0 - DigitsValue(s[1..]) as int
    else if s[0] == '+' then DigitsValue(s[1..])
    else DigitsValue(s)
  }

  /** StringToNumber (ECMA-262 section 7.1.4.1.1): white space is trimmed,
      the empty text is 0, and anything that is not a numeric literal is NaN. */
  function StringToNumber(s: string): Number {
    var t := Trim(s);
    if t == "" then Finite(0.0)
    else if |t| > 2 && t[0] == '0' && t[1] in {'x', 'X', 'o', 'O', 'b', 'B'} then
      var radix := if t[1] in {'x', 'X'} then 16 else if t[1] in {'o', 'O'} then 8 else 2;
      if AllRadixDigits(t[2..], radix) then FromInt(RadixValue(t[2..], radix)) else NaN
    else if t[0] == '+' then UnsignedDecimal(t[1..])
    else if t[0] == '-' then Negate(UnsignedDecimal(t[1..]))
    else UnsignedDecimal(t)
  }

  lemma {:induction false} IndexOfAnyAbsent(s: string, cs: set<char>)
    requires forall i :: 0 <= i < |s| ==> s[i] !in cs
    ensures IndexOfAny(s, cs) == |s|
  {
    if s != [] {
      IndexOfAnyAbsent(s[1..], cs);
    }
  }

  lemma MantissaDigits(t: string)
    requires |t| >= 1 && AllDigits(t)
    ensures Mantissa(t) == FromInt(DigitsValue(t))
  {
    IndexOfAnyAbsent(t, {'.'});
    assert t[..|t|] == t;
    assert t + "" == t;
  }

  /** Without sign, exponent or fraction, a digit string reads as its decimal value. */
  lemma UnsignedDecimalDigits(t: string)
    requires |t| >= 1 && AllDigits(t)
    ensures UnsignedDecimal(t) == FromInt(DigitsValue(t))
  {
    assert t[0] != 'I';
    IndexOfAnyAbsent(t, {'e', 'E'});
    MantissaDigits(t);
  }

  /** Text with no surrounding white space, no sign and no radix prefix is
      read as an unsigned decimal literal. */
  lemma PlainDecimalText(s: string)
    requires |s| >= 1 && Trim(s) == s && s[0] != '+' && s[0] != '-'
    requires !(|s| > 2 && s[0] == '0' && s[1] in {'x', 'X', 'o', 'O', 'b', 'B'})
    ensures StringToNumber(s) == UnsignedDecimal(s)
  {
  }

  /** Number() reads back any all-digit text, leading zeros included. */
  lemma DigitsNumber(s: string)
    requires |s| >= 1 && AllDigits(s)
    ensures StringToNumber(s) == FromInt(DigitsValue(s))
  {
    TrimNoop(s);
    assert IsDigit(s[0]);
    if |s| > 2 {
      assert IsDigit(s[1]);
    }
    PlainDecimalText(s);
    UnsignedDecimalDigits(s);
  }

  /** Number() reads back the decimal text of every natural number. */
  lemma NatToStringNumber(n: nat)
    ensures StringToNumber(NatToString(n)) == FromInt(n)
  {
    NatToStringValue(n);
    DigitsNumber(NatToString(n));
  }

  /** Text that starts with a letter other than the start of "Infinity" (or
      the 'e' of an empty mantissa) reads as NaN. */
  lemma NonNumericText(s: string)
    requires |s| >= 1 && !IsWhiteSpace(s[0]) && !IsWhiteSpace(s[|s| - 1])
    requires !IsDigit(s[0]) && s[0] != '+' && s[0] != '-' && s[0] != '.' && s[0] != 'I'
    ensures StringToNumber(s) == NaN
  {
    TrimNoop(s);
    var e := IndexOfAny(s, {'e', 'E'});
    if e > 0 {
      MantissaNotDigit(s[..e]);
    } else {
      MantissaEmpty();
    }
  }

  lemma MantissaEmpty()
    ensures Mantissa("") == NaN
  {
  }

  /** A mantissa whose first character is neither a digit nor '.' is NaN. */
  lemma MantissaNotDigit(m: string)
    requires |m| >= 1 && !IsDigit(m[0]) && m[0] != '.'
    ensures Mantissa(m) == NaN
  {
    var dot := IndexOfAny(m, {'.'});
    assert dot > 0;
    var frac := if dot < |m| then m[dot + 1..] else "";
    assert (m[..dot] + frac)[0] == m[0];
  }
}
