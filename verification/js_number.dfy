/**
 * The part of JavaScript's number semantics the ranking pipeline relies on:
 * integer values and the NaN a failed `parseInt` produces, the arithmetic
 * that carries NaN forward, the text a template literal renders for a
 * number, and `parseInt` itself (section 19.2.5 of ECMA-262).
 */
module JsNumber {

  /** A JavaScript number as the pipeline sees it: an integer, or NaN. */
  datatype Number = NaN | Num(value: int)

  /** `a + b`: NaN as soon as either side is NaN. */
  function Add(a: Number, b: Number): Number {
    if a.Num? && b.Num? then Num(a.value + b.value) else NaN
  }

  /** `+` on numbers, NaN included, is associative ... */
  lemma AddAssociative(a: Number, b: Number, c: Number)
    ensures Add(Add(a, b), c) == Add(a, Add(b, c))
  {
  }

  /** ... and commutative, so the order a sum is taken in does not matter. */
  lemma AddCommutative(a: Number, b: Number)
    ensures Add(a, b) == Add(b, a)
  {
  }

  /** `a - b`: NaN as soon as either side is NaN. */
  function Sub(a: Number, b: Number): Number {
    if a.Num? && b.Num? then Num(a.value - b.value) else NaN
  }

  /** `a * k` for an integer constant `k`. */
  function Times(a: Number, k: int): Number {
    match a
    case NaN => NaN
    case Num(v) => Num(v * k)
  }

  /** `a < k`: every comparison with NaN is false. */
  predicate LessThan(a: Number, k: int) {
    a.Num? && a.value < k
  }

  predicate IsDecimalDigit(c: char) {
    '0' <= c <= '9'
  }

  /** `s` holds at least one decimal digit. */
  predicate HasDigit(s: string) {
    exists k :: 0 <= k < |s| && IsDecimalDigit(s[k])
  }

  /** The value of `c` as a digit of a radix up to 36, or 36 when `c` is no digit at all. */
  function DigitValue(c: char): (v: nat)
    ensures v <= 36
    ensures v < 10 <==> IsDecimalDigit(c)
  {
    if '0' <= c <= '9' then (c as int) - ('0' as int)
    else if 'a' <= c <= 'z' then (c as int) - ('a' as int) + 10
    else if 'A' <= c <= 'Z' then (c as int) - ('A' as int) + 10
    else 36
  }

  function DigitChar(d: nat): (c: char)
    requires d < 10
    ensures IsDecimalDigit(c) && DigitValue(c) == d
  {
    "0123456789"[d]
  }

  /** The decimal digits of `n`, most significant first, without leading zeros. */
  function DecimalString(n: nat): (s: string)
    ensures |s| >= 1
    ensures forall i :: 0 <= i < |s| ==> IsDecimalDigit(s[i])
    decreases n
  {
    if n < 10 then [DigitChar(n)] else DecimalString(n / 10) + [DigitChar(n % 10)]
  }

  /** The text `${v}` renders for an integer `v`. */
  function IntToString(v: int): string {
    if v < 0 then "-" + DecimalString(-v) else DecimalString(v)
  }

  /** The text `${a}` renders for a number. */
  function ToDisplayString(a: Number): string {
    match a
    case NaN => "NaN"
    case Num(v) => IntToString(v)
  }

  /** StrWhiteSpaceChar of ECMA-262: WhiteSpace (with every Zs space) and LineTerminator. */
  predicate IsStrWhiteSpace(c: char) {
    || c == '\t' || c == '\n' || c == '\U{B}' || c == '\U{C}' || c == '\r'
    || c == ' ' || c == '\U{A0}' || c == '\U{1680}'
    || ('\U{2000}' <= c <= '\U{200A}')
    || c == '\U{2028}' || c == '\U{2029}' || c == '\U{202F}' || c == '\U{205F}'
    || c == '\U{3000}' || c == '\U{FEFF}'
  }

  /** `s` without its leading white space. */
  function TrimStart(s: string): (t: string)
    ensures |t| <= |s| && t == s[|s| - |t|..]
    ensures forall i :: 0 <= i < |s| - |t| ==> IsStrWhiteSpace(s[i])
    ensures |t| == 0 || !IsStrWhiteSpace(t[0])
  {
    if |s| > 0 && IsStrWhiteSpace(s[0]) then TrimStart(s[1..]) else s
  }

  /** The longest prefix of `s` made of digits of the given radix. */
  function LeadingDigits(s: string, radix: nat): (d: string)
    ensures d <= s
    ensures forall i :: 0 <= i < |d| ==> DigitValue(d[i]) < radix
    ensures |d| < |s| ==> DigitValue(s[|d|]) >= radix
  {
    if |s| == 0 || DigitValue(s[0]) >= radix then [] else [s[0]] + LeadingDigits(s[1..], radix)
  }

  /** The value of a digit string in the given radix, most significant digit first. */
  function DigitsValue(d: string, radix: nat): nat
    requires forall i :: 0 <= i < |d| ==> DigitValue(d[i]) < radix
  {
    if |d| == 0 then 0 else DigitsValue(d[..|d| - 1], radix) * radix + DigitValue(d[|d| - 1])
  }

  /** Whether `u` (white space and sign already removed) starts with the `0x`/`0X` prefix. */
  predicate HasHexPrefix(u: string) {
    |u| >= 2 && u[0] == '0' && (u[1] == 'x' || u[1] == 'X')
  }

  /**
   * The unsigned part of `parseInt`: radix 16 after a `0x`/`0X` prefix,
   * radix 10 otherwise, then the longest run of digits; NaN when that run is
   * empty.
   */
  function ParseMagnitude(u: string): (r: Number)
    ensures r.Num? ==> |u| > 0 && IsDecimalDigit(u[0])
  {
    var radix := if HasHexPrefix(u) then 16 else 10;
    var digits := LeadingDigits(if HasHexPrefix(u) then u[2..] else u, radix);
    if |digits| == 0 then NaN
    else
      assert HasHexPrefix(u) || digits[0] == u[0];
      Num(DigitsValue(digits, radix))
  }

  /** `-a`. */
  function Negate(a: Number): Number {
    match a
    case NaN => NaN
    case Num(v) => Num(-v)
  }

  /**
   * `parseInt(s)` with no radix argument: skip leading white space, take an
   * optional sign, then read the magnitude.
   */
  function ParseInt(s: string): Number {
    var t := TrimStart(s);
    if |t| > 0 && (t[0] == '-' || t[0] == '+') then
      var m := ParseMagnitude(t[1..]);
      if t[0] == '-' then Negate(m) else m
    else ParseMagnitude(t)
  }

  /** A number comes only out of text that holds a decimal digit. */
  lemma ParseIntNeedsDigit(s: string)
    ensures ParseInt(s).Num? ==> HasDigit(s)
  {
    var t := TrimStart(s);
    assert t == s[|s| - |t|..];
    if |t| > 0 && (t[0] == '-' || t[0] == '+') {
      if ParseMagnitude(t[1..]).Num? {
        assert t[1..][0] == t[1] == s[|s| - |t| + 1];
      }
    } else if ParseMagnitude(t).Num? {
      assert t[0] == s[|s| - |t|];
    }
  }

  /** Only zero is written with a leading `0`. */
  lemma {:induction false} DecimalStringLeadingZero(n: nat)
    ensures DecimalString(n)[0] == '0' <==> n == 0
    decreases n
  {
    if n >= 10 {
      DecimalStringLeadingZero(n / 10);
      assert DecimalString(n)[0] == DecimalString(n / 10)[0];
    }
  }

  /** Reading the digits of `n` back in radix 10 gives `n`. */
  lemma {:induction false} DecimalStringValue(n: nat)
    ensures DigitsValue(DecimalString(n), 10) == n
    decreases n
  {
    if n >= 10 {
      var d := DecimalString(n);
      assert d[..|d| - 1] == DecimalString(n / 10);
      DecimalStringValue(n / 10);
    }
  }

  /** The digit run of `d + rest` is `d` when `rest` does not continue it. */
  lemma {:induction false} LeadingDigitsStop(d: string, rest: string, radix: nat)
    requires forall i :: 0 <= i < |d| ==> DigitValue(d[i]) < radix
    requires |rest| == 0 || DigitValue(rest[0]) >= radix
    ensures LeadingDigits(d + rest, radix) == d
    decreases |d|
  {
    if |d| > 0 {
      assert (d + rest)[1..] == d[1..] + rest;
      LeadingDigitsStop(d[1..], rest, radix);
    } else {
      assert d + rest == rest;
    }
  }

  /** The magnitude read from the digits of `n` is `n`, whatever non-digit follows. */
  lemma ParseMagnitudeOfDecimal(n: nat, rest: string)
    requires |rest| == 0 || (!IsDecimalDigit(rest[0]) && (n != 0 || (rest[0] != 'x' && rest[0] != 'X')))
    ensures ParseMagnitude(DecimalString(n) + rest) == Num(n)
  {
    var d := DecimalString(n);
    var u := d + rest;
    DecimalStringLeadingZero(n);
    assert !HasHexPrefix(u) by {
      if |u| >= 2 && u[0] == '0' {
        assert d[0] == '0';
        assert d == "0";
        assert u[1] == rest[0];
      }
    }
    LeadingDigitsStop(d, rest, 10);
    DecimalStringValue(n);
  }

  /**
   * `parseInt` reads back the integer a template literal rendered, whatever
   * follows it, as long as the next character neither continues the digits
   * nor turns a lone `0` into a hexadecimal prefix.
   */
  lemma ParseIntOfIntToString(v: int, rest: string)
    requires |rest| == 0 || (!IsDecimalDigit(rest[0]) && (v != 0 || (rest[0] != 'x' && rest[0] != 'X')))
    ensures ParseInt(IntToString(v) + rest) == Num(v)
  {
    if v < 0 {
      var n: nat := -v;
      var u := DecimalString(n) + rest;
      assert IntToString(v) + rest == ['-'] + u by { SignedText(v, rest); }
      assert ParseInt(['-'] + u) == Num(v) by {
        ParseMagnitudeOfDecimal(n, rest);
        ParseIntOfNegative(u, n);
      }
    } else {
      ParseIntOfDecimal(v, rest);
    }
  }

  /** The text of a negative integer is a minus sign and the digits of its magnitude. */
  lemma SignedText(v: int, rest: string)
    requires v < 0
    ensures IntToString(v) + rest == ['-'] + (DecimalString(-v) + rest)
  {
  }

  /** `parseInt` of a minus sign and a magnitude is the negated magnitude. */
  lemma ParseIntOfNegative(u: string, n: nat)
    requires ParseMagnitude(u) == Num(n)
    ensures ParseInt(['-'] + u) == Num(0 - n)
  {
    var s := ['-'] + u;
    TrimStartStops(s);
    assert s[1..] == u;
  }

  /** `parseInt` of the digits of `n` and a non-continuing rest is `n`. */
  lemma ParseIntOfDecimal(n: nat, rest: string)
    requires |rest| == 0 || (!IsDecimalDigit(rest[0]) && (n != 0 || (rest[0] != 'x' && rest[0] != 'X')))
    ensures ParseInt(DecimalString(n) + rest) == Num(n)
  {
    var u := DecimalString(n) + rest;
    assert ParseMagnitude(u) == Num(n) by { ParseMagnitudeOfDecimal(n, rest); }
    ParseIntUnsigned(u);
  }

  lemma ParseIntUnsigned(u: string)
    requires |u| > 0 && IsDecimalDigit(u[0])
    ensures ParseInt(u) == ParseMagnitude(u)
  {
    TrimStartStops(u);
  }

  lemma TrimStartStops(s: string)
    requires |s| > 0 && (s[0] == '-' || IsDecimalDigit(s[0]))
    ensures TrimStart(s) == s
  {
    assert '-' <= s[0] <= '9';
    assert !IsStrWhiteSpace(s[0]);
  }

  /** Text that starts with neither white space, a sign nor a digit is not a number. */
  lemma ParseIntNaN(s: string)
    requires |s| == 0 || (!IsStrWhiteSpace(s[0]) && s[0] != '+' && s[0] != '-' && !IsDecimalDigit(s[0]))
    ensures ParseInt(s) == NaN
  {
    if |s| > 0 {
      assert TrimStart(s) == s;
    }
  }
}
