/** Java's 32-bit `int` as the arrival-time code uses it: its range and
    wrap-around, division and remainder that truncate toward zero, and the
    decimal conversions `Integer.toString` (also used by string
    concatenation) and `Integer.parseInt` in radix 10. */
module JavaInt {
  import opened Results

  const MinInt32: int := -0x8000_0000
  const MaxInt32: int := 0x7FFF_FFFF
  const Modulus32: int := 0x1_0000_0000

  type Int32 = x: int | MinInt32 <= x <= MaxInt32

  /** Two's-complement wrap-around of a mathematical result into `int`. */
  function Wrap32(x: int): (r: Int32)
    ensures MinInt32 <= x <= MaxInt32 ==> r == x
    ensures (x - r) % Modulus32 == 0
  {
    (x - MinInt32) % Modulus32 + MinInt32
  }

  /** Results that wrap to the same value add up to results that do. */
  lemma MultiplesAdd(x: int, y: int)
    requires x % Modulus32 == 0 && y % Modulus32 == 0
    ensures (x + y) % Modulus32 == 0
  {
    var i, j := x / Modulus32, y / Modulus32;
    assert x == Modulus32 * i && y == Modulus32 * j;
    assert x + y == Modulus32 * (i + j);
  }

  /** Java's `a / b` for a positive divisor: the quotient truncated toward zero. */
  function Div(a: int, b: int): (q: int)
    requires b > 0
  {
    if a >= 0 then a / b else -((-a) / b)
  }

  /** Java's `a % b` for a positive divisor: it takes the sign of `a`. */
  function Rem(a: int, b: int): (r: int)
    requires b > 0
    ensures a == Div(a, b) * b + r
    ensures a >= 0 ==> 0 <= r < b
    ensures a < 0 ==> -b < r <= 0
  {
    if a >= 0 then a % b else -((-a) % b)
  }

  predicate IsDigit(c: char) {
    '0' <= c <= '9'
  }

  predicate AllDigits(s: string) {
    forall i :: 0 <= i < |s| ==> IsDigit(s[i])
  }

  function DigitChar(d: nat): (c: char)
    requires d < 10
    ensures IsDigit(c) && c as int - '0' as int == d
  {
    ('0' as int + d) as char
  }

  function Pow10(n: nat): (p: nat)
    ensures p >= 1
  {
    if n == 0 then 1 else 10 * Pow10(n - 1)
  }

  /** The number a string of decimal digits denotes (leading zeros allowed). */
  function DigitsValue(s: string): (v: nat)
    requires AllDigits(s)
    ensures v < Pow10(|s|)
    decreases |s|
  {
    if s == [] then 0 else 10 * DigitsValue(s[..|s| - 1]) + (s[|s| - 1] as int - '0' as int)
  }

  lemma OneDigitValue(s: string)
    requires |s| == 1 && AllDigits(s)
    ensures DigitsValue(s) == s[0] as int - '0' as int
  {
    assert s[..0] == [];
  }

  lemma TwoDigitsValue(s: string)
    requires |s| == 2 && AllDigits(s)
    ensures DigitsValue(s) == 10 * (s[0] as int - '0' as int) + (s[1] as int - '0' as int)
  {
    OneDigitValue(s[..1]);
  }

  /** The shortest decimal spelling of `n`, without sign. */
  function NatToString(n: nat): (s: string)
    ensures 1 <= |s| && AllDigits(s)
    ensures n >= 10 ==> s[0] != '0'
    decreases n
  {
    if n < 10 then [DigitChar(n)] else NatToString(n / 10) + [DigitChar(n % 10)]
  }

  lemma {:induction false} NatToStringValue(n: nat)
    ensures DigitsValue(NatToString(n)) == n
    decreases n
  {
    if n >= 10 {
      NatToStringValue(n / 10);
      var s := NatToString(n);
      assert s[..|s| - 1] == NatToString(n / 10);
    }
  }

  /** Java's `Integer.toString(i)`: a minus sign for negatives, then the digits. */
  function ToString(i: int): (s: string)
  {
    if i < 0 then "-" + NatToString(-i) else NatToString(i)
  }

  /** Java's `Integer.parseInt(s)` in radix 10 over ASCII digits: an optional
      leading `-` or `+`, at least one digit, and a value that fits in `int`;
      anything else throws `NumberFormatException`, modelled as `None`. */
  function ParseInt(s: string): (r: Option<Int32>)
    ensures |s| == 0 ==> r == None
    ensures |s| > 0 && !IsDigit(s[0]) && s[0] != '-' && s[0] != '+' ==> r == None
    ensures AllDigits(s) && 1 <= |s| && DigitsValue(s) <= MaxInt32 ==> r == Some(DigitsValue(s))
  {
    if |s| == 0 then None
    else
      var signed := s[0] == '-' || s[0] == '+';
      var body := if signed then s[1..] else s;
      if |body| == 0 || !AllDigits(body) then None
      else
        var v: int := if s[0] == '-' then 0 - DigitsValue(body) as int else DigitsValue(body);
        if MinInt32 <= v <= MaxInt32 then Some(v) else None
  }

  /** `Integer.parseInt` reads back what `Integer.toString` writes. */
  lemma ParseIntOfToString(i: Int32)
    ensures ParseInt(ToString(i)) == Some(i)
  {
    if i < 0 {
      var n: nat := -(i as int);
      NatToStringValue(n);
      assert ToString(i)[1..] == NatToString(n);
    } else {
      NatToStringValue(i);
    }
  }

  /** `Integer.toString` never writes a comma. */
  lemma ToStringHasNoComma(i: int)
    ensures ',' !in ToString(i)
  {
    var s := ToString(i);
    if i < 0 {
      assert forall k :: 1 <= k < |s| ==> s[k] == NatToString(-i)[k - 1];
    }
  }
}
