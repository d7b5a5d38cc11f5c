/** Decimal numerals as the standard library's `str::parse` reads them for
    `u32` and `i32`, and their rendering, used by every parser of the model. */
module Numbers {
  import opened Wrappers

  const U32_MAX: nat := 0xFFFF_FFFF
  const I32_MIN: int := -0x8000_0000
  const I32_MAX: int := 0x7FFF_FFFF

  predicate IsDigit(c: char) {
    '0' <= c <= '9'
  }

  predicate AllDigits(s: string) {
    forall i :: 0 <= i < |s| ==> IsDigit(s[i])
  }

  function DigitValue(c: char): (d: nat)
    requires IsDigit(c)
    ensures d < 10
  {
    c as int - '0' as int
  }

  function DigitChar(d: nat): (c: char)
    requires d < 10
    ensures IsDigit(c) && DigitValue(c) == d
  {
    ('0' as int + d) as char
  }

  /** Value of a string of decimal digits, most significant first. */
  function DigitsValue(s: string): nat
    requires AllDigits(s)
  {
    if |s| == 0 then 0 else 10 * DigitsValue(s[..|s| - 1]) + DigitValue(s[|s| - 1])
  }

  /** Shortest decimal numeral of `n`. */
  function Decimal(n: nat): (s: string)
    ensures |s| > 0
  {
    if n < 10 then [DigitChar(n)] else Decimal(n / 10) + [DigitChar(n % 10)]
  }

  /** Numeral of a signed value: a leading '-' for negative values. */
  function SignedDecimal(n: int): (s: string)
    ensures |s| > 0
  {
    if n < 0 then "-" + Decimal(-n) else Decimal(n)
  }

  /** `s.parse::<u32>()`: an optional '+', then one or more digits, within range.
      A lone sign is rejected, and '-' is never accepted for an unsigned type. */
  function ParseU32(s: string): (r: Option<nat>)
    ensures r.Some? ==> r.value <= U32_MAX
    ensures r.Some? ==> |s| > 0 && (s[0] == '+' || IsDigit(s[0]))
    ensures AllDigits(s) && |s| > 0 && DigitsValue(s) <= U32_MAX ==> r == Some(DigitsValue(s))
  {
    if |s| == 0 || s == "+" || s == "-" then None
    else
      var digits := if s[0] == '+' then s[1..] else s;
      if AllDigits(digits) && DigitsValue(digits) <= U32_MAX then Some(DigitsValue(digits)) else None
  }

  /** `s.parse::<i32>()`: an optional '+' or '-', then one or more digits, within range. */
  function ParseI32(s: string): (r: Option<int>)
    ensures r.Some? ==> I32_MIN <= r.value <= I32_MAX
    ensures AllDigits(s) && |s| > 0 && DigitsValue(s) <= I32_MAX ==> r == Some(DigitsValue(s))
    ensures |s| > 1 && s[0] == '-' && AllDigits(s[1..]) && DigitsValue(s[1..]) <= -I32_MIN
            ==> r == Some(-(DigitsValue(s[1..]) as int))
  {
    if |s| == 0 || s == "+" || s == "-" then None
    else
      var negative := s[0] == '-';
      var digits := if s[0] == '+' || s[0] == '-' then s[1..] else s;
      if !AllDigits(digits) then None
      else
        var v: int := if negative then -(DigitsValue(digits) as int) else DigitsValue(digits);
        if I32_MIN <= v <= I32_MAX then Some(v) else None
  }

  lemma {:induction false} DecimalDigits(n: nat)
    ensures AllDigits(Decimal(n))
    ensures DigitsValue(Decimal(n)) == n
  {
    if n >= 10 {
      DecimalDigits(n / 10);
      var s := Decimal(n);
      assert s[..|s| - 1] == Decimal(n / 10);
    }
  }

  /** Rendering then parsing a `u32` gives it back. */
  lemma ParseU32Decimal(n: nat)
    requires n <= U32_MAX
    ensures ParseU32(Decimal(n)) == Some(n)
  {
    DecimalDigits(n);
  }

  /** Rendering then parsing an `i32` gives it back. */
  lemma ParseI32SignedDecimal(n: int)
    requires I32_MIN <= n <= I32_MAX
    ensures ParseI32(SignedDecimal(n)) == Some(n)
  {
    if n < 0 {
      DecimalDigits(-n);
      assert SignedDecimal(n)[1..] == Decimal(-n);
    } else {
      DecimalDigits(n);
    }
  }
}
