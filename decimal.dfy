/**
  Decimal text of integers: Python's `str(int)`, Rust's `to_string`, and
  Rust's `i32::from_str` (what `"…".parse::<i32>()` runs).
*/
module Decimal {
  import opened Wrappers

  const I32_MIN: int := -0x8000_0000
  const I32_MAX: int := 0x7fff_ffff

  predicate IsDigit(c: char) { '0' <= c <= '9' }

  predicate AllDigits(s: string) { forall i :: 0 <= i < |s| ==> IsDigit(s[i]) }

  function DigitValue(c: char): (d: nat)
    requires IsDigit(c)
    ensures d < 10
  {
    c as int - '0' as int
  }

  function DigitChar(d: nat): (c: char)
    requires d < 10
    ensures IsDigit(c) && DigitValue(c) == d
  {
    ('0' as int + d) as char
  }

  /** The decimal digits of a natural number, most significant first, no leading zeros. */
  function ShowNat(n: nat): (s: string)
    ensures |s| > 0 && AllDigits(s)
    ensures |s| > 1 ==> s[0] != '0'
  {
    if n < 10 then [DigitChar(n)] else ShowNat(n / 10) + [DigitChar(n % 10)]
  }

  /**
    `str(n)` / `n.to_string()`: a '-' exactly for negative numbers, then the
    digits of the magnitude (that they read back as `n` is `ParseI32OfShow`).
  */
  function Show(n: int): (s: string)
    ensures |s| > 0 && (s[0] == '-' <==> n < 0)
    ensures n >= 0 ==> AllDigits(s)
    ensures n < 0 ==> AllDigits(s[1..])
  {
    if n < 0 then "-" + ShowNat(-n) else ShowNat(n)
  }

  /** The value of a string of decimal digits (leading zeros allowed). */
  function DigitsValue(s: string): nat
    requires AllDigits(s)
  {
    if s == [] then 0 else DigitsValue(s[..|s| - 1]) * 10 + DigitValue(s[|s| - 1])
  }

  /** `s` without its leading sign, if it has one. */
  function Unsigned(s: string): (u: string)
    ensures |u| <= |s|
  {
    if |s| > 0 && (s[0] == '+' || s[0] == '-') then s[1..] else s
  }

  /**
    The value `i32::from_str` reads, before its range check: an optional
    '+' or '-' followed by at least one ASCII digit, nothing else (so a
    lone sign is rejected); the value is negative only after a '-'.
  */
  function ParseInt(s: string): (r: Option<int>)
    ensures r.Some? <==> |Unsigned(s)| > 0 && AllDigits(Unsigned(s))
    ensures r.Some? ==> r.value == (if s[0] == '-' then -1 else 1) * DigitsValue(Unsigned(s))
    ensures r.Some? && r.value < 0 ==> s[0] == '-'
  {
    if |s| > 0 && (s[0] == '+' || s[0] == '-') then
      var digits := s[1..];
      if |digits| > 0 && AllDigits(digits) then
        var v: int := DigitsValue(digits);
        Some(if s[0] == '-' then -v else v)
      else None
    else if |s| > 0 && AllDigits(s) then Some(DigitsValue(s))
    else None
  }

  /** `s.parse::<i32>()`: `Err` (here `None`) on a malformed or out-of-range token. */
  function ParseI32(s: string): (r: Option<int>)
    ensures r.Some? ==> I32_MIN <= r.value <= I32_MAX
  {
    match ParseInt(s)
    case Some(n) => if I32_MIN <= n <= I32_MAX then Some(n) else None
    case None => None
  }

  lemma {:induction false} DigitsValueOfShowNat(n: nat)
    ensures DigitsValue(ShowNat(n)) == n
  {
    if n >= 10 {
      var s := ShowNat(n);
      assert s[..|s| - 1] == ShowNat(n / 10);
      DigitsValueOfShowNat(n / 10);
    }
  }

  /** The text of a natural number reads back as that number. */
  lemma ParseIntOfShowNat(m: nat)
    ensures ParseInt(ShowNat(m)) == Some(m)
  {
    var s := ShowNat(m);
    assert IsDigit(s[0]);
    DigitsValueOfShowNat(m);
  }

  /** The text of a negative number reads back as that number. */
  lemma ParseIntOfNegative(m: nat)
    requires m > 0
    ensures ParseInt("-" + ShowNat(m)) == Some(-(m as int))
  {
    var s := "-" + ShowNat(m);
    assert s[1..] == ShowNat(m);
    DigitsValueOfShowNat(m);
  }

  /** Round trip: the decimal text of any `i32` parses back to that number. */
  lemma ParseI32OfShow(n: int)
    requires I32_MIN <= n <= I32_MAX
    ensures ParseI32(Show(n)) == Some(n)
  {
    if n < 0 {
      ParseIntOfNegative(-n);
    } else {
      ParseIntOfShowNat(n);
    }
  }

  /** A token that contains a character other than a digit (past the sign) never parses. */
  lemma ParseI32RejectsNonDigit(s: string, k: nat)
    requires 0 < k < |s| && !IsDigit(s[k])
    ensures ParseI32(s) == None
  {
    if s[0] == '+' || s[0] == '-' {
      assert s[1..][k - 1] == s[k];
    }
  }

  /** Different integers have different decimal text (so `str` keys never collide). */
  lemma {:induction false} ShowNatInjective(a: nat, b: nat)
    requires ShowNat(a) == ShowNat(b)
    ensures a == b
  {
    DigitsValueOfShowNat(a);
    DigitsValueOfShowNat(b);
  }

  lemma ShowInjective(a: int, b: int)
    requires Show(a) == Show(b)
    ensures a == b
  {
    if a < 0 && b < 0 {
      assert Show(a)[1..] == ShowNat(-a);
      assert Show(b)[1..] == ShowNat(-b);
      ShowNatInjective(-a, -b);
    } else if a >= 0 && b >= 0 {
      ShowNatInjective(a, b);
    }
  }
}
