/**
 * Decimal numerals: the digit strings that Python's `int()` turns into a
 * non-negative integer and that `str()` / an f-string writes for one.
 */
module Decimal {

  predicate IsDigit(c: char) {
    '0' <= c <= '9'
  }

  predicate IsDigits(s: string) {
    forall i :: 0 <= i < |s| ==> IsDigit(s[i])
  }

  /** A non-empty run of decimal digits: the only field syntax modelled for `int()`. */
  predicate IsNumeral(s: string) {
    |s| > 0 && IsDigits(s)
  }

  function DigitValue(c: char): nat
    requires IsDigit(c)
  {
    c as int - '0' as int
  }

  function DigitChar(d: nat): (c: char)
    requires d < 10
    ensures IsDigit(c) && DigitValue(c) == d
  {
    ('0' as int + d) as char
  }

  /** The number a digit string denotes, most significant digit first. */
  function Value(s: string): nat
    requires IsDigits(s)
  {
    if |s| == 0 then 0 else 10 * Value(s[..|s| - 1]) + DigitValue(s[|s| - 1])
  }

  /** The decimal rendering of `n`, as `str(n)` writes it: digits only, no leading zero. */
  function Show(n: nat): (s: string)
    ensures IsNumeral(s)
    ensures Value(s) == n
    ensures s[0] == '0' ==> n == 0 && |s| == 1
  {
    if n < 10 then
      [DigitChar(n)]
    else
      var front := Show(n / 10);
      var s := front + [DigitChar(n % 10)];
      assert s[..|s| - 1] == front;
      s
  }

  /** A numeral as `str` writes it: no leading zero, except for "0" itself. */
  predicate IsCanonical(s: string) {
    IsNumeral(s) && (s[0] != '0' || |s| == 1)
  }

  /**
   * Reading then rendering gives back a canonical numeral, so with `Show`'s
   * own contract rendering and reading are inverse on canonical numerals.
   */
  lemma {:induction false} ShowValue(s: string)
    requires IsCanonical(s)
    ensures Show(Value(s)) == s
    decreases |s|
  {
    var last := s[|s| - 1];
    if |s| == 1 {
      assert s[..0] == [];
      assert DigitChar(DigitValue(last)) == last;
    } else {
      var front := s[..|s| - 1];
      assert front[0] == s[0];
      ShowValue(front);
      LeadingDigitValue(front);
      var n := Value(s);
      assert n == 10 * Value(front) + DigitValue(last);
      assert n / 10 == Value(front) && n % 10 == DigitValue(last);
      assert DigitChar(DigitValue(last)) == last;
      assert s == front + [last];
    }
  }

  /** A numeral with a non-zero leading digit is at least 1. */
  lemma {:induction false} LeadingDigitValue(s: string)
    requires IsNumeral(s) && s[0] != '0'
    ensures Value(s) >= 1
    decreases |s|
  {
    if |s| > 1 {
      var front := s[..|s| - 1];
      assert front[0] == s[0];
      LeadingDigitValue(front);
    } else {
      assert s[..0] == [];
    }
  }

  /** A two-digit numeral is ten times its first digit plus its second. */
  lemma {:induction false} ValueTwoDigits(s: string)
    requires |s| == 2 && IsDigits(s)
    ensures Value(s) == 10 * DigitValue(s[0]) + DigitValue(s[1])
  {
    var first := s[..1];
    assert first[0] == s[0] && first[..0] == [];
    assert Value(first) == DigitValue(s[0]);
    assert s[..|s| - 1] == first;
  }

  /** Distinct numbers have distinct renderings. */
  lemma {:induction false} ShowInjective(a: nat, b: nat)
    ensures Show(a) == Show(b) ==> a == b
  {
  }

  /** A rendering contains no character other than a digit, so no separator. */
  lemma {:induction false} DigitsExclude(s: string, c: char)
    requires IsDigits(s) && !IsDigit(c)
    ensures c !in s
  {
  }
}
