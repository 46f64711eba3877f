/** Unsigned decimal numerals: the digit strings the timecode parser
    accepts, Python's `str(n)` for a natural number, and the `{n:02}`
    format specification the chapter timestamp uses. */
module Decimal {

  predicate IsDigit(c: char) {
    '0' <= c <= '9'
  }

  predicate AllDigits(s: string) {
    forall i :: 0 <= i < |s| ==> IsDigit(s[i])
  }

  /** A non-empty run of ASCII digits. */
  predicate IsNumeral(s: string) {
    |s| > 0 && AllDigits(s)
  }

  /** A digit string holds no character that is not a digit. */
  lemma NumeralHasNo(s: string, c: char)
    requires AllDigits(s) && !IsDigit(c)
    ensures c !in s
  {
  }

  function DigitValue(c: char): (d: nat)
    requires IsDigit(c)
    ensures d < 10
  {
    (c as int) - ('0' as int)
  }

  function DigitChar(d: nat): (c: char)
    requires d < 10
    ensures IsDigit(c) && DigitValue(c) == d
  {
    ('0' as int + d) as char
  }

  /** The number a digit string denotes (leading zeros allowed, as in
      `int("007")`); the empty string denotes 0. */
  function Value(s: string): nat
    requires AllDigits(s)
  {
    if s == [] then 0 else Value(s[..|s| - 1]) * 10 + DigitValue(s[|s| - 1])
  }

  /** A leading zero does not change the value. */
  lemma {:induction false} ValueLeadingZero(s: string)
    requires AllDigits(s)
    ensures AllDigits("0" + s) && Value("0" + s) == Value(s)
  {
    var z := "0" + s;
    if s != [] {
      assert z[..|z| - 1] == "0" + s[..|s| - 1];
      ValueLeadingZero(s[..|s| - 1]);
    }
  }

  /** `str(n)`: the shortest numeral that denotes `n`. */
  function Str(n: nat): (s: string)
    ensures IsNumeral(s) && Value(s) == n
    ensures s[0] == '0' ==> s == "0"
    ensures |s| == 1 <==> n < 10
  {
    if n < 10 then [DigitChar(n)]
    else
      var s := Str(n / 10) + [DigitChar(n % 10)];
      assert s[..|s| - 1] == Str(n / 10);
      s
  }

  /** `f"{n:02}"` for `n >= 0`: the decimal numeral of `n`, left-filled with
      zeros to a width of two; numbers of three or more digits keep their
      full width. */
  function Pad2(n: nat): (s: string)
    ensures IsNumeral(s) && Value(s) == n
    ensures |s| >= 2
    ensures |s| > 2 ==> s[0] != '0'
  {
    var d := Str(n);
    if |d| < 2 then
      ValueLeadingZero(d);
      "0" + d
    else d
  }

  /** The padded field is exactly two characters wide iff `n < 100`; past
      that it is as wide as `str(n)`. */
  lemma Pad2Width(n: nat)
    ensures |Pad2(n)| == 2 <==> n < 100
    ensures n >= 10 ==> Pad2(n) == Str(n)
  {
    StrWidth(n);
  }

  /** `str(n)` has at most two digits exactly when `n < 100`. */
  lemma {:induction false} StrWidth(n: nat)
    ensures |Str(n)| <= 2 <==> n < 100
  {
    if n >= 10 {
      StrWidth(n / 10);
    }
  }

  /** Two numerals with the same value, both without a leading zero, are
      equal; so `Pad2` and `Str` are the only numerals of their shape. */
  lemma {:induction false} CanonicalNumeral(s: string, t: string)
    requires IsNumeral(s) && IsNumeral(t) && Value(s) == Value(t)
    requires s[0] != '0' || |s| == 1
    requires t[0] != '0' || |t| == 1
    ensures s == t
  {
    if |s| > 1 && |t| > 1 {
      var s', t' := s[..|s| - 1], t[..|t| - 1];
      assert Value(s') == Value(t') && DigitValue(s[|s| - 1]) == DigitValue(t[|t| - 1]);
      CanonicalNumeral(s', t');
      assert s == s' + [s[|s| - 1]] && t == t' + [t[|t| - 1]];
    } else if |s| == 1 && |t| > 1 {
      ValuePositive(t[..|t| - 1]);
    } else if |t| == 1 && |s| > 1 {
      ValuePositive(s[..|s| - 1]);
    }
  }

  /** A numeral that does not start with `0` denotes a positive number. */
  lemma {:induction false} ValuePositive(s: string)
    requires IsNumeral(s) && s[0] != '0'
    ensures Value(s) > 0
  {
    if |s| > 1 {
      ValuePositive(s[..|s| - 1]);
    }
  }
}
