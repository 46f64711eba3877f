/** The timecode converter (`convert_timecode_to_seconds`): an FCPXML time
    value such as `"208900/2500s"` or `"5s"` becomes a number of seconds.
    Seconds are exact rationals (`real`); the source's final conversion to
    a binary float is not modelled. */
module Timecode {
  import opened Strings
  import opened Decimal

  /** Why a conversion failed. */
  datatype ConversionError =
      /** The source's `ValueError("Impossible de convertir le timecode : …")`;
          it carries the string after the `s` characters were removed. */
    | InvalidTimecode(text: string)
      /** `Fraction`'s `ZeroDivisionError("Fraction(n, 0)")`, which the
          converter's `except ValueError` does not catch. */
    | ZeroDenominator(numerator: nat)

  datatype Result<T> = Ok(value: T) | Err(error: ConversionError)

  /** Two numerals around a single `/`. */
  predicate IsFraction(t: string) {
    var parts := Split(t, '/');
    |parts| == 2 && IsNumeral(parts[0]) && IsNumeral(parts[1])
  }

  function Numerator(t: string): nat
    requires IsFraction(t)
  {
    Value(Split(t, '/')[0])
  }

  function Denominator(t: string): nat
    requires IsFraction(t)
  {
    Value(Split(t, '/')[1])
  }

  /** A fraction whose denominator is not zero. */
  predicate WellFormedFraction(t: string) {
    IsFraction(t) && Denominator(t) != 0
  }

  /** `Fraction(t)` restricted to unsigned `n/d` with digit-only `n` and `d`. */
  function ParseFraction(t: string): (r: Result<real>)
    ensures r.Ok? ==> r.value >= 0.0
    ensures r.Err? && r.error.InvalidTimecode? ==> r.error.text == t
  {
    if !IsFraction(t) then Err(InvalidTimecode(t))
    else if Denominator(t) == 0 then Err(ZeroDenominator(Numerator(t)))
    else Ok(Numerator(t) as real / Denominator(t) as real)
  }

  /** `float(t)` restricted to a plain unsigned digit string. */
  function ParseNumber(t: string): (r: Result<real>)
    ensures r.Ok? <==> IsNumeral(t)
    ensures r.Ok? ==> r.value == Value(t) as real
    ensures r.Err? ==> r.error == InvalidTimecode(t)
  {
    if IsNumeral(t) then Ok(Value(t) as real) else Err(InvalidTimecode(t))
  }

  /** `convert_timecode_to_seconds`: every `s` is removed, then the rest is
      read as a fraction when it holds a `/` and as a plain number
      otherwise. */
  function ConvertTimecodeToSeconds(timecode: string): (r: Result<real>)
    ensures r.Ok? ==> r.value >= 0.0
    ensures r.Err? && r.error.InvalidTimecode? ==> r.error.text == RemoveAll(timecode, 's')
    ensures r.Err? && r.error.ZeroDenominator? ==> '/' in timecode
  {
    var t := RemoveAll(timecode, 's');
    if '/' in t then ParseFraction(t) else ParseNumber(t)
  }

  /** Exactly which timecodes convert: a well-formed fraction, or a plain
      numeral without a slash, once the `s` characters are gone. */
  lemma ConvertSucceedsIff(timecode: string)
    ensures var t := RemoveAll(timecode, 's');
            ConvertTimecodeToSeconds(timecode).Ok? <==>
              ('/' in t && WellFormedFraction(t)) || ('/' !in t && IsNumeral(t))
  {
  }

  /** `"n/ds"` with numerals `n`, `d` and `d != 0` converts to exactly the
      quotient `n / d`. */
  lemma ConvertFraction(n: string, d: string)
    requires IsNumeral(n) && IsNumeral(d) && Value(d) != 0
    ensures ConvertTimecodeToSeconds(n + "/" + d + "s") == Ok(Value(n) as real / Value(d) as real)
    ensures ConvertTimecodeToSeconds(n + "/" + d) == Ok(Value(n) as real / Value(d) as real)
  {
    NumeralSplit(n, d);
    NumeralStrip(n, d, "s");
    NumeralStrip(n, d, "");
  }

  /** `"n/0s"` fails with the division error, carrying the numerator. */
  lemma ConvertZeroDenominator(n: string, d: string)
    requires IsNumeral(n) && IsNumeral(d) && Value(d) == 0
    ensures ConvertTimecodeToSeconds(n + "/" + d + "s") == Err(ZeroDenominator(Value(n)))
  {
    NumeralSplit(n, d);
    NumeralStrip(n, d, "s");
  }

  /** A plain number reads back the numeral `str(n)` prints. */
  lemma ParseNumberStr(n: nat)
    ensures ParseNumber(Str(n)) == Ok(n as real)
  {
  }

  /** Leading zeros do not change a plain number, as with `float("05")`. */
  lemma ParseNumberLeadingZero(t: string)
    requires IsNumeral(t)
    ensures ParseNumber("0" + t) == ParseNumber(t)
  {
    ValueLeadingZero(t);
  }

  /** `"ns"` with a numeral `n` converts to `n`. */
  lemma ConvertWhole(n: string)
    requires IsNumeral(n)
    ensures ConvertTimecodeToSeconds(n + "s") == Ok(Value(n) as real)
  {
    RemoveAllConcat(n, "s", 's');
    NumeralHasNo(n, 's');
    NumeralHasNo(n, '/');
    assert RemoveAll("s", 's') == [] by { assert "s"[1..] == []; }
    assert RemoveAll(n + "s", 's') == n;
  }

  /** An `s` anywhere in the timecode, not only at its end, is ignored. */
  lemma {:induction false} ConvertIgnoresS(a: string, b: string)
    ensures ConvertTimecodeToSeconds(a + "s" + b) == ConvertTimecodeToSeconds(a + b)
  {
    RemoveAllConcat(a + "s", b, 's');
    RemoveAllConcat(a, "s", 's');
    RemoveAllConcat(a, b, 's');
    assert RemoveAll(a + "s", 's') == RemoveAll(a, 's');
  }

  /** Removing the `s` characters beforehand changes nothing. */
  lemma ConvertAfterStrip(timecode: string)
    ensures ConvertTimecodeToSeconds(RemoveAll(timecode, 's')) == ConvertTimecodeToSeconds(timecode)
  {
    RemoveAllIdempotent(timecode, 's');
  }

  /** The documented example: `"208900/2500s"` is 83.56 seconds. */
  lemma ConvertExample()
    ensures ConvertTimecodeToSeconds("208900/2500s") == Ok(83.56)
  {
    var n, d := "208900", "2500";
    assert IsNumeral(n) && IsNumeral(d);
    ValueOf208900();
    ValueOf2500();
    assert n + "/" + d + "s" == "208900/2500s";
    ConvertFraction(n, d);
    assert 208900 as real == 208900.0 && 2500 as real == 2500.0;
    assert 208900.0 / 2500.0 == 83.56;
  }

  /** A whole number of seconds: `"5s"` is 5 seconds. */
  lemma ConvertWholeExample()
    ensures ConvertTimecodeToSeconds("5s") == Ok(5.0)
  {
    assert IsNumeral("5") && Value("5") == 5;
    ConvertWhole("5");
    assert "5" + "s" == "5s";
  }

  /** Text that is not a number is refused, and the error names the string
      with its `s` removed: `"abcs"` reports `"abc"`. */
  lemma ConvertRejects()
    ensures ConvertTimecodeToSeconds("abcs") == Err(InvalidTimecode("abc"))
  {
    assert RemoveAll("abcs", 's') == "abc" by {
      assert "abcs" == "abc" + "s";
      RemoveAllConcat("abc", "s", 's');
      assert RemoveAll("s", 's') == [] by { assert "s"[1..] == []; }
      assert 's' !in "abc";
    }
    assert '/' !in "abc";
    assert !IsDigit("abc"[0]);
  }

  lemma NumeralSplit(n: string, d: string)
    requires IsNumeral(n) && IsNumeral(d)
    ensures Split(n + "/" + d, '/') == [n, d]
  {
    NumeralHasNo(n, '/');
    NumeralHasNo(d, '/');
    SplitJoin([n, d], '/');
    assert Join([n, d], '/') == n + "/" + d;
  }

  lemma NumeralStrip(n: string, d: string, suffix: string)
    requires IsNumeral(n) && IsNumeral(d)
    requires suffix == "s" || suffix == ""
    ensures RemoveAll(n + "/" + d + suffix, 's') == n + "/" + d
    ensures '/' in n + "/" + d
  {
    NumeralHasNo(n, 's');
    NumeralHasNo(d, 's');
    RemoveAllConcat(n + "/" + d, suffix, 's');
    RemoveAllConcat(n + "/", d, 's');
    RemoveAllConcat(n, "/", 's');
    assert (n + "/" + d)[|n|] == '/';
  }

  lemma ValueOf208900()
    ensures Value("208900") == 208900
  {
    assert "208900"[..5] == "20890";
    assert "20890"[..4] == "2089";
    assert "2089"[..3] == "208";
    assert "208"[..2] == "20";
    assert "20"[..1] == "2";
    assert "2"[..0] == "";
  }

  lemma ValueOf2500()
    ensures Value("2500") == 2500
  {
    assert "2500"[..3] == "250";
    assert "250"[..2] == "25";
    assert "25"[..1] == "2";
    assert "2"[..0] == "";
  }
}
