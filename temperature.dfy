/**
 * The fixed-point value parser (`parse_temperature` in src/main.rs).
 *
 * The parser reads a token such as `-3.5` as tenths of a degree, `-35`: it
 * folds every decimal digit into the accumulator, ignores the decimal point
 * and every other byte, and negates the result when a `-` occurs anywhere.
 * The accumulator is a Rust `i8`, so the digits must spell a number of at
 * most 127; the model makes that the parser's precondition.
 */
module Temperature {
  import opened StationStats

  predicate IsDigit(c: char)
  {
    '0' <= c <= '9'
  }

  function DigitOf(c: char): (d: int)
    requires IsDigit(c)
    ensures 0 <= d <= 9
  {
    c as int - '0' as int
  }

  predicate AllDigits(ds: string)
  {
    forall i :: 0 <= i < |ds| ==> IsDigit(ds[i])
  }

  /** The digit characters of `s` in order; everything else is skipped. */
  function DigitsOf(s: string): (ds: string)
    ensures AllDigits(ds)
  {
    if s == [] then []
    else DigitsOf(s[..|s| - 1]) + (if IsDigit(s[|s| - 1]) then [s[|s| - 1]] else [])
  }

  /** The natural number a string of decimal digits spells. */
  function Decimal(ds: string): nat
    requires AllDigits(ds)
  {
    if ds == [] then 0 else Decimal(ds[..|ds| - 1]) * 10 + DigitOf(ds[|ds| - 1])
  }

  /** The magnitude a token denotes, in tenths: the number its digits spell. */
  function Magnitude(s: string): nat
  {
    Decimal(DigitsOf(s))
  }

  /** The token's magnitude fits the parser's `i8` accumulator. */
  predicate Fits(s: string)
  {
    Magnitude(s) <= I8Max
  }

  /** The reading a token denotes: its magnitude, negated when it holds a `-`. */
  function Reading(s: string): I8
    requires Fits(s)
  {
    if '-' in s then -(Magnitude(s) as int) else Magnitude(s)
  }

  /** Reading one more character multiplies the magnitude by ten and adds that character, if it is a digit. */
  lemma MagnitudeStep(s: string, i: nat)
    requires i < |s|
    ensures Magnitude(s[..i + 1]) == if IsDigit(s[i]) then Magnitude(s[..i]) * 10 + DigitOf(s[i]) else Magnitude(s[..i])
  {
    var p := s[..i + 1];
    assert p[..i] == s[..i] && p[i] == s[i];
    var ds := DigitsOf(s[..i]);
    if IsDigit(s[i]) {
      var ds' := ds + [s[i]];
      assert DigitsOf(p) == ds';
      assert ds'[..|ds'| - 1] == ds;
    } else {
      assert DigitsOf(p) == ds;
    }
  }

  /** The magnitude of a prefix never exceeds the magnitude of the whole token. */
  lemma {:induction false} MagnitudePrefix(s: string, i: nat)
    requires i <= |s|
    ensures Magnitude(s[..i]) <= Magnitude(s)
  {
    if i < |s| {
      var n := |s| - 1;
      assert s[..i] == s[..n][..i];
      MagnitudePrefix(s[..n], i);
      MagnitudeStep(s, n);
      assert s[..n + 1] == s;
    } else {
      assert s[..i] == s;
    }
  }

  lemma MinusStep(s: string, i: nat)
    requires i < |s|
    ensures ('-' in s[..i + 1]) == ('-' in s[..i] || s[i] == '-')
  {
    assert s[..i + 1] == s[..i] + [s[i]];
  }

  /** The sign of a reading, and the reading of a token without digits. */
  lemma ReadingSign(s: string)
    requires Fits(s)
    ensures Reading(s) < 0 <==> '-' in s && Magnitude(s) > 0
    ensures Reading(s) == Magnitude(s) || Reading(s) == -(Magnitude(s) as int)
    ensures DigitsOf(s) == [] ==> Reading(s) == 0
  {
  }

  /**
   * `parse_temperature`: one pass over the token's characters, keeping the
   * accumulator, the sign flag and the decimal-point flag of the source.
   */
  method ParseTemperature(tempStr: string) returns (r: I8)
    requires Fits(tempStr)
    ensures r == Reading(tempStr)
    ensures r < 0 <==> '-' in tempStr && Magnitude(tempStr) > 0
    ensures r == Magnitude(tempStr) || r == -(Magnitude(tempStr) as int)
    ensures DigitsOf(tempStr) == [] ==> r == 0
  {
    var temp: I8 := 0;
    var negative := false;
    var decimalFound := false;
    for i := 0 to |tempStr|
      invariant temp == Magnitude(tempStr[..i])
      invariant negative == ('-' in tempStr[..i])
    {
      var b := tempStr[i];
      MagnitudeStep(tempStr, i);
      MinusStep(tempStr, i);
      if b == '-' {
        negative := true;
      } else if b == '.' {
        decimalFound := true;
      } else if IsDigit(b) {
        MagnitudePrefix(tempStr, i + 1);
        temp := temp * 10 + DigitOf(b);
        if decimalFound {
          decimalFound := false;
        }
      }
    }
    assert tempStr[..|tempStr|] == tempStr;
    ReadingSign(tempStr);
    r := if negative then -temp else temp;
  }

  /** The worked examples: `-3.5` is -35 tenths, `12.0` is 120, and a token without digits is 0. */
  lemma ReadingExamples()
    ensures Fits("-3.5") && Reading("-3.5") == -35
    ensures Fits("12.0") && Reading("12.0") == 120
    ensures Fits("") && Reading("") == 0
  {
    assert DigitsOf("-3.5") == "35" by {
      assert "-3.5"[..3] == "-3.";
      assert "-3."[..2] == "-3";
      assert "-3"[..1] == "-";
      assert "-"[..0] == "";
    }
    assert "35"[..1] == "3" && "3"[..0] == "";
    assert DigitsOf("12.0") == "120" by {
      assert "12.0"[..3] == "12.";
      assert "12."[..2] == "12";
      assert "12"[..1] == "1";
      assert "1"[..0] == "";
    }
    assert "120"[..2] == "12" && "12"[..1] == "1" && "1"[..0] == "";
  }
}
