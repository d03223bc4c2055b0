/**
 * The numeric reading of a year's GDP field: Python's `float(...)` applied
 * to an already trimmed string, restricted to plain decimal literals.
 */
module Numbers {
  import opened Wrappers

  predicate IsDigit(c: char) {
    '0' <= c <= '9'
  }

  predicate AllDigits(s: string) {
    forall i :: 0 <= i < |s| ==> IsDigit(s[i])
  }

  /** The value of a string of decimal digits (0 for the empty string). */
  function DigitsValue(s: string): nat
    requires AllDigits(s)
  {
    if s == [] then 0 else DigitsValue(s[..|s| - 1]) * 10 + (s[|s| - 1] as int - '0' as int)
  }

  function Pow10(n: nat): (p: nat)
    ensures p >= 1
  {
    if n == 0 then 1 else 10 * Pow10(n - 1)
  }

  /** Position of the first decimal point in `s`. */
  function DotIndex(s: string): (i: nat)
    requires '.' in s
    ensures i < |s| && s[i] == '.'
    ensures forall j :: 0 <= j < i ==> s[j] != '.'
  {
    if s[0] == '.' then 0 else DotIndex(s[1..]) + 1
  }

  /**
   * An unsigned decimal literal: digits with at most one decimal point and
   * at least one digit overall ("12", "12.5", "12.", ".5").
   */
  function ParseUnsigned(s: string): (r: Option<real>)
    ensures r.Some? ==> s != [] && r.value >= 0.0
  {
    if '.' !in s then
      if s != [] && AllDigits(s) then Some(DigitsValue(s) as real) else None
    else
      var d := DotIndex(s);
      var whole, frac := s[..d], s[d + 1..];
      if AllDigits(whole) && AllDigits(frac) && |whole| + |frac| > 0 then
        var fraction := DigitsValue(frac) as real / Pow10(|frac|) as real;
        assert fraction >= 0.0;
        Some(DigitsValue(whole) as real + fraction)
      else None
  }

  /**
   * `float(s)` for a trimmed string: an optional sign followed by an
   * unsigned decimal literal; anything else is the `ValueError` case. The
   * sign of the result is the sign written in front of the digits.
   */
  function ParseFloat(s: string): (r: Option<real>)
    ensures r.Some? ==> s != []
    ensures r.Some? && s[0] == '-' ==> r.value <= 0.0
    ensures r.Some? && s[0] != '-' ==> r.value >= 0.0
  {
    if s != [] && s[0] == '-' then
      match ParseUnsigned(s[1..])
      case Some(v) => Some(-v)
      case None => None
    else if s != [] && s[0] == '+' then ParseUnsigned(s[1..])
    else ParseUnsigned(s)
  }

  /** A plain run of digits reads as the natural number it spells. */
  lemma ParseFloatDigits(s: string)
    requires s != [] && AllDigits(s)
    ensures ParseFloat(s) == Some(DigitsValue(s) as real)
  {
    assert s[0] != '-' && s[0] != '+';
    assert '.' !in s by {
      forall i | 0 <= i < |s| ensures s[i] != '.' { assert IsDigit(s[i]); }
    }
  }

  /** A lone zero reads as zero. */
  lemma ParseFloatZero()
    ensures ParseFloat("0") == Some(0.0)
  {
    assert DigitsValue("0") == 0 by {
      assert "0"[..0] == "";
    }
    ParseFloatDigits("0");
  }

  /** A leading minus sign negates the literal after it. */
  lemma ParseFloatNegative()
    ensures ParseFloat("-5") == Some(-5.0)
  {
    assert ParseUnsigned("5") == Some(5.0) by {
      assert "5"[..0] == "";
      assert DigitsValue("5") == 5;
    }
    assert "-5"[1..] == "5";
  }

  /** Digits after the decimal point are tenths, hundredths and so on. */
  lemma ParseFloatFraction()
    ensures ParseFloat("12.5") == Some(12.5)
  {
    var s := "12.5";
    assert DotIndex(s) == 2 by {
      assert s[1..] == "2.5" && s[1..][1..] == ".5";
    }
    assert s[..2] == "12" && s[3..] == "5";
    assert DigitsValue("12") == 12 by {
      assert "12"[..1] == "1" && "1"[..0] == "";
    }
    assert DigitsValue("5") == 5 by {
      assert "5"[..0] == "";
    }
    assert Pow10(1) == 10;
  }

  /** Empty fields, words and malformed numerals are rejected. */
  lemma ParseFloatRejects()
    ensures ParseFloat("") == None
    ensures ParseFloat("n/a") == None
    ensures ParseFloat("1.2.3") == None
  {
  }
}
