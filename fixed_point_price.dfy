/**
 * FixedPointPrice: the fixed-point value at scale 5 (factor 100000). Its
 * operations are those of FixedPoint, taken at `SCALE` where the scale
 * matters: `fromString` is `FixedPoint.FromString(SCALE, _)`, `toString` is
 * `FixedPoint.ToString(SCALE, _)`, `multiply(other)` is
 * `FixedPoint.Multiply(SCALE, _, _)`, `fromScaledLong` is the constructor
 * `Fixed` and `getScaledValue` is the field `value`.
 */
module FixedPointPrice {
  import opened Int64
  import opened Outcomes
  import FixedPoint
  import opened JavaText

  const SCALE: nat := 5
  const SCALE_FACTOR: int := 100_000

  /** `getScale` and `getScaleFactor`: five decimal places, factor 10^5. */
  lemma ScaleConstants()
    ensures FixedPoint.ValidScale(SCALE) && FixedPoint.Factor(SCALE) == SCALE_FACTOR
  {
  }

  /** `fromString(toString(p))` has the scaled value of `p` unless `p` lies strictly between -1 and 0. */
  lemma RoundTrip(p: FixedPoint.Fixed)
    requires p.value >= 0 || p.value <= -SCALE_FACTOR
    ensures FixedPoint.FromString(SCALE, FixedPoint.ToString(SCALE, p)) == Success(p)
  {
    FixedPoint.RoundTrip(SCALE, p);
  }

  /** `toString(fromString(t))` is `t` with its fraction zero-padded to `SCALE` digits,
      for a whole part written as `%d` writes it and at most `SCALE` fraction digits. */
  lemma PrintAfterParse(w: Long, fraction: string)
    requires 1 <= |fraction| <= SCALE && AllDigits(fraction)
    requires InRange(w * SCALE_FACTOR + (if w < 0 then -(FixedPoint.FractionValue(fraction, SCALE) as int) else FixedPoint.FractionValue(fraction, SCALE)))
    ensures var r := FixedPoint.FromString(SCALE, FormatLong(w) + "." + fraction);
      r.Success? && FixedPoint.ToString(SCALE, r.value) == FormatLong(w) + "." + fraction + Repeat('0', SCALE - |fraction|)
  {
    ScaleConstants();
    FixedPoint.PrintAfterParse(SCALE, w, fraction);
  }

  /** A price strictly between -1 and 0 prints without its minus sign and reads back negated. */
  lemma NegativeFractionLosesSign(p: FixedPoint.Fixed)
    requires -SCALE_FACTOR < p.value < 0
    ensures FixedPoint.FromString(SCALE, FixedPoint.ToString(SCALE, p)) == Success(FixedPoint.Fixed(-(p.value as int)))
  {
    FixedPoint.NegativeFractionLosesSign(SCALE, p);
  }

  /** A short fraction is padded: `"99.95"` is 99.95000. */
  lemma FromStringPadded()
    ensures FixedPoint.FromString(SCALE, "99.95") == Success(FixedPoint.Fixed(9995000))
  {
    assert FormatLong(99) == "99";
    ParseFormatLong(99);
    assert NatToDigits(95) == "95";
    assert FixedPoint.FractionValue("95", SCALE) == 95000 by {
      assert DigitsValue("95") == 95 && Pow10(3) == 1000;
    }
    FixedPoint.Parsed(SCALE, "99", "95", 99, 95000);
    assert "99" + "." + "95" == "99.95";
    assert FixedPoint.Combine(SCALE, 99, 95000) == 9995000 by { assert FixedPoint.Factor(SCALE) == 100000; }
  }

  /** A long fraction is cut after five digits, without rounding: `"1.234567"` is 1.23456. */
  lemma FromStringTruncated()
    ensures FixedPoint.FromString(SCALE, "1.234567") == Success(FixedPoint.Fixed(123456))
  {
    assert "1" + "." + "234567" == "1.234567";
    assert FixedPoint.Combine(SCALE, 1, 23456) == 123456 by { assert FixedPoint.Factor(SCALE) == 100000; }
    ParseOne();
    SixDigitFraction();
    FixedPoint.Parsed(SCALE, "1", "234567", 1, 23456);
  }

  lemma ParseOne()
    ensures ParseLong("1") == Some(1)
  {
    assert FormatLong(1) == "1";
    ParseFormatLong(1);
  }

  lemma ParseMinusZero()
    ensures ParseLong("-0") == Some(0)
  {
    assert NatToDigits(0) == "0";
    ParseNegative("0", 0);
    assert "-" + "0" == "-0";
  }

  lemma SixDigitFraction()
    ensures AllDigits("234567") && FixedPoint.FractionValue("234567", SCALE) == 23456
  {
    CutFraction();
  }

  lemma CutFraction()
    ensures AllDigits("234567") && FixedPoint.FractionValue("234567", 5) == 23456
  {
    assert NatToDigits(234567) == "234567";
    assert "234567"[..5] == "23456";
    assert DigitsValue("23456") == 23456;
  }

  /** A negative whole part subtracts the fraction: `"-10.50"` is -10.50000. */
  lemma FromStringNegative()
    ensures FixedPoint.FromString(SCALE, "-10.50") == Success(FixedPoint.Fixed(-1050000))
  {
    assert FormatLong(-10) == "-10";
    ParseFormatLong(-10);
    assert NatToDigits(50) == "50";
    assert FixedPoint.FractionValue("50", SCALE) == 50000 by {
      assert DigitsValue("50") == 50 && Pow10(3) == 1000;
    }
    FixedPoint.Parsed(SCALE, "-10", "50", -10, 50000);
    assert "-10" + "." + "50" == "-10.50";
    assert FixedPoint.Combine(SCALE, -10, 50000) == -1050000 by { assert FixedPoint.Factor(SCALE) == 100000; }
  }

  /** The whole part `-0` parses as 0, so the fraction is added: `"-0.5"` is +0.5. */
  lemma FromStringNegativeZero()
    ensures FixedPoint.FromString(SCALE, "-0.5") == Success(FixedPoint.Fixed(50000))
  {
    ParseMinusZero();
    assert NatToDigits(5) == "5";
    assert FixedPoint.FractionValue("5", SCALE) == 50000 by {
      assert DigitsValue("5") == 5 && Pow10(4) == 10000;
    }
    FixedPoint.Parsed(SCALE, "-0", "5", 0, 50000);
    assert "-0" + "." + "5" == "-0.5";
    assert FixedPoint.Combine(SCALE, 0, 50000) == 50000 by { assert FixedPoint.Factor(SCALE) == 100000; }
  }

  /** A missing whole part is a `NumberFormatException`; a lone dot leaves no parts at all. */
  lemma FromStringErrors()
    ensures FixedPoint.FromString(SCALE, ".5") == Failure(FixedPoint.NumberFormat)
    ensures FixedPoint.FromString(SCALE, ".") == Failure(FixedPoint.MissingWholePart)
    ensures FixedPoint.FromString(SCALE, "") == Failure(FixedPoint.NumberFormat)
    ensures FixedPoint.FromString(SCALE, "1.ab") == Failure(FixedPoint.NumberFormat)
  {
    SplitTwo("", "5");
    assert "" + "." + "5" == ".5";
    SplitTwo("1", "ab");
    assert "1" + "." + "ab" == "1.ab";
    assert Fit("ab", SCALE) == "ab000";
  }

  /** Printing keeps the quotient's sign: -10.5 prints as `"-10.50000"`. */
  lemma ToStringNegative()
    ensures FixedPoint.ToString(SCALE, FixedPoint.Fixed(-1050000)) == "-10.50000"
  {
    assert FixedPoint.Factor(SCALE) == 100000;
    assert TruncDiv(-1050000, 100000) == -10 && TruncRem(-1050000, 100000) == -50000;
    assert FormatLong(-10) == "-10" by { assert NatToDigits(10) == "10"; }
    assert ZeroPad(50000, 5) == "50000";
    FixedPoint.Printed(SCALE, FixedPoint.Fixed(-1050000), "-10", "50000");
  }

  /** The remainder is printed with all five digits: 123.456 prints as `"123.45600"`. */
  lemma ToStringPositive()
    ensures FixedPoint.ToString(SCALE, FixedPoint.Fixed(12345600)) == "123.45600"
  {
    assert FixedPoint.Factor(SCALE) == 100000;
    assert TruncDiv(12345600, 100000) == 123 && TruncRem(12345600, 100000) == 45600;
    assert FormatLong(123) == "123" && ZeroPad(45600, 5) == "45600";
    FixedPoint.Printed(SCALE, FixedPoint.Fixed(12345600), "123", "45600");
  }

  /** -0.5 has quotient 0, so it prints as `"0.50000"`, without a sign. */
  lemma ToStringNegativeFraction()
    ensures FixedPoint.ToString(SCALE, FixedPoint.Fixed(-50000)) == "0.50000"
  {
    assert FixedPoint.Factor(SCALE) == 100000;
    assert TruncDiv(-50000, 100000) == 0 && TruncRem(-50000, 100000) == -50000;
    assert FormatLong(0) == "0" && ZeroPad(50000, 5) == "50000";
    FixedPoint.Printed(SCALE, FixedPoint.Fixed(-50000), "0", "50000");
  }

  /** `"0.1" + "0.2"` is exactly 30000, what `"0.3"` parses to, and prints as `"0.30000"`:
      there is no binary floating-point drift. */
  lemma AddExample()
    ensures FixedPoint.FromString(SCALE, "0.1") == Success(FixedPoint.Fixed(10000))
    ensures FixedPoint.FromString(SCALE, "0.2") == Success(FixedPoint.Fixed(20000))
    ensures FixedPoint.Add(FixedPoint.Fixed(10000), FixedPoint.Fixed(20000)) == FixedPoint.Fixed(30000)
    ensures FixedPoint.FromString(SCALE, "0.3") == Success(FixedPoint.Fixed(30000))
    ensures FixedPoint.ToString(SCALE, FixedPoint.Fixed(30000)) == "0.30000"
  {
    Tenths(1);
    assert "0." + [DigitChar(1)] == "0.1";
    Tenths(2);
    assert "0." + [DigitChar(2)] == "0.2";
    Tenths(3);
    assert "0." + [DigitChar(3)] == "0.3";
    SumPrints();
  }

  /** `"0.d"` for a single digit `d` is `d` tenths. */
  lemma Tenths(d: nat)
    requires 1 <= d <= 9
    ensures FixedPoint.FromString(SCALE, "0." + [DigitChar(d)]) == Success(FixedPoint.Fixed(d * 10000))
  {
    var fraction := [DigitChar(d)];
    assert FormatLong(0) == "0";
    ParseFormatLong(0);
    assert fraction[..0] == [];
    assert FixedPoint.FractionValue(fraction, SCALE) == d * 10000 by {
      assert DigitsValue(fraction) == d && Pow10(4) == 10000;
    }
    FixedPoint.Parsed(SCALE, "0", fraction, 0, d * 10000);
    assert "0" + "." + fraction == "0." + fraction;
    assert FixedPoint.Combine(SCALE, 0, d * 10000) == d * 10000 by { assert FixedPoint.Factor(SCALE) == 100000; }
  }

  lemma SumPrints()
    ensures FixedPoint.ToString(SCALE, FixedPoint.Fixed(30000)) == "0.30000"
  {
    assert FixedPoint.Factor(SCALE) == 100000;
    assert TruncDiv(30000, 100000) == 0 && TruncRem(30000, 100000) == 30000;
    assert FormatLong(0) == "0" && ZeroPad(30000, 5) == "30000";
    FixedPoint.Printed(SCALE, FixedPoint.Fixed(30000), "0", "30000");
  }

  /** Text that is not written as `toString` writes it does not come back: `"-0.5"`
      reads as +0.5 and prints as `"0.50000"`. */
  lemma MinusZeroNotKept()
    ensures FixedPoint.FromString(SCALE, "-0.5") == Success(FixedPoint.Fixed(50000))
    ensures FixedPoint.ToString(SCALE, FixedPoint.Fixed(50000)) == "0.50000"
  {
    FromStringNegativeZero();
    HalfPrints();
  }

  lemma HalfPrints()
    ensures FixedPoint.ToString(SCALE, FixedPoint.Fixed(50000)) == "0.50000"
  {
    assert FixedPoint.Factor(SCALE) == 100000;
    assert TruncDiv(50000, 100000) == 0 && TruncRem(50000, 100000) == 50000;
    assert FormatLong(0) == "0" && ZeroPad(50000, 5) == "50000";
    FixedPoint.Printed(SCALE, FixedPoint.Fixed(50000), "0", "50000");
  }

  /** `10.50 * 2.00 = 21`, `100 / 4 = 25`, and a zero divisor fails. */
  lemma MultiplyDivideExamples()
    ensures FixedPoint.Multiply(SCALE, FixedPoint.Fixed(1050000), FixedPoint.Fixed(200000)) == FixedPoint.Fixed(2100000)
    ensures FixedPoint.Divide(FixedPoint.Fixed(10000000), 4) == Success(FixedPoint.Fixed(2500000))
    ensures FixedPoint.Divide(FixedPoint.Fixed(10000000), 0) == Failure(FixedPoint.DivisionByZero)
  {
    assert FixedPoint.Factor(SCALE) == 100000;
  }
}
