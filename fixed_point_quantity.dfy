/**
 * FixedPointQuantity: the fixed-point value at scale 3 (factor 1000). Like
 * FixedPointPrice it is FixedPoint taken at `SCALE`; it has no division, its
 * only multiplication is `multiply(long)` (`FixedPoint.MultiplyLong`), and it
 * adds the conversions from and to whole `long` counts and the sign tests.
 */
module FixedPointQuantity {
  import opened Int64
  import opened Outcomes
  import FixedPoint
  import opened JavaText

  const SCALE: nat := 3
  const SCALE_FACTOR: int := 1_000

  /** Three decimal places, factor 10^3. */
  lemma ScaleConstants()
    ensures FixedPoint.ValidScale(SCALE) && FixedPoint.Factor(SCALE) == SCALE_FACTOR
  {
  }

  /** `fromLong`: a whole count, scaled by 1000 with `long` wrap-around. */
  function FromLong(quantity: Long): (r: FixedPoint.Fixed)
    ensures InRange(quantity * SCALE_FACTOR) ==> r.value == quantity * SCALE_FACTOR
    ensures (quantity * SCALE_FACTOR - r.value) % MODULUS == 0
  {
    FixedPoint.Fixed(Wrap(quantity * SCALE_FACTOR))
  }

  /** `toLong`: the whole count, truncated toward zero. */
  function ToLong(x: FixedPoint.Fixed): (r: Long)
    ensures SCALE_FACTOR * Abs(r) <= Abs(x.value) < SCALE_FACTOR * (Abs(r) + 1)
    ensures r < 0 ==> x.value < 0
    ensures r > 0 ==> x.value > 0
  {
    FixedPoint.PositiveDivision(x.value, SCALE_FACTOR);
    TruncDiv(x.value, SCALE_FACTOR)
  }

  function IsPositive(x: FixedPoint.Fixed): (r: bool)
    ensures r <==> FixedPoint.CompareTo(x, FixedPoint.Fixed(0)) > 0
  {
    x.value > 0
  }

  function IsZero(x: FixedPoint.Fixed): (r: bool)
    ensures r <==> FixedPoint.Equals(x, FixedPoint.Fixed(0))
  {
    x.value == 0
  }

  // ---------------------------------------------------------------------------
  // Properties

  /** `toLong` undoes `fromLong` while the scaled count fits in a `long`. */
  lemma ToLongFromLong(quantity: Long)
    requires InRange(quantity * SCALE_FACTOR)
    ensures ToLong(FromLong(quantity)) == quantity
  {
    var one := FixedPoint.Fixed(SCALE_FACTOR);
    FixedPoint.MultiplyByOne(SCALE, FixedPoint.Fixed(quantity), one);
  }

  /** Reading a whole number without a fraction gives what `fromLong` gives, overflow included. */
  lemma FromStringWhole(quantity: Long)
    ensures FixedPoint.FromString(SCALE, FormatLong(quantity)) == Success(FromLong(quantity))
  {
    ParseFormatLong(quantity);
  }

  /** Exactly one of zero, positive and negative holds. */
  lemma SignTrichotomy(x: FixedPoint.Fixed)
    ensures IsZero(x) || IsPositive(x) || FixedPoint.IsLessThan(x, FixedPoint.Fixed(0))
    ensures !(IsZero(x) && IsPositive(x))
    ensures IsPositive(x) <==> FixedPoint.IsGreaterThan(x, FixedPoint.Fixed(0))
  {
  }

  /** `fromString(toString(q))` has the scaled value of `q` unless `q` lies strictly between -1 and 0. */
  lemma RoundTrip(q: FixedPoint.Fixed)
    requires q.value >= 0 || q.value <= -SCALE_FACTOR
    ensures FixedPoint.FromString(SCALE, FixedPoint.ToString(SCALE, q)) == Success(q)
  {
    FixedPoint.RoundTrip(SCALE, q);
  }

  /** `toString(fromString(t))` is `t` with its fraction zero-padded to `SCALE` digits,
      for a whole part written as `%d` writes it and at most `SCALE` fraction digits. */
  lemma PrintAfterParse(w: Long, fraction: string)
    requires 1 <= |fraction| <= SCALE && AllDigits(fraction)
    requires InRange(w * SCALE_FACTOR + (if w < 0 then -(FixedPoint.FractionValue(fraction, SCALE) as int) else FixedPoint.FractionValue(fraction, SCALE)))
    ensures var r := FixedPoint.FromString(SCALE, FormatLong(w) + "." + fraction);
      r.Success? && FixedPoint.ToString(SCALE, r.value) == FormatLong(w) + "." + fraction + Repeat('0', SCALE - |fraction|)
  {
    ScaleConstants();
    FixedPoint.PrintAfterParse(SCALE, w, fraction);
  }

  /** A quantity strictly between -1 and 0 prints without its minus sign and reads back negated. */
  lemma NegativeFractionLosesSign(q: FixedPoint.Fixed)
    requires -SCALE_FACTOR < q.value < 0
    ensures FixedPoint.FromString(SCALE, FixedPoint.ToString(SCALE, q)) == Success(FixedPoint.Fixed(-(q.value as int)))
  {
    FixedPoint.NegativeFractionLosesSign(SCALE, q);
  }

  // ---------------------------------------------------------------------------
  // Examples

  /** `"500.250"` is 500250 thousandths. */
  lemma FromStringExample()
    ensures FixedPoint.FromString(SCALE, "500.250") == Success(FixedPoint.Fixed(500250))
  {
    assert "500" + "." + "250" == "500.250";
    assert FixedPoint.Combine(SCALE, 500, 250) == 500250 by { assert FixedPoint.Factor(SCALE) == 1000; }
    ParseFiveHundred();
    FullFraction();
    FixedPoint.Parsed(SCALE, "500", "250", 500, 250);
  }

  lemma ParseFiveHundred()
    ensures ParseLong("500") == Some(500)
  {
    assert FormatLong(500) == "500";
    ParseFormatLong(500);
  }

  lemma FullFraction()
    ensures AllDigits("250") && FixedPoint.FractionValue("250", 3) == 250
  {
    assert NatToDigits(250) == "250";
  }

  /** 500250 thousandths print as `"500.250"`. */
  lemma ToStringExample()
    ensures FixedPoint.ToString(SCALE, FixedPoint.Fixed(500250)) == "500.250"
  {
    assert FixedPoint.Factor(SCALE) == 1000;
    assert FormatLong(500) == "500";
    assert TruncDiv(500250, 1000) == 500 && TruncRem(500250, 1000) == 250;
    assert ZeroPad(250, 3) == "250";
    FixedPoint.Printed(SCALE, FixedPoint.Fixed(500250), "500", "250");
  }

  /** `"-10.5"` is -10500 thousandths, which is not positive. */
  lemma NegativeExample()
    ensures FixedPoint.FromString(SCALE, "-10.5") == Success(FixedPoint.Fixed(-10500))
    ensures !IsPositive(FixedPoint.Fixed(-10500)) && !IsZero(FixedPoint.Fixed(-10500))
  {
    assert ParseLong("-10") == Some(-10) by {
      assert FormatLong(-10) == "-10";
      ParseFormatLong(-10);
    }
    assert NatToDigits(5) == "5";
    assert FixedPoint.FractionValue("5", SCALE) == 500 by {
      assert DigitsValue("5") == 5 && Pow10(2) == 100;
    }
    FixedPoint.Parsed(SCALE, "-10", "5", -10, 500);
    assert "-10" + "." + "5" == "-10.5";
    assert FixedPoint.Factor(SCALE) == 1000;
    assert FixedPoint.Combine(SCALE, -10, 500) == -10500;
  }

  /** `fromLong(1000)` is 1000000 thousandths and converts back to 1000; `toLong`
      truncates 1.5 to 1 and -1.5 to -1. */
  lemma ConversionExamples()
    ensures FromLong(1000) == FixedPoint.Fixed(1000000) && ToLong(FromLong(1000)) == 1000
    ensures ToLong(FixedPoint.Fixed(1500)) == 1
    ensures ToLong(FixedPoint.Fixed(-1500)) == -1
  {
  }
}
