/**
 * An immutable decimal held as a `long` scaled by 10^scale. FixedPointPrice
 * (scale 5) and FixedPointQuantity (scale 3) are this one algorithm at two
 * scales; every operation whose behaviour depends on the scale takes it as a
 * parameter. Arithmetic wraps around exactly as Java `long` arithmetic does.
 */
module FixedPoint {
  import opened Int64
  import opened JavaText
  import opened Outcomes

  /** A fixed-point value: the true amount times 10^scale. */
  datatype Fixed = Fixed(value: Long)

  /** `NumberFormatException` from `Long.parseLong`, or the index error that
      `parts[0]` raises when the split leaves no parts at all (input `"."`). */
  datatype ParseError = NumberFormat | MissingWholePart

  /** `ArithmeticException` from a division by zero. */
  datatype ArithmeticError = DivisionByZero

  /** The scales for which the fraction digits always fit in a `long`. */
  predicate ValidScale(scale: nat) { 1 <= scale <= 18 }

  function Factor(scale: nat): (f: int)
    ensures f >= 1
  {
    Pow10(scale)
  }

  /** `wholePart * SCALE_FACTOR + (wholePart < 0 ? -fractionalPart : fractionalPart)`;
      wrapping once at the end stores the same `long` as wrapping every step. */
  function Combine(scale: nat, whole: int, fraction: int): Long
  {
    Wrap(whole * Factor(scale) + (if whole < 0 then -fraction else fraction))
  }

  /** `fromString`: split on `.`, parse the whole token, bring the fraction token
      to `scale` characters and parse it, then combine with the sign rule. */
  function FromString(scale: nat, text: string): (r: Result<Fixed, ParseError>)
    ensures r == Failure(MissingWholePart) <==> SplitOnDot(text) == []
    ensures r.Success? ==> ParseLong(SplitOnDot(text)[0]).Some?
    ensures '.' !in text ==> (r.Success? <==> ParseLong(text).Some?)
    ensures '.' !in text && r.Success? ==> r.value.value == Wrap(ParseLong(text).value * Factor(scale))
    ensures |SplitOnDot(text)| >= 2 && ParseLong(SplitOnDot(text)[0]).Some? ==>
      (r.Success? <==> ParseLong(Fit(SplitOnDot(text)[1], scale)).Some?)
  {
    var parts := SplitOnDot(text);
    if parts == [] then Failure(MissingWholePart)
    else match ParseLong(parts[0])
      case None => Failure(NumberFormat)
      case Some(whole) =>
        if |parts| == 1 then Success(Fixed(Combine(scale, whole, 0)))
        else match ParseLong(Fit(parts[1], scale))
          case None => Failure(NumberFormat)
          case Some(fraction) => Success(Fixed(Combine(scale, whole, fraction)))
  }

  /** `toString`: `%d.%0<scale>d` of the truncated quotient and the absolute truncated remainder. */
  function ToString(scale: nat, x: Fixed): (s: string)
    requires scale >= 1
    ensures |s| > scale && s[|s| - scale - 1] == '.'
    ensures AllDigits(s[|s| - scale..]) && DigitsValue(s[|s| - scale..]) == Abs(TruncRem(x.value, Factor(scale)))
    ensures s[..|s| - scale - 1] == FormatLong(TruncDiv(x.value, Factor(scale)))
  {
    var f := Factor(scale);
    TruncDivRem(x.value, f);
    var whole := FormatLong(TruncDiv(x.value, f));
    var fraction := ZeroPad(Abs(TruncRem(x.value, f)), scale);
    var s := whole + "." + fraction;
    assert s[|s| - scale..] == fraction && s[..|s| - scale - 1] == whole;
    s
  }

  function Add(a: Fixed, b: Fixed): (r: Fixed)
    ensures InRange(a.value + b.value) ==> r.value == a.value + b.value
    ensures (a.value + b.value - r.value) % MODULUS == 0
  {
    Fixed(Wrap(a.value + b.value))
  }

  function Subtract(a: Fixed, b: Fixed): (r: Fixed)
    ensures InRange(a.value - b.value) ==> r.value == a.value - b.value
    ensures (a.value - b.value - r.value) % MODULUS == 0
  {
    Fixed(Wrap(a.value - b.value))
  }

  /** `multiply(long)`: the scaled value times an unscaled count. */
  function MultiplyLong(a: Fixed, k: Long): (r: Fixed)
    ensures InRange(a.value * k) ==> r.value == a.value * k
    ensures (a.value * k - r.value) % MODULUS == 0
  {
    Fixed(Wrap(a.value * k))
  }

  /** `multiply(other)`: the (wrapped) product of the scaled values, divided by the
      factor with truncation toward zero; the only step that loses precision. */
  function Multiply(scale: nat, a: Fixed, b: Fixed): (r: Fixed)
    ensures
      && Factor(scale) * Abs(r.value) <= Abs(Wrap(a.value * b.value)) < Factor(scale) * (Abs(r.value) + 1)
      && (r.value < 0 ==> Wrap(a.value * b.value) < 0)
      && (r.value > 0 ==> Wrap(a.value * b.value) > 0)
    ensures InRange(a.value * b.value) ==>
      && Factor(scale) * Abs(r.value) <= Abs(a.value * b.value) < Factor(scale) * (Abs(r.value) + 1)
      && (r.value < 0 ==> a.value * b.value < 0)
      && (r.value > 0 ==> a.value * b.value > 0)
  {
    var p := Wrap(a.value * b.value);
    PositiveDivision(p, Factor(scale));
    Fixed(TruncDiv(p, Factor(scale)))
  }

  /** `divide(long)`: truncating division, failing on a zero divisor; the one
      overflowing case, `Long.MIN_VALUE / -1`, wraps back to `Long.MIN_VALUE`. */
  function Divide(a: Fixed, d: Long): (r: Result<Fixed, ArithmeticError>)
    ensures r.Failure? <==> d == 0
    ensures r.Success? && !(a.value == MIN && d == -1) ==>
      && a.value == d * r.value.value + TruncRem(a.value, d)
      && Abs(d) * Abs(r.value.value) <= Abs(a.value) < Abs(d) * (Abs(r.value.value) + 1)
    ensures a.value == MIN && d == -1 ==> r == Success(Fixed(MIN))
  {
    if d == 0 then Failure(DivisionByZero)
    else
      TruncDivRem(a.value, d);
      if !(a.value == MIN && d == -1) then
        TruncDivInRange(a.value, d);
        Success(Fixed(TruncDiv(a.value, d)))
      else
        Success(Fixed(Wrap(TruncDiv(a.value, d))))
  }

  /** `Long.compare` of the scaled values. */
  function CompareTo(a: Fixed, b: Fixed): (r: int)
    ensures r == -1 || r == 0 || r == 1
    ensures r < 0 <==> a.value < b.value
    ensures r > 0 <==> a.value > b.value
  {
    if a.value < b.value then -1 else if a.value == b.value then 0 else 1
  }

  function IsGreaterThan(a: Fixed, b: Fixed): (r: bool)
    ensures r <==> CompareTo(a, b) > 0
  {
    a.value > b.value
  }

  function IsLessThan(a: Fixed, b: Fixed): (r: bool)
    ensures r <==> CompareTo(a, b) < 0
  {
    a.value < b.value
  }

  /** `equals` between two values of the same kind. */
  function Equals(a: Fixed, b: Fixed): (r: bool)
    ensures r <==> CompareTo(a, b) == 0
    ensures r <==> a == b
  {
    a.value == b.value
  }

  // ---------------------------------------------------------------------------
  // Properties

  /** `compareTo` is antisymmetric and agrees with `equals`, `isGreaterThan` and `isLessThan`. */
  lemma CompareConsistent(a: Fixed, b: Fixed)
    ensures CompareTo(a, b) == -CompareTo(b, a)
    ensures IsGreaterThan(a, b) <==> IsLessThan(b, a)
    ensures Equals(a, b) <==> !IsGreaterThan(a, b) && !IsLessThan(a, b)
  {
  }

  /** Subtraction undoes addition for every pair of values, overflow included. */
  lemma {:induction false} AddSubtractInverse(a: Fixed, b: Fixed)
    ensures Subtract(Add(a, b), b) == a
  {
    var sum := Add(a, b).value;
    assert sum == Wrap(a.value + b.value);
    WrapAdd(a.value + b.value, -(b.value as int));
    assert a.value + b.value + -(b.value as int) == a.value;
    assert Subtract(Add(a, b), b).value == Wrap(sum - b.value);
  }

  /** Multiplying by the value one (scaled: the factor) changes nothing while the
      product of the scaled values fits in a `long`. */
  lemma MultiplyByOne(scale: nat, a: Fixed, one: Fixed)
    requires one.value == Factor(scale) && InRange(a.value * one.value)
    ensures Multiply(scale, a, one) == a
  {
    var f := Factor(scale);
    var p: int := a.value * f;
    var m: nat := Abs(a.value);
    if a.value >= 0 {
      MulNonneg(a.value, f);
      assert Abs(p) == m * f;
    } else {
      MulNonneg(-(a.value as int), f);
      assert -p == m * f;
    }
    ExactDivision(m, f);
  }

  /** `divide(k)` undoes `multiply(k)` when the product does not overflow. */
  lemma DivideUndoesMultiply(a: Fixed, k: Long)
    requires k != 0 && InRange(a.value * k)
    ensures Divide(MultiplyLong(a, k), k) == Success(a)
  {
    var p := a.value * k;
    TruncDivRem(p, k);
    var q, r := TruncDiv(p, k), TruncRem(p, k);
    assert k * (q - a.value) == -r;
    if q != a.value {
      assert Abs(k * (q - a.value)) >= Abs(k) by {
        MulAbsBound(k, q - a.value);
      }
    }
  }

  /** A string of `n` digits denotes a number below 10^n. */
  lemma {:induction false} DigitsBound(s: string)
    requires AllDigits(s)
    ensures DigitsValue(s) < Pow10(|s|)
  {
    if s != [] { DigitsBound(s[..|s| - 1]); }
  }

  lemma FactorBound(scale: nat)
    requires ValidScale(scale)
    ensures Factor(scale) <= 1_000_000_000_000_000_000
  {
    Pow10Monotone(scale, 18);
    assert Pow10(6) == 1_000_000;
    assert Pow10(12) == 1_000_000_000_000;
    assert Pow10(18) == 1_000_000_000_000_000_000;
  }

  /** Dividing a `long` by a positive factor: the quotient's magnitude is the floor of
      the magnitudes' ratio and its sign is the dividend's. */
  lemma PositiveDivision(p: Long, f: int)
    requires f >= 1
    ensures InRange(TruncDiv(p, f))
    ensures f * Abs(TruncDiv(p, f)) <= Abs(p) < f * (Abs(TruncDiv(p, f)) + 1)
    ensures TruncDiv(p, f) < 0 ==> p < 0
    ensures TruncDiv(p, f) > 0 ==> p > 0
  {
    TruncDivPositive(p, f);
  }

  /** The truncated quotient and remainder by the factor recombine, with the sign
      rule of `fromString`, into the value, unless the value lies in (-f, 0). */
  lemma Recombine(v: int, f: int)
    requires f >= 1 && (v >= 0 || v <= -f)
    ensures var q := TruncDiv(v, f); var r: int := Abs(TruncRem(v, f));
      q * f + (if q < 0 then -r else r) == v
  {
    var q, r := TruncDiv(v, f), TruncRem(v, f);
    TruncDivRem(v, f);
    if v < 0 {
      assert f * Abs(q) > 0;
      assert q < 0 && r <= 0;
    }
  }

  /** The value of a fraction token of digits, as `fromString` reads it: padded with
      zeros or cut down to `scale` digits, never rounded. */
  function FractionValue(fraction: string, scale: nat): nat
    requires AllDigits(fraction)
  {
    if |fraction| <= scale then DigitsValue(fraction) * Pow10(scale - |fraction|)
    else DigitsValue(fraction[..scale])
  }

  /** A whole token that Java parses, a dot and a fraction of digits: the result is
      `whole * 10^scale` plus the scaled fraction, which is subtracted instead exactly
      when the parsed whole part is negative. */
  lemma {:induction false} FromStringDecimal(scale: nat, whole: string, fraction: string)
    requires ValidScale(scale)
    requires '.' !in whole && fraction != [] && AllDigits(fraction)
    requires ParseLong(whole).Some?
    ensures FractionValue(fraction, scale) < Factor(scale)
    ensures FromString(scale, whole + "." + fraction)
         == Success(Fixed(Combine(scale, ParseLong(whole).value, FractionValue(fraction, scale))))
  {
    assert '.' !in fraction by { assert forall i :: 0 <= i < |fraction| ==> IsDigit(fraction[i]); }
    SplitTwo(whole, fraction);
    var fit := Fit(fraction, scale);
    FitDigits(fraction, scale);
    DigitsBound(fit);
    FactorBound(scale);
    assert DigitsValue(fit) == FractionValue(fraction, scale);
    assert fit[0] != '-' && fit[0] != '+' by { assert IsDigit(fit[0]); }
    assert ParseLong(fit) == Some(DigitsValue(fit));
  }

  /** `toString` then `fromString` gives back the value, except for values strictly
      between -1 and 0, whose printed form has lost its minus sign. */
  lemma {:induction false} RoundTrip(scale: nat, x: Fixed)
    requires ValidScale(scale)
    requires x.value >= 0 || x.value <= -Factor(scale)
    ensures FromString(scale, ToString(scale, x)) == Success(x)
  {
    var f := Factor(scale);
    var q, r := TruncDiv(x.value, f), Abs(TruncRem(x.value, f));
    ToStringParts(scale, x);
    ReadPrinted(scale, x);
    assert Combine(scale, q, r) == x.value by { Recombine(x.value, f); }
  }

  /** `fromString` then `toString` gives back the text, with the fraction padded to
      `scale` digits, for a canonical whole part (as `%d` prints it) and a fraction of
      at most `scale` digits whose combined value fits in a `long`. */
  lemma {:induction false} PrintAfterParse(scale: nat, w: Long, fraction: string)
    requires ValidScale(scale)
    requires 1 <= |fraction| <= scale && AllDigits(fraction)
    requires InRange(w * Factor(scale) + (if w < 0 then -(FractionValue(fraction, scale) as int) else FractionValue(fraction, scale)))
    ensures var r := FromString(scale, FormatLong(w) + "." + fraction);
      r.Success? && ToString(scale, r.value) == FormatLong(w) + "." + fraction + Repeat('0', scale - |fraction|)
  {
    var fv := FractionValue(fraction, scale);
    ParseCanonical(scale, w, fraction);
    PrintPadded(scale, w, fraction, fv);
    Reassociate(FormatLong(w), fraction, Repeat('0', scale - |fraction|));
  }

  /** Kept apart so that the concatenation is reasoned about on plain strings. */
  lemma Reassociate(whole: string, fraction: string, zeros: string)
    ensures whole + "." + (fraction + zeros) == whole + "." + fraction + zeros
  {
  }

  /** Printing the combination of a whole part and a short fraction's value. */
  lemma PrintPadded(scale: nat, w: Long, fraction: string, fv: nat)
    requires ValidScale(scale) && 1 <= |fraction| <= scale && AllDigits(fraction)
    requires fv == FractionValue(fraction, scale) && fv < Factor(scale)
    requires InRange(w * Factor(scale) + (if w < 0 then -(fv as int) else fv))
    ensures ToString(scale, Fixed(Combine(scale, w, fv))) == FormatLong(w) + "." + (fraction + Repeat('0', scale - |fraction|))
  {
    PrintCombined(scale, w, fv);
    PaddedFraction(scale, fraction);
  }

  /** A `%d`-printed whole part, a dot and a digit fraction read as their combination. */
  lemma ParseCanonical(scale: nat, w: Long, fraction: string)
    requires ValidScale(scale) && fraction != [] && AllDigits(fraction)
    ensures FractionValue(fraction, scale) < Factor(scale)
    ensures FromString(scale, FormatLong(w) + "." + fraction) == Success(Fixed(Combine(scale, w, FractionValue(fraction, scale))))
  {
    ParseFormatLong(w);
    FromStringDecimal(scale, FormatLong(w), fraction);
  }

  /** A whole part and a fraction below the factor, combined by the sign rule and
      printed, give the whole part's `%d` text and the fraction zero-padded. */
  lemma PrintCombined(scale: nat, w: Long, fv: nat)
    requires ValidScale(scale) && fv < Factor(scale)
    requires InRange(w * Factor(scale) + (if w < 0 then -(fv as int) else fv))
    ensures ToString(scale, Fixed(Combine(scale, w, fv))) == FormatLong(w) + "." + ZeroPad(fv, scale)
  {
    var v := Combine(scale, w, fv);
    CombineQuotient(w, Factor(scale), fv);
    ToStringParts(scale, Fixed(v));
  }

  /** The sign rule of `fromString` is undone by truncating division. */
  lemma CombineQuotient(w: int, f: int, fv: nat)
    requires f >= 1 && fv < f
    ensures var v := w * f + (if w < 0 then -(fv as int) else fv);
      TruncDiv(v, f) == w && Abs(TruncRem(v, f)) == fv
  {
    var v := w * f + (if w < 0 then -(fv as int) else fv);
    var m: nat := Abs(w);
    assert Abs(v) == m * f + fv by {
      if w < 0 { assert v == -(m * f + fv); MulNonneg(m, f); }
      else { MulNonneg(m, f); }
    }
    DivUnique(Abs(v), f, m, fv);
  }

  /** Euclid's division of a non-negative number is unique. */
  lemma DivUnique(a: nat, f: int, q: nat, r: nat)
    requires f >= 1 && r < f && a == q * f + r
    ensures a / f == q && a % f == r
  {
    DivMod(a, f);
    var q' := a / f;
    if q' > q { MulNonneg(f, q' - q - 1); }
    if q' < q { MulNonneg(f, q - q' - 1); }
  }

  /** A fraction of at most `scale` digits, read and then printed with `%0<scale>d`,
      comes back with zeros appended. */
  lemma PaddedFraction(scale: nat, fraction: string)
    requires ValidScale(scale) && 1 <= |fraction| <= scale && AllDigits(fraction)
    ensures ZeroPad(FractionValue(fraction, scale), scale) == fraction + Repeat('0', scale - |fraction|)
  {
    var k := scale - |fraction|;
    var padded := fraction + Repeat('0', k);
    TrailingZeros(fraction, k);
    DigitsBound(padded);
    DigitsInjective(ZeroPad(FractionValue(fraction, scale), scale), padded);
  }

  /** The printed parts of `x` read back as the truncated quotient combined with the
      remainder's digits. */
  lemma ReadPrinted(scale: nat, x: Fixed)
    requires ValidScale(scale)
    ensures InRange(TruncDiv(x.value, Factor(scale)))
    ensures FromString(scale, FormatLong(TruncDiv(x.value, Factor(scale))) + "." + ZeroPad(Abs(TruncRem(x.value, Factor(scale))), scale))
         == Success(Fixed(Combine(scale, TruncDiv(x.value, Factor(scale)), Abs(TruncRem(x.value, Factor(scale))))))
  {
    var f := Factor(scale);
    var q := TruncDiv(x.value, f);
    TruncDivPositive(x.value, f);
    FractionOfZeroPad(scale, x);
    ParseFormatLong(q);
    Parsed(scale, FormatLong(q), ZeroPad(Abs(TruncRem(x.value, f)), scale), q, Abs(TruncRem(x.value, f)));
  }

  /** Reads a concrete decimal whose parts' values are already known. */
  lemma Parsed(scale: nat, whole: string, fraction: string, w: Long, fv: int)
    requires ValidScale(scale) && '.' !in whole && fraction != [] && AllDigits(fraction)
    requires ParseLong(whole) == Some(w) && FractionValue(fraction, scale) == fv
    ensures FromString(scale, whole + "." + fraction) == Success(Fixed(Combine(scale, w, fv)))
  {
    FromStringDecimal(scale, whole, fraction);
  }

  /** Names the two printed parts of a concrete value. */
  lemma Printed(scale: nat, x: Fixed, whole: string, fraction: string)
    requires scale >= 1
    requires FormatLong(TruncDiv(x.value, Factor(scale))) == whole
    requires ZeroPad(Abs(TruncRem(x.value, Factor(scale))), scale) == fraction
    ensures ToString(scale, x) == whole + "." + fraction
  {
    ToStringParts(scale, x);
  }

  lemma ToStringParts(scale: nat, x: Fixed)
    requires scale >= 1
    ensures ToString(scale, x)
         == FormatLong(TruncDiv(x.value, Factor(scale))) + "." + ZeroPad(Abs(TruncRem(x.value, Factor(scale))), scale)
  {
  }

  /** The fraction `toString` prints has exactly `scale` digits and reads back as the remainder. */
  lemma FractionOfZeroPad(scale: nat, x: Fixed)
    requires ValidScale(scale)
    ensures var fraction := ZeroPad(Abs(TruncRem(x.value, Factor(scale))), scale);
      |fraction| == scale && AllDigits(fraction)
      && FractionValue(fraction, scale) == Abs(TruncRem(x.value, Factor(scale)))
  {
    TruncDivRem(x.value, Factor(scale));
    var fraction := ZeroPad(Abs(TruncRem(x.value, Factor(scale))), scale);
    assert Pow10(scale - |fraction|) == 1;
  }

  /** The sign quirk: a value strictly between -1 and 0 prints as `0.<digits>` and
      parses back as its own absolute value. */
  lemma {:induction false} NegativeFractionLosesSign(scale: nat, x: Fixed)
    requires ValidScale(scale)
    requires -Factor(scale) < x.value < 0
    ensures -(x.value as int) <= MAX
    ensures FromString(scale, ToString(scale, x)) == Success(Fixed(-(x.value as int)))
  {
    FactorBound(scale);
    var m: Long := -(x.value as int);
    PrintsUnsigned(scale, x);
    ParseFormatLong(0);
    FullWidthFraction(scale, m);
    ReadZeroWhole(scale, FormatLong(0), ZeroPad(m, scale), m);
  }

  /** A value in (-1, 0) has quotient 0 and prints as `0.` and its absolute remainder. */
  lemma PrintsUnsigned(scale: nat, x: Fixed)
    requires ValidScale(scale)
    requires -Factor(scale) < x.value < 0
    ensures ToString(scale, x) == FormatLong(0) + "." + ZeroPad(-(x.value as int), scale)
  {
    DivMod(Abs(x.value), Factor(scale));
    assert TruncDiv(x.value, Factor(scale)) == 0 && TruncRem(x.value, Factor(scale)) == x.value;
    ToStringParts(scale, x);
  }

  /** A whole part that reads as 0 adds the fraction's value unchanged. */
  lemma ReadZeroWhole(scale: nat, whole: string, fraction: string, m: Long)
    requires ValidScale(scale)
    requires '.' !in whole && ParseLong(whole) == Some(0)
    requires fraction != [] && AllDigits(fraction) && FractionValue(fraction, scale) == m && m >= 0
    ensures FromString(scale, whole + "." + fraction) == Success(Fixed(m))
  {
    FromStringDecimal(scale, whole, fraction);
    assert Combine(scale, 0, m) == m by { assert 0 * Factor(scale) + m == m; }
  }

  /** A value below the factor, zero-padded to `scale` digits, reads back as itself. */
  lemma FullWidthFraction(scale: nat, m: nat)
    requires ValidScale(scale) && m < Factor(scale)
    ensures |ZeroPad(m, scale)| == scale && AllDigits(ZeroPad(m, scale)) && FractionValue(ZeroPad(m, scale), scale) == m
  {
    assert Pow10(0) == 1;
  }
}
