/**
 * The pieces of the Java library that the fixed-point values use for text:
 * `Long.parseLong`, the `%d` and `%0Nd` conversions of `String.format`,
 * `String.split("\\.")`, and the pad-or-truncate step applied to a fraction.
 * Only ASCII decimal digits are recognised.
 */
module JavaText {
  import opened Int64
  import opened Outcomes

  predicate IsDigit(c: char) { '0' <= c <= '9' }

  predicate AllDigits(s: string) { forall i :: 0 <= i < |s| ==> IsDigit(s[i]) }

  function DigitValue(c: char): nat
    requires IsDigit(c)
  {
    (c as int) - ('0' as int)
  }

  function DigitChar(d: nat): (c: char)
    requires d < 10
    ensures IsDigit(c) && DigitValue(c) == d
  {
    ('0' as int + d) as char
  }

  function Pow10(n: nat): (p: nat)
    ensures p >= 1
  {
    if n == 0 then 1 else 10 * Pow10(n - 1)
  }

  lemma Pow10Monotone(m: nat, n: nat)
    requires m <= n
    ensures Pow10(m) <= Pow10(n)
  {
    if m < n { Pow10Monotone(m, n - 1); }
  }

  /** The number a string of decimal digits denotes (most significant digit first). */
  function DigitsValue(s: string): nat
    requires AllDigits(s)
  {
    if s == [] then 0 else 10 * DigitsValue(s[..|s| - 1]) + DigitValue(s[|s| - 1])
  }

  /** The shortest decimal rendering of a natural number, as `%d` prints it. */
  function NatToDigits(n: nat): (s: string)
    ensures |s| >= 1 && AllDigits(s) && DigitsValue(s) == n
    ensures s[0] == '0' ==> n == 0
  {
    if n < 10 then [DigitChar(n)]
    else
      var prefix := NatToDigits(n / 10);
      var s := prefix + [DigitChar(n % 10)];
      assert s[..|s| - 1] == prefix && s[0] == prefix[0];
      s
  }

  lemma {:induction false} NatToDigitsLength(n: nat, k: nat)
    requires n < Pow10(k) && k >= 1
    ensures |NatToDigits(n)| <= k
  {
    if n >= 10 {
      assert k >= 2;
      NatToDigitsLength(n / 10, k - 1);
    }
  }

  lemma DigitsFitWidth(n: nat, width: nat)
    ensures n < Pow10(width) && width >= 1 ==> |NatToDigits(n)| <= width
  {
    if n < Pow10(width) && width >= 1 { NatToDigitsLength(n, width); }
  }

  function Repeat(c: char, n: nat): (s: string)
    ensures |s| == n && forall i :: 0 <= i < n ==> s[i] == c
  {
    if n == 0 then [] else Repeat(c, n - 1) + [c]
  }

  lemma {:induction false} LeadingZero(s: string)
    requires AllDigits(s)
    ensures AllDigits(['0'] + s) && DigitsValue(['0'] + s) == DigitsValue(s)
  {
    if s != [] {
      var t := ['0'] + s;
      assert t[..|t| - 1] == ['0'] + s[..|s| - 1];
      LeadingZero(s[..|s| - 1]);
    }
  }

  lemma {:induction false} LeadingZeros(n: nat, s: string)
    requires AllDigits(s)
    ensures AllDigits(Repeat('0', n) + s) && DigitsValue(Repeat('0', n) + s) == DigitsValue(s)
  {
    if n > 0 {
      assert Repeat('0', n) + s == Repeat('0', n - 1) + (['0'] + s);
      LeadingZero(s);
      LeadingZeros(n - 1, ['0'] + s);
    } else {
      assert Repeat('0', n) + s == s;
    }
  }

  /** Two digit strings of one length that denote the same number are the same string. */
  lemma {:induction false} DigitsInjective(s: string, t: string)
    requires |s| == |t| && AllDigits(s) && AllDigits(t) && DigitsValue(s) == DigitsValue(t)
    ensures s == t
  {
    if s != [] {
      var n := |s| - 1;
      assert DigitValue(s[n]) == DigitValue(t[n]) && DigitsValue(s[..n]) == DigitsValue(t[..n]);
      DigitsInjective(s[..n], t[..n]);
      assert s == s[..n] + [s[n]] && t == t[..n] + [t[n]];
    }
  }

  lemma {:induction false} TrailingZeros(s: string, n: nat)
    requires AllDigits(s)
    ensures AllDigits(s + Repeat('0', n)) && DigitsValue(s + Repeat('0', n)) == DigitsValue(s) * Pow10(n)
  {
    if n > 0 {
      var t := s + Repeat('0', n);
      assert t[..|t| - 1] == s + Repeat('0', n - 1);
      TrailingZeros(s, n - 1);
    } else {
      assert s + Repeat('0', 0) == s;
    }
  }

  /** `%0<width>d` for a non-negative value: left-padded with zeros to `width` characters. */
  function ZeroPad(n: nat, width: nat): (s: string)
    ensures AllDigits(s) && DigitsValue(s) == n
    ensures n < Pow10(width) && width >= 1 ==> |s| == width
  {
    var d := NatToDigits(n);
    DigitsFitWidth(n, width);
    if |d| < width then
      LeadingZeros(width - |d|, d);
      Repeat('0', width - |d|) + d
    else d
  }

  /** `%d` for a `long`: a minus sign for negative values, then the digits of the magnitude. */
  function FormatLong(x: int): (s: string)
    ensures '.' !in s && s != []
    ensures s[0] == '-' <==> x < 0
    ensures x >= 0 ==> AllDigits(s) && DigitsValue(s) == x
    ensures x < 0 ==> AllDigits(s[1..]) && DigitsValue(s[1..]) == -x
    ensures x >= 0 && s[0] == '0' ==> x == 0
    ensures x == 0 ==> s == "0"
    ensures x < 0 ==> |s| >= 2 && s[1] != '0'
  {
    if x < 0 then "-" + NatToDigits(-x) else NatToDigits(x)
  }

  /** The text after one optional leading `+` or `-`. */
  function Unsigned(s: string): (body: string)
    ensures |body| == |s| || |body| == |s| - 1
  {
    if s != [] && (s[0] == '-' || s[0] == '+') then s[1..] else s
  }

  /** `Long.parseLong`: an optional `+` or `-`, at least one digit, and a value within range;
      `None` is the `NumberFormatException`. */
  function ParseLong(s: string): (r: Option<Long>)
    ensures r.Some? && s != [] && s[0] != '-' && s[0] != '+' ==> AllDigits(s) && r.value == DigitsValue(s)
    ensures Unsigned(s) == [] || !AllDigits(Unsigned(s)) ==> r.None?
    ensures Unsigned(s) != [] && AllDigits(Unsigned(s)) ==>
      (r.Some? <==> DigitsValue(Unsigned(s)) <= (if s[0] == '-' then -MIN else MAX))
    ensures r.Some? ==>
      && Unsigned(s) != [] && AllDigits(Unsigned(s))
      && Abs(r.value) == DigitsValue(Unsigned(s))
      && (r.value < 0 ==> s[0] == '-')
      && (s[0] == '-' ==> r.value <= 0)
  {
    if s == [] then None
    else
      var signed := s[0] == '-' || s[0] == '+';
      var body := if signed then s[1..] else s;
      if body == [] || !AllDigits(body) then None
      else
        var n: int := if s[0] == '-' then -(DigitsValue(body) as int) else DigitsValue(body);
        if InRange(n) then Some(n) else None
  }

  /** What `%d` prints, `Long.parseLong` reads back. */
  lemma ParseFormatLong(x: Long)
    ensures ParseLong(FormatLong(x)) == Some(x)
  {
    if x < 0 { ParseNegative(NatToDigits(-(x as int)), x); } else { ParseDigits(NatToDigits(x)); }
  }

  lemma ParseDigits(d: string)
    requires d != [] && AllDigits(d) && DigitsValue(d) <= MAX
    ensures ParseLong(d) == Some(DigitsValue(d))
  {
    assert IsDigit(d[0]);
  }

  lemma ParseNegative(d: string, x: int)
    requires d != [] && AllDigits(d) && x == -(DigitsValue(d) as int) && InRange(x)
    ensures ParseLong("-" + d) == Some(x)
  {
    var s := "-" + d;
    assert s[0] == '-' && s[1..] == d;
  }

  /** Index of the first `.` in a string that contains one. */
  function FirstDot(s: string): (i: nat)
    requires '.' in s
    ensures i < |s| && s[i] == '.' && '.' !in s[..i]
  {
    if s[0] == '.' then 0
    else
      var j := FirstDot(s[1..]);
      assert s[..j + 1] == [s[0]] + s[1..][..j];
      j + 1
  }

  /** Every piece between dots, empty pieces included. */
  function DotPieces(s: string): (parts: seq<string>)
    ensures |parts| >= 1
    ensures forall k :: 0 <= k < |parts| ==> '.' !in parts[k]
    decreases |s|
  {
    if '.' !in s then [s]
    else
      var i := FirstDot(s);
      [s[..i]] + DotPieces(s[i + 1..])
  }

  function DropTrailingEmpty(parts: seq<string>): (r: seq<string>)
    ensures |r| <= |parts| && r == parts[..|r|]
    ensures r != [] ==> r[|r| - 1] != []
  {
    if parts == [] then []
    else if parts[|parts| - 1] == [] then DropTrailingEmpty(parts[..|parts| - 1])
    else parts
  }

  /** `s.split("\\.")`: the input itself when it holds no dot; otherwise the pieces
      between dots with trailing empty pieces removed (so `"."` gives none at all). */
  function SplitOnDot(s: string): (parts: seq<string>)
    ensures '.' !in s ==> parts == [s]
    ensures forall k :: 0 <= k < |parts| ==> '.' !in parts[k]
  {
    if '.' !in s then [s] else DropTrailingEmpty(DotPieces(s))
  }

  /** A text with exactly one dot and a non-empty fraction splits into its two sides. */
  lemma SplitTwo(whole: string, fraction: string)
    requires '.' !in whole && '.' !in fraction && fraction != []
    ensures SplitOnDot(whole + "." + fraction) == [whole, fraction]
  {
    var s := whole + "." + fraction;
    assert s[|whole|] == '.';
    var i := FirstDot(s);
    assert i == |whole|;
    assert s[..i] == whole && s[i + 1..] == fraction;
    assert DotPieces(s) == [whole, fraction];
  }

  function SpacesToZeros(s: string): (r: string)
    ensures |r| == |s|
    ensures forall i :: 0 <= i < |s| ==> r[i] == if s[i] == ' ' then '0' else s[i]
  {
    if s == [] then [] else SpacesToZeros(s[..|s| - 1]) + [if s[|s| - 1] == ' ' then '0' else s[|s| - 1]]
  }

  /** A fraction brought to exactly `scale` characters: a shorter one is padded on the
      right with spaces (`%-<scale>s`) and then every space becomes `0`; a longer one is cut. */
  function Fit(fraction: string, scale: nat): (r: string)
    ensures |r| == scale
  {
    if |fraction| < scale then SpacesToZeros(fraction + Repeat(' ', scale - |fraction|))
    else if |fraction| > scale then fraction[..scale]
    else fraction
  }

  /** For a fraction of digits, `Fit` scales it to `scale` digits: padding appends
      zeros and cutting drops digits, with no rounding. */
  lemma FitDigits(fraction: string, scale: nat)
    requires AllDigits(fraction)
    ensures AllDigits(Fit(fraction, scale))
    ensures |fraction| <= scale ==> DigitsValue(Fit(fraction, scale)) == DigitsValue(fraction) * Pow10(scale - |fraction|)
    ensures |fraction| > scale ==> DigitsValue(Fit(fraction, scale)) == DigitsValue(fraction[..scale])
  {
    if |fraction| < scale {
      FitPadded(fraction, scale);
    } else if |fraction| == scale {
      assert Fit(fraction, scale) == fraction;
    } else {
      FitCut(fraction, scale);
    }
  }

  lemma FitPadded(fraction: string, scale: nat)
    requires AllDigits(fraction) && |fraction| < scale
    ensures AllDigits(Fit(fraction, scale))
    ensures DigitsValue(Fit(fraction, scale)) == DigitsValue(fraction) * Pow10(scale - |fraction|)
  {
    var n := scale - |fraction|;
    assert Fit(fraction, scale) == SpacesToZeros(fraction + Repeat(' ', n));
    PadDigits(fraction, n);
  }

  lemma FitCut(fraction: string, scale: nat)
    requires AllDigits(fraction) && |fraction| > scale
    ensures AllDigits(Fit(fraction, scale))
    ensures DigitsValue(Fit(fraction, scale)) == DigitsValue(fraction[..scale])
  {
    var cut := fraction[..scale];
    assert Fit(fraction, scale) == cut;
    assert forall i :: 0 <= i < |cut| ==> cut[i] == fraction[i];
  }

  lemma PadDigits(fraction: string, n: nat)
    requires AllDigits(fraction)
    ensures SpacesToZeros(fraction + Repeat(' ', n)) == fraction + Repeat('0', n)
    ensures AllDigits(fraction + Repeat('0', n))
    ensures DigitsValue(fraction + Repeat('0', n)) == DigitsValue(fraction) * Pow10(n)
  {
    var padded := fraction + Repeat(' ', n);
    var zeros := fraction + Repeat('0', n);
    forall i | 0 <= i < |zeros| ensures SpacesToZeros(padded)[i] == zeros[i] {
      if i < |fraction| { assert padded[i] == fraction[i] && fraction[i] != ' '; }
    }
    TrailingZeros(fraction, n);
  }
}
