/**
 * Java `long` arithmetic: the 64-bit two's-complement range, the silent
 * wrap-around of `+`, `-` and `*`, and the truncating `/` and `%`.
 */
module Int64 {
  const MIN: int := -0x8000_0000_0000_0000
  const MAX: int := 0x7FFF_FFFF_FFFF_FFFF
  const MODULUS: int := 0x1_0000_0000_0000_0000

  /** A value of Java type `long`. */
  type Long = x: int | MIN <= x <= MAX

  predicate InRange(x: int) { MIN <= x <= MAX }

  /** A value of Java type `int`. */
  type JavaInt = x: int | -0x8000_0000 <= x <= 0x7FFF_FFFF

  function Abs(x: int): (r: nat)
    ensures r == x || r == -x
  {
    if x < 0 then -x else x
  }

  /** The `long` that Java stores for the mathematical result `x`. */
  function Wrap(x: int): (r: Long)
    ensures InRange(x) ==> r == x
    ensures (x - r) % MODULUS == 0
  {
    var m := (x - MIN) % MODULUS;
    assert x - MIN == MODULUS * ((x - MIN) / MODULUS) + m;
    m + MIN
  }

  /** Two mathematical results that differ by a multiple of 2^64 are stored as the same `long`. */
  lemma WrapCongruent(x: int, y: int)
    requires (x - y) % MODULUS == 0
    ensures Wrap(x) == Wrap(y)
  {
    var k := (x - y) / MODULUS;
    assert x - y == MODULUS * k;
    var qx, qy := (x - MIN) / MODULUS, (y - MIN) / MODULUS;
    var rx, ry := (x - MIN) % MODULUS, (y - MIN) % MODULUS;
    assert x - MIN == MODULUS * qx + rx;
    assert y - MIN == MODULUS * qy + ry;
    assert rx - ry == MODULUS * (k - qx + qy);
  }

  /** Wrapping an intermediate result does not change the final one: Java
      wraps after every operation, and that equals one wrap at the end. */
  lemma WrapAdd(x: int, y: int)
    ensures Wrap(Wrap(x) + y) == Wrap(x + y)
  {
    var w := Wrap(x);
    assert (w + y) - (x + y) == -(x - w);
    assert (x - w) % MODULUS == 0;
    assert (x - w) == MODULUS * ((x - w) / MODULUS);
    assert -(x - w) == MODULUS * (-((x - w) / MODULUS));
    WrapCongruent(w + y, x + y);
  }

  /** Java's `a / b` on `long`: the quotient truncated toward zero (before wrap-around). */
  function TruncDiv(a: int, b: int): int
    requires b != 0
  {
    var q := Abs(a) / Abs(b);
    if (a < 0) == (b < 0) then q else -q
  }

  /** Java's `a % b` on `long`: the remainder that goes with `TruncDiv`. */
  function TruncRem(a: int, b: int): int
    requires b != 0
  {
    var r := Abs(a) % Abs(b);
    if a < 0 then -r else r
  }

  /** Truncating division and remainder recombine to the dividend; the
      remainder is smaller than the divisor and takes the dividend's sign. */
  lemma TruncDivRem(a: int, b: int)
    requires b != 0
    ensures a == b * TruncDiv(a, b) + TruncRem(a, b)
    ensures Abs(TruncRem(a, b)) < Abs(b)
    ensures a >= 0 ==> TruncRem(a, b) >= 0
    ensures a <= 0 ==> TruncRem(a, b) <= 0
    ensures Abs(b) * Abs(TruncDiv(a, b)) <= Abs(a) < Abs(b) * (Abs(TruncDiv(a, b)) + 1)
  {
    var aa: int, bb: int := Abs(a), Abs(b);
    var q: int, r: int := aa / bb, aa % bb;
    DivMod(aa, bb);
    assert TruncDiv(a, b) == (if (a < 0) == (b < 0) then q else -q);
    assert TruncRem(a, b) == (if a < 0 then -r else r);
    SignedProduct(b, q, (a < 0) == (b < 0));
  }

  lemma DivMod(aa: int, bb: int)
    requires aa >= 0 && bb > 0
    ensures aa == bb * (aa / bb) + aa % bb && 0 <= aa % bb < bb
    ensures bb * (aa / bb) <= aa < bb * (aa / bb + 1)
    ensures 0 <= aa / bb <= aa
    ensures aa / bb == 0 <==> aa < bb
  {
    var q, r := aa / bb, aa % bb;
    assert bb * (q + 1) == bb * q + bb;
    MulNonneg(bb - 1, q);
    assert bb * q == q + (bb - 1) * q;
    if q > 0 {
      MulNonneg(bb, q - 1);
      assert bb * q == bb + bb * (q - 1);
    }
  }

  lemma MulNonneg(x: int, y: int)
    requires x >= 0 && y >= 0
    ensures x * y >= 0
  {
  }

  /** A multiple of `f` divides by `f` exactly. */
  lemma ExactDivision(m: nat, f: int)
    requires f >= 1
    ensures (m * f) / f == m
  {
    var q, r := (m * f) / f, (m * f) % f;
    assert m * f == f * q + r;
    assert f * (m - q) == r;
    if m - q > 0 { MulNonneg(f, m - q - 1); }
    if m - q < 0 { MulNonneg(f, q - m); }
  }

  /** A nonzero factor never shrinks a product's magnitude. */
  lemma MulAbsBound(x: int, y: int)
    requires y != 0
    ensures Abs(x * y) >= Abs(x)
  {
    var a: int, b: int := Abs(x), Abs(y);
    assert a * b >= a by {
      MulNonneg(a, b - 1);
      assert a * b == a * (b - 1) + a;
    }
    assert x * y == a * b || x * y == -(a * b) by {
      assert x == a || x == -a;
      assert y == b || y == -b;
      assert (-a) * b == -(a * b) && a * (-b) == -(a * b) && (-a) * (-b) == a * b;
    }
  }

  lemma SignedProduct(b: int, q: int, same: bool)
    requires b != 0 && q >= 0
    ensures b * (if same then q else -q) == (if same == (b < 0) then -((Abs(b) as int) * q) else (Abs(b) as int) * q)
  {
    if b < 0 {
      assert b * q == -(Abs(b) * q);
      assert b * -q == Abs(b) * q;
    } else {
      assert b * -q == -(Abs(b) * q);
    }
  }

  /** Division by a positive divisor: the quotient's magnitude is the floor of the
      magnitudes' ratio, its sign is the dividend's, and it stays within `long`. */
  lemma TruncDivPositive(a: int, b: int)
    requires b > 0
    ensures b * Abs(TruncDiv(a, b)) <= Abs(a) < b * (Abs(TruncDiv(a, b)) + 1)
    ensures TruncDiv(a, b) < 0 ==> a < 0
    ensures TruncDiv(a, b) > 0 ==> a > 0
    ensures Abs(TruncDiv(a, b)) <= Abs(a)
    ensures InRange(a) ==> InRange(TruncDiv(a, b))
  {
    var aa: int := Abs(a);
    DivMod(aa, b);
    var t := TruncDiv(a, b);
    assert Abs(t) == aa / b;
  }

  /** Java `a / d` on `long` needs no wrap-around except for `Long.MIN_VALUE / -1`. */
  lemma TruncDivInRange(a: Long, d: Long)
    requires d != 0 && !(a == MIN && d == -1)
    ensures InRange(TruncDiv(a, d))
  {
    var aa: int, dd: int := Abs(a), Abs(d);
    DivMod(aa, dd);
    var q := aa / dd;
    if q == aa && aa == -MIN {
      assert dd == 1;
    }
  }
}
