/** The firmware's 16-bit fixed-point four-quadrant arctangent
    (hoop_firmware/atan2.cpp). Angles are in units of 1/65536 of a turn.

    The helpers keep the LOW half of their 32-bit intermediate results, so
    the "Q15" ratio and the correction polynomial wrap around; the model
    keeps that wrap-around exactly. What is proved here is what the code
    guarantees whatever the approximation quality: the function is total
    (its divisions never divide by zero or overflow), its special cases, and
    the symmetries the octant offsets give it. */
module Trig {
  import opened FixedWidth

  /** 0.273/pi in Q15. */
  const K1: int := 2847
  /** 0.25 + 0.273/pi in Q15. */
  const K2: int := K1 + 8192

  /** `s16_nabs`: the negated magnitude, which cannot overflow even for -32768. */
  function SNabs(x: i16): (r: i16)
    ensures r <= 0
    ensures r + Abs(x) == 0
  {
    if x < 0 then x else -x
  }

  /** `q15_div`: the 32-bit quotient `(num << 16) / den`, truncated toward
      zero, of which only the low 16 bits are kept. The requires clause is
      exactly what keeps the 32-bit division defined. */
  function Q15Div(num: i16, den: i16): (r: i16)
    requires den != 0 && !(num == -0x8000 && den == -1)
    ensures I32_MIN <= Quot(num * 0x1_0000, den) <= I32_MAX
    ensures (r - Quot(num * 0x1_0000, den)) % 0x1_0000 == 0
  {
    Q15DivFits(num, den);
    AsI16(Quot(num * 0x1_0000, den))
  }

  lemma Q15DivFits(num: i16, den: i16)
    requires den != 0 && !(num == -0x8000 && den == -1)
    ensures I32_MIN <= Quot(num * 0x1_0000, den) <= I32_MAX
  {
    var a := num * 0x1_0000;
    var q := Quot(a, den);
    var m, d := Abs(q), Abs(den);
    assert Abs(a) <= 0x8000_0000;
    assert m * d <= Abs(a);
    if d >= 2 {
      MulLeMono(2, d, m);
      assert 2 * m <= d * m;
    } else if den == 1 {
      assert Abs(a) / Abs(den) == Abs(a);
    } else {
      assert Abs(a) / Abs(den) == Abs(a);
      assert num >= -0x7FFF;
    }
  }

  /** `q15_mul`: the exact 32-bit product, of which only the low 16 bits are kept. */
  function Q15Mul(x: i16, y: i16): (r: i16)
    ensures I32_MIN <= x * y <= I32_MAX
    ensures (r - x * y) % 0x1_0000 == 0
  {
    ProductFits(x, y);
    AsI16(x * y)
  }

  lemma ProductFits(x: i16, y: i16)
    ensures -0x4000_0000 <= x * y <= 0x4000_0000
  {
    var a, b := Abs(x), Abs(y);
    MulLeMono(a, 0x8000, b);
    AbsMul(x, y);
  }

  /** The polynomial `(K2 + K1 * (-|t|)) * t` applied to a ratio t. Since
      `q15_mul` keeps the low half of each product and the sum
      `K2 + correction` wraps in 16-bit `int` arithmetic, the result is that
      integer polynomial reduced modulo 2^16, with no Q15 rescaling. */
  function Unrotated(ratio: i16): (r: i16)
    ensures r == AsI16((K2 + K1 * SNabs(ratio)) * ratio)
    ensures ratio == 0 ==> r == 0
  {
    var correction := Q15Mul(K1, SNabs(ratio));
    var factor := AsI16(K2 + correction);
    var r := Q15Mul(factor, ratio);
    PolynomialWraps(SNabs(ratio), ratio, correction, factor, r);
    AsI16Congruent(r, (K2 + K1 * SNabs(ratio)) * ratio);
    r
  }

  /** Reducing each intermediate result modulo 2^16 reduces the whole
      polynomial modulo 2^16. */
  lemma PolynomialWraps(n: int, t: int, correction: int, factor: int, r: int)
    requires (correction - K1 * n) % 0x1_0000 == 0
    requires (factor - (K2 + correction)) % 0x1_0000 == 0
    requires (r - factor * t) % 0x1_0000 == 0
    ensures (r - (K2 + K1 * n) * t) % 0x1_0000 == 0
  {
    AddCongruent(factor - (K2 + correction), 0, correction - K1 * n, 0);
    MulCongruent(factor, K2 + K1 * n, t);
    AddCongruent(r - factor * t, 0, factor * t - (K2 + K1 * n) * t, 0);
  }

  /** The routine is no approximation of the arctangent: the direction
      (-100, 10) lies about 1040 units (5.7 degrees) from direction (-1, 0),
      whose angle is 0, yet comes out about half a turn away. */
  lemma Atan2FarFromTrueAngle()
    ensures Atan2(-100, 0) == 0 && Atan2(-100, 10) == 32552
  {
    assert Q15Div(10, -100) == -6553;
    assert Unrotated(-6553) == 32552 by {
      assert (K2 + K1 * SNabs(-6553)) * -6553 == 122182991656;
      AsI16Congruent(32552, 122182991656);
    }
  }

  /** `atan2(x, y)`: total on all pairs of 16-bit values. */
  function Atan2(x: i16, y: i16): (r: u16)
    ensures x == y ==> r == (if y > 0 then 8192 else if y < 0 then 40960 else 0)
  {
    if x == y then
      if y > 0 then 8192 else if y < 0 then 40960 else 0
    else
      var nabsY, nabsX := SNabs(y), SNabs(x);
      if nabsX < nabsY then
        var unrotated := Unrotated(Q15Div(y, x));
        if x < 0 then AsU16(unrotated) else AsU16(32768 + unrotated)
      else
        var unrotated := Unrotated(Q15Div(x, y));
        if y > 0 then AsU16(16384 - unrotated) else AsU16(49152 - unrotated)
  }

  /** The division in each branch is safe: the divisor is the dominant
      (nonzero) coordinate, and the 32-bit quotient stays within one
      wrap of 2^16 in magnitude, reaching -2^16 only on the anti-diagonal. */
  lemma {:induction false} Atan2DivisionSafe(x: i16, y: i16)
    requires x != y
    ensures Abs(x) > Abs(y) ==> x != 0 && -0x1_0000 < Quot(y * 0x1_0000, x) < 0x1_0000
    ensures Abs(x) < Abs(y) ==> y != 0 && -0x1_0000 < Quot(x * 0x1_0000, y) < 0x1_0000
    ensures Abs(x) == Abs(y) ==> y != 0 && x == -y && Quot(x * 0x1_0000, y) == -0x1_0000
  {
    if Abs(x) > Abs(y) {
      RatioBelowOne(y, x);
    } else if Abs(x) < Abs(y) {
      RatioBelowOne(x, y);
    } else {
      assert x == -y;
      if y > 0 {
        QuotScale(-0x1_0000, 1, y);
        assert y * (-0x1_0000) == x * 0x1_0000 && y * 1 == y;
      } else {
        QuotScale(0x1_0000, -1, -y);
        assert (-y) * 0x1_0000 == x * 0x1_0000 && (-y) * (-1) == y;
      }
    }
  }

  /** |n| < |d| makes |(n << 16) / d| < 2^16. */
  lemma RatioBelowOne(n: i16, d: i16)
    requires Abs(n) < Abs(d)
    ensures d != 0 && -0x1_0000 < Quot(n * 0x1_0000, d) < 0x1_0000
  {
    var q := Quot(n * 0x1_0000, d);
    assert Abs(n * 0x1_0000) == Abs(n) * 0x1_0000;
    if Abs(q) >= 0x1_0000 {
      MulLeMono(0x1_0000, Abs(q), Abs(d));
    }
  }

  /** On the anti-diagonal the 32-bit quotient is -2^16, whose low half is 0,
      so the angle is the bare octant offset. */
  lemma {:induction false} Atan2AntiDiagonal(y: i16)
    requires y != 0 && y != -0x8000
    ensures Atan2(-y, y) == if y > 0 then 16384 else 49152
  {
    Atan2DivisionSafe(-y, y);
    assert Q15Div(-y, y) == 0;
    assert Unrotated(0) == 0;
  }

  /** The four axis directions: -x is angle 0, +y a quarter turn, +x half a
      turn and -y three quarters. */
  lemma Atan2Axes(v: i16)
    requires v > 0
    ensures Atan2(-v, 0) == 0 && Atan2(0, v) == 16384
    ensures Atan2(v, 0) == 32768 && Atan2(0, -v) == 49152
  {
    assert Quot(0, v) == 0 && Quot(0, -v) == 0;
    assert Q15Div(0, v) == 0 && Q15Div(0, -v) == 0;
    assert Unrotated(0) == 0;
  }

  /** The magnitude of the vector does not change its angle: scaling both
      coordinates by a positive factor gives the same result. */
  lemma {:induction false} Atan2ScaleInvariant(x: i16, y: i16, k: int)
    requires k > 0 && -0x8000 <= k * x < 0x8000 && -0x8000 <= k * y < 0x8000
    ensures Atan2(k * x, k * y) == Atan2(x, y)
  {
    ScaleKeepsShape(x, y, k);
    if x == y {
      assert k * x == k * y;
    } else if Abs(x) > Abs(y) {
      ScaleXMajor(x, y, k);
    } else {
      ScaleYMajor(x, y, k);
    }
  }

  lemma {:induction false} ScaleXMajor(x: i16, y: i16, k: int)
    requires k > 0 && -0x8000 <= k * x < 0x8000 && -0x8000 <= k * y < 0x8000
    requires Abs(x) > Abs(y)
    ensures Atan2(k * x, k * y) == Atan2(x, y)
  {
    ScaleKeepsShape(x, y, k);
    QuotScale(y * 0x1_0000, x, k);
    ShiftAssoc(k, y);
    Atan2XMajor(x, y);
    Atan2XMajor(k * x, k * y);
  }

  lemma {:induction false} ScaleYMajor(x: i16, y: i16, k: int)
    requires k > 0 && -0x8000 <= k * x < 0x8000 && -0x8000 <= k * y < 0x8000
    requires Abs(x) <= Abs(y) && x != y
    ensures Atan2(k * x, k * y) == Atan2(x, y)
  {
    ScaleKeepsShape(x, y, k);
    QuotScale(x * 0x1_0000, y, k);
    ShiftAssoc(k, x);
    Atan2YMajor(x, y);
    Atan2YMajor(k * x, k * y);
  }

  /** Positive scaling keeps the signs, the equality and the order of the magnitudes. */
  lemma ScaleKeepsShape(x: int, y: int, k: int)
    requires k > 0
    ensures (k * x == k * y <==> x == y) && (k * x < 0 <==> x < 0) && (k * y > 0 <==> y > 0)
    ensures Abs(k * x) > Abs(k * y) <==> Abs(x) > Abs(y)
  {
    AbsMul(k, x);
    AbsMul(k, y);
    ScaleOrder(k, x, y);
    ScaleOrder(k, Abs(y), Abs(x));
    ScaleOrder(k, x, 0);
    ScaleOrder(k, 0, y);
  }

  /** Negating the vector turns its angle by exactly half a turn (the zero
      vector, which has no direction, excepted). */
  lemma {:induction false} Atan2HalfTurn(x: i16, y: i16)
    requires x != -0x8000 && y != -0x8000 && (x != 0 || y != 0)
    ensures Atan2(-x, -y) == AsU16(Atan2(x, y) + 32768)
  {
    if x == y {
      assert Atan2(x, y) == if y > 0 then 8192 else 40960;
      assert Atan2(-x, -y) == if y > 0 then 40960 else 8192;
    } else if Abs(x) > Abs(y) {
      HalfTurnXMajor(x, y);
    } else {
      HalfTurnYMajor(x, y);
    }
  }

  lemma {:induction false} HalfTurnXMajor(x: i16, y: i16)
    requires x != -0x8000 && y != -0x8000 && Abs(x) > Abs(y)
    ensures Atan2(-x, -y) == AsU16(Atan2(x, y) + 32768)
  {
    Q15DivNegateBoth(y, x);
    Atan2XMajor(x, y);
    Atan2XMajor(-x, -y);
    HalfTurnOffsets(Unrotated(Q15Div(y, x)));
  }

  lemma {:induction false} HalfTurnYMajor(x: i16, y: i16)
    requires x != -0x8000 && y != -0x8000 && Abs(x) <= Abs(y) && x != y
    ensures Atan2(-x, -y) == AsU16(Atan2(x, y) + 32768)
  {
    Q15DivNegateBoth(x, y);
    Atan2YMajor(x, y);
    Atan2YMajor(-x, -y);
    HalfTurnOffsets(Unrotated(Q15Div(x, y)));
  }

  /** The octant offsets of opposite octants differ by half a turn. */
  lemma HalfTurnOffsets(u: int)
    ensures AsU16(32768 + u) == AsU16(AsU16(u) + 32768)
    ensures AsU16(u) == AsU16(AsU16(32768 + u) + 32768)
    ensures AsU16(49152 - u) == AsU16(AsU16(16384 - u) + 32768)
    ensures AsU16(16384 - u) == AsU16(AsU16(49152 - u) + 32768)
  {
    AsU16Add(u, 32768);
    AsU16Add(32768 + u, 32768);
    AsU16Congruent(u, 65536 + u);
    AsU16Add(16384 - u, 32768);
    AsU16Add(49152 - u, 32768);
    AsU16Congruent(16384 - u, 81920 - u);
  }

  lemma Q15DivNegateBoth(a: i16, b: i16)
    requires b != 0 && a != -0x8000 && b != -0x8000
    ensures Q15Div(-a, -b) == Q15Div(a, b)
  {
    QuotNegateBoth(a * 0x1_0000, b);
    assert (-a) * 0x1_0000 == -(a * 0x1_0000);
  }

  /** Off both diagonals, swapping the coordinates (reflecting the vector in
      the diagonal) maps angle a to 3/4 turn - a. The diagonal cases do not
      follow this rule: see Atan2's special case and Atan2AntiDiagonal. */
  lemma {:induction false} Atan2Reflection(x: i16, y: i16)
    requires Abs(x) != Abs(y)
    ensures AsU16(Atan2(x, y) + Atan2(y, x)) == 49152
  {
    if Abs(x) > Abs(y) {
      var u: int := Unrotated(Q15Div(y, x));
      Atan2XMajor(x, y);
      Atan2YMajor(y, x);
      if x < 0 {
        AsU16Add(u, 49152 - u);
      } else {
        AsU16Add(32768 + u, 16384 - u);
      }
    } else {
      var u: int := Unrotated(Q15Div(x, y));
      Atan2XMajor(y, x);
      Atan2YMajor(x, y);
      if y < 0 {
        AsU16Add(49152 - u, u);
      } else {
        AsU16Add(16384 - u, 32768 + u);
      }
    }
  }

  /** Octants where |x| > |y|: the ratio y/x, offset 0 for x < 0 and half a
      turn for x > 0. This restates one branch of `Atan2` modulo 2^16 as a
      step toward `Atan2HalfTurn` and `Atan2Reflection`. */
  lemma Atan2XMajor(x: i16, y: i16)
    requires Abs(x) > Abs(y)
    ensures Atan2(x, y) == if x < 0 then AsU16(Unrotated(Q15Div(y, x)))
                           else AsU16(32768 + Unrotated(Q15Div(y, x)))
  {
  }

  /** Octants where |x| <= |y| off the diagonal: the ratio x/y, subtracted from
      a quarter turn for y > 0 and from three quarters for y < 0. This
      restates one branch of `Atan2` modulo 2^16 as a step toward
      `Atan2HalfTurn` and `Atan2Reflection`. */
  lemma Atan2YMajor(x: i16, y: i16)
    requires Abs(x) <= Abs(y) && x != y
    ensures y != 0 && !(x == -0x8000 && y == -1)
    ensures Atan2(x, y) == if y > 0 then AsU16(16384 - Unrotated(Q15Div(x, y)))
                           else AsU16(49152 - Unrotated(Q15Div(x, y)))
  {
  }
}
