/** Fixed-width integers of the AVR target (where `int` is 16 bits) and the
    C operations on them that the firmware relies on: conversion to a
    16-bit type by wrap-around, reading the low half of a 32-bit value as a
    signed 16-bit value, and C's truncating division. */
module FixedWidth {

  type i8 = x: int | -0x80 <= x < 0x80
  type u8 = x: int | 0 <= x < 0x100
  type i16 = x: int | -0x8000 <= x < 0x8000
  type u16 = x: int | 0 <= x < 0x1_0000

  const I32_MIN: int := -0x8000_0000
  const I32_MAX: int := 0x7FFF_FFFF

  function Abs(x: int): (r: nat)
    ensures r == x || r == -x
  {
    if x < 0 then -x else x
  }

  /** Conversion to `uint16_t`: the unique 16-bit unsigned value congruent to v. */
  function AsU16(v: int): (r: u16)
    ensures (r - v) % 0x1_0000 == 0
    ensures 0 <= v < 0x1_0000 ==> r == v
  {
    v % 0x1_0000
  }

  /** The low 16 bits of v, read as a signed 16-bit value (what the
      firmware's `*((int16_t*)&v)` reads on a little-endian target, and
      what a conversion to `int16_t` yields on avr-gcc). */
  function AsI16(v: int): (r: i16)
    ensures (r - v) % 0x1_0000 == 0
    ensures -0x8000 <= v < 0x8000 ==> r == v
  {
    var m := v % 0x1_0000;
    if m < 0x8000 then m else m - 0x1_0000
  }

  lemma {:induction false} AsI16Congruent(a: int, b: int)
    requires (a - b) % 0x1_0000 == 0
    ensures AsI16(a) == AsI16(b)
  {
    assert a % 0x1_0000 == b % 0x1_0000 by { ModCongruent(a, b); }
  }

  lemma {:induction false} AsU16Congruent(a: int, b: int)
    requires (a - b) % 0x1_0000 == 0
    ensures AsU16(a) == AsU16(b)
  {
    ModCongruent(a, b);
  }

  /** Sums commute with wrapping to 16 bits. */
  lemma AsU16Add(a: int, b: int)
    ensures AsU16(AsU16(a) + AsU16(b)) == AsU16(a + b)
  {
    AsU16Congruent(AsU16(a) + AsU16(b), a + b);
  }

  lemma ModCongruent(a: int, b: int)
    requires (a - b) % 0x1_0000 == 0
    ensures a % 0x1_0000 == b % 0x1_0000
  {
    var k := (a - b) / 0x1_0000;
    assert a - b == k * 0x1_0000;
    assert a == b + k * 0x1_0000;
    ModShift(b, k);
  }

  /** Congruence modulo 2^16 survives addition. */
  lemma AddCongruent(a: int, b: int, c: int, d: int)
    requires (a - b) % 0x1_0000 == 0 && (c - d) % 0x1_0000 == 0
    ensures ((a + c) - (b + d)) % 0x1_0000 == 0
  {
    var k, m := (a - b) / 0x1_0000, (c - d) / 0x1_0000;
    assert (a + c) - (b + d) == 0 + (k + m) * 0x1_0000;
    ModShift(0, k + m);
  }

  /** Congruence modulo 2^16 survives multiplication. */
  lemma MulCongruent(a: int, b: int, t: int)
    requires (a - b) % 0x1_0000 == 0
    ensures (a * t - b * t) % 0x1_0000 == 0
  {
    var k := (a - b) / 0x1_0000;
    assert a - b == k * 0x1_0000;
    assert a * t - b * t == (k * t) * 0x1_0000;
    ModShift(0, k * t);
  }

  lemma ModShift(b: int, k: int)
    ensures (b + k * 0x1_0000) % 0x1_0000 == b % 0x1_0000
  {
  }

  /** C's integer division `a / b`: the quotient truncated toward zero. */
  function Quot(a: int, b: int): (q: int)
    requires b != 0
    ensures Abs(q) * Abs(b) <= Abs(a) < (Abs(q) + 1) * Abs(b)
    ensures q == 0 || ((q < 0) <==> ((a < 0) != (b < 0)))
  {
    var m := Abs(a) / Abs(b);
    DivBounds(Abs(a), Abs(b));
    if (a < 0) == (b < 0) then m else -m
  }

  lemma DivBounds(n: nat, d: nat)
    requires d > 0
    ensures (n / d) * d <= n < (n / d + 1) * d
  {
    var q, r := n / d, n % d;
    assert n == q * d + r;
    assert (q + 1) * d == q * d + d;
  }

  /** Division has one result: a quotient and remainder in range are the ones `/` gives. */
  lemma {:induction false} DivUnique(n: int, d: int, q: int, r: int)
    requires d > 0 && 0 <= r < d && n == q * d + r
    ensures n / d == q
  {
    var q', r' := n / d, n % d;
    assert n == q' * d + r';
    assert (q - q') * d == r' - r;
    if q > q' {
      MulAtLeast(q - q', d);
    } else if q < q' {
      MulAtLeast(q' - q, d);
    }
  }

  lemma MulAtLeast(k: int, d: int)
    requires k >= 1 && d > 0
    ensures k * d >= d
  {
  }

  /** Scaling numerator and denominator by the same positive factor does not change the quotient. */
  lemma {:induction false} QuotScale(a: int, b: int, k: int)
    requires b != 0 && k > 0
    ensures Quot(k * a, k * b) == Quot(a, b)
  {
    var n, d := Abs(a), Abs(b);
    assert Abs(k * a) == k * n && Abs(k * b) == k * d;
    var q, r := n / d, n % d;
    assert n == q * d + r;
    assert k * n == q * (k * d) + k * r by {
      assert k * (q * d + r) == q * (k * d) + k * r;
    }
    assert 0 <= k * r < k * d by { MulStrict(r, d, k); }
    DivUnique(k * n, k * d, q, k * r);
  }

  lemma MulLeMono(a: int, b: int, c: int)
    requires a <= b && c >= 0
    ensures a * c <= b * c
  {
  }

  lemma AbsMul(x: int, y: int)
    ensures Abs(x * y) == Abs(x) * Abs(y)
  {
    if x < 0 && y < 0 {
      assert x * y == (-x) * (-y);
    } else if x < 0 {
      assert x * y == -((-x) * y);
    } else if y < 0 {
      assert x * y == -(x * (-y));
    }
  }

  /** Multiplying by a positive factor preserves order and equality. */
  lemma ScaleOrder(k: int, a: int, b: int)
    requires k > 0
    ensures (k * a < k * b <==> a < b) && (k * a == k * b <==> a == b)
  {
    assert k * b - k * a == k * (b - a);
    if a < b {
      MulStrict(0, b - a, k);
    } else if b < a {
      MulStrict(0, a - b, k);
    }
  }

  lemma ShiftAssoc(k: int, y: int)
    ensures k * (y * 0x1_0000) == (k * y) * 0x1_0000
  {
  }

  lemma MulStrict(r: int, d: int, k: int)
    requires 0 <= r < d && k > 0
    ensures 0 <= k * r < k * d
  {
  }

  /** Negating numerator and denominator does not change the quotient. */
  lemma QuotNegateBoth(a: int, b: int)
    requires b != 0
    ensures Quot(-a, -b) == Quot(a, b)
  {
  }
}
