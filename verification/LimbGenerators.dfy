/** Linear congruential generators on limbs (apps/sr_tiny.c:358-400, generators/lcg128.c:171-195,
    generators/lcg96.c:107-130): the rows of partial products and their carries are one multiplication and
    addition modulo the full word, and no intermediate overflows. */
module LimbGenerators {
  import opened Arithmetic
  import opened Int128

  // ----- Runs of a linear congruential generator -----

  ghost predicate IsLcgRun(a: int, c: int, m: int, xs: seq<int>)
    requires m > 0
  {
    |xs| > 0 && forall i | 0 <= i < |xs| - 1 :: xs[i + 1] == (a * xs[i] + c) % m
  }

  /** The constant that n steps add to a^n x. */
  function Offset(a: int, c: int, n: nat): int {
    if n == 0 then 0 else a * Offset(a, c, n - 1) + c
  }

  lemma AffineStep(a: int, c: int, m: int, x: int, p: int, o: int, y: int)
    requires m > 0 && Congruent(m, y, p * x + o)
    ensures Congruent(m, (a * y + c) % m, a * p * x + (a * o + c))
  {
    hide Congruent;
    var t := p * x;
    assert a * (t + o) == a * t + a * o && a * t == a * p * x;
    CongruentMul(m, y, t + o, a);
    CongruentBy(m, c, c, 0);
    CongruentAdd(m, a * y, a * t + a * o, c, c);
    CongruentMod(m, a * y + c);
    CongruentTrans(m, (a * y + c) % m, a * y + c, a * t + a * o + c);
  }

  /** n steps are one affine map, for every run and every n. */
  lemma {:induction false} RunIsAffine(a: int, c: int, m: int, xs: seq<int>, n: nat)
    requires m > 0 && IsLcgRun(a, c, m, xs) && n < |xs|
    ensures Congruent(m, xs[n], Pow(a, n) * xs[0] + Offset(a, c, n))
  {
    hide Congruent;
    if n == 0 {
      CongruentBy(m, xs[0], Pow(a, 0) * xs[0] + Offset(a, c, 0), 0);
    } else {
      RunIsAffine(a, c, m, xs, n - 1);
      AffineStep(a, c, m, xs[0], Pow(a, n - 1), Offset(a, c, n - 1), xs[n - 1]);
    }
  }

  // ----- Limbs in base b -----

  /** A limb of a row: the product plus the carry fits two limbs and is split there. */
  method MulLimb(b: int, a: int, x: int, carry: int) returns (lo: int, hi: int)
    requires 0 <= a < b && 0 <= x < b && 0 <= carry < b
    ensures a * x + carry == hi * b + lo && 0 <= lo < b && 0 <= hi < b
    ensures a * x + carry < b * b
  {
    ProductFits(b, a, x, carry);
    var mul := a * x + carry;
    lo, hi := mul % b, mul / b;
  }

  lemma ProductFits(b: int, a: int, x: int, carry: int)
    requires 0 <= a < b && 0 <= x < b && 0 <= carry < b
    ensures 0 <= a * x + carry < b * b
    ensures 0 <= (a * x + carry) / b < b
    ensures a * x + carry == (a * x + carry) / b * b + (a * x + carry) % b
  {
    ProductBelow(b, a, x);
    QuotientSmall(b, a * x + carry);
  }

  lemma ProductBelow(b: int, a: int, x: int)
    requires 0 <= a < b && 0 <= x < b
    ensures 0 <= a * x <= b * b - b
  {
    MulLe(0, a, x);
    MulLe(a, b - 1, x);
    MulLe(x, b, b - 1);
    assert (b - 1) * b == b * b - b;
  }

  lemma QuotientSmall(b: int, t: int)
    requires 0 <= t < b * b && 0 < b
    ensures 0 <= t / b < b
  {
    if t / b >= b {
      MulLe(b, t / b, b);
    }
  }

  /** A limb of a sum */
  method AddLimb(b: int, u: int, v: int, carry: int) returns (lo: int, hi: int)
    requires 0x1_0000 <= b && 0 <= u < b && 0 <= v < b && 0 <= carry < b
    ensures u + v + carry == hi * b + lo && 0 <= lo < b && 0 <= hi < b
    ensures u + v + carry < b * b
  {
    ProductFits(b, 1, u, 0);
    MulLe(0x1_0000, b, b);
    var sum := u + v + carry;
    QuotientSmall(b, sum);
    lo, hi := sum % b, sum / b;
  }

  // ----- apps/sr_tiny.c: 6906969069 x + 12345 modulo 2^64 on 16-bit limbs -----

  const B16: int := 0x1_0000
  const A16_0: int := 0xFBED
  const A16_1: int := 0x9BAF

  type u16 = x: int | 0 <= x < B16

  function Value16(x0: int, x1: int, x2: int, x3: int): int {
    x0 + x1 * B16 + x2 * (B16 * B16) + x3 * (B16 * B16 * B16)
  }

  lemma Row16(a: int, x0: int, x1: int, x2: int, m0: int, m1: int, m2: int, h0: int, h1: int, h2: int)
    requires a * x0 == h0 * B16 + m0 && a * x1 + h0 == h1 * B16 + m1 && a * x2 + h1 == h2 * B16 + m2
    ensures a * x0 + a * x1 * B16 + a * x2 * (B16 * B16) == m0 + m1 * B16 + m2 * (B16 * B16) + h2 * (B16 * B16 * B16)
  {
  }

  /** The carries of the rows (h, k) and of the sums (s, u) add up to a multiple of 2^64. */
  lemma Rows16(x0: u16, x1: u16, x2: u16, x3: u16, y0: u16, y1: u16, y2: u16, y3: u16,
               m0: int, m1: int, m2: int, m3: int, h0: int, h1: int, h2: int, h3: int,
               n0: int, n1: int, n2: int, k0: int, k1: int, k2: int, t2: int, t3: int,
               s0: int, s1: int, s2: int, s3: int, u2: int, u3: int)
    requires A16_0 * x0 == h0 * B16 + m0 && A16_0 * x1 + h0 == h1 * B16 + m1
    requires A16_0 * x2 + h1 == h2 * B16 + m2 && A16_0 * x3 + h2 == h3 * B16 + m3
    requires A16_1 * x0 == k0 * B16 + n0 && A16_1 * x1 + k0 == k1 * B16 + n1 && A16_1 * x2 + k1 == k2 * B16 + n2
    requires m0 + 12345 == s0 * B16 + y0 && m1 + n0 + s0 == s1 * B16 + y1
    requires m2 + n1 + s1 == s2 * B16 + t2 && m3 + n2 + s2 == s3 * B16 + t3
    requires t2 + x0 == u2 * B16 + y2 && t3 + x1 + u2 == u3 * B16 + y3
    ensures Value16(y0, y1, y2, y3) == (6906969069 * Value16(x0, x1, x2, x3) + 12345) % B64
  {
    Row16(A16_0, x0, x1, x2, m0, m1, m2, h0, h1, h2);
    Row16(A16_1, x0, x1, x2, n0, n1, n2, k0, k1, k2);
    Sums16(y0, y1, y2, y3, x0, x1, m0, m1, m2, m3, n0, n1, n2, t2, t3, s0, s1, s2, s3, u2, u3);
    Total16(x0, x1, x2, x3, m0, m1, m2, m3, h2, h3, n0, n1, n2, k2, Value16(y0, y1, y2, y3), s3 + u3);
    var k := h3 + k2 + A16_1 * x3 + s3 + u3 + x2 + x3 * B16;
    Value16Bound(y0, y1, y2, y3);
    DivModUnique(6906969069 * Value16(x0, x1, x2, x3) + 12345, B64, k, Value16(y0, y1, y2, y3));
  }

  lemma Value16Bound(y0: u16, y1: u16, y2: u16, y3: u16)
    ensures 0 <= Value16(y0, y1, y2, y3) < B64
  {
  }

  lemma Sums16(y0: int, y1: int, y2: int, y3: int, x0: int, x1: int, m0: int, m1: int, m2: int, m3: int,
               n0: int, n1: int, n2: int, t2: int, t3: int, s0: int, s1: int, s2: int, s3: int, u2: int, u3: int)
    requires m0 + 12345 == s0 * B16 + y0 && m1 + n0 + s0 == s1 * B16 + y1
    requires m2 + n1 + s1 == s2 * B16 + t2 && m3 + n2 + s2 == s3 * B16 + t3
    requires t2 + x0 == u2 * B16 + y2 && t3 + x1 + u2 == u3 * B16 + y3
    ensures Value16(y0, y1, y2, y3) + (s3 + u3) * B64
         == Value16(m0, m1, m2, m3) + Value16(0, n0, n1, n2) + Value16(0, 0, x0, x1) + 12345
  {
  }

  lemma Total16(x0: int, x1: int, x2: int, x3: int, m0: int, m1: int, m2: int, m3: int, h2: int, h3: int,
                n0: int, n1: int, n2: int, k2: int, y: int, s: int)
    requires A16_0 * x0 + A16_0 * x1 * B16 + A16_0 * x2 * (B16 * B16)
          == m0 + m1 * B16 + m2 * (B16 * B16) + h2 * (B16 * B16 * B16)
    requires A16_0 * x3 + h2 == h3 * B16 + m3
    requires A16_1 * x0 + A16_1 * x1 * B16 + A16_1 * x2 * (B16 * B16)
          == n0 + n1 * B16 + n2 * (B16 * B16) + k2 * (B16 * B16 * B16)
    requires y + s * B64 == Value16(m0, m1, m2, m3) + Value16(0, n0, n1, n2) + Value16(0, 0, x0, x1) + 12345
    ensures 6906969069 * Value16(x0, x1, x2, x3) + 12345 == B64 * (h3 + k2 + A16_1 * x3 + s + x2 + x3 * B16) + y
  {
  }

  class Lcg64x16 {
    const x: array<u16>

    predicate Valid() { x.Length == 4 }

    /** Lcg64x16State_init */
    constructor (seed: u32)
      ensures Valid() && fresh(x) && Value16(x[0], x[1], x[2], x[3]) == seed
    {
      var limbs := new u16[4];
      limbs[0], limbs[1], limbs[2], limbs[3] := seed % B16, seed / B16, 0, 0;
      x := limbs;
    }

    /** lcg64x16_func */
    method Next() returns (out: u32)
      requires Valid()
      modifies x
      ensures Value16(x[0], x[1], x[2], x[3]) == (6906969069 * old(Value16(x[0], x[1], x[2], x[3])) + 12345) % B64
      ensures out == x[3] * B16 + x[2]
    {
      hide Value16;
      ghost var x2, x3 := x[2], x[3];
      var x0, x1 := x[0], x[1];
      // Row 0
      var m0, mh0 := MulLimb(B16, A16_0, x[0], 0);
      var m1, mh1 := MulLimb(B16, A16_0, x[1], mh0);
      var m2, mh2 := MulLimb(B16, A16_0, x[2], mh1);
      var m3, mh3 := MulLimb(B16, A16_0, x[3], mh2);
      // Row 1
      var n0, nh0 := MulLimb(B16, A16_1, x[0], 0);
      var n1, nh1 := MulLimb(B16, A16_1, x[1], nh0);
      var n2, nh2 := MulLimb(B16, A16_1, x[2], nh1);
      // Sum of the rows
      var y0, s0 := AddLimb(B16, m0, 12345, 0);
      x[0] := y0;
      var y1, s1 := AddLimb(B16, m1, n0, s0);
      x[1] := y1;
      var t2, s2 := AddLimb(B16, m2, n1, s1);
      x[2] := t2;
      var t3, s3 := AddLimb(B16, m3, n2, s2);
      x[3] := t3;
      // Row 2
      var y2, u2 := AddLimb(B16, x[2], x0, 0);
      x[2] := y2;
      var y3, u3 := AddLimb(B16, x[3], x1, u2);
      x[3] := y3;
      Rows16(x0, x1, x2, x3, y0, y1, y2, y3, m0, m1, m2, m3, mh0, mh1, mh2, mh3, n0, n1, n2, nh0, nh1, nh2,
             t2, t3, s0, s1, s2, s3, u2, u3);
      out := x[3] * B16 + x[2];
    }
  }

  // ----- generators/lcg128.c: 0xfc0072fa0b15f4fd x + 12345 modulo 2^128 on 32-bit limbs -----

  const A128_0: int := 0x0B15F4FD
  const A128_1: int := 0xFC0072FA

  lemma Rows128(x0: u32, x1: u32, x2: u32, x3: u32, y0: u32, y1: u32, y2: u32, y3: u32,
                m0: int, m1: int, m2: int, m3: int, mh0: int, mh1: int, mh2: int, mh3: int,
                n0: int, n1: int, n2: int, nh0: int, nh1: int, nh2: int, s0: int, s1: int, s2: int, s3: int)
    requires A128_0 * x0 == mh0 * B32 + m0 && A128_0 * x1 + mh0 == mh1 * B32 + m1
    requires A128_0 * x2 + mh1 == mh2 * B32 + m2 && A128_0 * x3 + mh2 == mh3 * B32 + m3
    requires A128_1 * x0 == nh0 * B32 + n0 && A128_1 * x1 + nh0 == nh1 * B32 + n1
    requires A128_1 * x2 + nh1 == nh2 * B32 + n2
    requires m0 + 12345 == s0 * B32 + y0 && m1 + n0 + s0 == s1 * B32 + y1
    requires m2 + n1 + s1 == s2 * B32 + y2 && m3 + n2 + s2 == s3 * B32 + y3
    ensures LimbValue([y0, y1, y2, y3]) == (0xFC0072FA0B15F4FD * LimbValue([x0, x1, x2, x3]) + 12345) % B128
  {
    var k := mh3 + nh2 + A128_1 * x3 + s3;
    DivModUnique(0xFC0072FA0B15F4FD * LimbValue([x0, x1, x2, x3]) + 12345, B128, k, LimbValue([y0, y1, y2, y3]));
  }

  class Lcg128x32 {
    const x: array<u32>

    predicate Valid() { x.Length == 4 }

    /** get_bits_c99_raw */
    method Next() returns (out: u32)
      requires Valid()
      modifies x
      ensures LimbValue(x[..])
           == (0xFC0072FA0B15F4FD * old(LimbValue(x[..])) + 12345) % B128
      ensures out == x[3]
    {
      hide LimbValue;
      ghost var before := x[..];
      assert before == [x[0], x[1], x[2], x[3]];
      // Row 0
      var m0, mh0 := MulLimb(B32, A128_0, x[0], 0);
      var m1, mh1 := MulLimb(B32, A128_0, x[1], mh0);
      var m2, mh2 := MulLimb(B32, A128_0, x[2], mh1);
      var m3, mh3 := MulLimb(B32, A128_0, x[3], mh2);
      // Row 1
      var n0, nh0 := MulLimb(B32, A128_1, x[0], 0);
      var n1, nh1 := MulLimb(B32, A128_1, x[1], nh0);
      var n2, nh2 := MulLimb(B32, A128_1, x[2], nh1);
      // Sum of the rows
      var y0, s0 := AddLimb(B32, m0, 12345, 0);
      var y1, s1 := AddLimb(B32, m1, n0, s0);
      var y2, s2 := AddLimb(B32, m2, n1, s1);
      var y3, s3 := AddLimb(B32, m3, n2, s2);
      Rows128(x[0], x[1], x[2], x[3], y0, y1, y2, y3, m0, m1, m2, m3, mh0, mh1, mh2, mh3, n0, n1, n2, nh0, nh1, nh2,
              s0, s1, s2, s3);
      x[0], x[1], x[2], x[3] := y0, y1, y2, y3;
      assert x[..] == [y0, y1, y2, y3];
      out := x[3];
    }
  }

  // ----- generators/lcg96.c: 0xf429e3c0fa75832c3bda4a15 x + 1 modulo 2^96 on 32-bit limbs -----

  const A96_0: int := 0x3BDA4A15
  const A96_1: int := 0xFA75832C
  const A96_2: int := 0xF429E3C0

  function Value96(x0: int, x1: int, x2: int): int {
    x0 + x1 * B32 + x2 * (B32 * B32)
  }

  lemma Rows96(x0: u32, x1: u32, x2: u32, y0: u32, y1: u32, y2: u32,
               m0: int, m1: int, m2: int, mh0: int, mh1: int, mh2: int,
               n0: int, n1: int, nh0: int, nh1: int, r: int, rh: int, s0: int, s1: int, s2: int)
    requires A96_0 * x0 == mh0 * B32 + m0 && A96_0 * x1 + mh0 == mh1 * B32 + m1
    requires A96_0 * x2 + mh1 == mh2 * B32 + m2
    requires A96_1 * x0 == nh0 * B32 + n0 && A96_1 * x1 + nh0 == nh1 * B32 + n1
    requires A96_2 * x0 == rh * B32 + r
    requires m0 + 1 == s0 * B32 + y0 && m1 + n0 + s0 == s1 * B32 + y1
    requires m2 + n1 + r + s1 == s2 * B32 + y2
    ensures Value96(y0, y1, y2) == (0xF429E3C0FA75832C3BDA4A15 * Value96(x0, x1, x2) + 1) % (B64 * B32)
  {
    var k := mh2 + nh1 + A96_1 * x2 + rh + A96_2 * x1 + A96_2 * x2 * B32 + s2;
    DivModUnique(0xF429E3C0FA75832C3BDA4A15 * Value96(x0, x1, x2) + 1, B64 * B32, k, Value96(y0, y1, y2));
  }

  class Lcg96x32 {
    const x: array<u32>

    predicate Valid() { x.Length == 3 }

    /** get_bits_c99_raw */
    method Next() returns (out: u32)
      requires Valid()
      modifies x
      ensures Value96(x[0], x[1], x[2])
           == (0xF429E3C0FA75832C3BDA4A15 * old(Value96(x[0], x[1], x[2])) + 1) % (B64 * B32)
      ensures out == x[2]
    {
      hide Value96;
      // Row 0
      var m0, mh0 := MulLimb(B32, A96_0, x[0], 0);
      var m1, mh1 := MulLimb(B32, A96_0, x[1], mh0);
      var m2, mh2 := MulLimb(B32, A96_0, x[2], mh1);
      // Row 1
      var n0, nh0 := MulLimb(B32, A96_1, x[0], 0);
      var n1, nh1 := MulLimb(B32, A96_1, x[1], nh0);
      // Row 2
      var r, rh := MulLimb(B32, A96_2, x[0], 0);
      // Sum of the rows
      var y0, s0 := AddLimb(B32, m0, 1, 0);
      var y1, s1 := AddLimb(B32, m1, n0, s0);
      var sum: u64 := m2 + n1 + r + s1;
      Rows96(x[0], x[1], x[2], y0, y1, sum % B32, m0, m1, m2, mh0, mh1, mh2, n0, n1, nh0, nh1, r, rh,
             s0, s1, sum / B32);
      x[0], x[1], x[2] := y0, y1, sum % B32;
      out := x[2];
    }
  }
}
