/** Modular inverses: Newton lifting modulo 2^64 and 2^128 (generators/icg128_p2.c) and the extended
    Euclid loop (generators/icg64.c), with the inversive generators built on them. */
module Inverses {
  import opened Arithmetic

  // ----- Newton lifting modulo 2^64 -----

  /** y ^ 2 on words. */
  function FlipBitOne(y: u64): u64 {
    if y / 2 % 2 == 0 then y + 2 else y - 2
  }

  /** f64: y * (2 - y * x), every operation modulo 2^64. */
  function NewtonStep(x: u64, y: u64): u64 {
    (y * ((2 - (y * x) % B64) % B64)) % B64
  }

  function ModInv64(x: u64): u64 {
    var y := FlipBitOne((3 * x) % B64);
    NewtonStep(x, NewtonStep(x, NewtonStep(x, NewtonStep(x, y))))
  }

  /** The seed is right modulo 2^5. */
  lemma SeedInverse(x: u64)
    requires x % 2 == 1
    ensures Congruent(32, x * FlipBitOne((3 * x) % B64), 1)
  {
    hide FlipBitOne, Congruent;
    var w := (3 * x) % B64;
    var l := 3 * x / B64 * 0x800_0000_0000_0000;
    assert w == 3 * x - l * 32;
    OddForm(x);
    SeedCases(x, w, x / 4, l);
  }

  lemma OddForm(x: int)
    requires x % 2 == 1
    ensures x == 4 * (x / 4) + 1 || x == 4 * (x / 4) + 3
  {
    if x % 4 == 0 {
      DivModUnique(x, 2, 2 * (x / 4), 0);
    } else if x % 4 == 2 {
      DivModUnique(x, 2, 2 * (x / 4) + 1, 0);
    }
  }

  lemma SeedCases(x: int, w: u64, t: int, l: int)
    requires x == 4 * t + 1 || x == 4 * t + 3
    requires w == 3 * x - l * 32
    ensures Congruent(32, x * FlipBitOne(w), 1)
  {
    if x == 4 * t + 1 {
      FlipKnown(w, 3 * t - 8 * l);
      SeedAlgebra(x, FlipBitOne(w), t, 1, 1, l, 0);
    } else {
      FlipKnown(w, 3 * t + 2 - 8 * l);
      SeedAlgebra(x, FlipBitOne(w), t, 3, 5, l, 1);
    }
  }

  /** (4t + r) * (12t + s) is 1 modulo 32 for (r, s) = (1, 1) and (3, 11). */
  lemma SeedAlgebra(x: int, y: int, t: int, r: int, c: int, l: int, j: int)
    requires (r == 1 && c == 1 && j == 0) || (r == 3 && c == 5 && j == 1)
    requires x == 4 * t + r && y == 12 * t + 10 * j + 1 - l * 32
    ensures Congruent(32, x * y, 1)
  {
    var h := EvenProduct(t, c);
    var s := 12 * t + 10 * j + 1;
    assert x * s == 16 * (t * (3 * t + c)) + 32 * j + 1;
    assert x * y == x * s - (x * l) * 32;
    CongruentBy(32, x * y, 1, h + j - x * l);
  }

  lemma EvenProduct(t: int, c: int) returns (h: int)
    requires c % 2 == 1
    ensures t * (3 * t + c) == 2 * h
  {
    var n := 3 * t + c;
    if t % 2 == 0 {
      var u := t / 2;
      h := u * n;
      assert (2 * u) * n == 2 * (u * n);
    } else {
      var u := 3 * (t / 2) + 2 + c / 2;
      h := t * u;
      assert n == 2 * u;
      assert t * (2 * u) == 2 * (t * u);
    }
  }

  lemma FlipKnown(w: u64, q: int)
    ensures w == 4 * q + 3 ==> FlipBitOne(w) == 4 * q + 1
    ensures w == 4 * q + 1 ==> FlipBitOne(w) == 4 * q + 3
  {
    if w == 4 * q + 3 {
      DivModUnique(w, 2, 2 * q + 1, 1);
      DivModUnique(w / 2, 2, q, 1);
    } else if w == 4 * q + 1 {
      DivModUnique(w, 2, 2 * q, 1);
      DivModUnique(w / 2, 2, q, 0);
    }
  }

  /** Each step squares the error 1 - x * y, up to a multiple of 2^64. */
  lemma NewtonSquares(x: u64, y: u64)
    ensures Congruent(B64, 1 - x * NewtonStep(x, y), (1 - x * y) * (1 - x * y))
  {
    var e := (2 - (y * x) % B64) % B64;
    var k := y * x / B64;
    var l := (2 - (y * x) % B64) / B64;
    assert e == 2 - y * x + (k - l) * B64;
    var j := y * e / B64;
    var z := NewtonStep(x, y);
    assert z == y * e - j * B64;
    NewtonAlgebra(x, y, e, k - l, j, z);
    CongruentBy(B64, 1 - x * z, (1 - x * y) * (1 - x * y), x * j - x * y * (k - l));
  }

  lemma NewtonAlgebra(x: int, y: int, e: int, k: int, j: int, z: int)
    requires e == 2 - y * x + k * B64 && z == y * e - j * B64
    ensures 1 - x * z == (1 - x * y) * (1 - x * y) + (x * j - x * y * k) * B64
  {
    var u := x * y;
    calc {
      x * z;
      x * (y * e) - x * (j * B64);
      u * e - (x * j) * B64;
      u * (2 - u) + u * (k * B64) - (x * j) * B64;
    }
  }

  /** An inverse modulo b gives one modulo b^2, as long as b^2 divides 2^64. */
  lemma NewtonLifts(x: u64, y: u64, b: int, c: int)
    requires Congruent(b, x * y, 1) && b * b * c == B64
    ensures Congruent(b * b, x * NewtonStep(x, y), 1)
  {
    NewtonSquares(x, y);
    var k :| x * y == 1 + k * b;
    var u, w := x * y, x * NewtonStep(x, y);
    var l :| 1 - w == (1 - u) * (1 - u) + l * B64;
    LiftAlgebra(b, c, u, w, k, l);
    CongruentBy(b * b, w, 1, -(k * k) - l * c);
  }

  lemma LiftAlgebra(b: int, c: int, u: int, w: int, k: int, l: int)
    requires u == 1 + k * b && 1 - w == (1 - u) * (1 - u) + l * (b * b * c)
    ensures w == 1 + (-(k * k) - l * c) * (b * b)
  {
    assert (1 - u) * (1 - u) == (k * b) * (k * b) == (k * k) * (b * b);
    assert l * (b * b * c) == (l * c) * (b * b);
  }

  lemma CongruentCoarser(m: int, c: int, p: int, q: int)
    requires Congruent(m * c, p, q)
    ensures Congruent(m, p, q)
  {
    var k :| p == q + k * (m * c);
    assert k * (m * c) == (k * c) * m;
    CongruentBy(m, p, q, k * c);
  }

  /** Four steps take 5 bits to 64, for every odd x. */
  lemma ModInv64Correct(x: u64)
    requires x % 2 == 1
    ensures (x * ModInv64(x)) % B64 == 1
  {
    var y0 := FlipBitOne((3 * x) % B64);
    var y1 := NewtonStep(x, y0);
    var y2 := NewtonStep(x, y1);
    var y3 := NewtonStep(x, y2);
    var y4 := NewtonStep(x, y3);
    SeedInverse(x);
    NewtonLifts(x, y0, 0x20, 0x40_0000_0000_0000);
    NewtonLifts(x, y1, 0x400, 0x1000_0000_0000);
    NewtonLifts(x, y2, 0x10_0000, 0x100_0000);
    CongruentCoarser(B32, 0x100, x * y3, 1);
    NewtonLifts(x, y3, B32, 1);
    var k :| x * y4 == 1 + k * (B32 * B32);
    DivModUnique(x * y4, B64, k, 1);
  }

  /** An inverse modulo m is unique among the residues. */
  lemma InverseUnique(m: int, x: int, i: int, j: int)
    requires 1 < m && 0 <= i < m && 0 <= j < m
    requires Congruent(m, x * i, 1) && Congruent(m, x * j, 1)
    ensures i == j
  {
    CongruentMul(m, x * i, 1, j);
    CongruentMul(m, x * j, 1, i);
    assert j * (x * i) == i * (x * j);
    CongruentSymmetric(m, i * (x * j), i * 1);
    CongruentTrans(m, i, i * (x * j), j);
    CongruentIsMod(m, i, j);
    DivModUnique(j, m, 0, j);
  }

  // ----- The two-word inverse modulo 2^128 -----

  /** x1 = x0 * -(a1 * x0 + H), all modulo 2^64, where a0 * x0 == H * 2^64 + 1. */
  function HighWord(a1: u64, x0: u64, h: u64): u64 {
    var terms := ((a1 * x0) % B64 + h) % B64;
    (x0 * ((-terms) % B64)) % B64
  }

  /** The middle column of the product vanishes. */
  lemma HighWordCancels(a0: u64, a1: u64, x0: u64, h: u64)
    requires a0 * x0 == h * B64 + 1
    ensures Congruent(B64, a0 * HighWord(a1, x0, h) + a1 * x0 + h, 0)
  {
    var s, terms := a1 * x0 + h, ((a1 * x0) % B64 + h) % B64;
    var k := a1 * x0 / B64 + ((a1 * x0) % B64 + h) / B64;
    assert terms == s - k * B64;
    var n := (-terms) % B64;
    var l := (-terms) / B64;
    assert n == -terms - l * B64;
    var x1 := HighWord(a1, x0, h);
    var j := x0 * n / B64;
    assert x1 == x0 * n - j * B64;
    CancelAlgebra(a0, x0, h, s, k - l, n, j, x1);
  }

  lemma CancelAlgebra(a0: int, x0: int, h: int, s: int, k: int, n: int, j: int, x1: int)
    requires a0 * x0 == h * B64 + 1 && n == k * B64 - s && x1 == x0 * n - j * B64
    ensures Congruent(B64, a0 * x1 + s, 0)
  {
    assert a0 * x1 == (a0 * x0) * n - (a0 * j) * B64;
    assert (a0 * x0) * n == (h * n) * B64 + n;
    CongruentBy(B64, a0 * x1 + s, 0, h * n + k - a0 * j);
  }

  lemma TwoWordProduct(a0: int, a1: int, x0: int, x1: int, h: int)
    requires a0 * x0 == h * B64 + 1 && Congruent(B64, a0 * x1 + a1 * x0 + h, 0)
    ensures Congruent(B128, (a1 * B64 + a0) * (x1 * B64 + x0), 1)
  {
    var k :| a0 * x1 + a1 * x0 + h == 0 + k * B64;
    assert (a1 * B64 + a0) * (x1 * B64 + x0)
           == (a1 * x1) * B128 + (a0 * x1 + a1 * x0) * B64 + a0 * x0;
    CongruentBy(B128, (a1 * B64 + a0) * (x1 * B64 + x0), 1, a1 * x1 + k);
  }

  /** The high word of a0 * x0, the low one being 1. */
  method InverseCarry(a0: u64) returns (h: u64)
    requires a0 % 2 == 1
    ensures a0 * ModInv64(a0) == h * B64 + 1
  {
    hide ModInv64;
    var x0 := ModInv64(a0);
    ModInv64Correct(a0);
    MulLe(a0, B64 - 1, x0);
    MulLe(0, a0, x0);
    h := a0 * x0 / B64;
  }

  /** The inversive congruential generator modulo 2^128. */
  class Icg128 {
    static const A := 18000690696906969069
    static const C := 1234513250
    var xLo: u64
    var xHi: u64

    function X(): int
      reads this
    {
      xHi * B64 + xLo
    }

    /** Odd, as the seeding makes it: exactly the states that have an inverse. */
    ghost predicate Valid()
      reads this
    {
      xLo % 2 == 1
    }

    method ModInv128()
      requires Valid()
      modifies this
      ensures Congruent(B128, old(X()) * X(), 1)
    {
      hide HighWord, ModInv64, Congruent;
      var a0 := xLo;
      var x0 := ModInv64(a0);
      var h := InverseCarry(a0);
      HighWordCancels(a0, xHi, x0, h);
      var x1 := HighWord(xHi, x0, h);
      TwoWordProduct(a0, xHi, x0, x1, h);
      xHi := x1;
      xLo := x0;
    }

    /** A * inverse + C modulo 2^128, word by word. */
    method Affine()
      modifies this
      ensures X() == (A * old(X()) + C) % B128
    {
      TwoWordAffine(xLo, xHi);
      var p := A * xLo;
      var l: u64, h: u64 := p % B64, (A * xHi + p / B64) % B64;
      var lo: u64, hi: u64 := (l + C) % B64, (h + (l + C) / B64) % B64;
      assert hi * B64 + lo == (A * X() + C) % B128;
      xLo, xHi := lo, hi;
    }

    method Next() returns (out: u64)
      requires Valid()
      modifies this
      ensures Valid()
      ensures InversiveStep(old(X()), X())
      ensures out == xHi
    {
      ghost var x := X();
      ModInv128();
      ghost var inv := X();
      Affine();
      StepKeepsOdd(x, inv, xHi, xLo);
      out := xHi;
    }
  }

  lemma StepKeepsOdd(x: int, inv: int, hi: u64, lo: u64)
    requires 0 <= inv < B128 && Congruent(B128, x * inv, 1)
    requires hi * B64 + lo == (Icg128.A * inv + Icg128.C) % B128
    ensures lo % 2 == 1 && InversiveStep(x, hi * B64 + lo)
  {
    hide Congruent;
    InverseIsOdd(x, inv);
    var z := Icg128.A * inv + Icg128.C;
    var k := OddAffine(inv);
    assert z % B128 == z - z / B128 * B128;
    ParityOfRemainder(z, hi, lo, z / B128, k);
    assert InversiveStep(x, hi * B64 + lo);
  }

  lemma OddAffine(inv: int) returns (k: int)
    requires inv % 2 == 1
    ensures Icg128.A * inv + Icg128.C == 2 * k + 1
  {
    var h := inv / 2;
    assert inv == 2 * h + 1;
    k := Icg128.A * h + (Icg128.A + Icg128.C) / 2;
  }

  lemma ParityOfRemainder(z: int, hi: u64, lo: u64, q: int, k: int)
    requires z == 2 * k + 1 && hi * B64 + lo == z - q * B128
    ensures lo % 2 == 1
  {
    var n := k - q * 0x8000_0000_0000_0000_0000_0000_0000_0000 - hi * 0x8000_0000_0000_0000;
    assert lo == 2 * n + 1;
    DivModUnique(lo, 2, n, 1);
  }

  /** y is A * x^-1 + C modulo 2^128. */
  ghost predicate InversiveStep(x: int, y: int) {
    exists inv :: 0 <= inv < B128 && Congruent(B128, x * inv, 1) && y == (Icg128.A * inv + Icg128.C) % B128
  }

  lemma InverseIsOdd(x: int, inv: int)
    requires Congruent(B128, x * inv, 1)
    ensures inv % 2 == 1
  {
    var k :| x * inv == 1 + k * B128;
    if inv % 2 == 0 {
      EvenNotInverse(x, inv / 2, k);
    }
  }

  lemma EvenNotInverse(x: int, h: int, k: int)
    ensures x * (2 * h) != 1 + k * B128
  {
    assert x * (2 * h) == 2 * (x * h);
  }

  lemma TwoWordAffine(lo: u64, hi: u64)
    ensures var p := Icg128.A * lo;
            var l, h := p % B64, (Icg128.A * hi + p / B64) % B64;
            (h + (l + Icg128.C) / B64) % B64 * B64 + (l + Icg128.C) % B64
            == (Icg128.A * (hi * B64 + lo) + Icg128.C) % B128
  {
    var p := Icg128.A * lo;
    var t := Icg128.A * hi + p / B64;
    var l, h := p % B64, t % B64;
    var s := h + (l + Icg128.C) / B64;
    DivModUnique(Icg128.A * (hi * B64 + lo) + Icg128.C, B128, t / B64 + s / B64,
                 s % B64 * B64 + (l + Icg128.C) % B64);
  }

  // ----- Extended Euclid -----

  const I64 := 0x8000_0000_0000_0000

  type i64 = x: int | -I64 <= x < I64

  ghost predicate Coprime(a: int, b: int) {
    forall d | 1 < d :: a % d != 0 || b % d != 0
  }

  lemma PrimeCoprime(a: int, p: int)
    requires IsPrime(p) && 0 < a < p
    ensures Coprime(a, p)
  {
    forall d | 1 < d
      ensures a % d != 0 || p % d != 0
    {
      if a < d { DivModUnique(a, d, 0, a); }
    }
  }

  /** A division step keeps coprimality and, above 1, leaves a remainder. */
  lemma CoprimeStep(u: int, v: int)
    requires 1 < u && Coprime(u, v)
    ensures Coprime(v % u, u) && v % u != 0
  {
    var q, r := v / u, v % u;
    assert u % u == 0 by { DivModUnique(u, u, 1, 0); }
    forall d | 1 < d
      ensures r % d != 0 || u % d != 0
    {
      if r % d == 0 && u % d == 0 {
        var s, t := r / d, u / d;
        assert u * q + r == d * (t * q + s) by { assert u == d * t && r == d * s; assert (d * t) * q == d * (t * q); }
        DivModUnique(v, d, t * q + s, 0);
      }
    }
  }

  /** The loop invariant: Bezout modulo p, opposite signs, and |x1| * v + |x2| * u == p. */
  ghost predicate Bezout(p: int, a: int, u: int, v: int, x1: int, x2: int) {
    && 1 <= u < v && Coprime(u, v)
    && Congruent(p, a * x1, u) && Congruent(p, a * x2, v)
    && ((0 < x1 && x2 <= 0 && x1 * v + (-x2) * u == p) || (x1 < 0 && 0 <= x2 && (-x1) * v + x2 * u == p))
  }

  /** Cofactors are at most p in size, and below p / 2 at the end. */
  lemma CofactorBound(p: int, x1: int, x2: int, u: int, v: int)
    requires 0 < x1 && 0 <= x2 && 1 <= u < v && x1 * v + x2 * u == p
    ensures 2 * x1 <= p && x2 <= p
  {
    MulLe(2, v, x1);
    MulLe(0, u, x2);
    MulLe(1, u, x2);
  }

  lemma BezoutStep(p: int, a: int, u: int, v: int, x1: int, x2: int)
    requires 1 < u && Bezout(p, a, u, v, x1, x2)
    ensures var q := v / u; Bezout(p, a, v - q * u, u, x2 - q * x1, x1)
  {
    RemainderFits(u, v);
    CoprimeStep(u, v);
    BezoutStepBy(p, a, u, v, x1, x2, v / u);
  }

  lemma BezoutStepBy(p: int, a: int, u: int, v: int, x1: int, x2: int, q: int)
    requires Bezout(p, a, u, v, x1, x2)
    requires 1 <= q && 1 <= v - q * u < u && Coprime(v - q * u, u)
    ensures Bezout(p, a, v - q * u, u, x2 - q * x1, x1)
  {
    CombineCongruent(p, a, u, v, x1, x2, q);
    if 0 < x1 {
      CofactorStep(p, u, v, x1, -x2, q);
    } else {
      CofactorStep(p, u, v, -x1, x2, q);
      assert q * (-x1) == -(q * x1);
    }
  }

  lemma CombineCongruent(p: int, a: int, u: int, v: int, x1: int, x2: int, q: int)
    requires Congruent(p, a * x1, u) && Congruent(p, a * x2, v)
    ensures Congruent(p, a * (x2 - q * x1), v - q * u)
  {
    CongruentMul(p, a * x1, u, q);
    var k :| q * (a * x1) == q * u + k * p;
    var l :| a * x2 == v + l * p;
    assert a * (q * x1) == q * (a * x1);
    CongruentBy(p, a * (x2 - q * x1), v - q * u, l - k);
  }

  /** The sizes of the cofactors: z2 + q * z1 follows z1. */
  lemma CofactorStep(p: int, u: int, v: int, z1: int, z2: int, q: int)
    requires 0 < z1 && 0 <= z2 && 1 <= q && z1 * v + z2 * u == p
    ensures 0 < z2 + q * z1 && (z2 + q * z1) * u + z1 * (v - q * u) == p
  {
    MulLe(1, q, z1);
    assert (q * z1) * u == z1 * (q * u);
  }

  /** |x1| and |x2| in a state of the loop. */
  function Size(x: int): nat {
    if x < 0 then -x else x
  }

  lemma SizesFit(p: int, u: int, v: int, z1: int, z2: int, q: int)
    requires 0 < z1 && 0 <= z2 && 1 <= q && 1 <= v - q * u < u < v && z1 * v + z2 * u == p
    ensures z1 <= p && 0 <= q * z1 <= z2 + q * z1 <= p
  {
    CofactorStep(p, u, v, z1, z2, q);
    CofactorBound(p, z1, z2, u, v);
    CofactorBound(p, z2 + q * z1, z1, v - q * u, u);
    MulLe(0, q, z1);
  }

  lemma BezoutSizes(p: int, a: int, u: int, v: int, x1: int, x2: int, q: int)
    requires Bezout(p, a, u, v, x1, x2)
    ensures 0 < Size(x1) && Size(x1) * v + Size(x2) * u == p
    ensures Size(q * x1) == Size(q) * Size(x1) && (0 <= q ==> Size(x2 - q * x1) == Size(x2) + q * Size(x1))
  {
    hide Congruent, Coprime;
    assert q * (-x1) == -(q * x1) && (-q) * (-x1) == q * x1;
    if 0 <= q {
      MulLe(0, q, Size(x1));
    } else {
      MulLe(q, 0, Size(x1));
    }
  }

  lemma StepFits(p: i64, a: int, u: int, v: int, x1: int, x2: int)
    requires 1 < u && Bezout(p, a, u, v, x1, x2)
    ensures var q := v / u; 0 <= q * u <= v && Size(x1) <= p && Size(q * x1) <= p && Size(x2 - q * x1) <= p
  {
    RemainderFits(u, v);
    CoprimeStep(u, v);
    var q := v / u;
    BezoutSizes(p, a, u, v, x1, x2, q);
    SizesFit(p, u, v, Size(x1), Size(x2), q);
  }

  method EuclidInverse(p: i64, a: i64) returns (r: i64)
    requires 1 < p && 0 <= a < p && (a != 0 ==> Coprime(a, p))
    ensures a == 0 ==> r == 0
    ensures a != 0 ==> 1 <= r < p && Congruent(p, a * r, 1)
  {
    var u: i64, v: i64, x1: i64, x2: i64 := a, p, 1, 0;
    if a == 0 {
      return 0;
    }
    CongruentBy(p, a * 1, a, 0);
    CongruentBy(p, a * 0, p, -1);
    assert Bezout(p, a, u, v, x1, x2);
    hide Bezout, Congruent;
    while u != 1
      invariant Bezout(p, a, u, v, x1, x2) && 1 <= u
      decreases u
    {
      StepFits(p, a, u, v, x1, x2);
      BezoutStep(p, a, u, v, x1, x2);
      RemainderFits(u, v);
      var q: i64 := v / u;
      var rem: i64 := v - q * u;
      var x: i64 := x2 - q * x1;
      v := u;
      u := rem;
      x2 := x1;
      x1 := x;
    }
    InverseAtEnd(p, a, v, x1, x2);
    if x1 < 0 {
      x1 := x1 + p;
    }
    return x1;
  }

  lemma RemainderFits(u: int, v: int)
    requires 1 < u && 0 <= v
    ensures var q := v / u; 0 <= q <= v && v - q * u == v % u && 0 <= v % u < u
  {
    MulLe(1, u, v / u);
  }

  lemma InverseAtEnd(p: i64, a: int, v: int, x1: i64, x2: int)
    requires Bezout(p, a, 1, v, x1, x2)
    ensures var r := if x1 < 0 then x1 + p else x1; 1 <= r < p && Congruent(p, a * r, 1)
  {
    CofactorBound(p, Size(x1), Size(x2), 1, v);
    if x1 < 0 {
      assert a * (x1 + p) == a * x1 + a * p;
      CongruentBy(p, a * (x1 + p), a * x1, a);
      CongruentTrans(p, a * (x1 + p), a * x1, 1);
    }
  }

  /** The inversive congruential generator with prime modulus; the source fixes p = 2^63 - 25. */
  class Icg64 {
    const p: i64
    var x: i64

    ghost predicate Valid()
      reads this
    {
      IsPrime(p) && 0 <= x < p
    }

    method Next() returns (out: int)
      requires Valid()
      modifies `x
      ensures Valid()
      ensures old(x) == 0 ==> x == 1 % p
      ensures old(x) != 0 ==> exists inv :: 1 <= inv < p && Congruent(p, old(x) * inv, 1) && x == (inv + 1) % p
      ensures out == x / 0x8000_0000
    {
      if x != 0 {
        PrimeCoprime(x, p);
      }
      var inv := EuclidInverse(p, x);
      x := (inv + 1) % p;
      out := x / 0x8000_0000;
    }
  }
}
