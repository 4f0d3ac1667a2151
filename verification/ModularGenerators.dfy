/** Generators whose modular reduction is a loop, a fold or a decomposition (generators/bbs64.c,
    lcg_hp48.c, lcg61prime.c, lcg127prime.c, minstd.c): the residue is exact. */
module ModularGenerators {
  import opened Arithmetic
  import opened Int128

  // ----- Folding the high word by 2^64 = d (mod m) -----

  /** One pass replaces hi * 2^64 + lo by the smaller d * hi + lo, which is congruent. */
  lemma FoldPass(m: int, d: u64, hi: u64, lo: u64, k: int)
    requires B64 - d == k * m
    ensures var hi', lo' := MulAddHi(d, hi, lo), MulAddLo(d, hi, lo);
            && Congruent(m, hi' * B64 + lo', hi * B64 + lo)
            && (hi > 0 ==> hi' * B64 + lo' < hi * B64 + lo)
  {
    var hi', lo' := MulAddHi(d, hi, lo), MulAddLo(d, hi, lo);
    assert hi' * B64 + lo' == d * hi + lo;
    assert d * hi + lo == (hi * B64 + lo) + (-(hi * k)) * m by {
      FoldOffset(m, d, hi, k);
    }
    CongruentBy(m, d * hi + lo, hi * B64 + lo, -(hi * k));
    if hi > 0 {
      FoldDrops(d, hi);
    }
  }

  lemma FoldOffset(m: int, d: int, hi: int, k: int)
    requires B64 - d == k * m
    ensures d * hi == hi * B64 + (-(hi * k)) * m
  {
    assert hi * (B64 - d) == hi * (k * m) == (hi * k) * m;
  }

  lemma FoldDrops(d: u64, hi: u64)
    requires hi > 0
    ensures d * hi < B64 * hi
  {
  }

  /** The reduction loop terminates on a congruent low word. */
  method Reduce(m: int, d: u64, ghost k: int, hi0: u64, lo0: u64) returns (lo: u64)
    requires B64 - d == k * m
    ensures Congruent(m, lo, hi0 * B64 + lo0)
  {
    hide MulAddLo, MulAddHi, Congruent;
    var hi: u64 := hi0;
    lo := lo0;
    CongruentBy(m, hi * B64 + lo, hi0 * B64 + lo0, 0);
    while hi != 0
      invariant Congruent(m, hi * B64 + lo, hi0 * B64 + lo0)
      decreases hi * B64 + lo
    {
      FoldPass(m, d, hi, lo, k);
      CongruentTrans(m, MulAddHi(d, hi, lo) * B64 + MulAddLo(d, hi, lo), hi * B64 + lo, hi0 * B64 + lo0);
      lo, hi := MulAddLo(d, hi, lo), MulAddHi(d, hi, lo);
    }
  }

  // ----- generators/bbs64.c -----

  const BBS_M := 4294967087 * 4294957307

  class Bbs64 {
    var x: u64

    /** get_bits_raw */
    method Next() returns (y: u64)
      modifies this
      ensures y == x == (old(x) * old(x)) % BBS_M
    {
      hide MulAddLo, MulAddHi, Congruent;
      var d: u64 := B64 - BBS_M;
      ghost var product := x * x;
      var lo := Reduce(BBS_M, d, 1, MulAddHi(x, x, 0), MulAddLo(x, x, 0));
      if lo >= BBS_M {
        CongruentBy(BBS_M, lo - BBS_M, lo, -1);
        CongruentTrans(BBS_M, lo - BBS_M, lo, product);
        lo := lo - BBS_M;
      }
      CongruentIsMod(BBS_M, lo, product);
      x := lo;
      y := x;
    }
  }

  /** n steps of squaring */
  function Squarings(x: int, n: nat): int {
    if n == 0 then x else (Squarings(x, n - 1) * Squarings(x, n - 1)) % BBS_M
  }

  lemma {:induction false} PowAdd(x: int, p: nat, q: nat)
    ensures Pow(x, p + q) == Pow(x, p) * Pow(x, q)
  {
    if p > 0 {
      PowAdd(x, p - 1, q);
    }
  }

  lemma CongruentSquare(m: int, p: int, q: int)
    requires Congruent(m, p, q)
    ensures Congruent(m, p * p, q * q)
  {
    CongruentMul(m, p, q, p);
    CongruentMul(m, p, q, q);
    CongruentTrans(m, p * p, p * q, q * q);
  }

  /** The n-th state is x0^(2^n) modulo m. */
  lemma {:induction false} SquaringsIsPower(x: int, n: nat)
    ensures Pow(2, n) >= 0 && Congruent(BBS_M, Squarings(x, n), Pow(x, Pow(2, n)))
  {
    PowPositive(2, n);
    if n == 0 {
      assert Pow(x, 1) == x * Pow(x, 0) == x;
      CongruentBy(BBS_M, x, x, 0);
    } else {
      SquaringsIsPower(x, n - 1);
      var s, e := Squarings(x, n - 1), Pow(2, n - 1);
      CongruentSquare(BBS_M, s, Pow(x, e));
      PowAdd(x, e, e);
      CongruentMod(BBS_M, s * s);
      CongruentTrans(BBS_M, (s * s) % BBS_M, s * s, Pow(x, 2 * e));
    }
  }

  // ----- generators/lcg_hp48.c -----

  const HP_M := 1000000000000000
  const HP_A := 2851130928467

  class LcgHp48 {
    var x: u64

    /** The integer state of get_bits_raw; the do-while loop runs at least once. */
    method Next()
      modifies this
      ensures x == (HP_A * old(x)) % HP_M
    {
      hide MulAddLo, MulAddHi, Congruent;
      var r: u64 := 744073709551616;
      var lo: u64, hi: u64 := MulAddLo(HP_A, x, 0), MulAddHi(HP_A, x, 0);
      ghost var product := HP_A * x;
      FoldPass(HP_M, r, hi, lo, 18446);
      ghost var first := MulAddHi(r, hi, lo) * B64 + MulAddLo(r, hi, lo);
      lo := Reduce(HP_M, r, 18446, MulAddHi(r, hi, lo), MulAddLo(r, hi, lo));
      CongruentTrans(HP_M, lo, first, product);
      CongruentMod(HP_M, lo);
      CongruentTrans(HP_M, lo % HP_M, lo, product);
      CongruentIsMod(HP_M, lo % HP_M, product);
      x := lo % HP_M;
    }
  }

  // ----- generators/lcg61prime.c -----

  const P61 := 0x1FFF_FFFF_FFFF_FFFF
  const A61 := 1070922063159934167

  /** One step: the residue is exact, and a state above the modulus shrinks by A61 / 2^61. */
  ghost predicate IsStep61(x: int, x': int) {
    0 <= x' && Congruent(P61, x', A61 * x) && (x' < P61 || x' <= A61 * x / (P61 + 1))
  }

  /** Folding t at bit 61 and subtracting the modulus once */
  lemma FoldAt61(x: u64, t: int, s: int, x': int)
    requires t == A61 * x && s == t % (P61 + 1) + t / (P61 + 1)
    requires x' == if s >= P61 then s - P61 else s
    ensures IsStep61(x, x') && s < B64
  {
    CongruentBy(P61, x', t, -(t / (P61 + 1)) - (if s >= P61 then 1 else 0));
  }

  class Lcg61Prime {
    var x: u64

    /** get_bits_raw */
    method Next() returns (y: u64)
      modifies this
      ensures IsStep61(old(x), x) && y == x % B32
    {
      hide IsStep61;
      var lo, hi := MulAddLo(A61, x, 0), MulAddHi(A61, x, 0);
      ghost var t := A61 * x;
      assert lo % (P61 + 1) == t % (P61 + 1) && hi * 8 + lo / (P61 + 1) == t / (P61 + 1);
      ghost var s := t % (P61 + 1) + t / (P61 + 1);
      FoldAt61(x, t, s, if s >= P61 then s - P61 else s);
      var lo61: u64, hi61: u64 := lo % (P61 + 1), hi * 8 + lo / (P61 + 1);
      x := lo61 + hi61;
      if x >= P61 {
        x := x - P61;
      }
      y := x % B32;
    }
  }

  lemma StepBound61(x: int, x': int, bound: int)
    requires IsStep61(x, x') && P61 - 1 <= bound && A61 * x < (bound + 1) * (P61 + 1)
    ensures 0 <= x' <= bound
  {
    hide Congruent;
  }

  /** From any 64-bit seed the third state is already the canonical residue. */
  lemma CanonicalAfterThree(x0: u64, x1: int, x2: int, x3: int)
    requires IsStep61(x0, x1) && IsStep61(x1, x2) && IsStep61(x2, x3)
    ensures x3 == (A61 * x2) % P61
  {
    hide Congruent, IsStep61;
    StepBound61(x0, x1, 8567376505279473335);
    StepBound61(x1, x2, 3979018730347373775);
    StepBound61(x2, x3, P61 - 1);
    StepCongruent61(x2, x3);
    CongruentIsMod(P61, x3, A61 * x2);
  }

  /** And it stays canonical. */
  lemma CanonicalStays(x: u64, x': int)
    requires IsStep61(x, x') && x < P61
    ensures x' == (A61 * x) % P61
  {
    CongruentIsMod(P61, x', A61 * x);
  }

  ghost predicate IsRun61(xs: seq<u64>) {
    |xs| > 0 && forall i | 0 <= i < |xs| - 1 :: IsStep61(xs[i], xs[i + 1])
  }

  /** The n-th state of every run is a^n x0, and from the third on it is the canonical residue. */
  lemma {:induction false} RunIsPower61(xs: seq<u64>, n: nat)
    requires IsRun61(xs) && n < |xs|
    ensures Congruent(P61, xs[n], Pow(A61, n) * xs[0])
    ensures n >= 3 ==> xs[n] == (Pow(A61, n) * xs[0]) % P61
  {
    hide Congruent, IsStep61;
    if n == 0 {
      CongruentBy(P61, xs[0], Pow(A61, 0) * xs[0], 0);
    } else {
      RunIsPower61(xs, n - 1);
      assert IsStep61(xs[n - 1], xs[n]);
      StepCongruent61(xs[n - 1], xs[n]);
      CongruentMul(P61, xs[n - 1], Pow(A61, n - 1) * xs[0], A61);
      MulAssociates(A61, Pow(A61, n - 1), xs[0]);
      CongruentTrans(P61, xs[n], A61 * xs[n - 1], Pow(A61, n) * xs[0]);
      if n >= 3 {
        BelowModulus61(xs, n);
        CongruentIsMod(P61, xs[n], Pow(A61, n) * xs[0]);
      }
    }
  }

  lemma MulAssociates(x: int, y: int, z: int)
    ensures x * (y * z) == (x * y) * z
  {
  }

  lemma StepCongruent61(x: int, x': int)
    requires IsStep61(x, x')
    ensures Congruent(P61, x', A61 * x)
  {
  }

  lemma {:induction false} BelowModulus61(xs: seq<u64>, n: nat)
    requires IsRun61(xs) && 3 <= n < |xs|
    ensures xs[n] < P61
  {
    hide IsStep61;
    assert IsStep61(xs[n - 1], xs[n]);
    if n == 3 {
      assert IsStep61(xs[0], xs[1]) && IsStep61(xs[1], xs[2]);
      CanonicalAfterThree(xs[0], xs[1], xs[2], xs[3]);
    } else {
      BelowModulus61(xs, n - 1);
      CanonicalStays(xs[n - 1], xs[n]);
    }
  }

  // ----- generators/minstd.c -----

  const P31 := 0x7FFF_FFFF

  type i32 = x: int | -0x8000_0000 <= x < 0x8000_0000

  class Minstd {
    var x: u32

    /** get_bits_mul32_raw: Schrage's method, all intermediates within 32 bits, for states up to 2^31 - 1 */
    method NextSchrage() returns (y: u32)
      requires x <= P31
      modifies this
      ensures x == (16807 * old(x)) % P31 && y == 2 * x
    {
      var s: i32 := x;
      var hi: i32 := s / 127773;
      var lo: i32 := s - 127773 * hi;
      var al: i32, rh: i32 := 16807 * lo, 2836 * hi;
      var t: i32 := al - rh;
      ghost var k := if t < 0 then hi - 1 else hi;
      DivModUnique(16807 * s, P31, k, if t < 0 then t + P31 else t);
      x := if t < 0 then t + P31 else t;
      y := 2 * x;
    }

    /** get_bits_mul64_raw: the fold at bit 31, for every 32-bit state */
    method NextFold() returns (y: u32)
      modifies this
      ensures x == (16807 * old(x)) % P31 && y == 2 * x
    {
      var prod: u64 := 16807 * x;
      var q: u32, p: u32 := prod % (P31 + 1), prod / (P31 + 1);
      x := p + q;
      if x >= P31 {
        x := x - P31;
      }
      DivModUnique(prod, P31, p + (if p + q >= P31 then 1 else 0), x);
      y := 2 * x;
    }
  }

  // ----- generators/lcg127prime.c -----

  const B63 := 0x8000_0000_0000_0000
  const P127 := B63 * B64 - 1

  class Lcg127Prime {
    var low: u64
    var high: u64

    function State(): int
      reads this
    {
      high * B64 + low
    }

    /** create, from two seed words: the state is never 0, and only the two largest values of either
        word together make it the modulus. */
    constructor (seedHigh: u64, seedLow: u64)
      ensures 0 < State() <= P127
      ensures State() == P127 <==> B64 - 2 <= seedHigh && B64 - 2 <= seedLow
    {
      high := seedHigh / 2;
      low := if seedLow % 2 == 0 then seedLow + 1 else seedLow;
    }

    /** get_bits_generic_raw: the new state is the residue, except that a positive multiple of the modulus
        gives 2^127 - 1 instead of 0.  The modulus being prime, that happens exactly when the old state is
        2^127 - 1 already, and then for ever. */
    method Next(a: u64) returns (y: u64)
      requires State() <= P127
      modifies this
      ensures State() <= P127 && y == low
      ensures State() < P127 ==> State() == (a * old(State())) % P127
      ensures State() == P127 <==> 0 < a * old(State()) && (a * old(State())) % P127 == 0
      ensures old(State()) == P127 && 0 < a ==> State() == P127
      ensures IsPrime(P127) && 0 < a ==> (State() == P127 <==> old(State()) == P127)
      ensures IsPrime(P127) && 0 < a && 0 < old(State()) < P127 ==> 0 < State() == (a * old(State())) % P127
    {
      MultiplesOfModulus(a, State());
      hide MulAddLo, MulAddHi, AddLo, AddHi;
      ghost var product := a * State();
      var tHi := MulAddHi(a, low, 0);
      var m0, m1, m2 := MulAddLo(a, low, 0), MulAddLo(a, high, tHi), MulAddHi(a, high, tHi);
      TopFits(a, high, tHi, m2, m1);
      ThreeWords(a, high, low, tHi, m0, m1, m2);
      var h: u64 := m2 * 2 + m1 / B63;
      m1 := m1 % B63;
      ghost var l := m1 * B64 + m0;
      assert product == h * (P127 + 1) + l;
      low, high := AddFold127(m0, m1, h);
      FoldAt127(product, h, l, high * B64 + low);
      y := low;
    }
  }

  /** l += h, and when that reaches 2^127, add 1 and drop the top bit: subtract 2^127 - 1. */
  method AddFold127(m0: u64, m1: u64, h: u64) returns (lo: u64, hi: u64)
    requires m1 < B63
    ensures var s := m1 * B64 + m0 + h; hi * B64 + lo == if s > P127 then s - P127 else s
  {
    hide AddLo, AddHi;
    AddModulo(m1, m0, h);
    hi, lo := AddHi(m1, m0, h), AddLo(m0, h);
    ghost var s := m1 * B64 + m0 + h;
    Fits128(s, hi * B64 + lo);
    if hi / B63 != 0 {
      AddModulo(hi, lo, 1);
      Fits128(s + 1, AddHi(hi, lo, 1) * B64 + AddLo(lo, 1));
      hi, lo := AddHi(hi, lo, 1), AddLo(lo, 1);
      hi := hi % B63;
    }
  }

  lemma Fits128(s: int, v: int)
    requires 0 <= s < B128 && v == s % B128
    ensures v == s
  {
  }

  lemma TopFits(a: u64, high: u64, tHi: u64, m2: int, m1: u64)
    requires high < B63 && a * high + tHi == m2 * B64 + m1
    ensures m2 < B63
  {
    MulLe(a, B64 - 1, high);
  }

  lemma ThreeWords(a: u64, high: u64, low: u64, tHi: u64, m0: u64, m1: u64, m2: int)
    requires a * low == tHi * B64 + m0 && a * high + tHi == m2 * B64 + m1
    ensures a * (high * B64 + low) == m2 * (B64 * B64) + m1 * B64 + m0
  {
    assert a * (high * B64) == (a * high) * B64;
  }

  lemma FoldAt127(t: int, h: int, l: int, x: int)
    requires t == h * (P127 + 1) + l && 0 <= l <= P127 && 0 <= h < B64
    requires x == if l + h > P127 then l + h - P127 else l + h
    ensures 0 <= x <= P127 && (x < P127 ==> x == t % P127)
    ensures x == P127 <==> 0 < t && t % P127 == 0
  {
    var k := h + (if l + h > P127 then 1 else 0);
    if x < P127 {
      DivModUnique(t, P127, k, x);
    } else {
      DivModUnique(t, P127, k + 1, 0);
    }
  }

  /** a * x is a positive multiple of the modulus when x is the modulus and, if that is prime, only then. */
  lemma MultiplesOfModulus(a: u64, x: int)
    requires 0 <= x <= P127
    ensures 0 < a && x == P127 ==> 0 < a * x && (a * x) % P127 == 0
    ensures IsPrime(P127) && 0 < a && 0 < x < P127 ==> (a * x) % P127 != 0 && 0 < a * x
  {
    hide IsPrime;
    if 0 < a && x == P127 {
      DivModUnique(a * x, P127, a, 0);
    }
    if IsPrime(P127) && 0 < a && 0 < x < P127 {
      MulLe(1, a, x);
      if (a * x) % P127 == 0 {
        var j := PrimeDivides(P127, a, x, a * x / P127);
      }
    }
  }
}
