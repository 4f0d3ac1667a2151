/** The seeding loop of generators/mwc2110_u64.c. */
module Mwc2110Seeding {
  import opened Arithmetic
  import opened BitOperations

  const MWC2110_B := 0xFFFF_FFFF_FFFF_FFFF

  function RotateLeft(u: bv64, k: bv7): bv64
    requires 0 < k < 64
  {
    (u << k) | (u >> (64 - k))
  }

  /** One scrambled word of the seeding loop. */
  function SeedWord(seed: bv64): bv64 {
    var u := (seed ^ (seed >> 32)) * 6906969069;
    u ^ RotateLeft(u, 17) ^ RotateLeft(u, 53)
  }

  /** seed += (seed * seed) | 0x40000005 */
  function NextSeed(seed: u64): u64 {
    (seed + BitOr((seed * seed) % B64, 0x40000005)) % B64
  }

  /** 2^64 - 1 is no digit and is replaced by 0. */
  function StoredWord(u: bv64): (d: u64)
    ensures d < MWC2110_B
  {
    if u + 1 == 0 then 0
    else
      BelowBase(u);
      u as int
  }

  lemma BelowBase(u: bv64)
    ensures u + 1 != 0 ==> u as int < MWC2110_B
  {
    if u as int == MWC2110_B {
      assert u == MWC2110_B as bv64;
    }
  }

  function SeedDigit(seed: u64): u64 {
    StoredWord(SeedWord(seed as bv64))
  }

  function SeedDigits(seed: u64, n: nat): (x: seq<u64>)
    ensures |x| == n && forall k | 0 <= k < n :: x[k] < MWC2110_B
    decreases n
  {
    hide SeedWord, NextSeed, StoredWord;
    if n == 0 then [] else [SeedDigit(seed)] + SeedDigits(NextSeed(seed), n - 1)
  }

  /** A prefix takes over the next digit of the rest. */
  lemma SeedDigitsMove(done: seq<u64>, u: u64, n: nat)
    requires n > 0
    ensures done + SeedDigits(u, n) == done + [SeedDigit(u)] + SeedDigits(NextSeed(u), n - 1)
  {
    hide SeedDigit, NextSeed;
  }

  lemma FirstDigit(seed: u64, n: nat)
    requires n > 0
    ensures SeedDigits(seed, n)[0] == SeedDigit(seed)
  {
    hide SeedDigit, NextSeed;
  }

  lemma DigitOf(seed: u64, b: bv64)
    requires b == seed as bv64
    ensures SeedDigit(seed) == StoredWord(SeedWord(b))
  {
    hide SeedWord, StoredWord;
  }

  lemma AndBack(b: bv64)
    ensures b as int as bv64 == b
  {
  }

  lemma FailingDigit()
    ensures SeedDigit(0x195d6c926b55e1a9) == 17743604815629474765
  {
    hide SeedWord, StoredWord, SeedDigit;
    var b: bv64 := 0x195d6c926b55e1a9;
    FailingSeedWord();
    FailingStored();
    FailingNumber(b);
    AndBack(b);
    DigitOf(b as int, b);
  }

  lemma FailingNumber(b: bv64)
    requires b == 0x195d6c926b55e1a9
    ensures b as int == 0x195d6c926b55e1a9
  {
  }

  lemma FailingSeedWord()
    ensures SeedWord(0x195d6c926b55e1a9) == 17743604815629474765
  {
  }

  lemma FailingStored()
    ensures StoredWord(17743604815629474765) == 17743604815629474765
  {
  }

  // ----- The sequence of seeds -----

  /** Bits 0, 2 and 30. */
  lemma ConstantBits(k: nat)
    ensures Bit(0x40000005, k) <==> k == 0 || k == 2 || k == 30
  {
    if k >= 3 {
      assert Bit(0x40000005, k) == Bit(0x20000002, k - 1) == Bit(0x10000001, k - 2) == Bit(0x8000000, k - 3);
      WordPowers();
      BitOfPower(27, k - 3);
    }
  }

  /** What is added to a seed has the bits of its square, and the bits 0, 2 and 30. */
  lemma NextSeedBits(s: u64, k: nat)
    requires k < 64
    ensures Bit((NextSeed(s) - s) % B64, k) <==> k == 0 || k == 2 || k == 30 || Bit(s * s, k)
  {
    hide BitOr, Bit, PowerOfTwo;
    var square := (s * s) % B64;
    WordPowers();
    OrBelow(square, 0x40000005, 64);
    AddedBack(s, BitOr(square, 0x40000005));
    BitOfOr(square, 0x40000005, k);
    BitOfRemainder(s * s, 64, k);
    ConstantBits(k);
  }

  lemma AddedBack(s: u64, d: u64)
    ensures ((s + d) % B64 - s) % B64 == d
  {
  }

  /** Seeds that agree on their low k bits have squares that agree on one bit more. */
  lemma SquaresAgree(s: int, t: int, p: int)
    requires p % 2 == 0 && Congruent(p, t, s)
    ensures Congruent(2 * p, t * t, s * s)
  {
    var e :| t == s + e * p;
    var q := p / 2;
    SquareAlgebra(s, e, q);
    CongruentBy(2 * p, t * t, s * s, e * (s + q * e));
  }

  lemma SquareAlgebra(s: int, e: int, q: int)
    ensures var t := s + e * (2 * q); t * t == s * s + (e * (s + q * e)) * (2 * (2 * q))
  {
    var t := s + e * (2 * q);
    calc {
      t * t;
      s * s + 2 * (s * (e * (2 * q))) + (e * (2 * q)) * (e * (2 * q));
      { assert s * (e * (2 * q)) == 2 * q * (e * s) && (e * (2 * q)) * (e * (2 * q)) == 4 * q * (e * (q * e)); }
      s * s + 4 * q * (e * s) + 4 * q * (e * (q * e));
      s * s + 4 * q * (e * s + e * (q * e));
      s * s + (e * (s + q * e)) * (2 * (2 * q));
    }
  }

  /** What is added depends, in its low k + 1 bits, on the low k bits of the seed alone. */
  lemma AddedAgrees(s: u64, t: u64, k: nat)
    requires k < 64 && Congruent(PowerOfTwo(k), t, s)
    ensures Congruent(PowerOfTwo(k + 1), BitOr((t * t) % B64, 0x40000005), BitOr((s * s) % B64, 0x40000005))
  {
    hide Congruent, BitOr;
    var x, y := (t * t) % B64, (s * s) % B64;
    if k == 0 {
      OrHalves(x, 0x40000005);
      OrHalves(y, 0x40000005);
      CongruentBy(2, BitOr(x, 0x40000005), BitOr(y, 0x40000005),
                  (BitOr(x, 0x40000005) - BitOr(y, 0x40000005)) / 2);
    } else {
      var p := PowerOfTwo(k + 1);
      SquaresAgree(s, t, PowerOfTwo(k));
      LowPart(t * t, k + 1);
      LowPart(s * s, k + 1);
      CongruentTrans(p, x, t * t, s * s);
      CongruentSymmetric(p, y, s * s);
      CongruentTrans(p, x, s * s, y);
      CongruentOr(x, y, 0x40000005, k + 1);
    }
  }

  lemma LowPart(n: int, k: nat)
    requires k <= 64
    ensures Congruent(PowerOfTwo(k), n % B64, n)
  {
    hide Congruent, PowerOfTwo;
    WordPowers();
    CongruentMod(B64, n);
    CongruentLower(n % B64, n, k, 64);
  }

  /** The step is triangular: when two seeds agree on their low k bits, the steps differ by as much as the seeds
      on their low k + 1 bits. */
  lemma NextSeedTriangular(s: u64, t: u64, k: nat)
    requires k < 64 && Congruent(PowerOfTwo(k), t, s)
    ensures Congruent(PowerOfTwo(k + 1), NextSeed(t) - NextSeed(s), t - s)
  {
    hide Congruent, BitOr, PowerOfTwo;
    var p := PowerOfTwo(k + 1);
    var a, b := BitOr((t * t) % B64, 0x40000005), BitOr((s * s) % B64, 0x40000005);
    AddedAgrees(s, t, k);
    LowPart(t + a, k + 1);
    LowPart(s + b, k + 1);
    Differences(p, NextSeed(t), t, a, NextSeed(s), s, b);
  }

  lemma Differences(p: int, x: int, t: int, a: int, y: int, s: int, b: int)
    requires Congruent(p, x, t + a) && Congruent(p, y, s + b) && Congruent(p, a, b)
    ensures Congruent(p, x - y, t - s)
  {
    var i :| x == t + a + i * p;
    var j :| y == s + b + j * p;
    var k :| a == b + k * p;
    CongruentBy(p, x - y, t - s, i - j + k);
  }

  /** Every step flips the lowest bit. */
  lemma NextSeedFlips(s: u64)
    ensures NextSeed(s) % 2 == 1 - s % 2
  {
    hide BitOr;
    var d := BitOr((s * s) % B64, 0x40000005);
    OrHalves((s * s) % B64, 0x40000005);
    OddFlips(s, d);
  }

  lemma OddFlips(s: int, d: int)
    requires d % 2 == 1
    ensures (s + d) % B64 % 2 == 1 - s % 2
  {
  }

  lemma {:induction false} AgreeBelow(s: u64, t: u64, k: nat)
    requires k <= 64 && NextSeed(s) == NextSeed(t)
    ensures Congruent(PowerOfTwo(k), t, s)
  {
    hide Congruent, NextSeed;
    if k == 0 {
      CongruentBy(1, t, s, t - s);
    } else {
      AgreeBelow(s, t, k - 1);
      NextSeedTriangular(s, t, k - 1);
      ZeroDifference(PowerOfTwo(k), s, t);
    }
  }

  lemma ZeroDifference(p: int, s: int, t: int)
    requires Congruent(p, 0, t - s)
    ensures Congruent(p, t, s)
  {
    var k :| 0 == t - s + k * p;
    CongruentBy(p, t, s, -k);
  }

  /** The step is a permutation of the 64-bit words. */
  lemma NextSeedInjective(s: u64, t: u64)
    requires NextSeed(s) == NextSeed(t)
    ensures s == t
  {
    hide Congruent, NextSeed, PowerOfTwo;
    AgreeBelow(s, t, 64);
    WordPowers();
    CongruentIsMod(B64, t, s);
  }
}
