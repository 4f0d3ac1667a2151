/** The multiply-with-carry generators as instances of CarryRecursion.  Machine words are integers;
    wrap-around, shifts and the two halves of a double word are written out with % and /. */
module CarryGenerators {
  import opened Arithmetic
  import opened Int128
  import opened CarryRecursion
  import opened OneTapRecursion
  import opened FoldedRecursion
  import opened Mwc2110Seeding

  type u8 = x: int | 0 <= x < 0x100

  // ----- Rings -----

  /** A ring read from position n on, the oldest digit first. */
  ghost function Rotated(q: seq<int>, n: nat): (w: seq<int>)
    requires n < |q|
    ensures |w| == |q|
  {
    q[n..] + q[..n]
  }

  lemma RotatedZero(q: seq<int>)
    requires q != []
    ensures Rotated(q, 0) == q
  {
  }

  function NextIndex(n: nat, r: nat): (n': nat)
    requires n < r
    ensures n' == if n + 1 == r then 0 else n + 1
  {
    if n + 1 == r then 0 else n + 1
  }

  lemma RingAdvances(q: seq<int>, n: nat, d: int)
    requires n < |q|
    ensures Rotated(q[n := d], NextIndex(n, |q|)) == Rotated(q, n)[1..] + [d]
  {
  }

  /** Overwriting the oldest digit of a ring is one step of the recursion. */
  lemma RingStep(b: int, lead: int, a: int, q: seq<int>, n: nat, c: int, d: int, c': int)
    requires n < |q| && lead * d + b * c' == a * q[n] + c
    ensures IsStep(b, OneTap(lead, a, |q|), Rotated(q, n), c, Rotated(q[n := d], NextIndex(n, |q|)), c')
    ensures Rotated(q[n := d], NextIndex(n, |q|))[|q| - 1] == d
  {
    RingAdvances(q, n, d);
    OneTapSum(lead, a, Rotated(q, n));
  }

  lemma RingNext(b: int, a: int, folded: bool, q: seq<int>, n: nat, c: int, d: int, c': int)
    requires 0 < b && n < |q| && d + b * c' == a * q[n] + c && d == NewDigit(b, folded, a * q[n] + c)
    ensures State(Rotated(q[n := d], NextIndex(n, |q|)), c') == NextState(b, a, folded, State(Rotated(q, n), c))
  {
    hide IsStep, OneTap, NextState, NewDigit;
    var s, t := State(Rotated(q, n), c), State(Rotated(q[n := d], NextIndex(n, |q|)), c');
    RingStep(b, 1, a, q, n, c, d, c');
    RotatedHead(q, n);
    StepIsNext(b, a, folded, s, t);
  }

  lemma RotatedHead(q: seq<int>, n: nat)
    requires n < |q|
    ensures Rotated(q, n)[0] == q[n]
  {
  }

  // ----- Multiplication by 2^k - 1 with one shift and one borrow -----

  /** t = (x << k) + c in words of base b = 2^k * m. */
  function ShiftSum(b: int, K: int, x: int, c: int): int
    requires 0 < b
  {
    ((x * K) % b + c) % b
  }

  /** (x >> (w - k)) - (t < x). */
  function ShiftCarry(m: int, x: int, t: int): int
    requires 0 < m
  {
    x / m - if t < x then 1 else 0
  }

  /** The shift form computes both halves of (2^k - 1) * x + c, and keeps the carry below 2^k. */
  lemma ShiftIsMultiply(b: int, K: int, m: int, x: int, c: int)
    requires b == K * m && 0 < K && 0 < m && 0 <= x < b && 0 <= c < K
    ensures var t := ShiftSum(b, K, x, c);
            && (K - 1) * x + c == b * ShiftCarry(m, x, t) + (t - x) % b
            && 0 <= ShiftCarry(m, x, t) < K
  {
    var t := ShiftSum(b, K, x, c);
    var h, y := x / m, (K - 1) * x + c;
    ShiftSumExact(b, K, m, x, c);
    BorrowSplits(b, h, t, x, y);
  }

  /** The sum itself does not wrap. */
  lemma ShiftSumExact(b: int, K: int, m: int, x: int, c: int)
    requires b == K * m && 0 < K && 0 < m && 0 <= x < b && 0 <= c < K
    ensures var t := ShiftSum(b, K, x, c);
            && 0 <= t < b && (K - 1) * x + c == b * (x / m) + (t - x)
            && 0 <= x / m < K && (t < x ==> x / m != 0)
  {
    var h, l := x / m, x % m;
    var p := l * K;
    ShiftSplits(b, K, m, x, h, l);
    assert 0 <= p <= b - K by { MulLe(l, m - 1, K); MulLe(0, l, K); }
    DivModUnique(x * K, b, h, p);
    DivModUnique(p + c, b, 0, p + c);
    if K <= h { MulLe(K, h, m); }
    if h == 0 { MulLe(1, K, l); }
  }

  lemma BorrowSplits(b: int, h: int, t: int, x: int, y: int)
    requires 0 <= t < b && 0 <= x < b && y == b * h + (t - x)
    ensures y == b * (h - if t < x then 1 else 0) + (t - x) % b
  {
    if t < x {
      DivModUnique(t - x, b, -1, t - x + b);
    } else {
      DivModUnique(t - x, b, 0, t - x);
    }
  }

  /** The three lines shared by the KISS2011 and CMWC4827 iterations. */
  method ShiftMultiply(b: int, K: int, m: int, x: int, c: int) returns (digit: int, carry: int)
    requires b == K * m && 0 < K && 0 < m && 0 <= x < b && 0 <= c < K
    ensures (K - 1) * x + c == b * carry + digit
    ensures 0 <= digit < b && 0 <= carry < K
  {
    ShiftIsMultiply(b, K, m, x, c);
    var t := ShiftSum(b, K, x, c);
    digit, carry := (t - x) % b, ShiftCarry(m, x, t);
  }

  lemma ShiftSplits(b: int, K: int, m: int, x: int, h: int, l: int)
    requires b == K * m && x == m * h + l
    ensures x * K == b * h + l * K
  {
    assert (m * h) * K == (K * m) * h;
  }

  // ----- Double words -----

  /** Adding a product to a running double word whose total fits. */
  lemma AddDouble(hi: u64, lo: u64, ph: u64, pl: u64)
    requires hi * B64 + lo + ph * B64 + pl < B64 * B64
    ensures (AddHi(hi, lo, pl) + ph) % B64 * B64 + AddLo(lo, pl) == hi * B64 + lo + ph * B64 + pl
  {
  }

  // ----- generators/mwc8222.c -----

  const MWC8222_A := 809430660

  lemma Mwc8222Modulus()
    ensures PlainModulus(B32, MWC8222_A, 256) == 809430660 * Pow(B32, 256) - 1
  {
    hide Pow, Connection;
    OneTapModulus(B32, 1, MWC8222_A, 256);
  }

  class Mwc8222 {
    const x: array<u32>
    var c: u32
    var pos: u8
    ghost var start: State
    ghost var steps: nat

    /** The ring is as many steps from the recorded start as there were calls. */
    ghost predicate Valid()
      reads this, x
    {
      && x.Length == 256 == |start.x|
      && Current() == After(B32, MWC8222_A, false, start, steps)
    }

    ghost function Current(): State
      requires x.Length == 256
      reads this, x
    {
      State(Rotated(x[..], (pos + 1) % 256), c)
    }

    /** The seeding words are those of the 64-bit generator that fills the ring. */
    constructor (words: seq<u32>)
      requires |words| == 256
      ensures Valid() && steps == 0 && start == State(words, 362436) && fresh(x)
      ensures Canonical(B32, MWC8222_A, 256, start) && !IsLargest(B32, MWC8222_A, start)
    {
      c, pos := 362436, 255;
      x := new u32[256](i requires 0 <= i < 256 => words[i]);
      start, steps := State(words, 362436), 0;
      new;
      assert x[..] == words;
    }

    /** Every output is the closed form, unless the start is the largest state. */
    method Next() returns (out: u32)
      requires Valid()
      modifies x, `c, `pos, `steps
      ensures Valid() && steps == old(steps) + 1
      ensures IsStep(B32, OneTap(1, MWC8222_A, 256), old(Current()).x, old(c), Current().x, c)
      ensures out == Current().x[255]
      ensures c <= MWC8222_A && (old(c) < MWC8222_A ==> c < MWC8222_A)
      ensures Canonical(B32, MWC8222_A, 256, start) ==>
                (out == ClosedForm(B32, MWC8222_A, start, steps + 255) <==> !IsLargest(B32, MWC8222_A, start))
    {
      hide IsStep, OneTap, Rotated, After, NextState, ClosedForm, IsLargest;
      AfterNext(B32, MWC8222_A, false, start, steps);
      out := GetBitsRaw();
      steps := steps + 1;
      if Canonical(B32, MWC8222_A, 256, start) {
        PlainOutput(B32, MWC8222_A, start, steps, 255);
      }
    }

    method GetBitsRaw() returns (out: u32)
      requires x.Length == 256
      modifies x, `c, `pos
      ensures Current() == NextState(B32, MWC8222_A, false, old(Current()))
      ensures IsStep(B32, OneTap(1, MWC8222_A, 256), old(Current()).x, old(c), Current().x, c)
      ensures out == Current().x[255]
      ensures c <= MWC8222_A && (old(c) < MWC8222_A ==> c < MWC8222_A)
    {
      hide IsStep, OneTap, Rotated, NextState;
      pos := (pos + 1) % 256;
      var t: u64 := MWC8222_A * x[pos] + c;
      ghost var ring, c0 := x[..], c;
      RingStep(B32, 1, MWC8222_A, ring, pos, c, t % B32, t / B32);
      c := t / B32;
      var d: u32 := t % B32;
      x[pos] := d;
      assert x[..] == ring[pos := d];
      RingNext(B32, MWC8222_A, false, ring, pos, c0, d, c);
      out := x[pos];
    }
  }

  // ----- generators/mall64.c -----

  /** Goresky-Klapper coefficients, the newest digit first. */
  const MALL64: seq<int> := [1, 9005090050, 11471147, 6906969069, 18000690696906969069]

  /** The sum of the four multipliers bounds the carry. */
  const MALL64_TOTAL := 18000690696906969069 + 6906969069 + 11471147 + 9005090050

  lemma MallSum(x: seq<int>)
    requires |x| == 4
    ensures Taps(MALL64, x, 4, 4)
            == 18000690696906969069 * x[0] + 6906969069 * x[1] + 11471147 * x[2] + 9005090050 * x[3]
  {
    assert Taps(MALL64, x, 4, 2) == Taps(MALL64, x, 4, 1) + MALL64[2] * x[2];
    assert Taps(MALL64, x, 4, 3) == Taps(MALL64, x, 4, 2) + MALL64[3] * x[1];
  }

  class Mall64 {
    const x: array<u64>
    var c: u64

    ghost predicate Valid() { x.Length == 4 }

    /** The double-word sum of the four products and the carry never wraps, whatever the carry. */
    method Sum() returns (hi: u64, lo: u64)
      requires Valid()
      ensures hi * B64 + lo == Taps(MALL64, x[..], 4, 4) + c
    {
      MallSum(x[..]);
      hide Taps;
      lo, hi := MulAddLo(18000690696906969069, x[0], 0), MulAddHi(18000690696906969069, x[0], 0);
      AddDouble(hi, lo, 0, c);
      lo, hi := AddLo(lo, c), AddHi(hi, lo, c);
      hide AddLo, AddHi;
      assert hi * B64 + lo == 18000690696906969069 * x[0] + c;
      var pl, ph := MulAddLo(6906969069, x[1], 0), MulAddHi(6906969069, x[1], 0);
      AddDouble(hi, lo, ph, pl);
      lo, hi := AddLo(lo, pl), (AddHi(hi, lo, pl) + ph) % B64;
      pl, ph := MulAddLo(11471147, x[2], 0), MulAddHi(11471147, x[2], 0);
      AddDouble(hi, lo, ph, pl);
      lo, hi := AddLo(lo, pl), (AddHi(hi, lo, pl) + ph) % B64;
      pl, ph := MulAddLo(9005090050, x[3], 0), MulAddHi(9005090050, x[3], 0);
      AddDouble(hi, lo, ph, pl);
      lo, hi := AddLo(lo, pl), (AddHi(hi, lo, pl) + ph) % B64;
    }

    method Next() returns (out: u64)
      requires Valid()
      modifies x, `c
      ensures IsStep(B64, MALL64, old(x[..]), old(c), x[..], c)
      ensures out == x[3]
      ensures old(c) < MALL64_TOTAL ==> c < MALL64_TOTAL
    {
      ghost var s := x[..];
      MallSum(s);
      var hi, lo := Sum();
      x[0] := x[1];
      x[1] := x[2];
      x[2] := x[3];
      x[3] := lo;
      c := hi;
      out := lo;
      hide Taps;
      assert x[..] == s[1..] + [lo];
    }
  }

  // ----- generators/gmwc128.c -----

  const GMWC_MINUSA0 := 0x7d084a4d80885f
  const GMWC_A0INV := 0x9b1eea3792a42c61
  const GMWC_A1 := 0xff002aae7d81a646

  /** The documented modulus. */
  lemma GmwcModulus()
    ensures Modulus(B64, [-GMWC_MINUSA0, GMWC_A1]) == 0xff002aae7d81a646007d084a4d80885f
  {
    assert Pow(B64, 1) == B64 * Pow(B64, 0);
    assert Connection(B64, [-GMWC_MINUSA0, GMWC_A1], 1) == GMWC_A1 * B64;
  }

  /** The new digit makes tLo + MINUSA0 * digit a multiple of 2^64. */
  lemma GmwcExact(tLo: u64)
    ensures MulAddLo(GMWC_MINUSA0, (GMWC_A0INV * tLo) % B64, tLo) == 0
  {
    var q := (GMWC_A0INV * tLo) / B64;
    var k := (GMWC_MINUSA0 * GMWC_A0INV + 1) / B64;
    DivModUnique(GMWC_MINUSA0 * ((GMWC_A0INV * tLo) % B64) + tLo, B64, k * tLo - GMWC_MINUSA0 * q, 0);
  }

  /** The division by 2^64 is exact, and the sum of the two high words does not wrap. */
  lemma GmwcStep(x: u64, c: u64)
    ensures var lo, hi := MulAddLo(GMWC_A1, x, c), MulAddHi(GMWC_A1, x, c);
            var x' := (GMWC_A0INV * lo) % B64;
            var c' := (MulAddHi(GMWC_MINUSA0, x', lo) + hi) % B64;
            && B64 * c' - GMWC_MINUSA0 * x' == GMWC_A1 * x + c
            && c' <= GMWC_A1 + GMWC_MINUSA0
  {
    var lo, hi := MulAddLo(GMWC_A1, x, c), MulAddHi(GMWC_A1, x, c);
    var x' := (GMWC_A0INV * lo) % B64;
    var h := MulAddHi(GMWC_MINUSA0, x', lo);
    GmwcExact(lo);
    assert B64 * h == GMWC_MINUSA0 * x' + lo;
    assert B64 * (h + hi) == GMWC_MINUSA0 * x' + GMWC_A1 * x + c;
    hide MulAddLo, MulAddHi;
    assert h + hi <= GMWC_A1 + GMWC_MINUSA0;
  }

  class Gmwc128 {
    var x: u64
    var c: u64

    method Next() returns (out: u64)
      modifies this
      ensures IsStep(B64, [-GMWC_MINUSA0, GMWC_A1], [old(x)], old(c), [x], c)
      ensures out == x
      ensures c <= GMWC_A1 + GMWC_MINUSA0
    {
      assert Taps([-GMWC_MINUSA0, GMWC_A1], [x], 1, 1) == GMWC_A1 * x;
      GmwcStep(x, c);
      hide MulAddLo, MulAddHi, Taps;
      var tLo, tHi := MulAddLo(GMWC_A1, x, c), MulAddHi(GMWC_A1, x, c);
      x := (GMWC_A0INV * tLo) % B64;
      c := (MulAddHi(GMWC_MINUSA0, x, tLo) + tHi) % B64;
      out := x;
    }
  }

  // ----- generators/mwc2110_u64.c -----

  const MWC2110_A := 0x4ef2ab6150c177ae

  /** The modulus that the comments of generators/mwc2110_u64.c compute with. */
  lemma Mwc2110Modulus()
    ensures PlainModulus(MWC2110_B, MWC2110_A, 32)
            == 0x4ef2ab6150c177ae * Pow(0x1_0000_0000_0000_0000 - 1, 32) - 1
  {
    hide Pow, Connection;
    OneTapModulus(MWC2110_B, 1, MWC2110_A, 32);
  }

  /** From (H, L) with A * x + c == H * 2^64 + L to base 2^64 - 1: the carry of H + L goes both ways. */
  lemma Mwc2110Split(x: u64, c: u64)
    ensures var lo, h := MulAddLo(MWC2110_A, x, c), MulAddHi(MWC2110_A, x, c);
            var s, t := AddHi(0, lo, h), AddLo(lo, h);
            && (t + s) % B64 == t + s && (h + s) % B64 == h + s
            && MWC2110_A * x + c == (t + s) + MWC2110_B * (h + s)
            && h + s <= MWC2110_A
            && (t + s == MWC2110_B <==> 0 < MWC2110_A * x + c && (MWC2110_A * x + c) % MWC2110_B == 0)
  {
    hide MulAddLo, MulAddHi, AddHi, AddLo;
    var lo, h, t := MulAddLo(MWC2110_A, x, c), MulAddHi(MWC2110_A, x, c), MWC2110_A * x + c;
    assert t <= (MWC2110_A + 1) * MWC2110_B;
    FoldSplit(lo, h, t);
    MultipleDigit(t, AddLo(lo, h) + AddHi(0, lo, h), h + AddHi(0, lo, h));
  }

  /** Of the two digits that a multiple of the base allows, 0 is used for 0 only. */
  lemma MultipleDigit(t: int, digit: int, carry: int)
    requires t == digit + MWC2110_B * carry && 0 <= digit <= MWC2110_B && 0 <= carry && (digit == 0 ==> t == 0)
    ensures digit == MWC2110_B <==> 0 < t && t % MWC2110_B == 0
  {
    if digit == MWC2110_B {
      DivModUnique(t, MWC2110_B, carry + 1, 0);
    } else {
      DivModUnique(t, MWC2110_B, carry, digit);
    }
  }

  lemma SplitIsNewDigit(t: int, digit: int, carry: int)
    requires 0 <= t == digit + MWC2110_B * carry && 0 <= digit <= MWC2110_B
    requires digit == MWC2110_B <==> 0 < t && t % MWC2110_B == 0
    ensures digit == NewDigit(MWC2110_B, true, t)
  {
    if digit < MWC2110_B {
      DivModUnique(t, MWC2110_B, carry, digit);
    }
  }

  /** A double word refolded in base 2^64 - 1 */
  lemma FoldSplit(lo: u64, h: u64, t: int)
    requires t == h * B64 + lo && t <= (MWC2110_A + 1) * MWC2110_B
    ensures var s, d := AddHi(0, lo, h), AddLo(lo, h);
            && (d + s) % B64 == d + s && (h + s) % B64 == h + s
            && t == (d + s) + MWC2110_B * (h + s) && h + s <= MWC2110_A && (d + s == 0 ==> t == 0)
  {
    var s, d := (lo + h) / B64, (lo + h) % B64;
    assert lo + h == s * B64 + d && 0 <= s <= 1;
    assert h <= MWC2110_A;
    assert d + s < B64;
  }

  const MWC2110_CARRY := 1234567890

  class Mwc2110 {
    const x: array<u64>
    var c: u64
    var pos: nat
    ghost var start: State
    ghost var steps: nat

    ghost predicate HasShape() reads `pos { x.Length == 32 && pos <= 32 }

    ghost function Current(): State
      reads this, x
    {
      State(x[..], c)
    }

    /** The buffer is so many steps of the recursion from the recorded start. */
    ghost predicate Valid()
      reads this, x
    {
      HasShape() && |start.x| == 32 && Current() == After(MWC2110_B, MWC2110_A, true, start, steps)
    }

    /** Number of the digit to be delivered next, the digits of the start being 0 to 31. */
    ghost function Count(): nat
      reads `steps, `pos
    {
      steps + pos
    }

    constructor (seed: u64)
      ensures Valid() && Count() == 32 && fresh(x)
      ensures start == State(SeedDigits(seed, 32), MWC2110_CARRY)
      ensures Canonical(MWC2110_B, MWC2110_A, 32, start) && Loose(MWC2110_B, MWC2110_A, 32, start)
    {
      hide After, SeedDigits;
      AfterZero(MWC2110_B, MWC2110_A, true, State(SeedDigits(seed, 32), MWC2110_CARRY));
      c, pos := MWC2110_CARRY, 32;
      x := new u64[32];
      start, steps := State(SeedDigits(seed, 32), MWC2110_CARRY), 0;
      new;
      SeedCells(seed);
    }

    /** The seeding loop. */
    method SeedCells(seed: u64)
      requires HasShape()
      modifies x
      ensures x[..] == SeedDigits(seed, 32)
    {
      hide SeedDigit, NextSeed, SeedDigits;
      var u := seed;
      for i := 0 to 32
        invariant x[..i] + SeedDigits(u, 32 - i) == SeedDigits(seed, 32)
      {
        ghost var done := x[..i];
        SeedDigitsMove(done, u, 32 - i);
        x[i] := SeedDigit(u);
        assert x[..i + 1] == done + [SeedDigit(u)];
        u := NextSeed(u);
      }
      assert x[..32] == x[..];
    }

    /** The state that the self-test starts from. */
    constructor SelfTest()
      ensures Valid() && Count() == 32 && fresh(x)
      ensures start == State(seq(32, i => i), 1)
      ensures Canonical(MWC2110_B, MWC2110_A, 32, start) && Loose(MWC2110_B, MWC2110_A, 32, start)
    {
      c, pos := 1, 32;
      x := new u64[32](i => if 0 <= i < 32 then i else 0);
      start, steps := State(seq(32, i => i), 1), 0;
      new;
      assert x[..] == start.x;
    }

    /** Base 2^64 - 1 from 2^64-bit halves: a digit may come out as the base itself, and the identity
        still holds.  The whole buffer is 32 steps of the recursion. */
    method FillBuffer()
      requires HasShape()
      modifies x, `c
      ensures Current() == After(MWC2110_B, MWC2110_A, true, old(Current()), 32)
      ensures Reaches(MWC2110_B, OneTap(1, MWC2110_A, 32), old(Current()), Current(), 32)
      ensures Loose(MWC2110_B, MWC2110_A, 32, Current())
    {
      hide Reaches, NextState, OneTap, Rotated;
      ghost var s := Current();
      RotatedZero(x[..]);
      var i := 0;
      while i < 32
        invariant 0 <= i <= 32
        invariant State(Rotated(x[..], if i == 32 then 0 else i), c) == After(MWC2110_B, MWC2110_A, true, s, i)
        invariant i > 0 ==> c <= MWC2110_A
      {
        AfterNext(MWC2110_B, MWC2110_A, true, s, i);
        StepBuffer(i);
        i := i + 1;
      }
      RotatedZero(x[..]);
      AfterReaches(MWC2110_B, MWC2110_A, true, s, 32);
    }

    /** One round of the loop: cell i holds the oldest digit and gets the new one. */
    method StepBuffer(i: nat)
      requires HasShape() && i < 32
      modifies x, `c
      ensures State(Rotated(x[..], NextIndex(i, 32)), c)
              == NextState(MWC2110_B, MWC2110_A, true, old(State(Rotated(x[..], i), c)))
      ensures c <= MWC2110_A
    {
      hide IsStep, OneTap, NextState, Rotated, NewDigit;
      ghost var n, c0 := x[..], c;
      var tLo, tHi := Split(x[i], c);
      SplitIsNewDigit(MWC2110_A * x[i] + c, tLo, tHi);
      RingNext(MWC2110_B, MWC2110_A, true, n, i, c0, tLo, tHi);
      c := tHi;
      x[i] := tLo;
      assert x[..] == n[i := tLo];
    }

    static method Split(x: u64, c: u64) returns (digit: u64, carry: u64)
      ensures MWC2110_A * x + c == digit + MWC2110_B * carry && carry <= MWC2110_A
      ensures digit == MWC2110_B <==> 0 < MWC2110_A * x + c && (MWC2110_A * x + c) % MWC2110_B == 0
    {
      hide MulAddLo, MulAddHi, AddHi, AddLo;
      Mwc2110Split(x, c);
      digit, carry := MulAddLo(MWC2110_A, x, c), MulAddHi(MWC2110_A, x, c);
      var tHi := AddHi(0, digit, carry);
      digit := AddLo(digit, carry);
      digit, carry := (digit + tHi) % B64, (carry + tHi) % B64;
    }

    /** From any start with a carry up to the multiplier every output is known, and with it when the closed form
        gives it. */
    method Next() returns (out: u64)
      requires Valid()
      modifies x, `c, `pos, `steps
      ensures Valid() && Count() == old(Count()) + 1
      ensures old(pos) < 32 ==> x[..] == old(x[..]) && c == old(c) && pos == old(pos) + 1 && out == x[old(pos)]
      ensures old(pos) == 32 ==> pos == 1 && out == x[0]
      ensures old(pos) == 32 ==> Reaches(MWC2110_B, OneTap(1, MWC2110_A, 32), old(Current()), Current(), 32)
      ensures Loose(MWC2110_B, MWC2110_A, 32, start) ==>
                && out == FoldedDigit(MWC2110_B, MWC2110_A, start, old(Count()))
                && (out == ClosedForm(MWC2110_B, MWC2110_A, start, old(Count()))
                    <==> ClosedFormHolds(MWC2110_B, MWC2110_A, start, old(Count())))
    {
      hide Reaches, OneTap, After, FoldedDigit, ClosedForm, ClosedFormHolds, Loose;
      if pos == 32 {
        AfterAfter(MWC2110_B, MWC2110_A, true, start, steps, 32);
        FillBuffer();
        pos, steps := 0, steps + 32;
      }
      if Loose(MWC2110_B, MWC2110_A, 32, start) {
        FoldedOutput(MWC2110_B, MWC2110_A, start, steps, pos);
      }
      out := x[pos];
      pos := pos + 1;
    }
  }

  /** A seed whose first output is 2^64 - 1, where the closed form gives 0. */
  lemma FailingSeed()
    ensures var s := State(SeedDigits(0x195d6c926b55e1a9, 32), MWC2110_CARRY);
            && FoldedDigit(MWC2110_B, MWC2110_A, s, 32) == MWC2110_B
            && ClosedForm(MWC2110_B, MWC2110_A, s, 32) == 0
            && !ClosedFormHolds(MWC2110_B, MWC2110_A, s, 32)
  {
    hide FoldedDigit, ClosedForm, ClosedFormHolds, SeedDigit, SeedDigits;
    var s := State(SeedDigits(0x195d6c926b55e1a9, 32), MWC2110_CARRY);
    FirstDigit(0x195d6c926b55e1a9, 32);
    FailingDigit();
    FirstNewDigit(MWC2110_B, MWC2110_A, s);
  }

  // ----- generators/kiss11_32.c, generators/kiss11_64.c -----

  /** The multiply-with-carry part of both KISS2011 versions: multiplier 2^28 - 1, words of base b =
      2^28 * m, a ring whose length is a power of two. */
  class Kiss2011 {
    const b: int
    const m: int
    const q: array<int>
    var carry: int
    var j: nat

    ghost predicate Valid()
      reads this, q
    {
      && ((b == B32 && m == 0x10 && q.Length == 4194304) || (b == B64 && m == 0x10_0000_0000 && q.Length == 2097152))
      && j < q.Length && 0 <= carry < 0x1000_0000
      && forall i | 0 <= i < q.Length :: 0 <= q[i] < b
    }

    ghost function Digits(): seq<int>
      requires Valid()
      reads this, q
    {
      Rotated(q[..], NextIndex(j, q.Length))
    }

    method Next() returns (out: int)
      requires Valid()
      modifies q, `carry, `j
      ensures Valid()
      ensures IsStep(b, OneTap(1, 0xFFF_FFFF, q.Length), old(Digits()), old(carry), Digits(), carry)
      ensures out == Digits()[q.Length - 1]
    {
      j := (j + 1) % q.Length;
      var digit, c' := ShiftMultiply(b, 0x1000_0000, m, q[j], carry);
      hide OneTap, Rotated;
      out := Overwrite(digit, c');
    }

    /** The new digit replaces the oldest one. */
    method Overwrite(digit: int, c': int) returns (out: int)
      requires Valid() && 0 <= digit < b && 0 <= c' < 0x1000_0000
      requires digit + b * c' == 0xFFF_FFFF * q[j] + carry
      modifies q, `carry
      ensures Valid() && out == Digits()[q.Length - 1]
      ensures IsStep(b, OneTap(1, 0xFFF_FFFF, q.Length), old(Rotated(q[..], j)), old(carry), Digits(), carry)
    {
      hide IsStep, OneTap, Rotated;
      RingStep(b, 1, 0xFFF_FFFF, q[..], j, carry, digit, c');
      ghost var ring := q[..];
      carry := c';
      q[j] := digit;
      assert q[..] == ring[j := digit];
      out := q[j];
    }
  }

  // ----- generators/cmwc4827.c -----

  /** Complementary form: multiplier 4095 and the digit complemented, so the recursion has leading
      coefficient -1 and carry c + 1. */
  class Cmwc4827 {
    const x: array<u32>
    var c: u32
    var pos: nat

    ghost predicate Valid()
      reads this, x
    {
      x.Length == 4827 && pos <= 4827 && c < 4096
    }

    static function After(pos: nat): nat {
      if pos < 4826 then pos + 1 else 0
    }

    ghost function Digits(): seq<int>
      requires Valid()
      reads this, x
    {
      Rotated(x[..], After(pos))
    }

    method Next() returns (out: u32)
      requires Valid()
      modifies x, `c, `pos
      ensures Valid()
      ensures IsStep(B32, OneTap(-1, 4095, 4827), old(Digits()), old(c) + 1, Digits(), c + 1)
      ensures out == Digits()[4826]
    {
      pos := After(pos);
      ghost var ring, c0 := x[..], c;
      var digit, carry := ShiftMultiply(B32, 0x1000, 0x10_0000, x[pos], c);
      var d: u32 := B32 - 1 - digit;
      RingStep(B32, -1, 4095, ring, pos, c0 + 1, d, carry + 1);
      hide IsStep, OneTap, Rotated;
      c := carry;
      x[pos] := d;
      assert x[..] == ring[pos := d];
      out := x[pos];
    }
  }
}
