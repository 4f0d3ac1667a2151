/** Bitwise operators on naturals, and how they meet congruence modulo powers of two. */
module BitOperations {
  import opened Arithmetic

  function BitOr(a: nat, b: nat): nat {
    if a == 0 then b else if b == 0 then a
    else (if a % 2 == 1 || b % 2 == 1 then 1 else 0) + 2 * BitOr(a / 2, b / 2)
  }

  function BitAnd(a: nat, b: nat): nat {
    if a == 0 || b == 0 then 0
    else (if a % 2 == 1 && b % 2 == 1 then 1 else 0) + 2 * BitAnd(a / 2, b / 2)
  }

  lemma {:induction false} OrPlusAnd(a: nat, b: nat)
    ensures BitOr(a, b) + BitAnd(a, b) == a + b && BitAnd(a, b) <= b
  {
    if a != 0 && b != 0 {
      OrPlusAnd(a / 2, b / 2);
    }
  }

  function PowerOfTwo(j: nat): (p: nat)
    ensures 0 < p
  {
    if j == 0 then 1 else 2 * PowerOfTwo(j - 1)
  }

  lemma AndOfDouble(a: nat, b: nat)
    ensures BitAnd(2 * a, b) == 2 * BitAnd(a, b / 2)
  {
  }

  /** a << j and b >> j, one place at a time. */
  function ShiftUp(a: nat, j: nat): nat {
    if j == 0 then a else 2 * ShiftUp(a, j - 1)
  }

  function ShiftDown(b: nat, j: nat): nat {
    if j == 0 then b else ShiftDown(b / 2, j - 1)
  }

  lemma {:induction false} AndOfShifted(a: nat, b: nat, j: nat)
    ensures BitAnd(ShiftUp(a, j), b) == ShiftUp(BitAnd(a, ShiftDown(b, j)), j)
  {
    if j > 0 {
      AndOfDouble(ShiftUp(a, j - 1), b);
      AndOfShifted(a, b / 2, j - 1);
    }
  }

  lemma {:induction false} ShiftUpScales(a: nat, j: nat)
    ensures ShiftUp(a, j) == PowerOfTwo(j) * a
  {
    if j > 0 {
      ShiftUpScales(a, j - 1);
      assert (2 * PowerOfTwo(j - 1)) * a == 2 * (PowerOfTwo(j - 1) * a);
    }
  }

  lemma {:induction false} ShiftDownDivides(b: nat, j: nat)
    ensures ShiftDown(b, j) == b / PowerOfTwo(j)
  {
    if j > 0 {
      ShiftDownDivides(b / 2, j - 1);
      HalfThenDivide(b, PowerOfTwo(j - 1));
    }
  }

  lemma HalfThenDivide(b: nat, p: nat)
    requires 0 < p
    ensures b / 2 / p == b / (2 * p)
  {
    var q, r := b / 2 / p, b / 2 % p;
    assert b / 2 == p * q + r;
    DivModUnique(b, 2 * p, q, 2 * r + b % 2);
  }

  // ----- Single bits -----

  function Bit(n: nat, k: nat): bool {
    if k == 0 then n % 2 == 1 else Bit(n / 2, k - 1)
  }

  lemma {:induction false} BitOfZero(k: nat)
    ensures !Bit(0, k)
  {
    if k > 0 {
      BitOfZero(k - 1);
    }
  }

  lemma {:induction false} BitOfOr(a: nat, b: nat, k: nat)
    ensures Bit(BitOr(a, b), k) <==> Bit(a, k) || Bit(b, k)
  {
    BitOfZero(k);
    if a != 0 && b != 0 && k > 0 {
      BitOfOr(a / 2, b / 2, k - 1);
    }
  }

  lemma {:induction false} BitOfPower(j: nat, k: nat)
    ensures Bit(PowerOfTwo(j), k) <==> j == k
  {
    if k > 0 {
      if j > 0 {
        BitOfPower(j - 1, k - 1);
      } else {
        BitOfZero(k - 1);
      }
    }
  }

  /** Reduction modulo 2^w keeps the bits below w. */
  lemma {:induction false} BitOfRemainder(n: nat, w: nat, k: nat)
    requires k < w
    ensures Bit(n % PowerOfTwo(w), k) == Bit(n, k)
    decreases k
  {
    RemainderHalf(n, PowerOfTwo(w - 1));
    if k > 0 {
      BitOfRemainder(n / 2, w - 1, k - 1);
    }
  }

  lemma RemainderHalf(n: nat, p: nat)
    requires 0 < p
    ensures n % (2 * p) % 2 == n % 2 && n % (2 * p) / 2 == n / 2 % p
  {
    var q, r := n / 2 / p, n / 2 % p;
    assert n / 2 == p * q + r;
    DivModUnique(n, 2 * p, q, 2 * r + n % 2);
  }

  lemma {:induction false} OrBelow(a: nat, b: nat, w: nat)
    requires a < PowerOfTwo(w) && b < PowerOfTwo(w)
    ensures BitOr(a, b) < PowerOfTwo(w)
  {
    if w > 0 {
      OrBelow(a / 2, b / 2, w - 1);
    }
  }

  // ----- Congruence modulo powers of two -----

  lemma {:induction false} PowersMultiply(j: nat, k: nat)
    ensures PowerOfTwo(j + k) == PowerOfTwo(j) * PowerOfTwo(k)
  {
    if j > 0 {
      PowersMultiply(j - 1, k);
      assert PowerOfTwo(j + k) == 2 * PowerOfTwo(j - 1 + k);
      assert 2 * (PowerOfTwo(j - 1) * PowerOfTwo(k)) == (2 * PowerOfTwo(j - 1)) * PowerOfTwo(k);
    }
  }

  lemma WordPowers()
    ensures PowerOfTwo(27) == 0x800_0000 && PowerOfTwo(64) == B64
  {
    hide PowerOfTwo;
    ThreeBits();
    PowersMultiply(3, 3);
    PowersMultiply(6, 3);
    PowersMultiply(9, 9);
    PowersMultiply(18, 9);
    PowersMultiply(27, 3);
    PowersMultiply(1, 1);
    PowersMultiply(30, 2);
    PowersMultiply(32, 32);
  }

  lemma ThreeBits()
    ensures PowerOfTwo(1) == 2 && PowerOfTwo(3) == 8
  {
  }

  /** A congruence modulo 2^w holds modulo every smaller power. */
  lemma CongruentLower(x: int, y: int, k: nat, w: nat)
    requires k <= w && Congruent(PowerOfTwo(w), x, y)
    ensures Congruent(PowerOfTwo(k), x, y)
  {
    PowersMultiply(k, w - k);
    CongruentFactor(x, y, PowerOfTwo(k), PowerOfTwo(w - k));
  }

  lemma CongruentFactor(x: int, y: int, p: int, q: int)
    requires Congruent(p * q, x, y)
    ensures Congruent(p, x, y)
  {
    var e :| x == y + e * (p * q);
    assert e * (p * q) == (e * q) * p;
    CongruentBy(p, x, y, e * q);
  }

  lemma CongruentRemainder(x: int, y: int, p: int)
    requires 0 < p && Congruent(p, x, y)
    ensures x % p == y % p
  {
    hide Congruent;
    CongruentMod(p, x);
    CongruentTrans(p, x % p, x, y);
    CongruentIsMod(p, x % p, y);
  }

  /** OR works bit by bit: its low bits depend on the low bits of its operands alone. */
  lemma {:induction false} OrOfRemainder(a: nat, b: nat, c: nat, k: nat)
    requires a % PowerOfTwo(k) == b % PowerOfTwo(k)
    ensures BitOr(a, c) % PowerOfTwo(k) == BitOr(b, c) % PowerOfTwo(k)
  {
    if k > 0 {
      var p := PowerOfTwo(k - 1);
      RemainderHalf(a, p);
      RemainderHalf(b, p);
      OrOfRemainder(a / 2, b / 2, c / 2, k - 1);
      OrHalves(a, c);
      OrHalves(b, c);
      RemainderHalf(BitOr(a, c), p);
      RemainderHalf(BitOr(b, c), p);
      SameHalves(BitOr(a, c) % (2 * p), BitOr(b, c) % (2 * p));
    }
  }

  lemma OrHalves(a: nat, c: nat)
    ensures BitOr(a, c) / 2 == BitOr(a / 2, c / 2)
    ensures BitOr(a, c) % 2 == if a % 2 == 1 || c % 2 == 1 then 1 else 0
  {
  }

  lemma SameHalves(x: nat, y: nat)
    requires x / 2 == y / 2 && x % 2 == y % 2
    ensures x == y
  {
  }

  lemma CongruentOr(a: nat, b: nat, c: nat, k: nat)
    requires Congruent(PowerOfTwo(k), a, b)
    ensures Congruent(PowerOfTwo(k), BitOr(a, c), BitOr(b, c))
  {
    hide Congruent, BitOr;
    var p := PowerOfTwo(k);
    CongruentRemainder(a, b, p);
    OrOfRemainder(a, b, c, k);
    var x, y := BitOr(a, c), BitOr(b, c);
    CongruentMod(p, x);
    CongruentMod(p, y);
    CongruentTrans(p, x, x % p, y);
  }
}
