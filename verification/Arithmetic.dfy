/** The little number theory that the word-level models share. */
module Arithmetic {

  const B32 := 0x1_0000_0000
  const B64 := 0x1_0000_0000_0000_0000
  const B128 := B64 * B64

  type u32 = x: int | 0 <= x < B32
  type u64 = x: int | 0 <= x < B64

  ghost function Pow(b: int, n: nat): int {
    if n == 0 then 1 else b * Pow(b, n - 1)
  }

  lemma {:induction false} PowPositive(b: int, n: nat)
    requires 0 < b
    ensures 0 < Pow(b, n)
  {
    if n > 0 {
      PowPositive(b, n - 1);
      MulLe(1, b, Pow(b, n - 1));
    }
  }

  lemma MulLe(x: int, y: int, c: int)
    requires x <= y && 0 <= c
    ensures x * c <= y * c && c * x <= c * y
  {
  }

  /** Quotient and remainder are determined by their defining equation. */
  lemma DivModUnique(n: int, b: int, q: int, r: int)
    requires 0 < b && n == b * q + r && 0 <= r < b
    ensures n / b == q && n % b == r
  {
    var p, s := n / b, n % b;
    assert n == b * p + s;
    if q < p {
      MulLe(q + 1, p, b);
    } else if p < q {
      MulLe(p + 1, q, b);
    }
  }

  ghost predicate Congruent(m: int, p: int, q: int) {
    exists k :: p == q + k * m
  }

  lemma CongruentBy(m: int, p: int, q: int, k: int)
    requires p == q + k * m
    ensures Congruent(m, p, q)
  {
  }

  /** An offset that is no multiple of m spoils the congruence. */
  lemma NotCongruentBy(m: int, p: int, q: int, j: int, d: int)
    requires p == q + j * m - d && 0 < d < m
    ensures !Congruent(m, p, q)
  {
    if Congruent(m, p, q) {
      var k :| p == q + k * m;
      if k < j {
        MulLe(k + 1, j, m);
      } else {
        MulLe(j, k, m);
      }
    }
  }

  lemma CongruentTrans(m: int, p: int, q: int, r: int)
    requires Congruent(m, p, q) && Congruent(m, q, r)
    ensures Congruent(m, p, r)
  {
    var k :| p == q + k * m;
    var l :| q == r + l * m;
    CongruentBy(m, p, r, k + l);
  }

  lemma CongruentSymmetric(m: int, p: int, q: int)
    requires Congruent(m, p, q)
    ensures Congruent(m, q, p)
  {
    var k :| p == q + k * m;
    CongruentBy(m, q, p, -k);
  }

  lemma CongruentAdd(m: int, p: int, q: int, x: int, y: int)
    requires Congruent(m, p, q) && Congruent(m, x, y)
    ensures Congruent(m, p + x, q + y)
  {
    var k :| p == q + k * m;
    var l :| x == y + l * m;
    CongruentBy(m, p + x, q + y, k + l);
  }

  lemma CongruentMul(m: int, p: int, q: int, x: int)
    requires Congruent(m, p, q)
    ensures Congruent(m, x * p, x * q)
  {
    var k :| p == q + k * m;
    assert x * (k * m) == (x * k) * m;
    CongruentBy(m, x * p, x * q, x * k);
  }

  lemma CongruentMod(m: int, p: int)
    requires 0 < m
    ensures Congruent(m, p % m, p) && Congruent(m, p, p % m)
  {
    CongruentBy(m, p % m, p, -(p / m));
    CongruentBy(m, p, p % m, p / m);
  }

  /** A residue in range is the remainder. */
  lemma CongruentIsMod(m: int, p: int, q: int)
    requires 0 < m && Congruent(m, p, q) && 0 <= p < m
    ensures p == q % m
  {
    var k :| p == q + k * m;
    DivModUnique(q, m, -k, p);
  }

  // ----- Primes -----

  ghost predicate IsPrime(p: int) {
    1 < p && forall d | 1 < d < p :: p % d != 0
  }

  /** Euclid's lemma: a prime that divides a product whose first factor is below it divides the second. */
  lemma {:induction false} PrimeDivides(p: int, a: int, x: int, k: int) returns (j: int)
    requires IsPrime(p) && 0 < a < p && a * x == k * p
    ensures x == j * p
    decreases a
  {
    if a == 1 {
      j := k;
    } else {
      var q, r := p / a, p % a;
      assert r * x == (x - q * k) * p by {
        RemainderTimes(p, a, q, r, x, k);
      }
      j := PrimeDivides(p, r, x, x - q * k);
    }
  }

  lemma RemainderTimes(p: int, a: int, q: int, r: int, x: int, k: int)
    requires p == a * q + r && a * x == k * p
    ensures r * x == (x - q * k) * p
  {
    calc {
      r * x;
      (p - a * q) * x;
      p * x - q * (a * x);
      p * x - q * (k * p);
      (x - q * k) * p;
    }
  }
}
