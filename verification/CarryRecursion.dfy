/** Generalized multiply-with-carry after Goresky and Klapper, in any base b and with any lag r.

    A state is a window x[0] .. x[r-1] of digits, oldest first, and a carry c.  The coefficients are
    A[0] .. A[r]: A[i] multiplies the digit i places back, and A[0] belongs to the new digit.
    Plain multiply-with-carry has A[0] == 1, its complementary form A[0] == -1 with carry c + 1, and
    the generalized form any A[0] that makes the division by b exact. */
module CarryRecursion {
  import opened Arithmetic

  /** Sum of A[i] * w[j - i] over i in 1..k. */
  ghost function Taps(A: seq<int>, w: seq<int>, j: nat, k: nat): int
    requires k < |A| && k <= j <= |w|
  {
    if k == 0 then 0 else Taps(A, w, j, k - 1) + A[k] * w[j - k]
  }

  /** Sum of A[i] * b^i over i in 1..k. */
  ghost function Connection(b: int, A: seq<int>, k: nat): int
    requires k < |A|
  {
    if k == 0 then 0 else Connection(b, A, k - 1) + A[k] * Pow(b, k)
  }

  /** Sum of b^j * (A[0] * w[j] - Taps(A, w, j, j)) over j in 0..k-1. */
  ghost function Weighted(b: int, A: seq<int>, w: seq<int>, k: nat): int
    requires k <= |A| && k <= |w|
  {
    if k == 0 then 0
    else Weighted(b, A, w, k - 1) + Pow(b, k - 1) * (A[0] * w[k - 1] - Taps(A, w, k - 1, k - 1))
  }

  /** The modulus: A[r] * b^r + ... + A[1] * b - A[0]. */
  ghost function Modulus(b: int, A: seq<int>): int
    requires |A| > 0
  {
    Connection(b, A, |A| - 1) - A[0]
  }

  /** The number a state stands for. */
  ghost function Value(b: int, A: seq<int>, x: seq<int>, c: int): int
    requires |A| == |x| + 1
  {
    c * Pow(b, |x|) + Weighted(b, A, x, |x|)
  }

  /** One iteration: the window moves up, the new digit and the new carry split the sum in base b. */
  ghost predicate IsStep(b: int, A: seq<int>, x: seq<int>, c: int, x': seq<int>, c': int) {
    && |A| == |x| + 1 && 0 < |x| == |x'|
    && x'[..|x| - 1] == x[1..]
    && A[0] * x'[|x| - 1] + b * c' == Taps(A, x, |x|, |x|) + c
  }

  // ----- One step divides the value by b, modulo the modulus -----

  lemma {:induction false} TapsPrefix(A: seq<int>, w: seq<int>, v: seq<int>, j: nat, k: nat)
    requires k < |A| && k <= j <= |w| && j <= |v| && w[..j] == v[..j]
    ensures Taps(A, w, j, k) == Taps(A, v, j, k)
  {
    if k > 0 {
      TapsPrefix(A, w, v, j, k - 1);
      assert w[j - k] == w[..j][j - k] == v[..j][j - k] == v[j - k];
    }
  }

  lemma {:induction false} WeightedPrefix(b: int, A: seq<int>, w: seq<int>, v: seq<int>, k: nat)
    requires k <= |A| && k <= |w| && k <= |v| && w[..k] == v[..k]
    ensures Weighted(b, A, w, k) == Weighted(b, A, v, k)
  {
    if k > 0 {
      assert w[..k - 1] == w[..k][..k - 1] == v[..k][..k - 1] == v[..k - 1];
      assert w[k - 1] == w[..k][k - 1] == v[..k][k - 1] == v[k - 1];
      WeightedPrefix(b, A, w, v, k - 1);
      TapsPrefix(A, w, v, k - 1, k - 1);
    }
  }

  lemma {:induction false} TapsTail(A: seq<int>, w: seq<int>, j: nat, k: nat)
    requires k < |A| && k <= j < |w|
    ensures Taps(A, w[1..], j, k) == Taps(A, w, j + 1, k)
  {
    if k > 0 {
      TapsTail(A, w, j, k - 1);
    }
  }

  lemma {:induction false} WeightedTail(b: int, A: seq<int>, w: seq<int>, k: nat)
    requires k < |A| && k < |w|
    ensures b * Weighted(b, A, w[1..], k)
            == Weighted(b, A, w, k + 1) - A[0] * w[0] + w[0] * Connection(b, A, k)
  {
    if k > 0 {
      WeightedTail(b, A, w, k - 1);
      TapsTail(A, w, k - 1, k - 1);
      TailAlgebra(b, Weighted(b, A, w[1..], k - 1), Pow(b, k - 1), A[0] * w[k] - Taps(A, w, k, k - 1),
                  A[k], w[0], Weighted(b, A, w, k), A[0] * w[0], Connection(b, A, k - 1));
    }
  }

  lemma TailAlgebra(b: int, v: int, p: int, s: int, a: int, d: int, u: int, z: int, q: int)
    requires b * v == u - z + d * q
    ensures b * (v + p * s) == u + (b * p) * (s - a * d) - z + d * (q + a * (b * p))
  {
    calc {
      b * (v + p * s);
      b * v + (b * p) * s;
      { var g := b * p; assert g * s == g * (s - a * d) + d * (a * g); }
      u - z + d * q + (b * p) * (s - a * d) + d * (a * (b * p));
      { assert d * q + d * (a * (b * p)) == d * (q + a * (b * p)); }
      u + (b * p) * (s - a * d) - z + d * (q + a * (b * p));
    }
  }

  lemma StepAlgebra(b: int, c: int, c': int, p: int, v: int, u: int, a: int, d: int, q: int, n: int, t: int)
    requires n + b * c' == t + c
    requires b * v == u + p * (n - t) - a * d + d * q
    ensures b * (c' * p + v) == c * p + u + d * (q - a)
  {
    calc {
      b * (c' * p + v);
      (b * c') * p + b * v;
      (t + c - n) * p + u + p * (n - t) - a * d + d * q;
      c * p + u + d * (q - a);
    }
  }

  /** The central identity: b * U' == U + x[0] * m. */
  lemma StepDivides(b: int, A: seq<int>, x: seq<int>, c: int, x': seq<int>, c': int)
    requires IsStep(b, A, x, c, x', c')
    ensures b * Value(b, A, x', c') == Value(b, A, x, c) + x[0] * Modulus(b, A)
  {
    var r := |x|;
    var w := x + [x'[r - 1]];
    assert w[1..] == x';
    WeightedTail(b, A, w, r);
    assert w[..r] == x[..r];
    WeightedPrefix(b, A, w, x, r);
    TapsPrefix(A, w, x, r, r);
    StepAlgebra(b, c, c', Pow(b, r), Weighted(b, A, x', r), Weighted(b, A, x, r), A[0], x[0],
                Connection(b, A, r), A[0] * x'[r - 1], Taps(A, x, r, r));
  }

  // ----- Whole runs -----

  datatype State = State(x: seq<int>, c: int)

  /** A run: consecutive states are one step apart. */
  ghost predicate IsRun(b: int, A: seq<int>, run: seq<State>) {
    run != [] && A != [] && (forall i | 0 <= i < |run| :: |A| == |run[i].x| + 1)
    && forall i | 0 < i < |run| :: IsStep(b, A, run[i - 1].x, run[i - 1].c, run[i].x, run[i].c)
  }

  /** t is n steps after s. */
  ghost predicate Reaches(b: int, A: seq<int>, s: State, t: State, n: nat) {
    exists run :: IsRun(b, A, run) && |run| == n + 1 && run[0] == s && run[n] == t
  }

  /** Over any run of n steps, b^n * U_n is U_0 modulo m: the generator is multiplication by the
      inverse of b. */
  lemma {:induction false} RunIsMultiplicative(b: int, A: seq<int>, run: seq<State>)
    requires IsRun(b, A, run)
    ensures var n := |run| - 1;
            Congruent(Modulus(b, A), Pow(b, n) * Value(b, A, run[n].x, run[n].c), Value(b, A, run[0].x, run[0].c))
  {
    var n, m := |run| - 1, Modulus(b, A);
    var u := Value(b, A, run[n].x, run[n].c);
    if n == 0 {
      assert u == u + 0 * m;
    } else {
      RunIsMultiplicative(b, A, run[..n]);
      var v, u0 := Value(b, A, run[n - 1].x, run[n - 1].c), Value(b, A, run[0].x, run[0].c);
      var k :| Pow(b, n - 1) * v == u0 + k * m;
      StepDivides(b, A, run[n - 1].x, run[n - 1].c, run[n].x, run[n].c);
      var p, d := Pow(b, n - 1), run[n - 1].x[0];
      RunAlgebra(b, p, u, v, d, m, u0, k);
      CongruentBy(m, Pow(b, n) * u, u0, k + p * d);
    }
  }

  lemma RunAlgebra(b: int, p: int, u: int, v: int, d: int, m: int, u0: int, k: int)
    requires p * v == u0 + k * m && b * u == v + d * m
    ensures (b * p) * u == u0 + (k + p * d) * m
  {
    calc {
      (b * p) * u;
      p * (b * u);
      p * v + p * (d * m);
      u0 + k * m + (p * d) * m;
      u0 + (k + p * d) * m;
    }
  }
}
