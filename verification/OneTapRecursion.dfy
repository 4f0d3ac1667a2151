/** Multiply-with-carry with a single tap: a * x[0] + c = b * c' + lead * digit.  For lead == 1 the state is
    a residue modulo m = a * b^r - 1, one step divides it by b, and the digits have a closed form. */
module OneTapRecursion {
  import opened Arithmetic
  import opened CarryRecursion

  // ----- Recursions with one tap -----

  /** Coefficients of a * x[0] + c = b * c' + lead * digit with lag r. */
  ghost function OneTap(lead: int, a: int, r: nat): (A: seq<int>)
    requires 0 < r
    ensures |A| == r + 1
  {
    [lead] + seq(r - 1, i => 0) + [a]
  }

  lemma {:induction false} OneTapShort(lead: int, a: int, r: nat, w: seq<int>, j: nat, k: nat)
    requires 0 < r && k < r && k <= j <= |w|
    ensures Taps(OneTap(lead, a, r), w, j, k) == 0
  {
    if k > 0 {
      OneTapShort(lead, a, r, w, j, k - 1);
    }
  }

  lemma OneTapSum(lead: int, a: int, w: seq<int>)
    requires 0 < |w|
    ensures Taps(OneTap(lead, a, |w|), w, |w|, |w|) == a * w[0]
  {
    hide OneTap, Taps;
    var A := OneTap(lead, a, |w|);
    OneTapShort(lead, a, |w|, w, |w|, |w| - 1);
    OneTapLast(lead, a, |w|);
    TapsUnfold(A, w, |w|, |w|);
  }

  lemma OneTapLast(lead: int, a: int, r: nat)
    requires 0 < r
    ensures OneTap(lead, a, r)[r] == a
  {
  }

  lemma TapsUnfold(A: seq<int>, w: seq<int>, j: nat, k: nat)
    requires 0 < k < |A| && k <= j <= |w|
    ensures Taps(A, w, j, k) == Taps(A, w, j, k - 1) + A[k] * w[j - k]
  {
  }

  lemma {:induction false} OneTapConnection(b: int, lead: int, a: int, r: nat, k: nat)
    requires 0 < r && k < r
    ensures Connection(b, OneTap(lead, a, r), k) == 0
  {
    if k > 0 {
      OneTapConnection(b, lead, a, r, k - 1);
    }
  }

  /** The modulus is a * b^r - lead. */
  lemma OneTapModulus(b: int, lead: int, a: int, r: nat)
    requires 0 < r
    ensures Modulus(b, OneTap(lead, a, r)) == a * Pow(b, r) - lead
  {
    OneTapConnection(b, lead, a, r, r - 1);
  }

  /** Sum of w[j] * b^j over j in 0..k-1. */
  ghost function Number(b: int, w: seq<int>, k: nat): int
    requires k <= |w|
  {
    if k == 0 then 0 else Number(b, w, k - 1) + Pow(b, k - 1) * w[k - 1]
  }

  lemma {:induction false} OneTapWeighted(b: int, lead: int, a: int, w: seq<int>, k: nat)
    requires k <= |w| && 0 < |w|
    ensures Weighted(b, OneTap(lead, a, |w|), w, k) == lead * Number(b, w, k)
  {
    if k > 0 {
      OneTapWeighted(b, lead, a, w, k - 1);
      OneTapShort(lead, a, |w|, w, k - 1, k - 1);
      assert Pow(b, k - 1) * (lead * w[k - 1]) == lead * (Pow(b, k - 1) * w[k - 1]);
    }
  }

  lemma {:induction false} NumberBounds(b: int, w: seq<int>, k: nat)
    requires 0 < b && k <= |w| && forall i | 0 <= i < |w| :: 0 <= w[i] < b
    ensures 0 <= Number(b, w, k) < Pow(b, k)
  {
    if k > 0 {
      NumberBounds(b, w, k - 1);
      MulLe(0, w[k - 1], Pow(b, k - 1));
      MulLe(w[k - 1], b - 1, Pow(b, k - 1));
    }
  }

  lemma {:induction false} NumberHead(b: int, w: seq<int>, k: nat)
    requires 0 < k <= |w|
    ensures Number(b, w, k) == w[0] + b * Number(b, w[1..], k - 1)
  {
    if k > 1 {
      NumberHead(b, w, k - 1);
      var p, d, n := Pow(b, k - 2), w[k - 1], Number(b, w[1..], k - 2);
      assert b * n + (b * p) * d == b * (n + p * d);
    } else {
      assert Number(b, w, 1) == Number(b, w, 0) + Pow(b, 0) * w[0];
    }
  }

  /** With canonical digits and a carry below the multiplier, the state stands for a residue modulo
      m = a * b^r - 1 and its digit to go out next is that residue modulo b. */
  lemma OneTapDigit(b: int, a: int, x: seq<int>, c: int)
    requires 0 < b && 0 < |x| && (forall i | 0 <= i < |x| :: 0 <= x[i] < b) && 0 <= c < a
    ensures var u := Value(b, OneTap(1, a, |x|), x, c);
            0 <= u <= Modulus(b, OneTap(1, a, |x|)) && u % b == x[0]
  {
    var r := |x|;
    OneTapWeighted(b, 1, a, x, r);
    OneTapModulus(b, 1, a, r);
    NumberBounds(b, x, r);
    NumberHead(b, x, r);
    PowPositive(b, r - 1);
    CanonicalValue(b, a, c, Pow(b, r - 1), Number(b, x, r), x[0], Number(b, x[1..], r - 1));
  }

  lemma CanonicalValue(b: int, a: int, c: int, p: int, n: int, d: int, rest: int)
    requires 0 < b && 0 <= c < a && 0 < p && 0 <= n < b * p && n == d + b * rest && 0 <= d < b
    ensures 0 <= c * (b * p) + n <= a * (b * p) - 1
    ensures (c * (b * p) + n) % b == d
  {
    MulLe(c, a - 1, b * p);
    MulLe(0, c, b * p);
    assert c * (b * p) == b * (c * p);
    DivModUnique(c * (b * p) + n, b, c * p + rest, d);
  }

  // ----- A closed form for the digits of a run -----

  ghost function PlainModulus(b: int, a: int, r: nat): int
    requires 0 < r
  {
    Modulus(b, OneTap(1, a, r))
  }

  ghost function PlainValue(b: int, a: int, r: nat, s: State): int
    requires |s.x| == r > 0
  {
    Value(b, OneTap(1, a, r), s.x, s.c)
  }

  ghost predicate Canonical(b: int, a: int, r: nat, s: State) {
    |s.x| == r && 0 <= s.c < a && forall k | 0 <= k < r :: 0 <= s.x[k] < b
  }

  ghost predicate UniformRun(b: int, a: int, r: nat, run: seq<State>) {
    0 < r && run != [] && IsRun(b, OneTap(1, a, r), run) && forall i | 0 <= i < |run| :: |run[i].x| == r
  }

  /** A run of plain multiply-with-carry from a canonical state: every new digit is below b. */
  ghost predicate CanonicalRun(b: int, a: int, r: nat, run: seq<State>) {
    && 1 < b && UniformRun(b, a, r, run) && Canonical(b, a, r, run[0])
    && forall i | 0 < i < |run| :: 0 <= run[i].x[r - 1] < b
  }

  /** What a step does to the digits and the carry. */
  lemma OneTapStep(b: int, a: int, s: State, t: State)
    requires s.x != [] && IsStep(b, OneTap(1, a, |s.x|), s.x, s.c, t.x, t.c)
    ensures var r := |s.x|;
            |t.x| == r && t.x[..r - 1] == s.x[1..] && t.x[r - 1] + b * t.c == a * s.x[0] + s.c
  {
    OneTapSum(1, a, s.x);
  }

  /** Both halves of a * x + c with x < b and c < a are in range. */
  lemma CarryRange(b: int, a: int, x: int, c: int, d: int, c': int)
    requires 0 < b && 0 <= x < b && 0 <= c < a && 0 <= d < b && d + b * c' == a * x + c
    ensures 0 <= c' < a
  {
    MulLe(x, b - 1, a);
    MulLe(0, x, a);
    if c' < 0 {
      MulLe(c', -1, b);
    } else if a <= c' {
      MulLe(a, c', b);
    }
  }

  /** A canonical start and new digits below b keep the carry below a for ever. */
  lemma {:induction false} StaysCanonical(b: int, a: int, r: nat, run: seq<State>)
    requires CanonicalRun(b, a, r, run)
    ensures Canonical(b, a, r, run[|run| - 1])
    decreases |run|
  {
    var n := |run| - 1;
    if n > 0 {
      StaysCanonical(b, a, r, run[..n]);
      var s, t := run[n - 1], run[n];
      OneTapStep(b, a, s, t);
      CarryRange(b, a, s.x[0], s.c, t.x[r - 1], t.c);
      forall k | 0 <= k < r - 1 ensures t.x[k] == s.x[k + 1] {
        assert t.x[..r - 1][k] == s.x[1..][k];
      }
    }
  }

  /** b^-1 modulo m = a * b^r - 1 is a * b^(r-1). */
  lemma BaseInverse(b: int, a: int, r: nat)
    requires 0 < r
    ensures Congruent(PlainModulus(b, a, r), b * (a * Pow(b, r - 1)), 1)
  {
    OneTapModulus(b, 1, a, r);
    assert b * (a * Pow(b, r - 1)) == a * (b * Pow(b, r - 1));
    CongruentBy(PlainModulus(b, a, r), b * (a * Pow(b, r - 1)), 1, 1);
  }

  lemma CanonicalRange(b: int, a: int, r: nat, s: State)
    requires 1 < b && 0 < r && Canonical(b, a, r, s)
    ensures var m, u := PlainModulus(b, a, r), PlainValue(b, a, r, s);
            0 < m && m % b == b - 1 && 0 <= u <= m && u % b == s.x[0] && 0 <= s.x[0] < b
  {
    hide Modulus, Value;
    OneTapDigit(b, a, s.x, s.c);
    OneTapModulus(b, 1, a, r);
    PowPositive(b, r - 1);
    ModulusDigit(b, a, Pow(b, r - 1));
  }

  lemma ModulusDigit(b: int, a: int, p: int)
    requires 1 < b && 0 < a && 0 < p
    ensures 0 < a * (b * p) - 1 && (a * (b * p) - 1) % b == b - 1
  {
    MulLe(2, b, p);
    MulLe(1, a, b * p);
    assert a * (b * p) == b * (a * p);
    DivModUnique(a * (b * p) - 1, b, a * p - 1, b - 1);
  }

  /** One step is multiplication by the inverse. */
  lemma InverseStep(m: int, b: int, inv: int, v: int, u: int, d: int)
    requires Congruent(m, b * inv, 1) && b * u == v + d * m
    ensures Congruent(m, u, inv * v)
  {
    hide Congruent;
    CongruentMul(m, b * inv, 1, u);
    CongruentSymmetric(m, u * (b * inv), u * 1);
    InverseAlgebra(m, b, inv, v, u, d);
    CongruentBy(m, u * (b * inv), inv * v, inv * d);
    CongruentTrans(m, u, u * (b * inv), inv * v);
  }

  lemma InverseAlgebra(m: int, b: int, inv: int, v: int, u: int, d: int)
    requires b * u == v + d * m
    ensures u * (b * inv) == inv * v + (inv * d) * m
  {
    calc {
      u * (b * inv);
      inv * (b * u);
      inv * (v + d * m);
      inv * v + inv * (d * m);
    }
  }

  lemma PlainSum(b: int, a: int, r: nat, s: State)
    requires |s.x| == r > 0
    ensures PlainValue(b, a, r, s) == s.c * Pow(b, r) + Number(b, s.x, r)
    ensures PlainModulus(b, a, r) == a * Pow(b, r) - 1
  {
    OneTapWeighted(b, 1, a, s.x, r);
    OneTapModulus(b, 1, a, r);
  }

  lemma {:induction false} LargestNumber(b: int, w: seq<int>, k: nat)
    requires 0 < b && k <= |w| && forall i | 0 <= i < |w| :: 0 <= w[i] < b
    ensures Number(b, w, k) == Pow(b, k) - 1 <==> forall i | 0 <= i < k :: w[i] == b - 1
  {
    if k > 0 {
      LargestNumber(b, w, k - 1);
      NumberBounds(b, w, k - 1);
      LargestDigit(b, Pow(b, k - 1), Number(b, w, k - 1), w[k - 1]);
    }
  }

  lemma LargestDigit(b: int, p: int, n: int, d: int)
    requires 0 <= n < p && 0 <= d < b
    ensures n + p * d == b * p - 1 <==> n == p - 1 && d == b - 1
  {
    if d < b - 1 {
      MulLe(d, b - 2, p);
    }
  }

  /** All digits b - 1 and carry a - 1. */
  ghost predicate IsLargest(b: int, a: int, s: State) {
    s.c == a - 1 && forall k | 0 <= k < |s.x| :: s.x[k] == b - 1
  }

  /** Of all canonical states only the largest stands for m itself. */
  lemma LargestState(b: int, a: int, r: nat, s: State)
    requires 1 < b && 0 < r && Canonical(b, a, r, s)
    ensures PlainValue(b, a, r, s) == PlainModulus(b, a, r) <==> IsLargest(b, a, s)
  {
    hide PlainValue, PlainModulus, Pow, Number;
    PlainSum(b, a, r, s);
    LargestNumber(b, s.x, r);
    NumberBounds(b, s.x, r);
    LargestCarry(a, s.c, Pow(b, r), Number(b, s.x, r));
  }

  lemma LargestCarry(a: int, c: int, p: int, n: int)
    requires 0 <= c < a && 0 <= n < p
    ensures c * p + n == a * p - 1 <==> c == a - 1 && n == p - 1
  {
    assert a * p == c * p + (a - c) * p;
    if c < a - 1 {
      MulLe(2, a - c, p);
    }
  }

  /** The state with value m is followed by itself and follows no other. */
  lemma LargestRepeats(m: int, b: int, v: int, u: int, d: int)
    requires 0 < m && 1 < b && m % b == b - 1
    requires b * u == v + d * m && 0 <= v <= m && 0 <= u <= m && d == v % b
    ensures u == m <==> v == m
  {
    if v == m {
      assert b * u == b * m;
    }
    if u == m {
      assert v == (b - d) * m;
      MulLe(1, b - d, m);
    }
  }

  /** Over every run, canonical or not, the value is U_0 * b^-n modulo m. */
  lemma {:induction false} RunIsPowerOfInverse(b: int, A: seq<int>, run: seq<State>, inv: int)
    requires IsRun(b, A, run) && Congruent(Modulus(b, A), b * inv, 1)
    ensures var n := |run| - 1;
            Congruent(Modulus(b, A), Value(b, A, run[n].x, run[n].c), Pow(inv, n) * Value(b, A, run[0].x, run[0].c))
    decreases |run|
  {
    hide Congruent, Modulus, Value;
    var n, m := |run| - 1, Modulus(b, A);
    var u0 := Value(b, A, run[0].x, run[0].c);
    if n == 0 {
      CongruentBy(m, u0, Pow(inv, 0) * u0, 0);
    } else {
      RunIsPowerOfInverse(b, A, run[..n], inv);
      var v, u := Value(b, A, run[n - 1].x, run[n - 1].c), Value(b, A, run[n].x, run[n].c);
      StepDivides(b, A, run[n - 1].x, run[n - 1].c, run[n].x, run[n].c);
      InverseStep(m, b, inv, v, u, run[n - 1].x[0]);
      NextPower(m, inv, Pow(inv, n - 1), u0, v, u);
    }
  }

  lemma NextPower(m: int, inv: int, p: int, u0: int, v: int, u: int)
    requires Congruent(m, v, p * u0) && Congruent(m, u, inv * v)
    ensures Congruent(m, u, inv * p * u0)
  {
    hide Congruent;
    CongruentMul(m, v, p * u0, inv);
    assert inv * (p * u0) == inv * p * u0;
    CongruentTrans(m, u, inv * v, inv * p * u0);
  }

  /** In a canonical run the largest state is reached only from itself. */
  lemma {:induction false} LargestStays(b: int, a: int, r: nat, run: seq<State>)
    requires CanonicalRun(b, a, r, run)
    ensures var m := PlainModulus(b, a, r);
            PlainValue(b, a, r, run[|run| - 1]) == m <==> PlainValue(b, a, r, run[0]) == m
    decreases |run|
  {
    hide PlainModulus, PlainValue, Canonical, IsRun;
    var n := |run| - 1;
    if n > 0 {
      PrefixRuns(b, a, r, run);
      LargestStays(b, a, r, run[..n]);
      StaysCanonical(b, a, r, run[..n]);
      StaysCanonical(b, a, r, run);
      CanonicalRange(b, a, r, run[n - 1]);
      CanonicalRange(b, a, r, run[n]);
      LargestRepeats(PlainModulus(b, a, r), b, PlainValue(b, a, r, run[n - 1]), PlainValue(b, a, r, run[n]),
                     run[n - 1].x[0]);
    }
  }

  lemma PrefixRuns(b: int, a: int, r: nat, run: seq<State>)
    requires CanonicalRun(b, a, r, run) && |run| > 1
    ensures var n := |run| - 1;
            && CanonicalRun(b, a, r, run[..n])
            && b * PlainValue(b, a, r, run[n])
               == PlainValue(b, a, r, run[n - 1]) + run[n - 1].x[0] * PlainModulus(b, a, r)
  {
    hide Value, Modulus, OneTap;
    var n := |run| - 1;
    StepDivides(b, OneTap(1, a, r), run[n - 1].x, run[n - 1].c, run[n].x, run[n].c);
  }

  /** Adding the modulus, which is -1 modulo b, changes the digit. */
  lemma OtherDigit(m: int, b: int, v: int)
    requires 1 < b && m % b == b - 1
    ensures (v + m) % b != v % b
  {
    var q, e, k := v / b, v % b, m / b;
    if e == 0 {
      DivModUnique(v + m, b, q + k, b - 1);
    } else {
      DivModUnique(v + m, b, q + k + 1, e - 1);
    }
  }

  lemma DigitOrOther(m: int, b: int, u: int, w: int)
    requires 1 < b && 0 < m && m % b == b - 1 && Congruent(m, u, w) && 0 <= u < 2 * m
    ensures u % b == w % m % b <==> u < m
  {
    hide Congruent;
    if u < m {
      CongruentIsMod(m, u, w);
    } else {
      CongruentBy(m, u - m, u, -1);
      CongruentTrans(m, u - m, u, w);
      CongruentIsMod(m, u - m, w);
      OtherDigit(m, b, u - m);
    }
  }

  /** The closed form: from any canonical start the digit to go out next after n steps is
      (U_0 * b^-n mod m) mod b, except that the largest state stands for m itself instead of 0. */
  lemma DigitAfter(b: int, a: int, r: nat, run: seq<State>, inv: int)
    requires CanonicalRun(b, a, r, run) && Congruent(PlainModulus(b, a, r), b * inv, 1)
    ensures var m, u0, n := PlainModulus(b, a, r), PlainValue(b, a, r, run[0]), |run| - 1;
            0 < m && (run[n].x[0] == (Pow(inv, n) * u0) % m % b <==> u0 != m)
  {
    hide Congruent, Canonical, Modulus, Value, OneTap, IsRun;
    var n := |run| - 1;
    CanonicalPower(b, a, r, run, inv);
    StaysCanonical(b, a, r, run);
    CanonicalRange(b, a, r, run[n]);
    LargestStays(b, a, r, run);
    DigitOrOther(PlainModulus(b, a, r), b, PlainValue(b, a, r, run[n]), Pow(inv, n) * PlainValue(b, a, r, run[0]));
  }

  lemma CanonicalPower(b: int, a: int, r: nat, run: seq<State>, inv: int)
    requires CanonicalRun(b, a, r, run) && Congruent(PlainModulus(b, a, r), b * inv, 1)
    ensures var n := |run| - 1;
            Congruent(PlainModulus(b, a, r), PlainValue(b, a, r, run[n]), Pow(inv, n) * PlainValue(b, a, r, run[0]))
  {
    hide Congruent, Canonical, Modulus, Value, OneTap;
    RunIsPowerOfInverse(b, OneTap(1, a, r), run, inv);
  }

  // ----- Runs as a function of the start -----

  /** The digit stored for the sum t.  Folding a double word in base b = 2^w - 1 leaves b for the positive
      multiples of b. */
  ghost function NewDigit(b: int, folded: bool, t: int): int
    requires 0 < b
  {
    if folded && t != 0 && t % b == 0 then b else t % b
  }

  ghost function NextState(b: int, a: int, folded: bool, s: State): (t: State)
    requires 0 < b && s.x != []
    ensures |t.x| == |s.x|
  {
    var t := a * s.x[0] + s.c;
    var d := NewDigit(b, folded, t);
    State(s.x[1..] + [d], (t - d) / b)
  }

  ghost function After(b: int, a: int, folded: bool, s: State, n: nat): (t: State)
    requires 0 < b && s.x != []
    ensures |t.x| == |s.x|
  {
    if n == 0 then s else NextState(b, a, folded, After(b, a, folded, s, n - 1))
  }

  ghost function RunFrom(b: int, a: int, folded: bool, s: State, n: nat): seq<State>
    requires 0 < b && s.x != []
  {
    seq(n + 1, i requires 0 <= i => After(b, a, folded, s, i))
  }

  lemma DigitSplits(b: int, folded: bool, t: int)
    requires 0 < b
    ensures var d := NewDigit(b, folded, t); t == d + b * ((t - d) / b) && 0 <= d <= b && (!folded ==> d < b)
  {
    var d := NewDigit(b, folded, t);
    if d == b {
      DivModUnique(t - d, b, t / b - 1, 0);
    } else {
      DivModUnique(t - d, b, t / b, 0);
    }
  }

  /** A step whose new digit is the one stored is the next state, and the other way round. */
  lemma StepIsNext(b: int, a: int, folded: bool, s: State, t: State)
    requires 0 < b && s.x != []
    ensures t == NextState(b, a, folded, s)
            <==> && IsStep(b, OneTap(1, a, |s.x|), s.x, s.c, t.x, t.c)
                 && t.x[|s.x| - 1] == NewDigit(b, folded, a * s.x[0] + s.c)
  {
    hide OneTap, Taps, NewDigit;
    var r, sum := |s.x|, a * s.x[0] + s.c;
    OneTapSum(1, a, s.x);
    OneTapLead(1, a, r);
    DigitSplits(b, folded, sum);
    if |t.x| == r && t.x[r - 1] + b * t.c == sum && t.x[r - 1] == NewDigit(b, folded, sum) {
      DivModUnique(sum - t.x[r - 1], b, t.c, 0);
      if t.x[..r - 1] == s.x[1..] {
        assert t.x == t.x[..r - 1] + [t.x[r - 1]];
      }
    }
  }

  lemma AfterZero(b: int, a: int, folded: bool, s: State)
    requires 0 < b && s.x != []
    ensures After(b, a, folded, s, 0) == s
  {
  }

  lemma AfterNext(b: int, a: int, folded: bool, s: State, n: nat)
    requires 0 < b && s.x != []
    ensures After(b, a, folded, s, n + 1) == NextState(b, a, folded, After(b, a, folded, s, n))
  {
    hide NextState;
  }

  lemma {:induction false} AfterAfter(b: int, a: int, folded: bool, s: State, n: nat, k: nat)
    requires 0 < b && s.x != []
    ensures After(b, a, folded, After(b, a, folded, s, n), k) == After(b, a, folded, s, n + k)
  {
    if k > 0 {
      AfterAfter(b, a, folded, s, n, k - 1);
    }
  }

  lemma AfterReaches(b: int, a: int, folded: bool, s: State, n: nat)
    requires 0 < b && s.x != []
    ensures Reaches(b, OneTap(1, a, |s.x|), s, After(b, a, folded, s, n), n)
  {
    hide OneTap, IsRun, NewDigit;
    RunFromIsRun(b, a, folded, s, n);
  }

  lemma OneTapLead(lead: int, a: int, r: nat)
    requires 0 < r
    ensures OneTap(lead, a, r)[0] == lead
  {
  }

  lemma RunFromIsRun(b: int, a: int, folded: bool, s: State, n: nat)
    requires 0 < b && s.x != []
    ensures var run := RunFrom(b, a, folded, s, n);
            && UniformRun(b, a, |s.x|, run) && run[0] == s
            && forall i | 0 < i < |run| ::
                 run[i].x[|s.x| - 1] == NewDigit(b, folded, a * run[i - 1].x[0] + run[i - 1].c)
  {
    hide OneTap, IsStep, NewDigit, NextState;
    var r, run := |s.x|, RunFrom(b, a, folded, s, n);
    forall i | 0 < i < |run|
      ensures && IsStep(b, OneTap(1, a, r), run[i - 1].x, run[i - 1].c, run[i].x, run[i].c)
              && run[i].x[r - 1] == NewDigit(b, folded, a * run[i - 1].x[0] + run[i - 1].c)
    {
      assert run[i] == NextState(b, a, folded, run[i - 1]);
      StepIsNext(b, a, folded, run[i - 1], run[i]);
    }
  }

  /** A digit moves one place down in each step until it goes out. */
  lemma {:induction false} DigitTravels(b: int, a: int, r: nat, run: seq<State>, i: nat, j: nat)
    requires UniformRun(b, a, r, run) && j < r && i + j < |run|
    ensures run[i].x[j] == run[i + j].x[0]
    decreases j
  {
    if j > 0 {
      DigitTravels(b, a, r, run, i + 1, j - 1);
      assert IsStep(b, OneTap(1, a, r), run[i].x, run[i].c, run[i + 1].x, run[i + 1].c);
      assert run[i].x[j] == run[i].x[1..][j - 1] == run[i + 1].x[..r - 1][j - 1];
    }
  }

  lemma ModulusPositive(b: int, a: int, r: nat)
    requires 1 < b && 0 < a && 0 < r
    ensures 0 < PlainModulus(b, a, r) && PlainModulus(b, a, r) % b == b - 1
  {
    OneTapModulus(b, 1, a, r);
    PowPositive(b, r - 1);
    ModulusDigit(b, a, Pow(b, r - 1));
  }

  /** u * b^-n mod m, with b^-1 from BaseInverse. */
  ghost function Residue(b: int, a: int, r: nat, u: int, n: nat): (v: int)
    requires 1 < b && 0 < a && 0 < r
    ensures 0 <= v < PlainModulus(b, a, r)
  {
    ModulusPositive(b, a, r);
    (Pow(a * Pow(b, r - 1), n) * u) % PlainModulus(b, a, r)
  }

  /** The closed form for the digit to go out next n steps after the start. */
  ghost function ClosedForm(b: int, a: int, s: State, n: nat): (y: int)
    requires 1 < b && 0 < a && s.x != []
    ensures 0 <= y < b
  {
    Residue(b, a, |s.x|, PlainValue(b, a, |s.x|, s), n) % b
  }

  /** It holds for a digit anywhere in the window, which goes out next j steps later. */
  lemma PlainOutput(b: int, a: int, s: State, n: nat, j: nat)
    requires 1 < b && j < |s.x| && Canonical(b, a, |s.x|, s)
    ensures After(b, a, false, s, n).x[j] == ClosedForm(b, a, s, n + j) <==> !IsLargest(b, a, s)
  {
    hide Congruent, IsRun, OneTap, Pow, After, PlainModulus, PlainValue, IsLargest;
    var r, run := |s.x|, RunFrom(b, a, false, s, n + j);
    RunFromIsRun(b, a, false, s, n + j);
    forall i | 0 < i < |run| ensures 0 <= run[i].x[r - 1] < b {
      DigitSplits(b, false, a * run[i - 1].x[0] + run[i - 1].c);
    }
    BaseInverse(b, a, r);
    LargestState(b, a, r, s);
    DigitAfter(b, a, r, run, a * Pow(b, r - 1));
    DigitTravels(b, a, r, run, n, j);
  }
}
