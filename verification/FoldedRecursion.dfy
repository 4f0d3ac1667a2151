/** Plain multiply-with-carry with folded digits: a positive multiple of the base leaves the digit b instead
    of 0, as in generators/mwc2110_u64.c with b = 2^64 - 1.  What the digits are is a function of the start:
    each state stands for the residue V_n = U_0 * b^-n mod m or for V_n + m, and a borrow says which. */
module FoldedRecursion {
  import opened Arithmetic
  import opened CarryRecursion
  import opened OneTapRecursion

  /** Digits up to b and carries up to a: what is left of canonical states when the digit 0 is stored as b. */
  ghost predicate Loose(b: int, a: int, r: nat, s: State) {
    |s.x| == r && 0 <= s.c <= a && forall k | 0 <= k < r :: 0 <= s.x[k] <= b
  }

  /** A run of folded digits from a loose start. */
  ghost predicate FoldedRun(b: int, a: int, r: nat, run: seq<State>) {
    && 1 < b && 2 < a && UniformRun(b, a, r, run) && Loose(b, a, r, run[0])
    && forall i | 0 < i < |run| :: run[i].x[r - 1] == NewDigit(b, true, a * run[i - 1].x[0] + run[i - 1].c)
  }

  // ----- What the start says about the digits -----

  /** 1 when the state after n steps has run over the modulus: the digit before was not 0 and had to borrow. */
  ghost function Borrow(b: int, a: int, s: State, n: nat): (e: int)
    requires 1 < b && 2 < a && s.x != []
    ensures 0 <= e <= 1
    decreases n, 0
  {
    if n == 0 then
      if PlainValue(b, a, |s.x|, s) < PlainModulus(b, a, |s.x|) then 0 else 1
    else if !IsZero(b, a, s, n - 1) && ClosedForm(b, a, s, n - 1) <= Borrow(b, a, s, n - 1) then 1 else 0
  }

  /** The number that the state after n steps stands for. */
  ghost function ValueAfter(b: int, a: int, s: State, n: nat): int
    requires 1 < b && 2 < a && s.x != []
    decreases n, 1
  {
    var r := |s.x|;
    Residue(b, a, r, PlainValue(b, a, r, s), n) + Borrow(b, a, s, n) * PlainModulus(b, a, r)
  }

  /** The digit to go out next after n steps is 0: it was 0 in the start, or it came from the digit 0 and the
      carry 0. */
  ghost predicate IsZero(b: int, a: int, s: State, n: nat)
    requires 1 < b && 2 < a && s.x != []
    decreases n, 2
  {
    var r := |s.x|;
    if n < r then s.x[n] == 0
    else IsZero(b, a, s, n - r) && a * ValueAfter(b, a, s, n - r) == ValueAfter(b, a, s, n)
  }

  ghost function FoldedDigit(b: int, a: int, s: State, n: nat): int
    requires 1 < b && 2 < a && s.x != []
  {
    if IsZero(b, a, s, n) then 0
    else
      var d := ClosedForm(b, a, s, n) - Borrow(b, a, s, n);
      if d < 1 then d + b else d
  }

  /** No borrow reaches the digit, and it is not b in place of 0. */
  ghost predicate ClosedFormHolds(b: int, a: int, s: State, n: nat)
    requires 1 < b && 2 < a && s.x != []
  {
    Borrow(b, a, s, n) == 0 && (ClosedForm(b, a, s, n) != 0 || IsZero(b, a, s, n))
  }

  // ----- Bounds of loose states -----

  lemma {:induction false} NumberLoose(b: int, w: seq<int>, k: nat)
    requires 2 <= b && k <= |w| && forall i | 0 <= i < |w| :: 0 <= w[i] <= b
    ensures 0 <= Number(b, w, k) <= 2 * (Pow(b, k) - 1)
  {
    if k > 0 {
      NumberLoose(b, w, k - 1);
      MulLe(0, w[k - 1], Pow(b, k - 1));
      MulLe(w[k - 1], b, Pow(b, k - 1));
      PowPositive(b, k - 1);
      MulLe(2, b, Pow(b, k - 1));
    }
  }

  /** A loose state stands for a residue or for a residue plus m. */
  lemma LooseRange(b: int, a: int, r: nat, s: State)
    requires 1 < b && 2 < a && 0 < r && Loose(b, a, r, s)
    ensures 0 <= PlainValue(b, a, r, s) < 2 * PlainModulus(b, a, r)
  {
    hide PlainValue, PlainModulus, Number;
    PlainSum(b, a, r, s);
    NumberLoose(b, s.x, r);
    PowPositive(b, r);
    LooseBound(a, s.c, Pow(b, r), Number(b, s.x, r));
  }

  lemma LooseBound(a: int, c: int, p: int, n: int)
    requires 2 < a && 0 <= c <= a && 0 < p && 0 <= n <= 2 * (p - 1)
    ensures 0 <= c * p + n < 2 * (a * p - 1)
  {
    MulLe(0, c, p);
    MulLe(c, a, p);
    MulLe(3, a, p);
  }

  /** The oldest digit of any state is its value modulo b. */
  lemma ValueModulo(b: int, a: int, r: nat, s: State)
    requires 0 < b && |s.x| == r > 0
    ensures (s.x[0] - PlainValue(b, a, r, s)) % b == 0
  {
    hide PlainValue, PlainModulus, Number;
    PlainSum(b, a, r, s);
    NumberHead(b, s.x, r);
    ModuloAlgebra(b, s.c, Pow(b, r - 1), Number(b, s.x[1..], r - 1));
  }

  lemma ModuloAlgebra(b: int, c: int, p: int, n: int)
    requires 0 < b
    ensures (-(c * (b * p)) - b * n) % b == 0
  {
    var t := -(c * (b * p)) - b * n;
    assert c * (b * p) == b * (c * p);
    DivModUnique(t, b, -(c * p) - n, 0);
  }

  /** Digits and carries of a folded run are never negative, and no digit exceeds b. */
  lemma {:induction false} FoldedBounds(b: int, a: int, r: nat, run: seq<State>, i: nat)
    requires FoldedRun(b, a, r, run) && i < |run|
    ensures 0 <= run[i].c && forall k | 0 <= k < r :: 0 <= run[i].x[k] <= b
    decreases i
  {
    if i > 0 {
      FoldedBounds(b, a, r, run, i - 1);
      var s, t := run[i - 1], run[i];
      OneTapStep(b, a, s, t);
      MulLe(0, s.x[0], a);
      FoldedCarry(b, a * s.x[0] + s.c, t.x[r - 1], t.c);
      forall k | 0 <= k < r - 1 ensures t.x[k] == s.x[k + 1] {
        assert t.x[..r - 1][k] == s.x[1..][k];
      }
    }
  }

  lemma FoldedCarry(b: int, t: int, d: int, c: int)
    requires 1 < b && 0 <= t && d == NewDigit(b, true, t) && d + b * c == t
    ensures 0 <= c && 0 <= d <= b && (d == 0 <==> t == 0)
  {
    DigitSplits(b, true, t);
    if t == 0 {
      DivModUnique(t, b, 0, 0);
    } else if t < b {
      DivModUnique(t, b, 0, t);
    }
    if c < 0 {
      MulLe(c, -1, b);
    }
  }

  // ----- The value after r steps -----

  /** j steps divide by b^j: b^j * U_(i+j) == U_i + m * (the j digits that went out). */
  lemma {:induction false} StepsDivide(b: int, a: int, r: nat, run: seq<State>, i: nat, j: nat)
    requires UniformRun(b, a, r, run) && j <= r && i + j < |run|
    ensures Pow(b, j) * PlainValue(b, a, r, run[i + j])
            == PlainValue(b, a, r, run[i]) + PlainModulus(b, a, r) * Number(b, run[i].x, j)
    decreases j
  {
    hide Value, Modulus, OneTap, IsStep;
    if j > 0 {
      StepsDivide(b, a, r, run, i, j - 1);
      var s, t := run[i + j - 1], run[i + j];
      StepDivides(b, OneTap(1, a, r), s.x, s.c, t.x, t.c);
      DigitTravels(b, a, r, run, i, j - 1);
      StepsAlgebra(b, Pow(b, j - 1), PlainValue(b, a, r, t), PlainValue(b, a, r, s), PlainValue(b, a, r, run[i]),
                   PlainModulus(b, a, r), Number(b, run[i].x, j - 1), s.x[0]);
    }
  }

  lemma StepsAlgebra(b: int, p: int, t: int, s: int, u: int, m: int, n: int, d: int)
    requires p * s == u + m * n && b * t == s + d * m
    ensures (b * p) * t == u + m * (n + p * d)
  {
    calc {
      (b * p) * t;
      p * (b * t);
      p * s + p * (d * m);
      u + m * n + m * (p * d);
      u + m * (n + p * d);
    }
  }

  /** r steps multiply the value by a, but for the carry: U_(i+r) == a * U_i - c_i * m. */
  lemma WholeTurn(b: int, a: int, r: nat, run: seq<State>, i: nat)
    requires 1 < b && UniformRun(b, a, r, run) && i + r < |run|
    ensures PlainValue(b, a, r, run[i + r])
            == a * PlainValue(b, a, r, run[i]) - run[i].c * PlainModulus(b, a, r)
  {
    hide Number, PlainValue, PlainModulus, IsRun, OneTap;
    StepsDivide(b, a, r, run, i, r);
    PlainSum(b, a, r, run[i]);
    PowPositive(b, r);
    TurnAlgebra(Pow(b, r), a, run[i].c, Number(b, run[i].x, r), PlainValue(b, a, r, run[i]),
                PlainValue(b, a, r, run[i + r]), PlainModulus(b, a, r));
  }

  lemma TurnAlgebra(p: int, a: int, c: int, n: int, u: int, v: int, m: int)
    requires 0 < p && m == a * p - 1 && u == c * p + n && p * v == u + m * n
    ensures v == a * u - c * m
  {
    calc {
      p * v;
      u + m * (u - c * p);
      u * (m + 1) - m * (c * p);
      u * (a * p) - m * (c * p);
      p * (a * u - c * m);
    }
    SameFactor(p, v, a * u - c * m);
  }

  lemma SameFactor(p: int, x: int, y: int)
    requires 0 < p && p * x == p * y
    ensures x == y
  {
    if x < y {
      MulLe(x + 1, y, p);
    } else if y < x {
      MulLe(y + 1, x, p);
    }
  }

  // ----- One step of the closed form -----

  /** Residues step like states: b * V' == V + (V mod b) * m. */
  lemma ResidueStep(b: int, a: int, r: nat, u: int, n: nat)
    requires 1 < b && 0 < a && 0 < r
    ensures var v := Residue(b, a, r, u, n);
            b * Residue(b, a, r, u, n + 1) == v + (v % b) * PlainModulus(b, a, r)
  {
    hide Congruent, PlainModulus;
    var m, inv := PlainModulus(b, a, r), a * Pow(b, r - 1);
    var v := Residue(b, a, r, u, n);
    ModulusPositive(b, a, r);
    BaseInverse(b, a, r);
    Multiple(m, b, v);
    var w := (v + (v % b) * m) / b;
    InverseStep(m, b, inv, v, w, v % b);
    CongruentMod(m, Pow(inv, n) * u);
    NextPower(m, inv, Pow(inv, n), u, v, w);
    CongruentIsMod(m, w, Pow(inv, n + 1) * u);
  }

  lemma Multiple(m: int, b: int, v: int)
    requires 1 < b && 0 < m && m % b == b - 1 && 0 <= v < m
    ensures var w := (v + (v % b) * m) / b; b * w == v + (v % b) * m && 0 <= w < m
  {
    var y, k := v % b, m / b;
    MultipleAlgebra(b, k, y, v / b, m);
    DivModUnique(v + y * m, b, v / b + y * k + y, 0);
    QuotientRange(b, m, v, y, v / b + y * k + y);
  }

  lemma QuotientRange(b: int, m: int, v: int, y: int, q: int)
    requires b * q == v + y * m && 0 <= v < m && 0 <= y < b
    ensures 0 <= q < m
  {
    MulLe(y, b - 1, m);
    MulLe(0, y, m);
    if m <= q {
      MulLe(m, q, b);
    } else if q < 0 {
      MulLe(q, -1, b);
    }
  }

  lemma MultipleAlgebra(b: int, k: int, y: int, q: int, m: int)
    requires m == b * k + b - 1
    ensures (b * q + y) + y * m == b * (q + y * k + y)
  {
    assert y * (b * k) == b * (y * k);
  }

  /** A digit congruent to y - e, with the borrow that it leaves. */
  lemma BorrowDigit(b: int, y: int, e: int, d: int)
    requires 1 < b && 0 <= y < b && 0 <= e <= 1 && 0 <= d <= b && (d - (y - e)) % b == 0
    ensures d + e == y + b * (if d != 0 && y <= e then 1 else 0)
    ensures d == 0 ==> y == e
    ensures d == y <==> e == 0 && (y != 0 || d == 0)
  {
    var k := (d - (y - e)) / b;
    assert d - (y - e) == b * k;
    if k < 0 {
      MulLe(k, -1, b);
    } else if 1 < k {
      MulLe(2, k, b);
    }
  }

  // ----- The digits of every folded run -----

  lemma StartValue(b: int, a: int, r: nat, s: State)
    requires 1 < b && 2 < a && 0 < r && Loose(b, a, r, s)
    ensures PlainValue(b, a, r, s) == ValueAfter(b, a, s, 0)
  {
    hide PlainValue, PlainModulus;
    var u, m := PlainValue(b, a, r, s), PlainModulus(b, a, r);
    ModulusPositive(b, a, r);
    LooseRange(b, a, r, s);
    FirstResidue(b, a, r, u);
    DivModUnique(u, m, if u < m then 0 else 1, if u < m then u else u - m);
  }

  lemma FirstResidue(b: int, a: int, r: nat, u: int)
    requires 1 < b && 0 < a && 0 < r && 0 < PlainModulus(b, a, r)
    ensures Residue(b, a, r, u, 0) == u % PlainModulus(b, a, r)
  {
    hide PlainModulus;
    assert Pow(a * Pow(b, r - 1), 0) * u == u;
  }

  /** A digit is congruent to the closed form minus the borrow. */
  lemma DigitModulo(b: int, a: int, r: nat, s: State, t: State, n: nat)
    requires 1 < b && 2 < a && |s.x| == |t.x| == r > 0
    requires PlainValue(b, a, r, t) == ValueAfter(b, a, s, n)
    ensures (t.x[0] - (ClosedForm(b, a, s, n) - Borrow(b, a, s, n))) % b == 0
  {
    hide PlainValue, PlainModulus, Residue, Borrow;
    var v, e := Residue(b, a, r, PlainValue(b, a, r, s), n), Borrow(b, a, s, n);
    ValueModulo(b, a, r, t);
    ModulusPositive(b, a, r);
    DigitAlgebra(b, t.x[0], v, e, PlainModulus(b, a, r));
  }

  lemma DigitAlgebra(b: int, d: int, v: int, e: int, m: int)
    requires 1 < b && (d - (v + e * m)) % b == 0 && m % b == b - 1 && 0 <= e <= 1
    ensures (d - (v % b - e)) % b == 0
  {
    var k, q, p := (d - (v + e * m)) / b, v / b, m / b;
    assert d == v + e * m + b * k && v == b * q + v % b && m == b * p + b - 1;
    if e == 0 {
      DivModUnique(d - v % b, b, k + q, 0);
    } else {
      DivModUnique(d - v % b + 1, b, k + q + p + 1, 0);
    }
  }

  /** Each step of a folded run keeps the value in line with the borrow. */
  lemma ValueStep(b: int, a: int, r: nat, run: seq<State>, n: nat)
    requires FoldedRun(b, a, r, run) && n + 1 < |run|
    requires PlainValue(b, a, r, run[n]) == ValueAfter(b, a, run[0], n)
    requires run[n].x[0] == 0 <==> IsZero(b, a, run[0], n)
    ensures PlainValue(b, a, r, run[n + 1]) == ValueAfter(b, a, run[0], n + 1)
  {
    hide PlainModulus, Residue, IsZero, Loose, NewDigit, OneTap;
    var s, u, m := run[0], PlainValue(b, a, r, run[0]), PlainModulus(b, a, r);
    var v, e, d := Residue(b, a, r, u, n), Borrow(b, a, s, n), run[n].x[0];
    RunDivides(b, a, r, run, n);
    DigitModulo(b, a, r, s, run[n], n);
    FoldedBounds(b, a, r, run, n);
    BorrowDigit(b, v % b, e, d);
    ResidueStep(b, a, r, u, n);
    BorrowAlgebra(b, m, v, e, d, Residue(b, a, r, u, n + 1), Borrow(b, a, s, n + 1),
                  PlainValue(b, a, r, run[n + 1]));
  }

  lemma RunDivides(b: int, a: int, r: nat, run: seq<State>, n: nat)
    requires UniformRun(b, a, r, run) && n + 1 < |run|
    ensures b * PlainValue(b, a, r, run[n + 1])
            == PlainValue(b, a, r, run[n]) + run[n].x[0] * PlainModulus(b, a, r)
  {
    hide Value, Modulus, OneTap;
    StepDivides(b, OneTap(1, a, r), run[n].x, run[n].c, run[n + 1].x, run[n + 1].c);
  }

  lemma BorrowAlgebra(b: int, m: int, v: int, e: int, d: int, v': int, e': int, u': int)
    requires 1 < b && d + e == v % b + b * e' && b * u' == (v + e * m) + d * m && b * v' == v + (v % b) * m
    ensures u' == v' + e' * m
  {
    calc {
      b * u';
      v + (d + e) * m;
      v + (v % b + b * e') * m;
      v + (v % b) * m + b * (e' * m);
      b * (v' + e' * m);
    }
    SameFactor(b, u', v' + e' * m);
  }

  /** A digit below the first r is 0 when it was so in the start; another is 0 when its sum was. */
  lemma ZeroStep(b: int, a: int, r: nat, run: seq<State>, n: nat)
    requires FoldedRun(b, a, r, run) && n < |run|
    requires PlainValue(b, a, r, run[n]) == ValueAfter(b, a, run[0], n)
    requires n >= r ==> PlainValue(b, a, r, run[n - r]) == ValueAfter(b, a, run[0], n - r)
    requires n >= r ==> (run[n - r].x[0] == 0 <==> IsZero(b, a, run[0], n - r))
    ensures run[n].x[0] == 0 <==> IsZero(b, a, run[0], n)
  {
    hide PlainModulus, PlainValue, ValueAfter, Loose, OneTap, NewDigit;
    if n < r {
      DigitTravels(b, a, r, run, 0, n);
    } else {
      var s, m := run[n - r], PlainModulus(b, a, r);
      ModulusPositive(b, a, r);
      WholeTurn(b, a, r, run, n - r);
      FoldedBounds(b, a, r, run, n - r);
      DigitTravels(b, a, r, run, n - r + 1, r - 1);
      OneTapStep(b, a, s, run[n - r + 1]);
      MulLe(0, s.x[0], a);
      FoldedCarry(b, a * s.x[0] + s.c, run[n].x[0], run[n - r + 1].c);
      ZeroAlgebra(a, s.x[0], s.c, m);
    }
  }

  lemma ZeroAlgebra(a: int, x: int, c: int, m: int)
    requires 0 < a && 0 <= x && 0 <= c && 0 < m
    ensures a * x + c == 0 <==> x == 0 && c == 0
    ensures c * m == 0 <==> c == 0
  {
    MulLe(0, x, a);
    if x > 0 {
      MulLe(1, x, a);
    }
  }

  /** Value and zero digits of every state of a folded run, from the start alone. */
  lemma {:induction false} FoldedState(b: int, a: int, r: nat, run: seq<State>, n: nat)
    requires FoldedRun(b, a, r, run) && n < |run|
    ensures PlainValue(b, a, r, run[n]) == ValueAfter(b, a, run[0], n)
    ensures run[n].x[0] == 0 <==> IsZero(b, a, run[0], n)
    decreases n
  {
    hide PlainValue, ValueAfter, IsZero, FoldedRun;
    RunShape(b, a, r, run);
    if n == 0 {
      StartValue(b, a, r, run[0]);
    } else {
      FoldedState(b, a, r, run, n - 1);
      ValueStep(b, a, r, run, n - 1);
    }
    if n >= r {
      FoldedState(b, a, r, run, n - r);
    }
    ZeroStep(b, a, r, run, n);
  }

  lemma RunShape(b: int, a: int, r: nat, run: seq<State>)
    requires FoldedRun(b, a, r, run)
    ensures 1 < b && 2 < a && 0 < r && run != [] && Loose(b, a, r, run[0])
    ensures forall i | 0 <= i < |run| :: |run[i].x| == r
  {
  }

  /** The digit to go out next after n steps of any folded run is a function of the start, and the closed form
      (U_0 * b^-n mod m) mod b gives it if and only if a condition on the start holds. */
  lemma FoldedDigitAfter(b: int, a: int, r: nat, run: seq<State>, n: nat)
    requires FoldedRun(b, a, r, run) && n < |run|
    ensures run[n].x[0] == FoldedDigit(b, a, run[0], n)
    ensures run[n].x[0] == ClosedForm(b, a, run[0], n) <==> ClosedFormHolds(b, a, run[0], n)
  {
    hide PlainValue, ValueAfter, IsZero, Borrow, Loose, ClosedForm, NewDigit, OneTap;
    var s := run[0];
    FoldedState(b, a, r, run, n);
    DigitModulo(b, a, r, s, run[n], n);
    FoldedBounds(b, a, r, run, n);
    BorrowDigit(b, ClosedForm(b, a, s, n), Borrow(b, a, s, n), run[n].x[0]);
  }

  /** The same for a digit anywhere in the window. */
  lemma FoldedOutput(b: int, a: int, s: State, n: nat, j: nat)
    requires 1 < b && 2 < a && j < |s.x| && Loose(b, a, |s.x|, s)
    ensures var d := After(b, a, true, s, n).x[j];
            && d == FoldedDigit(b, a, s, n + j)
            && (d == ClosedForm(b, a, s, n + j) <==> ClosedFormHolds(b, a, s, n + j))
  {
    hide OneTap, NewDigit, IsRun, After, Loose, FoldedDigit, ClosedForm, ClosedFormHolds;
    var r, run := |s.x|, RunFrom(b, a, true, s, n + j);
    RunFromIsRun(b, a, true, s, n + j);
    FoldedDigitAfter(b, a, r, run, n + j);
    DigitTravels(b, a, r, run, n, j);
  }

  // ----- Special starts -----

  /** With no 0 among its digits a start never leads to the digit 0, and the borrow is that of a subtraction. */
  lemma {:induction false} NeverZero(b: int, a: int, s: State, n: nat)
    requires 1 < b && 2 < a && s.x != [] && forall k | 0 <= k < |s.x| :: s.x[k] != 0
    ensures !IsZero(b, a, s, n)
    ensures var y, e := ClosedForm(b, a, s, n), Borrow(b, a, s, n);
            Borrow(b, a, s, n + 1) == if y == 0 || (y == 1 && e == 1) then 1 else 0
    ensures ClosedFormHolds(b, a, s, n) <==> Borrow(b, a, s, n) == 0 && ClosedForm(b, a, s, n) != 0
    decreases n
  {
    hide ValueAfter, ClosedForm;
    if n >= |s.x| {
      NeverZero(b, a, s, n - |s.x|);
    }
  }

  /** From a canonical start other than the largest state no borrow reaches the first r + 1 digits. */
  lemma {:induction false} EarlyBorrow(b: int, a: int, r: nat, run: seq<State>, n: nat)
    requires FoldedRun(b, a, r, run) && Canonical(b, a, r, run[0]) && n <= r && n < |run|
    requires !IsLargest(b, a, run[0])
    ensures Borrow(b, a, run[0], n) == 0
    decreases n
  {
    hide PlainValue, PlainModulus, ClosedForm, OneTap, NewDigit, IsZero;
    var s := run[0];
    if n == 0 {
      CanonicalRange(b, a, r, s);
      LargestState(b, a, r, s);
    } else {
      EarlyBorrow(b, a, r, run, n - 1);
      FoldedState(b, a, r, run, n - 1);
      DigitTravels(b, a, r, run, 0, n - 1);
      DigitModulo(b, a, r, s, run[n - 1], n - 1);
      BorrowDigit(b, ClosedForm(b, a, s, n - 1), 0, run[n - 1].x[0]);
    }
  }

  /** The closed form fails for the first new digit if and only if its sum is a positive multiple of b. */
  lemma FirstNewDigit(b: int, a: int, s: State)
    requires 1 < b && 2 < a && s.x != [] && Canonical(b, a, |s.x|, s)
    requires !IsLargest(b, a, s)
    ensures var sum := a * s.x[0] + s.c;
            ClosedFormHolds(b, a, s, |s.x|) <==> !(sum != 0 && sum % b == 0)
    ensures var sum := a * s.x[0] + s.c;
            sum != 0 && sum % b == 0 ==> FoldedDigit(b, a, s, |s.x|) == b && ClosedForm(b, a, s, |s.x|) == 0
  {
    hide PlainValue, PlainModulus, ClosedForm, OneTap, IsZero, Borrow;
    var r, run := |s.x|, RunFrom(b, a, true, s, |s.x|);
    RunFromIsRun(b, a, true, s, r);
    EarlyBorrow(b, a, r, run, r);
    FoldedDigitAfter(b, a, r, run, r);
    FoldedState(b, a, r, run, r);
    DigitTravels(b, a, r, run, 1, r - 1);
    DigitModulo(b, a, r, s, run[r], r);
    FoldedBounds(b, a, r, run, r);
    BorrowDigit(b, ClosedForm(b, a, s, r), 0, run[r].x[0]);
    DigitSplits(b, false, a * s.x[0] + s.c);
  }
}
