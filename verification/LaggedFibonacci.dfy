/** The buffered lagged Fibonacci generators (generators/lfib_par.c) for any lags 0 < s < r. */
module LaggedFibonacci {
  import opened RingWindow

  function Combine(additive: bool, x: bv64, y: bv64): bv64 {
    if additive then x + y else x - y
  }

  /** Term k of x[n] = x[n-r] +- x[n-s], started from the first r cells of u. */
  ghost function X(additive: bool, r: nat, s: nat, u: seq<bv64>, k: nat): bv64
    requires 0 < s < r <= |u|
  {
    if k < r then u[k] else Combine(additive, X(additive, r, s, u, k - r), X(additive, r, s, u, k - s))
  }

  // ----- The law of the recurrence -----

  function Plus(x: bv64, y: bv64): bv64 { x + y }

  function Minus(x: bv64, y: bv64): bv64 { x - y }

  lemma SumsBack(x: bv64, y: bv64)
    ensures Minus(x + y, y) == x && Plus(x - y, y) == x
  {
  }

  lemma CombineBack(x: bv64, y: bv64)
    ensures Minus(Combine(true, x, y), y) == x && Plus(Combine(false, x, y), y) == x
  {
    hide Plus, Minus;
    SumsBack(x, y);
  }

  lemma TermCombines(additive: bool, r: nat, s: nat, u: seq<bv64>, n: nat)
    requires 0 < s < r <= |u| && r <= n
    ensures X(additive, r, s, u, n) == Combine(additive, X(additive, r, s, u, n - r), X(additive, r, s, u, n - s))
  {
    hide Combine;
  }

  /** X[n] - X[n-s] == X[n-r] in the additive generator, X[n] + X[n-s] == X[n-r] in the subtractive one. */
  lemma TermLaw(r: nat, s: nat, u: seq<bv64>, n: nat)
    requires 0 < s < r <= |u| && r <= n
    ensures Minus(X(true, r, s, u, n), X(true, r, s, u, n - s)) == X(true, r, s, u, n - r)
    ensures Plus(X(false, r, s, u, n), X(false, r, s, u, n - s)) == X(false, r, s, u, n - r)
  {
    hide X, Combine, Plus, Minus;
    TermCombines(true, r, s, u, n);
    CombineBack(X(true, r, s, u, n - r), X(true, r, s, u, n - s));
    TermCombines(false, r, s, u, n);
    CombineBack(X(false, r, s, u, n - r), X(false, r, s, u, n - s));
  }

  class LFib {
    const additive: bool
    const r: nat
    const s: nat
    const u: array<bv64>
    var pos: nat
    ghost const start: seq<bv64>
    ghost var base: nat
    ghost var outputs: nat

    ghost predicate Parameters() {
      0 < s < r <= |start| == u.Length
    }

    ghost function Terms(): nat -> bv64
      requires Parameters()
    {
      (k: nat) => X(additive, r, s, start, k)
    }

    /** The first i of the r cells in use are one round ahead of the others. */
    ghost predicate Refreshed(i: nat)
      reads this, u
    {
      Parameters() && Window(Terms(), u[..r], base, i)
    }

    ghost predicate Valid()
      reads this, u
    {
      pos <= r && Refreshed(0) && base + pos == r + outputs
    }

    constructor (additive: bool, r: nat, s: nat, cells: seq<bv64>)
      requires 0 < s < r <= |cells|
      ensures Valid() && fresh(u) && outputs == 0 && start == cells
      ensures this.additive == additive && this.r == r && this.s == s
    {
      this.additive, this.r, this.s, pos := additive, r, s, r;
      u := new bv64[|cells|](i requires 0 <= i < |cells| => cells[i]);
      start, base, outputs := cells, 0, 0;
    }

    /** x[i] = x[i] +- x[other], the other operand lying s places back around the ring. */
    method RefreshCell(i: nat, other: nat)
      requires Refreshed(i) && i < r && other == Ahead(r, i, r - s)
      modifies u
      ensures Refreshed(i + 1)
    {
      ghost var cells := u[..r];
      ReadAhead(Terms(), cells, base, i, 0);
      ReadAhead(Terms(), cells, base, i, r - s);
      var v := Combine(additive, u[i], u[other]);
      assert v == Terms()(base + i + r);
      Overwrite(Terms(), cells, base, i, v);
      hide Window, Terms, Combine;
      u[i] := v;
      assert u[..r] == cells[i := v];
    }

    /** First the cells whose other operand lies ahead, then those whose operand is already new. */
    method Refresh()
      requires Valid()
      modifies u, `base
      ensures Refreshed(0) && base == old(base) + r
    {
      hide Refreshed;
      Shape();
      var i := 0;
      while i < s
        modifies u
        invariant 0 <= i <= s && Refreshed(i)
      {
        RefreshCell(i, i + (r - s));
        i := i + 1;
      }
      while i < r
        modifies u
        invariant s <= i <= r && Refreshed(i)
      {
        RefreshCell(i, i - s);
        i := i + 1;
      }
      FinishRound();
    }

    lemma Shape()
      requires Refreshed(0)
      ensures 0 < s < r <= u.Length
    {
    }

    ghost method FinishRound()
      requires Refreshed(r)
      modifies `base
      ensures Refreshed(0) && base == old(base) + r
    {
      RoundDone(Terms(), u[..r], base);
      hide Window, Terms;
      base := base + r;
    }

    /** The n-th output is the upper half of term r + n. */
    method Next() returns (out: bv64)
      requires Valid()
      modifies this, u
      ensures Valid() && outputs == old(outputs) + 1
      ensures out == X(additive, r, s, start, r + old(outputs)) >> 32
    {
      if pos == r {
        Refresh();
        pos := 0;
      }
      ReadCell(Terms(), u[..r], base, pos);
      hide X, Window;
      out := u[pos] >> 32;
      pos := pos + 1;
      outputs := outputs + 1;
    }
  }
}
