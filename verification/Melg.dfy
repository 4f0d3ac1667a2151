/** MELG19937 (generators/melg19937.c): a handler pointer that follows the position, and the
    recurrence with its extra word. */
module Melg {
  import opened RingWindow

  const NN := 311
  const MM := 81
  const LAG1 := 19
  const LAG1OVER := 292
  const MASKU: bv64 := 0xFFFF_FFFF_8000_0000
  const MASKL: bv64 := 0x0000_0000_7FFF_FFFF
  const MASK1: bv64 := 0x6aede6fd97b338ec

  function Xor(u: bv64, v: bv64): bv64 { u ^ v }

  function Up(v: bv64, k: bv7): bv64
    requires k < 64
  {
    v << k
  }

  function Down(v: bv64, k: bv7): bv64
    requires k < 64
  {
    v >> k
  }

  function Mat3Neg(v: bv64): bv64 { Xor(v, Up(v, 23)) }

  function Mat3Pos(v: bv64): bv64 { Xor(v, Down(v, 33)) }

  function Mag(x: bv64): bv64 { if x & 1 == 1 then 0x5c32e06df730fc42 else 0 }

  function Mix(u: bv64, v: bv64): bv64 { (u & MASKU) | (v & MASKL) }

  function NextLung(x: bv64, middle: bv64, lung: bv64): bv64 {
    Xor(Xor(Xor(Down(x, 1), Mag(x)), middle), Mat3Neg(lung))
  }

  function NewWord(x: bv64, lung: bv64): bv64 {
    Xor(x, Mat3Pos(lung))
  }

  function Output(w: bv64, lagged: bv64): bv64 {
    Xor(Xor(w, Up(w, 16)), lagged & MASK1)
  }

  // ----- What the word maps do to single bits: they are linear, with these columns -----

  lemma RawExchange(a: bv64, b: bv64, c: bv64, d: bv64)
    ensures Xor(a ^ b, c ^ d) == Xor(a ^ c, b ^ d)
  {
  }

  lemma XorExchange(a: bv64, b: bv64, c: bv64, d: bv64)
    ensures Xor(Xor(a, b), Xor(c, d)) == Xor(Xor(a, c), Xor(b, d))
  {
    RawExchange(a, b, c, d);
  }

  lemma RawShifts(u: bv64, v: bv64)
    ensures Up(u ^ v, 16) == Xor(u << 16, v << 16) && Up(u ^ v, 23) == Xor(u << 23, v << 23)
    ensures Down(u ^ v, 1) == Xor(u >> 1, v >> 1) && Down(u ^ v, 33) == Xor(u >> 33, v >> 33)
  {
  }

  lemma ShiftsXor(u: bv64, v: bv64)
    ensures Up(Xor(u, v), 16) == Xor(Up(u, 16), Up(v, 16)) && Up(Xor(u, v), 23) == Xor(Up(u, 23), Up(v, 23))
    ensures Down(Xor(u, v), 1) == Xor(Down(u, 1), Down(v, 1)) && Down(Xor(u, v), 33) == Xor(Down(u, 33), Down(v, 33))
  {
    RawShifts(u, v);
  }

  lemma MasksXor(u: bv64, v: bv64)
    ensures Xor(u, v) & MASK1 == Xor(u & MASK1, v & MASK1) && Mag(Xor(u, v)) == Xor(Mag(u), Mag(v))
  {
  }

  lemma Mat3Linear(u: bv64, v: bv64)
    ensures Mat3Neg(Xor(u, v)) == Xor(Mat3Neg(u), Mat3Neg(v)) && Mat3Pos(Xor(u, v)) == Xor(Mat3Pos(u), Mat3Pos(v))
  {
    hide Xor, Up, Down;
    ShiftsXor(u, v);
    XorExchange(u, v, Up(u, 23), Up(v, 23));
    XorExchange(u, v, Down(u, 33), Down(v, 33));
  }

  lemma NextLungLinear(x: bv64, m: bv64, lung: bv64, x': bv64, m': bv64, lung': bv64)
    ensures NextLung(Xor(x, x'), Xor(m, m'), Xor(lung, lung')) == Xor(NextLung(x, m, lung), NextLung(x', m', lung'))
  {
    hide Xor, Mat3Neg, Mag, Down;
    ShiftsXor(x, x');
    MasksXor(x, x');
    Mat3Linear(lung, lung');
    XorExchange(Down(x, 1), Down(x', 1), Mag(x), Mag(x'));
    XorExchange(Xor(Down(x, 1), Mag(x)), Xor(Down(x', 1), Mag(x')), m, m');
    XorExchange(Xor(Xor(Down(x, 1), Mag(x)), m), Xor(Xor(Down(x', 1), Mag(x')), m'), Mat3Neg(lung), Mat3Neg(lung'));
  }

  lemma NewWordLinear(x: bv64, lung: bv64, x': bv64, lung': bv64)
    ensures NewWord(Xor(x, x'), Xor(lung, lung')) == Xor(NewWord(x, lung), NewWord(x', lung'))
  {
    hide Xor, Mat3Pos;
    Mat3Linear(lung, lung');
    XorExchange(x, x', Mat3Pos(lung), Mat3Pos(lung'));
  }

  lemma OutputLinear(w: bv64, lagged: bv64, w': bv64, lagged': bv64)
    ensures Output(Xor(w, w'), Xor(lagged, lagged')) == Xor(Output(w, lagged), Output(w', lagged'))
  {
    hide Xor, Up;
    ShiftsXor(w, w');
    MasksXor(lagged, lagged');
    XorExchange(w, w', Up(w, 16), Up(w', 16));
    XorExchange(Xor(w, Up(w, 16)), Xor(w', Up(w', 16)), lagged & MASK1, lagged' & MASK1);
  }

  /** The upper 33 bits of u and the lower 31 bits of v. */
  lemma MixBits(u: bv64, v: bv64)
    ensures Mix(u, v) >> 31 == u >> 31 && Mix(u, v) << 33 == v << 33
  {
  }

  /** Bit k of x goes one place down and bit 0 selects the matrix; the middle word is added; bit k of the extra
      word stays and is also added 23 places up. */
  lemma NextLungColumns(k: bv7)
    requires k < 64
    ensures NextLung(1 << k, 0, 0) == if k == 0 then 0x5c32e06df730fc42 else 1 << (k - 1)
    ensures NextLung(0, 1 << k, 0) == 1 << k
    ensures NextLung(0, 0, 1 << k) == if k < 41 then (1 << k) | (1 << (k + 23)) else 1 << k
  {
  }

  /** Bit k of x stays; bit k of the extra word stays and is also added 33 places down. */
  lemma NewWordColumns(k: bv7)
    requires k < 64
    ensures NewWord(1 << k, 0) == 1 << k
    ensures NewWord(0, 1 << k) == if k >= 33 then (1 << k) | (1 << (k - 33)) else 1 << k
  {
  }

  /** Bit k of the word stays and is also added 16 places up; the mask selects bits of the lagged word. */
  lemma OutputColumns(k: bv7)
    requires k < 64
    ensures Output(1 << k, 0) == if k < 48 then (1 << k) | (1 << (k + 16)) else 1 << k
    ensures Output(0, 1 << k) == if (0x6aede6fd97b338ec as bv64 >> k) & 1 == 1 then 1 << k else 0
  {
  }

  // ----- The recurrence -----

  function Scrambled(w: bv64, i: bv64): bv64 {
    6364136223846793005 * (w ^ (w >> 62)) + i
  }

  function SeedNext(w: bv64, i: nat): bv64
    requires i <= NN
  {
    Scrambled(w, i as bv64)
  }

  /** The seeding step can be taken back: 13877824140714322085 is the inverse of the multiplier. */
  function SeedBack(z: bv64, i: bv64): bv64 {
    var v := (z - i) * 13877824140714322085;
    v ^ (v >> 62)
  }

  lemma RawBack(w: bv64, i: bv64)
    ensures SeedBack(6364136223846793005 * (w ^ (w >> 62)) + i, i) == w
  {
  }

  lemma ScrambledBack(w: bv64, i: bv64)
    ensures SeedBack(Scrambled(w, i), i) == w
  {
    hide SeedBack;
    RawBack(w, i);
  }

  lemma SeedStepBack(w: bv64, i: nat)
    requires i <= NN
    ensures SeedBack(SeedNext(w, i), i as bv64) == w
  {
    hide SeedBack, Scrambled;
    ScrambledBack(w, i as bv64);
  }

  lemma SeedExample()
    ensures SeedNext(0xFEDCBA9876543210, 1) == 0x97c636b65ab33a58
  {
  }

  /** Word i of the initial state; the last one seeds the extra word. */
  function SeedWord(seed: bv64, i: nat): bv64
    requires i <= NN
  {
    if i == 0 then seed else SeedNext(SeedWord(seed, i - 1), i)
  }

  datatype Start = Start(cells: seq<bv64>, lung: bv64)

  /** Word k of the sequence; the first NN are given. */
  ghost function W(s: Start, k: nat): bv64
    requires |s.cells| == NN
    decreases k, 0
  {
    if k < NN then s.cells[k]
    else NewWord(Mix(W(s, k - NN), W(s, k - NN + 1)), Lung(s, k - NN + 1))
  }

  /** The extra word after n steps. */
  ghost function Lung(s: Start, n: nat): bv64
    requires |s.cells| == NN
    decreases n + MM, 1
  {
    if n == 0 then s.lung
    else NextLung(Mix(W(s, n - 1), W(s, n)), W(s, n - 1 + MM), Lung(s, n - 1))
  }

  // ----- The generator -----

  ghost function Words(s: Start): nat -> bv64
    requires |s.cells| == NN
  {
    (k: nat) => W(s, k)
  }

  /** The state after base + pos steps. */
  ghost predicate Reached(s: Start, cells: seq<bv64>, lung: bv64, base: nat, pos: nat) {
    && |s.cells| == |cells| == NN && pos < NN
    && Window(Words(s), cells, base, pos) && lung == Lung(s, base + pos)
  }

  lemma ReachedShape(s: Start, cells: seq<bv64>, lung: bv64, base: nat, pos: nat)
    requires Reached(s, cells, lung, base, pos)
    ensures |s.cells| == |cells| == NN && pos < NN
  {
  }

  /** The values computed in one step, with the indices taken around the ring. */
  lemma StepValues(s: Start, cells: seq<bv64>, lung: bv64, base: nat, pos: nat)
    requires Reached(s, cells, lung, base, pos)
    ensures var n := base + pos;
            var x := Mix(cells[pos], cells[Ahead(NN, pos, 1)]);
            var lung' := NextLung(x, cells[Ahead(NN, pos, MM)], lung);
            lung' == Lung(s, n + 1) && NewWord(x, lung') == Words(s)(n + NN)
  {
    hide Mix, NextLung, NewWord, Window, Words, Lung, W;
    ReadAhead(Words(s), cells, base, pos, 0);
    ReadAhead(Words(s), cells, base, pos, 1);
    ReadAhead(Words(s), cells, base, pos, MM);
    NextTerms(s, base + pos);
  }

  lemma NextTerms(s: Start, n: nat)
    requires |s.cells| == 311
    ensures Lung(s, n + 1) == NextLung(Mix(Words(s)(n), Words(s)(n + 1)), Words(s)(n + 81), Lung(s, n))
    ensures Words(s)(n + 311) == NewWord(Mix(Words(s)(n), Words(s)(n + 1)), Lung(s, n + 1))
  {
    hide Mix, NextLung, NewWord;
  }

  /** Storing the new word moves the window one place, around the ring if need be. */
  lemma StoreReaches(s: Start, cells: seq<bv64>, lung: bv64, lung': bv64, base: nat, pos: nat, w: bv64)
    requires Reached(s, cells, lung, base, pos)
    requires lung' == Lung(s, base + pos + 1) && w == Words(s)(base + pos + NN)
    ensures cells[pos := w][Ahead(NN, pos, LAG1)] == W(s, base + pos + LAG1)
    ensures if pos < NN - 1 then Reached(s, cells[pos := w], lung', base, pos + 1)
            else Reached(s, cells[pos := w], lung', base + NN, 0)
  {
    hide Window, Lung, W;
    ReadAhead(Words(s), cells, base, pos, LAG1);
    Overwrite(Words(s), cells, base, pos, w);
    if pos == NN - 1 {
      RoundDone(Words(s), cells[pos := w], base);
    }
  }

  /** One step: the new word, the lagged word and the next state. */
  lemma StepReaches(s: Start, cells: seq<bv64>, lung: bv64, base: nat, pos: nat)
    requires Reached(s, cells, lung, base, pos)
    ensures var x := Mix(cells[pos], cells[Ahead(NN, pos, 1)]);
            var lung' := NextLung(x, cells[Ahead(NN, pos, MM)], lung);
            var w := NewWord(x, lung');
            && w == W(s, base + pos + NN) && cells[pos := w][Ahead(NN, pos, LAG1)] == W(s, base + pos + LAG1)
            && if pos < NN - 1 then Reached(s, cells[pos := w], lung', base, pos + 1)
               else Reached(s, cells[pos := w], lung', base + NN, 0)
  {
    hide Reached, Mix, NextLung, NewWord, Lung, W;
    ReachedShape(s, cells, lung, base, pos);
    StepValues(s, cells, lung, base, pos);
    var x := Mix(cells[pos], cells[Ahead(NN, pos, 1)]);
    var lung' := NextLung(x, cells[Ahead(NN, pos, MM)], lung);
    StoreReaches(s, cells, lung, lung', base, pos, NewWord(x, lung'));
    assert Words(s)(base + pos + NN) == W(s, base + pos + NN);
  }

  /** The values of the function pointer. */
  datatype Handler = Case1 | Case2 | Case3 | Case4

  /** The handler for the range that pos lies in. */
  function HandlerAt(pos: nat): Handler {
    if pos < NN - MM then Case1 else if pos < LAG1OVER then Case2 else if pos < NN - 1 then Case3 else Case4
  }

  class Generator {
    var lung: bv64
    const melg: array<bv64>
    var pos: nat
    var handler: Handler
    ghost const start: Start
    ghost var base: nat

    /** Number of calls made so far. */
    ghost function Steps(): nat
      reads this
    {
      base + pos
    }

    ghost predicate Valid()
      reads this, melg
    {
      Reached(start, melg[..], lung, base, pos) && handler == HandlerAt(pos)
    }

    constructor (seed: bv64)
      ensures Valid() && fresh(melg) && Steps() == 0 && start.lung == SeedWord(seed, NN)
      ensures forall k | 0 <= k < NN :: start.cells[k] == SeedWord(seed, k)
    {
      var cells, last := SeedCells(seed);
      melg, lung, pos, handler := cells, last, 0, Case1;
      start, base := Start(cells[..], last), 0;
      hide SeedWord, Mix, NextLung, NewWord;
    }

    static method SeedCells(seed: bv64) returns (cells: array<bv64>, s: bv64)
      ensures fresh(cells) && cells.Length == NN && s == SeedWord(seed, NN)
      ensures forall k | 0 <= k < NN :: cells[k] == SeedWord(seed, k)
    {
      hide SeedNext;
      cells := new bv64[NN];
      s := seed;
      var i := 0;
      while i < NN
        invariant 0 <= i <= NN && s == SeedWord(seed, i)
        invariant forall k | 0 <= k < i :: cells[k] == SeedWord(seed, k)
      {
        cells[i] := s;
        s := SeedNext(s, i + 1);
        i := i + 1;
      }
    }

    /** case_generic: sh1 and sh2 lead to the middle word and to the output lag, sh3 ends the range. */
    method CaseGeneric(sh1: int, sh2: int, sh3: int, next: Handler) returns (x: bv64)
      requires Valid() && pos < NN - 1
      requires pos + sh1 == Ahead(NN, pos, MM) && pos + sh2 == Ahead(NN, pos, LAG1)
      requires HandlerAt(pos + 1) == if pos + 1 == sh3 then next else handler
      modifies this`lung, this`pos, this`handler, melg
      ensures Valid() && Steps() == old(Steps()) + 1
      ensures x == Output(W(start, old(Steps()) + NN), W(start, old(Steps()) + LAG1))
    {
      hide Reached, Output, W, Lung;
      ReachedShape(start, melg[..], lung, base, pos);
      x := Advance(pos, pos + 1, pos + sh1);
      x := Output(melg[pos], melg[pos + sh2]);
      pos := pos + 1;
      if pos == sh3 {
        handler := next;
      }
    }

    /** The three assignments common to all handlers. */
    method Advance(i: nat, j: nat, k: nat) returns (x: bv64)
      requires Reached(start, melg[..], lung, base, pos)
      requires i == pos && j == Ahead(NN, pos, 1) && k == Ahead(NN, pos, MM)
      modifies this`lung, melg
      ensures melg[pos] == W(start, Steps() + NN) && melg[Ahead(NN, pos, LAG1)] == W(start, Steps() + LAG1)
      ensures if pos < NN - 1 then Reached(start, melg[..], lung, base, pos + 1)
              else Reached(start, melg[..], lung, base + NN, 0)
    {
      hide Reached, W, Lung, Mix, NextLung, NewWord;
      ghost var cells := melg[..];
      ReachedShape(start, cells, lung, base, pos);
      StepReaches(start, cells, lung, base, pos);
      x := Mix(melg[i], melg[j]);
      lung := NextLung(x, melg[k], lung);
      melg[i] := NewWord(x, lung);
      assert melg[..] == cells[pos := NewWord(x, lung)];
    }

    method LastCase() returns (x: bv64)
      requires Valid() && pos == NN - 1
      modifies this`lung, this`pos, this`handler, this`base, melg
      ensures Valid() && Steps() == old(Steps()) + 1
      ensures x == Output(W(start, old(Steps()) + NN), W(start, old(Steps()) + LAG1))
    {
      hide Reached, Output, W, Lung;
      ReachedShape(start, melg[..], lung, base, pos);
      x := Advance(NN - 1, 0, MM - 1);
      x := Output(melg[pos], melg[pos - LAG1OVER]);
      pos := 0;
      base := base + NN;
      handler := Case1;
    }

    /** Every call, through whatever handler, is the next step of the recurrence. */
    method Next() returns (x: bv64)
      requires Valid()
      modifies this`lung, this`pos, this`handler, this`base, melg
      ensures Valid() && Steps() == old(Steps()) + 1
      ensures x == Output(W(start, old(Steps()) + 311), W(start, old(Steps()) + 19))
    {
      match handler
      case Case1 => x := CaseGeneric(MM, LAG1, NN - MM, Case2);
      case Case2 => x := CaseGeneric(MM - NN, LAG1, LAG1OVER, Case3);
      case Case3 => x := CaseGeneric(MM - NN, -LAG1OVER, NN - 1, Case4);
      case Case4 => x := LastCase();
    }
  }
}
