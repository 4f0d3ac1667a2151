/** MT19937 (generators/mt19937.c): the in-place block refresh and the infinite recurrence. */
module MersenneTwister {
  import opened RingWindow

  const N := 624
  const M := 397

  function Twist(u: bv32, v: bv32): bv32 {
    var x := (u & 0x80000000) | (v & 0x7FFFFFFF);
    (x >> 1) ^ if v & 1 == 1 then 0x9908B0DF else 0
  }

  function Xor(u: bv32, v: bv32): bv32 { u ^ v }

  function Right(w: bv32, k: bv6): bv32
    requires k < 32
  {
    w >> k
  }

  function Left(w: bv32, k: bv6, mask: bv32): bv32
    requires k < 32
  {
    (w << k) & mask
  }

  function Temper(w: bv32): bv32 {
    var r := Xor(w, Right(w, 11));
    var r := Xor(r, Left(r, 7, 0x9D2C5680));
    var r := Xor(r, Left(r, 15, 0xEFC60000));
    Xor(r, Right(r, 18))
  }

  // ----- What the two word maps do to single bits -----

  function BitAt(w: bv32, k: bv6): bv32
    requires k < 32
  {
    (w >> k) & 1
  }

  /** Up to the matrix, which the lowest bit of v selects, the twist is the top bit of u and the lower 31 bits of v,
      moved one place down. */
  lemma TwistBits(u: bv32, v: bv32)
    ensures var t := Twist(u, v) ^ (if v & 1 == 1 then 0x9908B0DF else 0);
            BitAt(t, 31) == 0 && BitAt(t, 30) == BitAt(u, 31) && t & 0x3FFFFFFF == (v >> 1) & 0x3FFFFFFF
  {
  }

  lemma RawExchange(a: bv32, b: bv32, c: bv32, d: bv32)
    ensures Xor(a ^ b, c ^ d) == Xor(a ^ c, b ^ d)
  {
  }

  lemma XorExchange(a: bv32, b: bv32, c: bv32, d: bv32)
    ensures Xor(Xor(a, b), Xor(c, d)) == Xor(Xor(a, c), Xor(b, d))
  {
    RawExchange(a, b, c, d);
  }

  // The four shifts of the tempering are linear.

  lemma Right11Xor(u: bv32, v: bv32)
    ensures Right(Xor(u, v), 11) == Xor(Right(u, 11), Right(v, 11))
  {
  }

  lemma Left7Xor(u: bv32, v: bv32)
    ensures Left(Xor(u, v), 7, 0x9D2C5680) == Xor(Left(u, 7, 0x9D2C5680), Left(v, 7, 0x9D2C5680))
  {
  }

  lemma Left15Xor(u: bv32, v: bv32)
    ensures Left(Xor(u, v), 15, 0xEFC60000) == Xor(Left(u, 15, 0xEFC60000), Left(v, 15, 0xEFC60000))
  {
  }

  lemma Right18Xor(u: bv32, v: bv32)
    ensures Right(Xor(u, v), 18) == Xor(Right(u, 18), Right(v, 18))
  {
  }

  /** Every output bit is a XOR of input bits ... */
  lemma TemperLinear(u: bv32, v: bv32)
    ensures Temper(Xor(u, v)) == Xor(Temper(u), Temper(v))
  {
    hide Xor, Right, Left;
    Right11Xor(u, v);
    XorExchange(u, v, Right(u, 11), Right(v, 11));
    var u, v := Xor(u, Right(u, 11)), Xor(v, Right(v, 11));
    Left7Xor(u, v);
    XorExchange(u, v, Left(u, 7, 0x9D2C5680), Left(v, 7, 0x9D2C5680));
    u, v := Xor(u, Left(u, 7, 0x9D2C5680)), Xor(v, Left(v, 7, 0x9D2C5680));
    Left15Xor(u, v);
    XorExchange(u, v, Left(u, 15, 0xEFC60000), Left(v, 15, 0xEFC60000));
    u, v := Xor(u, Left(u, 15, 0xEFC60000)), Xor(v, Left(v, 15, 0xEFC60000));
    Right18Xor(u, v);
    XorExchange(u, v, Right(u, 18), Right(v, 18));
  }

  /** ... namely of these: the output bits that each input bit enters, bit 0 first. */
  lemma TemperColumns()
    ensures Temper(0x1) == 0x400091 && Temper(0x2) == 0x2
    ensures Temper(0x4) == 0x1020244 && Temper(0x8) == 0x2040489
    ensures Temper(0x10) == 0x10 && Temper(0x20) == 0x8001220
    ensures Temper(0x40) == 0x40 && Temper(0x80) == 0x20404890
    ensures Temper(0x100) == 0x800120 && Temper(0x200) == 0x1000240
    ensures Temper(0x400) == 0x2000480 && Temper(0x800) == 0x4440990
    ensures Temper(0x1000) == 0x8081200 && Temper(0x2000) == 0x1022244
    ensures Temper(0x4000) == 0x22244C81 && Temper(0x8000) == 0x40009010
    ensures Temper(0x10000) == 0x88013220 && Temper(0x20000) == 0x1020000
    ensures Temper(0x40000) == 0x20444891 && Temper(0x80000) == 0x4880022
    ensures Temper(0x100000) == 0x9100044 && Temper(0x200000) == 0x12200088
    ensures Temper(0x400000) == 0x4440911 && Temper(0x800000) == 0x8881222
    ensures Temper(0x1000000) == 0x81000040 && Temper(0x2000000) == 0x22204888
    ensures Temper(0x4000000) == 0x44009100 && Temper(0x8000000) == 0x88012200
    ensures Temper(0x10000000) == 0x11020440 && Temper(0x20000000) == 0x20040801
    ensures Temper(0x40000000) == 0x44081102 && Temper(0x80000000) == 0x88102204
  {
  }

  /** Each stage is undone by iteration: an approximation that is off by g becomes one that is off by the shift
      of g, until nothing is left of it. */
  function Untemper(r: bv32): bv32 {
    var w := Xor(r, Right(r, 18));
    var w := Xor(w, Left(w, 15, 0xEFC60000));
    var a := Xor(w, Left(w, 7, 0x9D2C5680));
    var a := Xor(w, Left(a, 7, 0x9D2C5680));
    var a := Xor(w, Left(a, 7, 0x9D2C5680));
    var w := Xor(w, Left(a, 7, 0x9D2C5680));
    var a := Xor(w, Right(w, 11));
    Xor(w, Right(a, 11))
  }

  lemma XorCancel(v: bv32, f: bv32, g: bv32)
    ensures Xor(Xor(v, f), Xor(f, g)) == Xor(v, g) && Xor(v, 0) == v
  {
  }

  lemma PeelRight11(v: bv32, g: bv32)
    ensures Xor(Xor(v, Right(v, 11)), Right(Xor(v, g), 11)) == Xor(v, Right(g, 11))
  {
    hide Xor, Right, Left;
    Right11Xor(v, g);
    XorCancel(v, Right(v, 11), Right(g, 11));
  }

  lemma PeelLeft7(v: bv32, g: bv32)
    ensures Xor(Xor(v, Left(v, 7, 0x9D2C5680)), Left(Xor(v, g), 7, 0x9D2C5680)) == Xor(v, Left(g, 7, 0x9D2C5680))
  {
    hide Xor, Right, Left;
    Left7Xor(v, g);
    XorCancel(v, Left(v, 7, 0x9D2C5680), Left(g, 7, 0x9D2C5680));
  }

  lemma PeelLeft15(v: bv32, g: bv32)
    ensures Xor(Xor(v, Left(v, 15, 0xEFC60000)), Left(Xor(v, g), 15, 0xEFC60000)) == Xor(v, Left(g, 15, 0xEFC60000))
  {
    hide Xor, Right, Left;
    Left15Xor(v, g);
    XorCancel(v, Left(v, 15, 0xEFC60000), Left(g, 15, 0xEFC60000));
  }

  lemma PeelRight18(v: bv32, g: bv32)
    ensures Xor(Xor(v, Right(v, 18)), Right(Xor(v, g), 18)) == Xor(v, Right(g, 18))
  {
    hide Xor, Right, Left;
    Right18Xor(v, g);
    XorCancel(v, Right(v, 18), Right(g, 18));
  }

  lemma NothingLeft(v: bv32)
    ensures Right(Right(v, 18), 18) == 0 && Right(Right(Right(v, 11), 11), 11) == 0
    ensures Left(Left(v, 15, 0xEFC60000), 15, 0xEFC60000) == 0
  {
  }

  lemma NothingLeft7(v: bv32)
    ensures var f := Left(Left(Left(v, 7, 0x9D2C5680), 7, 0x9D2C5680), 7, 0x9D2C5680);
            Left(Left(f, 7, 0x9D2C5680), 7, 0x9D2C5680) == 0
  {
  }

  /** Tempering loses nothing: a state word can be read off its output. */
  lemma UntemperTemper(w: bv32)
    ensures Untemper(Temper(w)) == w
  {
    hide Xor, Right, Left;
    var w1 := Xor(w, Right(w, 11));
    var w2 := Xor(w1, Left(w1, 7, 0x9D2C5680));
    var w3 := Xor(w2, Left(w2, 15, 0xEFC60000));
    PeelRight18(w3, Right(w3, 18));
    NothingLeft(w3);
    XorCancel(w3, 0, 0);
    PeelLeft15(w2, Left(w2, 15, 0xEFC60000));
    NothingLeft(w2);
    XorCancel(w2, 0, 0);
    var f := Left(w1, 7, 0x9D2C5680);
    PeelLeft7(w1, f);
    f := Left(f, 7, 0x9D2C5680);
    PeelLeft7(w1, f);
    f := Left(f, 7, 0x9D2C5680);
    PeelLeft7(w1, f);
    f := Left(f, 7, 0x9D2C5680);
    PeelLeft7(w1, f);
    NothingLeft7(w1);
    XorCancel(w1, 0, 0);
    PeelRight11(w, Right(w, 11));
    PeelRight11(w, Right(Right(w, 11), 11));
    NothingLeft(w);
    XorCancel(w, 0, 0);
  }

  /** Term k of the recurrence x[k+N] = x[k+M] ^ twist(x[k], x[k+1]) started from s. */
  ghost function X(s: seq<bv32>, k: nat): bv32
    requires |s| == N
  {
    if k < N then s[k] else X(s, k - N + M) ^ Twist(X(s, k - N), X(s, k - N + 1))
  }

  function Scrambled(w: bv32, i: bv32): bv32 {
    1812433253 * (w ^ (w >> 30)) + i
  }

  function SeedNext(w: bv32, i: nat): bv32
    requires i <= N
  {
    Scrambled(w, i as bv32)
  }

  /** The seeding step can be taken back: 2520285293 is the inverse of the multiplier. */
  function SeedBack(z: bv32, i: bv32): bv32 {
    var v := (z - i) * 2520285293;
    v ^ (v >> 30)
  }

  lemma RawBack(w: bv32, i: bv32)
    ensures SeedBack(1812433253 * (w ^ (w >> 30)) + i, i) == w
  {
  }

  lemma ScrambledBack(w: bv32, i: bv32)
    ensures SeedBack(Scrambled(w, i), i) == w
  {
    hide SeedBack;
    RawBack(w, i);
  }

  lemma SeedStepBack(w: bv32, i: nat)
    requires i <= N
    ensures SeedBack(SeedNext(w, i), i as bv32) == w
  {
    hide SeedBack, Scrambled;
    ScrambledBack(w, i as bv32);
  }

  /** The first step from the seed of the self-test. */
  lemma SeedExample()
    ensures SeedNext(0x12345678, 1) == 0x2e345559
  {
  }

  /** Word i of the initial state. */
  function SeedWord(seed: bv32, i: nat): bv32
    requires i <= N
  {
    if i == 0 then seed else SeedNext(SeedWord(seed, i - 1), i)
  }

  ghost function Terms(s: seq<bv32>): nat -> bv32
    requires |s| == N
  {
    (k: nat) => X(s, k)
  }

  /** The assignment of one cell, from the cells N - M back and one ahead around the ring. */
  lemma RefreshTerm(s: seq<bv32>, p: seq<bv32>, base: nat, i: nat)
    requires |s| == |p| == N && i < N && Window(Terms(s), p, base, i)
    ensures p[Ahead(N, i, M)] ^ Twist(p[i], p[Ahead(N, i, 1)]) == Terms(s)(base + i + N)
  {
    ReadAhead(Terms(s), p, base, i, 0);
    ReadAhead(Terms(s), p, base, i, 1);
    ReadAhead(Terms(s), p, base, i, M);
    NextTerm(s, base + i);
    hide Window, Terms, Twist;
  }

  lemma NextTerm(s: seq<bv32>, k: nat)
    requires |s| == 624
    ensures Terms(s)(k + 624) == Terms(s)(k + 397) ^ Twist(Terms(s)(k), Terms(s)(k + 1))
  {
    hide Twist;
  }

  class MT19937 {
    const state: array<bv32>
    var pos: nat
    ghost var start: seq<bv32>
    ghost var base: nat
    ghost var outputs: nat

    /** The first i cells are one round ahead of the others. */
    ghost predicate Refreshed(i: nat)
      reads this, state
    {
      state.Length == N == |start| && Window(Terms(start), state[..], base, i)
    }

    ghost predicate Valid()
      reads this, state
    {
      pos <= N && Refreshed(0) && base + pos == N + outputs
    }

    constructor (seed: bv32)
      ensures Valid() && fresh(state) && outputs == 0
      ensures forall k | 0 <= k < N :: start[k] == SeedWord(seed, k)
    {
      var cells := SeedCells(seed);
      hide SeedWord, Twist;
      state, pos, start, base, outputs := cells, N, cells[..], 0, 0;
    }

    static method SeedCells(seed: bv32) returns (cells: array<bv32>)
      ensures fresh(cells) && cells.Length == N
      ensures forall k | 0 <= k < N :: cells[k] == SeedWord(seed, k)
    {
      hide SeedNext;
      cells := new bv32[N];
      var i, s := 0, seed;
      while i < N
        invariant 0 <= i <= N && s == SeedWord(seed, i)
        invariant forall k | 0 <= k < i :: cells[k] == SeedWord(seed, k)
      {
        cells[i] := s;
        s := SeedNext(s, i + 1);
        i := i + 1;
      }
    }

    /** p[i] = p[mid] ^ twist(p[i], p[next]) */
    method RefreshCell(i: nat, mid: nat, next: nat)
      requires i < N && mid == Ahead(N, i, M) && next == Ahead(N, i, 1) && Refreshed(i)
      modifies state
      ensures Refreshed(i + 1)
    {
      ghost var p := state[..];
      RefreshTerm(start, p, base, i);
      var v := state[mid] ^ Twist(state[i], state[next]);
      Overwrite(Terms(start), p, base, i, v);
      hide Window, Terms, Twist;
      state[i] := v;
      assert state[..] == p[i := v];
    }

    /** The three parts of the loop. */
    method Refresh()
      requires Valid()
      modifies state, `base
      ensures Refreshed(0) && base == old(base) + N
    {
      var i := 0;
      while i < N - M
        modifies state
        invariant 0 <= i <= N - M && Refreshed(i)
      {
        RefreshCell(i, i + M, i + 1);
        i := i + 1;
      }
      while i < N - 1
        modifies state
        invariant N - M <= i <= N - 1 && Refreshed(i)
      {
        RefreshCell(i, i + M - N, i + 1);
        i := i + 1;
      }
      RefreshCell(N - 1, M - 1, 0);
      RoundDone(Terms(start), state[..], base);
      hide Window, Terms;
      base := base + N;
    }

    /** The n-th output is the tempered term 624 + n, for ever. */
    method Next() returns (r: bv32)
      requires Valid()
      modifies this, state
      ensures Valid() && start == old(start) && outputs == old(outputs) + 1
      ensures r == Temper(X(start, 624 + old(outputs)))
    {
      if pos == N {
        Refresh();
        pos := 0;
      }
      ReadCell(Terms(start), state[..], base, pos);
      hide X, Temper, Window;
      r := Temper(state[pos]);
      pos := pos + 1;
      outputs := outputs + 1;
    }
  }
}
