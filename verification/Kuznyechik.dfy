/** Kuznyechik (generators/kuzn.c): the byte tables of apply_fast_LS against the slow L after S, and the
    cipher and key schedule of RFC 7801.  The matrix of L and the substitution pi are arbitrary. */
module Kuznyechik {
  import opened ByteTables
  import opened GaloisField
  import opened Union128

  // ----- Addition of vectors, by bytes and by words -----

  type Matrix = m: seq<Vec> | |m| == 16 witness seq(16, i => Zero())

  function AddVec(v: Vec, w: Vec): Vec { seq(16, i requires 0 <= i < 16 => Add(v[i], w[i])) }

  function Zero(): Vec { seq(16, i => 0) }

  function Unit(k: nat, x: bv8): Vec
    requires k < 16
  {
    Zero()[k := x]
  }

  function XorWord(u: bv64, v: bv64): bv64 { u ^ v }

  /** Vec16_xor */
  function XorWords(a: Words, b: Words): Words { Words(XorWord(a.u0, b.u0), XorWord(a.u1, b.u1)) }

  lemma WordXor(a0: bv8, a1: bv8, a2: bv8, a3: bv8, a4: bv8, a5: bv8, a6: bv8, a7: bv8,
                b0: bv8, b1: bv8, b2: bv8, b3: bv8, b4: bv8, b5: bv8, b6: bv8, b7: bv8)
    ensures Word(Add(a0, b0), Add(a1, b1), Add(a2, b2), Add(a3, b3), Add(a4, b4), Add(a5, b5), Add(a6, b6), Add(a7, b7))
         == XorWord(Word(a0, a1, a2, a3, a4, a5, a6, a7), Word(b0, b1, b2, b3, b4, b5, b6, b7))
  {
  }

  /** Adding the words of the union adds its bytes. */
  lemma PackAdd(v: Vec, w: Vec)
    ensures Pack(AddVec(v, w)) == XorWords(Pack(v), Pack(w))
  {
    hide Word, XorWord, Add;
    WordXor(v[0], v[1], v[2], v[3], v[4], v[5], v[6], v[7], w[0], w[1], w[2], w[3], w[4], w[5], w[6], w[7]);
    WordXor(v[8], v[9], v[10], v[11], v[12], v[13], v[14], v[15],
            w[8], w[9], w[10], w[11], w[12], w[13], w[14], w[15]);
  }

  // ----- The linear transformation -----

  function RowSum(row: Vec, v: Vec, n: nat): bv8
    requires n <= 16
  {
    if n == 0 then 0 else Add(RowSum(row, v, n - 1), Multiply(row[n - 1], v[n - 1]))
  }

  function MatVec(m: Matrix, v: Vec): Vec { seq(16, i requires 0 <= i < 16 => RowSum(m[i], v, 16)) }

  lemma {:induction false} RowSumAdd(row: Vec, v: Vec, w: Vec, n: nat)
    requires n <= 16
    ensures RowSum(row, AddVec(v, w), n) == Add(RowSum(row, v, n), RowSum(row, w, n))
  {
    hide Add, Multiply;
    if n == 0 {
      AddZero(0);
    } else {
      RowSumAdd(row, v, w, n - 1);
      MultiplyDistributes(row[n - 1], v[n - 1], w[n - 1]);
      AddExchange(RowSum(row, v, n - 1), Multiply(row[n - 1], v[n - 1]),
                  RowSum(row, w, n - 1), Multiply(row[n - 1], w[n - 1]));
    }
  }

  lemma {:induction false} RowSumZero(row: Vec, n: nat)
    requires n <= 16
    ensures RowSum(row, Zero(), n) == 0
  {
    hide Add, Multiply;
    if n > 0 {
      RowSumZero(row, n - 1);
      MultiplyZero(row[n - 1]);
      AddZero(0);
    }
  }

  /** L is linear. */
  lemma MatVecLinear(m: Matrix, v: Vec, w: Vec)
    ensures MatVec(m, AddVec(v, w)) == AddVec(MatVec(m, v), MatVec(m, w))
    ensures MatVec(m, Zero()) == Zero()
  {
    hide RowSum, Add;
    forall i | 0 <= i < 16
      ensures RowSum(m[i], AddVec(v, w), 16) == Add(RowSum(m[i], v, 16), RowSum(m[i], w, 16))
      ensures RowSum(m[i], Zero(), 16) == 0
    {
      RowSumAdd(m[i], v, w, 16);
      RowSumZero(m[i], 16);
    }
  }

  /** mul_mat_vec */
  method MulMatVec(out: array<bv8>, m: Matrix, v: Vec)
    requires out.Length == 16
    modifies out
    ensures out[..] == MatVec(m, v)
  {
    hide Add, Multiply;
    for i := 0 to 16
      invariant forall k | 0 <= k < i :: out[k] == RowSum(m[k], v, 16)
    {
      var c := 0;
      for j := 0 to 16
        invariant c == RowSum(m[i], v, j)
        invariant forall k | 0 <= k < i :: out[k] == RowSum(m[k], v, 16)
      {
        var p := Gf256Mul(m[i][j], v[j]);
        c := Add(c, p);
      }
      out[i] := c;
    }
  }

  // ----- The combined transformation by table lookup -----

  function Substitute(pi: Sbox, v: Vec): Vec { seq(16, i requires 0 <= i < 16 => At(pi, v[i])) }

  /** L after S, on the words of the union. */
  function LS(m: Matrix, pi: Sbox, w: Words): Words { Pack(MatVec(m, Substitute(pi, Unpack(w)))) }

  /** Row k of the table holds L of every substituted byte at place k. */
  predicate IsRow(m: Matrix, pi: Sbox, table: seq<Words>, k: nat)
    requires k < 16 && |table| == 4096
  {
    forall i | 0 <= i < 256 :: table[256 * k + i] == Pack(MatVec(m, Unit(k, pi[i])))
  }

  predicate IsTable(m: Matrix, pi: Sbox, table: seq<Words>) {
    |table| == 4096 && forall k | 0 <= k < 16 :: IsRow(m, pi, table, k)
  }

  lemma Overwritten(k: nat, x: bv8, y: bv8)
    requires k < 16
    ensures Unit(k, x)[k := y] == Unit(k, y)
  {
  }

  /** make_table_LS_for_byte: the other rows stay as they are. */
  method MakeTableForByte(table: array<Words>, m: Matrix, pi: Sbox, k: nat)
    requires table.Length == 4096 && k < 16
    modifies table
    ensures IsRow(m, pi, table[..], k)
    ensures table[..256 * k] == old(table[..256 * k]) && table[256 * k + 256..] == old(table[256 * k + 256..])
  {
    hide Pack, MatVec, Unit;
    var v := Unit(k, 0);
    var product := new bv8[16];
    for i := 0 to 256
      invariant exists x: bv8 :: v == Unit(k, x)
      invariant forall n | 0 <= n < i :: table[256 * k + n] == Pack(MatVec(m, Unit(k, pi[n])))
      invariant table[..256 * k] == old(table[..256 * k])
      invariant table[256 * k + 256..] == old(table[256 * k + 256..])
    {
      ghost var x: bv8 :| v == Unit(k, x);
      Overwritten(k, x, pi[i]);
      v := v[k := pi[i]];
      MulMatVec(product, m, v);
      table[256 * k + i] := Pack(product[..]);
    }
  }

  lemma RowFrame(m: Matrix, pi: Sbox, before: seq<Words>, after: seq<Words>, j: nat, k: nat)
    requires |before| == |after| == 4096 && j < k < 16
    requires IsRow(m, pi, before, j) && after[..256 * k] == before[..256 * k]
    ensures IsRow(m, pi, after, j)
  {
    hide Pack, MatVec, Unit;
    forall i | 0 <= i < 256
      ensures after[256 * j + i] == Pack(MatVec(m, Unit(j, pi[i])))
    {
      assert after[..256 * k][256 * j + i] == before[..256 * k][256 * j + i];
    }
  }

  /** KuznState_make_table_LS */
  method MakeTable(m: Matrix, pi: Sbox) returns (table: array<Words>)
    ensures fresh(table) && IsTable(m, pi, table[..])
  {
    hide IsRow;
    table := new Words[4096];
    for k := 0 to 16
      invariant forall j | 0 <= j < k :: IsRow(m, pi, table[..], j)
    {
      ghost var before := table[..];
      MakeTableForByte(table, m, pi, k);
      forall j | 0 <= j < k
        ensures IsRow(m, pi, table[..], j)
      {
        RowFrame(m, pi, before, table[..], j, k);
      }
    }
  }

  /** The first n bytes of a vector. */
  function Prefix(s: Vec, n: nat): Vec { seq(16, j requires 0 <= j < 16 => if j < n then s[j] else 0) }

  lemma PrefixStep(s: Vec, n: nat)
    requires n < 16
    ensures Prefix(s, 0) == Zero() && Prefix(s, 16) == s
    ensures Prefix(s, n + 1) == AddVec(Prefix(s, n), Unit(n, s[n]))
  {
    hide Add;
    forall j | 0 <= j < 16
      ensures Prefix(s, n + 1)[j] == Add(Prefix(s, n)[j], Unit(n, s[n])[j])
    {
      AddZero(Prefix(s, n)[j]);
      AddZero(s[n]);
    }
  }

  /** Adding the row entry of byte n extends L from the first n substituted bytes to one more. */
  lemma LookupStep(m: Matrix, pi: Sbox, table: seq<Words>, s: Vec, n: nat, w: Words)
    requires n < 16 && IsTable(m, pi, table) && s == Substitute(pi, Unpack(w))
    ensures var b := Unpack(w)[n] as int;
            Pack(MatVec(m, Prefix(s, n + 1))) == XorWords(Pack(MatVec(m, Prefix(s, n))), table[256 * n + b])
  {
    hide Pack, MatVec, Unit, Prefix, AddVec, XorWords, Unpack;
    PrefixStep(s, n);
    MatVecLinear(m, Prefix(s, n), Unit(n, s[n]));
    PackAdd(MatVec(m, Prefix(s, n)), MatVec(m, Unit(n, s[n])));
    assert IsRow(m, pi, table, n);
  }

  lemma LookupStart(m: Matrix, s: Vec)
    ensures Pack(MatVec(m, Prefix(s, 0))) == Words(0, 0) && Prefix(s, 16) == s
  {
    hide MatVec;
    PrefixStep(s, 0);
    MatVecLinear(m, Zero(), Zero());
  }

  /** apply_fast_LS: sixteen table rows, added word by word, are L of the substituted vector. */
  method ApplyFastLS(ghost m: Matrix, ghost pi: Sbox, table: array<Words>, w: Words) returns (out: Words)
    requires IsTable(m, pi, table[..])
    ensures out == LS(m, pi, w)
  {
    hide Pack, MatVec, Prefix, Unpack, IsTable;
    TableLength(m, pi, table[..]);
    ghost var s := Substitute(pi, Unpack(w));
    LookupStart(m, s);
    var out0, out1 := 0, 0;
    for i := 0 to 16
      invariant Words(out0, out1) == Pack(MatVec(m, Prefix(s, i)))
    {
      var b := Unpack(w)[i] as int;
      LookupStep(m, pi, table[..], s, i, w);
      out0 := XorWord(out0, table[256 * i + b].u0);
      out1 := XorWord(out1, table[256 * i + b].u1);
    }
    out := Words(out0, out1);
  }

  lemma TableLength(m: Matrix, pi: Sbox, table: seq<Words>)
    requires IsTable(m, pi, table)
    ensures |table| == 4096
  {
  }

  // ----- The cipher and the key schedule of RFC 7801 -----

  /** LSX[k](a), section 4.3 */
  function LSX(m: Matrix, pi: Sbox, k: Words, a: Words): Words { LS(m, pi, XorWords(a, k)) }

  /** LSX with the first n keys, in order. */
  function Rounds(m: Matrix, pi: Sbox, keys: seq<Words>, a: Words, n: nat): Words
    requires n <= |keys|
  {
    if n == 0 then a else LSX(m, pi, keys[n - 1], Rounds(m, pi, keys, a, n - 1))
  }

  /** E, section 4.5: X[K10] LSX[K9] ... LSX[K1] */
  function Encrypt(m: Matrix, pi: Sbox, keys: seq<Words>, a: Words): Words
    requires |keys| == 10
  {
    XorWords(Rounds(m, pi, keys, a, 9), keys[9])
  }

  /** C_i, section 4.4 */
  function Constant(m: Matrix, i: nat): Words
    requires i < 256
  {
    Pack(MatVec(m, Unit(0, i as bv8)))
  }

  lemma {:induction false} RowSumFirst(row: Vec, x: bv8, n: nat)
    requires 1 <= n <= 16
    ensures RowSum(row, Unit(0, x), n) == Multiply(row[0], x)
  {
    hide Add, Multiply;
    if n == 1 {
      AddZero(Multiply(row[0], x));
      assert RowSum(row, Unit(0, x), 1) == Add(RowSum(row, Unit(0, x), 0), Multiply(row[0], Unit(0, x)[0]));
    } else {
      RowSumFirst(row, x, n - 1);
      AddZero(Multiply(row[0], x));
      TimesZero(row[n - 1]);
    }
  }

  lemma TimesZero(a: bv8)
    ensures Multiply(a, 0) == 0
  {
  }

  /** Byte k of C_i is the field product of the first entry of row k and i. */
  lemma ConstantBytes(m: Matrix, i: nat, k: nat)
    requires i < 256 && k < 16
    ensures Unpack(Constant(m, i))[k] == Multiply(m[k][0], i as bv8)
  {
    hide RowSum, Multiply, Pack, Unpack, Unit;
    PackUnpack(MatVec(m, Unit(0, i as bv8)), Constant(m, i));
    RowSumFirst(m[k], i as bv8, 16);
  }

  /** F[C_i] ... F[C_1](hi, lo), where F[k](a1, a0) = (LSX[k](a1) + a0, a1). */
  function KeyPair(m: Matrix, pi: Sbox, hi: Words, lo: Words, i: nat): (Words, Words)
    requires i < 256
  {
    if i == 0 then (hi, lo) else
      var p := KeyPair(m, pi, hi, lo, i - 1);
      (XorWords(p.1, LSX(m, pi, Constant(m, i), p.0)), p.0)
  }

  /** K_1 and K_2 are the halves of the key; every eight Feistel rounds give the next two. */
  predicate IsSchedule(m: Matrix, pi: Sbox, hi: Words, lo: Words, rk: seq<Words>, pairs: nat)
    requires |rk| == 10 && pairs <= 5
  {
    forall j | 0 <= j < pairs ::
      rk[2 * j] == KeyPair(m, pi, hi, lo, 8 * j).0 && rk[2 * j + 1] == KeyPair(m, pi, hi, lo, 8 * j).1
  }

  lemma ScheduleStep(m: Matrix, pi: Sbox, hi: Words, lo: Words, before: seq<Words>, after: seq<Words>, j: nat)
    requires |before| == |after| == 10 && j < 5 && IsSchedule(m, pi, hi, lo, before, j)
    requires after == before[2 * j := KeyPair(m, pi, hi, lo, 8 * j).0][2 * j + 1 := KeyPair(m, pi, hi, lo, 8 * j).1]
    ensures IsSchedule(m, pi, hi, lo, after, j + 1)
  {
    hide KeyPair;
  }

  lemma NoSchedule(m: Matrix, pi: Sbox, hi: Words, lo: Words, rk: seq<Words>)
    requires |rk| == 10
    ensures IsSchedule(m, pi, hi, lo, rk, 0)
  {
  }

  method StorePair(rk: array<Words>, n: nat, k1: Words, k2: Words)
    requires n + 1 < rk.Length
    modifies rk
    ensures rk[..] == old(rk[..])[n := k1][n + 1 := k2]
  {
    rk[n] := k1;
    rk[n + 1] := k2;
  }

  /** apply_L on the vector whose byte 0 is the round number */
  method RoundConstant(m: Matrix, i: nat) returns (c: Words)
    requires i < 256
    ensures c == Constant(m, i)
  {
    hide MatVec, Pack, Unit;
    var product := new bv8[16];
    MulMatVec(product, m, Unit(0, i as bv8));
    c := Pack(product[..]);
  }

  /** One Feistel round of the schedule: tmp = k1 + C_i, k2 += LS(tmp), then the halves change places. */
  method ScheduleRound(m: Matrix, ghost pi: Sbox, table: array<Words>, i: nat, k1: Words, k2: Words)
    returns (n1: Words, n2: Words)
    requires IsTable(m, pi, table[..]) && i < 256
    ensures (n1, n2) == (XorWords(k2, LSX(m, pi, Constant(m, i), k1)), k1)
  {
    hide LS, XorWords, Constant, IsTable;
    var c := RoundConstant(m, i);
    var f := ApplyFastLS(m, pi, table, XorWords(k1, c));
    n1, n2 := XorWords(k2, f), k1;
  }

  /** KuznState_expand_key: 33 rounds, the last of which is not used. */
  method ExpandKey(m: Matrix, ghost pi: Sbox, table: array<Words>, rk: array<Words>, hi: Words, lo: Words)
    requires IsTable(m, pi, table[..]) && rk.Length == 10 && rk != table
    modifies rk
    ensures IsSchedule(m, pi, hi, lo, rk[..], 5)
  {
    hide LSX, IsTable, XorWords, IsSchedule, Constant;
    var k1, k2, n := hi, lo, 0;
    NoSchedule(m, pi, hi, lo, rk[..]);
    for i := 1 to 34
      invariant IsTable(m, pi, table[..])
      invariant n == 2 * ((i + 6) / 8)
      invariant (k1, k2) == KeyPair(m, pi, hi, lo, i - 1)
      invariant IsSchedule(m, pi, hi, lo, rk[..], n / 2)
    {
      if (i - 1) % 8 == 0 {
        ghost var before := rk[..];
        StorePair(rk, n, k1, k2);
        ScheduleStep(m, pi, hi, lo, before, rk[..], n / 2);
        n := n + 2;
      }
      k1, k2 := ScheduleRound(m, pi, table, i, k1, k2);
    }
  }

  // ----- The generator -----

  class KuznState {
    ghost const m: Matrix
    ghost const pi: Sbox
    const table: array<Words>
    const rk: array<Words>
    var ctr: Words
    var out: Words
    var pos: int

    /** A buffered block is the cipher of the counter before the present one. */
    ghost predicate Valid()
      reads this, table, rk
    {
      && rk.Length == 10 && rk != table && IsTable(m, pi, table[..])
      && 0 <= pos <= 2
      && (pos < 2 ==> out == Encrypt(m, pi, rk[..], Words(Previous64(ctr.u0), ctr.u1)))
    }

    /** KuznState_init, after KuznState_make_table_LS */
    constructor (m: Matrix, pi: Sbox, hi: Words, lo: Words)
      ensures Valid() && this.m == m && this.pi == pi && fresh(table) && fresh(rk)
      ensures IsSchedule(m, pi, hi, lo, rk[..], 5) && ctr == out == Words(0, 0) && pos == 2
    {
      hide IsTable, IsSchedule;
      this.m := m;
      this.pi := pi;
      var filled := MakeTable(m, pi);
      table := filled;
      var keys := new Words[10];
      rk := keys;
      ctr := Words(0, 0);
      out := Words(0, 0);
      pos := 2;
      ExpandKey(m, pi, filled, keys, hi, lo);
    }

    /** KuznState_block */
    method Block()
      requires rk.Length == 10 && IsTable(m, pi, table[..])
      modifies this`out
      ensures out == Encrypt(m, pi, rk[..], ctr)
    {
      hide LS, IsTable, XorWords;
      out := ctr;
      for i := 0 to 9
        invariant IsTable(m, pi, table[..])
        invariant out == Rounds(m, pi, rk[..], ctr, i)
      {
        out := XorWords(out, rk[i]);
        out := ApplyFastLS(m, pi, table, out);
      }
      out := XorWords(out, rk[9]);
    }

    /** get_bits_raw: a new block of the low counter word after every two words. */
    method Next() returns (y: bv64)
      requires Valid()
      modifies this
      ensures Valid() && pos == old(pos) % 2 + 1
      ensures ctr == if old(pos) == 2 then Words(Next64(old(ctr.u0)), old(ctr.u1)) else old(ctr)
      ensures var block := Encrypt(m, pi, rk[..], Words(Previous64(ctr.u0), ctr.u1));
              y == if pos == 1 then block.u0 else block.u1
    {
      hide IsTable, Encrypt, Next64, Previous64;
      if pos >= 2 {
        NextPrevious(ctr.u0);
        Block();
        ctr := Words(Next64(ctr.u0), ctr.u1);
        pos := 0;
      }
      y := if pos == 0 then out.u0 else out.u1;
      pos := pos + 1;
    }
  }

  // ----- Different counters give different blocks -----

  ghost predicate Injective(pi: Sbox) { forall x: bv8, y: bv8 :: At(pi, x) == At(pi, y) ==> x == y }

  ghost predicate Nonsingular(m: Matrix) {
    forall v: Vec, w: Vec :: MatVec(m, v) == MatVec(m, w) ==> v == w
  }

  lemma SubstituteInjective(pi: Sbox, v: Vec, w: Vec)
    requires Injective(pi) && Substitute(pi, v) == Substitute(pi, w)
    ensures v == w
  {
    forall i | 0 <= i < 16
      ensures v[i] == w[i]
    {
      assert Substitute(pi, v)[i] == Substitute(pi, w)[i];
    }
  }

  lemma XorWordsInjective(a: Words, b: Words, k: Words)
    requires XorWords(a, k) == XorWords(b, k)
    ensures a == b
  {
    XorWordTwice(a.u0, k.u0);
    XorWordTwice(b.u0, k.u0);
    XorWordTwice(a.u1, k.u1);
    XorWordTwice(b.u1, k.u1);
  }

  lemma XorWordTwice(u: bv64, k: bv64)
    ensures XorWord(XorWord(u, k), k) == u
  {
  }

  lemma LSXInjective(m: Matrix, pi: Sbox, k: Words, a: Words, b: Words)
    requires Injective(pi) && Nonsingular(m) && LSX(m, pi, k, a) == LSX(m, pi, k, b)
    ensures a == b
  {
    hide Pack, Unpack, MatVec, Substitute, Injective, XorWords;
    var v, w := Unpack(XorWords(a, k)), Unpack(XorWords(b, k));
    PackUnpack(MatVec(m, Substitute(pi, v)), XorWords(a, k));
    PackUnpack(MatVec(m, Substitute(pi, w)), XorWords(b, k));
    SubstituteInjective(pi, v, w);
    XorWordsInjective(a, b, k);
  }

  lemma {:induction false} RoundsInjective(m: Matrix, pi: Sbox, keys: seq<Words>, a: Words, b: Words, n: nat)
    requires Injective(pi) && Nonsingular(m) && n <= |keys|
    requires Rounds(m, pi, keys, a, n) == Rounds(m, pi, keys, b, n)
    ensures a == b
  {
    hide LSX, Injective, Nonsingular;
    if n > 0 {
      LSXInjective(m, pi, keys[n - 1], Rounds(m, pi, keys, a, n - 1), Rounds(m, pi, keys, b, n - 1));
      RoundsInjective(m, pi, keys, a, b, n - 1);
    }
  }

  /** With a bijective substitution and a nonsingular matrix, no two counters share a block. */
  lemma EncryptInjective(m: Matrix, pi: Sbox, keys: seq<Words>, a: Words, b: Words)
    requires |keys| == 10 && Injective(pi) && Nonsingular(m)
    requires Encrypt(m, pi, keys, a) == Encrypt(m, pi, keys, b)
    ensures a == b
  {
    hide XorWords, Rounds, Injective, Nonsingular;
    XorWordsInjective(Rounds(m, pi, keys, a, 9), Rounds(m, pi, keys, b, 9), keys[9]);
    RoundsInjective(m, pi, keys, a, b, 9);
  }
}
