/** ChaCha (generators/chacha.c): the scalar block function, the row-vector version, the version with
    four interleaved blocks, and the streams they produce.  Section numbers refer to RFC 7539. */
module ChaCha {

  // ----- The cipher as specified -----

  type Words = s: seq<bv32> | |s| == 16 witness seq(16, i => 0)

  function Rotl(x: bv32, r: bv6): bv32
    requires 0 < r < 32
  {
    (x << r) | (x >> (32 - r))
  }

  datatype Quad = Quad(a: bv32, b: bv32, c: bv32, d: bv32)

  function Plus(x: bv32, y: bv32): bv32 { x + y }

  function Xor(x: bv32, y: bv32): bv32 { x ^ y }

  function XorRot(x: bv32, y: bv32, r: bv6): bv32
    requires 0 < r < 32
  {
    Rotl(Xor(x, y), r)
  }

  /** The quarter round (section 2.1). */
  function Quarter(q: Quad): Quad {
    var a := Plus(q.a, q.b); var d := XorRot(q.d, a, 16);
    var c := Plus(q.c, d); var b := XorRot(q.b, c, 12);
    var a := Plus(a, b); var d := XorRot(d, a, 8);
    var c := Plus(c, d); var b := XorRot(b, c, 7);
    Quad(a, b, c, d)
  }

  /** The example of section 2.1.1 */
  lemma QuarterExample()
    ensures Quarter(Quad(0x11111111, 0x01020304, 0x9b8d6f43, 0x01234567))
            == Quad(0xea2a92f4, 0xcb1cf8ce, 0x4581472e, 0x5881c4bb)
  {
  }

  /** The quarter round on four words of the state (section 2.2). */
  function QRound(s: Words, i: nat, j: nat, k: nat, l: nat): Words
    requires i < 16 && j < 16 && k < 16 && l < 16
  {
    var q := Quarter(Quad(s[i], s[j], s[k], s[l]));
    s[i := q.a][j := q.b][k := q.c][l := q.d]
  }

  /** Four column rounds and four diagonal rounds (section 2.3). */
  function ColumnRounds(s: Words): Words {
    QRound(QRound(QRound(QRound(s, 0, 4, 8, 12), 1, 5, 9, 13), 2, 6, 10, 14), 3, 7, 11, 15)
  }

  function DiagonalRounds(s: Words): Words {
    QRound(QRound(QRound(QRound(s, 0, 5, 10, 15), 1, 6, 11, 12), 2, 7, 8, 13), 3, 4, 9, 14)
  }

  function Rounds(s: Words, cycles: nat): Words {
    if cycles == 0 then s else DiagonalRounds(ColumnRounds(Rounds(s, cycles - 1)))
  }

  function AddWords(s: Words, t: Words): Words {
    seq(16, i requires 0 <= i < 16 => Plus(s[i], t[i]))
  }

  function BlockOf(x: Words, cycles: nat): Words {
    AddWords(Rounds(x, cycles), x)
  }

  /** The 64-bit block counter after k blocks. */
  function Counter(k: nat): bv64 {
    if k == 0 then 0 else Counter(k - 1) + 1
  }

  function Lo(c: bv64): bv32 { (c & 0xFFFFFFFF) as bv32 }

  function Hi(c: bv64): bv32 { (c >> 32) as bv32 }

  type Key = s: seq<bv32> | |s| == 8 witness seq(8, i => 0)

  const CONSTANTS: seq<bv32> := [0x61707865, 0x3320646e, 0x79622d32, 0x6b206574]

  /** The bytes of the constants, lowest first, spell their name. */
  lemma ConstantsSpell(i: nat)
    requires i < 4
    ensures var s := "expand 32-byte k"[4 * i..4 * i + 4];
            CONSTANTS[i] as int
            == s[0] as int + 0x100 * (s[1] as int + 0x100 * (s[2] as int + 0x100 * s[3] as int))
  {
  }

  /** Constants, key, counter and a zero nonce. */
  function Input(key: Key, counter: bv64): Words {
    CONSTANTS + key + [Lo(counter), Hi(counter), 0, 0]
  }

  /** Word n of the key stream. */
  function Stream(key: Key, cycles: nat, n: nat): bv32 {
    BlockOf(Input(key, Counter(n / 16)), cycles)[n % 16]
  }

  // ----- Rounds on row vectors -----

  /** Four lanes of 32 bits. */
  datatype Row = Row(w0: bv32, w1: bv32, w2: bv32, w3: bv32)

  datatype Rows = Rows(a: Row, b: Row, c: Row, d: Row)

  function At(r: Row, k: nat): bv32
    requires k < 4
  {
    if k == 0 then r.w0 else if k == 1 then r.w1 else if k == 2 then r.w2 else r.w3
  }

  function RowAt(v: Rows, k: nat): Row
    requires k < 4
  {
    if k == 0 then v.a else if k == 1 then v.b else if k == 2 then v.c else v.d
  }

  function Word(v: Rows, k: nat): bv32
    requires k < 16
  {
    At(RowAt(v, k / 4), k % 4)
  }

  function Flat(v: Rows): Words {
    seq(16, k requires 0 <= k < 16 => Word(v, k))
  }

  function Load(s: seq<bv32>, i: nat): Row
    requires i + 4 <= |s|
  {
    Row(s[i], s[i + 1], s[i + 2], s[i + 3])
  }

  function LoadRows(s: Words): Rows {
    Rows(Load(s, 0), Load(s, 4), Load(s, 8), Load(s, 12))
  }

  function Lane(v: Rows, i: nat): Quad
    requires i < 4
  {
    Quad(At(v.a, i), At(v.b, i), At(v.c, i), At(v.d, i))
  }

  function Lanes(p: Quad, q: Quad, r: Quad, s: Quad): Rows {
    Rows(Row(p.a, q.a, r.a, s.a), Row(p.b, q.b, r.b, s.b), Row(p.c, q.c, r.c, s.c), Row(p.d, q.d, r.d, s.d))
  }

  function Add4(x: Row, y: Row): Row {
    Row(Plus(x.w0, y.w0), Plus(x.w1, y.w1), Plus(x.w2, y.w2), Plus(x.w3, y.w3))
  }

  function Xor4(x: Row, y: Row): Row {
    Row(Xor(x.w0, y.w0), Xor(x.w1, y.w1), Xor(x.w2, y.w2), Xor(x.w3, y.w3))
  }

  function Rot4(x: Row, r: bv6): Row
    requires 0 < r < 32
  {
    Row(Rotl(x.w0, r), Rotl(x.w1, r), Rotl(x.w2, r), Rotl(x.w3, r))
  }

  function XorRot4(x: Row, y: Row, r: bv6): Row
    requires 0 < r < 32
  {
    Row(XorRot(x.w0, y.w0, r), XorRot(x.w1, y.w1, r), XorRot(x.w2, y.w2, r), XorRot(x.w3, y.w3, r))
  }

  /** A byte shuffle of one lane: byte k of the result is byte i_k of the lane. */
  function Bytes(x: bv32, i0: bv6, i1: bv6, i2: bv6, i3: bv6): bv32
    requires i0 < 4 && i1 < 4 && i2 < 4 && i3 < 4
  {
    ((x >> (8 * i0)) & 0xFF) | (((x >> (8 * i1)) & 0xFF) << 8)
    | (((x >> (8 * i2)) & 0xFF) << 16) | (((x >> (8 * i3)) & 0xFF) << 24)
  }

  function Shuffle16(x: Row): Row {
    Row(Bytes(x.w0, 2, 3, 0, 1), Bytes(x.w1, 2, 3, 0, 1), Bytes(x.w2, 2, 3, 0, 1), Bytes(x.w3, 2, 3, 0, 1))
  }

  function Shuffle8(x: Row): Row {
    Row(Bytes(x.w0, 3, 0, 1, 2), Bytes(x.w1, 3, 0, 1, 2), Bytes(x.w2, 3, 0, 1, 2), Bytes(x.w3, 3, 0, 1, 2))
  }

  /** The two rotations done by byte shuffles. */
  lemma ShufflesRotate(x: bv32)
    ensures Bytes(x, 2, 3, 0, 1) == Rotl(x, 16) && Bytes(x, 3, 0, 1, 2) == Rotl(x, 8)
  {
  }

  /** qround_avx */
  function VerticalRound(v: Rows): Rows {
    var a := Add4(v.a, v.b); var d := Shuffle16(Xor4(v.d, a));
    var c := Add4(v.c, d); var b := Rot4(Xor4(v.b, c), 12);
    var a := Add4(a, b); var d := Shuffle8(Xor4(d, a));
    var c := Add4(c, d); var b := Rot4(Xor4(b, c), 7);
    Rows(a, b, c, d)
  }

  /** The shuffles 0x39, 0x4E and 0x93 of a row: one, two and three places to the left. */
  function Left1(r: Row): Row { Row(r.w1, r.w2, r.w3, r.w0) }

  function Left2(r: Row): Row { Row(r.w2, r.w3, r.w0, r.w1) }

  function Left3(r: Row): Row { Row(r.w3, r.w0, r.w1, r.w2) }

  function Skew(v: Rows): Rows { Rows(v.a, Left1(v.b), Left2(v.c), Left3(v.d)) }

  function Unskew(v: Rows): Rows { Rows(v.a, Left3(v.b), Left2(v.c), Left1(v.d)) }

  /** The body of the loop: a vertical round, rotated rows, a vertical round, rows rotated back. */
  function VectorCycle(v: Rows): Rows {
    var v := VerticalRound(v);
    Unskew(VerticalRound(Skew(v)))
  }

  lemma RowRotations(x: Row, y: Row)
    ensures Shuffle16(Xor4(x, y)) == XorRot4(x, y, 16) && Shuffle8(Xor4(x, y)) == XorRot4(x, y, 8)
    ensures Rot4(Xor4(x, y), 12) == XorRot4(x, y, 12) && Rot4(Xor4(x, y), 7) == XorRot4(x, y, 7)
  {
    hide Rotl, Bytes, Xor;
    ShufflesRotate(Xor(x.w0, y.w0));
    ShufflesRotate(Xor(x.w1, y.w1));
    ShufflesRotate(Xor(x.w2, y.w2));
    ShufflesRotate(Xor(x.w3, y.w3));
  }

  lemma VerticalIsQuarters(v: Rows)
    ensures VerticalRound(v)
            == Lanes(Quarter(Lane(v, 0)), Quarter(Lane(v, 1)), Quarter(Lane(v, 2)), Quarter(Lane(v, 3)))
  {
    hide Rotl, Bytes, Plus, XorRot, Shuffle16, Shuffle8, Rot4, Xor4;
    RowRotations(v.d, Add4(v.a, v.b));
    var a, d := Add4(v.a, v.b), XorRot4(v.d, Add4(v.a, v.b), 16);
    RowRotations(v.b, Add4(v.c, d));
    var c, b := Add4(v.c, d), XorRot4(v.b, Add4(v.c, d), 12);
    RowRotations(d, Add4(a, b));
    RowRotations(b, Add4(c, XorRot4(d, Add4(a, b), 8)));
  }

  function PutRow(r: Row, k: nat, x: bv32): Row
    requires k < 4
  {
    if k == 0 then r.(w0 := x) else if k == 1 then r.(w1 := x) else if k == 2 then r.(w2 := x) else r.(w3 := x)
  }

  /** Updating one of the flat words is updating one row. */
  lemma PutIsUpdate(v: Rows, i: nat, x: bv32)
    requires i < 4
    ensures Flat(v.(a := PutRow(v.a, i, x))) == Flat(v)[i := x]
    ensures Flat(v.(b := PutRow(v.b, i, x))) == Flat(v)[4 + i := x]
    ensures Flat(v.(c := PutRow(v.c, i, x))) == Flat(v)[8 + i := x]
    ensures Flat(v.(d := PutRow(v.d, i, x))) == Flat(v)[12 + i := x]
  {
    hide PutRow, At;
    forall k: nat | k < 4
      ensures At(PutRow(v.a, i, x), k) == if k == i then x else At(v.a, k)
      ensures At(PutRow(v.b, i, x), k) == if k == i then x else At(v.b, k)
      ensures At(PutRow(v.c, i, x), k) == if k == i then x else At(v.c, k)
      ensures At(PutRow(v.d, i, x), k) == if k == i then x else At(v.d, k)
    {
      PutThenAt(v.a, i, k, x);
      PutThenAt(v.b, i, k, x);
      PutThenAt(v.c, i, k, x);
      PutThenAt(v.d, i, k, x);
    }
  }

  lemma PutThenAt(r: Row, i: nat, k: nat, x: bv32)
    requires i < 4 && k < 4
    ensures At(PutRow(r, i, x), k) == if k == i then x else At(r, k)
  {
  }

  /** A quarter round with one word in each row. */
  lemma QRoundRows(v: Rows, i: nat, j: nat, k: nat, l: nat)
    requires i < 4 && j < 4 && k < 4 && l < 4
    ensures var q := Quarter(Quad(At(v.a, i), At(v.b, j), At(v.c, k), At(v.d, l)));
            QRound(Flat(v), i, 4 + j, 8 + k, 12 + l)
            == Flat(Rows(PutRow(v.a, i, q.a), PutRow(v.b, j, q.b), PutRow(v.c, k, q.c), PutRow(v.d, l, q.d)))
  {
    hide Quarter, PutRow, Flat;
    FlatWords(v, i, j, k, l);
    var q := Quarter(Quad(At(v.a, i), At(v.b, j), At(v.c, k), At(v.d, l)));
    PutIsUpdate(v, i, q.a);
    var v1 := v.(a := PutRow(v.a, i, q.a));
    PutIsUpdate(v1, j, q.b);
    var v2 := v1.(b := PutRow(v.b, j, q.b));
    PutIsUpdate(v2, k, q.c);
    PutIsUpdate(v2.(c := PutRow(v.c, k, q.c)), l, q.d);
  }

  lemma FlatWords(v: Rows, i: nat, j: nat, k: nat, l: nat)
    requires i < 4 && j < 4 && k < 4 && l < 4
    ensures Flat(v)[i] == At(v.a, i) && Flat(v)[4 + j] == At(v.b, j)
    ensures Flat(v)[8 + k] == At(v.c, k) && Flat(v)[12 + l] == At(v.d, l)
  {
    hide At;
  }

  function SetLane(v: Rows, i: nat, q: Quad): Rows
    requires i < 4
  {
    Rows(PutRow(v.a, i, q.a), PutRow(v.b, i, q.b), PutRow(v.c, i, q.c), PutRow(v.d, i, q.d))
  }

  /** Lane k places on, cyclically. */
  function Turn(i: nat, k: nat): nat
    requires i < 4 && k < 4
  {
    if i + k < 4 then i + k else i + k - 4
  }

  /** Reading and writing through a rotation of the row. */
  lemma RotatedPut(r: Row, i: nat, x: bv32)
    requires i < 4
    ensures Left3(PutRow(r, i, x)) == PutRow(Left3(r), Turn(i, 1), x) && At(Left3(r), Turn(i, 1)) == At(r, i)
    ensures Left2(PutRow(r, i, x)) == PutRow(Left2(r), Turn(i, 2), x) && At(Left2(r), Turn(i, 2)) == At(r, i)
    ensures Left1(PutRow(r, i, x)) == PutRow(Left1(r), Turn(i, 3), x) && At(Left1(r), Turn(i, 3)) == At(r, i)
  {
    match i case 0 => case 1 => case 2 => case 3 =>
  }

  /** A column quarter round touches one lane. */
  lemma ColumnIsLane(v: Rows, i: nat)
    requires i < 4
    ensures QRound(Flat(v), i, 4 + i, 8 + i, 12 + i) == Flat(SetLane(v, i, Quarter(Lane(v, i))))
  {
    hide Quarter, QRound, PutRow, At, Flat;
    QRoundRows(v, i, i, i, i);
  }

  /** A diagonal quarter round touches one lane of the skewed rows. */
  lemma DiagonalIsLane(v: Rows, i: nat)
    requires i < 4
    ensures QRound(Flat(Unskew(v)), i, 4 + Turn(i, 1), 8 + Turn(i, 2), 12 + Turn(i, 3))
            == Flat(Unskew(SetLane(v, i, Quarter(Lane(v, i)))))
  {
    hide Quarter, QRound, PutRow, At, Left1, Left2, Left3, Flat;
    var q := Quarter(Lane(v, i));
    RotatedPut(v.b, i, q.b);
    RotatedPut(v.c, i, q.c);
    RotatedPut(v.d, i, q.d);
    QRoundRows(Unskew(v), i, Turn(i, 1), Turn(i, 2), Turn(i, 3));
  }

  function AllLanes(v: Rows): Rows {
    Lanes(Quarter(Lane(v, 0)), Quarter(Lane(v, 1)), Quarter(Lane(v, 2)), Quarter(Lane(v, 3)))
  }

  lemma ColumnsAreLanes(v: Rows)
    ensures ColumnRounds(Flat(v)) == Flat(AllLanes(v))
  {
    hide Quarter, QRound, Flat;
    ColumnIsLane(v, 0);
    var v1 := SetLane(v, 0, Quarter(Lane(v, 0)));
    ColumnIsLane(v1, 1);
    var v2 := SetLane(v1, 1, Quarter(Lane(v1, 1)));
    ColumnIsLane(v2, 2);
    ColumnIsLane(SetLane(v2, 2, Quarter(Lane(v2, 2))), 3);
  }

  lemma DiagonalsAreLanes(v: Rows)
    ensures DiagonalRounds(Flat(Unskew(v))) == Flat(Unskew(AllLanes(v)))
  {
    hide Quarter, QRound, Flat, Unskew;
    DiagonalIsLane(v, 0);
    var v1 := SetLane(v, 0, Quarter(Lane(v, 0)));
    DiagonalIsLane(v1, 1);
    var v2 := SetLane(v1, 1, Quarter(Lane(v1, 1)));
    DiagonalIsLane(v2, 2);
    DiagonalIsLane(SetLane(v2, 2, Quarter(Lane(v2, 2))), 3);
  }

  /** Rotating the rows around a vertical round makes it the diagonal round. */
  lemma CycleIsDoubleRound(v: Rows)
    ensures Flat(VectorCycle(v)) == DiagonalRounds(ColumnRounds(Flat(v)))
  {
    hide VerticalRound, ColumnRounds, DiagonalRounds, AllLanes, Flat;
    AllLanesIsVertical(v);
    ColumnsAreLanes(v);
    var u := VerticalRound(v);
    assert Unskew(Skew(u)) == u;
    AllLanesIsVertical(Skew(u));
    DiagonalsAreLanes(Skew(u));
  }

  lemma AllLanesIsVertical(v: Rows)
    ensures VerticalRound(v) == AllLanes(v)
  {
    hide VerticalRound, Quarter, Lane;
    VerticalIsQuarters(v);
  }

  function VectorRounds(v: Rows, cycles: nat): Rows {
    if cycles == 0 then v else VectorCycle(VectorRounds(v, cycles - 1))
  }

  lemma {:induction false} VectorRoundsAreRounds(v: Rows, cycles: nat)
    ensures Flat(VectorRounds(v, cycles)) == Rounds(Flat(v), cycles)
  {
    hide VectorCycle, ColumnRounds, DiagonalRounds, Flat;
    if cycles > 0 {
      VectorRoundsAreRounds(v, cycles - 1);
      CycleIsDoubleRound(VectorRounds(v, cycles - 1));
    }
  }

  function AddRows(v: Rows, u: Rows): Rows {
    Rows(Add4(v.a, u.a), Add4(v.b, u.b), Add4(v.c, u.c), Add4(v.d, u.d))
  }

  lemma AtAdd4(x: Row, y: Row, k: nat)
    requires k < 4
    ensures At(Add4(x, y), k) == Plus(At(x, k), At(y, k))
  {
    hide Plus;
  }

  lemma AddRowsAddsWords(v: Rows, u: Rows)
    ensures Flat(AddRows(v, u)) == AddWords(Flat(v), Flat(u))
  {
    hide Plus, Add4, At;
    forall k | 0 <= k < 16
      ensures Flat(AddRows(v, u))[k] == AddWords(Flat(v), Flat(u))[k]
    {
      AtAdd4(RowAt(v, k / 4), RowAt(u, k / 4), k % 4);
    }
  }

  lemma AtLoad(s: Words, i: nat, k: nat)
    requires i + 4 <= 16 && k < 4
    ensures At(Load(s, i), k) == s[i + k]
  {
  }

  lemma LoadIsFlat(s: Words)
    ensures Flat(LoadRows(s)) == s
  {
    hide At, Load;
    forall k | 0 <= k < 16
      ensures Flat(LoadRows(s))[k] == s[k]
    {
      AtLoad(s, 4 * (k / 4), k % 4);
    }
  }

  /** The vector code computes the block function of the words it loaded. */
  lemma VectorBlock(s: Words, cycles: nat)
    ensures var v := LoadRows(s); Flat(AddRows(VectorRounds(v, cycles), v)) == BlockOf(s, cycles)
  {
    hide VectorRounds, Rounds, AddRows, AddWords, LoadRows, Flat;
    var v := LoadRows(s);
    LoadIsFlat(s);
    VectorRoundsAreRounds(v, cycles);
    AddRowsAddsWords(VectorRounds(v, cycles), v);
  }

  // ----- Counters -----

  lemma CounterWords(c: bv64)
    ensures (Lo(c) as bv64) + ((Hi(c) as bv64) << 32) == c
    ensures Lo(c + 1) == Lo(c) + 1 && Hi(c + 1) == if Lo(c) + 1 == 0 then Hi(c) + 1 else Hi(c)
  {
  }

  lemma CounterAfter(k: nat)
    ensures Counter(k + 1) == Counter(k) + 1
  {
  }

  /** Incrementing the two counter words, the high one only on wrap-around. */
  lemma InputNext(key: Key, c: bv64)
    ensures var s := Input(key, c);
            var lo := Plus(s[12], 1);
            Input(key, c + 1) == s[12 := lo][13 := if lo == 0 then Plus(s[13], 1) else s[13]]
  {
    CounterWords(c);
    hide Lo, Hi;
    assert Input(key, c)[12] == Lo(c) && Input(key, c)[13] == Hi(c);
  }

  lemma StreamAt(key: Key, cycles: nat, block: nat, pos: nat)
    requires pos < 16
    ensures Stream(key, cycles, 16 * block + pos) == BlockOf(Input(key, Counter(block)), cycles)[pos]
  {
    hide BlockOf, Input, Counter;
  }

  // ----- One block at a time -----

  class ChaChaState {
    const x: array<bv32>
    const out: array<bv32>
    const ncycles: nat
    var pos: nat
    ghost const key: Key
    ghost var block: nat

    /** Number of words delivered so far. */
    ghost function Delivered(): nat
      reads this
    {
      16 * block + pos
    }

    ghost predicate Shape() {
      x.Length == 16 == out.Length && x != out
    }

    ghost predicate Valid()
      reads this, x, out
    {
      && Shape() && pos <= 16
      && x[..] == Input(key, Counter(block)) && out[..] == BlockOf(x[..], ncycles)
    }

    method AddTo(i: nat, j: nat)
      requires Shape() && i < 16 && j < 16
      modifies out
      ensures out[..] == old(out[..])[i := Plus(old(out[i]), old(out[j]))]
    {
      out[i] := out[i] + out[j];
    }

    method XorAndRotate(i: nat, j: nat, r: bv6)
      requires Shape() && i < 16 && j < 16 && 0 < r < 32
      modifies out
      ensures out[..] == old(out[..])[i := XorRot(old(out[i]), old(out[j]), r)]
    {
      hide Rotl;
      out[i] := Rotl(out[i] ^ out[j], r);
    }

    /** qround: four words of the output updated in place. */
    method QRoundInPlace(i: nat, j: nat, k: nat, l: nat)
      requires Shape() && i < 4 <= j < 8 <= k < 12 <= l < 16
      modifies out
      ensures out[..] == QRound(old(out[..]), i, j, k, l)
    {
      hide Plus, XorRot;
      AddTo(i, j); XorAndRotate(l, i, 16);
      AddTo(k, l); XorAndRotate(j, k, 12);
      AddTo(i, j); XorAndRotate(l, i, 8);
      AddTo(k, l); XorAndRotate(j, k, 7);
    }

    method DoubleRound()
      requires Shape()
      modifies out
      ensures out[..] == DiagonalRounds(ColumnRounds(old(out[..])))
    {
      hide QRound;
      QRoundInPlace(0, 4, 8, 12);
      QRoundInPlace(1, 5, 9, 13);
      QRoundInPlace(2, 6, 10, 14);
      QRoundInPlace(3, 7, 11, 15);
      QRoundInPlace(0, 5, 10, 15);
      QRoundInPlace(1, 6, 11, 12);
      QRoundInPlace(2, 7, 8, 13);
      QRoundInPlace(3, 4, 9, 14);
    }

    method AddInput()
      requires Shape()
      modifies out
      ensures out[..] == AddWords(old(out[..]), x[..])
    {
      hide Plus;
      var i := 0;
      while i < 16
        invariant 0 <= i <= 16
        invariant forall k | 0 <= k < 16 :: out[k] == if k < i then Plus(old(out[k]), x[k]) else old(out[k])
      {
        AddWord(i);
        i := i + 1;
      }
    }

    method AddWord(i: nat)
      requires Shape() && i < 16
      modifies out
      ensures out[..] == old(out[..])[i := Plus(old(out[i]), x[i])]
    {
      hide Plus;
      out[i] := Plus(out[i], x[i]);
    }

    method BlockC99()
      requires Shape()
      modifies out
      ensures out[..] == BlockOf(x[..], ncycles)
    {
      hide ColumnRounds, DiagonalRounds, AddWords;
      forall k | 0 <= k < 16 {
        out[k] := x[k];
      }
      assert out[..] == x[..];
      var n := 0;
      while n < ncycles
        invariant 0 <= n <= ncycles
        invariant out[..] == Rounds(x[..], n)
      {
        DoubleRound();
        n := n + 1;
      }
      AddInput();
    }

    method BlockAvx()
      requires Shape()
      modifies out
      ensures out[..] == BlockOf(x[..], ncycles)
    {
      hide VectorCycle, BlockOf, Word, AddRows;
      ghost var s := x[..];
      VectorBlock(s, ncycles);
      var v0 := LoadRows(x[..]);
      var v, n := v0, 0;
      while n < ncycles
        invariant 0 <= n <= ncycles && v == VectorRounds(v0, n)
      {
        v := VectorCycle(v);
        n := n + 1;
      }
      v := AddRows(v, v0);
      forall k | 0 <= k < 16 {
        out[k] := Word(v, k);
      }
      assert out[..] == Flat(v) && x[..] == s;
    }

    constructor (nrounds: nat, seed: Key)
      ensures Valid() && Delivered() == 0 && key == seed && ncycles == nrounds / 2 && fresh(x) && fresh(out)
    {
      key, ncycles, pos, block := seed, nrounds / 2, 0, 0;
      var input := Input(seed, 0);
      x := new bv32[16](i requires 0 <= i < 16 => input[i]);
      out := new bv32[16];
      new;
      assert x[..] == input;
      BlockC99();
    }

    method IncCounter()
      requires Shape() && x[..] == Input(key, Counter(block))
      modifies x
      ensures x[..] == Input(key, Counter(block + 1))
    {
      hide Input, Counter, Plus;
      InputNext(key, Counter(block));
      CounterAfter(block);
      ghost var s := x[..];
      x[12] := Plus(x[12], 1);
      if x[12] == 0 {
        x[13] := Plus(x[13], 1);
      }
      assert x[..] == s[12 := Plus(s[12], 1)][13 := if Plus(s[12], 1) == 0 then Plus(s[13], 1) else s[13]];
    }

    method NextC99() returns (r: bv32)
      requires Valid()
      modifies `pos, `block, x, out
      ensures Valid() && Delivered() == old(Delivered()) + 1
      ensures r == Stream(key, ncycles, old(Delivered()))
    {
      hide Input, Counter, BlockOf, Stream;
      if pos >= 16 {
        IncCounter();
        block := block + 1;
        BlockC99();
        pos := 0;
      }
      StreamAt(key, ncycles, block, pos);
      r := out[pos];
      pos := pos + 1;
    }

    method NextAvx() returns (r: bv32)
      requires Valid()
      modifies `pos, `block, x, out
      ensures Valid() && Delivered() == old(Delivered()) + 1
      ensures r == Stream(key, ncycles, old(Delivered()))
    {
      hide Input, Counter, BlockOf, Stream;
      if pos >= 16 {
        IncCounter();
        block := block + 1;
        BlockAvx();
        pos := 0;
      }
      StreamAt(key, ncycles, block, pos);
      r := out[pos];
      pos := pos + 1;
    }
  }

  // ----- Four interleaved blocks -----

  type Words64 = s: seq<bv32> | |s| == 64 witness seq(64, i => 0)

  /** Where row `row` of generator g starts: two generators share each pair of 128-bit halves. */
  function Place(g: nat, row: nat): (i: nat)
    requires g < 4 && row < 4
    ensures i + 4 <= 64
  {
    32 * (g / 2) + 8 * row + 4 * (g % 2)
  }

  /** The sixteen words of generator g in the interleaved layout. */
  function Gather(x: Words64, g: nat): Words
    requires g < 4
  {
    x[Place(g, 0)..Place(g, 0) + 4] + x[Place(g, 1)..Place(g, 1) + 4]
    + x[Place(g, 2)..Place(g, 2) + 4] + x[Place(g, 3)..Place(g, 3) + 4]
  }

  function LoadGenerator(x: Words64, g: nat): Rows
    requires g < 4
  {
    Rows(Load(x, Place(g, 0)), Load(x, Place(g, 1)), Load(x, Place(g, 2)), Load(x, Place(g, 3)))
  }

  lemma RowOfGather(x: Words64, g: nat, row: nat)
    requires g < 4 && row < 4
    ensures Load(x, Place(g, row)) == Load(Gather(x, g), 4 * row)
  {
    hide Place;
    var s := Gather(x, g);
    if row == 0 {
      assert s[..4] == x[Place(g, 0)..Place(g, 0) + 4];
    } else if row == 1 {
      assert s[4..8] == x[Place(g, 1)..Place(g, 1) + 4];
    } else if row == 2 {
      assert s[8..12] == x[Place(g, 2)..Place(g, 2) + 4];
    } else {
      assert s[12..] == x[Place(g, 3)..Place(g, 3) + 4];
    }
    SameRow(s[4 * row..4 * row + 4], x[Place(g, row)..Place(g, row) + 4], s, 4 * row, x, Place(g, row));
  }

  lemma SameRow(p: seq<bv32>, q: seq<bv32>, s: seq<bv32>, i: nat, x: seq<bv32>, j: nat)
    requires i + 4 <= |s| && j + 4 <= |x| && p == s[i..i + 4] && q == x[j..j + 4] && p == q
    ensures Load(s, i) == Load(x, j)
  {
    assert p[0] == q[0] && p[1] == q[1] && p[2] == q[2] && p[3] == q[3];
  }

  lemma LoadIsGather(x: Words64, g: nat)
    requires g < 4
    ensures LoadGenerator(x, g) == LoadRows(Gather(x, g))
  {
    hide Load, Gather, Place;
    RowOfGather(x, g, 0);
    RowOfGather(x, g, 1);
    RowOfGather(x, g, 2);
    RowOfGather(x, g, 3);
  }

  /** What the vector code produces for generator g. */
  function GeneratorBlock(x: Words64, g: nat, cycles: nat): Rows
    requires g < 4
  {
    AddRows(VectorRounds(LoadGenerator(x, g), cycles), LoadGenerator(x, g))
  }

  lemma GeneratorBlockIsBlock(x: Words64, g: nat, cycles: nat)
    requires g < 4
    ensures Flat(GeneratorBlock(x, g, cycles)) == BlockOf(Gather(x, g), cycles)
  {
    hide AddRows, VectorRounds, LoadGenerator, LoadRows, Gather, BlockOf, Flat;
    LoadIsGather(x, g);
    VectorBlock(Gather(x, g), cycles);
  }

  /** The 256-bit registers hold the rows of two generators, and every operation on them works on
      the two 128-bit halves separately. */
  datatype Wide = Wide(lo: Rows, hi: Rows)

  function WideCycle(w: Wide): Wide { Wide(VectorCycle(w.lo), VectorCycle(w.hi)) }

  function WideRounds(w: Wide, n: nat): Wide { Wide(VectorRounds(w.lo, n), VectorRounds(w.hi, n)) }

  class ChaChaVecState {
    const x: array<bv32>
    const out: array<bv32>
    const ncycles: nat
    var pos: nat
    ghost const key: Key
    ghost var round: nat

    ghost function Delivered(): nat
      reads this
    {
      64 * round + pos
    }

    ghost predicate Shape() {
      x.Length == 64 == out.Length && x != out
    }

    /** Generator g is at block 4 * round + g. */
    ghost predicate Loaded(k: nat)
      reads x
    {
      Shape() && forall g | 0 <= g < 4 :: Gather(x[..], g) == Input(key, Counter(4 * k + g))
    }

    /** The output holds the four blocks one after the other. */
    ghost predicate Computed()
      reads x, out
    {
      Shape() && forall g | 0 <= g < 4 :: out[16 * g..16 * g + 16] == BlockOf(Gather(x[..], g), ncycles)
    }

    ghost predicate Valid()
      reads this, x, out
    {
      pos <= 64 && Loaded(round) && Computed()
    }

    /** Stores the sixteen words of one generator. */
    method Store(g: nat, v: Rows)
      requires Shape() && g < 4
      modifies out
      ensures out[..] == old(out[..16 * g]) + Flat(v) + old(out[16 * g + 16..])
    {
      hide Word;
      forall k | 0 <= k < 16 {
        out[16 * g + k] := Word(v, k);
      }
    }

    method StoreAll(v0: Rows, v1: Rows, v2: Rows, v3: Rows)
      requires Shape()
      modifies out
      ensures out[..16] == Flat(v0) && out[16..32] == Flat(v1) && out[32..48] == Flat(v2) && out[48..64] == Flat(v3)
    {
      hide Flat;
      Store(0, v0);
      Store(1, v1);
      Store(2, v2);
      Store(3, v3);
    }

    method Block()
      requires Shape()
      modifies out
      ensures Computed()
    {
      hide VectorCycle, BlockOf, Gather, LoadGenerator, AddRows, Flat;
      ghost var s := x[..];
      var w0, u0 := Wide(LoadGenerator(x[..], 0), LoadGenerator(x[..], 1)),
                    Wide(LoadGenerator(x[..], 2), LoadGenerator(x[..], 3));
      var w, u, n := w0, u0, 0;
      while n < ncycles
        invariant 0 <= n <= ncycles && w == WideRounds(w0, n) && u == WideRounds(u0, n)
      {
        w := WideCycle(w);
        u := WideCycle(u);
        n := n + 1;
      }
      GeneratorBlockIsBlock(s, 0, ncycles);
      GeneratorBlockIsBlock(s, 1, ncycles);
      GeneratorBlockIsBlock(s, 2, ncycles);
      GeneratorBlockIsBlock(s, 3, ncycles);
      StoreAll(AddRows(w.lo, w0.lo), AddRows(w.hi, w0.hi), AddRows(u.lo, u0.lo), AddRows(u.hi, u0.hi));
      assert x[..] == s;
    }

    constructor (nrounds: nat, seed: Key)
      ensures Valid() && Delivered() == 0 && key == seed && ncycles == nrounds / 2 && fresh(x) && fresh(out)
    {
      hide InitialWords, Input, Gather, BlockOf;
      key, ncycles, pos, round := seed, nrounds / 2, 0, 0;
      var input := InitialWords(seed);
      x := new bv32[64](i requires 0 <= i < 64 => input[i]);
      out := new bv32[64];
      new;
      assert x[..] == input;
      InitialLoaded(seed);
      Block();
    }

    /** add_to_ctr32(&x[i], 4) */
    method AddToCounter(i: nat)
      requires Shape() && i + 1 < 64
      modifies x
      ensures x[..] == BumpCounter(old(x[..]), i)
    {
      hide Advance;
      ghost var s := x[..];
      var c := Advance(x[i], x[i + 1]);
      x[i], x[i + 1] := c.0, c.1;
      assert x[..] == s[i := c.0][i + 1 := c.1];
    }

    method IncCounter()
      requires Loaded(round)
      modifies x
      ensures Loaded(round + 1)
    {
      hide BumpCounter, Input, Gather;
      BumpedLoaded(key, x[..], round);
      AddToCounter(24);
      AddToCounter(28);
      AddToCounter(56);
      AddToCounter(60);
    }

    method Next() returns (r: bv32)
      requires Valid()
      modifies `pos, `round, x, out
      ensures Valid() && Delivered() == old(Delivered()) + 1
      ensures r == Stream(key, ncycles, old(Delivered()))
    {
      hide Input, Counter, BlockOf, Stream, Gather;
      if pos >= 64 {
        IncCounter();
        round := round + 1;
        Block();
        pos := 0;
      }
      StreamAt(key, ncycles, 4 * round + pos / 16, pos % 16);
      ghost var g := pos / 16;
      assert 16 * (4 * round + g) + pos % 16 == Delivered();
      assert Gather(x[..], g) == Input(key, Counter(4 * round + g));
      assert out[pos] == out[16 * g..16 * g + 16][pos % 16];
      r := out[pos];
      pos := pos + 1;
    }
  }

  /** The interleaved state of ChaChaVec_init. */
  function InitialWords(seed: Key): Words64 {
    UpperRows(seed) + [0, 0, 0, 0, 1, 0, 0, 0] + UpperRows(seed) + [2, 0, 0, 0, 3, 0, 0, 0]
  }

  function UpperRows(seed: Key): (u: seq<bv32>)
    ensures |u| == 24
  {
    CONSTANTS + CONSTANTS + seed[..4] + seed[..4] + seed[4..] + seed[4..]
  }

  lemma UpperParts(seed: Key, half: nat)
    requires half == 0 || half == 4
    ensures var u := UpperRows(seed);
            && u[half..half + 4] == CONSTANTS && u[8 + half..12 + half] == seed[..4]
            && u[16 + half..20 + half] == seed[4..]
  {
  }

  function SmallWord(g: int): bv32 { if g == 0 then 0 else if g == 1 then 1 else if g == 2 then 2 else 3 }

  lemma SmallCounters()
    ensures forall g | 0 <= g < 4 :: Lo(Counter(g)) == SmallWord(g) && Hi(Counter(g)) == 0
  {
    assert Counter(1) == 1 && Counter(2) == 2 && Counter(3) == 3;
  }

  lemma InitialGather(seed: Key, g: nat)
    requires g < 4
    ensures Gather(InitialWords(seed), g) == CONSTANTS + seed + [SmallWord(g), 0, 0, 0]
  {
    hide UpperRows, SmallWord, InitialWords;
    InitialUpper(seed, g);
    InitialLower(seed, g);
    assert seed == seed[..4] + seed[4..];
    assert CONSTANTS + seed[..4] + seed[4..] == CONSTANTS + seed;
  }

  lemma InitialUpper(seed: Key, g: nat)
    requires g < 4
    ensures var x := InitialWords(seed);
            && x[Place(g, 0)..Place(g, 0) + 4] == CONSTANTS
            && x[Place(g, 1)..Place(g, 1) + 4] == seed[..4]
            && x[Place(g, 2)..Place(g, 2) + 4] == seed[4..]
  {
    hide UpperRows;
    var x, u, b, h := InitialWords(seed), UpperRows(seed), 32 * (g / 2), 4 * (g % 2);
    UpperParts(seed, h);
    assert x[b..b + 24] == u;
    assert x[b + h..b + h + 4] == u[h..h + 4];
    assert x[b + 8 + h..b + 8 + h + 4] == u[8 + h..12 + h];
    assert x[b + 16 + h..b + 16 + h + 4] == u[16 + h..20 + h];
  }

  lemma InitialLower(seed: Key, g: nat)
    requires g < 4
    ensures InitialWords(seed)[Place(g, 3)..Place(g, 3) + 4] == [SmallWord(g), 0, 0, 0]
  {
    hide UpperRows;
  }

  lemma InitialLoaded(seed: Key)
    ensures forall g | 0 <= g < 4 :: Gather(InitialWords(seed), g) == Input(seed, Counter(g))
  {
    hide InitialWords, Gather, Counter, Lo, Hi, SmallWord;
    SmallCounters();
    forall g | 0 <= g < 4
      ensures Gather(InitialWords(seed), g) == Input(seed, Counter(g))
    {
      InitialGather(seed, g);
    }
  }

  /** The 64-bit sum of a counter in two words and 4. */
  function Advance(lo: bv32, hi: bv32): (bv32, bv32) {
    var c := (lo as bv64) + ((hi as bv64) << 32) + 4;
    (Lo(c), Hi(c))
  }

  function BumpCounter(x: Words64, i: nat): Words64
    requires i + 1 < 64
  {
    var c := Advance(x[i], x[i + 1]);
    x[i := c.0][i + 1 := c.1]
  }

  lemma BumpElsewhere(x: Words64, i: nat, j: nat)
    requires i + 4 <= 64 && j + 1 < 64 && (j + 1 < i || i + 4 <= j)
    ensures BumpCounter(x, j)[i..i + 4] == x[i..i + 4]
  {
    hide Advance;
  }

  lemma BumpHere(x: Words64, j: nat)
    requires j + 4 <= 64
    ensures var c := Advance(x[j], x[j + 1]); BumpCounter(x, j)[j..j + 4] == [c.0, c.1] + x[j + 2..j + 4]
  {
    hide Advance;
  }

  lemma PlacesApart(g: nat, row: nat, h: nat)
    requires g < 4 && h < 4 && row < 4 && (g != h || row < 3)
    ensures Place(h, 3) + 1 < Place(g, row) || Place(g, row) + 4 <= Place(h, 3)
  {
  }

  /** Bumping a counter of the interleaved state changes one generator. */
  lemma BumpGather(x: Words64, g: nat, h: nat)
    requires g < 4 && h < 4
    ensures var s, y := Gather(x, g), BumpCounter(x, Place(h, 3));
            var c := Advance(s[12], s[13]);
            Gather(y, g) == if g == h then s[12 := c.0][13 := c.1] else s
  {
    hide Advance, Place, BumpCounter;
    forall row: nat | row < 4 && (g != h || row < 3)
      ensures BumpCounter(x, Place(h, 3))[Place(g, row)..Place(g, row) + 4] == x[Place(g, row)..Place(g, row) + 4]
    {
      PlacesApart(g, row, h);
      BumpElsewhere(x, Place(g, row), Place(h, 3));
    }
    BumpHere(x, Place(h, 3));
  }

  lemma AdvanceWords(c: bv64)
    ensures Advance(Lo(c), Hi(c)) == (Lo(c + 4), Hi(c + 4))
  {
    hide Lo, Hi;
    CounterWords(c);
  }

  lemma CounterAfterFour(k: nat)
    ensures Counter(k + 4) == Counter(k) + 4
  {
    hide Counter;
    CounterAfter(k);
    CounterAfter(k + 1);
    CounterAfter(k + 2);
    CounterAfter(k + 3);
    var c := Counter(k);
    assert c + 1 + 1 + 1 + 1 == c + 4;
  }

  lemma InputAdvances(key: Key, k: nat)
    ensures var s := Input(key, Counter(k));
            var c := Advance(s[12], s[13]);
            s[12 := c.0][13 := c.1] == Input(key, Counter(k + 4))
  {
    hide Lo, Hi, Advance, Counter;
    var c := Counter(k);
    AdvanceWords(c);
    CounterAfterFour(k);
    assert Input(key, c)[12] == Lo(c) && Input(key, c)[13] == Hi(c);
  }

  lemma BumpedLoaded(key: Key, x: Words64, k: nat)
    requires forall g | 0 <= g < 4 :: Gather(x, g) == Input(key, Counter(4 * k + g))
    ensures var y := BumpCounter(BumpCounter(BumpCounter(BumpCounter(x, 24), 28), 56), 60);
            forall g | 0 <= g < 4 :: Gather(y, g) == Input(key, Counter(4 * (k + 1) + g))
  {
    hide Gather, BumpCounter, Input, Counter, Advance;
    var x1 := BumpCounter(x, 24);
    var x2 := BumpCounter(x1, 28);
    var x3 := BumpCounter(x2, 56);
    forall g | 0 <= g < 4
      ensures Gather(BumpCounter(x3, 60), g) == Input(key, Counter(4 * (k + 1) + g))
    {
      BumpGather(x, g, 0);
      BumpGather(x1, g, 1);
      BumpGather(x2, g, 2);
      BumpGather(x3, g, 3);
      InputAdvances(key, 4 * k + g);
    }
  }
}
