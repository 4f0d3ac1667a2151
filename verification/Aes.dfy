/** AES-128 by lookup tables (generators/aes128.c:248-400) against the cipher and key expansion of
    FIPS 197.  The byte substitution is arbitrary. */
module Aes {
  import opened ByteTables
  import opened GaloisField
  import opened Union128

  // ----- FIPS 197 -----

  /** One column of the state, top byte first. */
  datatype Col = Col(b0: bv8, b1: bv8, b2: bv8, b3: bv8)

  datatype State = State(c0: Col, c1: Col, c2: Col, c3: Col)

  /** xtime: multiplication by x modulo x^8 + x^4 + x^3 + x + 1, section 4.2.1 */
  function Twice(a: bv8): bv8 { (a << 1) ^ (((a >> 7) & 1) * 0x1B) }

  lemma TwiceWide(a: bv8)
    ensures GaloisField.Wide(Twice(a))
         == GaloisField.Xor(Double(GaloisField.Wide(a)), Pick(a & 0x80 != 0, 0x11B))
  {
  }

  lemma CarrylessByX(c: bv16)
    ensures Carryless(c, 2) == Double(c) && Carryless(c, 1) == c && Carryless(c, 0) == 0
  {
    hide GaloisField.Xor, Double;
    assert Half(2) == 1 && Half(1) == 0 && !Odd(2) && Odd(1);
    XorZero(c);
    XorZero(Double(c));
    CarrylessUnfold(c, 2);
    CarrylessUnfold(c, 1);
    CarrylessUnfold(Double(c), 1);
    CarrylessZero(Double(c));
    CarrylessZero(Double(Double(c)));
  }

  /** xtime is multiplication by x: the only polynomial of degree below 8 that differs from the product with
      x by a multiple of x^8 + x^4 + x^3 + x + 1. */
  lemma TwiceIsProduct(a: bv8, r: bv16)
    ensures r == GaloisField.Wide(Twice(a))
       <==> r < 0x100 && exists q: bv16 ::
              q < 0x80 && r == GaloisField.Xor(Carryless(GaloisField.Wide(a), 2), Carryless(0x11B, q))
  {
    hide GaloisField.Xor, Carryless, GaloisField.Wide, Twice, Double;
    var c, w := GaloisField.Wide(a), GaloisField.Wide(Twice(a));
    var q0: bv16 := if a & 0x80 != 0 then 1 else 0;
    TwiceWide(a);
    CarrylessByX(c);
    CarrylessByX(0x11B);
    WideSmall(Twice(a));
    assert w == GaloisField.Xor(Carryless(c, 2), Carryless(0x11B, q0));
    if r < 0x100 && exists q: bv16 :: q < 0x80 && r == GaloisField.Xor(Carryless(c, 2), Carryless(0x11B, q)) {
      var q: bv16 :| q < 0x80 && r == GaloisField.Xor(Carryless(c, 2), Carryless(0x11B, q));
      LeadingTerm();
      RemainderUnique(0x11B, Carryless(c, 2), q0, q, w, r);
    }
  }

  lemma LeadingTerm()
    ensures Leads(0x100, 0x11B)
  {
  }

  function Thrice(a: bv8): bv8 { Add(Twice(a), a) }

  function AddCol(c: Col, d: Col): Col { Col(Add(c.b0, d.b0), Add(c.b1, d.b1), Add(c.b2, d.b2), Add(c.b3, d.b3)) }

  function SubCol(sbox: Sbox, c: Col): Col { Col(At(sbox, c.b0), At(sbox, c.b1), At(sbox, c.b2), At(sbox, c.b3)) }

  /** Section 5.1.1 */
  function SubBytes(sbox: Sbox, s: State): State {
    State(SubCol(sbox, s.c0), SubCol(sbox, s.c1), SubCol(sbox, s.c2), SubCol(sbox, s.c3))
  }

  /** Section 5.1.2: row r moves r places to the left. */
  function ShiftRows(s: State): State {
    State(Col(s.c0.b0, s.c1.b1, s.c2.b2, s.c3.b3), Col(s.c1.b0, s.c2.b1, s.c3.b2, s.c0.b3),
          Col(s.c2.b0, s.c3.b1, s.c0.b2, s.c1.b3), Col(s.c3.b0, s.c0.b1, s.c1.b2, s.c2.b3))
  }

  function MixCol(c: Col): Col {
    Col(Add(Add(Add(Twice(c.b0), Thrice(c.b1)), c.b2), c.b3), Add(Add(Add(c.b0, Twice(c.b1)), Thrice(c.b2)), c.b3),
        Add(Add(Add(c.b0, c.b1), Twice(c.b2)), Thrice(c.b3)), Add(Add(Add(Thrice(c.b0), c.b1), c.b2), Twice(c.b3)))
  }

  /** Section 5.1.3 */
  function MixColumns(s: State): State { State(MixCol(s.c0), MixCol(s.c1), MixCol(s.c2), MixCol(s.c3)) }

  /** Section 5.1.4 */
  function AddRoundKey(s: State, k: State): State {
    State(AddCol(s.c0, k.c0), AddCol(s.c1, k.c1), AddCol(s.c2, k.c2), AddCol(s.c3, k.c3))
  }

  function Round(sbox: Sbox, s: State, k: State): State {
    AddRoundKey(MixColumns(ShiftRows(SubBytes(sbox, s))), k)
  }

  /** The first n full rounds, after the initial key addition. */
  function Rounds(sbox: Sbox, s: State, keys: seq<State>, n: nat): State
    requires n < |keys|
  {
    if n == 0 then AddRoundKey(s, keys[0]) else Round(sbox, Rounds(sbox, s, keys, n - 1), keys[n])
  }

  /** Section 5.1: nine rounds and a last one without MixColumns. */
  function Cipher(sbox: Sbox, s: State, keys: seq<State>): State
    requires |keys| == 11
  {
    AddRoundKey(ShiftRows(SubBytes(sbox, Rounds(sbox, s, keys, 9))), keys[10])
  }

  // ----- Columns as big-endian words -----

  function Xor(u: bv32, v: bv32): bv32 { u ^ v }

  function Wide(b: bv8): (w: bv32)
    ensures w < 0x100
  {
    b as bv32
  }

  function Word4(b0: bv8, b1: bv8, b2: bv8, b3: bv8): bv32 {
    (Wide(b0) << 24) | (Wide(b1) << 16) | (Wide(b2) << 8) | Wide(b3)
  }

  function WordOf(c: Col): bv32 { Word4(c.b0, c.b1, c.b2, c.b3) }

  function ColOf(w: bv32): Col {
    Col((w >> 24) as bv8, ((w >> 16) & 0xFF) as bv8, ((w >> 8) & 0xFF) as bv8, (w & 0xFF) as bv8)
  }

  lemma WordOfColOf(w: bv32)
    ensures WordOf(ColOf(w)) == w
  {
  }

  lemma ColOfWordOf(c: Col)
    ensures ColOf(WordOf(c)) == c
  {
  }

  lemma WordAdd(c: Col, d: Col)
    ensures WordOf(AddCol(c, d)) == Xor(WordOf(c), WordOf(d))
  {
  }

  // ----- The tables -----

  function T0(a: bv8): Col { Col(Twice(a), a, a, Thrice(a)) }
  function T1(a: bv8): Col { Col(Thrice(a), Twice(a), a, a) }
  function T2(a: bv8): Col { Col(a, Thrice(a), Twice(a), a) }
  function T3(a: bv8): Col { Col(a, a, Thrice(a), Twice(a)) }
  function T4(a: bv8): Col { Col(a, a, a, a) }

  function Turn8(t: bv32): bv32 { (t << 24) | (t >> 8) }
  function Turn16(t: bv32): bv32 { (t << 16) | (t >> 16) }
  function Turn24(t: bv32): bv32 { (t << 8) | (t >> 24) }

  lemma Turn8Word(b0: bv8, b1: bv8, b2: bv8, b3: bv8)
    ensures Turn8(Word4(b0, b1, b2, b3)) == Word4(b3, b0, b1, b2)
  {
  }

  lemma Turn16Word(b0: bv8, b1: bv8, b2: bv8, b3: bv8)
    ensures Turn16(Word4(b0, b1, b2, b3)) == Word4(b2, b3, b0, b1)
  {
  }

  lemma Turn24Word(b0: bv8, b1: bv8, b2: bv8, b3: bv8)
    ensures Turn24(Word4(b0, b1, b2, b3)) == Word4(b1, b2, b3, b0)
  {
  }

  /** A column of MixColumns is the sum of four table entries. */
  lemma MixIsTableSum(c: Col)
    ensures MixCol(c) == AddCol(AddCol(AddCol(T0(c.b0), T1(c.b1)), T2(c.b2)), T3(c.b3))
  {
    hide Add, Twice, Thrice;
  }

  predicate TablesFilled(sbox: Sbox, te: array2<bv32>)
    reads te
  {
    && te.Length0 == 5 && te.Length1 == 256
    && forall i | 0 <= i < 256 :: Filled(sbox, te, i)
  }

  predicate Filled(sbox: Sbox, te: array2<bv32>, i: nat)
    requires te.Length0 == 5 && te.Length1 == 256 && i < 256
    reads te
  {
    && te[0, i] == WordOf(T0(sbox[i])) && te[1, i] == WordOf(T1(sbox[i])) && te[2, i] == WordOf(T2(sbox[i]))
    && te[3, i] == WordOf(T3(sbox[i])) && te[4, i] == WordOf(T4(sbox[i]))
  }

  /** fill_lookup_tables */
  method FillLookupTables(sbox: Sbox, te: array2<bv32>)
    requires te.Length0 == 5 && te.Length1 == 256
    modifies te
    ensures TablesFilled(sbox, te)
  {
    hide Word4, Twice, Thrice, Filled;
    for i := 0 to 256
      invariant forall k | 0 <= k < i :: Filled(sbox, te, k)
    {
      FillEntry(sbox, te, i);
    }
  }

  function ToT0(sa: bv8): bv32 {
    var twice := Twice(sa);
    (Wide(twice) << 24) | (Wide(sa) << 16) | (Wide(sa) << 8) | Wide(Add(twice, sa))
  }

  function ToT4(sa: bv8): bv32 {
    (Wide(sa) << 24) | (Wide(sa) << 16) | (Wide(sa) << 8) | Wide(sa)
  }

  lemma ToT0IsColumn(sa: bv8)
    ensures ToT0(sa) == WordOf(T0(sa)) && ToT4(sa) == WordOf(T4(sa))
  {
    hide Twice;
  }

  method FillEntry(sbox: Sbox, te: array2<bv32>, i: nat)
    requires te.Length0 == 5 && te.Length1 == 256 && i < 256
    modifies te
    ensures Filled(sbox, te, i)
    ensures forall k | 0 <= k < 256 && k != i && old(Filled(sbox, te, k)) :: Filled(sbox, te, k)
  {
    hide Word4, Twice, Thrice, ToT0, ToT4, Turn8, Turn16, Turn24;
    var sa := sbox[i];
    var t0 := ToT0(sa);
    ToT0IsColumn(sa);
    Turn8Word(Twice(sa), sa, sa, Thrice(sa));
    Turn16Word(Twice(sa), sa, sa, Thrice(sa));
    Turn24Word(Twice(sa), sa, sa, Thrice(sa));
    te[0, i] := t0;
    te[1, i] := Turn8(t0);
    te[2, i] := Turn16(t0);
    te[3, i] := Turn24(t0);
    te[4, i] := ToT4(sa);
  }

  // ----- The rounds by table lookup -----

  function StateOf(w0: bv32, w1: bv32, w2: bv32, w3: bv32): State { State(ColOf(w0), ColOf(w1), ColOf(w2), ColOf(w3)) }

  /** aes_transform */
  function Transform(te: array2<bv32>, w0: bv32, w1: bv32, w2: bv32, w3: bv32, kw: bv32): bv32
    requires te.Length0 == 5 && te.Length1 == 256
    reads te
  {
    Xor(Xor(Xor(Xor(kw, te[0, ColOf(w0).b0 as int]), te[1, ColOf(w1).b1 as int]), te[2, ColOf(w2).b2 as int]),
        te[3, ColOf(w3).b3 as int])
  }

  function Masked(w: bv32, mask: bv32): bv32 { w & mask }

  /** aes_final_transform */
  function FinalTransform(te: array2<bv32>, w0: bv32, w1: bv32, w2: bv32, w3: bv32, kw: bv32): bv32
    requires te.Length0 == 5 && te.Length1 == 256
    reads te
  {
    Xor(Xor(Xor(Xor(kw, Masked(te[4, ColOf(w0).b0 as int], 0xFF000000)),
                Masked(te[4, ColOf(w1).b1 as int], 0x00FF0000)),
            Masked(te[4, ColOf(w2).b2 as int], 0x0000FF00)), Masked(te[4, ColOf(w3).b3 as int], 0x000000FF))
  }

  lemma XorLast(k: bv32, a: bv32, b: bv32, c: bv32, d: bv32)
    ensures Xor(Xor(Xor(Xor(k, a), b), c), d) == Xor(Xor(Xor(Xor(a, b), c), d), k)
  {
  }

  lemma MaskedSum(a: bv8, b: bv8, c: bv8, d: bv8)
    ensures Xor(Xor(Xor(Masked(WordOf(T4(a)), 0xFF000000), Masked(WordOf(T4(b)), 0x00FF0000)),
                    Masked(WordOf(T4(c)), 0x0000FF00)),
                Masked(WordOf(T4(d)), 0x000000FF)) == WordOf(Col(a, b, c, d))
  {
  }

  lemma Entry(sbox: Sbox, te: array2<bv32>, a: bv8)
    requires TablesFilled(sbox, te)
    ensures te[0, a as int] == WordOf(T0(At(sbox, a))) && te[1, a as int] == WordOf(T1(At(sbox, a)))
    ensures te[2, a as int] == WordOf(T2(At(sbox, a))) && te[3, a as int] == WordOf(T3(At(sbox, a)))
    ensures te[4, a as int] == WordOf(T4(At(sbox, a)))
  {
    hide Word4, Twice, Thrice;
    assert Filled(sbox, te, a as int);
  }

  /** Four lookups give one column of MixColumns after SubBytes, plus the key. */
  lemma TransformIsMix(sbox: Sbox, te: array2<bv32>, w0: bv32, w1: bv32, w2: bv32, w3: bv32, kw: bv32)
    requires TablesFilled(sbox, te)
    ensures var c := Col(ColOf(w0).b0, ColOf(w1).b1, ColOf(w2).b2, ColOf(w3).b3);
            ColOf(Transform(te, w0, w1, w2, w3, kw)) == AddCol(MixCol(SubCol(sbox, c)), ColOf(kw))
  {
    hide TablesFilled, WordOf, ColOf, Xor, MixCol, AddCol, T0, T1, T2, T3;
    Shape(sbox, te);
    var c := SubCol(sbox, Col(ColOf(w0).b0, ColOf(w1).b1, ColOf(w2).b2, ColOf(w3).b3));
    Entry(sbox, te, ColOf(w0).b0);
    Entry(sbox, te, ColOf(w1).b1);
    Entry(sbox, te, ColOf(w2).b2);
    Entry(sbox, te, ColOf(w3).b3);
    XorLast(kw, WordOf(T0(c.b0)), WordOf(T1(c.b1)), WordOf(T2(c.b2)), WordOf(T3(c.b3)));
    WordAdd(T0(c.b0), T1(c.b1));
    WordAdd(AddCol(T0(c.b0), T1(c.b1)), T2(c.b2));
    WordAdd(AddCol(AddCol(T0(c.b0), T1(c.b1)), T2(c.b2)), T3(c.b3));
    MixIsTableSum(c);
    WordOfColOf(kw);
    WordAdd(MixCol(c), ColOf(kw));
    ColOfWordOf(AddCol(MixCol(c), ColOf(kw)));
  }

  /** The masked lookups give one column of SubBytes, plus the key. */
  lemma FinalTransformIsSub(sbox: Sbox, te: array2<bv32>, w0: bv32, w1: bv32, w2: bv32, w3: bv32, kw: bv32)
    requires TablesFilled(sbox, te)
    ensures var c := Col(ColOf(w0).b0, ColOf(w1).b1, ColOf(w2).b2, ColOf(w3).b3);
            ColOf(FinalTransform(te, w0, w1, w2, w3, kw)) == AddCol(SubCol(sbox, c), ColOf(kw))
  {
    hide TablesFilled, WordOf, ColOf, Xor, AddCol, T4, Masked;
    Shape(sbox, te);
    var c := SubCol(sbox, Col(ColOf(w0).b0, ColOf(w1).b1, ColOf(w2).b2, ColOf(w3).b3));
    Entry(sbox, te, ColOf(w0).b0);
    Entry(sbox, te, ColOf(w1).b1);
    Entry(sbox, te, ColOf(w2).b2);
    Entry(sbox, te, ColOf(w3).b3);
    XorLast(kw, Masked(WordOf(T4(c.b0)), 0xFF000000), Masked(WordOf(T4(c.b1)), 0x00FF0000),
            Masked(WordOf(T4(c.b2)), 0x0000FF00), Masked(WordOf(T4(c.b3)), 0x000000FF));
    MaskedSum(c.b0, c.b1, c.b2, c.b3);
    WordOfColOf(kw);
    WordAdd(c, ColOf(kw));
    ColOfWordOf(AddCol(c, ColOf(kw)));
  }

  lemma Shape(sbox: Sbox, te: array2<bv32>)
    requires TablesFilled(sbox, te)
    ensures te.Length0 == 5 && te.Length1 == 256
  {
  }

  /** Four transforms with rotated arguments are one round of the cipher. */
  lemma TransformsAreRound(sbox: Sbox, te: array2<bv32>, s0: bv32, s1: bv32, s2: bv32, s3: bv32,
                           k0: bv32, k1: bv32, k2: bv32, k3: bv32)
    requires TablesFilled(sbox, te)
    ensures StateOf(Transform(te, s0, s1, s2, s3, k0), Transform(te, s1, s2, s3, s0, k1),
                    Transform(te, s2, s3, s0, s1, k2), Transform(te, s3, s0, s1, s2, k3))
         == Round(sbox, StateOf(s0, s1, s2, s3), StateOf(k0, k1, k2, k3))
  {
    hide TablesFilled, Transform, ColOf, MixCol, AddCol, At;
    Shape(sbox, te);
    TransformIsMix(sbox, te, s0, s1, s2, s3, k0);
    TransformIsMix(sbox, te, s1, s2, s3, s0, k1);
    TransformIsMix(sbox, te, s2, s3, s0, s1, k2);
    TransformIsMix(sbox, te, s3, s0, s1, s2, k3);
  }

  lemma FinalTransformsAreLastRound(sbox: Sbox, te: array2<bv32>, s0: bv32, s1: bv32, s2: bv32, s3: bv32,
                                    k0: bv32, k1: bv32, k2: bv32, k3: bv32)
    requires TablesFilled(sbox, te)
    ensures StateOf(FinalTransform(te, s0, s1, s2, s3, k0), FinalTransform(te, s1, s2, s3, s0, k1),
                    FinalTransform(te, s2, s3, s0, s1, k2), FinalTransform(te, s3, s0, s1, s2, k3))
         == AddRoundKey(ShiftRows(SubBytes(sbox, StateOf(s0, s1, s2, s3))), StateOf(k0, k1, k2, k3))
  {
    hide TablesFilled, FinalTransform, ColOf, AddCol, At;
    Shape(sbox, te);
    FinalTransformIsSub(sbox, te, s0, s1, s2, s3, k0);
    FinalTransformIsSub(sbox, te, s1, s2, s3, s0, k1);
    FinalTransformIsSub(sbox, te, s2, s3, s0, s1, k2);
    FinalTransformIsSub(sbox, te, s3, s0, s1, s2, k3);
  }

  // ----- Blocks of bytes -----

  function StateOfBytes(b: Vec): State {
    State(Col(b[0], b[1], b[2], b[3]), Col(b[4], b[5], b[6], b[7]),
          Col(b[8], b[9], b[10], b[11]), Col(b[12], b[13], b[14], b[15]))
  }

  function BytesOfState(s: State): Vec {
    [s.c0.b0, s.c0.b1, s.c0.b2, s.c0.b3, s.c1.b0, s.c1.b1, s.c1.b2, s.c1.b3,
     s.c2.b0, s.c2.b1, s.c2.b2, s.c2.b3, s.c3.b0, s.c3.b1, s.c3.b2, s.c3.b3]
  }

  function Assemble(b0: bv8, b1: bv8, b2: bv8, b3: bv8): bv32 {
    Xor(Xor(Xor(Wide(b0) << 24, Wide(b1) << 16), Wide(b2) << 8), Wide(b3))
  }

  /** get_u32 */
  function GetU32(b: Vec, i: nat): bv32
    requires i + 3 < 16
  {
    Assemble(b[i], b[i + 1], b[i + 2], b[i + 3])
  }

  lemma AssembleIsWord(b0: bv8, b1: bv8, b2: bv8, b3: bv8)
    ensures Assemble(b0, b1, b2, b3) == Word4(b0, b1, b2, b3)
  {
    hide Wide;
    JoinByXor(Wide(b0), Wide(b1), Wide(b2), Wide(b3));
  }

  lemma JoinByXor(a: bv32, b: bv32, c: bv32, d: bv32)
    requires a < 0x100 && b < 0x100 && c < 0x100 && d < 0x100
    ensures (((a << 24) ^ (b << 16)) ^ (c << 8)) ^ d == (a << 24) | (b << 16) | (c << 8) | d
  {
  }

  lemma GetColumn(b: Vec, i: nat)
    requires i + 3 < 16
    ensures ColOf(GetU32(b, i)) == Col(b[i], b[i + 1], b[i + 2], b[i + 3])
  {
    hide ColOf, Word4, Assemble;
    AssembleIsWord(b[i], b[i + 1], b[i + 2], b[i + 3]);
    ColOfWordOf(Col(b[i], b[i + 1], b[i + 2], b[i + 3]));
  }

  /** put_u32 */
  method PutU32(out: array<bv8>, i: nat, w: bv32)
    requires i + 3 < out.Length
    modifies out
    ensures ColOf(w) == Col(out[i], out[i + 1], out[i + 2], out[i + 3])
    ensures forall k | 0 <= k < out.Length && (k < i || i + 4 <= k) :: out[k] == old(out[k])
  {
    hide ColOf;
    out[i] := ColOf(w).b0;
    out[i + 1] := ColOf(w).b1;
    out[i + 2] := ColOf(w).b2;
    out[i + 3] := ColOf(w).b3;
  }

  lemma BytesDetermined(b: Vec, s: State)
    requires StateOfBytes(b) == s
    ensures b == BytesOfState(s)
  {
  }

  // ----- The key expansion -----

  /** The round constants x^(i - 1) of section 5.2. */
  function RoundConstant(i: nat): bv8
    requires i > 0
  {
    if i == 1 then 1 else Twice(RoundConstant(i - 1))
  }

  function RotWord(c: Col): Col { Col(c.b1, c.b2, c.b3, c.b0) }

  /** KeyExpansion, section 5.2: word i of the expanded key, for a key of four words. */
  function ExpandedWord(sbox: Sbox, key: Vec, i: nat): Col {
    if i < 4 then Col(key[4 * i], key[4 * i + 1], key[4 * i + 2], key[4 * i + 3])
    else
      var last := ExpandedWord(sbox, key, i - 1);
      AddCol(ExpandedWord(sbox, key, i - 4),
             if i % 4 == 0 then AddCol(SubCol(sbox, RotWord(last)), Col(RoundConstant(i / 4), 0, 0, 0)) else last)
  }

  function ExpandedKey(sbox: Sbox, key: Vec): seq<State> {
    seq(11, r requires 0 <= r < 11 =>
      State(ExpandedWord(sbox, key, 4 * r), ExpandedWord(sbox, key, 4 * r + 1),
            ExpandedWord(sbox, key, 4 * r + 2), ExpandedWord(sbox, key, 4 * r + 3)))
  }

  const RCON: seq<bv32> := [
    0x01000000, 0x02000000, 0x04000000, 0x08000000, 0x10000000, 0x20000000, 0x40000000, 0x80000000,
    0x1B000000, 0x36000000]

  /** The table holds the powers of x. */
  lemma RconIsPower(i: nat)
    requires i < 10
    ensures ColOf(RCON[i]) == Col(RoundConstant(i + 1), 0, 0, 0)
  {
    assert RoundConstant(1) == 0x01;
    assert RoundConstant(2) == 0x02;
    assert RoundConstant(3) == 0x04;
    assert RoundConstant(4) == 0x08;
    assert RoundConstant(5) == 0x10;
    assert RoundConstant(6) == 0x20;
    assert RoundConstant(7) == 0x40;
    assert RoundConstant(8) == 0x80;
    assert RoundConstant(9) == 0x1B;
    assert RoundConstant(10) == 0x36;
  }

  lemma TurnedColumn(w: bv32)
    ensures ColOf(Turn24(w)) == RotWord(ColOf(w))
  {
  }

  lemma ColXor(u: bv32, v: bv32)
    ensures ColOf(Xor(u, v)) == AddCol(ColOf(u), ColOf(v))
  {
    hide ColOf, Xor, AddCol, Word4;
    WordOfColOf(u);
    WordOfColOf(v);
    WordAdd(ColOf(u), ColOf(v));
    ColOfWordOf(AddCol(ColOf(u), ColOf(v)));
  }

  /** The first n words of the schedule are those of KeyExpansion. */
  predicate Expanded(sbox: Sbox, key: Vec, rk: seq<bv32>, n: nat)
    requires n <= |rk|
  {
    forall j | 0 <= j < n :: ColOf(rk[j]) == ExpandedWord(sbox, key, j)
  }

  lemma ExpandOther(sbox: Sbox, key: Vec, j: nat, u: bv32, last: bv32)
    requires j >= 4 && j % 4 != 0
    requires ColOf(u) == ExpandedWord(sbox, key, j - 4) && ColOf(last) == ExpandedWord(sbox, key, j - 1)
    ensures ColOf(Xor(u, last)) == ExpandedWord(sbox, key, j)
  {
    hide ColOf, Xor, AddCol, SubCol;
    ColXor(u, last);
  }

  lemma ExpandFirst(sbox: Sbox, key: Vec, te: array2<bv32>, i: nat, u: bv32, last: bv32)
    requires TablesFilled(sbox, te) && i < 10
    requires ColOf(u) == ExpandedWord(sbox, key, 4 * i) && ColOf(last) == ExpandedWord(sbox, key, 4 * i + 3)
    ensures var temp := Turn24(last);
            ColOf(Xor(u, FinalTransform(te, temp, temp, temp, temp, RCON[i]))) == ExpandedWord(sbox, key, 4 * i + 4)
  {
    hide TablesFilled, FinalTransform, ColOf, Xor, AddCol, SubCol, RoundConstant, Turn24;
    Shape(sbox, te);
    var temp := Turn24(last);
    TurnedColumn(last);
    FinalTransformIsSub(sbox, te, temp, temp, temp, temp, RCON[i]);
    RconIsPower(i);
    ColXor(u, FinalTransform(te, temp, temp, temp, temp, RCON[i]));
    assert (4 * i + 4) % 4 == 0 && (4 * i + 4) / 4 == i + 1;
  }

  lemma WordExpanded(sbox: Sbox, key: Vec, rk: seq<bv32>, n: nat, j: nat)
    requires j < n <= |rk| && Expanded(sbox, key, rk, n)
    ensures ColOf(rk[j]) == ExpandedWord(sbox, key, j)
  {
    hide ColOf, ExpandedWord;
  }

  /** Store the next word of the schedule. */
  method StoreWord(ghost sbox: Sbox, ghost key: Vec, rk: array<bv32>, n: nat, w: bv32)
    requires n < rk.Length && Expanded(sbox, key, rk[..], n) && ColOf(w) == ExpandedWord(sbox, key, n)
    modifies rk
    ensures rk[n] == w && Expanded(sbox, key, rk[..], n + 1)
  {
    hide ColOf, ExpandedWord;
    rk[n] := w;
  }

  /** rk[n] = rk[n - 4] ^ rk[n - 1] */
  method ExpandWord(ghost sbox: Sbox, ghost key: Vec, rk: array<bv32>, n: nat)
    requires rk.Length == 44 && 4 <= n < 44 && n % 4 != 0 && Expanded(sbox, key, rk[..], n)
    modifies rk
    ensures Expanded(sbox, key, rk[..], n + 1)
  {
    hide ColOf, ExpandedWord, Xor, Expanded;
    WordExpanded(sbox, key, rk[..], n, n - 4);
    WordExpanded(sbox, key, rk[..], n, n - 1);
    ExpandOther(sbox, key, n, rk[n - 4], rk[n - 1]);
    StoreWord(sbox, key, rk, n, Xor(rk[n - 4], rk[n - 1]));
  }

  /** One iteration of the schedule: four words from the four before them. */
  method ExpandFour(ghost sbox: Sbox, ghost key: Vec, te: array2<bv32>, rk: array<bv32>, i: nat)
    requires TablesFilled(sbox, te) && rk.Length == 44 && i < 10 && Expanded(sbox, key, rk[..], 4 * i + 4)
    modifies rk
    ensures Expanded(sbox, key, rk[..], 4 * i + 8)
  {
    hide TablesFilled, FinalTransform, ColOf, ExpandedWord, Xor, Expanded, Turn24;
    Shape(sbox, te);
    WordExpanded(sbox, key, rk[..], 4 * i + 4, 4 * i);
    WordExpanded(sbox, key, rk[..], 4 * i + 4, 4 * i + 3);
    ExpandFirst(sbox, key, te, i, rk[4 * i], rk[4 * i + 3]);
    var temp := Turn24(rk[4 * i + 3]);
    StoreWord(sbox, key, rk, 4 * i + 4, Xor(rk[4 * i], FinalTransform(te, temp, temp, temp, temp, RCON[i])));
    ExpandWord(sbox, key, rk, 4 * i + 5);
    ExpandWord(sbox, key, rk, 4 * i + 6);
    ExpandWord(sbox, key, rk, 4 * i + 7);
  }

  lemma ExpandedFirst(sbox: Sbox, key: Vec, rk: seq<bv32>)
    requires |rk| == 44
    requires rk[0] == GetU32(key, 0) && rk[1] == GetU32(key, 4) && rk[2] == GetU32(key, 8) && rk[3] == GetU32(key, 12)
    ensures Expanded(sbox, key, rk, 4)
  {
    hide GetU32, ColOf;
    GetColumn(key, 0);
    GetColumn(key, 4);
    GetColumn(key, 8);
    GetColumn(key, 12);
  }

  /** The round keys that the schedule's words spell. */
  function KeysOf(rk: seq<bv32>): (keys: seq<State>)
    requires |rk| == 44
    ensures |keys| == 11
  {
    seq(11, r requires 0 <= r < 11 => StateOf(rk[4 * r], rk[4 * r + 1], rk[4 * r + 2], rk[4 * r + 3]))
  }

  lemma ExpandedKeys(sbox: Sbox, key: Vec, rk: seq<bv32>)
    requires |rk| == 44 && Expanded(sbox, key, rk, 44)
    ensures KeysOf(rk) == ExpandedKey(sbox, key)
  {
    hide ColOf, ExpandedWord;
  }

  /** The key expansion of AES128State_init_c99 */
  method ExpandKey(ghost sbox: Sbox, te: array2<bv32>, rk: array<bv32>, key: Vec)
    requires TablesFilled(sbox, te) && rk.Length == 44
    modifies rk
    ensures KeysOf(rk[..]) == ExpandedKey(sbox, key)
  {
    hide TablesFilled, GetU32, Expanded, KeysOf, ExpandedKey;
    rk[0] := GetU32(key, 0);
    rk[1] := GetU32(key, 4);
    rk[2] := GetU32(key, 8);
    rk[3] := GetU32(key, 12);
    ExpandedFirst(sbox, key, rk[..]);
    for i := 0 to 10
      invariant TablesFilled(sbox, te)
      invariant Expanded(sbox, key, rk[..], 4 * i + 4)
    {
      ExpandFour(sbox, key, te, rk, i);
    }
    ExpandedKeys(sbox, key, rk[..]);
  }

  // ----- The cipher -----

  lemma KeyAt(rk: seq<bv32>, r: nat)
    requires |rk| == 44 && r < 11
    ensures KeysOf(rk)[r] == StateOf(rk[4 * r], rk[4 * r + 1], rk[4 * r + 2], rk[4 * r + 3])
  {
    hide StateOf;
  }

  lemma FirstKeyAdded(sbox: Sbox, pt: Vec, rk: seq<bv32>)
    requires |rk| == 44
    ensures StateOf(Xor(GetU32(pt, 0), rk[0]), Xor(GetU32(pt, 4), rk[1]),
                    Xor(GetU32(pt, 8), rk[2]), Xor(GetU32(pt, 12), rk[3]))
         == Rounds(sbox, StateOfBytes(pt), KeysOf(rk), 0)
  {
    hide GetU32, Xor, ColOf, AddCol, KeysOf;
    KeyAt(rk, 0);
    GetColumn(pt, 0);
    GetColumn(pt, 4);
    GetColumn(pt, 8);
    GetColumn(pt, 12);
    ColXor(GetU32(pt, 0), rk[0]);
    ColXor(GetU32(pt, 4), rk[1]);
    ColXor(GetU32(pt, 8), rk[2]);
    ColXor(GetU32(pt, 12), rk[3]);
  }

  /** One more round of the cipher, from the key words at rk[4r]. */
  lemma RoundStep(sbox: Sbox, te: array2<bv32>, b: State, rk: seq<bv32>, r: nat,
                  s0: bv32, s1: bv32, s2: bv32, s3: bv32)
    requires TablesFilled(sbox, te) && |rk| == 44 && 0 < r < 10
    requires StateOf(s0, s1, s2, s3) == Rounds(sbox, b, KeysOf(rk), r - 1)
    ensures StateOf(Transform(te, s0, s1, s2, s3, rk[4 * r]), Transform(te, s1, s2, s3, s0, rk[4 * r + 1]),
                    Transform(te, s2, s3, s0, s1, rk[4 * r + 2]), Transform(te, s3, s0, s1, s2, rk[4 * r + 3]))
         == Rounds(sbox, b, KeysOf(rk), r)
  {
    hide TablesFilled, Transform, StateOf, Round, KeysOf;
    Shape(sbox, te);
    KeyAt(rk, r);
    TransformsAreRound(sbox, te, s0, s1, s2, s3, rk[4 * r], rk[4 * r + 1], rk[4 * r + 2], rk[4 * r + 3]);
  }

  /** Four table transforms with the key words at rk[p]. */
  method TableRound(ghost sbox: Sbox, te: array2<bv32>, rk: array<bv32>, p: nat, ghost b: State,
                    s0: bv32, s1: bv32, s2: bv32, s3: bv32)
    returns (t0: bv32, t1: bv32, t2: bv32, t3: bv32)
    requires TablesFilled(sbox, te) && rk.Length == 44 && p % 4 == 0 && 0 < p < 40
    requires StateOf(s0, s1, s2, s3) == Rounds(sbox, b, KeysOf(rk[..]), p / 4 - 1)
    ensures StateOf(t0, t1, t2, t3) == Rounds(sbox, b, KeysOf(rk[..]), p / 4)
  {
    hide TablesFilled, Transform, StateOf, Rounds, KeysOf;
    Shape(sbox, te);
    RoundStep(sbox, te, b, rk[..], p / 4, s0, s1, s2, s3);
    t0 := Transform(te, s0, s1, s2, s3, rk[p]);
    t1 := Transform(te, s1, s2, s3, s0, rk[p + 1]);
    t2 := Transform(te, s2, s3, s0, s1, rk[p + 2]);
    t3 := Transform(te, s3, s0, s1, s2, rk[p + 3]);
  }

  /** The nine full rounds of AES128State_encode_c99: two a turn, leaving after the first of the last. */
  method NineRounds(ghost sbox: Sbox, te: array2<bv32>, rk: array<bv32>, ghost b: State,
                    s0': bv32, s1': bv32, s2': bv32, s3': bv32)
    returns (t0: bv32, t1: bv32, t2: bv32, t3: bv32)
    requires TablesFilled(sbox, te) && rk.Length == 44
    requires StateOf(s0', s1', s2', s3') == Rounds(sbox, b, KeysOf(rk[..]), 0)
    ensures StateOf(t0, t1, t2, t3) == Rounds(sbox, b, KeysOf(rk[..]), 9)
  {
    hide TablesFilled, StateOf, Rounds, KeysOf;
    var s0, s1, s2, s3 := s0', s1', s2', s3';
    var p, r := 0, 5;
    while true
      invariant 1 <= r <= 5 && p == 8 * (5 - r)
      invariant StateOf(s0, s1, s2, s3) == Rounds(sbox, b, KeysOf(rk[..]), p / 4)
      decreases r
    {
      t0, t1, t2, t3 := TableRound(sbox, te, rk, p + 4, b, s0, s1, s2, s3);
      p := p + 8;
      r := r - 1;
      if r == 0 {
        break;
      }
      s0, s1, s2, s3 := TableRound(sbox, te, rk, p, b, t0, t1, t2, t3);
    }
  }

  lemma LastStep(sbox: Sbox, te: array2<bv32>, b: State, rk: seq<bv32>, t0: bv32, t1: bv32, t2: bv32, t3: bv32)
    requires TablesFilled(sbox, te) && |rk| == 44
    requires StateOf(t0, t1, t2, t3) == Rounds(sbox, b, KeysOf(rk), 9)
    ensures StateOf(FinalTransform(te, t0, t1, t2, t3, rk[40]), FinalTransform(te, t1, t2, t3, t0, rk[41]),
                    FinalTransform(te, t2, t3, t0, t1, rk[42]), FinalTransform(te, t3, t0, t1, t2, rk[43]))
         == Cipher(sbox, b, KeysOf(rk))
  {
    hide TablesFilled, FinalTransform, StateOf, Rounds, KeysOf, AddRoundKey, ShiftRows, SubBytes;
    Shape(sbox, te);
    KeyAt(rk, 10);
    FinalTransformsAreLastRound(sbox, te, t0, t1, t2, t3, rk[40], rk[41], rk[42], rk[43]);
  }

  method PutBlock(ct: array<bv8>, s0: bv32, s1: bv32, s2: bv32, s3: bv32)
    requires ct.Length == 16
    modifies ct
    ensures ct[..] == BytesOfState(StateOf(s0, s1, s2, s3))
  {
    hide ColOf;
    PutU32(ct, 0, s0);
    PutU32(ct, 4, s1);
    PutU32(ct, 8, s2);
    PutU32(ct, 12, s3);
    BytesDetermined(ct[..], StateOf(s0, s1, s2, s3));
  }

  /** AES128State_encode_c99 */
  method Encode(ghost sbox: Sbox, te: array2<bv32>, rk: array<bv32>, ct: array<bv8>, pt: Vec)
    requires TablesFilled(sbox, te) && rk.Length == 44 && ct.Length == 16
    modifies ct
    ensures ct[..] == BytesOfState(Cipher(sbox, StateOfBytes(pt), KeysOf(rk[..])))
  {
    hide TablesFilled, FinalTransform, StateOf, Rounds, KeysOf, Xor, GetU32, StateOfBytes, BytesOfState, Cipher;
    Shape(sbox, te);
    FirstKeyAdded(sbox, pt, rk[..]);
    var s0, s1 := Xor(GetU32(pt, 0), rk[0]), Xor(GetU32(pt, 4), rk[1]);
    var s2, s3 := Xor(GetU32(pt, 8), rk[2]), Xor(GetU32(pt, 12), rk[3]);
    ghost var b, keys := StateOfBytes(pt), rk[..];
    var t0, t1, t2, t3 := NineRounds(sbox, te, rk, b, s0, s1, s2, s3);
    LastStep(sbox, te, b, keys, t0, t1, t2, t3);
    s0 := FinalTransform(te, t0, t1, t2, t3, rk[40]);
    s1 := FinalTransform(te, t1, t2, t3, t0, rk[41]);
    s2 := FinalTransform(te, t2, t3, t0, t1, rk[42]);
    s3 := FinalTransform(te, t3, t0, t1, t2, rk[43]);
    PutBlock(ct, s0, s1, s2, s3);
  }

  // ----- The generator -----

  /** AES-128 of one block: FIPS 197 with the expanded key. */
  function Aes128(sbox: Sbox, key: Vec, pt: Vec): Vec {
    BytesOfState(Cipher(sbox, StateOfBytes(pt), ExpandedKey(sbox, key)))
  }

  class AES128State {
    ghost const sbox: Sbox
    ghost const key: Vec
    const te: array2<bv32>
    const rk: array<bv32>
    const out: array<bv8>
    var ctr: Words
    var pos: int

    /** A buffered block is AES-128 of the counter before the present one. */
    ghost predicate Valid()
      reads this, te, rk, out
    {
      && TablesFilled(sbox, te) && rk.Length == 44 && out.Length == 16
      && KeysOf(rk[..]) == ExpandedKey(sbox, key)
      && 0 <= pos <= 2
      && (pos < 2 ==> out[..] == Aes128(sbox, key, Unpack(PreviousCounter(ctr))))
    }

    /** AES128State_init_c99, after fill_lookup_tables */
    constructor (sbox: Sbox, key: Vec)
      ensures Valid() && this.sbox == sbox && this.key == key && fresh(te) && fresh(rk) && fresh(out)
      ensures ctr == Words(0, 0) && pos == 2
    {
      hide TablesFilled, KeysOf, ExpandedKey, Aes128;
      this.sbox := sbox;
      this.key := key;
      var tables := new bv32[5, 256];
      FillLookupTables(sbox, tables);
      var words := new bv32[44];
      ExpandKey(sbox, tables, words, key);
      te := tables;
      rk := words;
      out := new bv8[16];
      ctr := Words(0, 0);
      pos := 2;
    }

    /** get_bits_c99_raw: two words of each block, then the next 128-bit counter. */
    method Next() returns (y: bv64)
      requires Valid()
      modifies this, out
      ensures Valid() && pos == old(pos) % 2 + 1
      ensures ctr == if old(pos) == 2 then NextCounter(old(ctr)) else old(ctr)
      ensures var block := Pack(Aes128(sbox, key, Unpack(PreviousCounter(ctr))));
              y == if pos == 1 then block.u0 else block.u1
    {
      hide TablesFilled, KeysOf, ExpandedKey, StateOfBytes, BytesOfState, Cipher;
      hide Pack, Unpack, NextCounter, PreviousCounter;
      if pos == 2 {
        CounterRoundTrip(ctr);
        Encode(sbox, te, rk, out, Unpack(ctr));
        ctr := NextCounter(ctr);
        pos := 0;
      }
      y := if pos == 0 then Pack(out[..]).u0 else Pack(out[..]).u1;
      pos := pos + 1;
    }
  }
}
