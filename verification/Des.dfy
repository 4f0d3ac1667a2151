/** DES (generators/des.c): the in-place two-round loop against the Feistel network of FIPS 46-3, and
    the round trip.  The eight substitution tables are arbitrary. */
module Des {

  // ----- Tables and subkeys -----

  type Tables = t: seq<seq<bv32>> | |t| == 8 && forall i | 0 <= i < 8 :: |t[i]| == 64
    witness seq(8, i => seq(64, j => 0))

  /** Each byte holds one 6-bit digit. */
  predicate Masked(w: bv32) { w & 0xC0C0C0C0 == 0 }

  datatype RawSubkey = RawSubkey(k0246: bv32, k1357: bv32)

  type Subkey = k: RawSubkey | Masked(k.k0246) && Masked(k.k1357) witness RawSubkey(0, 0)

  /** The byte of a word at bit 24, 16, 8 or 0; in a masked word it is an index below 64. */
  function ByteAt(w: bv32, at: bv6): (d: bv32)
    requires at == 0 || at == 8 || at == 16 || at == 24
    ensures Masked(w) ==> d < 64
  {
    (w >> at) & 0xFF
  }

  function Digit(w: bv32): nat
    requires w < 64
  {
    (w as bv6) as int
  }

  function Xor(x: bv32, y: bv32): bv32 { x ^ y }

  /** rotr32(x, 3) & 0x3F3F3F3F and rotl32(x, 1) & 0x3F3F3F3F */
  function EvenGroups(x: bv32): (w: bv32)
    ensures Masked(w)
  {
    ((x >> 3) | (x << 29)) & 0x3F3F3F3F
  }

  function OddGroups(x: bv32): (w: bv32)
    ensures Masked(w)
  {
    ((x << 1) | (x >> 31)) & 0x3F3F3F3F
  }

  lemma XorMasked(x: bv32, y: bv32)
    requires Masked(x) && Masked(y)
    ensures Masked(Xor(x, y))
  {
  }

  /** One entry of each table, put together. */
  function Substitute(sw: Tables, a0: bv32, a1: bv32, a2: bv32, a3: bv32, a4: bv32, a5: bv32, a6: bv32, a7: bv32): bv32
    requires a0 < 64 && a1 < 64 && a2 < 64 && a3 < 64 && a4 < 64 && a5 < 64 && a6 < 64 && a7 < 64
  {
    sw[0][Digit(a0)] | sw[1][Digit(a1)] | sw[2][Digit(a2)] | sw[3][Digit(a3)]
    | sw[4][Digit(a4)] | sw[5][Digit(a5)] | sw[6][Digit(a6)] | sw[7][Digit(a7)]
  }

  /** des_ff: the round function by eight table lookups, all in range. */
  function RoundFunction(sw: Tables, x: bv32, key: Subkey): bv32 {
    var x0246 := Xor(EvenGroups(x), key.k0246);
    var x1357 := Xor(OddGroups(x), key.k1357);
    XorMasked(EvenGroups(x), key.k0246);
    XorMasked(OddGroups(x), key.k1357);
    Substitute(sw, ByteAt(x0246, 24), ByteAt(x1357, 24), ByteAt(x0246, 16), ByteAt(x1357, 16),
               ByteAt(x0246, 8), ByteAt(x1357, 8), ByteAt(x0246, 0), ByteAt(x1357, 0))
  }

  /** The expansion E of FIPS 46-3: group g holds the bits 4g to 4g + 5, cyclically, bit 1 being the
      highest, so it is the low end of the word rotated left by 4g + 5. */
  function ExpansionGroup(x: bv32, turn: bv6): (e: bv32)
    requires 0 < turn < 32
    ensures e < 64
  {
    ((x << turn) | (x >> (32 - turn))) & 0x3F
  }

  /** The table address of FIPS 46-3: a group of E plus the key digit. */
  function Address(x: bv32, turn: bv6, k: bv32, at: bv6): (w: bv32)
    requires 0 < turn < 32 && Masked(k) && (at == 0 || at == 8 || at == 16 || at == 24)
    ensures w < 64
  {
    assert ByteAt(k, at) < 64;
    Xor(ExpansionGroup(x, turn), ByteAt(k, at))
  }

  lemma EvenGroupsExpand(x: bv32)
    ensures ByteAt(EvenGroups(x), 24) == ExpansionGroup(x, 5) && ByteAt(EvenGroups(x), 16) == ExpansionGroup(x, 13)
    ensures ByteAt(EvenGroups(x), 8) == ExpansionGroup(x, 21) && ByteAt(EvenGroups(x), 0) == ExpansionGroup(x, 29)
  {
  }

  lemma OddGroupsExpand(x: bv32)
    ensures ByteAt(OddGroups(x), 24) == ExpansionGroup(x, 9) && ByteAt(OddGroups(x), 16) == ExpansionGroup(x, 17)
    ensures ByteAt(OddGroups(x), 8) == ExpansionGroup(x, 25) && ByteAt(OddGroups(x), 0) == ExpansionGroup(x, 1)
  {
  }

  lemma Byte24OfXor(x: bv32, k: bv32)
    ensures ByteAt(Xor(x, k), 24) == Xor(ByteAt(x, 24), ByteAt(k, 24))
  {
  }

  lemma Byte16OfXor(x: bv32, k: bv32)
    ensures ByteAt(Xor(x, k), 16) == Xor(ByteAt(x, 16), ByteAt(k, 16))
  {
  }

  lemma Byte8OfXor(x: bv32, k: bv32)
    ensures ByteAt(Xor(x, k), 8) == Xor(ByteAt(x, 8), ByteAt(k, 8))
  {
  }

  lemma Byte0OfXor(x: bv32, k: bv32)
    ensures ByteAt(Xor(x, k), 0) == Xor(ByteAt(x, 0), ByteAt(k, 0))
  {
  }

  lemma BytesOfXor(x: bv32, k: bv32)
    ensures ByteAt(Xor(x, k), 24) == Xor(ByteAt(x, 24), ByteAt(k, 24))
    ensures ByteAt(Xor(x, k), 16) == Xor(ByteAt(x, 16), ByteAt(k, 16))
    ensures ByteAt(Xor(x, k), 8) == Xor(ByteAt(x, 8), ByteAt(k, 8))
    ensures ByteAt(Xor(x, k), 0) == Xor(ByteAt(x, 0), ByteAt(k, 0))
  {
    hide *;
    Byte24OfXor(x, k);
    Byte16OfXor(x, k);
    Byte8OfXor(x, k);
    Byte0OfXor(x, k);
  }

  /** des_ff expands its input by E, adds the key digit by digit and looks each group up in its table. */
  lemma RoundFunctionExpands(sw: Tables, x: bv32, key: Subkey)
    ensures RoundFunction(sw, x, key)
         == Substitute(sw, Address(x, 5, key.k0246, 24), Address(x, 9, key.k1357, 24),
                           Address(x, 13, key.k0246, 16), Address(x, 17, key.k1357, 16),
                           Address(x, 21, key.k0246, 8), Address(x, 25, key.k1357, 8),
                           Address(x, 29, key.k0246, 0), Address(x, 1, key.k1357, 0))
  {
    hide Substitute, ExpansionGroup, ByteAt, EvenGroups, OddGroups, Xor, Masked;
    EvenGroupsExpand(x);
    OddGroupsExpand(x);
    BytesOfXor(EvenGroups(x), key.k0246);
    BytesOfXor(OddGroups(x), key.k1357);
  }

  // ----- The permutations -----

  datatype Block = Block(l: bv32, r: bv32)

  /** bitswap(L, R, n, mask) */
  function BitSwap(b: Block, n: bv6, mask: bv32): Block
    requires n < 32
  {
    var swap := mask & ((b.r >> n) ^ b.l);
    Block(b.l ^ swap, b.r ^ (swap << n))
  }

  /** bitswap(R, L, n, mask) */
  function BitSwapRL(b: Block, n: bv6, mask: bv32): Block
    requires n < 32
  {
    var c := BitSwap(Block(b.r, b.l), n, mask);
    Block(c.r, c.l)
  }

  lemma BitSwap4Twice(b: Block)
    ensures BitSwap(BitSwap(b, 4, 0x0F0F0F0F), 4, 0x0F0F0F0F) == b
  {
  }

  lemma BitSwap16Twice(b: Block)
    ensures BitSwap(BitSwap(b, 16, 0x0000FFFF), 16, 0x0000FFFF) == b
  {
  }

  lemma BitSwap2Twice(b: Block)
    ensures BitSwap(BitSwap(b, 2, 0x33333333), 2, 0x33333333) == b
  {
  }

  lemma BitSwap8Twice(b: Block)
    ensures BitSwap(BitSwap(b, 8, 0x00FF00FF), 8, 0x00FF00FF) == b
  {
  }

  lemma BitSwap1Twice(b: Block)
    ensures BitSwap(BitSwap(b, 1, 0x55555555), 1, 0x55555555) == b
  {
  }

  function InitialPermutation(b: Block): Block {
    var b := BitSwapRL(b, 4, 0x0F0F0F0F);
    var b := BitSwapRL(b, 16, 0x0000FFFF);
    var b := BitSwap(b, 2, 0x33333333);
    var b := BitSwap(b, 8, 0x00FF00FF);
    BitSwapRL(b, 1, 0x55555555)
  }

  function FinalPermutation(b: Block): Block {
    var b := BitSwapRL(b, 1, 0x55555555);
    var b := BitSwap(b, 8, 0x00FF00FF);
    var b := BitSwap(b, 2, 0x33333333);
    var b := BitSwapRL(b, 16, 0x0000FFFF);
    BitSwapRL(b, 4, 0x0F0F0F0F)
  }

  /** FP and IP undo each other. */
  lemma PermutationsInverse(b: Block)
    ensures FinalPermutation(InitialPermutation(b)) == b
    ensures InitialPermutation(FinalPermutation(b)) == b
  {
    hide BitSwap;
    forall c: Block
      ensures BitSwap(BitSwap(c, 4, 0x0F0F0F0F), 4, 0x0F0F0F0F) == c
      ensures BitSwap(BitSwap(c, 16, 0x0000FFFF), 16, 0x0000FFFF) == c
      ensures BitSwap(BitSwap(c, 2, 0x33333333), 2, 0x33333333) == c
      ensures BitSwap(BitSwap(c, 8, 0x00FF00FF), 8, 0x00FF00FF) == c
      ensures BitSwap(BitSwap(c, 1, 0x55555555), 1, 0x55555555) == c
    {
      BitSwap4Twice(c);
      BitSwap16Twice(c);
      BitSwap2Twice(c);
      BitSwap8Twice(c);
      BitSwap1Twice(c);
    }
  }

  function Split(x: bv64): Block { Block((x >> 32) as bv32, (x & 0xFFFFFFFF) as bv32) }

  function Join(b: Block): bv64 { ((b.l as bv64) << 32) | (b.r as bv64) }

  lemma SplitJoin(x: bv64, b: Block)
    ensures Join(Split(x)) == x && Split(Join(b)) == b
  {
  }

  // ----- The initial permutation of FIPS 46-3 -----

  /** Bit i of a 64-bit block, bit 1 being the highest. */
  function At(x: bv64, i: bv7): bv64
    requires 1 <= i <= 64
  {
    (x >> (64 - i)) & 1
  }

  function Permuted(x: bv64): bv64 { Join(InitialPermutation(Split(x))) }

  /** Four bits of y, from bit first + 1 on, are the bits of x that half a row of the standard's table names. */
  predicate FourMoves(x: bv64, y: bv64, first: bv7, a: bv7, b: bv7, c: bv7, d: bv7)
    requires first <= 60 && 1 <= a <= 64 && 1 <= b <= 64 && 1 <= c <= 64 && 1 <= d <= 64
  {
    && At(y, first + 1) == At(x, a) && At(y, first + 2) == At(x, b)
    && At(y, first + 3) == At(x, c) && At(y, first + 4) == At(x, d)
  }

  lemma InitialBits0(x: bv64)
    ensures FourMoves(x, Permuted(x), 0, 58, 50, 42, 34)
  {
  }

  lemma InitialBits4(x: bv64)
    ensures FourMoves(x, Permuted(x), 4, 26, 18, 10, 2)
  {
  }

  lemma InitialBits8(x: bv64)
    ensures FourMoves(x, Permuted(x), 8, 60, 52, 44, 36)
  {
  }

  lemma InitialBits12(x: bv64)
    ensures FourMoves(x, Permuted(x), 12, 28, 20, 12, 4)
  {
  }

  lemma InitialBits16(x: bv64)
    ensures FourMoves(x, Permuted(x), 16, 62, 54, 46, 38)
  {
  }

  lemma InitialBits20(x: bv64)
    ensures FourMoves(x, Permuted(x), 20, 30, 22, 14, 6)
  {
  }

  lemma InitialBits24(x: bv64)
    ensures FourMoves(x, Permuted(x), 24, 64, 56, 48, 40)
  {
  }

  lemma InitialBits28(x: bv64)
    ensures FourMoves(x, Permuted(x), 28, 32, 24, 16, 8)
  {
  }

  lemma InitialBits32(x: bv64)
    ensures FourMoves(x, Permuted(x), 32, 57, 49, 41, 33)
  {
  }

  lemma InitialBits36(x: bv64)
    ensures FourMoves(x, Permuted(x), 36, 25, 17, 9, 1)
  {
  }

  lemma InitialBits40(x: bv64)
    ensures FourMoves(x, Permuted(x), 40, 59, 51, 43, 35)
  {
  }

  lemma InitialBits44(x: bv64)
    ensures FourMoves(x, Permuted(x), 44, 27, 19, 11, 3)
  {
  }

  lemma InitialBits48(x: bv64)
    ensures FourMoves(x, Permuted(x), 48, 61, 53, 45, 37)
  {
  }

  lemma InitialBits52(x: bv64)
    ensures FourMoves(x, Permuted(x), 52, 29, 21, 13, 5)
  {
  }

  lemma InitialBits56(x: bv64)
    ensures FourMoves(x, Permuted(x), 56, 63, 55, 47, 39)
  {
  }

  lemma InitialBits60(x: bv64)
    ensures FourMoves(x, Permuted(x), 60, 31, 23, 15, 7)
  {
  }

  /** The five bit swaps move every bit to the place that the table IP of the standard gives. */
  lemma InitialPermutationBits(x: bv64)
    ensures FourMoves(x, Permuted(x), 0, 58, 50, 42, 34)
    ensures FourMoves(x, Permuted(x), 4, 26, 18, 10, 2)
    ensures FourMoves(x, Permuted(x), 8, 60, 52, 44, 36)
    ensures FourMoves(x, Permuted(x), 12, 28, 20, 12, 4)
    ensures FourMoves(x, Permuted(x), 16, 62, 54, 46, 38)
    ensures FourMoves(x, Permuted(x), 20, 30, 22, 14, 6)
    ensures FourMoves(x, Permuted(x), 24, 64, 56, 48, 40)
    ensures FourMoves(x, Permuted(x), 28, 32, 24, 16, 8)
    ensures FourMoves(x, Permuted(x), 32, 57, 49, 41, 33)
    ensures FourMoves(x, Permuted(x), 36, 25, 17, 9, 1)
    ensures FourMoves(x, Permuted(x), 40, 59, 51, 43, 35)
    ensures FourMoves(x, Permuted(x), 44, 27, 19, 11, 3)
    ensures FourMoves(x, Permuted(x), 48, 61, 53, 45, 37)
    ensures FourMoves(x, Permuted(x), 52, 29, 21, 13, 5)
    ensures FourMoves(x, Permuted(x), 56, 63, 55, 47, 39)
    ensures FourMoves(x, Permuted(x), 60, 31, 23, 15, 7)
  {
    hide *;
    InitialBits0(x);
    InitialBits4(x);
    InitialBits8(x);
    InitialBits12(x);
    InitialBits16(x);
    InitialBits20(x);
    InitialBits24(x);
    InitialBits28(x);
    InitialBits32(x);
    InitialBits36(x);
    InitialBits40(x);
    InitialBits44(x);
    InitialBits48(x);
    InitialBits52(x);
    InitialBits56(x);
    InitialBits60(x);
  }

  // ----- The Feistel network -----

  function Swap(b: Block): Block { Block(b.r, b.l) }

  /** Rounds in the order of the keys: L' = R, R' = L ^ f(R, K). */
  function Feistel(sw: Tables, b: Block, keys: seq<Subkey>): Block
    decreases |keys|
  {
    if keys == [] then b
    else Feistel(sw, Block(b.r, Xor(b.l, RoundFunction(sw, b.r, keys[0]))), keys[1..])
  }

  function Reverse(keys: seq<Subkey>): (r: seq<Subkey>)
    ensures |r| == |keys| && forall i | 0 <= i < |keys| :: r[i] == keys[|keys| - 1 - i]
  {
    if keys == [] then [] else Reverse(keys[1..]) + [keys[0]]
  }

  /** The cipher: IP, the rounds, the exchange of the halves, and the inverse of IP. */
  function Crypt(sw: Tables, x: bv64, keys: seq<Subkey>): bv64 {
    Join(FinalPermutation(Swap(Feistel(sw, InitialPermutation(Split(x)), keys))))
  }

  lemma {:induction false} FeistelAppend(sw: Tables, b: Block, keys: seq<Subkey>, k: Subkey)
    ensures var c := Feistel(sw, b, keys);
            Feistel(sw, b, keys + [k]) == Block(c.r, Xor(c.l, RoundFunction(sw, c.r, k)))
    decreases |keys|
  {
    hide RoundFunction, Xor;
    if keys == [] {
      assert keys + [k] == [k];
      assert Feistel(sw, b, [k]) == Feistel(sw, Block(b.r, Xor(b.l, RoundFunction(sw, b.r, k))), []);
    } else {
      assert (keys + [k])[1..] == keys[1..] + [k];
      FeistelAppend(sw, Block(b.r, Xor(b.l, RoundFunction(sw, b.r, keys[0]))), keys[1..], k);
    }
  }

  lemma XorTwice(x: bv32, y: bv32)
    ensures Xor(Xor(x, y), y) == x
  {
  }

  /** Running the rounds backwards from the exchanged halves gives back the exchanged input. */
  lemma {:induction false} FeistelInverse(sw: Tables, b: Block, keys: seq<Subkey>)
    ensures Feistel(sw, Swap(Feistel(sw, b, keys)), Reverse(keys)) == Swap(b)
    decreases |keys|
  {
    hide RoundFunction, Xor;
    if keys != [] {
      var c := Block(b.r, Xor(b.l, RoundFunction(sw, b.r, keys[0])));
      FeistelInverse(sw, c, keys[1..]);
      FeistelAppend(sw, Swap(Feistel(sw, b, keys)), Reverse(keys[1..]), keys[0]);
      XorTwice(b.l, RoundFunction(sw, b.r, keys[0]));
    }
  }

  lemma ReverseTwice(keys: seq<Subkey>)
    ensures Reverse(Reverse(keys)) == keys
  {
  }

  /** The cipher with the reversed keys undoes the cipher, for any tables, keys and number of rounds. */
  lemma CryptInverse(sw: Tables, x: bv64, keys: seq<Subkey>)
    ensures Crypt(sw, Crypt(sw, x, keys), Reverse(keys)) == x
  {
    hide Join, Split, InitialPermutation, FinalPermutation, Feistel;
    var b := InitialPermutation(Split(x));
    var c := Swap(Feistel(sw, b, keys));
    SplitJoin(x, FinalPermutation(c));
    PermutationsInverse(c);
    FeistelInverse(sw, b, keys);
    assert Swap(Swap(b)) == b;
    PermutationsInverse(Split(x));
  }

  /** And the cipher undoes the cipher with the reversed keys. */
  lemma CryptOfInverse(sw: Tables, x: bv64, keys: seq<Subkey>)
    ensures Crypt(sw, Crypt(sw, x, Reverse(keys)), keys) == x
  {
    hide Crypt;
    CryptInverse(sw, x, Reverse(keys));
    ReverseTwice(keys);
  }

  /** Different counters give different outputs. */
  lemma CryptInjective(sw: Tables, x: bv64, y: bv64, keys: seq<Subkey>)
    requires Crypt(sw, x, keys) == Crypt(sw, y, keys)
    ensures x == y
  {
    hide Crypt;
    CryptInverse(sw, x, keys);
    CryptInverse(sw, y, keys);
  }

  // ----- The key schedule -----

  const LOW28: bv32 := 0x0FFFFFFF

  /** One rotation of a 28-bit half. */
  function Rotate28(c: bv32): bv32 {
    (LOW28 & (c << 1)) | (1 & (c >> 27))
  }

  function RotateBy(c: bv32, n: nat): bv32 {
    if n == 0 then c else Rotate28(RotateBy(c, n - 1))
  }

  const PC1: seq<nat> :=
    [57, 49, 41, 33, 25, 17, 9, 1, 58, 50, 42, 34, 26, 18] + [10, 2, 59, 51, 43, 35, 27, 19, 11, 3, 60, 52, 44, 36]
    + [63, 55, 47, 39, 31, 23, 15, 7, 62, 54, 46, 38, 30, 22] + [14, 6, 61, 53, 45, 37, 29, 21, 13, 5, 28, 20, 12, 4]

  const PC2: seq<nat> :=
    [14, 17, 11, 24, 1, 5, 3, 28, 15, 6, 21, 10] + [23, 19, 12, 4, 26, 8, 16, 7, 27, 20, 13, 2]
    + [41, 52, 31, 37, 47, 55, 30, 40, 51, 45, 33, 48] + [44, 49, 39, 56, 34, 53, 46, 42, 50, 36, 29, 32]

  const SHIFTS: seq<nat> := [1, 1, 2, 2, 2, 2, 2, 2, 1, 2, 2, 2, 2, 2, 2, 1]

  /** The rotations done before round key i is taken, rounds counting from 1. */
  function Turns(i: nat): nat
    requires i <= 16
  {
    if i == 0 then 0 else Turns(i - 1) + SHIFTS[i - 1]
  }

  function Turn4(c: bv32): bv32 { (LOW28 & (c << 4)) | (c >> 24) }

  lemma FourRotations(c: bv32)
    requires c <= LOW28
    ensures Rotate28(Rotate28(Rotate28(Rotate28(c)))) == Turn4(c) <= LOW28
  {
  }

  lemma SevenTurns(c: bv32)
    requires c <= LOW28
    ensures TurnBy(c, 7) == c
  {
    assert TurnBy(c, 1) == Turn4(c);
    assert TurnBy(c, 2) == Turn4(Turn4(c));
    assert TurnBy(c, 4) == Turn4(Turn4(TurnBy(c, 2)));
    assert TurnBy(c, 6) == Turn4(Turn4(TurnBy(c, 4)));
    assert TurnBy(c, 7) == Turn4(TurnBy(c, 6));
  }

  lemma {:induction false} RotateByTurns(c: bv32, n: nat)
    requires c <= LOW28
    ensures RotateBy(c, n + 4) == RotateBy(Turn4(c), n)
    decreases n
  {
    hide Rotate28, Turn4;
    if n == 0 {
      FourRotations(c);
      assert RotateBy(c, 1) == Rotate28(c);
      assert RotateBy(c, 3) == Rotate28(Rotate28(Rotate28(c)));
    } else {
      RotateByTurns(c, n - 1);
    }
  }

  function TurnBy(c: bv32, n: nat): bv32 {
    if n == 0 then c else Turn4(TurnBy(c, n - 1))
  }

  /** Twenty-eight rotations are a full turn, so the last round key reads the halves as PC1 selected them. */
  lemma FullTurn(c: bv32)
    requires c <= LOW28
    ensures Turns(16) == 28 && RotateBy(c, 28) == c
  {
    hide Rotate28, Turn4;
    SevenTurns(c);
    assert RotateBy(TurnBy(c, 7), 0) == TurnBy(c, 7);
    assert Turns(4) == 6 && Turns(8) == 14 && Turns(12) == 21;
    ghost var d := c;
    for i := 0 to 7
      invariant d <= LOW28 && RotateBy(c, 28) == RotateBy(d, 28 - 4 * i)
      invariant d == TurnBy(c, i)
    {
      RotateByTurns(d, 24 - 4 * i);
      FourRotations(d);
      d := Turn4(d);
    }
  }

  predicate Selects(table: seq<nat>, width: nat) {
    width <= 64 && forall i | 0 <= i < |table| :: 1 <= table[i] <= width
  }

  lemma TablesSelect()
    ensures |PC1| == 56 && Selects(PC1, 64) && |PC2| == 48 && Selects(PC2, 56)
  {
    hide *;
    FirstTableSelects();
    SecondTableSelects();
  }

  lemma FirstTableSelects()
    ensures |PC1| == 56 && Selects(PC1, 64)
  {
    assert Selects([57, 49, 41, 33, 25, 17, 9, 1, 58, 50, 42, 34, 26, 18], 64);
    assert Selects([10, 2, 59, 51, 43, 35, 27, 19, 11, 3, 60, 52, 44, 36], 64);
    assert Selects([63, 55, 47, 39, 31, 23, 15, 7, 62, 54, 46, 38, 30, 22], 64);
    assert Selects([14, 6, 61, 53, 45, 37, 29, 21, 13, 5, 28, 20, 12, 4], 64);
  }

  lemma SecondTableSelects()
    ensures |PC2| == 48 && Selects(PC2, 56)
  {
    assert Selects([14, 17, 11, 24, 1, 5, 3, 28, 15, 6, 21, 10], 56);
    assert Selects([23, 19, 12, 4, 26, 8, 16, 7, 27, 20, 13, 2], 56);
    assert Selects([41, 52, 31, 37, 47, 55, 30, 40, 51, 45, 33, 48], 56);
    assert Selects([44, 49, 39, 56, 34, 53, 46, 42, 50, 36, 29, 32], 56);
  }

  function AppendBit(out: bv64, w: bv64, shift: nat): bv64
    requires shift < 64
  {
    (out << 1) | ((w >> shift) & 1)
  }

  /** The first n bits that a permuted-choice table selects from a word, bit 1 being the highest of `width`. */
  function Choose(w: bv64, width: nat, table: seq<nat>, n: nat): bv64
    requires n <= |table| && Selects(table, width)
  {
    if n == 0 then 0 else AppendBit(Choose(w, width, table, n - 1), w, width - table[n - 1])
  }

  // Bit k of a word, the lowest being bit 0, and the same read with one shift.

  function Bit(w: bv64, k: nat): bool {
    if k == 0 then w & 1 == 1 else Bit(w >> 1, k - 1)
  }

  lemma ShiftOne(w: bv64, k: bv7)
    requires 0 < k < 64
    ensures (w >> k) & 1 == ((w >> 1) >> (k - 1)) & 1
  {
  }

  lemma Predecessor(k: bv7)
    ensures k as int == 0 <==> k == 0
    ensures k > 0 ==> (k - 1) as int == k as int - 1
  {
  }

  lemma {:induction false} BitIsShift(w: bv64, k: bv7)
    requires k < 64
    ensures Bit(w, k as int) <==> (w >> k) & 1 == 1
    decreases k as int
  {
    Predecessor(k);
    if k > 0 {
      ShiftOne(w, k);
      BitIsShift(w >> 1, k - 1);
    }
  }

  lemma BitByShift(w: bv64, k: nat)
    requires k < 64
    ensures Bit(w, k) <==> (w >> k) & 1 == 1
  {
    hide Bit;
    BitIsShift(w, k as bv7);
  }

  lemma TopDropped(c: bv64, k: bv7)
    requires k < 63
    ensures ((c & 0x7FFF_FFFF_FFFF_FFFF) >> k) & 1 == (c >> k) & 1
  {
  }

  lemma AppendShifted(out: bv64, w: bv64, shift: nat)
    requires shift < 64
    ensures AppendBit(out, w, shift) >> 1 == out & 0x7FFF_FFFF_FFFF_FFFF
    ensures AppendBit(out, w, shift) & 1 == (w >> shift) & 1
  {
    AppendRaw(out, (w >> shift) & 1);
  }

  lemma AppendRaw(out: bv64, b: bv64)
    requires b <= 1
    ensures ((out << 1) | b) >> 1 == out & 0x7FFF_FFFF_FFFF_FFFF && ((out << 1) | b) & 1 == b
  {
  }

  lemma TopBitDropped(out: bv64, k: nat)
    requires k < 63
    ensures Bit(out & 0x7FFF_FFFF_FFFF_FFFF, k) == Bit(out, k)
  {
    hide Bit;
    BitIsShift(out, k as bv7);
    BitIsShift(out & 0x7FFF_FFFF_FFFF_FFFF, k as bv7);
    TopDropped(out, k as bv7);
  }

  lemma BitUnfold(w: bv64, k: nat)
    ensures Bit(w, 0) <==> w & 1 == 1
    ensures k > 0 ==> Bit(w, k) == Bit(w >> 1, k - 1)
  {
  }

  /** Appending moves every bit one place up, and the selected bit comes in at the end. */
  lemma AppendBits(out: bv64, w: bv64, shift: nat, k: nat)
    requires shift < 64 && k < 64
    ensures Bit(AppendBit(out, w, shift), k) == if k == 0 then Bit(w, shift) else Bit(out, k - 1)
  {
    hide AppendBit, Bit;
    if k == 0 {
      AppendLast(out, w, shift);
    } else {
      AppendOther(out, w, shift, k);
    }
  }

  lemma AppendLast(out: bv64, w: bv64, shift: nat)
    requires shift < 64
    ensures Bit(AppendBit(out, w, shift), 0) == Bit(w, shift)
  {
    hide AppendBit, Bit;
    AppendShifted(out, w, shift);
    BitUnfold(AppendBit(out, w, shift), 0);
    BitByShift(w, shift);
  }

  lemma AppendOther(out: bv64, w: bv64, shift: nat, k: nat)
    requires shift < 64 && 0 < k < 64
    ensures Bit(AppendBit(out, w, shift), k) == Bit(out, k - 1)
  {
    hide AppendBit, Bit;
    AppendShifted(out, w, shift);
    BitUnfold(AppendBit(out, w, shift), k);
    TopBitDropped(out, k - 1);
  }

  /** What a permuted choice does: entry j of the table, counting from the highest of n selected bits,
      is the bit of the word that the entry names. */
  lemma {:induction false} ChooseBit(w: bv64, width: nat, table: seq<nat>, n: nat, j: nat)
    requires n <= |table| && n <= 64 && j < n && Selects(table, width)
    ensures Bit(Choose(w, width, table, n), n - 1 - j) == Bit(w, width - table[j])
  {
    hide AppendBit, Bit;
    AppendBits(Choose(w, width, table, n - 1), w, width - table[n - 1], n - 1 - j);
    if j < n - 1 {
      ChooseBit(w, width, table, n - 1, j);
    }
  }

  function Halves(pc1: bv64): Block { Block(((pc1 >> 28) & 0x0FFFFFFF) as bv32, (pc1 & 0x0FFFFFFF) as bv32) }

  function JoinHalves(b: Block): bv64 { ((b.l as bv64) << 28) | (b.r as bv64) }

  /** A 48-bit round key with its eight 6-bit digits unwrapped into bytes. */
  function PackKey(sk: bv64): Subkey {
    RawSubkey(
      (((sk >> 18) & 0x3F000000) | ((sk >> 14) & 0x3F0000) | ((sk >> 10) & 0x3F00) | ((sk >> 6) & 0x3F)) as bv32,
      (((sk >> 12) & 0x3F000000) | ((sk >> 8) & 0x3F0000) | ((sk >> 4) & 0x3F00) | (sk & 0x3F)) as bv32)
  }

  /** The unwrapped bytes are the digits of the key, highest first, even and odd ones apart. */
  lemma PackKeyDigits(sk: bv64)
    ensures ByteAt(PackKey(sk).k0246, 24) as bv64 == (sk >> 42) & 0x3F
    ensures ByteAt(PackKey(sk).k1357, 24) as bv64 == (sk >> 36) & 0x3F
    ensures ByteAt(PackKey(sk).k0246, 16) as bv64 == (sk >> 30) & 0x3F
    ensures ByteAt(PackKey(sk).k1357, 16) as bv64 == (sk >> 24) & 0x3F
    ensures ByteAt(PackKey(sk).k0246, 8) as bv64 == (sk >> 18) & 0x3F
    ensures ByteAt(PackKey(sk).k1357, 8) as bv64 == (sk >> 12) & 0x3F
    ensures ByteAt(PackKey(sk).k0246, 0) as bv64 == (sk >> 6) & 0x3F
    ensures ByteAt(PackKey(sk).k1357, 0) as bv64 == sk & 0x3F
  {
  }

  /** The two halves after i rounds of the schedule: PC1, then all rotations of those rounds at once. */
  function HalvesAt(key: bv64, i: nat): Block
    requires i <= 16
  {
    TablesSelect();
    var h := Halves(Choose(key, 64, PC1, 56));
    Block(RotateBy(h.l, Turns(i)), RotateBy(h.r, Turns(i)))
  }

  /** The round keys of FIPS 46-3. */
  function KeyAt(key: bv64, i: nat): Subkey
    requires i < 16
  {
    TablesSelect();
    PackKey(Choose(JoinHalves(HalvesAt(key, i + 1)), 56, PC2, 48))
  }

  method SelectBits(w: bv64, width: nat, table: seq<nat>) returns (out: bv64)
    requires Selects(table, width)
    ensures out == Choose(w, width, table, |table|)
  {
    hide AppendBit;
    out := 0;
    for i := 0 to |table|
      invariant out == Choose(w, width, table, i)
    {
      out := AppendBit(out, w, width - table[i]);
    }
  }

  method RotateHalves(b: Block, times: nat) returns (r: Block)
    ensures r == Block(RotateBy(b.l, times), RotateBy(b.r, times))
  {
    hide Rotate28;
    r := b;
    for j := 0 to times
      invariant r == Block(RotateBy(b.l, j), RotateBy(b.r, j))
    {
      r := Block(Rotate28(r.l), Rotate28(r.r));
    }
  }

  lemma {:induction false} RotateAdd(c: bv32, m: nat, n: nat)
    ensures RotateBy(RotateBy(c, m), n) == RotateBy(c, m + n)
  {
    hide Rotate28;
    if n > 0 {
      RotateAdd(c, m, n - 1);
    }
  }

  lemma NextHalves(key: bv64, i: nat)
    requires i < 16
    ensures var h := HalvesAt(key, i);
            HalvesAt(key, i + 1) == Block(RotateBy(h.l, SHIFTS[i]), RotateBy(h.r, SHIFTS[i]))
  {
    hide RotateBy, Halves, Choose, Selects;
    TablesSelect();
    var h := Halves(Choose(key, 64, PC1, 56));
    RotateAdd(h.l, Turns(i), SHIFTS[i]);
    RotateAdd(h.r, Turns(i), SHIFTS[i]);
  }

  /** Before the last round key the halves have gone round once: it reads PC1's choice itself. */
  lemma LastHalves(key: bv64)
    ensures Selects(PC1, 64) && |PC1| == 56 && HalvesAt(key, 16) == Halves(Choose(key, 64, PC1, 56))
  {
    hide RotateBy, Choose, Selects, Turns;
    TablesSelect();
    var h := Halves(Choose(key, 64, PC1, 56));
    FullTurn(h.l);
    FullTurn(h.r);
  }

  lemma FirstHalves(key: bv64)
    ensures Selects(PC1, 64) && |PC1| == 56 && HalvesAt(key, 0) == Halves(Choose(key, 64, PC1, 56))
  {
    hide Choose, Selects;
    TablesSelect();
  }

  method KeyOfHalves(key: bv64, i: nat, halves: Block) returns (k: Subkey)
    requires i < 16 && halves == HalvesAt(key, i + 1)
    ensures k == KeyAt(key, i)
  {
    hide HalvesAt, PackKey, JoinHalves, Choose, Selects;
    TablesSelect();
    var sk := SelectBits(JoinHalves(halves), 56, PC2);
    k := PackKey(sk);
  }

  /** fill_key_schedule */
  method FillKeySchedule(subKey: array<Subkey>, key: bv64)
    requires subKey.Length == 16
    modifies subKey
    ensures forall i | 0 <= i < 16 :: subKey[i] == KeyAt(key, i)
  {
    hide HalvesAt, KeyAt, Halves, Choose, RotateBy, Selects;
    TablesSelect();
    FirstHalves(key);
    var pc1 := SelectBits(key, 64, PC1);
    var halves := Halves(pc1);
    for i := 0 to 16
      invariant halves == HalvesAt(key, i)
      invariant forall k | 0 <= k < i :: subKey[k] == KeyAt(key, k)
    {
      NextHalves(key, i);
      halves := RotateHalves(halves, SHIFTS[i]);
      var k := KeyOfHalves(key, i, halves);
      subKey[i] := k;
    }
  }

  // ----- The generator -----

  lemma FeistelOfNone(sw: Tables, b: Block)
    ensures Feistel(sw, b, []) == b
  {
  }

  /** Two rounds in place: each half is updated where it stands. */
  lemma TwoRounds(sw: Tables, b: Block, keys: seq<Subkey>, n: nat)
    requires n + 2 <= |keys|
    ensures var c := Feistel(sw, b, keys[..n]); var l := Xor(c.l, RoundFunction(sw, c.r, keys[n]));
            Feistel(sw, b, keys[..n + 2]) == Block(l, Xor(c.r, RoundFunction(sw, l, keys[n + 1])))
  {
    hide RoundFunction, Xor, Feistel;
    FeistelAppend(sw, b, keys[..n], keys[n]);
    assert keys[..n + 1] == keys[..n] + [keys[n]];
    FeistelAppend(sw, b, keys[..n + 1], keys[n + 1]);
    assert keys[..n + 2] == keys[..n + 1] + [keys[n + 1]];
  }

  class DESState {
    const sw: Tables
    var ctr: bv64
    var key: bv64
    var out: bv64
    const subKey: array<Subkey>

    predicate Valid()
      reads this, subKey
    {
      subKey.Length == 16 && forall i | 0 <= i < 16 :: subKey[i] == KeyAt(key, i)
    }

    /** DESState_init */
    constructor (sw: Tables, key: bv64)
      ensures Valid() && this.key == key && this.sw == sw && ctr == 0 && fresh(subKey)
    {
      hide KeyAt;
      this.sw := sw;
      ctr := 0;
      this.key := key;
      out := 0;
      subKey := new Subkey[16];
      new;
      FillKeySchedule(subKey, key);
    }

    /** DESState_encrypt: the in-place loop does two rounds without exchanging the halves. */
    method Encrypt(x: bv64) returns (y: bv64)
      requires Valid()
      ensures y == Crypt(sw, x, subKey[..])
    {
      hide InitialPermutation, FinalPermutation, Split, Join, RoundFunction, Xor, KeyAt, Feistel;
      FeistelOfNone(sw, InitialPermutation(Split(x)));
      var b := InitialPermutation(Split(x));
      var l, r := b.l, b.r;
      ghost var keys := subKey[..];
      var i := 0;
      while i < 16
        invariant 0 <= i <= 16 && i % 2 == 0
        invariant Feistel(sw, b, keys[..i]) == Block(l, r)
      {
        TwoRounds(sw, b, keys, i);
        l := Xor(l, RoundFunction(sw, r, subKey[i]));
        r := Xor(r, RoundFunction(sw, l, subKey[i + 1]));
        i := i + 2;
      }
      assert keys[..16] == keys;
      y := Join(FinalPermutation(Block(r, l)));
    }

    /** DESState_decrypt */
    method Decrypt(x: bv64) returns (y: bv64)
      requires Valid()
      ensures y == Crypt(sw, x, Reverse(subKey[..]))
    {
      hide InitialPermutation, FinalPermutation, Split, Join, RoundFunction, Xor, KeyAt, Feistel;
      FeistelOfNone(sw, InitialPermutation(Split(x)));
      var b := InitialPermutation(Split(x));
      var l, r := b.l, b.r;
      ghost var keys := Reverse(subKey[..]);
      var i := 15;
      while i >= 1
        invariant -1 <= i <= 15 && i % 2 == 1
        invariant Feistel(sw, b, keys[..15 - i]) == Block(l, r)
      {
        TwoRounds(sw, b, keys, 15 - i);
        l := Xor(l, RoundFunction(sw, r, subKey[i]));
        r := Xor(r, RoundFunction(sw, l, subKey[i - 1]));
        i := i - 2;
      }
      assert keys[..16] == keys;
      y := Join(FinalPermutation(Block(r, l)));
    }

    /** get_bits_raw: the stream is the cipher of the counter. */
    method Next() returns (y: bv64)
      requires Valid()
      modifies this
      ensures Valid() && key == old(key)
      ensures ctr == old(ctr) + 1 && y == out
      ensures y == Crypt(sw, old(ctr), old(subKey[..]))
    {
      hide Crypt, KeyAt;
      y := Encrypt(ctr);
      ctr := ctr + 1;
      out := y;
    }
  }
}
