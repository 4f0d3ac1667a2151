/** What the round function and the key schedule of module Des are, without their own bodies: which table cell and
    which key bit each part comes from (FIPS 46-3). */
module DesLaws {
  import opened Des

  // ----- The round function, one table at a time -----

  /** Every other table is zero. */
  predicate OnlyTable(sw: Tables, g: nat)
    requires g < 8
  {
    forall h, i | 0 <= h < 8 && h != g && 0 <= i < 64 :: sw[h][i] == 0
  }

  /** Bit i of a 32-bit half, bit 1 being the highest. */
  function HalfBit(x: bv32, i: bv6): bv32
    requires 1 <= i <= 32
  {
    (x >> (32 - i)) & 1
  }

  /** Six bits of a half as a number, the first one being the highest. */
  function Number(x: bv32, a: bv6, b: bv6, c: bv6, d: bv6, e: bv6, f: bv6): bv32
    requires 1 <= a <= 32 && 1 <= b <= 32 && 1 <= c <= 32 && 1 <= d <= 32 && 1 <= e <= 32 && 1 <= f <= 32
  {
    (HalfBit(x, a) << 5) | (HalfBit(x, b) << 4) | (HalfBit(x, c) << 3)
    | (HalfBit(x, d) << 2) | (HalfBit(x, e) << 1) | HalfBit(x, f)
  }

  /** Group g of E, by the rows of the standard's table. */
  function Expansion(x: bv32, g: nat): bv32
    requires g < 8
  {
    match g
    case 0 => Number(x, 32, 1, 2, 3, 4, 5)
    case 1 => Number(x, 4, 5, 6, 7, 8, 9)
    case 2 => Number(x, 8, 9, 10, 11, 12, 13)
    case 3 => Number(x, 12, 13, 14, 15, 16, 17)
    case 4 => Number(x, 16, 17, 18, 19, 20, 21)
    case 5 => Number(x, 20, 21, 22, 23, 24, 25)
    case 6 => Number(x, 24, 25, 26, 27, 28, 29)
    case _ => Number(x, 28, 29, 30, 31, 32, 1)
  }

  /** Digit g of a round key: the even digits are the bytes of one word, the odd ones those of the other. */
  function KeyDigit(key: Subkey, g: nat): bv32
    requires g < 8
  {
    match g
    case 0 => (key.k0246 >> 24) & 0xFF
    case 1 => (key.k1357 >> 24) & 0xFF
    case 2 => (key.k0246 >> 16) & 0xFF
    case 3 => (key.k1357 >> 16) & 0xFF
    case 4 => (key.k0246 >> 8) & 0xFF
    case 5 => (key.k1357 >> 8) & 0xFF
    case 6 => key.k0246 & 0xFF
    case _ => key.k1357 & 0xFF
  }

  lemma Group0(x: bv32)
    ensures Number(x, 32, 1, 2, 3, 4, 5) == ExpansionGroup(x, 5)
  {
  }

  lemma Group1(x: bv32)
    ensures Number(x, 4, 5, 6, 7, 8, 9) == ExpansionGroup(x, 9)
  {
  }

  lemma Group2(x: bv32)
    ensures Number(x, 8, 9, 10, 11, 12, 13) == ExpansionGroup(x, 13)
  {
  }

  lemma Group3(x: bv32)
    ensures Number(x, 12, 13, 14, 15, 16, 17) == ExpansionGroup(x, 17)
  {
  }

  lemma Group4(x: bv32)
    ensures Number(x, 16, 17, 18, 19, 20, 21) == ExpansionGroup(x, 21)
  {
  }

  lemma Group5(x: bv32)
    ensures Number(x, 20, 21, 22, 23, 24, 25) == ExpansionGroup(x, 25)
  {
  }

  lemma Group6(x: bv32)
    ensures Number(x, 24, 25, 26, 27, 28, 29) == ExpansionGroup(x, 29)
  {
  }

  lemma Group7(x: bv32)
    ensures Number(x, 28, 29, 30, 31, 32, 1) == ExpansionGroup(x, 1)
  {
  }

  lemma DigitOfNumber(j: bv6, a: bv32)
    requires a == j as bv32
    ensures a < 64 && Digit(a) == j as int
  {
  }

  lemma DigitIndex(a: bv32)
    requires a < 64
    ensures 0 <= Digit(a) < 64
  {
  }

  /** The address of table g in the round function. */
  function Address(x: bv32, key: Subkey, g: nat): bv32
    requires g < 8
  {
    Xor(Expansion(x, g), KeyDigit(key, g))
  }

  function Or8(v0: bv32, v1: bv32, v2: bv32, v3: bv32, v4: bv32, v5: bv32, v6: bv32, v7: bv32): bv32 {
    v0 | v1 | v2 | v3 | v4 | v5 | v6 | v7
  }

  lemma OrOnly(v: bv32)
    ensures Or8(v, 0, 0, 0, 0, 0, 0, 0) == v
    ensures Or8(0, v, 0, 0, 0, 0, 0, 0) == v
    ensures Or8(0, 0, v, 0, 0, 0, 0, 0) == v
    ensures Or8(0, 0, 0, v, 0, 0, 0, 0) == v
    ensures Or8(0, 0, 0, 0, v, 0, 0, 0) == v
    ensures Or8(0, 0, 0, 0, 0, v, 0, 0) == v
    ensures Or8(0, 0, 0, 0, 0, 0, v, 0) == v
    ensures Or8(0, 0, 0, 0, 0, 0, 0, v) == v
  {
  }

  lemma SubstituteIsOr(sw: Tables, a0: bv32, a1: bv32, a2: bv32, a3: bv32, a4: bv32, a5: bv32, a6: bv32, a7: bv32)
    requires a0 < 64 && a1 < 64 && a2 < 64 && a3 < 64 && a4 < 64 && a5 < 64 && a6 < 64 && a7 < 64
    ensures Substitute(sw, a0, a1, a2, a3, a4, a5, a6, a7)
            == Or8(sw[0][Digit(a0)], sw[1][Digit(a1)], sw[2][Digit(a2)], sw[3][Digit(a3)],
                   sw[4][Digit(a4)], sw[5][Digit(a5)], sw[6][Digit(a6)], sw[7][Digit(a7)])
  {
    hide Digit;
    DigitIndex(a0);
    DigitIndex(a1);
    DigitIndex(a2);
    DigitIndex(a3);
    DigitIndex(a4);
    DigitIndex(a5);
    DigitIndex(a6);
    DigitIndex(a7);
  }

  lemma SubstituteOne(sw: Tables, g: nat, a0: bv32, a1: bv32, a2: bv32, a3: bv32,
                      a4: bv32, a5: bv32, a6: bv32, a7: bv32)
    requires a0 < 64 && a1 < 64 && a2 < 64 && a3 < 64 && a4 < 64 && a5 < 64 && a6 < 64 && a7 < 64
    requires g < 8 && OnlyTable(sw, g)
    ensures var a := if g == 0 then a0 else if g == 1 then a1 else if g == 2 then a2 else if g == 3 then a3
                     else if g == 4 then a4 else if g == 5 then a5 else if g == 6 then a6 else a7;
            Substitute(sw, a0, a1, a2, a3, a4, a5, a6, a7) == sw[g][Digit(a)]
  {
    hide Digit, Or8, Substitute;
    SubstituteIsOr(sw, a0, a1, a2, a3, a4, a5, a6, a7);
    DigitIndex(a0);
    DigitIndex(a1);
    DigitIndex(a2);
    DigitIndex(a3);
    DigitIndex(a4);
    DigitIndex(a5);
    DigitIndex(a6);
    DigitIndex(a7);
    OrOnly(sw[0][Digit(a0)]);
    OrOnly(sw[1][Digit(a1)]);
    OrOnly(sw[2][Digit(a2)]);
    OrOnly(sw[3][Digit(a3)]);
    OrOnly(sw[4][Digit(a4)]);
    OrOnly(sw[5][Digit(a5)]);
    OrOnly(sw[6][Digit(a6)]);
    OrOnly(sw[7][Digit(a7)]);
  }

  lemma AddressIsGroup(x: bv32, key: Subkey)
    ensures Des.Address(x, 5, key.k0246, 24) == Address(x, key, 0)
    ensures Des.Address(x, 9, key.k1357, 24) == Address(x, key, 1)
    ensures Des.Address(x, 13, key.k0246, 16) == Address(x, key, 2)
    ensures Des.Address(x, 17, key.k1357, 16) == Address(x, key, 3)
    ensures Des.Address(x, 21, key.k0246, 8) == Address(x, key, 4)
    ensures Des.Address(x, 25, key.k1357, 8) == Address(x, key, 5)
    ensures Des.Address(x, 29, key.k0246, 0) == Address(x, key, 6)
    ensures Des.Address(x, 1, key.k1357, 0) == Address(x, key, 7)
  {
    hide Number, ExpansionGroup, Xor, Masked;
    Group0(x);
    Group1(x);
    Group2(x);
    Group3(x);
    Group4(x);
    Group5(x);
    Group6(x);
    Group7(x);
    KeyBytes(key);
    hide ByteAt, KeyDigit;
  }

  lemma KeyBytes(key: Subkey)
    ensures ByteAt(key.k0246, 24) == KeyDigit(key, 0) && ByteAt(key.k1357, 24) == KeyDigit(key, 1)
    ensures ByteAt(key.k0246, 16) == KeyDigit(key, 2) && ByteAt(key.k1357, 16) == KeyDigit(key, 3)
    ensures ByteAt(key.k0246, 8) == KeyDigit(key, 4) && ByteAt(key.k1357, 8) == KeyDigit(key, 5)
    ensures ByteAt(key.k0246, 0) == KeyDigit(key, 6) && ByteAt(key.k1357, 0) == KeyDigit(key, 7)
  {
    hide Masked;
  }

  /** With all tables but one zero, the round function is that table's entry at the number made of six bits
      of E and six bits of the key. */
  lemma RoundFunctionByTable(sw: Tables, x: bv32, key: Subkey, g: nat, j: bv6)
    requires g < 8 && OnlyTable(sw, g) && Address(x, key, g) == j as bv32
    ensures RoundFunction(sw, x, key) == sw[g][j as int]
  {
    hide RoundFunction, Substitute, Address, Des.Address, Digit, OnlyTable;
    RoundFunctionExpands(sw, x, key);
    AddressIsGroup(x, key);
    SubstituteOne(sw, g, Des.Address(x, 5, key.k0246, 24), Des.Address(x, 9, key.k1357, 24),
                  Des.Address(x, 13, key.k0246, 16), Des.Address(x, 17, key.k1357, 16),
                  Des.Address(x, 21, key.k0246, 8), Des.Address(x, 25, key.k1357, 8),
                  Des.Address(x, 29, key.k0246, 0), Des.Address(x, 1, key.k1357, 0));
    DigitOfNumber(j, Address(x, key, g));
  }

  // ----- ... and all tables together -----

  function Or(u: bv32, v: bv32): bv32 { u | v }

  /** Two sets of tables put together cell by cell. */
  function Together(sw: Tables, sv: Tables): Tables {
    seq(8, h requires 0 <= h < 8 => seq(64, i requires 0 <= i < 64 => Or(sw[h][i], sv[h][i])))
  }

  lemma RawExchange(v0: bv32, v1: bv32, v2: bv32, v3: bv32, v4: bv32, v5: bv32, v6: bv32, v7: bv32,
                    w0: bv32, w1: bv32, w2: bv32, w3: bv32, w4: bv32, w5: bv32, w6: bv32, w7: bv32)
    ensures Or8(v0 | w0, v1 | w1, v2 | w2, v3 | w3, v4 | w4, v5 | w5, v6 | w6, v7 | w7)
            == Or(v0 | v1 | v2 | v3 | v4 | v5 | v6 | v7, w0 | w1 | w2 | w3 | w4 | w5 | w6 | w7)
  {
  }

  lemma OrExchange(v0: bv32, v1: bv32, v2: bv32, v3: bv32, v4: bv32, v5: bv32, v6: bv32, v7: bv32,
                   w0: bv32, w1: bv32, w2: bv32, w3: bv32, w4: bv32, w5: bv32, w6: bv32, w7: bv32)
    ensures Or8(Or(v0, w0), Or(v1, w1), Or(v2, w2), Or(v3, w3), Or(v4, w4), Or(v5, w5), Or(v6, w6), Or(v7, w7))
            == Or(Or8(v0, v1, v2, v3, v4, v5, v6, v7), Or8(w0, w1, w2, w3, w4, w5, w6, w7))
  {
    RawExchange(v0, v1, v2, v3, v4, v5, v6, v7,
                w0, w1, w2, w3, w4, w5, w6, w7);
  }

  lemma TogetherCell(sw: Tables, sv: Tables, h: nat, i: nat)
    requires h < 8 && i < 64
    ensures Together(sw, sv)[h][i] == Or(sw[h][i], sv[h][i])
  {
    hide Or;
  }

  lemma SubstituteTogether(sw: Tables, sv: Tables, a0: bv32, a1: bv32, a2: bv32, a3: bv32,
                           a4: bv32, a5: bv32, a6: bv32, a7: bv32)
    requires a0 < 64 && a1 < 64 && a2 < 64 && a3 < 64 && a4 < 64 && a5 < 64 && a6 < 64 && a7 < 64
    ensures Substitute(Together(sw, sv), a0, a1, a2, a3, a4, a5, a6, a7)
            == Or(Substitute(sw, a0, a1, a2, a3, a4, a5, a6, a7), Substitute(sv, a0, a1, a2, a3, a4, a5, a6, a7))
  {
    hide Digit, Or, Or8, Substitute, Together;
    var st := Together(sw, sv);
    SubstituteIsOr(st, a0, a1, a2, a3, a4, a5, a6, a7);
    SubstituteIsOr(sw, a0, a1, a2, a3, a4, a5, a6, a7);
    SubstituteIsOr(sv, a0, a1, a2, a3, a4, a5, a6, a7);
    DigitIndex(a0);
    TogetherCell(sw, sv, 0, Digit(a0));
    DigitIndex(a1);
    TogetherCell(sw, sv, 1, Digit(a1));
    DigitIndex(a2);
    TogetherCell(sw, sv, 2, Digit(a2));
    DigitIndex(a3);
    TogetherCell(sw, sv, 3, Digit(a3));
    DigitIndex(a4);
    TogetherCell(sw, sv, 4, Digit(a4));
    DigitIndex(a5);
    TogetherCell(sw, sv, 5, Digit(a5));
    DigitIndex(a6);
    TogetherCell(sw, sv, 6, Digit(a6));
    DigitIndex(a7);
    TogetherCell(sw, sv, 7, Digit(a7));
    OrExchange(sw[0][Digit(a0)], sw[1][Digit(a1)], sw[2][Digit(a2)], sw[3][Digit(a3)],
               sw[4][Digit(a4)], sw[5][Digit(a5)], sw[6][Digit(a6)], sw[7][Digit(a7)],
               sv[0][Digit(a0)], sv[1][Digit(a1)], sv[2][Digit(a2)], sv[3][Digit(a3)],
               sv[4][Digit(a4)], sv[5][Digit(a5)], sv[6][Digit(a6)], sv[7][Digit(a7)]);
  }

  /** The round function of two sets of tables put together is the two round functions put together. */
  lemma RoundFunctionTogether(sw: Tables, sv: Tables, x: bv32, key: Subkey)
    ensures RoundFunction(Together(sw, sv), x, key) == Or(RoundFunction(sw, x, key), RoundFunction(sv, x, key))
  {
    hide Or, RoundFunction, Substitute, Des.Address, Together;
    RoundFunctionExpands(Together(sw, sv), x, key);
    RoundFunctionExpands(sw, x, key);
    RoundFunctionExpands(sv, x, key);
    SubstituteTogether(sw, sv, Des.Address(x, 5, key.k0246, 24), Des.Address(x, 9, key.k1357, 24),
                       Des.Address(x, 13, key.k0246, 16), Des.Address(x, 17, key.k1357, 16),
                       Des.Address(x, 21, key.k0246, 8), Des.Address(x, 25, key.k1357, 8),
                       Des.Address(x, 29, key.k0246, 0), Des.Address(x, 1, key.k1357, 0));
  }

  // ----- The key schedule, bit by bit -----

  function Wide(c: bv32): bv64 { c as bv64 }

  lemma Index(k: nat)
    requires k < 28
    ensures var b := k as bv7;
            && b < 28 && b as int == k && (b + 28) as int == k + 28
            && (if b == 0 then 27 else b - 1) as int == (k + 27) % 28
    ensures k as bv7 == 0 <==> k == 0
  {
  }

  lemma HalvesShift(w: bv64, k: bv7)
    requires k < 28
    ensures (Wide(Halves(w).l) >> k) & 1 == (w >> (k + 28)) & 1 && (Wide(Halves(w).r) >> k) & 1 == (w >> k) & 1
    ensures Halves(w).l <= LOW28 && Halves(w).r <= LOW28
  {
  }

  lemma UpperBit(w: bv64, k: nat)
    requires k < 28
    ensures Halves(w).l <= LOW28 && Bit(Wide(Halves(w).l), k) == Bit(w, k + 28)
  {
    hide Bit, Halves, Wide;
    var b := k as bv7;
    Index(k);
    HalvesShift(w, b);
    BitIsShift(Wide(Halves(w).l), b);
    BitIsShift(w, b + 28);
  }

  lemma LowerBit(w: bv64, k: nat)
    requires k < 28
    ensures Halves(w).r <= LOW28 && Bit(Wide(Halves(w).r), k) == Bit(w, k)
  {
    hide Bit, Halves, Wide;
    var b := k as bv7;
    Index(k);
    HalvesShift(w, b);
    BitIsShift(Wide(Halves(w).r), b);
    BitIsShift(w, b);
  }

  lemma JoinShift(h: Block, k: bv7)
    requires k < 28 && h.l <= LOW28 && h.r <= LOW28
    ensures (JoinHalves(h) >> k) & 1 == (Wide(h.r) >> k) & 1
    ensures (JoinHalves(h) >> (k + 28)) & 1 == (Wide(h.l) >> k) & 1
  {
  }

  lemma JoinBits(h: Block, k: nat)
    requires k < 28 && h.l <= LOW28 && h.r <= LOW28
    ensures Bit(JoinHalves(h), k) == Bit(Wide(h.r), k) && Bit(JoinHalves(h), k + 28) == Bit(Wide(h.l), k)
  {
    hide Bit, JoinHalves, Wide;
    var b := k as bv7;
    Index(k);
    JoinShift(h, b);
    BitIsShift(Wide(h.l), b);
    BitIsShift(Wide(h.r), b);
    BitIsShift(JoinHalves(h), b);
    BitIsShift(JoinHalves(h), b + 28);
  }

  lemma RotateShift(c: bv32, k: bv7)
    requires k < 28 && c <= LOW28
    ensures (Wide(Rotate28(c)) >> k) & 1 == (Wide(c) >> (if k == 0 then 27 else k - 1)) & 1
    ensures Rotate28(c) <= LOW28
  {
  }

  lemma RotateBit(c: bv32, k: nat)
    requires k < 28 && c <= LOW28
    ensures Rotate28(c) <= LOW28 && Bit(Wide(Rotate28(c)), k) == Bit(Wide(c), (k + 27) % 28)
  {
    hide Bit, Rotate28, Wide;
    var b := k as bv7;
    Index(k);
    RotateShift(c, b);
    BitIsShift(Wide(Rotate28(c)), b);
    BitIsShift(Wide(c), if b == 0 then 27 else b - 1);
  }

  /** A rotation by n moves every bit n places up. */
  lemma {:induction false} RotateByBit(c: bv32, n: nat, k: nat)
    requires k < 28 && n <= 28 && c <= LOW28
    ensures RotateBy(c, n) <= LOW28 && Bit(Wide(RotateBy(c, n)), k) == Bit(Wide(c), (k + 28 - n) % 28)
  {
    hide Bit, Rotate28, Wide;
    if n > 0 {
      RotateByBit(c, n - 1, (k + 27) % 28);
      RotateBit(RotateBy(c, n - 1), k);
      BackOne(n, k);
    }
  }

  lemma BackOne(n: nat, k: nat)
    requires 0 < n <= 28 && k < 28
    ensures ((k + 27) % 28 + 28 - (n - 1)) % 28 == (k + 28 - n) % 28
  {
  }

  lemma {:induction false} TurnsAtMost(i: nat)
    requires i <= 16
    ensures Turns(i) <= 28
  {
    assert Turns(4) == 6 && Turns(8) == 14 && Turns(12) == 21;
    assert Turns(16) == 28;
    TurnsGrow(i, 16);
  }

  lemma {:induction false} TurnsGrow(i: nat, j: nat)
    requires i <= j <= 16
    ensures Turns(i) <= Turns(j)
  {
    if i < j {
      TurnsGrow(i, j - 1);
    }
  }

  /** Position p of a half, counting from its highest bit, n rotations on. */
  function Turned(p: nat, n: nat): nat { (p + n) % 28 }

  lemma TurnedIndex(p: nat, n: nat)
    requires p < 28 && n <= 28
    ensures (27 - p + 28 - n) % 28 == 27 - Turned(p, n)
  {
  }

  lemma TableShape()
    ensures |PC1| == 56 && Selects(PC1, 64) && |PC2| == 48 && Selects(PC2, 56)
    ensures forall j | 0 <= j < 56 :: 1 <= PC1[j] <= 64
    ensures forall j | 0 <= j < 48 :: 1 <= PC2[j] <= 56
  {
    TablesSelect();
  }

  /** Bit p of C and of D before round key i is taken, by the key bits that PC1 names. */
  lemma HalvesAtBits(key: bv64, i: nat, p: nat)
    requires i <= 16 && p < 28
    ensures |PC1| == 56 && 1 <= PC1[Turned(p, Turns(i))] <= 64 && 1 <= PC1[28 + Turned(p, Turns(i))] <= 64
    ensures HalvesAt(key, i).l <= LOW28 && HalvesAt(key, i).r <= LOW28
    ensures Bit(Wide(HalvesAt(key, i).l), 27 - p) == Bit(key, 64 - PC1[Turned(p, Turns(i))])
    ensures Bit(Wide(HalvesAt(key, i).r), 27 - p) == Bit(key, 64 - PC1[28 + Turned(p, Turns(i))])
  {
    hide Bit, Halves, Wide, Choose, RotateBy, Turns, PC1, PC2, Selects;
    TableShape();
    var n, q := Turns(i), Turned(p, Turns(i));
    var w := Choose(key, 64, PC1, 56);
    TurnsAtMost(i);
    TurnedIndex(p, n);
    LowerBit(w, 27 - q);
    UpperBit(w, 27 - q);
    RotateByBit(Halves(w).l, n, 27 - p);
    RotateByBit(Halves(w).r, n, 27 - p);
    ChooseBit(key, 64, PC1, 56, q);
    ChooseBit(key, 64, PC1, 56, 28 + q);
  }

  /** The 48 bits of round key i. */
  function RoundKey(key: bv64, i: nat): bv64
    requires i < 16
  {
    TablesSelect();
    Choose(JoinHalves(HalvesAt(key, i + 1)), 56, PC2, 48)
  }

  lemma RoundKeyPacked(key: bv64, i: nat)
    requires i < 16
    ensures KeyAt(key, i) == PackKey(RoundKey(key, i))
  {
    hide PackKey, Choose, JoinHalves, HalvesAt, Selects;
  }

  /** Where bit j of round key i comes from: PC2 names a position of C or D, the rotations lead back to a position
      before them, and PC1 names the key bit there. */
  function Source(i: nat, j: nat): (k: nat)
    requires i < 16 && j < 48
    ensures 1 <= k <= 64
  {
    hide PC1, PC2, Selects, Turns;
    TableShape();
    var p := PC2[j] - 1;
    PC1[p / 28 * 28 + Turned(p % 28, Turns(i + 1))]
  }

  /** Bit j of round key i, counting from its highest bit, is that key bit. */
  lemma RoundKeyBit(key: bv64, i: nat, j: nat)
    requires i < 16 && j < 48
    ensures Bit(RoundKey(key, i), 47 - j) == Bit(key, 64 - Source(i, j))
  {
    hide Bit, JoinHalves, HalvesAt, Wide, Choose, Turns, PC1, PC2, Selects;
    TableShape();
    var p, h := PC2[j] - 1, HalvesAt(key, i + 1);
    HalvesAtBits(key, i + 1, p % 28);
    JoinBits(h, 27 - p % 28);
    ChooseBit(JoinHalves(h), 56, PC2, 48, j);
  }

  // ----- What the tables of the schedule choose -----

  /** C takes bits 1, 2, 3 and half of bit 4 of the key bytes, from the last byte to the first ... */
  lemma UpperChoice(bit: nat, byte: nat)
    requires byte < 8 && 8 * bit + byte < 28
    ensures |PC1| == 56 && PC1[8 * bit + byte] == 8 * (7 - byte) + 1 + bit
  {
    match bit
    case 0 =>
    case 1 =>
    case 2 =>
    case _ =>
  }

  /** ... and D takes bits 7, 6, 5 and the other half of bit 4.  Bit 8, the parity, is not chosen. */
  lemma LowerChoice(bit: nat, byte: nat)
    requires bit < 3 && byte < 8
    ensures |PC1| == 56 && PC1[28 + 8 * bit + byte] == 8 * (7 - byte) + 7 - bit
  {
    match bit
    case 0 =>
    case 1 =>
    case _ =>
  }

  lemma LastChoice(byte: nat)
    requires byte < 4
    ensures |PC1| == 56 && PC1[52 + byte] == 8 * (3 - byte) + 4
  {
  }

  /** PC2 chooses 48 of the 56 positions, the first 24 from C, the last 24 from D. */
  lemma SecondChoice(v: nat)
    ensures |PC2| == 48
    ensures v in PC2[..24] <==> 1 <= v <= 28 && v != 9 && v != 18 && v != 22 && v != 25
    ensures v in PC2[24..] <==> 29 <= v <= 56 && v != 35 && v != 38 && v != 43 && v != 54
  {
    SecondHalves();
  }

  lemma SecondHalves()
    ensures |PC2| == 48
    ensures PC2[..24] == [14, 17, 11, 24, 1, 5, 3, 28, 15, 6, 21, 10] + [23, 19, 12, 4, 26, 8, 16, 7, 27, 20, 13, 2]
    ensures PC2[24..]
            == [41, 52, 31, 37, 47, 55, 30, 40, 51, 45, 33, 48] + [44, 49, 39, 56, 34, 53, 46, 42, 50, 36, 29, 32]
  {
  }

  /** One rotation before the keys 1, 2, 9 and 16, two before the others. */
  lemma TurnsOf(i: nat)
    requires i < 16
    ensures Turns(i + 1) == Turns(i) + if i == 0 || i == 1 || i == 8 || i == 15 then 1 else 2
  {
  }
}
