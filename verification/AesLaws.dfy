/** What the steps of the AES cipher in module Aes are, without their own bodies: MixColumns as a product over the
    field, the other steps cell by cell, and the examples of FIPS 197. */
module AesLaws {
  import opened ByteTables
  import opened GaloisField
  import opened Union128
  import Aes

  // ----- MixColumns multiplies by 2, 3, 1, 1 modulo x^8 + x^4 + x^3 + x + 1 -----

  const M: bv16 := 0x11B

  /** r is the remainder of p. */
  ghost predicate Reduces(p: bv16, r: bv16) {
    r < 0x100 && exists q: bv16 :: q < 0x80 && r == Xor(p, Carryless(M, q))
  }

  /** Sum of the products of a column's bytes by four factors. */
  function RowProduct(c: Aes.Col, f0: bv16, f1: bv16, f2: bv16, f3: bv16): bv16 {
    Xor(Xor(Xor(Carryless(Wide(c.b0), f0), Carryless(Wide(c.b1), f1)), Carryless(Wide(c.b2), f2)),
        Carryless(Wide(c.b3), f3))
  }

  /** p reduced by M, if carry says so, is the byte r. */
  predicate Carries(p: bv16, carry: bool, r: bv8) {
    Wide(r) == Xor(p, Pick(carry, M))
  }

  lemma CarrylessSmall(c: bv16)
    ensures Carryless(c, 1) == c && Carryless(c, 2) == Double(c) && Carryless(c, 3) == Xor(c, Double(c))
    ensures Carryless(c, 0) == 0
  {
    hide Xor, Double;
    Aes.CarrylessByX(c);
    assert Half(3) == 1 && Odd(3);
    CarrylessUnfold(c, 3);
    Aes.CarrylessByX(Double(c));
  }

  lemma Once(a: bv8)
    ensures Carries(Carryless(Wide(a), 1), false, a)
  {
    CarrylessSmall(Wide(a));
    hide Carryless;
  }

  lemma Twice(a: bv8)
    ensures Carries(Carryless(Wide(a), 2), a & 0x80 != 0, Aes.Twice(a))
  {
    CarrylessSmall(Wide(a));
    Aes.TwiceWide(a);
    hide Carryless, Aes.Twice, Xor, Double;
  }

  lemma Thrice(a: bv8)
    ensures Carries(Carryless(Wide(a), 3), a & 0x80 != 0, Aes.Thrice(a))
  {
    CarrylessSmall(Wide(a));
    ThriceWide(a);
    hide Carryless, Aes.Thrice, Xor, Double;
  }

  lemma ThriceWide(a: bv8)
    ensures Wide(Aes.Thrice(a)) == Xor(Xor(Wide(a), Double(Wide(a))), Pick(a & 0x80 != 0, M))
  {
  }

  lemma AddCarries(p: bv16, c: bool, r: bv8, p': bv16, c': bool, r': bv8)
    requires Carries(p, c, r) && Carries(p', c', r')
    ensures Carries(Xor(p, p'), c != c', Add(r, r'))
  {
    hide Xor, Pick, Add, Wide;
    WideAdd(r, r');
    Exchange(p, Pick(c, M), p', Pick(c', M));
    PickXor(c, c');
  }

  lemma WideAdd(r: bv8, r': bv8)
    ensures Wide(Add(r, r')) == Xor(Wide(r), Wide(r'))
  {
  }

  lemma PickXor(c: bool, c': bool)
    ensures Xor(Pick(c, M), Pick(c', M)) == Pick(c != c', M)
  {
  }

  lemma FourCarries(p0: bv16, c0: bool, r0: bv8, p1: bv16, c1: bool, r1: bv8,
                    p2: bv16, c2: bool, r2: bv8, p3: bv16, c3: bool, r3: bv8, r: bv16)
    requires Carries(p0, c0, r0) && Carries(p1, c1, r1) && Carries(p2, c2, r2) && Carries(p3, c3, r3)
    ensures Reduces(Xor(Xor(Xor(p0, p1), p2), p3), r) <==> r == Wide(Add(Add(Add(r0, r1), r2), r3))
  {
    hide Xor, Pick, Add, Carries, Wide, Carryless;
    AddCarries(p0, c0, r0, p1, c1, r1);
    AddCarries(Xor(p0, p1), c0 != c1, Add(r0, r1), p2, c2, r2);
    AddCarries(Xor(Xor(p0, p1), p2), (c0 != c1) != c2, Add(Add(r0, r1), r2), p3, c3, r3);
    CarriesReduces(Xor(Xor(Xor(p0, p1), p2), p3), ((c0 != c1) != c2) != c3, Add(Add(Add(r0, r1), r2), r3), r);
  }

  lemma CarriesReduces(p: bv16, c: bool, b: bv8, r: bv16)
    requires Carries(p, c, b)
    ensures Reduces(p, r) <==> r == Wide(b)
  {
    hide Xor, Carryless, Wide;
    var q0: bv16 := if c then 1 else 0;
    CarrylessSmall(M);
    WideSmall(b);
    Aes.LeadingTerm();
    assert Wide(b) == Xor(p, Carryless(M, q0));
    if Reduces(p, r) {
      var q: bv16 :| q < 0x80 && r == Xor(p, Carryless(M, q));
      RemainderUnique(M, p, q0, q, Wide(b), r);
    }
  }

  /** Section 5.1.3: each byte of the new column is the remainder of the sum of the products by 2, 3, 1 and 1. */
  lemma MixColIsProduct(c: Aes.Col, r: bv16)
    ensures Reduces(RowProduct(c, 2, 3, 1, 1), r) <==> r == Wide(Aes.MixCol(c).b0)
    ensures Reduces(RowProduct(c, 1, 2, 3, 1), r) <==> r == Wide(Aes.MixCol(c).b1)
    ensures Reduces(RowProduct(c, 1, 1, 2, 3), r) <==> r == Wide(Aes.MixCol(c).b2)
    ensures Reduces(RowProduct(c, 3, 1, 1, 2), r) <==> r == Wide(Aes.MixCol(c).b3)
  {
    hide Xor, Add, Carries, Carryless, Wide, Reduces, Aes.Twice, Aes.Thrice;
    var w0, w1, w2, w3 := Wide(c.b0), Wide(c.b1), Wide(c.b2), Wide(c.b3);
    var t0, t1, t2, t3 := c.b0 & 0x80 != 0, c.b1 & 0x80 != 0, c.b2 & 0x80 != 0, c.b3 & 0x80 != 0;
    Once(c.b0); Twice(c.b0); Thrice(c.b0);
    Once(c.b1); Twice(c.b1); Thrice(c.b1);
    Once(c.b2); Twice(c.b2); Thrice(c.b2);
    Once(c.b3); Twice(c.b3); Thrice(c.b3);
    FourCarries(Carryless(w0, 2), t0, Aes.Twice(c.b0), Carryless(w1, 3), t1, Aes.Thrice(c.b1),
                Carryless(w2, 1), false, c.b2, Carryless(w3, 1), false, c.b3, r);
    FourCarries(Carryless(w0, 1), false, c.b0, Carryless(w1, 2), t1, Aes.Twice(c.b1),
                Carryless(w2, 3), t2, Aes.Thrice(c.b2), Carryless(w3, 1), false, c.b3, r);
    FourCarries(Carryless(w0, 1), false, c.b0, Carryless(w1, 1), false, c.b1,
                Carryless(w2, 2), t2, Aes.Twice(c.b2), Carryless(w3, 3), t3, Aes.Thrice(c.b3), r);
    FourCarries(Carryless(w0, 3), t0, Aes.Thrice(c.b0), Carryless(w1, 1), false, c.b1,
                Carryless(w2, 1), false, c.b2, Carryless(w3, 2), t3, Aes.Twice(c.b3), r);
  }

  // ----- The other steps, cell by cell -----

  function Byte(c: Aes.Col, r: nat): bv8
    requires r < 4
  {
    if r == 0 then c.b0 else if r == 1 then c.b1 else if r == 2 then c.b2 else c.b3
  }

  /** Row r, column c of the state. */
  function Cell(s: Aes.State, r: nat, c: nat): bv8
    requires r < 4 && c < 4
  {
    Byte(if c == 0 then s.c0 else if c == 1 then s.c1 else if c == 2 then s.c2 else s.c3, r)
  }

  /** Section 3.4: the input fills the state column by column, and the output is read the same way. */
  lemma StateCells(b: Vec, r: nat, c: nat)
    requires r < 4 && c < 4
    ensures Cell(Aes.StateOfBytes(b), r, c) == b[r + 4 * c]
  {
    hide Byte;
    match c
    case 0 => ColumnBytes(b, 0, r);
    case 1 => ColumnBytes(b, 4, r);
    case 2 => ColumnBytes(b, 8, r);
    case _ => ColumnBytes(b, 12, r);
  }

  lemma ColumnBytes(b: Vec, i: nat, r: nat)
    requires i <= 12 && r < 4
    ensures Byte(Aes.Col(b[i], b[i + 1], b[i + 2], b[i + 3]), r) == b[i + r]
  {
  }

  lemma BytesBack(b: Vec)
    ensures Aes.BytesOfState(Aes.StateOfBytes(b)) == b
  {
  }

  /** Section 5.1.1 */
  lemma SubBytesCells(sbox: Sbox, s: Aes.State, r: nat, c: nat)
    requires r < 4 && c < 4
    ensures Cell(Aes.SubBytes(sbox, s), r, c) == At(sbox, Cell(s, r, c))
  {
    hide At;
  }

  /** Section 5.1.2: row r moves r places to the left. */
  lemma ShiftRowsCells(s: Aes.State, r: nat, c: nat)
    requires r < 4 && c < 4
    ensures Cell(Aes.ShiftRows(s), r, c) == Cell(s, r, (c + r) % 4)
  {
  }

  /** Section 5.1.4 */
  lemma AddRoundKeyCells(s: Aes.State, k: Aes.State, r: nat, c: nat)
    requires r < 4 && c < 4
    ensures Cell(Aes.AddRoundKey(s, k), r, c) == Add(Cell(s, r, c), Cell(k, r, c))
  {
    hide Add;
  }

  // ----- Examples of FIPS 197 -----

  /** The entry of the first table for the value 0x63 of the substitution, generators/aes128.c:264. */
  lemma TableExample()
    ensures Aes.ToT0(0x63) == 0xc66363a5 && Aes.ToT4(0x63) == 0x63636363
  {
  }

  const EXAMPLE_KEY: Vec := [0x2b, 0x7e, 0x15, 0x16, 0x28, 0xae, 0xd2, 0xa6,
                             0xab, 0xf7, 0x15, 0x88, 0x09, 0xcf, 0x4f, 0x3c]

  /** Appendix A.1, words 4 to 8: they depend on eight values of the substitution. */
  lemma KeyExpansionExample(sbox: Sbox)
    requires sbox[0xcf] == 0x8a && sbox[0x4f] == 0x84 && sbox[0x3c] == 0xeb && sbox[0x09] == 0x01
    requires sbox[0x6c] == 0x50 && sbox[0x76] == 0x38 && sbox[0x05] == 0x6b && sbox[0x2a] == 0xe5
    ensures Aes.ExpandedWord(sbox, EXAMPLE_KEY, 4) == Aes.Col(0xa0, 0xfa, 0xfe, 0x17)
    ensures Aes.ExpandedWord(sbox, EXAMPLE_KEY, 5) == Aes.Col(0x88, 0x54, 0x2c, 0xb1)
    ensures Aes.ExpandedWord(sbox, EXAMPLE_KEY, 6) == Aes.Col(0x23, 0xa3, 0x39, 0x39)
    ensures Aes.ExpandedWord(sbox, EXAMPLE_KEY, 7) == Aes.Col(0x2a, 0x6c, 0x76, 0x05)
    ensures Aes.ExpandedWord(sbox, EXAMPLE_KEY, 8) == Aes.Col(0xf2, 0xc2, 0x95, 0xf2)
  {
    assert Aes.RoundConstant(1) == 1 && Aes.RoundConstant(2) == 2;
  }

  /** Appendix B, round 1: it depends on sixteen values of the substitution. */
  lemma RoundExample(sbox: Sbox)
    requires sbox[0x19] == 0xd4 && sbox[0x3d] == 0x27 && sbox[0xe3] == 0x11 && sbox[0xbe] == 0xae
    requires sbox[0xa0] == 0xe0 && sbox[0xf4] == 0xbf && sbox[0xe2] == 0x98 && sbox[0x2b] == 0xf1
    requires sbox[0x9a] == 0xb8 && sbox[0xc6] == 0xb4 && sbox[0x8d] == 0x5d && sbox[0x2a] == 0xe5
    requires sbox[0xe9] == 0x1e && sbox[0xf8] == 0x41 && sbox[0x48] == 0x52 && sbox[0x08] == 0x30
    ensures Aes.Round(sbox,
              Aes.State(Aes.Col(0x19, 0x3d, 0xe3, 0xbe), Aes.Col(0xa0, 0xf4, 0xe2, 0x2b),
                        Aes.Col(0x9a, 0xc6, 0x8d, 0x2a), Aes.Col(0xe9, 0xf8, 0x48, 0x08)),
              Aes.State(Aes.Col(0xa0, 0xfa, 0xfe, 0x17), Aes.Col(0x88, 0x54, 0x2c, 0xb1),
                        Aes.Col(0x23, 0xa3, 0x39, 0x39), Aes.Col(0x2a, 0x6c, 0x76, 0x05)))
            == Aes.State(Aes.Col(0xa4, 0x9c, 0x7f, 0xf2), Aes.Col(0x68, 0x9f, 0x35, 0x2b),
                         Aes.Col(0x6b, 0x5b, 0xea, 0x43), Aes.Col(0x02, 0x6a, 0x50, 0x49))
  {
  }
}
