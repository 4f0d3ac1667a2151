/** The rows of Lmat (generators/kuzn.c:175-196): each is the one before it after one more move of the feedback
    register of RFC 7801. */
module KuznyechikRows {
  import opened GaloisField
  import opened Union128

  // ----- The matrix of the source -----

  /** The coefficients of the feedback register of RFC 7801, section 4.2, for the bytes a_0 .. a_15. */
  const TAPS: Vec := [0x01, 0x94, 0x20, 0x85, 0x10, 0xC2, 0xC0, 0x01,
                      0xFB, 0x01, 0xC0, 0xC2, 0x10, 0x85, 0x20, 0x94]

  function RowsFrom0(k: nat): Vec
    requires k < 4
  {
    match k
    case 0 => [0x01, 0x94, 0x20, 0x85, 0x10, 0xC2, 0xC0, 0x01, 0xFB, 0x01, 0xC0, 0xC2, 0x10, 0x85, 0x20, 0x94]
    case 1 => [0x94, 0xA5, 0x3C, 0x44, 0xD1, 0x8D, 0xB4, 0x54, 0xDE, 0x6F, 0x77, 0x5D, 0x96, 0x74, 0x2D, 0x84]
    case 2 => [0x84, 0x64, 0x48, 0xDF, 0xD3, 0x31, 0xA6, 0x30, 0xE0, 0x5A, 0x44, 0x97, 0xCA, 0x75, 0x99, 0xDD]
    case _ => [0xDD, 0x0D, 0xF8, 0x52, 0x91, 0x64, 0xFF, 0x7B, 0xAF, 0x3D, 0x94, 0xF3, 0xD9, 0xD0, 0xE9, 0x10]
  }

  function RowsFrom4(k: nat): Vec
    requires 4 <= k < 8
  {
    match k
    case 4 => [0x10, 0x89, 0x48, 0x7F, 0x91, 0xEC, 0x39, 0xEF, 0x10, 0xBF, 0x60, 0xE9, 0x30, 0x5E, 0x95, 0xBD]
    case 5 => [0xBD, 0xA2, 0x48, 0xC6, 0xFE, 0xEB, 0x2F, 0x84, 0xC9, 0xAD, 0x7C, 0x1A, 0x68, 0xBE, 0x9F, 0x27]
    case 6 => [0x27, 0x7F, 0xC8, 0x98, 0xF3, 0x0F, 0x54, 0x08, 0xF6, 0xEE, 0x12, 0x8D, 0x2F, 0xB8, 0xD4, 0x5D]
    case _ => [0x5D, 0x4B, 0x8E, 0x60, 0x01, 0x2A, 0x6C, 0x09, 0x49, 0xAB, 0x8D, 0xCB, 0x14, 0x87, 0x49, 0xB8]
  }

  function RowsFrom8(k: nat): Vec
    requires 8 <= k < 12
  {
    match k
    case 8 => [0xB8, 0x6E, 0x2A, 0xD4, 0xB1, 0x37, 0xAF, 0xD4, 0xBE, 0xF1, 0x2E, 0xBB, 0x1A, 0x4E, 0xE6, 0x7A]
    case 9 => [0x7A, 0x16, 0xF5, 0x52, 0x78, 0x99, 0xEB, 0xD5, 0xE7, 0xC4, 0x2D, 0x06, 0x17, 0x62, 0xD5, 0x48]
    case 10 => [0x48, 0xC3, 0x02, 0x0E, 0x58, 0x90, 0xE1, 0xA3, 0x6E, 0xAF, 0xBC, 0xC5, 0x0C, 0xEC, 0x76, 0x6C]
    case _ => [0x6C, 0x4C, 0xDD, 0x65, 0x01, 0xC4, 0xD4, 0x8D, 0xA4, 0x02, 0xEB, 0x20, 0xCA, 0x6B, 0xF2, 0x72]
  }

  function RowsFrom12(k: nat): Vec
    requires 12 <= k < 16
  {
    match k
    case 12 => [0x72, 0xE8, 0x14, 0x07, 0x49, 0xF6, 0xD7, 0xA6, 0x6A, 0xD6, 0x11, 0x1C, 0x0C, 0x10, 0x33, 0x76]
    case 13 => [0x76, 0xE3, 0x30, 0x9F, 0x6B, 0x30, 0x63, 0xA1, 0x2B, 0x1C, 0x43, 0x68, 0x70, 0x87, 0xC8, 0xA2]
    case 14 => [0xA2, 0xD0, 0x44, 0x86, 0x2D, 0xB8, 0x64, 0xC1, 0x9C, 0x89, 0x48, 0x90, 0xDA, 0xC6, 0x20, 0x6E]
    case _ => [0x6E, 0x4D, 0x8E, 0xEA, 0xA9, 0xF6, 0xBF, 0x0A, 0xF3, 0xF2, 0x8E, 0x93, 0xBF, 0x74, 0x98, 0xCF]
  }

  /** Row k of Lmat. */
  function Row(k: nat): Vec
    requires k < 16
  {
    if k < 8 then (if k < 4 then RowsFrom0(k) else RowsFrom4(k))
    else if k < 12 then RowsFrom8(k)
    else RowsFrom12(k)
  }

  /** What a row becomes when the register moves once more. */
  function NextRow(row: Vec): Vec {
    seq(16, j requires 0 <= j < 16 => Add(if j == 0 then 0 else row[j - 1], Multiply(row[15], TAPS[j])))
  }

  /** The multiples of a by the taps. */
  predicate Products(a: bv8, p10: bv8, p20: bv8, p85: bv8, p94: bv8, pC0: bv8, pC2: bv8, pFB: bv8) {
    && Expanded(a, 0x10) == p10
    && Expanded(a, 0x20) == p20
    && Expanded(a, 0x85) == p85
    && Expanded(a, 0x94) == p94
    && Expanded(a, 0xC0) == pC0
    && Expanded(a, 0xC2) == pC2
    && Expanded(a, 0xFB) == pFB
  }

  /** The entries of the next row with the products written out. */
  predicate Follows(row: Vec, next: Vec) {
    var a := row[15];
    && next[0] == a
    && next[1] == Add(row[0], Expanded(a, 0x94))
    && next[2] == Add(row[1], Expanded(a, 0x20))
    && next[3] == Add(row[2], Expanded(a, 0x85))
    && next[4] == Add(row[3], Expanded(a, 0x10))
    && next[5] == Add(row[4], Expanded(a, 0xC2))
    && next[6] == Add(row[5], Expanded(a, 0xC0))
    && next[7] == Add(row[6], a)
    && next[8] == Add(row[7], Expanded(a, 0xFB))
    && next[9] == Add(row[8], a)
    && next[10] == Add(row[9], Expanded(a, 0xC0))
    && next[11] == Add(row[10], Expanded(a, 0xC2))
    && next[12] == Add(row[11], Expanded(a, 0x10))
    && next[13] == Add(row[12], Expanded(a, 0x85))
    && next[14] == Add(row[13], Expanded(a, 0x20))
    && next[15] == Add(row[14], Expanded(a, 0x94))
  }

  lemma FollowsIsNext(row: Vec, next: Vec)
    requires Follows(row, next)
    ensures next == NextRow(row)
  {
    hide Add, Expanded, NextRow, TAPS;
    TapValues();
    TimesOne(row[15]);
    forall j | 0 <= j < 16 ensures next[j] == NextRow(row)[j] {
      NextRowAt(row, j);
    }
  }

  lemma NextRowAt(row: Vec, j: nat)
    requires j < 16
    ensures NextRow(row)[j] == Add(if j == 0 then 0 else row[j - 1], Expanded(row[15], TAPS[j]))
  {
    hide Add, Multiply, Expanded, TAPS;
    ExpandedIsMultiply(row[15], TAPS[j]);
  }

  lemma TapValues()
    ensures TAPS[0] == 0x01 && TAPS[1] == 0x94
    ensures TAPS[2] == 0x20 && TAPS[3] == 0x85
    ensures TAPS[4] == 0x10 && TAPS[5] == 0xC2
    ensures TAPS[6] == 0xC0 && TAPS[7] == 0x01
    ensures TAPS[8] == 0xFB && TAPS[9] == 0x01
    ensures TAPS[10] == 0xC0 && TAPS[11] == 0xC2
    ensures TAPS[12] == 0x10 && TAPS[13] == 0x85
    ensures TAPS[14] == 0x20 && TAPS[15] == 0x94
  {
  }

  lemma TimesOne(a: bv8)
    ensures Expanded(a, 0x01) == a && Add(0, a) == a
  {
  }

  lemma Products1()
    ensures Products(0x94, 0x54, 0xA8, 0x64, 0xA4, 0x76, 0x9D, 0xDF)
  {
  }

  lemma Products2()
    ensures Products(0x84, 0x97, 0xED, 0xE3, 0xF0, 0x2B, 0xE0, 0xB4)
  {
  }

  lemma Products3()
    ensures Products(0xDD, 0x4E, 0x9C, 0x1A, 0x89, 0xCE, 0xB7, 0x9F)
  {
  }

  lemma Products4()
    ensures Products(0x10, 0xC3, 0x45, 0x87, 0x54, 0x5D, 0x7D, 0x6B)
  {
  }

  lemma Products5()
    ensures Products(0xBD, 0x81, 0xC1, 0x8E, 0xB2, 0xC3, 0x7A, 0x26)
  {
  }

  lemma Products6()
    ensures Products(0x27, 0x35, 0x6A, 0xD0, 0xC2, 0xBF, 0xF1, 0x72)
  {
  }

  lemma Products7()
    ensures Products(0x5D, 0x99, 0xF1, 0xA8, 0x6C, 0x63, 0xD9, 0x41)
  {
  }

  lemma Products8()
    ensures Products(0xB8, 0xD1, 0x61, 0x5A, 0x33, 0x85, 0x36, 0xB7)
  {
  }

  lemma Products9()
    ensures Products(0x7A, 0xAC, 0x9B, 0x78, 0xAE, 0xDC, 0x28, 0x33)
  {
  }

  lemma Products10()
    ensures Products(0x48, 0x0A, 0x14, 0xFB, 0xB9, 0x78, 0xE8, 0xBB)
  {
  }

  lemma Products11()
    ensures Products(0x6C, 0x0F, 0x1E, 0x67, 0x04, 0x44, 0x9C, 0x07)
  {
  }

  lemma Products12()
    ensures Products(0x72, 0x2C, 0x58, 0xDA, 0x84, 0x13, 0xF7, 0xE7)
  {
  }

  lemma Products13()
    ensures Products(0x76, 0x6C, 0xD8, 0x8B, 0x91, 0x95, 0x79, 0x8D)
  {
  }

  lemma Products14()
    ensures Products(0xA2, 0xB2, 0xA7, 0xB6, 0xA6, 0x54, 0xD3, 0x3D)
  {
  }

  lemma Products15()
    ensures Products(0x6E, 0x2F, 0x5E, 0xAE, 0xEF, 0x07, 0xDB, 0x32)
  {
  }

  lemma RowFollows1()
    ensures Follows(Row(0), Row(1))
  {
    hide Expanded;
    Products1();
  }

  lemma RowFollows2()
    ensures Follows(Row(1), Row(2))
  {
    hide Expanded;
    Products2();
  }

  lemma RowFollows3()
    ensures Follows(Row(2), Row(3))
  {
    hide Expanded;
    Products3();
  }

  lemma RowFollows4()
    ensures Follows(Row(3), Row(4))
  {
    hide Expanded;
    Products4();
  }

  lemma RowFollows5()
    ensures Follows(Row(4), Row(5))
  {
    hide Expanded;
    Products5();
  }

  lemma RowFollows6()
    ensures Follows(Row(5), Row(6))
  {
    hide Expanded;
    Products6();
  }

  lemma RowFollows7()
    ensures Follows(Row(6), Row(7))
  {
    hide Expanded;
    Products7();
  }

  lemma RowFollows8()
    ensures Follows(Row(7), Row(8))
  {
    hide Expanded;
    Products8();
  }

  lemma RowFollows9()
    ensures Follows(Row(8), Row(9))
  {
    hide Expanded;
    Products9();
  }

  lemma RowFollows10()
    ensures Follows(Row(9), Row(10))
  {
    hide Expanded;
    Products10();
  }

  lemma RowFollows11()
    ensures Follows(Row(10), Row(11))
  {
    hide Expanded;
    Products11();
  }

  lemma RowFollows12()
    ensures Follows(Row(11), Row(12))
  {
    hide Expanded;
    Products12();
  }

  lemma RowFollows13()
    ensures Follows(Row(12), Row(13))
  {
    hide Expanded;
    Products13();
  }

  lemma RowFollows14()
    ensures Follows(Row(13), Row(14))
  {
    hide Expanded;
    Products14();
  }

  lemma RowFollows15()
    ensures Follows(Row(14), Row(15))
  {
    hide Expanded;
    Products15();
  }

  lemma RowFollows(k: nat)
    requires k < 15
    ensures Row(k + 1) == NextRow(Row(k))
  {
    hide Row, NextRow, Follows;
    match k {
      case 0 => RowFollows1();
      case 1 => RowFollows2();
      case 2 => RowFollows3();
      case 3 => RowFollows4();
      case 4 => RowFollows5();
      case 5 => RowFollows6();
      case 6 => RowFollows7();
      case 7 => RowFollows8();
      case 8 => RowFollows9();
      case 9 => RowFollows10();
      case 10 => RowFollows11();
      case 11 => RowFollows12();
      case 12 => RowFollows13();
      case 13 => RowFollows14();
      case _ => RowFollows15();
    }
    FollowsIsNext(Row(k), Row(k + 1));
  }
}
