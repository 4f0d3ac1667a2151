/** 128-bit arithmetic on 64-bit words (include/smokerand/int128defs.h): what it computes, and the portable
    version on 32-bit limbs that computes it. */
module Int128 {
  import opened Arithmetic

  // ----- unsigned_muladd128 and unsigned_add128 -----

  /** The low and high words of a * b + c. */
  function MulAddLo(a: u64, b: u64, c: u64): u64 { (a * b + c) % B64 }

  function MulAddHi(a: u64, b: u64, c: u64): (hi: u64)
    ensures a * b + c == hi * B64 + MulAddLo(a, b, c)
  {
    MulLe(0, a, b);
    MulLe(a, B64 - 1, b);
    (a * b + c) / B64
  }

  // ----- Limbs -----

  /** The number that four 32-bit limbs spell, lowest first. */
  function LimbValue(x: seq<u32>): int
    requires |x| == 4
  {
    x[0] + x[1] * B32 + x[2] * (B32 * B32) + x[3] * (B32 * B32 * B32)
  }

  lemma LimbValueBound(x: seq<u32>)
    requires |x| == 4
    ensures 0 <= LimbValue(x) < B128
  {
  }

  /** Each carry is passed on to the next limb; only the last is lost. */
  lemma CarryChain(x: seq<u32>, y: seq<u32>, c: u64, s0: int, s1: int, s2: int, s3: int)
    requires |x| == |y| == 4
    requires s0 == x[0] + c % B32 && s1 == x[1] + (c / B32 + s0 / B32)
    requires s2 == x[2] + s1 / B32 && s3 == x[3] + s2 / B32
    requires y == [s0 % B32, s1 % B32, s2 % B32, s3 % B32]
    ensures LimbValue(y) == (LimbValue(x) + c) % B128
  {
    assert LimbValue(x) + c == LimbValue(y) + s3 / B32 * B128 by {
      assert s0 == s0 / B32 * B32 + s0 % B32 && s1 == s1 / B32 * B32 + s1 % B32;
      assert s2 == s2 / B32 * B32 + s2 % B32 && s3 == s3 / B32 * B32 + s3 % B32;
      assert c == c / B32 * B32 + c % B32;
    }
    LimbValueBound(y);
    DivModUnique(LimbValue(x) + c, B128, s3 / B32, LimbValue(y));
  }

  /** uadd_128p64_ary_c99: a 64-bit number added to the limbs, modulo 2^128 */
  method AddToLimbs(x: array<u32>, c: u64)
    requires x.Length == 4
    modifies x
    ensures LimbValue(x[..]) == (old(LimbValue(x[..])) + c) % B128
  {
    hide LimbValue;
    ghost var before := x[..];
    var s0: u64 := x[0] + c % B32;
    x[0] := s0 % B32;
    var s1: u64 := x[1] + (c / B32 + s0 / B32);
    x[1] := s1 % B32;
    var s2: u64 := x[2] + s1 / B32;
    x[2] := s2 % B32;
    var s3: u64 := x[3] + s2 / B32;
    x[3] := s3 % B32;
    CarryChain(before, x[..], c, s0, s1, s2, s3);
  }

  lemma ProductBound(x: u32, y: u32)
    ensures 0 <= x * y <= (B32 - 1) * (B32 - 1)
  {
    MulLe(0, x, y);
    MulLe(x, B32 - 1, y);
  }

  /** The limbs of the schoolbook product, from the four partial products p00, p01, p10, p11. */
  lemma Schoolbook(p00: int, p01: int, p10: int, p11: int, m1: int, s1: int, m2: int, s2: int, top: int)
    requires 0 <= p00 <= (B32 - 1) * (B32 - 1) && 0 <= p01 <= (B32 - 1) * (B32 - 1)
    requires 0 <= p10 <= (B32 - 1) * (B32 - 1) && 0 <= p11 <= (B32 - 1) * (B32 - 1)
    requires m1 == p01 + p00 / B32 && s1 == p10 % B32 + m1 % B32
    requires m2 == p11 + p10 / B32 && s2 == m2 % B32 + m1 / B32 + s1 / B32 && top == s2 / B32 + m2 / B32
    ensures p00 % B32 + s1 % B32 * B32 + s2 % B32 * (B32 * B32) + top * (B32 * B32 * B32)
         == p00 + (p01 + p10) * B32 + p11 * (B32 * B32)
    ensures 0 <= m1 < B64 && 0 <= s1 < B64 && 0 <= m2 < B64 && 0 <= s2 < B64 && 0 <= top < B32
  {
    assert p00 == p00 / B32 * B32 + p00 % B32 && p10 == p10 / B32 * B32 + p10 % B32;
    assert m1 == m1 / B32 * B32 + m1 % B32 && m2 == m2 / B32 * B32 + m2 % B32;
    assert s1 == s1 / B32 * B32 + s1 % B32 && s2 == s2 / B32 * B32 + s2 % B32;
  }

  lemma ProductOfHalves(aLo: u32, aHi: u32, bLo: u32, bHi: u32)
    ensures (aHi * B32 + aLo) * (bHi * B32 + bLo)
         == aLo * bLo + (aLo * bHi + aHi * bLo) * B32 + aHi * bHi * (B32 * B32)
  {
  }

  /** Two words that spell a * b + c are its low and high words. */
  lemma WordsOfLimbs(a: u64, b: u64, c: u64, x: seq<u32>)
    requires |x| == 4 && LimbValue(x) == (a * b + c) % B128
    ensures x[0] + x[1] * B32 == MulAddLo(a, b, c) && x[2] + x[3] * B32 == MulAddHi(a, b, c)
  {
    var hi := MulAddHi(a, b, c);
    assert 0 <= a * b + c < B128 by {
      MulLe(0, a, b);
    }
    DivModUnique(a * b + c, B64, x[2] + x[3] * B32, x[0] + x[1] * B32);
    DivModUnique(a * b + c, B64, hi, MulAddLo(a, b, c));
  }

  /** umuladd_64x64p64_c99: four 32-bit products and their carries, no intermediate over 64 bits */
  method MulAddPortable(a: u64, b: u64, c: u64) returns (lo: u64, hi: u64)
    ensures lo == MulAddLo(a, b, c) && hi == MulAddHi(a, b, c)
  {
    hide MulAddLo, MulAddHi;
    var out := new u32[4];
    ProductLimbs(out, a, b);
    ghost var product := a * b;
    if c != 0 {
      AddToLimbs(out, c);
    }
    WordsOfLimbs(a, b, c, out[..]);
    lo, hi := out[0] + out[1] * B32, out[2] + out[3] * B32;
  }

  /** The intermediate sums fit 64 bits and the limbs spell the product. */
  lemma LimbsOfProduct(a: u64, b: u64, m0: int, m1: int, n1: int, s1: int, m2: int, s2: int)
    requires m0 == (a % B32) * (b % B32) && m1 == (a % B32) * (b / B32) + m0 / B32
    requires n1 == (a / B32) * (b % B32) && s1 == n1 % B32 + m1 % B32
    requires m2 == (a / B32) * (b / B32) + n1 / B32 && s2 == m2 % B32 + m1 / B32 + s1 / B32
    ensures 0 <= m0 < B64 && 0 <= m1 < B64 && 0 <= n1 < B64 && 0 <= s1 < B64 && 0 <= m2 < B64 && 0 <= s2 < B64
    ensures s2 / B32 + m2 / B32 < B32
    ensures LimbValue([m0 % B32, s1 % B32, s2 % B32, s2 / B32 + m2 / B32]) == a * b
  {
    var xLo: u32, xHi: u32, aLo: u32, aHi: u32 := b % B32, b / B32, a % B32, a / B32;
    ProductBound(aLo, xLo);
    ProductBound(aLo, xHi);
    ProductBound(aHi, xLo);
    ProductBound(aHi, xHi);
    ProductOfHalves(aLo, aHi, xLo, xHi);
    Schoolbook(aLo * xLo, aLo * xHi, aHi * xLo, aHi * xHi, m1, s1, m2, s2, s2 / B32 + m2 / B32);
    assert a == aHi * B32 + aLo && b == xHi * B32 + xLo;
  }

  method ProductLimbs(out: array<u32>, a: u64, b: u64)
    requires out.Length == 4
    modifies out
    ensures LimbValue(out[..]) == a * b
  {
    hide LimbValue;
    var xLo, xHi, aLo, aHi := b % B32, b / B32, a % B32, a / B32;
    ghost var p01, p10, p11 := aLo * xHi, aHi * xLo, aHi * xHi;
    ghost var m0 := aLo * xLo;
    ghost var m1, m2 := p01 + m0 / B32, p11 + p10 / B32;
    ghost var s1 := p10 % B32 + m1 % B32;
    ghost var s2 := m2 % B32 + m1 / B32 + s1 / B32;
    LimbsOfProduct(a, b, m0, m1, p10, s1, m2, s2);
    var mul: u64 := aLo * xLo;
    assert mul == m0;
    out[0] := mul % B32;
    mul := aLo * xHi + mul / B32;
    assert mul == m1;
    out[1] := mul % B32;
    out[2] := mul / B32;
    mul := aHi * xLo;
    var sum: u64 := mul % B32 + out[1];
    assert sum == s1;
    out[1] := sum % B32;
    mul := aHi * xHi + mul / B32;
    assert mul == m2;
    sum := mul % B32 + out[2] + sum / B32;
    assert sum == s2;
    out[2] := sum % B32;
    out[3] := sum / B32 + mul / B32;
    assert out[..] == [m0 % B32, s1 % B32, s2 % B32, s2 / B32 + m2 / B32];
  }

  // ----- unsigned_add128 -----

  /** The double word (hi, lo) plus v, modulo 2^128. */
  function AddLo(lo: u64, v: u64): u64 { (lo + v) % B64 }

  function AddHi(hi: u64, lo: u64, v: u64): u64 { (hi + (lo + v) / B64) % B64 }

  lemma AddModulo(hi: u64, lo: u64, v: u64)
    ensures AddHi(hi, lo, v) * B64 + AddLo(lo, v) == (hi * B64 + lo + v) % B128
  {
    var k := (hi + (lo + v) / B64) / B64;
    DivModUnique(hi * B64 + lo + v, B128, k, AddHi(hi, lo, v) * B64 + AddLo(lo, v));
  }

  /** uadd_128p64_c99 */
  method AddPortable(hi: u64, lo: u64, v: u64) returns (hi': u64, lo': u64)
    ensures hi' == AddHi(hi, lo, v) && lo' == AddLo(lo, v)
  {
    hide AddHi, AddLo;
    var out := new u32[4];
    out[0], out[1], out[2], out[3] := lo % B32, lo / B32, hi % B32, hi / B32;
    ghost var before := out[..];
    assert LimbValue(before) == hi * B64 + lo;
    AddToLimbs(out, v);
    hi', lo' := out[2] + out[3] * B32, out[0] + out[1] * B32;
    AddModulo(hi, lo, v);
    WordsUnique(hi', lo', AddHi(hi, lo, v), AddLo(lo, v));
  }

  lemma WordsUnique(h: u64, l: u64, hi: u64, lo: u64)
    requires h * B64 + l == hi * B64 + lo
    ensures h == hi && l == lo
  {
  }
}
