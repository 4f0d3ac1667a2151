/** MIXMAX modulo 2^61 - 1 (generators/mixmax.c): lazy residues, a running checksum, and two ways to
    multiply.  Words are integers; masking with 2^61 - 1 is % P61, shifts are * and /. */
module Mixmax {
  import opened Arithmetic
  import opened BitOperations

  const N := 240
  const P10 := 0x400
  const P29 := 0x2000_0000
  const P51 := 0x8_0000_0000_0000
  const P61 := 0x2000_0000_0000_0000
  const M61 := P61 - 1
  const SPECIAL := 487013230256099140

  // ----- Reduction, rotation and multiplication on single words -----

  /** MOD_MERSENNE: congruent, and at most 2^61 + 6 for a full word. */
  function Fold(k: u64): (r: u64)
    ensures k == r + (k / P61) * M61
  {
    k % P61 + k / P61
  }

  /** Multiplication by 2^51 as the OR of two shifts. */
  function Mulwu(k: u64): nat {
    BitOr(((k * P51) % B64) % P61, k / P10)
  }

  /** The OR loses exactly the bits in which the low ten bits of k meet its bits 61 .. 63. */
  lemma MulwuValue(k: u64)
    ensures Mulwu(k) == P51 * (k % P10) + k / P10 - P51 * BitAnd(k % P10, k / P61)
  {
    var u, v := P51 * (k % P10), k / P10;
    MulwuParts(k);
    OrPlusAnd(u, v);
    PowerFiftyOne();
    AndOfShifted(k % P10, v, 51);
    ShiftUpScales(k % P10, 51);
    ShiftDownDivides(v, 51);
    ShiftUpScales(BitAnd(k % P10, k / P61), 51);
  }

  lemma MulwuParts(k: u64)
    ensures ((k * P51) % B64) % P61 == P51 * (k % P10)
    ensures k / P10 / P51 == k / P61
  {
    DivModUnique(k * P51, P61, k / P10, P51 * (k % P10));
    Regroup(k * P51);
    DivModUnique(k / P10, P51, k / P61, k % P61 / P10);
  }

  lemma PowerFiftyOne()
    ensures PowerOfTwo(51) == P51
  {
    assert PowerOfTwo(10) == 0x400;
    assert PowerOfTwo(20) == 0x10_0000;
    assert PowerOfTwo(30) == 0x4000_0000;
    assert PowerOfTwo(40) == 0x100_0000_0000;
    assert PowerOfTwo(50) == 0x4_0000_0000_0000;
  }

  /** The rotation is multiplication by 2^51 exactly when nothing is lost. */
  lemma MulwuExact(k: u64)
    ensures Congruent(M61, Mulwu(k), P51 * k) <==> BitAnd(k % P10, k / P61) == 0
  {
    MulwuValue(k);
    OrPlusAnd(k % P10, k / P61);
    RotationResidue(k, BitAnd(k % P10, k / P61), Mulwu(k));
  }

  lemma RotationResidue(k: u64, e: nat, w: int)
    requires w == P51 * (k % P10) + k / P10 - P51 * e && e <= 7
    ensures Congruent(M61, w, P51 * k) <==> e == 0
  {
    var q := k / P10;
    assert w == P51 * k - q * M61 - P51 * e;
    if e == 0 {
      CongruentBy(M61, w, P51 * k, -q);
    } else {
      NotCongruentBy(M61, w, P51 * k, -q, P51 * e);
    }
  }

  /** On the lazy residues that occur as partial sums it never loses anything. */
  lemma MulwuLazy(k: u64)
    requires k <= P61
    ensures Congruent(M61, Mulwu(k), P51 * k) && Mulwu(k) <= M61
  {
    MulwuExact(k);
    MulwuValue(k);
  }

  /** fmodmulM61 over a 128-bit product: the sum of low and high part, then the final reduction. */
  function WideSum(t: nat): nat {
    (t % B64 % P61 + t / B64 * 8 + t % B64 / P61) % B64
  }

  function FmodMulWide(cum: u64, a: u64, b: u64): nat {
    MulLe(0, a, b);
    Fold(WideSum((a * b + cum) % (B64 * B64)))
  }

  /** fmodmulM61 from 32-bit halves; h is the product of the high halves, mid the middle column. */
  function SplitSum(t: nat, h: nat, mid: nat): nat {
    (t % B64 % P61 + (h * 8) % B64 + mid % B64 / P29) % B64
  }

  function FmodMulSplit(cum: u64, s: u64, a: u64): nat {
    var ph, pl, ah, al := s / B32, s % B32, a / B32, a % B32;
    MulLe(0, s, a);
    MulLe(0, ph, ah);
    MulLe(0, pl, ah);
    MulLe(0, ph, al);
    MulLe(0, pl, al);
    Fold((SplitSum(s * a, ph * ah, ah * pl + al * ph + al * pl / B32) + cum) % B64)
  }

  /** Both multiplications by SPECIAL give the same canonical residue on every entry that occurs. */
  lemma MultiplicationsAgree(k: u64)
    requires k <= P61 + 1
    ensures FmodMulSplit(0, SPECIAL, k) == FmodMulWide(0, SPECIAL, k) <= M61
    ensures Congruent(M61, FmodMulWide(0, SPECIAL, k), SPECIAL * k)
  {
    var t := SPECIAL * k;
    var ph, pl, ah, al := SPECIAL / B32, SPECIAL % B32, k / B32, k % B32;
    var h, mid := ph * ah, ah * pl + al * ph + al * pl / B32;
    assert ah <= P29 && mid < B64 && h * 8 < B64;
    assert t < P61 * (SPECIAL + 2);
    SplitQuotient(h, mid, al * pl, t);
    assert FmodMulSplit(0, SPECIAL, k) == Fold((SplitSum(t, h, mid) + 0) % B64);
    assert FmodMulWide(0, SPECIAL, k) == Fold(WideSum((t + 0) % (B64 * B64)));
    DivModUnique(t + 0, B64 * B64, 0, t);
    FoldTwice(t);
    var f := t % P61 + t / P61;
    WideSumIs(t);
    SplitSumIs(t, h, mid);
    DivModUnique(f + 0, B64, 0, f);
    hide *;
  }

  lemma SplitQuotient(h: nat, mid: nat, low: nat, t: nat)
    requires t == h * B64 + (mid - low / B32) * B32 + low
    ensures t / P61 == h * 8 + mid / P29
  {
    DivModUnique(t, P61, h * 8 + mid / P29, (mid % P29) * B32 + low % B32);
  }

  lemma WideSumIs(t: nat)
    requires t % P61 + t / P61 < B64
    ensures WideSum(t) == t % P61 + t / P61
  {
    Regroup(t);
  }

  lemma SplitSumIs(t: nat, h: nat, mid: nat)
    requires h * 8 < B64 && mid < B64 && t / P61 == h * 8 + mid / P29 && t % P61 + t / P61 < B64
    ensures SplitSum(t, h, mid) == t % P61 + t / P61
  {
    Regroup(t);
    DivModUnique(h * 8, B64, 0, h * 8);
    DivModUnique(mid, B64, 0, mid);
  }

  /** Two reductions by 61 bits leave a canonical residue of a 121-bit product. */
  lemma FoldTwice(t: nat)
    requires t < P61 * (SPECIAL + 2)
    ensures t % P61 + t / P61 < B64
    ensures var r := Fold(t % P61 + t / P61); r <= M61 && Congruent(M61, r, t)
  {
    var q, f := t / P61, t % P61 + t / P61;
    assert q < SPECIAL + 2 && t == f + q * M61;
    CongruentBy(M61, Fold(f), t, -q - f / P61);
    FoldSmall(f);
  }

  lemma FoldSmall(k: u64)
    requires k < 2 * P61 - 1
    ensures Fold(k) <= M61
  {
  }

  /** A 128-bit number read in words and in 61-bit digits. */
  lemma Regroup(t: nat)
    ensures t % B64 % P61 == t % P61 && t / B64 * 8 + t % B64 / P61 == t / P61
  {
    var q, r := t / B64, t % B64;
    DivModUnique(t, P61, 8 * q + r / P61, r % P61);
  }

  // ----- The matrix map -----

  /** y[1] + ... + y[i]. */
  ghost function Partial(y: seq<u64>, i: nat): int
    requires i < |y|
  {
    if i == 0 then 0 else Partial(y, i - 1) + y[i]
  }

  /** Row i of the matrix applied to y, before the special entry: each row adds to the one above it
      the partial sum up to i and 2^51 times the partial sum up to i - 1. */
  ghost function Row(y: seq<u64>, sum: int, i: nat): int
    requires i < |y|
  {
    if i == 0 then sum else Row(y, sum, i - 1) + Partial(y, i) + P51 * Partial(y, i - 1)
  }

  ghost function Image(y: seq<u64>, sum: int, i: nat): int
    requires i < |y| && 1 < |y|
  {
    Row(y, sum, i) + if i == 2 then SPECIAL * y[1] else 0
  }

  ghost function Total(y: seq<u64>, i: nat): int
    requires i <= |y|
  {
    if i == 0 then 0 else Total(y, i - 1) + y[i - 1]
  }

  /** The matrix of MIXMAX with m = 2^51 + 1: (i - j) m + 2 on and below the diagonal, but for column 0, 1 elsewhere. */
  function Entry(i: nat, j: nat): int {
    if 1 <= j <= i then (i - j) * (0x8_0000_0000_0000 + 1) + 2 else 1
  }

  /** Row i of that matrix times the first n entries of y. */
  ghost function Product(y: seq<u64>, i: nat, n: nat): int
    requires n <= |y|
  {
    if n == 0 then 0 else Product(y, i, n - 1) + Entry(i, n - 1) * y[n - 1]
  }

  lemma {:induction false} FirstProduct(y: seq<u64>, n: nat)
    requires n <= |y|
    ensures Product(y, 0, n) == Total(y, n)
  {
    if n > 0 {
      FirstProduct(y, n - 1);
    }
  }

  /** From one row to the next the entries of columns 1 to i grow by m, and the diagonal starts at 2. */
  lemma {:induction false} NextProduct(y: seq<u64>, i: nat, n: nat)
    requires 1 <= n <= |y| && i + 1 < |y|
    ensures Product(y, i + 1, n) - Product(y, i, n)
            == if n <= i + 1 then (P51 + 1) * Partial(y, n - 1) else (P51 + 1) * Partial(y, i) + y[i + 1]
  {
    if n == 1 {
      assert Product(y, i + 1, 0) == Product(y, i, 0) == 0;
    } else {
      NextProduct(y, i, n - 1);
      EntryGrows(i, n - 1);
      var g: int := if n - 1 <= i then P51 + 1 else if n - 1 == i + 1 then 1 else 0;
      ProductGrows(Entry(i, n - 1), g, y[n - 1]);
    }
  }

  lemma EntryGrows(i: nat, j: nat)
    requires 1 <= j
    ensures Entry(i + 1, j) == Entry(i, j) + if j <= i then P51 + 1 else if j == i + 1 then 1 else 0
  {
  }

  lemma ProductGrows(e: int, g: int, v: int)
    ensures (e + g) * v == e * v + g * v
  {
  }

  /** The rows are those of the matrix. */
  lemma {:induction false} RowIsProduct(y: seq<u64>, i: nat)
    requires i < |y|
    ensures Row(y, Total(y, |y|), i) == Product(y, i, |y|)
  {
    if i == 0 {
      FirstProduct(y, |y|);
    } else {
      RowIsProduct(y, i - 1);
      NextProduct(y, i - 1, |y|);
    }
  }

  lemma {:induction false} RowOfSum(y: seq<u64>, sum: int, sum': int, i: nat)
    requires i < |y|
    ensures Row(y, sum, i) - sum == Row(y, sum', i) - sum'
  {
    if i > 0 {
      RowOfSum(y, sum, sum', i - 1);
    }
  }

  /** With the checksum congruent to the sum of the vector, an iteration applies the matrix, whose entry in row 2 and
      column 1 is greater by 487013230256099140. */
  lemma ImageIsMatrix(y: seq<u64>, sum: int, i: nat)
    requires i < |y| && 1 < |y| && Congruent(M61, sum, Total(y, |y|))
    ensures var special: int := if i == 2 then 487013230256099140 else 0;
            Congruent(M61, Image(y, sum, i), Product(y, i, |y|) + special * y[1])
  {
    hide Congruent;
    var total := Total(y, |y|);
    var rest := Image(y, sum, i) - sum;
    RowIsProduct(y, i);
    RowOfSum(y, sum, total, i);
    CongruentBy(M61, rest, rest, 0);
    CongruentAdd(M61, sum, total, rest, rest);
  }

  lemma {:induction false} TotalUpdate(y: seq<u64>, j: nat, v: u64, i: nat)
    requires j < |y| && i <= |y|
    ensures Total(y[j := v], i) == Total(y, i) + if j < i then v - y[j] else 0
  {
    if i > 0 {
      TotalUpdate(y, j, v, i - 1);
    }
  }

  /** Entries are lazy residues: up to two above the modulus. */
  ghost predicate Lazy(y: seq<u64>) {
    forall i | 0 <= i < |y| :: y[i] <= P61 + 1
  }

  lemma FoldCongruent(k: u64)
    ensures Congruent(M61, Fold(k), k)
  {
    CongruentBy(M61, Fold(k), k, -(k / P61));
  }

  /** One round keeps the lazy bounds, so no sum overflows and the rotation is exact. */
  lemma LazyRound(p: u64, v: u64, y: u64, partial: int, row: int)
    requires p <= P61 && v <= P61 + 1 && y <= P61 + 1
    requires Congruent(M61, p, partial) && Congruent(M61, v, row)
    ensures p + y < B64
    ensures var p' := Fold(p + y);
            && p' <= P61 && Congruent(M61, p', partial + y)
            && v + p' + Mulwu(p) < B64
            && Fold(v + p' + Mulwu(p)) <= P61 + 1
            && Congruent(M61, Fold(v + p' + Mulwu(p)), row + (partial + y) + P51 * partial)
  {
    hide Congruent, Fold, Mulwu;
    LazyBounds(p, v, y);
    MulwuLazy(p);
    var p' := Fold(p + y);
    FoldCongruent(p + y);
    CongruentBy(M61, y, y, 0);
    CongruentAdd(M61, p, partial, y, y);
    CongruentTrans(M61, p', p + y, partial + y);
    CongruentMul(M61, p, partial, P51);
    CongruentTrans(M61, Mulwu(p), P51 * p, P51 * partial);
    LazyTotal(v, row, p', partial + y, Mulwu(p), P51 * partial);
  }

  /** The bounds of the lazy residues in one round. */
  lemma LazyBounds(p: u64, v: u64, y: u64)
    requires p <= P61 && v <= P61 + 1 && y <= P61 + 1
    ensures p + y < B64 && Fold(p + y) <= P61
    ensures v + Fold(p + y) + Mulwu(p) < B64 && Fold(v + Fold(p + y) + Mulwu(p)) <= P61 + 1
  {
    hide Fold, Mulwu, Congruent;
    MulwuLazy(p);
    FoldBound(p + y);
    FoldBound(v + Fold(p + y) + Mulwu(p));
  }

  lemma FoldBound(k: u64)
    ensures k < 2 * P61 ==> Fold(k) <= P61
    ensures k <= 3 * P61 ==> Fold(k) <= P61 + 1
  {
  }

  lemma LazyTotal(v: u64, row: int, p: u64, partial: int, w: u64, product: int)
    requires v + p + w < B64
    requires Congruent(M61, v, row) && Congruent(M61, p, partial) && Congruent(M61, w, product)
    ensures Congruent(M61, Fold(v + p + w), row + partial + product)
  {
    hide Congruent, Fold;
    FoldCongruent(v + p + w);
    CongruentAdd(M61, v, row, p, partial);
    CongruentAdd(M61, v + p, row + partial, w, product);
    CongruentTrans(M61, Fold(v + p + w), v + p + w, row + partial + product);
  }

  /** The wrapped sum of words and the number of its overflows, 2^64 being 8 modulo 2^61 - 1. */
  lemma ChecksumFolds(sum: u64, overflows: nat, total: int)
    requires sum + overflows * B64 == total && overflows <= N
    ensures Fold(sum) + overflows * 8 < B64
    ensures var r := Fold(Fold(sum) + overflows * 8); r <= M61 && Congruent(M61, r, total)
  {
    var s := Fold(sum) + overflows * 8;
    assert s == total - (sum / P61 + overflows * 8) * M61;
    CongruentBy(M61, Fold(s), total, -(sum / P61 + overflows * 8) - s / P61);
  }

  /** sum += v with the test that notices the wrap-around. */
  method AddCounting(sum: u64, v: u64, overflows: nat) returns (sum': u64, overflows': nat)
    ensures sum' + overflows' * B64 == sum + overflows * B64 + v
    ensures overflows' <= overflows + 1
  {
    sum' := (sum + v) % B64;
    overflows' := if sum' < v then overflows + 1 else overflows;
  }

  /** The body of the loop on the two running values. */
  method LazyRoundStep(tempP: u64, tempV: u64, y: u64, ghost partial: int, ghost row: int)
    returns (p: u64, v: u64)
    requires tempP <= P61 && tempV <= P61 + 1 && y <= P61 + 1
    requires Congruent(M61, tempP, partial) && Congruent(M61, tempV, row)
    ensures p <= P61 && Congruent(M61, p, partial + y)
    ensures v <= P61 + 1 && Congruent(M61, v, row + (partial + y) + P51 * partial)
  {
    LazyRound(tempP, tempV, y, partial, row);
    var tempPO := Mulwu(tempP);
    p := Fold(tempP + y);
    v := Fold(tempV + p + tempPO);
  }

  /** What the loop has established before round i, y being the old vector. */
  ghost predicate Iterated(y: seq<u64>, Y: seq<u64>, sum: u64, i: nat) {
    && |y| == |Y| == N && i <= N
    && Lazy(Y) && Y[i..] == y[i..]
    && forall j | 0 <= j < i :: Congruent(M61, Y[j], Row(y, sum, j))
  }

  lemma IteratedNext(y: seq<u64>, Y: seq<u64>, sum: u64, i: nat, v: u64)
    requires i < N && Iterated(y, Y, sum, i) && v <= P61 + 1 && Congruent(M61, v, Row(y, sum, i))
    ensures Iterated(y, Y[i := v], sum, i + 1)
    ensures Total(Y[i := v], i + 1) == Total(Y, i) + v
  {
    TotalUpdate(Y, i, v, i);
    var Z := Y[i := v];
    assert Z[i + 1..] == Y[i..][1..] == y[i..][1..] == y[i + 1..];
  }

  /** The late addition to entry 2. */
  lemma SpecialEntry(y: seq<u64>, Y: seq<u64>, sum: u64, t: u64)
    requires Iterated(y, Y, sum, N) && t <= M61 && Congruent(M61, t, SPECIAL * y[1])
    ensures Y[2] + t < B64
    ensures var Z := Y[2 := Fold(Y[2] + t)];
            && Lazy(Z) && (forall i | 0 <= i < N :: Congruent(M61, Z[i], Image(y, sum, i)))
            && Congruent(M61, Total(Y, N) + t, Total(Z, N))
  {
    var v := Fold(Y[2] + t);
    FoldCongruent(Y[2] + t);
    CongruentAdd(M61, Y[2], Row(y, sum, 2), t, SPECIAL * y[1]);
    CongruentTrans(M61, v, Y[2] + t, Image(y, sum, 2));
    TotalUpdate(Y, 2, v, N);
    CongruentBy(M61, Total(Y, N) + t, Total(Y[2 := v], N), (Y[2] + t) / P61);
  }

  /** One application of the matrix, with the checksum of the new vector as the result. */
  method IterateRawVec(Y: array<u64>, sumtotOld: u64) returns (r: u64)
    requires Y.Length == N && Lazy(Y[..]) && sumtotOld <= M61
    modifies Y
    ensures Lazy(Y[..])
    ensures forall i | 0 <= i < N :: Congruent(M61, Y[i], Image(old(Y[..]), sumtotOld, i))
    ensures r <= M61 && Congruent(M61, r, Total(Y[..], N))
  {
    ghost var y := Y[..];
    var temp2 := Y[1];
    Y[0] := sumtotOld;
    var sumtot, ovflow := AccumulateRows(Y, y);
    MultiplicationsAgree(temp2);
    temp2 := FmodMulWide(0, SPECIAL, temp2);
    ghost var before := Y[..];
    SpecialEntry(y, before, sumtotOld, temp2);
    Y[2] := Fold(Y[2] + temp2);
    assert Y[..] == before[2 := Fold(before[2] + temp2)];
    sumtot, ovflow := AddCounting(sumtot, temp2, ovflow);
    ChecksumFolds(sumtot, ovflow, Total(before, N) + temp2);
    r := Fold(Fold(sumtot) + ovflow * 8);
    CongruentTrans(M61, r, Total(before, N) + temp2, Total(Y[..], N));
  }

  /** The loop of the routine, entered with the old checksum already in Y[0]. */
  method AccumulateRows(Y: array<u64>, ghost y: seq<u64>) returns (sumtot: u64, ovflow: nat)
    requires Y.Length == N == |y| && Lazy(Y[..]) && Y[0] <= M61 && Y[1..] == y[1..]
    modifies Y
    ensures Iterated(y, Y[..], old(Y[0]), N)
    ensures sumtot + ovflow * B64 == Total(Y[..], N) && ovflow < N
  {
    ghost var sum := Y[0];
    var tempP: u64, tempV: u64 := 0, Y[0];
    sumtot, ovflow := Y[0], 0;
    CongruentBy(M61, sum, Row(y, sum, 0), 0);
    CongruentBy(M61, tempP, Partial(y, 0), 0);
    assert Total(Y[..], 1) == Total(Y[..], 0) + Y[0];
    var i := 1;
    while i < N
      invariant 1 <= i <= N && ovflow < i
      invariant Iterated(y, Y[..], sum, i)
      invariant tempP <= P61 && Congruent(M61, tempP, Partial(y, i - 1))
      invariant tempV <= P61 + 1 && Congruent(M61, tempV, Row(y, sum, i - 1))
      invariant sumtot + ovflow * B64 == Total(Y[..], i)
    {
      ghost var before := Y[..];
      assert Y[i] == before[i..][0] == y[i..][0] == y[i];
      tempP, tempV := LazyRoundStep(tempP, tempV, Y[i], Partial(y, i - 1), Row(y, sum, i - 1));
      IteratedNext(y, before, sum, i, tempV);
      Y[i] := tempV;
      assert Y[..] == before[i := tempV];
      sumtot, ovflow := AddCounting(sumtot, tempV, ovflow);
      i := i + 1;
    }
  }

  // ----- The generator -----

  /** The 64-bit generator behind the seeding: multiply, then swap the 32-bit halves. */
  function SeedNext(l: u64): u64 {
    var t := (l * 6364136223846793005) % B64;
    (t % B32) * B32 + t / B32
  }

  /** The halves of the product change places. */
  lemma SeedNextHalves(l: u64)
    ensures SeedNext(l) / B32 == (6364136223846793005 * l) % B32
    ensures SeedNext(l) % B32 == (6364136223846793005 * l) / B32 % B32
  {
    var p := 6364136223846793005 * l;
    var t := p % B64;
    DivModUnique(SeedNext(l), B32, t % B32, t / B32);
    WordHalves(p);
  }

  lemma WordHalves(p: nat)
    ensures p % B64 % B32 == p % B32 && p % B64 / B32 == p / B32 % B32
  {
    var q, r := p / B64, p % B64;
    assert p == B32 * (B32 * q + r / B32) + r % B32;
    DivModUnique(p, B32, B32 * q + r / B32, r % B32);
    DivModUnique(p / B32, B32, q, r / B32);
  }

  /** The step can be taken back: 13877824140714322085 is the inverse of the multiplier. */
  lemma SeedStepBack(l: u64)
    ensures var s := SeedNext(l); ((s % B32 * B32 + s / B32) * 13877824140714322085) % B64 == l
  {
    var t := (l * 6364136223846793005) % B64;
    DivModUnique(SeedNext(l), B32, t % B32, t / B32);
    InverseBack(l, (l * 6364136223846793005) / B64, t);
  }

  lemma InverseBack(l: u64, q: int, t: int)
    requires l * 6364136223846793005 == B64 * q + t
    ensures (t * 13877824140714322085) % B64 == l
  {
    var k := (6364136223846793005 * 13877824140714322085) / B64;
    DivModUnique(t * 13877824140714322085, B64, k * l - q * 13877824140714322085, l);
  }

  /** The state of that generator after i steps; seed 0 is replaced. */
  function SeedState(seed: u64, i: nat): u64 {
    if i == 0 then (if seed == 0 then 0xDEADBEEF else seed) else SeedNext(SeedState(seed, i - 1))
  }

  class Rng {
    const V: array<u64>
    var sumtot: u64
    var counter: nat

    /** Kept by every call: lazy entries and a canonical checksum of all 240 of them. */
    ghost predicate Valid()
      reads this, V
    {
      && V.Length == N && Lazy(V[..]) && counter <= N
      && sumtot <= M61 && Congruent(M61, sumtot, Total(V[..], N))
    }

    /** seed_spbox */
    constructor (seed: u64)
      ensures Valid() && fresh(V) && counter == N
      ensures forall i | 0 <= i < N :: V[i] == SeedState(seed, i + 1) % P61
    {
      hide SeedNext;
      V := new u64[N];
      counter := N;
      new;
      var sum: u64, ovflow: nat := 0, 0;
      var l: u64 := if seed == 0 then 0xDEADBEEF else seed;
      assert l == SeedState(seed, 0);
      var i := 0;
      while i < N
        invariant 0 <= i <= N == V.Length && ovflow <= i && fresh(V) && counter == N
        invariant l == SeedState(seed, i)
        invariant forall j | 0 <= j < i :: V[j] == SeedState(seed, j + 1) % P61
        invariant sum + ovflow * B64 == Total(V[..], i)
      {
        ghost var before := V[..];
        l := SeedNext(l);
        V[i] := l % P61;
        TotalUpdate(before, i, V[i], i);
        assert V[..] == before[i := V[i]];
        sum, ovflow := AddCounting(sum, V[i], ovflow);
        i := i + 1;
      }
      ChecksumFolds(sum, ovflow, Total(V[..], N));
      sumtot := Fold(Fold(sum) + ovflow * 8);
    }

    method GetNext() returns (out: u64)
      requires Valid()
      modifies V, `sumtot, `counter
      ensures Valid()
      ensures old(counter) < N ==> V[..] == old(V[..]) && sumtot == old(sumtot) && counter == old(counter) + 1
      ensures old(counter) == N ==> counter == 2
      ensures old(counter) == N ==>
                forall i | 0 <= i < N :: Congruent(M61, V[i], Image(old(V[..]), old(sumtot), i))
      ensures out == V[counter - 1]
    {
      if counter <= N - 1 {
        counter := counter + 1;
        out := V[counter - 1];
      } else {
        sumtot := IterateRawVec(V, sumtot);
        counter := 2;
        out := V[1];
      }
    }
  }
}
