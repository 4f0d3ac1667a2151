/** Linear complexity of a bit sequence: the Berlekamp-Massey routine of apps/sr_tiny.c.

    Bits are booleans: XOR is `!=`, AND is `&&`.  A connection polynomial is a sequence of
    coefficients c[0], c[1], ..., c[L] with c[0] == 1. */
module BerlekampMassey {

  /** XOR of c[i] & s[j - i] over i in 0..L: the discrepancy of c at position j. */
  ghost function Conv(c: seq<bool>, L: nat, s: seq<bool>, j: nat): bool
    requires L < |c| && L <= j < |s|
  {
    if L == 0 then c[0] && s[j] else Conv(c, L - 1, s, j) != (c[L] && s[j - L])
  }

  /** The feedback shift register (c, L) produces the first N bits of s. */
  ghost predicate Generates(c: seq<bool>, L: nat, s: seq<bool>, N: nat)
    requires N <= |s|
  {
    && L < |c| && c[0]
    && forall j | L <= j < N :: !Conv(c, L, s, j)
  }

  /** No register shorter than L produces the first N bits of s. */
  ghost predicate Shortest(L: nat, s: seq<bool>, N: nat)
    requires N <= |s|
  {
    forall c, K: nat | Generates(c, K, s, N) :: L <= K
  }

  ghost predicate IsLinearComplexity(s: seq<bool>, L: nat) {
    && Shortest(L, s, |s|)
    && exists c :: Generates(c, L, s, |s|)
  }

  /** The inputs for which arrays of |s| cells are too small: the empty sequence and 0...01. */
  ghost predicate NeedsExtraCell(s: seq<bool>) {
    s == [] || (s[|s| - 1] && forall i | 0 <= i < |s| - 1 :: !s[i])
  }

  ghost predicate ZeroBeyond(c: seq<bool>, L: nat) {
    forall i | L < i < |c| :: !c[i]
  }

  // ----- Massey's lemma -----

  /** XOR of c[i] & Conv(e, K, s, N - i) over i in 0..L. */
  ghost function Double(c: seq<bool>, L: nat, e: seq<bool>, K: nat, s: seq<bool>, N: nat): bool
    requires L < |c| && K < |e| && L + K <= N < |s|
  {
    var last := c[L] && Conv(e, K, s, N - L);
    if L == 0 then last else Double(c, L - 1, e, K, s, N) != last
  }

  lemma {:induction false} DoublePeelInner(c: seq<bool>, L: nat, e: seq<bool>, K: nat, s: seq<bool>, N: nat)
    requires L < |c| && 0 < K < |e| && L + K <= N < |s|
    ensures Double(c, L, e, K, s, N) == (Double(c, L, e, K - 1, s, N) != (e[K] && Conv(c, L, s, N - K)))
  {
    if L > 0 {
      DoublePeelInner(c, L - 1, e, K, s, N);
    }
  }

  /** Exchange of the two XOR sums. */
  lemma {:induction false} DoubleSymmetric(c: seq<bool>, L: nat, e: seq<bool>, K: nat, s: seq<bool>, N: nat)
    requires L < |c| && K < |e| && L + K <= N < |s|
    ensures Double(c, L, e, K, s, N) == Double(e, K, c, L, s, N)
    decreases L + K
  {
    if L == 0 && K == 0 {
    } else if L == 0 {
      DoublePeelInner(c, L, e, K, s, N);
      DoubleSymmetric(c, L, e, K - 1, s, N);
    } else {
      DoublePeelInner(e, K, c, L, s, N);
      DoubleSymmetric(c, L - 1, e, K, s, N);
    }
  }

  /** When e vanishes at N-L .. N-1, only the i = 0 row of the double sum is left. */
  lemma {:induction false} DoubleCollapses(c: seq<bool>, L: nat, e: seq<bool>, K: nat, s: seq<bool>, N: nat)
    requires L < |c| && c[0] && K < |e| && L + K <= N < |s|
    requires forall j | N - L <= j < N :: !Conv(e, K, s, j)
    ensures Double(c, L, e, K, s, N) == Conv(e, K, s, N)
  {
    if L > 0 {
      DoubleCollapses(c, L - 1, e, K, s, N);
    }
  }

  /** A register that fits N bits but fails on bit N forces every register that fits N + 1 bits
      to have length at least N + 1 - L. */
  lemma MasseyBound(c: seq<bool>, L: nat, e: seq<bool>, K: nat, s: seq<bool>, N: nat)
    requires L <= N < |s|
    requires Generates(c, L, s, N) && Conv(c, L, s, N)
    requires Generates(e, K, s, N + 1)
    ensures N + 1 <= L + K
  {
    if L + K <= N {
      DoubleCollapses(c, L, e, K, s, N);
      DoubleCollapses(e, K, c, L, s, N);
      DoubleSymmetric(c, L, e, K, s, N);
    }
  }

  // ----- The update C(x) + x^shift B(x) -----

  lemma {:induction false} ConvPadded(c: seq<bool>, L: nat, K: nat, s: seq<bool>, j: nat)
    requires L <= K < |c| && K <= j < |s| && ZeroBeyond(c, L)
    ensures Conv(c, K, s, j) == Conv(c, L, s, j)
  {
    if L < K {
      ConvPadded(c, L, K - 1, s, j);
    }
  }

  lemma {:induction false} ConvPrefix(c: seq<bool>, e: seq<bool>, L: nat, s: seq<bool>, j: nat)
    requires L < |c| && L < |e| && L <= j < |s|
    requires forall i | 0 <= i <= L :: c[i] == e[i]
    ensures Conv(c, L, s, j) == Conv(e, L, s, j)
  {
    if L > 0 {
      ConvPrefix(c, e, L - 1, s, j);
    }
  }

  /** r == c + x^shift b on the cells that exist below n. */
  ghost predicate IsUpdate(r: seq<bool>, c: seq<bool>, b: seq<bool>, shift: nat, n: nat) {
    && |r| == |c| == |b| && n <= |r|
    && forall i | 0 <= i < |r| :: r[i] == if shift <= i < n then c[i] != b[i - shift] else c[i]
  }

  lemma {:induction false} ConvBelowShift(r: seq<bool>, c: seq<bool>, b: seq<bool>, shift: nat, n: nat,
                                          K: nat, s: seq<bool>, j: nat)
    requires IsUpdate(r, c, b, shift, n) && K < shift && K < |r| && K <= j < |s|
    ensures Conv(r, K, s, j) == Conv(c, K, s, j)
  {
    ConvPrefix(r, c, K, s, j);
  }

  lemma {:induction false} ConvUpdate(r: seq<bool>, c: seq<bool>, b: seq<bool>, shift: nat, n: nat,
                                      K: nat, s: seq<bool>, j: nat)
    requires IsUpdate(r, c, b, shift, n) && 0 < shift <= K < n && K <= j < |s|
    ensures Conv(r, K, s, j) == (Conv(c, K, s, j) != Conv(b, K - shift, s, j - shift))
  {
    if K == shift {
      ConvBelowShift(r, c, b, shift, n, K - 1, s, j);
    } else {
      ConvUpdate(r, c, b, shift, n, K - 1, s, j);
    }
  }

  /** What the loop knows at position N: (c, L) fits the first N bits; b is the register that was
      given up at position m, with L == m + 1 - |its length|; nothing shorter than L fits. */
  ghost predicate Fits(c: seq<bool>, L: nat, b: seq<bool>, m: int, s: seq<bool>, N: nat)
    requires N <= |s|
  {
    && |s| <= |c| == |b| && 0 < |c|
    && L <= N && -1 <= m < N && L <= m + 1
    && c[0] && Generates(c, L, s, N) && ZeroBeyond(c, L)
    && (m == -1 ==> L == 0)
    && ZeroBeyond(b, m + 1 - L) && b[0]
    && (m >= 0 ==> 0 < L && Generates(b, m + 1 - L, s, m) && Conv(b, m + 1 - L, s, m))
    && Shortest(L, s, N)
  }

  /** The corrected polynomial fits one bit more, with the new length. */
  lemma UpdateFits(r: seq<bool>, c: seq<bool>, L: nat, b: seq<bool>, m: int, s: seq<bool>, N: nat)
    requires N < |s| && Fits(c, L, b, m, s, N) && Conv(c, L, s, N)
    requires IsUpdate(r, c, b, N - m, |s|) && (2 * L <= N ==> N + 1 - L < |c|)
    ensures if 2 * L <= N then Fits(r, N + 1 - L, c, N, s, N + 1) else Fits(r, L, b, m, s, N + 1)
  {
    var K := if 2 * L <= N then N + 1 - L else L;
    forall j | K <= j < N + 1
      ensures !Conv(r, K, s, j)
    {
      var shift := N - m;
      ConvUpdate(r, c, b, shift, |s|, K, s, j);
      ConvPadded(c, L, K, s, j);
      ConvPadded(b, m + 1 - L, K - shift, s, j - shift);
    }
    var M := N + 1;
    forall e, Q: nat | Generates(e, Q, s, M)
      ensures K <= Q
    {
      assert Generates(e, Q, s, N);
      MasseyBound(c, L, e, Q, s, N);
    }
  }

  lemma StartFits(c: seq<bool>, s: seq<bool>)
    requires |s| <= |c| && 0 < |c| && c[0] && ZeroBeyond(c, 0)
    ensures Fits(c, 0, c, -1, s, 0)
  {
  }

  /** No correction: the register predicts bit N. */
  lemma KeepFits(c: seq<bool>, L: nat, b: seq<bool>, m: int, s: seq<bool>, N: nat)
    requires N < |s| && Fits(c, L, b, m, s, N) && !Conv(c, L, s, N)
    ensures Fits(c, L, b, m, s, N + 1)
  {
    var M := N + 1;
    forall e, Q: nat | Generates(e, Q, s, M)
      ensures L <= Q
    {
      assert Generates(e, Q, s, N);
    }
  }

  /** XORs b into a at an offset, cell by cell. */
  method XorBytes(a: array<bool>, offset: nat, b: array<bool>, len: nat)
    requires a != b && offset + len <= a.Length == b.Length
    modifies a
    ensures IsUpdate(a[..], old(a[..]), b[..], offset, offset + len)
  {
    var i := 0;
    while i < len
      invariant 0 <= i <= len
      invariant forall k | 0 <= k < a.Length ::
                  a[k] == if offset <= k < offset + i then old(a[k]) != b[k - offset] else old(a[k])
    {
      a[offset + i] := a[offset + i] != b[i];
      i := i + 1;
    }
  }

  /** The first len cells of src over dst. */
  ghost function Overlay(src: seq<bool>, dst: seq<bool>, len: nat): seq<bool>
    requires len <= |src| && len <= |dst|
  {
    src[..len] + dst[len..]
  }

  lemma OverlayIsWhole(src: seq<bool>, dst: seq<bool>, L: nat)
    requires L < |src| == |dst| && ZeroBeyond(src, L) && ZeroBeyond(dst, L)
    ensures Overlay(src, dst, L + 1) == src
  {
  }

  method CopyCells(dst: array<bool>, src: array<bool>, len: nat)
    requires dst != src && len <= dst.Length == src.Length
    modifies dst
    ensures dst[..] == Overlay(src[..], old(dst[..]), len)
  {
    var i := 0;
    while i < len
      invariant 0 <= i <= len
      invariant forall k | 0 <= k < dst.Length :: dst[k] == if k < i then src[k] else old(dst[k])
    {
      dst[i] := src[i];
      i := i + 1;
    }
  }

  function Max(x: int, y: int): int { if x < y then y else x }

  /** The branch taken on a non-zero discrepancy; `widest` is the largest number of cells, counted from
      the start of an array, that one of its three copies covers. */
  method Correct(C: array<bool>, B: array<bool>, T: array<bool>, L: nat, m: int, N: nat, s: seq<bool>)
    returns (L': nat, m': int, ghost widest: nat)
    requires C != B && C != T && B != T && T.Length == C.Length
    requires N < |s| && Fits(C[..], L, B[..], m, s, N) && Conv(C[..], L, s, N) && ZeroBeyond(T[..], L)
    requires NeedsExtraCell(s) ==> |s| < C.Length
    modifies C, B, T
    ensures Fits(C[..], L', B[..], m', s, N + 1) && ZeroBeyond(T[..], L')
    ensures L' == if 2 * L <= N then N + 1 - L else L
    ensures widest > |s| <==> L' == |s|
  {
    hide Fits, ZeroBeyond, IsUpdate, Conv, Overlay;
    ghost var c, b := C[..], B[..];
    FitsShape(c, L, b, m, s, N);
    OverlayIsWhole(c, T[..], L);
    CopyCells(T, C, L + 1);
    widest := L + 1;
    XorBytes(C, N - m, B, |s| - N + m);
    widest := Max(widest, N - m + (|s| - N + m));
    UpdateFits(C[..], c, L, b, m, s, N);
    L', m' := L, m;
    if 2 * L <= N {
      L', m' := N + 1 - L, N;
      OverlayIsWhole(c, b, L');
      CopyCells(B, T, L' + 1);
      widest := Max(widest, L' + 1);
    }
  }

  /** Only on 0...01 does the length jump to |s|. */
  lemma LastJump(c: seq<bool>, L: nat, b: seq<bool>, m: int, s: seq<bool>, N: nat)
    requires N < |s| && Fits(c, L, b, m, s, N) && Conv(c, L, s, N) && |s| <= N + 1 - L
    ensures NeedsExtraCell(s)
  {
    assert L == 0 && N == |s| - 1;
    assert Conv(c, 0, s, N) == s[N];
    assert forall j | 0 <= j < N :: !Conv(c, 0, s, j) && Conv(c, 0, s, j) == s[j];
  }

  /** The new length still has its cell, unless the input is one that needs more cells. */
  lemma FitsShape(c: seq<bool>, L: nat, b: seq<bool>, m: int, s: seq<bool>, N: nat)
    requires N < |s| && Fits(c, L, b, m, s, N) && Conv(c, L, s, N)
    requires NeedsExtraCell(s) ==> |s| < |c|
    ensures |s| <= |c| == |b| && L <= N && -1 <= m < N && ZeroBeyond(c, L)
    ensures 2 * L <= N ==> ZeroBeyond(c, N + 1 - L) && ZeroBeyond(b, N + 1 - L) && N + 1 - L < |c|
  {
    if |s| <= N + 1 - L {
      LastJump(c, L, b, m, s, N);
    }
  }

  /** Berlekamp-Massey on work arrays of `cells` cells, where the source has |s|.  That number is enough
      for every input but those of NeedsExtraCell: all accesses are in bounds, and `widest`, the largest
      number of cells that any statement covers, exceeds |s| on those inputs and no others. */
  method BerlekampMassey(s: seq<bool>, cells: nat) returns (L: nat, ghost widest: nat)
    requires |s| <= cells && (NeedsExtraCell(s) ==> |s| < cells)
    ensures L <= |s|
    ensures IsLinearComplexity(s, L)
    ensures widest > |s| <==> NeedsExtraCell(s)
  {
    hide IsLinearComplexity, Shortest;
    var n := |s|;
    var C := new bool[cells](_ => false);
    var B := new bool[cells](_ => false);
    var T := new bool[cells](_ => false);
    C[0], B[0] := true, true;
    widest := 1;
    assert B[..] == C[..];
    L := 0;
    StartFits(C[..], s);
    var N, m := 0, -1;
    while N < n
      invariant N <= n && Fits(C[..], L, B[..], m, s, N)
      invariant ZeroBeyond(T[..], L)
      invariant 0 < widest && (n > 0 ==> (widest > n <==> L == n))
    {
      var d := Discrepancy(C, L, s, N);
      widest := Max(widest, L + 1);
      if d {
        ghost var w;
        L, m, w := Correct(C, B, T, L, m, N, s);
        widest := Max(widest, w);
      } else {
        KeepFits(C[..], L, B[..], m, s, N);
      }
      N := N + 1;
    }
    AtEnd(C[..], L, B[..], m, s);
  }

  /** The inner loop: the bit that the register gets wrong. */
  method Discrepancy(C: array<bool>, L: nat, s: seq<bool>, N: nat) returns (d: bool)
    requires L <= N < |s| && L < C.Length && C[0]
    ensures d == Conv(C[..], L, s, N)
  {
    d := s[N];
    var i := 1;
    while i <= L
      invariant 1 <= i <= L + 1
      invariant d == Conv(C[..], i - 1, s, N)
    {
      d := d != (C[i] && s[N - i]);
      i := i + 1;
    }
  }

  lemma AtEnd(c: seq<bool>, L: nat, b: seq<bool>, m: int, s: seq<bool>)
    requires Fits(c, L, b, m, s, |s|)
    ensures L <= |s| && IsLinearComplexity(s, L)
    ensures s != [] ==> (L == |s| <==> NeedsExtraCell(s))
  {
    assert Generates(c, L, s, |s|);
    if s != [] {
      FullComplexity(s);
      if IsLinearComplexity(s, |s|) {
        var e :| Generates(e, |s|, s, |s|);
        assert |s| <= L;
      }
    }
  }

  // ----- When the complexity is the whole length -----

  /** Feedback from the single position `tap`, counted back from the newest bit. */
  lemma {:induction false} ConvOneTap(c: seq<bool>, L: nat, tap: nat, s: seq<bool>, j: nat)
    requires L < |c| && L <= j < |s| && 0 < tap
    requires forall i | 0 <= i <= L :: c[i] == (i == 0 || i == tap)
    ensures Conv(c, L, s, j) == (s[j] != (tap <= L && s[j - tap]))
  {
    if L > 0 {
      ConvOneTap(c, L - 1, tap, s, j);
    }
  }

  /** A register as long as the whole sequence is needed exactly for 0...01. */
  lemma FullComplexity(s: seq<bool>)
    requires |s| > 0
    ensures IsLinearComplexity(s, |s|) <==> s[|s| - 1] && forall i | 0 <= i < |s| - 1 :: !s[i]
  {
    var n := |s|;
    if s[n - 1] && forall i | 0 <= i < n - 1 :: !s[i] {
      forall c, K: nat | Generates(c, K, s, n)
        ensures n <= K
      {
        if K < n {
          assert !Conv(c, K, s, n - 1);
          ConvOfSilence(c, K, s);
        }
      }
      assert Generates(seq(n + 1, i => i == 0), n, s, n);
    } else {
      var k := if exists i | 0 <= i < n - 1 :: s[i] then var i :| 0 <= i < n - 1 && s[i]; i else 0;
      var tap := n - 1 - k;
      var c := seq(n, i => i == 0 || (s[n - 1] && i == tap));
      if s[n - 1] {
        ConvOneTap(c, n - 1, tap, s, n - 1);
      } else {
        ConvPadded(c, 0, n - 1, s, n - 1);
      }
      assert Generates(c, n - 1, s, n);
    }
  }

  /** Before the last bit there is nothing to feed back. */
  lemma {:induction false} ConvOfSilence(c: seq<bool>, K: nat, s: seq<bool>)
    requires 0 < |s| && K < |s| && K < |c| && c[0]
    requires forall i | 0 <= i < |s| - 1 :: !s[i]
    ensures Conv(c, K, s, |s| - 1) == s[|s| - 1]
  {
    if K > 0 {
      ConvOfSilence(c, K - 1, s);
    }
  }
}
