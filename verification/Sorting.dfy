/** The hybrid quicksort / insertion sort of apps/sr_tiny.c and the duplicate count that the
    birthday spacings test takes from it. */
module Sorting {

  import opened Arithmetic

  ghost predicate SortedRange(s: seq<u32>, lo: int, hi: int) {
    0 <= lo <= hi <= |s| && forall i, j | lo <= i < j < hi :: s[i] <= s[j]
  }

  ghost predicate IsSorted(s: seq<u32>) {
    SortedRange(s, 0, |s|)
  }

  /** b rearranges the cells lo .. hi - 1 of a and leaves all others alone. */
  ghost predicate Rearranged(a: seq<u32>, b: seq<u32>, lo: int, hi: int) {
    && 0 <= lo <= hi <= |a| == |b|
    && a[..lo] == b[..lo] && a[hi..] == b[hi..]
    && multiset(a[lo..hi]) == multiset(b[lo..hi])
  }

  ghost predicate AtMost(s: seq<u32>, lo: int, hi: int, p: u32) {
    0 <= lo <= hi <= |s| && forall k | lo <= k < hi :: s[k] <= p
  }

  ghost predicate AtLeast(s: seq<u32>, lo: int, hi: int, p: u32) {
    0 <= lo <= hi <= |s| && forall k | lo <= k < hi :: p <= s[k]
  }

  ghost function Swapped(s: seq<u32>, i: nat, j: nat): seq<u32>
    requires i < |s| && j < |s|
  {
    s[i := s[j]][j := s[i]]
  }

  lemma SwapRearranges(s: seq<u32>, i: nat, j: nat, lo: nat, hi: nat)
    requires lo <= i <= j < hi <= |s|
    ensures Rearranged(s, Swapped(s, i, j), lo, hi)
  {
    SwappedSlices(s, i, j, lo, hi);
    SwapKeepsMultiset(s[lo..hi], i - lo, j - lo);
    hide Swapped;
  }

  lemma SwappedSlices(s: seq<u32>, i: nat, j: nat, lo: nat, hi: nat)
    requires lo <= i <= j < hi <= |s|
    ensures var t, u := Swapped(s, i, j), s[lo..hi];
            && |t| == |s| && t[..lo] == s[..lo] && t[hi..] == s[hi..]
            && t[lo..hi] == u[i - lo := u[j - lo]][j - lo := u[i - lo]]
  {
    SliceOfUpdate(s, i, s[j], lo, hi);
    SliceOfUpdate(s[i := s[j]], j, s[i], lo, hi);
  }

  lemma SliceOfUpdate(s: seq<u32>, k: nat, v: u32, lo: nat, hi: nat)
    requires lo <= k < hi <= |s|
    ensures var r := s[k := v]; r[lo..hi] == s[lo..hi][k - lo := v] && r[..lo] == s[..lo] && r[hi..] == s[hi..]
  {
  }

  lemma SwapKeepsMultiset(u: seq<u32>, i: nat, j: nat)
    requires i < |u| && j < |u|
    ensures multiset(u[i := u[j]][j := u[i]]) == multiset(u)
  {
  }

  lemma RearrangedWider(a: seq<u32>, b: seq<u32>, lo: nat, hi: nat, lo': nat, hi': nat)
    requires lo' <= lo <= hi <= hi' <= |a| && Rearranged(a, b, lo, hi)
    ensures Rearranged(a, b, lo', hi')
  {
    assert a[lo'..hi'] == a[lo'..lo] + a[lo..hi] + a[hi..hi'];
    assert b[lo'..hi'] == b[lo'..lo] + b[lo..hi] + b[hi..hi'];
    assert a[lo'..lo] == a[..lo][lo'..] == b[..lo][lo'..] == b[lo'..lo];
    assert a[hi..hi'] == a[hi..][..hi' - hi] == b[hi..][..hi' - hi] == b[hi..hi'];
    assert a[..lo'] == a[..lo][..lo'] == b[..lo][..lo'] == b[..lo'];
    assert a[hi'..] == a[hi..][hi' - hi..] == b[hi..][hi' - hi..] == b[hi'..];
  }

  /** Bounds on a range survive a rearrangement of that range. */
  lemma RearrangedBounds(a: seq<u32>, b: seq<u32>, lo: nat, hi: nat, p: u32)
    requires lo <= hi <= |a| && Rearranged(a, b, lo, hi)
    ensures AtMost(a, lo, hi, p) ==> AtMost(b, lo, hi, p)
    ensures AtLeast(a, lo, hi, p) ==> AtLeast(b, lo, hi, p)
  {
    forall k | lo <= k < hi
      ensures exists j | lo <= j < hi :: a[j] == b[k]
    {
      assert b[k] == b[lo..hi][k - lo];
      assert b[k] in multiset(b[lo..hi]);
      assert b[k] in a[lo..hi];
    }
  }

  lemma OutsideKept(a: seq<u32>, b: seq<u32>, lo: nat, hi: nat)
    requires lo <= hi <= |a| && Rearranged(a, b, lo, hi)
    ensures |a| == |b| && forall k | 0 <= k < lo || hi <= k < |a| :: b[k] == a[k]
  {
    assert forall k | 0 <= k < lo :: b[k] == b[..lo][k] == a[..lo][k] == a[k];
    assert forall k | hi <= k < |a| :: b[k] == b[hi..][k - hi] == a[hi..][k - hi] == a[k];
  }

  lemma RearrangedTwice(a: seq<u32>, b: seq<u32>, c: seq<u32>, lo: int, hi: int)
    requires Rearranged(a, b, lo, hi) && Rearranged(b, c, lo, hi)
    ensures Rearranged(a, c, lo, hi)
  {
  }

  // ----- Insertion sort -----

  /** b is a with a[i] taken out and put back before position j. */
  ghost predicate Inserted(a: seq<u32>, b: seq<u32>, j: int, i: int) {
    && 0 <= j <= i < |a| == |b|
    && b[..j] == a[..j] && b[j] == a[i] && b[j + 1..i + 1] == a[j..i] && b[i + 1..] == a[i + 1..]
  }

  lemma InsertedCells(a: seq<u32>, b: seq<u32>, j: nat, i: nat)
    requires j <= i < |a| && Inserted(a, b, j, i)
    ensures |b| == |a| && b[j] == a[i] && forall k | 0 <= k < j || i < k < |a| :: b[k] == a[k]
    ensures forall k | j < k <= i :: b[k] == a[k - 1]
  {
    assert forall k | 0 <= k < j :: b[k] == b[..j][k] == a[..j][k] == a[k];
    assert forall k | j < k <= i :: b[k] == b[j + 1..i + 1][k - j - 1] == a[j..i][k - j - 1] == a[k - 1];
    assert forall k | i < k < |a| :: b[k] == b[i + 1..][k - i - 1] == a[i + 1..][k - i - 1] == a[k];
  }

  lemma InsertedRearranges(a: seq<u32>, b: seq<u32>, j: nat, i: nat, lo: nat, hi: nat)
    requires lo <= j <= i < hi <= |a| && Inserted(a, b, j, i)
    ensures Rearranged(a, b, lo, hi)
  {
    InsertedCells(a, b, j, i);
    hide Inserted;
    assert b[..lo] == a[..lo] && b[hi..] == a[hi..];
    var front, moved, back := a[lo..j], a[j..i], a[i + 1..hi];
    assert a[lo..hi] == front + moved + [a[i]] + back;
    assert b[lo..hi] == front + [a[i]] + moved + back;
  }

  lemma InsertedSorted(a: seq<u32>, b: seq<u32>, j: nat, i: nat, lo: nat)
    requires lo <= j <= i < |a| && Inserted(a, b, j, i)
    requires SortedRange(a, lo, i)
    requires lo < j ==> a[j - 1] <= a[i]
    requires AtLeast(a, j, i, a[i])
    ensures SortedRange(b, lo, i + 1)
  {
    InsertedCells(a, b, j, i);
    hide Inserted;
  }

  /** a[j .. i - 1] has moved one place up; the cells up to j and beyond i are as they were. */
  ghost predicate Shifting(a: seq<u32>, s: seq<u32>, j: int, i: int) {
    && 0 <= j <= i < |a| == |s|
    && (forall k | 0 <= k <= j :: s[k] == a[k]) && (forall k | j < k <= i :: s[k] == a[k - 1])
    && (forall k | i < k < |a| :: s[k] == a[k])
  }

  lemma ShiftStart(a: seq<u32>, i: int)
    requires 0 <= i < |a|
    ensures Shifting(a, a, i, i) && AtLeast(a, i, i, a[i])
  {
  }

  lemma ShiftOne(a: seq<u32>, s: seq<u32>, j: int, i: int)
    requires 0 < j <= i < |a| && Shifting(a, s, j, i)
    ensures s[j - 1] == a[j - 1] && Shifting(a, s[j := s[j - 1]], j - 1, i)
    ensures AtLeast(a, j, i, a[i]) && a[i] < a[j - 1] ==> AtLeast(a, j - 1, i, a[i])
  {
  }

  lemma ShiftEnd(a: seq<u32>, s: seq<u32>, j: int, i: int)
    requires 0 <= j <= i < |a| && Shifting(a, s, j, i)
    ensures Inserted(a, s[j := a[i]], j, i)
  {
  }

  lemma InsertedDone(a: seq<u32>, s: seq<u32>, j: int, i: int, begin: int)
    requires 0 <= begin <= j <= i < |a| == |s| && Shifting(a, s, j, i) && AtLeast(a, j, i, a[i])
    requires SortedRange(a, begin, i) && (begin < j ==> s[j - 1] <= a[i])
    ensures SortedRange(s[j := a[i]], begin, i + 1) && Rearranged(a, s[j := a[i]], begin, i + 1)
  {
    hide Shifting, Inserted, Rearranged, SortedRange, AtLeast;
    if begin < j {
      ShiftOne(a, s, j, i);
    }
    ShiftEnd(a, s, j, i);
    InsertedRearranges(a, s[j := a[i]], j, i, begin, i + 1);
    InsertedSorted(a, s[j := a[i]], j, i, begin);
  }

  method StoreCell(x: array<u32>, j: int, value: u32)
    requires 0 <= j < x.Length
    modifies x
    ensures x[..] == old(x[..])[j := value]
  {
    x[j] := value;
  }

  /** The inner loop: larger elements move up until the place of x[i] is free. */
  method ShiftUp(x: array<u32>, begin: int, i: int) returns (j: int)
    requires 0 <= begin < i < x.Length
    modifies x
    ensures begin <= j <= i && Shifting(old(x[..]), x[..], j, i) && AtLeast(old(x[..]), j, i, old(x[i]))
    ensures begin < j ==> x[j - 1] <= old(x[i])
  {
    hide Shifting, AtLeast;
    ghost var a := x[..];
    var xi := x[i];
    j := i;
    ShiftStart(a, i);
    while j > begin && x[j - 1] > xi
      invariant begin <= j <= i
      invariant Shifting(a, x[..], j, i) && AtLeast(a, j, i, xi)
    {
      ShiftOne(a, x[..], j, i);
      StoreCell(x, j, x[j - 1]);
      j := j - 1;
    }
  }

  /** One round of the outer loop: x[i] sinks into the sorted cells begin .. i - 1. */
  method InsertOne(x: array<u32>, begin: int, i: int)
    requires 0 <= begin < i < x.Length && SortedRange(x[..], begin, i)
    modifies x
    ensures SortedRange(x[..], begin, i + 1)
    ensures Rearranged(old(x[..]), x[..], begin, i + 1)
  {
    hide Shifting, Rearranged, SortedRange, AtLeast;
    ghost var a := x[..];
    var xi := x[i];
    var j := ShiftUp(x, begin, i);
    InsertedDone(a, x[..], j, i, begin);
    StoreCell(x, j, xi);
  }

  method InsertSort(x: array<u32>, begin: int, end: int)
    requires 0 <= begin <= end < x.Length
    modifies x
    ensures SortedRange(x[..], begin, end + 1)
    ensures Rearranged(old(x[..]), x[..], begin, end + 1)
  {
    var i := begin + 1;
    while i <= end
      invariant begin < i <= end + 1
      invariant SortedRange(x[..], begin, i)
      invariant Rearranged(old(x[..]), x[..], begin, end + 1)
    {
      ghost var a := x[..];
      InsertOne(x, begin, i);
      RearrangedWider(a, x[..], begin, i + 1, begin, end + 1);
      i := i + 1;
    }
  }

  // ----- Quicksort -----

  /** The loop's knowledge: everything left of i is at most p, everything right of j at least p. */
  ghost predicate Split(s: seq<u32>, begin: int, end: int, i: int, j: int, p: u32) {
    && 0 <= begin <= i <= end + 1 <= |s| && begin - 1 <= j <= end
    && AtMost(s, begin, i, p) && AtLeast(s, j + 1, end + 1, p)
  }

  /** Half of the sum with the division of C, which truncates toward zero. */
  function Middle(begin: int, end: int): int {
    if begin + end < 0 then -((-begin - end) / 2) else (begin + end) / 2
  }

  lemma TwoSortedSides(c: seq<u32>, begin: int, end: int, i: int, j: int, p: u32)
    requires begin <= i && j <= end && j < i
    requires SortedRange(c, begin, j + 1) && SortedRange(c, i, end + 1)
    requires AtMost(c, begin, i, p) && AtLeast(c, j + 1, end + 1, p)
    ensures SortedRange(c, begin, end + 1)
  {
    forall k, l | begin <= k < l < end + 1
      ensures c[k] <= c[l]
    {
      assert l < i || p <= c[l];
      assert j < k || c[k] <= p;
    }
  }

  lemma LeftSideSorted(a: seq<u32>, b: seq<u32>, begin: int, end: int, i: int, j: int, p: u32)
    requires Split(a, begin, end, i, j, p) && j < i
    requires Rearranged(a, b, begin, j + 1)
    ensures AtMost(b, begin, i, p) && AtLeast(b, j + 1, end + 1, p)
  {
    OutsideKept(a, b, begin, j + 1);
    RearrangedBounds(a, b, begin, j + 1, p);
    hide Rearranged;
  }

  lemma RightSideSorted(b: seq<u32>, c: seq<u32>, begin: int, end: int, i: int, j: int, p: u32)
    requires begin <= i && j <= end && j < i && Rearranged(b, c, i, end + 1)
    requires SortedRange(b, begin, j + 1) && AtMost(b, begin, i, p) && AtLeast(b, j + 1, end + 1, p)
    ensures SortedRange(c, begin, j + 1) && AtMost(c, begin, i, p) && AtLeast(c, j + 1, end + 1, p)
  {
    OutsideKept(b, c, i, end + 1);
    RearrangedBounds(b, c, i, end + 1, p);
    hide Rearranged;
  }

  /** Rearranging and sorting both sides of a finished split sorts the whole range. */
  lemma SplitSorted(a: seq<u32>, b: seq<u32>, c: seq<u32>, begin: int, end: int, i: int, j: int, p: u32)
    requires Split(a, begin, end, i, j, p) && j < i
    requires Rearranged(a, b, begin, j + 1) && SortedRange(b, begin, j + 1)
    requires Rearranged(b, c, i, end + 1) && SortedRange(c, i, end + 1)
    ensures SortedRange(c, begin, end + 1) && Rearranged(a, c, begin, end + 1)
  {
    hide Rearranged, SortedRange, AtMost, AtLeast;
    RearrangedLength(a, b, begin, j + 1);
    RearrangedWider(a, b, begin, j + 1, begin, end + 1);
    RearrangedWider(b, c, i, end + 1, begin, end + 1);
    RearrangedTwice(a, b, c, begin, end + 1);
    LeftSideSorted(a, b, begin, end, i, j, p);
    RightSideSorted(b, c, begin, end, i, j, p);
    TwoSortedSides(c, begin, end, i, j, p);
  }

  lemma RearrangedLength(a: seq<u32>, b: seq<u32>, lo: int, hi: int)
    requires Rearranged(a, b, lo, hi)
    ensures 0 <= lo <= hi <= |a| == |b|
  {
  }

  lemma SplitBounds(s: seq<u32>, begin: int, end: int, i: int, j: int, p: u32)
    requires Split(s, begin, end, i, j, p)
    ensures 0 <= begin <= i <= end + 1 <= |s| && begin - 1 <= j <= end
  {
  }

  lemma StartSplit(s: seq<u32>, begin: int, end: int, p: u32)
    requires 0 <= begin <= end + 1 <= |s|
    ensures Split(s, begin, end, begin, end, p) && Rearranged(s, s, begin, end + 1)
  {
  }

  lemma ScanSplit(s: seq<u32>, begin: int, end: int, i: int, j: int, p: u32)
    requires 0 <= begin <= end + 1 <= |s|
    requires Split(s, begin, end, i, j, p) && i <= j
    ensures s[i] <= p ==> Split(s, begin, end, i + 1, j, p)
    ensures p <= s[j] ==> Split(s, begin, end, i, j - 1, p)
  {
  }

  lemma SwappedCells(s: seq<u32>, i: nat, j: nat)
    requires i < |s| && j < |s|
    ensures var t := Swapped(s, i, j);
            |t| == |s| && t[i] == s[j] && t[j] == s[i] && forall k | 0 <= k < |s| && k != i && k != j :: t[k] == s[k]
  {
  }

  lemma SwapKeepsSplit(s: seq<u32>, begin: int, end: int, i: int, j: int, p: u32)
    requires Split(s, begin, end, i, j, p) && i <= j && s[j] <= p <= s[i]
    ensures Split(Swapped(s, i, j), begin, end, i + 1, j - 1, p)
  {
    SwappedCells(s, i, j);
    hide Swapped;
  }

  lemma SwapSplit(a: seq<u32>, s: seq<u32>, begin: int, end: int, i: int, j: int, p: u32)
    requires Split(s, begin, end, i, j, p) && i <= j && s[j] <= p <= s[i]
    requires Rearranged(a, s, begin, end + 1)
    ensures Split(Swapped(s, i, j), begin, end, i + 1, j - 1, p)
    ensures Rearranged(a, Swapped(s, i, j), begin, end + 1)
  {
    hide Rearranged, Split, Swapped;
    SplitBounds(s, begin, end, i, j, p);
    SwapKeepsSplit(s, begin, end, i, j, p);
    SwapRearranges(s, i, j, begin, end + 1);
    RearrangedTwice(a, s, Swapped(s, i, j), begin, end + 1);
  }

  method SwapCells(v: array<u32>, i: int, j: int)
    requires 0 <= i < v.Length && 0 <= j < v.Length
    modifies v
    ensures v[..] == Swapped(old(v[..]), i, j)
  {
    v[i], v[j] := v[j], v[i];
  }

  /** The partition loop around the middle element.  Both sides get strictly shorter: while no swap
      has happened the pivot itself still stops both scans. */
  method Partition(v: array<u32>, begin: int, end: int) returns (i: int, j: int, pivot: u32)
    requires 0 <= begin <= end + 1 <= v.Length && 0 < v.Length
    modifies v
    ensures j < i && Split(v[..], begin, end, i, j, pivot)
    ensures begin <= end ==> begin < i && j < end
    ensures Rearranged(old(v[..]), v[..], begin, end + 1)
  {
    hide Rearranged, Split, Swapped;
    var med := Middle(begin, end);
    i, j, pivot := begin, end, v[med];
    StartSplit(v[..], begin, end, pivot);
    while i <= j
      invariant begin <= i <= end + 1 && begin - 1 <= j <= end
      invariant Split(v[..], begin, end, i, j, pivot)
      invariant begin <= end ==> (i <= med <= j && v[med] == pivot) || (begin < i && j < end)
      invariant Rearranged(old(v[..]), v[..], begin, end + 1)
      decreases j - i
    {
      ScanSplit(v[..], begin, end, i, j, pivot);
      if v[i] < pivot {
        i := i + 1;
      } else if v[j] > pivot {
        j := j - 1;
      } else {
        SwapSplit(old(v[..]), v[..], begin, end, i, j, pivot);
        SwapCells(v, i, j);
        i, j := i + 1, j - 1;
      }
    }
  }

  method QuickSort(v: array<u32>, begin: int, end: int)
    requires 0 <= begin <= end + 1 <= v.Length && 0 < v.Length
    modifies v
    ensures SortedRange(v[..], begin, end + 1)
    ensures Rearranged(old(v[..]), v[..], begin, end + 1)
    decreases end - begin, 0
  {
    var i, j, pivot := Partition(v, begin, end);
    ghost var a := v[..];
    if begin < j {
      SortPart(v, begin, j);
    }
    ghost var b := v[..];
    if end > i {
      SortPart(v, i, end);
    }
    SplitSorted(a, b, v[..], begin, end, i, j, pivot);
  }

  /** Long parts go to quicksort, short ones to insertion sort. */
  method SortPart(v: array<u32>, begin: int, end: int)
    requires 0 <= begin < end < v.Length
    modifies v
    ensures SortedRange(v[..], begin, end + 1)
    ensures Rearranged(old(v[..]), v[..], begin, end + 1)
    decreases end - begin, 1
  {
    if end - begin > 12 {
      QuickSort(v, begin, end);
    } else {
      InsertSort(v, begin, end);
    }
  }

  // ----- Duplicate spacings -----

  /** Differences of neighbours in 32-bit arithmetic. */
  ghost function Spacings(t: seq<u32>): seq<u32> {
    if t == [] then [] else seq(|t| - 1, i requires 0 <= i < |t| - 1 => (t[i + 1] - t[i]) % B32)
  }

  ghost function Elements(s: seq<u32>): set<u32> {
    set v | v in s
  }

  /** d is the number of repeated spacings of the numbers in m, however they are listed. */
  ghost predicate CountsRepeats(m: multiset<u32>, d: int) {
    forall t: seq<u32> | IsSorted(t) && multiset(t) == m :: d == |Spacings(t)| - |Elements(Spacings(t))|
  }

  lemma SortedHead(a: seq<u32>, b: seq<u32>)
    requires IsSorted(a) && IsSorted(b) && multiset(a) == multiset(b) && a != []
    ensures b != [] && a[0] == b[0]
  {
    assert a[0] in multiset(b);
    var i :| 0 <= i < |b| && b[i] == a[0];
    assert b[0] in multiset(a);
    var j :| 0 <= j < |a| && a[j] == b[0];
  }

  lemma TailSorted(a: seq<u32>)
    requires IsSorted(a) && a != []
    ensures IsSorted(a[1..]) && multiset(a[1..]) == multiset(a) - multiset{a[0]}
  {
    assert a == [a[0]] + a[1..];
  }

  /** There is only one sorted arrangement. */
  lemma {:induction false} SortedUnique(a: seq<u32>, b: seq<u32>)
    requires IsSorted(a) && IsSorted(b) && multiset(a) == multiset(b)
    ensures a == b
  {
    assert |a| == |multiset(a)| == |b|;
    if a != [] {
      SortedHead(a, b);
      TailSorted(a);
      TailSorted(b);
      hide *;
      SortedUnique(a[1..], b[1..]);
      assert a == [a[0]] + a[1..] && b == [b[0]] + b[1..];
    }
  }

  lemma {:induction false} MaximumExists(m: multiset<u32>) returns (v: u32)
    requires m != multiset{}
    ensures v in m && forall w :: w in m ==> w <= v
    decreases |m|
  {
    var u :| u in m;
    var rest := m - multiset{u};
    v := u;
    if rest != multiset{} {
      var w := MaximumExists(rest);
      v := if u <= w then w else u;
    }
    assert forall w :: w in m ==> w == u || w in rest;
  }

  lemma {:induction false} SortedExists(m: multiset<u32>) returns (t: seq<u32>)
    ensures IsSorted(t) && multiset(t) == m
    decreases |m|
  {
    if m == multiset{} {
      t := [];
    } else {
      var v := MaximumExists(m);
      var r := SortedExists(m - multiset{v});
      assert forall i | 0 <= i < |r| :: r[i] in multiset(r);
      t := r + [v];
    }
  }

  /** The count is a function of the input numbers alone. */
  lemma RepeatsDetermined(m: multiset<u32>, d: int, e: int)
    requires CountsRepeats(m, d) && CountsRepeats(m, e)
    ensures d == e
  {
    var t := SortedExists(m);
  }

  /** In a sorted sequence the next element is new exactly when it differs from its neighbour. */
  lemma NextElement(s: seq<u32>, i: nat)
    requires i + 1 < |s| && IsSorted(s)
    ensures |Elements(s[..i + 2])| == |Elements(s[..i + 1])| + if s[i] == s[i + 1] then 0 else 1
  {
    var old', x := s[..i + 1], s[i + 1];
    assert s[..i + 2] == old' + [x];
    assert Elements(s[..i + 2]) == Elements(old') + {x};
    assert old'[i] == s[i];
    assert s[i] == x ==> x in Elements(old');
    if s[i] != x {
      LargerIsNew(s, i);
    }
    AddElement(Elements(old'), x);
  }

  lemma LargerIsNew(s: seq<u32>, i: nat)
    requires i + 1 < |s| && IsSorted(s) && s[i] != s[i + 1]
    ensures s[i + 1] !in Elements(s[..i + 1])
  {
    var old' := s[..i + 1];
    forall k | 0 <= k < |old'| ensures old'[k] != s[i + 1] {
      assert old'[k] == s[k] <= s[i] < s[i + 1];
    }
  }

  lemma AddElement(e: set<u32>, x: u32)
    ensures |e + {x}| == |e| + if x in e then 0 else 1
  {
    if x in e {
      assert e + {x} == e;
    }
  }

  lemma SameElements(s: seq<u32>, p: seq<u32>)
    requires multiset(s) == multiset(p)
    ensures |s| == |p| && Elements(s) == Elements(p)
  {
    assert |s| == |multiset(s)| == |p|;
    assert forall v :: v in s <==> v in multiset(s);
    assert forall v :: v in p <==> v in multiset(p);
  }

  /** Counting over one sorted arrangement t and one rearrangement s of its spacings is enough. */
  lemma CountedRepeats(t: seq<u32>, s: seq<u32>, d: int)
    requires IsSorted(t) && multiset(s) == multiset(Spacings(t))
    requires d == |s| - |Elements(s)|
    ensures CountsRepeats(multiset(t), d)
  {
    hide Spacings, Elements;
    var p := Spacings(t);
    SameElements(s, p);
    forall u: seq<u32> | IsSorted(u) && multiset(u) == multiset(t)
      ensures u == t
    {
      SortedUnique(u, t);
    }
  }

  method ReplaceBySpacings(x: array<u32>)
    requires 0 < x.Length
    modifies x
    ensures x[..x.Length - 1] == Spacings(old(x[..]))
  {
    hide Spacings;
    var n, i := x.Length, 0;
    ghost var t := x[..];
    SpacingsLength(t);
    while i < n - 1
      invariant 0 <= i <= n - 1
      invariant forall k | 0 <= k < i :: x[k] == Spacings(t)[k]
      invariant forall k | i <= k < n :: x[k] == t[k]
    {
      SpacingAt(t, i);
      x[i] := (x[i + 1] - x[i]) % B32;
      i := i + 1;
    }
  }

  lemma SpacingsLength(t: seq<u32>)
    requires t != []
    ensures |Spacings(t)| == |t| - 1
  {
  }

  lemma SpacingAt(t: seq<u32>, i: nat)
    requires i + 1 < |t|
    ensures Spacings(t)[i] == (t[i + 1] - t[i]) % B32
  {
  }

  method CountNeighbours(x: array<u32>, len: nat) returns (ndups: nat)
    requires len <= x.Length && SortedRange(x[..], 0, len)
    ensures ndups == len - |Elements(x[..len])|
  {
    ghost var s := x[..len];
    ndups := 0;
    var i := 0;
    if len > 0 {
      assert Elements(s[..1]) == {s[0]};
    }
    while i < len - 1
      invariant 0 <= i && (i < len || i == len == 0)
      invariant len == 0 ==> ndups == 0
      invariant len > 0 ==> ndups + |Elements(s[..i + 1])| == i + 1
    {
      NextElement(s, i);
      if x[i] == x[i + 1] {
        ndups := ndups + 1;
      }
      i := i + 1;
    }
    assert len > 0 ==> s[..i + 1] == s;
  }

  method GetNdups(x: array<u32>) returns (ndups: nat)
    requires 0 < x.Length
    modifies x
    ensures CountsRepeats(multiset(old(x[..])), ndups)
  {
    var n := x.Length;
    QuickSort(x, 0, n - 1);
    ghost var t := x[..];
    assert t[0..n] == t && old(x[..])[0..n] == old(x[..]);
    ReplaceBySpacings(x);
    ghost var p := x[..];
    QuickSort(x, 0, n - 2);
    ghost var s := x[..];
    assert s[0..n - 1] == s[..n - 1] && p[0..n - 1] == p[..n - 1];
    ndups := CountNeighbours(x, n - 1);
    CountedRepeats(t, s[..n - 1], ndups);
  }
}
