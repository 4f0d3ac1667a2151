/** A ring of cells that is overwritten in place by the terms of an infinite sequence. */
module RingWindow {

  /** Cell j holds term base + j of f, or already the term one round later when j < i. */
  ghost predicate Window<T>(f: nat -> T, cells: seq<T>, base: nat, i: nat) {
    && i <= |cells|
    && forall j | 0 <= j < |cells| :: cells[j] == f(base + j + if j < i then |cells| else 0)
  }

  /** The index k places on in a ring of n cells. */
  function Ahead(n: nat, i: nat, k: nat): (a: nat)
    requires i < n && k <= n
    ensures a < n
  {
    if i + k < n then i + k else i + k - n
  }

  /** Reading around the ring: what lies ahead of cell i is still old, what lies behind it is new. */
  lemma ReadAhead<T>(f: nat -> T, cells: seq<T>, base: nat, i: nat, k: nat)
    requires Window(f, cells, base, i) && i < |cells| && k < |cells|
    ensures cells[Ahead(|cells|, i, k)] == f(base + i + k)
  {
  }

  lemma ReadCell<T>(f: nat -> T, cells: seq<T>, base: nat, i: nat)
    requires Window(f, cells, base, 0) && i < |cells|
    ensures cells[i] == f(base + i)
  {
  }

  /** Overwriting cell i by the term one round on moves the window by one. */
  lemma Overwrite<T>(f: nat -> T, cells: seq<T>, base: nat, i: nat, v: T)
    requires Window(f, cells, base, i) && i < |cells| && v == f(base + i + |cells|)
    ensures Window(f, cells[i := v], base, i + 1)
  {
  }

  lemma RoundDone<T>(f: nat -> T, cells: seq<T>, base: nat)
    requires Window(f, cells, base, |cells|)
    ensures Window(f, cells, base + |cells|, 0)
  {
  }
}
