/**
 * The positions a filtering loop keeps. Every read-only query of the property model walks a
 * list and keeps some entries; its result is characterised against the increasing list of the
 * positions that pass the filter.
 */
module Selection {

  /** The positions j with lo <= j < hi and p(j), in increasing order. */
  function Select(lo: nat, hi: nat, p: nat -> bool): (r: seq<nat>)
    ensures forall i :: 0 <= i < |r| ==> lo <= r[i] < hi && p(r[i])
    ensures forall i, k :: 0 <= i < k < |r| ==> r[i] < r[k]
    decreases hi - lo
  {
    if lo >= hi then [] else (if p(lo) then [lo] else []) + Select(lo + 1, hi, p)
  }

  /** Every position that passes the filter is selected. */
  lemma {:induction false} SelectHas(lo: nat, hi: nat, p: nat -> bool, j: nat)
    requires lo <= j < hi && p(j)
    ensures j in Select(lo, hi, p)
    decreases hi - lo
  {
    if lo < j {
      SelectHas(lo + 1, hi, p, j);
    }
  }

  /** The values f(j) at the positions Select keeps, in the same order. */
  function Collect<T>(lo: nat, hi: nat, p: nat -> bool, f: nat -> T): seq<T>
    decreases hi - lo
  {
    if lo >= hi then [] else (if p(lo) then [f(lo)] else []) + Collect(lo + 1, hi, p, f)
  }

  /** Collect lists f over the selected positions: one entry per position, in increasing order. */
  lemma {:induction false} CollectSpec<T>(lo: nat, hi: nat, p: nat -> bool, f: nat -> T)
    ensures var sel, r := Select(lo, hi, p), Collect(lo, hi, p, f);
      |r| == |sel| && forall n :: 0 <= n < |r| ==> r[n] == f(sel[n])
    decreases hi - lo
  {
    if lo < hi {
      CollectSpec(lo + 1, hi, p, f);
    }
  }

  /** Every value at a position that passes the filter is collected. */
  lemma {:induction false} CollectHas<T>(lo: nat, hi: nat, p: nat -> bool, f: nat -> T, j: nat)
    requires lo <= j < hi && p(j)
    ensures f(j) in Collect(lo, hi, p, f)
    decreases hi - lo
  {
    if lo < j {
      CollectHas(lo + 1, hi, p, f, j);
    }
  }

  /** Collect read one position at a time: the value at the first position when it is kept, then the rest. */
  lemma CollectStep<T>(lo: nat, hi: nat, p: nat -> bool, f: nat -> T)
    requires lo < hi
    ensures Collect(lo, hi, p, f) == (if p(lo) then [f(lo)] else []) + Collect(lo + 1, hi, p, f)
  {
  }

  /** The first position, when kept, heads what Collect lists. */
  lemma CollectKeep<T>(lo: nat, hi: nat, p: nat -> bool, f: nat -> T)
    requires lo < hi && p(lo)
    ensures Collect(lo, hi, p, f) == [f(lo)] + Collect(lo + 1, hi, p, f)
  {
  }

  /** The first position, when not kept, adds nothing. */
  lemma CollectSkip<T>(lo: nat, hi: nat, p: nat -> bool, f: nat -> T)
    requires lo < hi && !p(lo)
    ensures Collect(lo, hi, p, f) == Collect(lo + 1, hi, p, f)
  {
  }
}
