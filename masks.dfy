/**
 * Boolean masks over a raster grid, flattened in row-major order.
 * `Count` is numpy's `mask.sum()` (equivalently `np.count_nonzero`) on a
 * boolean array; `And` and `Or` are `np.logical_and` / `np.logical_or`
 * on two arrays of the same shape.
 */
module Masks {

  /** The indices of the set cells of a mask. */
  function Cells(m: seq<bool>): set<nat>
  {
    set i: nat | i < |m| && m[i]
  }

  /** The indices 0 .. n-1. */
  function Indices(n: nat): (r: set<nat>)
    ensures forall i: nat :: i in r <==> i < n
  {
    Cells(seq(n, _ => true))
  }

  /** Number of true cells of a mask. */
  function Count(m: seq<bool>): nat
  {
    |Cells(m)|
  }

  /** There are n indices below n. */
  lemma {:induction false} IndicesSize(n: nat)
    ensures |Indices(n)| == n
  {
    if n > 0 {
      IndicesSize(n - 1);
      assert Indices(n) == Indices(n - 1) + {n - 1};
    }
  }

  /** A subset is as large as the superset less the elements it misses. */
  lemma SubsetSize(a: set<nat>, b: set<nat>)
    requires a <= b
    ensures |b| == |a| + |b - a|
  {
    assert b == a + (b - a);
    assert a * (b - a) == {};
  }

  /** A mask has at most as many set cells as cells, and as many only when every cell is set. */
  lemma CountBound(m: seq<bool>)
    ensures Count(m) <= |m|
    ensures Count(m) == |m| <==> forall i :: 0 <= i < |m| ==> m[i]
  {
    IndicesSize(|m|);
    SubsetSize(Cells(m), Indices(|m|));
    if forall i :: 0 <= i < |m| ==> m[i] {
      assert Cells(m) == Indices(|m|);
    } else {
      var k: nat :| k < |m| && !m[k];
      assert k in Indices(|m|) - Cells(m);
    }
  }

  /** No cell is set exactly when the count is 0; every cell is set exactly when it is the length. */
  lemma CountExtremes(m: seq<bool>)
    ensures Count(m) == 0 <==> forall i :: 0 <= i < |m| ==> !m[i]
    ensures Count(m) == |m| <==> forall i :: 0 <= i < |m| ==> m[i]
  {
    CountBound(m);
    if k: nat :| k < |m| && m[k] {
      assert k in Cells(m);
    } else {
      assert Cells(m) == {};
    }
  }

  /** The all-false mask of n cells (`np.zeros(shape, dtype=bool)`). */
  function Zeros(n: nat): (m: seq<bool>)
    ensures |m| == n && Count(m) == 0
  {
    var z := seq(n, _ => false);
    assert Cells(z) == {};
    z
  }

  function And(p: seq<bool>, g: seq<bool>): (r: seq<bool>)
    requires |p| == |g|
    ensures |r| == |p|
  {
    seq(|p|, i requires 0 <= i < |p| => p[i] && g[i])
  }

  function Or(p: seq<bool>, g: seq<bool>): (r: seq<bool>)
    requires |p| == |g|
    ensures |r| == |p|
  {
    seq(|p|, i requires 0 <= i < |p| => p[i] || g[i])
  }

  /** A boolean mask as the 0/1 integers numpy stores for `mask.astype(np.uint8)`. */
  function AsInts(b: seq<bool>): (m: seq<int>)
    ensures |m| == |b|
    ensures forall i :: 0 <= i < |m| ==> (m[i] == 1 <==> b[i]) && (m[i] == 0 <==> !b[i])
  {
    seq(|b|, i requires 0 <= i < |b| => if b[i] then 1 else 0)
  }

  /** Every cell of a is also a cell of b. */
  predicate Subset(a: seq<bool>, b: seq<bool>)
  {
    |a| == |b| && forall i :: 0 <= i < |a| ==> a[i] ==> b[i]
  }

  /** A pointwise smaller mask counts no more cells; strictly fewer when b has a cell a lacks. */
  lemma CountMonotone(a: seq<bool>, b: seq<bool>)
    requires Subset(a, b)
    ensures Count(a) <= Count(b)
    ensures (exists i :: 0 <= i < |a| && b[i] && !a[i]) ==> Count(a) < Count(b)
  {
    SubsetSize(Cells(a), Cells(b));
    if k: nat :| k < |a| && b[k] && !a[k] {
      assert k in Cells(b) - Cells(a);
    }
  }

  /** Inclusion-exclusion: |P ∪ G| + |P ∩ G| == |P| + |G|. */
  lemma InclusionExclusion(p: seq<bool>, g: seq<bool>)
    requires |p| == |g|
    ensures Count(Or(p, g)) + Count(And(p, g)) == Count(p) + Count(g)
  {
    assert Cells(Or(p, g)) == Cells(p) + Cells(g);
    assert Cells(And(p, g)) == Cells(p) * Cells(g);
  }

  /** The intersection is no larger than either mask, nor than the union. */
  lemma IntersectionBounds(p: seq<bool>, g: seq<bool>)
    requires |p| == |g|
    ensures Count(And(p, g)) <= Count(p) && Count(And(p, g)) <= Count(g)
    ensures Count(p) <= Count(Or(p, g)) && Count(g) <= Count(Or(p, g))
    ensures Count(And(p, g)) <= Count(Or(p, g))
  {
    CountMonotone(And(p, g), p);
    CountMonotone(And(p, g), g);
    CountMonotone(p, Or(p, g));
    CountMonotone(g, Or(p, g));
  }
}
