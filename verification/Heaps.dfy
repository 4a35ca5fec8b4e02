/** Binary-heap facts about priority sequences, independent of the class that stores them. */
module Heaps {
  import opened Indexing

  function Parent(i: nat): (r: nat)
    requires i > 0
  {
    (i - 1) / 2
  }

  /** Every slot but the root is at least as large as its parent. */
  ghost predicate HeapOrdered(p: seq<int>) {
    forall i {:trigger Parent(i)} :: 0 < i < |p| ==> p[Parent(i)] <= p[i]
  }

  /** Heap order except around slot `k`: every edge that does not touch `k` is in order, and
      `k`'s children are in order with `k`'s parent. This is what a heap is after the value
      in slot `k` was overwritten. */
  ghost predicate OrderedExceptAt(p: seq<int>, k: nat) {
    && (forall i {:trigger Parent(i)} :: 0 < i < |p| && i != k && Parent(i) != k ==> p[Parent(i)] <= p[i])
    && (forall i {:trigger Parent(i)} :: 0 < k && 0 < i < |p| && Parent(i) == k ==> p[Parent(k)] <= p[i])
  }

  ghost predicate ParentEdgeOk(p: seq<int>, k: nat)
    requires k < |p|
  {
    k > 0 ==> p[Parent(k)] <= p[k]
  }

  ghost predicate ChildEdgesOk(p: seq<int>, k: nat)
    requires k < |p|
  {
    forall i {:trigger Parent(i)} :: 0 < i < |p| && Parent(i) == k ==> p[k] <= p[i]
  }

  /** Which repair an overwritten heap needs follows from whether the value fell or rose. */
  lemma OverwriteRepair(p: seq<int>, k: nat, x: int)
    requires HeapOrdered(p) && k < |p|
    ensures var q := p[k := x];
      && OrderedExceptAt(q, k)
      && (x <= p[k] ==> ChildEdgesOk(q, k))
      && (x >= p[k] ==> ParentEdgeOk(q, k))
      && (x == p[k] ==> HeapOrdered(q))
  {}

  lemma AppendLeavesHole(p: seq<int>, x: int)
    requires HeapOrdered(p)
    ensures OrderedExceptAt(p + [x], |p|) && ChildEdgesOk(p + [x], |p|)
  {}

  /** Why Remove needs only one direction of repair: around a hole, if the new value is below
      its parent then it is also at most its children, so sifting up is enough, and otherwise
      its parent edge is fine, so sifting down is enough. */
  lemma OneDirectionSuffices(p: seq<int>, k: nat)
    requires k < |p| && OrderedExceptAt(p, k)
    ensures k > 0 && p[k] < p[Parent(k)] ==> ChildEdgesOk(p, k)
    ensures !(k > 0 && p[k] < p[Parent(k)]) ==> ParentEdgeOk(p, k)
  {}

  /** One step down: exchanging the hole with its smallest child, when that child is smaller,
      moves the hole to the child. */
  lemma ExchangeMovesHoleDown(p: seq<int>, k: nat, c: nat)
    requires k < c < |p| && Parent(c) == k
    requires OrderedExceptAt(p, k) && ParentEdgeOk(p, k)
    requires p[c] < p[k]
    requires forall s :: k < s < |p| && Parent(s) == k ==> p[c] <= p[s]
    ensures OrderedExceptAt(Exchanged(p, k, c), c) && ParentEdgeOk(Exchanged(p, k, c), c)
  {}

  /** One step up: exchanging the hole with its larger parent moves the hole to the parent. */
  lemma ExchangeMovesHoleUp(p: seq<int>, k: nat)
    requires 0 < k < |p|
    requires OrderedExceptAt(p, k) && ChildEdgesOk(p, k)
    requires p[k] < p[Parent(k)]
    ensures OrderedExceptAt(Exchanged(p, k, Parent(k)), Parent(k))
    ensures ChildEdgesOk(Exchanged(p, k, Parent(k)), Parent(k))
  {}

  /** The slot of the smallest among `k` and its children; ties stay with `k`, then with the left. */
  function SmallestAround(p: seq<int>, k: nat): (s: nat)
    requires k < |p|
    ensures k <= s < |p|
  {
    var left := 2 * k + 1;
    var right := 2 * k + 2;
    var s := if left < |p| && p[left] < p[k] then left else k;
    if right < |p| && p[right] < p[s] then right else s
  }

  lemma SmallestAroundIsLeast(p: seq<int>, k: nat)
    requires k < |p|
    ensures var s := SmallestAround(p, k);
      && (s != k ==> Parent(s) == k && p[s] < p[k])
      && forall c :: k < c < |p| && Parent(c) == k ==> p[s] <= p[c]
  {}

  lemma HoleClosed(p: seq<int>, k: nat)
    requires k < |p| && OrderedExceptAt(p, k) && ParentEdgeOk(p, k) && ChildEdgesOk(p, k)
    ensures HeapOrdered(p)
  {}

  /** One iteration of sifting down: either the heap is repaired, or the hole is one level lower. */
  lemma SiftDownStep(p: seq<int>, k: nat)
    requires k < |p| && OrderedExceptAt(p, k) && ParentEdgeOk(p, k)
    ensures var s := SmallestAround(p, k);
      if s == k then HeapOrdered(p)
      else OrderedExceptAt(Exchanged(p, k, s), s) && ParentEdgeOk(Exchanged(p, k, s), s) && Depth(s) == Depth(k) + 1
  {
    SmallestAroundIsLeast(p, k);
    var s := SmallestAround(p, k);
    if s == k {
      HoleClosed(p, k);
    } else {
      ExchangeMovesHoleDown(p, k, s);
    }
  }

  /** One iteration of sifting up. */
  lemma SiftUpStep(p: seq<int>, k: nat)
    requires k < |p| && OrderedExceptAt(p, k) && ChildEdgesOk(p, k)
    ensures if k == 0 || p[k] >= p[Parent(k)] then HeapOrdered(p)
      else
        && OrderedExceptAt(Exchanged(p, k, Parent(k)), Parent(k))
        && ChildEdgesOk(Exchanged(p, k, Parent(k)), Parent(k))
        && Depth(k) == Depth(Parent(k)) + 1
  {
    if k == 0 || p[k] >= p[Parent(k)] {
      HoleClosed(p, k);
    } else {
      ExchangeMovesHoleUp(p, k);
    }
  }

  /** Filling slot `k` of a heap with the last element and dropping the last slot. */
  lemma SwapRemovedHole(p: seq<int>, k: nat)
    requires HeapOrdered(p) && k < |p|
    ensures var q := SwapRemoved(p, k);
      if k == |q| then HeapOrdered(q)
      else
        && OrderedExceptAt(q, k)
        && (if k > 0 && q[k] < q[Parent(k)] then ChildEdgesOk(q, k) else ParentEdgeOk(q, k))
  {
    var q := SwapRemoved(p, k);
    if k < |q| {
      OneDirectionSuffices(q, k);
    }
  }

  /** The root of a heap is a global minimum. */
  lemma {:induction false} RootIsMinimum(p: seq<int>, i: nat)
    requires HeapOrdered(p) && i < |p|
    ensures p[0] <= p[i]
  {
    if i > 0 {
      RootIsMinimum(p, Parent(i));
    }
  }

  lemma RootBelowAll(p: seq<int>)
    requires HeapOrdered(p)
    ensures forall i :: 0 <= i < |p| ==> p[0] <= p[i]
  {
    forall i | 0 <= i < |p| ensures p[0] <= p[i] {
      RootIsMinimum(p, i);
    }
  }

  function Pow2(n: nat): (r: nat)
    ensures r > n
  {
    if n == 0 then 1 else 2 * Pow2(n - 1)
  }

  /** Number of levels of a complete binary tree with `n` nodes. */
  function Height(n: nat): (h: nat)
    ensures h == 0 <==> n == 0
  {
    if n == 0 then 0 else 1 + Height(n / 2)
  }

  /** The height is the one number whose powers of two enclose the size. */
  lemma {:induction false} HeightEncloses(n: nat)
    requires n > 0
    ensures Pow2(Height(n) - 1) <= n < Pow2(Height(n))
  {
    if n > 1 {
      HeightEncloses(n / 2);
    }
  }

  lemma HeightIsUnique(n: nat, h: nat)
    requires n > 0 && h > 0 && Pow2(h - 1) <= n < Pow2(h)
    ensures h == Height(n)
  {
    HeightEncloses(n);
    Pow2Monotone(h - 1, Height(n));
    Pow2Monotone(Height(n) - 1, h);
  }

  lemma {:induction false} Pow2Monotone(a: nat, b: nat)
    ensures Pow2(a) < Pow2(b) <==> a < b
    decreases a + b
  {
    if a > 0 && b > 0 {
      Pow2Monotone(a - 1, b - 1);
    }
  }

  /** Number of edges between a slot and the root. */
  function Depth(i: nat): (d: nat) {
    if i == 0 then 0 else 1 + Depth(Parent(i))
  }

  lemma {:induction false} HeightMonotone(m: nat, n: nat)
    requires m <= n
    ensures Height(m) <= Height(n)
  {
    if m > 0 {
      HeightMonotone(m / 2, n / 2);
    }
  }

  /** Every slot of a heap with `n` elements lies on one of its levels. */
  lemma {:induction false} DepthBelowHeight(i: nat, n: nat)
    requires i < n
    ensures Depth(i) < Height(n)
  {
    HeightMonotone(i + 1, n);
    if i > 0 {
      DepthBelowHeight(Parent(i), Parent(i) + 1);
      assert (i + 1) / 2 == Parent(i) + 1;
    }
  }
}
