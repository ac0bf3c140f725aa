/**
 The value-bearing binary node of the segment tree and the invariants that tie
 a node to the index range `[lo, hi]` it covers. A node's range is not stored:
 it follows from the node's position under the midpoint split.
 */
module Trees {
  import opened Sums

  /** A node either has no children (a leaf, one input position) or both
      children (an internal node). `value` is the stored integer. */
  datatype Tree = Leaf(value: int) | Node(left: Tree, right: Tree, value: int)

  /** The split point `(left + right) / 2` of the source, whose integer division
      truncates toward zero (Dafny's `/` rounds toward negative infinity). */
  function Mid(lo: int, hi: int): (m: int)
    ensures 0 <= lo < hi ==> lo <= m < hi
  {
    if lo + hi >= 0 then (lo + hi) / 2 else -((-(lo + hi)) / 2)
  }

  /** The leaves of `t`, left to right. */
  function Elems(t: Tree): (s: seq<int>)
    ensures |s| >= 1
  {
    match t
    case Leaf(x) => [x]
    case Node(l, r, _) => Elems(l) + Elems(r)
  }

  /** `t` has exactly the shape that the build recursion gives the range
      `[lo, hi]`: a leaf when the range is one position, otherwise an internal
      node whose children cover `[lo, mid]` and `[mid + 1, hi]`. */
  ghost predicate Shaped(t: Tree, lo: int, hi: int)
    decreases t
  {
    lo <= hi &&
    match t
    case Leaf(_) => lo == hi
    case Node(l, r, _) => Shaped(l, lo, Mid(lo, hi)) && Shaped(r, Mid(lo, hi) + 1, hi)
  }

  /** A tree shaped for `[lo, hi]` has one leaf per position of the range. */
  lemma {:induction false} ElemsLength(t: Tree, lo: int, hi: int)
    ensures Shaped(t, lo, hi) ==> |Elems(t)| == hi - lo + 1
    decreases t
  {
    match t
    case Leaf(_) =>
    case Node(l, r, _) =>
      ElemsLength(l, lo, Mid(lo, hi));
      ElemsLength(r, Mid(lo, hi) + 1, hi);
  }

  /** Every internal node stores the sum of its two children's values. */
  ghost predicate Summed(t: Tree)
  {
    match t
    case Leaf(_) => true
    case Node(l, r, v) => v == l.value + r.value && Summed(l) && Summed(r)
  }

  /** Both invariants of a segment tree over `[lo, hi]`. */
  ghost predicate WellFormed(t: Tree, lo: int, hi: int)
  {
    Shaped(t, lo, hi) && Summed(t)
  }

  /** Where the sum invariant holds, every node stores the sum of its leaves. */
  lemma {:induction false} RootIsSum(t: Tree)
    requires Summed(t)
    ensures t.value == SeqSum(Elems(t))
  {
    match t
    case Leaf(x) =>
      assert SeqSum([x]) == x + SeqSum([]);
    case Node(l, r, _) =>
      RootIsSum(l);
      RootIsSum(r);
      SumAppend(Elems(l), Elems(r));
  }

  /** The node structure of a tree with its values erased. */
  datatype Skeleton = Tip | Fork(left: Skeleton, right: Skeleton)

  function SkeletonOf(t: Tree): Skeleton
  {
    match t
    case Leaf(_) => Tip
    case Node(l, r, _) => Fork(SkeletonOf(l), SkeletonOf(r))
  }

  /** The range alone fixes the structure: two trees shaped for the same range
      differ at most in their stored values. */
  lemma {:induction false} ShapeFixedByRange(t: Tree, u: Tree, lo: int, hi: int)
    requires Shaped(t, lo, hi) && Shaped(u, lo, hi)
    ensures SkeletonOf(t) == SkeletonOf(u)
    decreases t
  {
    match t
    case Leaf(_) =>
    case Node(l, r, _) =>
      var mid := Mid(lo, hi);
      ShapeFixedByRange(l, u.left, lo, mid);
      ShapeFixedByRange(r, u.right, mid + 1, hi);
  }

  /** The number of nodes in `t`. */
  function NodeCount(t: Tree): nat
  {
    match t
    case Leaf(_) => 1
    case Node(l, r, _) => 1 + NodeCount(l) + NodeCount(r)
  }

  /** A tree shaped for `n` positions holds `2 * n - 1` nodes. */
  lemma {:induction false} NodeCountOfShape(t: Tree, lo: int, hi: int)
    requires Shaped(t, lo, hi)
    ensures NodeCount(t) == 2 * (hi - lo + 1) - 1
    decreases t
  {
    match t
    case Leaf(_) =>
    case Node(l, r, _) =>
      NodeCountOfShape(l, lo, Mid(lo, hi));
      NodeCountOfShape(r, Mid(lo, hi) + 1, hi);
  }
}
