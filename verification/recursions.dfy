/**
 The three recursive procedures of `SegmentTree`: building a node for a range
 of the input, answering a clipped range-sum query below a node, and writing
 one position below a node. Each takes the node's covered range `[lo, hi]`
 explicitly, as the source passes `left` and `right` down.
 */
module Recursions {
  import opened Sums
  import opened Trees

  /** `buildRecursion`: the node for positions `lo..hi` of `values`. It is
      well formed for that range and its leaves are exactly that slice. */
  function BuildRec(values: seq<int>, lo: int, hi: int): (t: Tree)
    requires 0 <= lo <= hi < |values|
    ensures WellFormed(t, lo, hi)
    ensures Elems(t) == values[lo..hi + 1]
    decreases hi - lo
  {
    if lo == hi then
      Leaf(values[lo])
    else
      var mid := Mid(lo, hi);
      var l := BuildRec(values, lo, mid);
      var r := BuildRec(values, mid + 1, hi);
      Join(values, l, r, lo, hi);
      Node(l, r, l.value + r.value)
  }

  /** Two well-formed halves of `[lo, hi]` holding the two halves of the
      slice, under a node storing their sum, make a well-formed node holding
      the whole slice. */
  lemma Join(values: seq<int>, l: Tree, r: Tree, lo: int, hi: int)
    requires 0 <= lo < hi < |values|
    requires WellFormed(l, lo, Mid(lo, hi)) && Elems(l) == values[lo..Mid(lo, hi) + 1]
    requires WellFormed(r, Mid(lo, hi) + 1, hi) && Elems(r) == values[Mid(lo, hi) + 1..hi + 1]
    ensures WellFormed(Node(l, r, l.value + r.value), lo, hi)
    ensures Elems(Node(l, r, l.value + r.value)) == values[lo..hi + 1]
  {
    assert values[lo..hi + 1] == values[lo..Mid(lo, hi) + 1] + values[Mid(lo, hi) + 1..hi + 1];
  }

  /** `sumRecursion` for node `t` covering `[lo, hi]` and the query bounds
      `[lb, rb]`. A leaf that is not an exact hit recurses, in the source, into
      its two absent children, each of which answers 0. */
  function SumRec(t: Tree, lo: int, hi: int, lb: int, rb: int): int
    decreases t
  {
    if lb > rb then 0
    else if lo == lb && hi == rb then t.value
    else
      match t
      case Leaf(_) => 0
      case Node(l, r, _) =>
        var mid := Mid(lo, hi);
        SumRec(l, lo, mid, lb, Min(rb, mid)) + SumRec(r, mid + 1, hi, Max(lb, mid + 1), rb)
  }

  function Min(a: int, b: int): int { if a < b then a else b }

  function Max(a: int, b: int): int { if a < b then b else a }

  /** Below a well-formed node, a query whose bounds lie inside the node's range
      returns the sum of the leaves at those positions. */
  lemma {:induction false} SumRecIsSliceSum(t: Tree, lo: int, hi: int, lb: int, rb: int)
    requires WellFormed(t, lo, hi)
    requires lo <= lb <= rb <= hi
    ensures |Elems(t)| == hi - lo + 1 && SumRec(t, lo, hi, lb, rb) == SeqSum(Elems(t)[lb - lo..rb - lo + 1])
    decreases NodeCount(t), 2
  {
    ElemsLength(t, lo, hi);
    if lo == lb && hi == rb {
      var e := Elems(t);
      assert e[lb - lo..rb - lo + 1] == e[..|e|] == e;
      RootIsSum(t);
    } else if t.Leaf? {
      assert false;
    } else {
      SplitQueryIsSliceSum(t, lo, hi, lb, rb);
    }
  }

  /** The recursive step of `SumRecIsSliceSum`: a query that is not an exact
      hit on an internal node adds the answers of its two clipped halves, one
      of which is empty when the query lies on one side of the split. */
  lemma {:induction false} SplitQueryIsSliceSum(t: Tree, lo: int, hi: int, lb: int, rb: int)
    requires WellFormed(t, lo, hi) && t.Node?
    requires lo <= lb <= rb <= hi && (lo != lb || hi != rb)
    ensures |Elems(t)| == hi - lo + 1 && SumRec(t, lo, hi, lb, rb) == SeqSum(Elems(t)[lb - lo..rb - lo + 1])
    decreases NodeCount(t), 1
  {
    ElemsLength(t, lo, hi);
    var l, r, mid := t.left, t.right, Mid(lo, hi);
    assert WellFormed(l, lo, mid) && WellFormed(r, mid + 1, hi);
    assert Elems(t) == Elems(l) + Elems(r);
    assert SumRec(t, lo, hi, lb, rb)
        == SumRec(l, lo, mid, lb, Min(rb, mid)) + SumRec(r, mid + 1, hi, Max(lb, mid + 1), rb);
    if rb <= mid {
      QueryInLeft(l, r, lo, mid, hi, lb, rb);
    } else if mid < lb {
      QueryInRight(l, r, lo, mid, hi, lb, rb);
    } else {
      QueryAcross(l, r, lo, mid, hi, lb, rb);
    }
  }

  /** A query inside the left half is answered by the left child alone. */
  lemma {:induction false} QueryInLeft(l: Tree, r: Tree, lo: int, mid: int, hi: int, lb: int, rb: int)
    requires WellFormed(l, lo, mid) && WellFormed(r, mid + 1, hi)
    requires lo <= lb <= rb <= mid
    ensures |Elems(l)| == mid - lo + 1
    ensures SumRec(l, lo, mid, lb, rb) == SeqSum((Elems(l) + Elems(r))[lb - lo..rb - lo + 1])
    decreases NodeCount(l) + NodeCount(r) + 1, 0
  {
    ElemsLength(l, lo, mid);
    SumRecIsSliceSum(l, lo, mid, lb, rb);
    var a := Elems(l)[lb - lo..rb - lo + 1];
    SliceInLeft(Elems(l), Elems(r), lb - lo, rb - lo + 1, a);
  }

  /** A query inside the right half is answered by the right child alone. */
  lemma {:induction false} QueryInRight(l: Tree, r: Tree, lo: int, mid: int, hi: int, lb: int, rb: int)
    requires WellFormed(l, lo, mid) && WellFormed(r, mid + 1, hi)
    requires mid < lb <= rb <= hi
    ensures |Elems(l)| == mid - lo + 1 && |Elems(r)| == hi - mid
    ensures SumRec(r, mid + 1, hi, lb, rb) == SeqSum((Elems(l) + Elems(r))[lb - lo..rb - lo + 1])
    decreases NodeCount(l) + NodeCount(r) + 1, 0
  {
    ElemsLength(l, lo, mid);
    ElemsLength(r, mid + 1, hi);
    SumRecIsSliceSum(r, mid + 1, hi, lb, rb);
    var b := Elems(r)[lb - (mid + 1)..rb - (mid + 1) + 1];
    SliceInRight(Elems(l), Elems(r), lb - lo, rb - lo + 1, b);
  }

  /** A query straddling the split adds a suffix of the left half to a prefix
      of the right half. */
  lemma {:induction false} QueryAcross(l: Tree, r: Tree, lo: int, mid: int, hi: int, lb: int, rb: int)
    requires WellFormed(l, lo, mid) && WellFormed(r, mid + 1, hi)
    requires lo <= lb <= mid < rb <= hi
    ensures |Elems(l)| == mid - lo + 1 && |Elems(r)| == hi - mid
    ensures SumRec(l, lo, mid, lb, mid) + SumRec(r, mid + 1, hi, mid + 1, rb)
         == SeqSum((Elems(l) + Elems(r))[lb - lo..rb - lo + 1])
    decreases NodeCount(l) + NodeCount(r) + 1, 0
  {
    ElemsLength(l, lo, mid);
    ElemsLength(r, mid + 1, hi);
    SumRecIsSliceSum(l, lo, mid, lb, mid);
    SumRecIsSliceSum(r, mid + 1, hi, mid + 1, rb);
    var a := Elems(l)[lb - lo..mid - lo + 1];
    var b := Elems(r)[mid + 1 - (mid + 1)..rb - (mid + 1) + 1];
    SliceAcross(Elems(l), Elems(r), lb - lo, rb - lo + 1, a, b);
  }

  lemma SliceInLeft(e: seq<int>, f: seq<int>, i: int, j: int, a: seq<int>)
    requires 0 <= i <= j <= |e| && a == e[i..j]
    ensures (e + f)[i..j] == a
  {
  }

  lemma SliceInRight(e: seq<int>, f: seq<int>, i: int, j: int, b: seq<int>)
    requires |e| <= i <= j <= |e| + |f| && b == f[i - |e|..j - |e|]
    ensures (e + f)[i..j] == b
  {
  }

  lemma SliceAcross(e: seq<int>, f: seq<int>, i: int, j: int, a: seq<int>, b: seq<int>)
    requires 0 <= i <= |e| <= j <= |e| + |f|
    requires a == e[i..|e|] && b == f[0..j - |e|]
    ensures SeqSum((e + f)[i..j]) == SeqSum(a) + SeqSum(b)
  {
    assert (e + f)[i..j] == a + b;
    SumAppend(a, b);
  }

  /** `updateRecursion`: writes `x` at position `p` below node `t` covering
      `[lo, hi]`, recomputing every node on the way back up. The source follows
      both children of every node whose range holds more than one position, so
      the node must have the build shape for its range. The shape is kept, the
      sum invariant is kept, and the leaf sequence changes at `p` alone. */
  function UpdateRec(t: Tree, lo: int, hi: int, p: int, x: int): (u: Tree)
    requires Shaped(t, lo, hi)
    ensures Shaped(u, lo, hi)
    ensures Summed(t) ==> Summed(u)
    ensures lo <= p <= hi ==> p - lo < |Elems(t)| && Elems(u) == Elems(t)[p - lo := x]
    decreases t
  {
    ElemsLength(t, lo, hi);
    if lo == hi then
      Leaf(x)
    else
      var mid := Mid(lo, hi);
      if p <= mid then
        var l := UpdateRec(t.left, lo, mid, p, x);
        ReplaceLeft(t, lo, hi, p, x, l);
        Node(l, t.right, l.value + t.right.value)
      else
        var r := UpdateRec(t.right, mid + 1, hi, p, x);
        ElemsLength(t.left, lo, mid);
        ReplaceRight(t, lo, hi, p, x, r);
        Node(t.left, r, t.left.value + r.value)
  }

  /** The way back up from the left child: a node whose left child was
      updated in place, with its value recomputed, keeps the three
      properties `UpdateRec` promises. */
  lemma ReplaceLeft(t: Tree, lo: int, hi: int, p: int, x: int, l: Tree)
    requires Shaped(t, lo, hi) && t.Node?
    requires Shaped(l, lo, Mid(lo, hi))
    requires Summed(t.left) ==> Summed(l)
    requires lo <= p <= Mid(lo, hi) ==> p - lo < |Elems(t.left)| && Elems(l) == Elems(t.left)[p - lo := x]
    ensures Shaped(Node(l, t.right, l.value + t.right.value), lo, hi)
    ensures Summed(t) ==> Summed(Node(l, t.right, l.value + t.right.value))
    ensures lo <= p <= Mid(lo, hi) ==> Elems(Node(l, t.right, l.value + t.right.value)) == Elems(t)[p - lo := x]
  {
    UpdateInLeft(Elems(t.left), Elems(t.right), p - lo, x);
  }

  /** The way back up from the right child, as `ReplaceLeft`. */
  lemma ReplaceRight(t: Tree, lo: int, hi: int, p: int, x: int, r: Tree)
    requires Shaped(t, lo, hi) && t.Node?
    requires Shaped(r, Mid(lo, hi) + 1, hi) && |Elems(t.left)| == Mid(lo, hi) - lo + 1
    requires Summed(t.right) ==> Summed(r)
    requires Mid(lo, hi) < p <= hi ==> p - Mid(lo, hi) - 1 < |Elems(t.right)| && Elems(r) == Elems(t.right)[p - Mid(lo, hi) - 1 := x]
    ensures Shaped(Node(t.left, r, t.left.value + r.value), lo, hi)
    ensures Summed(t) ==> Summed(Node(t.left, r, t.left.value + r.value))
    ensures Mid(lo, hi) < p <= hi ==> Elems(Node(t.left, r, t.left.value + r.value)) == Elems(t)[p - lo := x]
  {
    UpdateInRight(Elems(t.left), Elems(t.right), p - lo, x);
  }

  lemma UpdateInLeft(a: seq<int>, b: seq<int>, i: int, x: int)
    ensures 0 <= i < |a| ==> (a + b)[i := x] == a[i := x] + b
  {
  }

  lemma UpdateInRight(a: seq<int>, b: seq<int>, i: int, x: int)
    ensures |a| <= i < |a| + |b| ==> (a + b)[i := x] == a + b[i - |a| := x]
  {
  }
}
