/**
 The `SegmentTree` class: a node count and an optional root, with the
 public constructor from a sequence of values, `sum` and `update`. Values are
 immutable here: `Update` returns the tree the in-place update leaves behind.
 */
module SegmentTrees {
  import opened Sums
  import opened Trees
  import opened Recursions

  /** A root that may be absent (the source's null pointer). */
  datatype Option<T> = None | Some(value: T)

  datatype SegmentTree = SegmentTree(nodeCount: int, root: Option<Tree>)

  /** What `update` needs to avoid following an absent child: a root present
      over a non-empty range has the build shape for `[0, nodeCount - 1]`. */
  ghost predicate WellShaped(st: SegmentTree)
  {
    st.root.Some? && st.nodeCount >= 1 ==> Shaped(st.root.value, 0, st.nodeCount - 1)
  }

  /** The invariant of every tree the constructor and `update` produce: the
      root is absent exactly when there are no positions, and a present root is
      a well-formed segment tree over `[0, nodeCount - 1]`. */
  ghost predicate Valid(st: SegmentTree)
  {
    && st.nodeCount >= 0
    && (st.root.None? <==> st.nodeCount == 0)
    && WellShaped(st)
    && (st.root.Some? ==> Summed(st.root.value))
  }

  /** The sequence of values the tree represents: its leaves in order. */
  function Contents(st: SegmentTree): (s: seq<int>)
    ensures WellShaped(st) && st.root.Some? && st.nodeCount >= 1 ==> |s| == st.nodeCount
  {
    match st.root
    case None => []
    case Some(t) => ElemsLength(t, 0, st.nodeCount - 1); Elems(t)
  }

  /** The constructor from a vector: no root for an empty input, otherwise
      the tree built over `[0, |values| - 1]`. The result is valid and
      represents exactly `values`. */
  function Build(values: seq<int>): (st: SegmentTree)
    ensures Valid(st)
    ensures st.nodeCount == |values|
    ensures Contents(st) == values
  {
    if |values| == 0 then
      SegmentTree(0, None)
    else
      var t := BuildRec(values, 0, |values| - 1);
      assert values[0..|values|] == values;
      SegmentTree(|values|, Some(t))
  }

  /** `sum(leftBoundary, rightBoundary)`: 0 on an empty tree, otherwise the
      clipped recursion from the root over `[0, nodeCount - 1]`. The bounds
      are not checked. */
  function Sum(st: SegmentTree, lb: int, rb: int): (r: int)
    ensures st.root.None? || lb > rb ==> r == 0
  {
    match st.root
    case None => 0
    case Some(t) => SumRec(t, 0, st.nodeCount - 1, lb, rb)
  }

  /** `update(position, value)`: nothing happens on an empty tree or for a
      position outside `[0, nodeCount - 1]`; otherwise exactly that position
      of the represented sequence becomes `x`, and the shape and the sum
      invariant survive. */
  function Update(st: SegmentTree, p: int, x: int): (st': SegmentTree)
    requires WellShaped(st)
    ensures st.root.None? || p < 0 || p >= st.nodeCount ==> st' == st
    ensures st'.nodeCount == st.nodeCount && st'.root.Some? == st.root.Some?
    ensures WellShaped(st')
    ensures Valid(st) ==> Valid(st')
    ensures st.root.Some? && 0 <= p < st.nodeCount ==>
              p < |Contents(st)| && Contents(st') == Contents(st)[p := x]
  {
    match st.root
    case None => st
    case Some(t) =>
      if p < 0 || p >= st.nodeCount then st
      else SegmentTree(st.nodeCount, Some(UpdateRec(t, 0, st.nodeCount - 1, p, x)))
  }

  /** A query with bounds inside `[0, nodeCount - 1]` returns the sum of the
      represented values at positions `lb..rb`. */
  lemma SumIsSliceSum(st: SegmentTree, lb: int, rb: int)
    requires Valid(st)
    requires 0 <= lb <= rb < st.nodeCount
    ensures Sum(st, lb, rb) == SeqSum(Contents(st)[lb..rb + 1])
  {
    SumRecIsSliceSum(st.root.value, 0, st.nodeCount - 1, lb, rb);
  }

  /** The whole-range query answers from the root alone, and the root holds
      the sum of every represented value; for `Build(values)` that is the sum
      of `values`. */
  lemma WholeRangeIsTotal(st: SegmentTree)
    requires Valid(st) && st.nodeCount >= 1
    ensures Sum(st, 0, st.nodeCount - 1) == st.root.value.value == SeqSum(Contents(st))
  {
    RootIsSum(st.root.value);
  }

  /** Adjacent ranges add up. */
  lemma SumAdditive(st: SegmentTree, l: int, m: int, r: int)
    requires Valid(st)
    requires 0 <= l <= m < r < st.nodeCount
    ensures Sum(st, l, r) == Sum(st, l, m) + Sum(st, m + 1, r)
  {
    var s := Contents(st);
    SumIsSliceSum(st, l, r);
    SumIsSliceSum(st, l, m);
    SumIsSliceSum(st, m + 1, r);
    assert s[l..r + 1] == s[l..m + 1] + s[m + 1..r + 1];
    SumAppend(s[l..m + 1], s[m + 1..r + 1]);
  }

  /** After writing `x` at `p`, the single-position query at `p` answers `x`,
      a range that misses `p` answers as before, and a range that covers `p`
      changes by the difference between `x` and the old value. */
  lemma UpdateLocality(st: SegmentTree, p: int, x: int, lb: int, rb: int)
    requires Valid(st)
    requires 0 <= p < st.nodeCount && 0 <= lb <= rb < st.nodeCount
    ensures Sum(Update(st, p, x), p, p) == x
    ensures p < lb || rb < p ==> Sum(Update(st, p, x), lb, rb) == Sum(st, lb, rb)
    ensures lb <= p <= rb ==> Sum(Update(st, p, x), lb, rb) == Sum(st, lb, rb) - Contents(st)[p] + x
  {
    var st' := Update(st, p, x);
    var s, s' := Contents(st), Contents(st');
    SumIsSliceSum(st', p, p);
    assert s'[p..p + 1] == [x];
    assert SeqSum([x]) == x + SeqSum([]);
    SumIsSliceSum(st', lb, rb);
    SumIsSliceSum(st, lb, rb);
    if p < lb || rb < p {
      assert s'[lb..rb + 1] == s[lb..rb + 1];
    } else {
      assert s'[lb..rb + 1] == s[lb..rb + 1][p - lb := x];
      SumUpdate(s[lb..rb + 1], p - lb, x);
    }
  }

  /** An update leaves the node structure alone: only stored values change. */
  lemma UpdateKeepsSkeleton(st: SegmentTree, p: int, x: int)
    requires WellShaped(st) && st.root.Some? && st.nodeCount >= 1
    ensures SkeletonOf(Update(st, p, x).root.value) == SkeletonOf(st.root.value)
  {
    ShapeFixedByRange(Update(st, p, x).root.value, st.root.value, 0, st.nodeCount - 1);
  }

  /** A run of `update(position, value)` calls, applied in order. */
  function ApplyUpdates(st: SegmentTree, ops: seq<(int, int)>): (st': SegmentTree)
    requires WellShaped(st)
    ensures WellShaped(st')
    decreases |ops|
  {
    if |ops| == 0 then st else ApplyUpdates(Update(st, ops[0].0, ops[0].1), ops[1..])
  }

  /** The same run on a plain sequence: each in-range write replaces one
      element, an out-of-range write is ignored. */
  function WriteAll(s: seq<int>, ops: seq<(int, int)>): seq<int>
    decreases |ops|
  {
    if |ops| == 0 then s
    else
      var (p, x) := ops[0];
      WriteAll(if 0 <= p < |s| then s[p := x] else s, ops[1..])
  }

  /** After any run of updates the tree is still valid, and every position
      holds the last value written to it, or its original value if none was. */
  lemma {:induction false} UpdatesMatchWrites(st: SegmentTree, ops: seq<(int, int)>)
    requires Valid(st)
    ensures Valid(ApplyUpdates(st, ops))
    ensures Contents(ApplyUpdates(st, ops)) == WriteAll(Contents(st), ops)
    decreases |ops|
  {
    if |ops| > 0 {
      var (p, x) := ops[0];
      var st' := Update(st, p, x);
      assert Contents(st') == if 0 <= p < |Contents(st)| then Contents(st)[p := x] else Contents(st);
      UpdatesMatchWrites(st', ops[1..]);
    }
  }
}
