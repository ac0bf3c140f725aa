# Segment tree over integers

This project models the `SegmentTree` class of `main.cpp`. The class is a binary tree over a vector of integers. Each leaf holds one element. Each internal node holds the sum of its two children. A node covers an index range `[left, right]`, which the recursion splits at `mid = (left + right) / 2`. The class offers three operations:

- the constructor from a vector builds the tree bottom-up;
- `sum(leftBoundary, rightBoundary)` answers a range-sum query by clipping the range at each split;
- `update(position, value)` overwrites one element and recomputes the sums along the path back to the root.

Modules:

- `Sums` (`sums.dfy`): the plain sum of a sequence, which is the reference every query is compared against.
- `Trees` (`trees.dfy`): the node datatype and the split point `Mid`, which truncates toward zero like C++ integer division. Also the two invariants:
  - `Shaped`: the tree has exactly the structure the build recursion gives a range;
  - `Summed`: every internal node stores its children's sum.
- `Recursions` (`recursions.dfy`): `buildRecursion`, `sumRecursion` and `updateRecursion`, together with their correctness proofs.
- `SegmentTrees` (`segment_tree.dfy`): the class itself, that is a count of positions (`nodeCount`) plus an optional root. It contains:
  - the vector constructor, `sum` and `update`;
  - the invariant `Valid` that both the constructor and `update` establish;
  - the properties relating queries and updates to the represented sequence.
- `Demo` (`demo.dfy`): the fixed call sequence of `main` and the three values it prints.

The source mutates nodes in place. Here the trees are immutable values, so `Update` returns the tree that the in-place update leaves behind. A null child or root is modelled by the absent case:

- a `Leaf` has no children;
- `Option.None` stands for a missing root.

## Model

| member | source | states |
|---|---|---|
| Trees.Mid | main.cpp:117 | For `0 <= left < right`, the split point lies in `[left, right)`, so both halves are non-empty and strictly smaller than the range. |
| Trees.ElemsLength | main.cpp:111-122 | A tree with the build shape for `[left, right]` has exactly `right - left + 1` leaves, one per position. |
| Trees.RootIsSum | main.cpp:120 | If every node stores its children's sum, every node stores the sum of all the leaves below it. |
| Trees.ShapeFixedByRange | main.cpp:111-122 | Two trees shaped for the same range have the same node structure, so the range alone decides where the nodes are. |
| Trees.NodeCountOfShape | main.cpp:111-122 | A tree built over `n` positions holds `2n - 1` nodes. |
| Recursions.BuildRec | main.cpp:111-122 | Building over `[left, right]` gives a tree with the split shape in which every internal node holds its children's sum. Its leaves are exactly `values[left..right]`, in order. |
| Recursions.SumRecIsSliceSum | main.cpp:124-137 | On a well-formed tree and a query range `lo <= lb <= rb <= hi`, the clipped recursion returns the sum of the leaves at positions `lb..rb`. |
| Recursions.UpdateRec | main.cpp:139-155 | The update recursion keeps the build shape and the sum invariant. The leaf at `position` becomes `value` and every other leaf is unchanged. |
| SegmentTrees.Build | main.cpp:169-178 | An empty vector gives no root and count 0. Otherwise the result is valid, its count is the vector's length, and it represents exactly the vector. |
| SegmentTrees.Sum | main.cpp:207-212 | A query on a tree without a root, or with `leftBoundary > rightBoundary`, returns 0. |
| SegmentTrees.Update | main.cpp:214-222 | On an empty tree or an out-of-range position nothing changes. Otherwise the count and the presence of a root are kept, validity is preserved, and the represented sequence changes in that one position only. |
| SegmentTrees.SumIsSliceSum | main.cpp:207-212 | On a valid tree and bounds `0 <= lb <= rb < nodeCount`, `sum` equals the sum of the represented values at positions `lb..rb`. |
| SegmentTrees.WholeRangeIsTotal | main.cpp:207-212 | On a valid non-empty tree, the whole-range query returns the root's stored value, and that value is the sum of all represented values. Together with `Build`, the total of a built tree is the sum of its input vector. |
| SegmentTrees.SumAdditive | main.cpp:207-212 | Adjacent ranges add up: `sum(l, r) == sum(l, m) + sum(m + 1, r)`. |
| SegmentTrees.UpdateLocality | main.cpp:214-222 | After `update(p, x)`: the query `sum(p, p)` returns `x`; a range not containing `p` returns what it did before; a range containing `p` changes by `x` minus the old value. |
| SegmentTrees.UpdateKeepsSkeleton | main.cpp:139-155 | An update never adds or removes nodes. The tree's node structure is the same before and after. |
| SegmentTrees.ApplyUpdates | main.cpp:214-222 | Any run of updates applied in order keeps the build shape. |
| SegmentTrees.UpdatesMatchWrites | main.cpp:214-222 | After any run of updates the tree is still valid. Every position holds the last value written to it in range, or its original value if no write reached it. |
| Demo.MainScenario | main.cpp:225-238 | The queries of `main` return 2, -1 and -6, computed through the modelled constructor, updates and queries. |

## Left out

- `display` (`main.cpp:184-205`) is not modelled. It only prints the node values in breadth-first order to the console.
- The printing in `main` is left out. `Demo.MainScenario` states the printed values instead.
- Memory management is not modelled. This covers heap allocation, the `Node` copy constructor and assignment, the destructors (which do not free the nodes) and `SegmentTree::operator=`. Trees here are immutable values.
- The `parent` pointer of `Node` and its accessors are not modelled. The build never sets `parent`, so it is always null.
- The default `SegmentTree()` constructor and the `(nodeCount, root)` constructor are not modelled. They store their arguments as given. The second one can pair a count with an unrelated tree, which `Valid` rules out.
- 32-bit `int` arithmetic is not modelled, and neither is the `static_cast<int>` of the vector size. Sums and positions are unbounded integers, so an overflowing sum in the source (undefined behaviour) is an exact sum here.
- Recursions.UpdateRec: requires the build shape for its range. The source would dereference a null child on a tree without that shape, which is undefined behaviour. `SegmentTrees.Update` therefore requires `WellShaped`, which every built tree satisfies.
- SegmentTrees.Sum: queries whose bounds fall outside `[0, nodeCount - 1]` are computed the same way as in the source, but no lemma says what they return. The source does not check these bounds and promises nothing for them.
