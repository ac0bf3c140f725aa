/**
 The fixed call sequence of the program's entry point: build from
 `[1, 3, -2, 8, -7]`, query `[1, 4]`, write position 2, query `[1, 4]`,
 write positions 1 and 3, query `[0, 3]`. The trees after each step are
 spelled out so that each step is checked on its own.
 */
module Demo {
  import opened Trees
  import opened SegmentTrees

  /** The tree built from `[1, 3, -2, 8, -7]`: splits `[0, 4]` at 2, `[0, 2]`
      at 1 and `[3, 4]` at 3. */
  const Built := SegmentTree(5, Some(
    Node(Node(Node(Leaf(1), Leaf(3), 4), Leaf(-2), 2), Node(Leaf(8), Leaf(-7), 1), 3)))

  /** After `update(2, -5)`. */
  const Written2 := SegmentTree(5, Some(
    Node(Node(Node(Leaf(1), Leaf(3), 4), Leaf(-5), -1), Node(Leaf(8), Leaf(-7), 1), 0)))

  /** After `update(1, 1)`. */
  const Written1 := SegmentTree(5, Some(
    Node(Node(Node(Leaf(1), Leaf(1), 2), Leaf(-5), -3), Node(Leaf(8), Leaf(-7), 1), -2)))

  /** After `update(3, -3)`. */
  const Written3 := SegmentTree(5, Some(
    Node(Node(Node(Leaf(1), Leaf(1), 2), Leaf(-5), -3), Node(Leaf(-3), Leaf(-7), -10), -13)))

  lemma BuildStep()
    ensures Build([1, 3, -2, 8, -7]) == Built
  {
  }

  lemma UpdateSteps()
    ensures WellShaped(Built) && Update(Built, 2, -5) == Written2
    ensures WellShaped(Written2) && Update(Written2, 1, 1) == Written1
    ensures WellShaped(Written1) && Update(Written1, 3, -3) == Written3
  {
  }

  lemma FirstQuery()
    ensures Sum(Built, 1, 4) == 2
  {
  }

  lemma SecondQuery()
    ensures Sum(Written2, 1, 4) == -1
  {
  }

  lemma ThirdQuery()
    ensures Sum(Written3, 0, 3) == -6
  {
  }

  /** The three answers `main` prints: 2, -1 and -6. */
  lemma MainScenario()
    ensures var t0 := Build([1, 3, -2, 8, -7]);
            var t1 := Update(t0, 2, -5);
            var t3 := Update(Update(t1, 1, 1), 3, -3);
            && Sum(t0, 1, 4) == 2
            && Sum(t1, 1, 4) == -1
            && Sum(t3, 0, 3) == -6
  {
    BuildStep();
    UpdateSteps();
    FirstQuery();
    SecondQuery();
    ThirdQuery();
  }
}
