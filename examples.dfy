/** The grids of the unit tests of a_star_test.py: the shortest cost each
    test expects, proved from a potential table (the exact distances from the
    start) and a walk that meets it, and findPath returning it. */
module Examples {
  import opened Grid
  import opened Paths
  import opened AStar

  /** The weights of the test grid '12,13', one row per comma-separated group. */
  const Grid2x2: seq<seq<int>> := [[1, 2], [1, 3]]

  /** The distances from (0, 0) in Grid2x2, row by row. */
  const Distances2x2: seq<seq<int>> := [[0, 2], [1, 4]]

  // The StepsFeasible checks of Distances2x2, one row per lemma.
  lemma Row2x2_0()
    ensures WellFormed(Plain(Grid2x2)) && TableShape(Plain(Grid2x2), Distances2x2)
    ensures RowFeasibleFrom(Plain(Grid2x2), Distances2x2, 0, 0)
  {
  }

  lemma Row2x2_1()
    ensures WellFormed(Plain(Grid2x2)) && TableShape(Plain(Grid2x2), Distances2x2)
    ensures RowFeasibleFrom(Plain(Grid2x2), Distances2x2, 0, 1)
  {
  }

  /** The distance table is a feasible potential from (0, 0). */
  lemma Potential2x2()
    ensures WellFormed(Plain(Grid2x2))
    ensures Feasible(Plain(Grid2x2), Node(0, 0), Distances2x2)
  {
    Row2x2_0();
    Row2x2_1();
    assert RowsFeasibleFrom(Plain(Grid2x2), Distances2x2, 0);
    FeasibleByRows(Plain(Grid2x2), Node(0, 0), Distances2x2);
  }

  /** A walk from (0, 0) to (1, 1) and its cost. */
  lemma Walk2x2()
    ensures WellFormed(Plain(Grid2x2))
    ensures IsPath(Plain(Grid2x2), [Node(0, 0), Node(0, 1), Node(1, 1)], Node(0, 0), Node(1, 1))
    ensures PathCost(Plain(Grid2x2), [Node(0, 0), Node(0, 1), Node(1, 1)]) == 4
  {
    var m := Plain(Grid2x2);
    var p := [Node(0, 0), Node(0, 1), Node(1, 1)];
    assert p[..2] == [Node(0, 0), Node(0, 1)];
    assert p[..2][..1] == [Node(0, 0)];
    assert PathCost(m, [Node(0, 0), Node(0, 1)]) == 1;
  }

  /** The cost the test expects is the shortest one. */
  lemma Shortest2x2()
    ensures WellFormed(Plain(Grid2x2))
    ensures IsShortest(Plain(Grid2x2), Node(0, 0), Node(1, 1), 4)
  {
    Potential2x2();
    Walk2x2();
    ShortestByPotential(Plain(Grid2x2), Node(0, 0), Distances2x2, [Node(0, 0), Node(0, 1), Node(1, 1)], Node(1, 1));
  }

  /** The test: findPath returns 4. */
  method Test2x2() returns (r: int)
    ensures r == 4
  {
    var m := Plain(Grid2x2);
    Shortest2x2();
    PlainPositive(Grid2x2);
    r := FindPath(m, Node(0, 0), Node(1, 1));
    ShortestUnique(m, Node(0, 0), Node(1, 1), r, 4);
  }

  /** The weights of the test grid '116,138,213', one row per comma-separated group. */
  const Grid3x3: seq<seq<int>> := [[1, 1, 6], [1, 3, 8], [2, 1, 3]]

  /** The distances from (0, 0) in Grid3x3, row by row. */
  const Distances3x3: seq<seq<int>> := [[0, 1, 7], [1, 4, 12], [3, 4, 7]]

  // The StepsFeasible checks of Distances3x3, one row per lemma.
  lemma Row3x3_0()
    ensures WellFormed(Plain(Grid3x3)) && TableShape(Plain(Grid3x3), Distances3x3)
    ensures RowFeasibleFrom(Plain(Grid3x3), Distances3x3, 0, 0)
  {
  }

  lemma Row3x3_1()
    ensures WellFormed(Plain(Grid3x3)) && TableShape(Plain(Grid3x3), Distances3x3)
    ensures RowFeasibleFrom(Plain(Grid3x3), Distances3x3, 0, 1)
  {
  }

  lemma Row3x3_2()
    ensures WellFormed(Plain(Grid3x3)) && TableShape(Plain(Grid3x3), Distances3x3)
    ensures RowFeasibleFrom(Plain(Grid3x3), Distances3x3, 0, 2)
  {
  }

  /** The distance table is a feasible potential from (0, 0). */
  lemma Potential3x3()
    ensures WellFormed(Plain(Grid3x3))
    ensures Feasible(Plain(Grid3x3), Node(0, 0), Distances3x3)
  {
    Row3x3_0();
    Row3x3_1();
    Row3x3_2();
    assert RowsFeasibleFrom(Plain(Grid3x3), Distances3x3, 0);
    FeasibleByRows(Plain(Grid3x3), Node(0, 0), Distances3x3);
  }

  /** A walk from (0, 0) to (2, 2) and its cost. */
  lemma Walk3x3()
    ensures WellFormed(Plain(Grid3x3))
    ensures IsPath(Plain(Grid3x3), [Node(0, 0), Node(0, 1), Node(0, 2), Node(1, 2), Node(2, 2)], Node(0, 0), Node(2, 2))
    ensures PathCost(Plain(Grid3x3), [Node(0, 0), Node(0, 1), Node(0, 2), Node(1, 2), Node(2, 2)]) == 7
  {
    var m := Plain(Grid3x3);
    var p := [Node(0, 0), Node(0, 1), Node(0, 2), Node(1, 2), Node(2, 2)];
    assert p[..4] == [Node(0, 0), Node(0, 1), Node(0, 2), Node(1, 2)];
    assert p[..4][..3] == [Node(0, 0), Node(0, 1), Node(0, 2)];
    assert p[..4][..3][..2] == [Node(0, 0), Node(0, 1)];
    assert p[..4][..3][..2][..1] == [Node(0, 0)];
    assert PathCost(m, [Node(0, 0), Node(0, 1)]) == 1;
    assert PathCost(m, [Node(0, 0), Node(0, 1), Node(0, 2)]) == 3;
    assert PathCost(m, [Node(0, 0), Node(0, 1), Node(0, 2), Node(1, 2)]) == 4;
  }

  /** The cost the test expects is the shortest one. */
  lemma Shortest3x3()
    ensures WellFormed(Plain(Grid3x3))
    ensures IsShortest(Plain(Grid3x3), Node(0, 0), Node(2, 2), 7)
  {
    Potential3x3();
    Walk3x3();
    ShortestByPotential(Plain(Grid3x3), Node(0, 0), Distances3x3, [Node(0, 0), Node(0, 1), Node(0, 2), Node(1, 2), Node(2, 2)], Node(2, 2));
  }

  /** The test: findPath returns 7. */
  method Test3x3() returns (r: int)
    ensures r == 7
  {
    var m := Plain(Grid3x3);
    Shortest3x3();
    PlainPositive(Grid3x3);
    r := FindPath(m, Node(0, 0), Node(2, 2));
    ShortestUnique(m, Node(0, 0), Node(2, 2), r, 7);
  }

  /** The weights of the test grid '1163,1381,2136', one row per comma-separated group. */
  const Grid4x3: seq<seq<int>> := [[1, 1, 6, 3], [1, 3, 8, 1], [2, 1, 3, 6]]

  /** The distances from (0, 0) in Grid4x3, row by row. */
  const Distances4x3: seq<seq<int>> := [[0, 1, 7, 10], [1, 4, 12, 11], [3, 4, 7, 13]]

  // The StepsFeasible checks of Distances4x3, one row per lemma.
  lemma Row4x3_0()
    ensures WellFormed(Plain(Grid4x3)) && TableShape(Plain(Grid4x3), Distances4x3)
    ensures RowFeasibleFrom(Plain(Grid4x3), Distances4x3, 0, 0)
  {
  }

  lemma Row4x3_1()
    ensures WellFormed(Plain(Grid4x3)) && TableShape(Plain(Grid4x3), Distances4x3)
    ensures RowFeasibleFrom(Plain(Grid4x3), Distances4x3, 0, 1)
  {
  }

  lemma Row4x3_2()
    ensures WellFormed(Plain(Grid4x3)) && TableShape(Plain(Grid4x3), Distances4x3)
    ensures RowFeasibleFrom(Plain(Grid4x3), Distances4x3, 0, 2)
  {
  }

  /** The distance table is a feasible potential from (0, 0). */
  lemma Potential4x3()
    ensures WellFormed(Plain(Grid4x3))
    ensures Feasible(Plain(Grid4x3), Node(0, 0), Distances4x3)
  {
    Row4x3_0();
    Row4x3_1();
    Row4x3_2();
    assert RowsFeasibleFrom(Plain(Grid4x3), Distances4x3, 0);
    FeasibleByRows(Plain(Grid4x3), Node(0, 0), Distances4x3);
  }

  /** A walk from (0, 0) to (3, 2) and its cost. */
  lemma Walk4x3()
    ensures WellFormed(Plain(Grid4x3))
    ensures IsPath(Plain(Grid4x3), [Node(0, 0), Node(0, 1), Node(0, 2), Node(1, 2), Node(2, 2), Node(3, 2)], Node(0, 0), Node(3, 2))
    ensures PathCost(Plain(Grid4x3), [Node(0, 0), Node(0, 1), Node(0, 2), Node(1, 2), Node(2, 2), Node(3, 2)]) == 13
  {
    var m := Plain(Grid4x3);
    var p := [Node(0, 0), Node(0, 1), Node(0, 2), Node(1, 2), Node(2, 2), Node(3, 2)];
    assert p[..5] == [Node(0, 0), Node(0, 1), Node(0, 2), Node(1, 2), Node(2, 2)];
    assert p[..5][..4] == [Node(0, 0), Node(0, 1), Node(0, 2), Node(1, 2)];
    assert p[..5][..4][..3] == [Node(0, 0), Node(0, 1), Node(0, 2)];
    assert p[..5][..4][..3][..2] == [Node(0, 0), Node(0, 1)];
    assert p[..5][..4][..3][..2][..1] == [Node(0, 0)];
    assert PathCost(m, [Node(0, 0), Node(0, 1)]) == 1;
    assert PathCost(m, [Node(0, 0), Node(0, 1), Node(0, 2)]) == 3;
    assert PathCost(m, [Node(0, 0), Node(0, 1), Node(0, 2), Node(1, 2)]) == 4;
    assert PathCost(m, [Node(0, 0), Node(0, 1), Node(0, 2), Node(1, 2), Node(2, 2)]) == 7;
  }

  /** The cost the test expects is the shortest one. */
  lemma Shortest4x3()
    ensures WellFormed(Plain(Grid4x3))
    ensures IsShortest(Plain(Grid4x3), Node(0, 0), Node(3, 2), 13)
  {
    Potential4x3();
    Walk4x3();
    ShortestByPotential(Plain(Grid4x3), Node(0, 0), Distances4x3, [Node(0, 0), Node(0, 1), Node(0, 2), Node(1, 2), Node(2, 2), Node(3, 2)], Node(3, 2));
  }

  /** The test: findPath returns 13. */
  method Test4x3() returns (r: int)
    ensures r == 13
  {
    var m := Plain(Grid4x3);
    Shortest4x3();
    PlainPositive(Grid4x3);
    r := FindPath(m, Node(0, 0), Node(3, 2));
    ShortestUnique(m, Node(0, 0), Node(3, 2), r, 13);
  }

  /** The tiled view of the one-cell grid '8': weights rise by one per tile
      step and fold from 9 back to 1. */
  lemma TiledEight()
    ensures WellFormed(Tiled(Plain([[8]])))
    ensures MaxX(Tiled(Plain([[8]]))) == 5 && MaxY(Tiled(Plain([[8]]))) == 5
    ensures Weight(Tiled(Plain([[8]])), Node(0, 0)) == 8
    ensures Weight(Tiled(Plain([[8]])), Node(1, 0)) == 9
    ensures Weight(Tiled(Plain([[8]])), Node(2, 0)) == 1
    ensures Weight(Tiled(Plain([[8]])), Node(4, 4)) == 7
  {
  }

  /** A one-cell grid asked for a target outside it: findPath reports -1
      rather than failing on the bounds; asked for the start itself, 0, and
      0 too for a start outside the grid that is its own target. */
  method TestOutside() returns (r: int, r0: int, r1: int)
    ensures r == -1 && r0 == 0 && r1 == 0
  {
    var m := Plain([[5]]);
    PlainPositive([[5]]);
    r := FindPath(m, Node(0, 0), Node(1, 0));
    r0 := FindPath(m, Node(0, 0), Node(0, 0));
    r1 := FindPath(m, Node(3, -2), Node(3, -2));
  }
}
