/** Walks through the grid and what they cost: the reference definition of
    the shortest path cost that the A* search is proved to compute. */
module Paths {
  import opened Grid

  predicate AllInBounds(m: Matrix, p: seq<Node>)
    requires WellFormed(m)
  {
    forall i | 0 <= i < |p| :: InBounds(m, p[i])
  }

  /** A walk by 4-neighbour steps inside the grid from s to t. */
  predicate IsPath(m: Matrix, p: seq<Node>, s: Node, t: Node)
    requires WellFormed(m)
  {
    && |p| > 0 && p[0] == s && p[|p| - 1] == t
    && AllInBounds(m, p)
    && forall i | 0 <= i < |p| - 1 :: Adjacent(p[i], p[i + 1])
  }

  /** The sum of the weights of the cells entered; the first cell is not entered. */
  function PathCost(m: Matrix, p: seq<Node>): int
    requires WellFormed(m) && AllInBounds(m, p)
  {
    if |p| <= 1 then 0 else PathCost(m, p[..|p| - 1]) + Weight(m, p[|p| - 1])
  }

  /** d is the cost of a cheapest walk from s to t. */
  ghost predicate IsShortest(m: Matrix, s: Node, t: Node, d: int)
    requires WellFormed(m)
  {
    && (exists p :: IsPath(m, p, s, t) && PathCost(m, p) == d)
    && (forall p :: IsPath(m, p, s, t) ==> d <= PathCost(m, p))
  }

  lemma ShortestUnique(m: Matrix, s: Node, t: Node, d1: int, d2: int)
    requires WellFormed(m) && IsShortest(m, s, t, d1) && IsShortest(m, s, t, d2)
    ensures d1 == d2
  {
    var p1 :| IsPath(m, p1, s, t) && PathCost(m, p1) == d1;
    var p2 :| IsPath(m, p2, s, t) && PathCost(m, p2) == d2;
    assert d1 <= PathCost(m, p2) && d2 <= PathCost(m, p1);
  }

  /** Appending one step to a walk adds the weight of the cell entered. */
  lemma ExtendPath(m: Matrix, p: seq<Node>, s: Node, u: Node, w: Node)
    requires WellFormed(m) && IsPath(m, p, s, u) && InBounds(m, w) && Adjacent(u, w)
    ensures IsPath(m, p + [w], s, w)
    ensures PathCost(m, p + [w]) == PathCost(m, p) + Weight(m, w)
  {
    assert (p + [w])[..|p|] == p;
  }

  lemma {:induction false} PathCostBelow(m: Matrix, p: seq<Node>)
    requires WellFormed(m) && PositiveWeights(m) && AllInBounds(m, p) && |p| > 0
    ensures PathCost(m, p) >= |p| - 1
  {
    if |p| > 1 {
      PathCostBelow(m, p[..|p| - 1]);
    }
  }

  /** The cost of a walk is the cost up to its j-th cell plus the cost from there on. */
  lemma {:induction false} PathCostSplit(m: Matrix, p: seq<Node>, j: nat)
    requires WellFormed(m) && AllInBounds(m, p) && j < |p|
    ensures PathCost(m, p) == PathCost(m, p[..j + 1]) + PathCost(m, p[j..])
    decreases |p|
  {
    if j + 1 < |p| {
      var q := p[..|p| - 1];
      PathCostSplit(m, q, j);
      assert q[..j + 1] == p[..j + 1];
      assert p[j..][..|p[j..]| - 1] == q[j..];
    } else {
      assert p[..j + 1] == p;
    }
  }

  /** Along a walk the heuristic never drops by more than the cost paid
      (consistency), given weights of at least 1. */
  lemma {:induction false} HeuristicAlongPath(m: Matrix, p: seq<Node>, s: Node, u: Node, target: Node)
    requires WellFormed(m) && PositiveWeights(m) && IsPath(m, p, s, u)
    ensures Heuristic(s, target) <= PathCost(m, p) + Heuristic(u, target)
    decreases |p|
  {
    if |p| > 1 {
      var q := p[..|p| - 1];
      var v := p[|p| - 2];
      assert IsPath(m, q, s, v);
      HeuristicAlongPath(m, q, s, v, target);
      HeuristicStep(v, u, target);
    }
  }

  /** The heuristic never overestimates: every walk costs at least its value. */
  lemma HeuristicAdmissible(m: Matrix, p: seq<Node>, s: Node, t: Node)
    requires WellFormed(m) && PositiveWeights(m) && IsPath(m, p, s, t)
    ensures Heuristic(s, t) <= PathCost(m, p)
  {
    HeuristicAlongPath(m, p, s, t, t);
  }

  /** A walk that goes along x first and then along y. */
  function Walk(s: Node, t: Node): (p: seq<Node>)
    ensures |p| == Manhattan(s, t) + 1 && p[0] == s && p[|p| - 1] == t
    decreases Manhattan(s, t)
  {
    if s == t then [s]
    else
      var next :=
        if s.x < t.x then Node(s.x + 1, s.y)
        else if s.x > t.x then Node(s.x - 1, s.y)
        else if s.y < t.y then Node(s.x, s.y + 1)
        else Node(s.x, s.y - 1);
      [s] + Walk(next, t)
  }

  /** Every cell of the grid can be reached from every other: the staircase
      walk between two cells steps to a neighbour each time and stays inside
      the rectangle they span, hence inside the grid. */
  lemma {:induction false} Reachable(m: Matrix, s: Node, t: Node)
    requires WellFormed(m) && InBounds(m, s) && InBounds(m, t)
    ensures IsPath(m, Walk(s, t), s, t)
    decreases Manhattan(s, t)
  {
    if s != t {
      var p := Walk(s, t);
      var next := p[1];
      assert Walk(next, t) == p[1..];
      Reachable(m, next, t);
      assert Adjacent(s, next);
      forall i | 0 <= i < |p| - 1
        ensures Adjacent(p[i], p[i + 1])
      {
        if i > 0 {
          assert p[i] == p[1..][i - 1] && p[i + 1] == p[1..][i];
        }
      }
      forall i | 0 <= i < |p|
        ensures InBounds(m, p[i])
      {
        if i > 0 {
          assert p[i] == p[1..][i - 1];
        }
      }
    }
  }

  /** A set of cells that holds the start and every in-grid neighbour of its
      members holds the end of every walk from the start. */
  lemma {:induction false} ClosedSetHoldsWalks(m: Matrix, c: set<Node>, p: seq<Node>, s: Node, t: Node)
    requires WellFormed(m) && IsPath(m, p, s, t) && s in c
    requires forall a, b | a in c && InBounds(m, b) && Adjacent(a, b) :: b in c
    ensures t in c
    decreases |p|
  {
    if |p| > 1 {
      var v := p[|p| - 2];
      assert IsPath(m, p[..|p| - 1], s, v);
      ClosedSetHoldsWalks(m, c, p[..|p| - 1], s, v);
    }
  }

  /** A potential table d[y][x] that is 0 at the start and never rises by more
      than the weight of the cell entered bounds every walk's cost from below. */
  ghost predicate Feasible(m: Matrix, s: Node, d: seq<seq<int>>)
    requires WellFormed(m)
  {
    && |d| == MaxY(m)
    && (forall y | 0 <= y < |d| :: |d[y]| == MaxX(m))
    && InBounds(m, s) && d[s.y][s.x] == 0
    && forall a, b | InBounds(m, a) && InBounds(m, b) && Adjacent(a, b) ::
         d[b.y][b.x] <= d[a.y][a.x] + Weight(m, b)
  }

  /** The shape of a potential table: one entry per cell, d[y][x]. */
  predicate TableShape(m: Matrix, d: seq<seq<int>>)
    requires WellFormed(m)
  {
    |d| == MaxY(m) && forall y | 0 <= y < |d| :: |d[y]| == MaxX(m)
  }

  /** The potential rises by no more than the weight of b on the step a to b. */
  predicate StepFeasible(m: Matrix, d: seq<seq<int>>, a: Node, b: Node)
    requires WellFormed(m) && TableShape(m, d) && InBounds(m, a)
  {
    InBounds(m, b) ==> d[b.y][b.x] <= d[a.y][a.x] + Weight(m, b)
  }

  /** The same for the four steps out of cell a. */
  predicate StepsFeasible(m: Matrix, d: seq<seq<int>>, a: Node)
    requires WellFormed(m) && TableShape(m, d) && InBounds(m, a)
  {
    && StepFeasible(m, d, a, Node(a.x + 1, a.y))
    && StepFeasible(m, d, a, Node(a.x, a.y + 1))
    && StepFeasible(m, d, a, Node(a.x - 1, a.y))
    && StepFeasible(m, d, a, Node(a.x, a.y - 1))
  }

  /** Every step out of a is one of the four StepsFeasible checks. */
  lemma StepOutOf(m: Matrix, d: seq<seq<int>>, a: Node, b: Node)
    requires WellFormed(m) && TableShape(m, d) && InBounds(m, a) && StepsFeasible(m, d, a)
    requires Adjacent(a, b)
    ensures StepFeasible(m, d, a, b)
  {
    if b.y == a.y {
      assert b == Node(a.x + 1, a.y) || b == Node(a.x - 1, a.y);
    } else {
      assert b == Node(a.x, a.y + 1) || b == Node(a.x, a.y - 1);
    }
  }

  /** Feasibility can be checked cell by cell, step by step. */
  lemma FeasibleByCells(m: Matrix, s: Node, d: seq<seq<int>>)
    requires WellFormed(m) && TableShape(m, d) && InBounds(m, s) && d[s.y][s.x] == 0
    requires forall a | InBounds(m, a) :: StepsFeasible(m, d, a)
    ensures Feasible(m, s, d)
  {
    forall a, b | InBounds(m, a) && InBounds(m, b) && Adjacent(a, b)
      ensures d[b.y][b.x] <= d[a.y][a.x] + Weight(m, b)
    {
      StepOutOf(m, d, a, b);
    }
  }

  /** Cells (x, y), (x + 1, y), ... to the end of row y all pass StepsFeasible. */
  predicate RowFeasibleFrom(m: Matrix, d: seq<seq<int>>, x: nat, y: nat)
    requires WellFormed(m) && TableShape(m, d) && y < MaxY(m)
    decreases MaxX(m) - x
  {
    x >= MaxX(m) || (StepsFeasible(m, d, Node(x, y)) && RowFeasibleFrom(m, d, x + 1, y))
  }

  /** Rows y, y + 1, ... to the last all pass RowFeasibleFrom. */
  predicate RowsFeasibleFrom(m: Matrix, d: seq<seq<int>>, y: nat)
    requires WellFormed(m) && TableShape(m, d)
    decreases MaxY(m) - y
  {
    y >= MaxY(m) || (RowFeasibleFrom(m, d, 0, y) && RowsFeasibleFrom(m, d, y + 1))
  }

  lemma {:induction false} RowFeasibleAt(m: Matrix, d: seq<seq<int>>, x: nat, y: nat, a: Node)
    requires WellFormed(m) && TableShape(m, d) && y < MaxY(m) && RowFeasibleFrom(m, d, x, y)
    requires a.y == y && x <= a.x < MaxX(m)
    ensures StepsFeasible(m, d, a)
    decreases MaxX(m) - x
  {
    if a.x != x {
      RowFeasibleAt(m, d, x + 1, y, a);
    }
  }

  lemma {:induction false} RowsFeasibleAt(m: Matrix, d: seq<seq<int>>, y: nat, a: Node)
    requires WellFormed(m) && TableShape(m, d) && RowsFeasibleFrom(m, d, y)
    requires InBounds(m, a) && y <= a.y
    ensures StepsFeasible(m, d, a)
    decreases MaxY(m) - y
  {
    if a.y == y {
      RowFeasibleAt(m, d, 0, y, a);
    } else {
      RowsFeasibleAt(m, d, y + 1, a);
    }
  }

  /** A table that is 0 at the start and passes the row-by-row check is feasible. */
  lemma FeasibleByRows(m: Matrix, s: Node, d: seq<seq<int>>)
    requires WellFormed(m) && TableShape(m, d) && InBounds(m, s) && d[s.y][s.x] == 0
    requires RowsFeasibleFrom(m, d, 0)
    ensures Feasible(m, s, d)
  {
    forall a | InBounds(m, a)
      ensures StepsFeasible(m, d, a)
    {
      RowsFeasibleAt(m, d, 0, a);
    }
    FeasibleByCells(m, s, d);
  }

  lemma {:induction false} PotentialBound(m: Matrix, s: Node, d: seq<seq<int>>, p: seq<Node>, t: Node)
    requires WellFormed(m) && Feasible(m, s, d) && IsPath(m, p, s, t)
    ensures d[t.y][t.x] <= PathCost(m, p)
    decreases |p|
  {
    if |p| > 1 {
      var v := p[|p| - 2];
      assert IsPath(m, p[..|p| - 1], s, v);
      PotentialBound(m, s, d, p[..|p| - 1], v);
    }
  }

  /** A walk whose cost meets a feasible potential is a shortest one. */
  lemma ShortestByPotential(m: Matrix, s: Node, d: seq<seq<int>>, p: seq<Node>, t: Node)
    requires WellFormed(m) && Feasible(m, s, d) && IsPath(m, p, s, t)
    requires PathCost(m, p) == d[t.y][t.x]
    ensures IsShortest(m, s, t, PathCost(m, p))
  {
    forall q | IsPath(m, q, s, t)
      ensures PathCost(m, p) <= PathCost(m, q)
    {
      PotentialBound(m, s, d, q, t);
    }
  }
}
