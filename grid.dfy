/** The weighted grid the search runs on: node coordinates, the heuristic,
    the plain weight matrix and its five-fold tiled view, and the enumeration
    of a node's neighbours (a_star.py, classes Node, Matrix and Matrix5x5). */
module Grid {

  /** A cell coordinate. Python's NamedTuple compares nodes by (x, y). */
  datatype Node = Node(x: int, y: int)

  function Abs(i: int): (r: nat)
    ensures r == i || r == -i
  {
    if i < 0 then -i else i
  }

  /** Plain Manhattan distance, the reference the heuristic is compared with. */
  function Manhattan(a: Node, b: Node): nat
  {
    Abs(b.x - a.x) + Abs(b.y - a.y)
  }

  /** Two nodes one axis step apart. */
  predicate Adjacent(a: Node, b: Node)
  {
    Manhattan(a, b) == 1
  }

  /** heuristicPathLength: the Manhattan distance, counted one less when the
      target differs from the node on both axes ("crossroad counted once"). */
  function Heuristic(node: Node, target: Node): (h: int)
    ensures 0 <= h <= Manhattan(node, target)
    ensures Manhattan(node, target) - 1 <= h
    ensures h == 0 <==> node == target
  {
    var diffX := Abs(target.x - node.x);
    var diffY := Abs(target.y - node.y);
    var manhattan := diffX + diffY;
    if diffX != 0 && diffY != 0 then manhattan - 1 else manhattan
  }

  /** The heuristic does not depend on which of the two nodes is the target. */
  lemma HeuristicSymmetric(a: Node, b: Node)
    ensures Heuristic(a, b) == Heuristic(b, a)
  {
  }

  /** One step changes the heuristic by at most one, in either direction. */
  lemma HeuristicStep(a: Node, b: Node, target: Node)
    requires Adjacent(a, b)
    ensures Heuristic(a, target) <= Heuristic(b, target) + 1
    ensures Heuristic(b, target) <= Heuristic(a, target) + 1
  {
  }

  /** A weight source. Plain is Matrix over rows weights[y][x]; Tiled is
      Matrix5x5, a view five times wider and taller than its base matrix,
      which may itself be either kind. */
  datatype Matrix = Plain(weights: seq<seq<int>>) | Tiled(base: Matrix)

  /** How many copies of the base a tiled matrix has along each axis. */
  const TileFactor: nat := 5

  /** What the code needs of its rows: at least one row (the constructor
      reads weights[0]) and no row shorter than the first (getWeight reads, in every row, only
      columns below the first row's length). */
  predicate WellFormed(m: Matrix)
  {
    match m
    case Plain(w) => |w| > 0 && forall i | 0 <= i < |w| :: |w[i]| >= |w[0]|
    case Tiled(b) => WellFormed(b)
  }

  /** The plain matrix at the bottom of a tower of tiled views. */
  function Innermost(m: Matrix): (p: Matrix)
    ensures p.Plain?
    ensures WellFormed(m) ==> WellFormed(p)
  {
    match m
    case Plain(_) => m
    case Tiled(b) => Innermost(b)
  }

  /** How many times the innermost matrix is magnified along each axis. */
  function Scale(m: Matrix): (s: nat)
    ensures s >= 1
  {
    match m
    case Plain(_) => 1
    case Tiled(b) => TileFactor * Scale(b)
  }

  /** getMaxX: the row length for a plain matrix, five times the base's for a
      tiled one. It is 0 only when the innermost first row is empty (the
      closed form is Dimensions). */
  function MaxX(m: Matrix): (x: nat)
    requires WellFormed(m)
  {
    match m
    case Plain(w) => |w[0]|
    case Tiled(b) => TileFactor * MaxX(b)
  }

  /** getMaxY: the number of rows for a plain matrix, five times the base's
      for a tiled one. It is never 0, since the constructor reads a first row. */
  function MaxY(m: Matrix): (y: nat)
    requires WellFormed(m)
    ensures y >= 1
  {
    match m
    case Plain(w) => |w|
    case Tiled(b) => TileFactor * MaxY(b)
  }

  /** The bounds in closed form: the innermost matrix's row length and number
      of rows, each magnified by five per tiled view. */
  lemma {:induction false} Dimensions(m: Matrix)
    requires WellFormed(m)
    ensures MaxX(m) == Scale(m) * |Innermost(m).weights[0]|
    ensures MaxY(m) == Scale(m) * |Innermost(m).weights|
  {
    match m
    case Plain(_) =>
    case Tiled(b) =>
      Dimensions(b);
      assert TileFactor * (Scale(b) * |Innermost(b).weights[0]|) == (TileFactor * Scale(b)) * |Innermost(b).weights[0]|;
      assert TileFactor * (Scale(b) * |Innermost(b).weights|) == (TileFactor * Scale(b)) * |Innermost(b).weights|;
  }

  predicate InBounds(m: Matrix, n: Node)
    requires WellFormed(m)
  {
    0 <= n.x < MaxX(m) && 0 <= n.y < MaxY(m)
  }

  /** For a plain matrix the bounds set up by the constructor (row length of
      the first row, number of rows) mark out cells getWeight can read. */
  lemma PlainBounds(w: seq<seq<int>>, n: Node)
    requires WellFormed(Plain(w))
    ensures InBounds(Plain(w), n) <==> 0 <= n.y < |w| && 0 <= n.x < |w[0]|
    ensures InBounds(Plain(w), n) ==> n.x < |w[n.y]|
  {
  }

  /** The cells of the matrix, as a finite set. */
  function Cells(m: Matrix): (cs: set<Node>)
    requires WellFormed(m)
    ensures forall n | n in cs :: InBounds(m, n)
  {
    set x, y | 0 <= x < MaxX(m) && 0 <= y < MaxY(m) :: Node(x, y)
  }

  lemma InCells(m: Matrix, n: Node)
    requires WellFormed(m) && InBounds(m, n)
    ensures n in Cells(m)
  {
    assert n == Node(n.x, n.y);
  }

  /** Closing one more cell of the grid leaves fewer cells open. */
  lemma CloseShrinks(m: Matrix, closed: set<Node>, n: Node)
    requires WellFormed(m) && closed <= Cells(m) && InBounds(m, n) && n !in closed
    ensures closed + {n} <= Cells(m)
    ensures |Cells(m) - (closed + {n})| < |Cells(m) - closed|
  {
    InCells(m, n);
    assert Cells(m) - closed == (Cells(m) - (closed + {n})) + {n};
  }

  /** The fold into 1..9 of Matrix5x5.getWeight. Python's % with a positive
      divisor never returns a negative remainder, like Dafny's. */
  function Wrap(w: int): (r: int)
    ensures 1 <= r <= 9
    ensures 1 <= w <= 9 ==> r == w
    ensures (r - w) % 9 == 0
  {
    ((w - 1) % 9) + 1
  }

  /** getWeight: the cost of entering node n. */
  function Weight(m: Matrix, n: Node): (r: int)
    requires WellFormed(m) && InBounds(m, n)
    ensures m.Tiled? ==> 1 <= r <= 9
  {
    match m
    case Plain(w) => w[n.y][n.x]
    case Tiled(b) =>
      var sectorX := n.x / MaxX(b);
      var sectorY := n.y / MaxY(b);
      var inSectorX := n.x % MaxX(b);
      var inSectorY := n.y % MaxY(b);
      Wrap(Weight(b, Node(inSectorX, inSectorY)) + sectorX + sectorY)
  }

  /** Every cell can be entered at a positive cost. */
  ghost predicate PositiveWeights(m: Matrix)
    requires WellFormed(m)
  {
    forall n | InBounds(m, n) :: Weight(m, n) >= 1
  }

  lemma PlainPositive(w: seq<seq<int>>)
    requires WellFormed(Plain(w))
    requires forall i, j | 0 <= i < |w| && 0 <= j < |w[i]| :: w[i][j] >= 1
    ensures PositiveWeights(Plain(w))
  {
  }

  /** A tiled matrix always has weights in 1..9, whatever its base holds. */
  lemma TiledPositive(b: Matrix)
    requires WellFormed(b)
    ensures PositiveWeights(Tiled(b))
  {
  }

  lemma DivModUnique(a: int, d: int, q: int, r: int)
    requires 0 < d && 0 <= r < d && a == q * d + r
    ensures a / d == q && a % d == r
  {
    var q', r' := a / d, a % d;
    assert a == q' * d + r';
    assert (q - q') * d == r' - r;
    if q > q' {
      assert (q - q') * d >= d by { MulAtLeast(q - q', d); }
    } else if q < q' {
      assert (q' - q) * d >= d by { MulAtLeast(q' - q, d); }
    }
  }

  lemma MulAtLeast(k: int, d: int)
    requires k >= 1 && d >= 0
    ensures k * d >= d
  {
  }

  /** The tiled view is the base repeated 5 x 5 times: the cell at column
      sectorX*maxX + x and row sectorY*maxY + y of the view exists and costs
      the base weight of (x, y) raised by sectorX + sectorY and folded into 1..9. */
  lemma TiledCell(b: Matrix, sectorX: int, sectorY: int, n: Node)
    requires WellFormed(b) && InBounds(b, n)
    requires 0 <= sectorX < TileFactor && 0 <= sectorY < TileFactor
    ensures var t := Node(sectorX * MaxX(b) + n.x, sectorY * MaxY(b) + n.y);
            InBounds(Tiled(b), t) &&
            Weight(Tiled(b), t) == Wrap(Weight(b, n) + sectorX + sectorY)
  {
    var t := Node(sectorX * MaxX(b) + n.x, sectorY * MaxY(b) + n.y);
    DivModUnique(t.x, MaxX(b), sectorX, n.x);
    DivModUnique(t.y, MaxY(b), sectorY, n.y);
    assert sectorX * MaxX(b) + n.x < TileFactor * MaxX(b) by {
      MulAtLeast(TileFactor - sectorX, MaxX(b));
    }
    assert sectorY * MaxY(b) + n.y < TileFactor * MaxY(b) by {
      MulAtLeast(TileFactor - sectorY, MaxY(b));
    }
    assert Node(t.x % MaxX(b), t.y % MaxY(b)) == n;
  }

  /** Inside sector (0, 0) the tiled view shows the base weights unchanged
      when they are digits 1..9. */
  lemma TiledOrigin(b: Matrix, n: Node)
    requires WellFormed(b) && InBounds(b, n) && 1 <= Weight(b, n) <= 9
    ensures InBounds(Tiled(b), n) && Weight(Tiled(b), n) == Weight(b, n)
  {
    TiledCell(b, 0, 0, n);
    assert Node(0 * MaxX(b) + n.x, 0 * MaxY(b) + n.y) == n;
  }

  // ---------------------------------------------------------------------
  // findNeighbourNodes

  /** The offsets tried, in order: right, below, left, above. */
  const Offsets: seq<(int, int)> := [(1, 0), (0, 1), (-1, 0), (0, -1)]

  function Shift(n: Node, offset: (int, int)): Node
  {
    Node(n.x + offset.0, n.y + offset.1)
  }

  /** Which offset leads from current to n (4 when none does). */
  function Direction(current: Node, n: Node): (d: nat)
    ensures d <= 4
    ensures d < 4 ==> n == Shift(current, Offsets[d])
    ensures forall k | 0 <= k < 4 :: n == Shift(current, Offsets[k]) ==> d == k
  {
    if n == Shift(current, Offsets[0]) then 0
    else if n == Shift(current, Offsets[1]) then 1
    else if n == Shift(current, Offsets[2]) then 2
    else if n == Shift(current, Offsets[3]) then 3
    else 4
  }

  /** The (equality-based) border test of findNeighbourNodes. */
  predicate OnBorder(m: Matrix, n: Node)
    requires WellFormed(m)
  {
    n.x == MaxX(m) || n.y == MaxY(m) || n.x == -1 || n.y == -1
  }

  /** A candidate survives: it is not the parent, not on the border, not closed. */
  predicate Admissible(m: Matrix, closed: set<Node>, parent: Node, n: Node)
    requires WellFormed(m)
  {
    n != parent && !OnBorder(m, n) && n !in closed
  }

  /** The neighbours findNeighbourNodes has collected after trying the first k offsets. */
  function NeighboursUpTo(m: Matrix, closed: set<Node>, current: Node, parent: Node, k: nat): seq<Node>
    requires WellFormed(m) && k <= |Offsets|
  {
    if k == 0 then []
    else
      var n := Shift(current, Offsets[k - 1]);
      NeighboursUpTo(m, closed, current, parent, k - 1) + (if Admissible(m, closed, parent, n) then [n] else [])
  }

  function Neighbours(m: Matrix, closed: set<Node>, current: Node, parent: Node): seq<Node>
    requires WellFormed(m)
  {
    NeighboursUpTo(m, closed, current, parent, |Offsets|)
  }

  /** findNeighbourNodes; the close-list callback is the set of closed nodes. */
  method FindNeighbourNodes(m: Matrix, closed: set<Node>, current: Node, parent: Node)
    returns (neighbourNodes: seq<Node>)
    requires WellFormed(m)
    ensures neighbourNodes == Neighbours(m, closed, current, parent)
  {
    neighbourNodes := [];
    for k := 0 to |Offsets|
      invariant neighbourNodes == NeighboursUpTo(m, closed, current, parent, k)
    {
      var neighbourNode := Shift(current, Offsets[k]);
      if neighbourNode == parent {
        continue;
      }
      if neighbourNode.x == MaxX(m) || neighbourNode.y == MaxY(m)
         || neighbourNode.x == -1 || neighbourNode.y == -1 {
        continue;
      }
      if neighbourNode in closed {
        continue;
      }
      neighbourNodes := neighbourNodes + [neighbourNode];
    }
  }

  lemma {:induction false} NeighboursUpToSpec(m: Matrix, closed: set<Node>, current: Node, parent: Node, k: nat)
    requires WellFormed(m) && k <= |Offsets|
    ensures var ns := NeighboursUpTo(m, closed, current, parent, k);
            && |ns| <= k
            && (forall i | 0 <= i < |ns| :: Direction(current, ns[i]) < k && Admissible(m, closed, parent, ns[i]))
            && (forall i, j | 0 <= i < j < |ns| :: Direction(current, ns[i]) < Direction(current, ns[j]))
            && (forall d | 0 <= d < k ::
                  Shift(current, Offsets[d]) in ns <==> Admissible(m, closed, parent, Shift(current, Offsets[d])))
  {
    if k > 0 {
      NeighboursUpToSpec(m, closed, current, parent, k - 1);
      var prev := NeighboursUpTo(m, closed, current, parent, k - 1);
      var n := Shift(current, Offsets[k - 1]);
      assert Direction(current, n) == k - 1;
      forall d | 0 <= d < k - 1
        ensures Shift(current, Offsets[d]) != n
      {
        assert Direction(current, Shift(current, Offsets[d])) == d;
      }
    }
  }

  /** What findNeighbourNodes promises: at most four nodes, each one step from
      the current node, none of them the parent or closed, in the order right,
      below, left, above; inside the grid whenever the current node is, and
      then exactly the in-grid neighbours that are neither parent nor closed. */
  lemma NeighbourNodesSpec(m: Matrix, closed: set<Node>, current: Node, parent: Node)
    requires WellFormed(m)
    ensures var ns := Neighbours(m, closed, current, parent);
            && |ns| <= 4
            && (forall i | 0 <= i < |ns| ::
                  Adjacent(current, ns[i]) && ns[i] != parent && ns[i] !in closed &&
                  (InBounds(m, current) ==> InBounds(m, ns[i])))
            && (forall i, j | 0 <= i < j < |ns| :: Direction(current, ns[i]) < Direction(current, ns[j]))
            && (InBounds(m, current) ==>
                  forall n | Adjacent(current, n) ::
                    n in ns <==> (InBounds(m, n) && n != parent && n !in closed))
  {
    NeighboursUpToSpec(m, closed, current, parent, 4);
    var ns := Neighbours(m, closed, current, parent);
    if InBounds(m, current) {
      forall n | Adjacent(current, n)
        ensures n in ns <==> (InBounds(m, n) && n != parent && n !in closed)
      {
        assert Direction(current, n) < 4;
      }
    }
  }

  /** The border test rejects whole lines (x = -1, y = -1, x = maxX, y = maxY),
      not only the cells next to the grid: from a cell diagonally off one of
      the grid's corners every candidate lies on such a line, so
      findNeighbourNodes returns nothing there. */
  lemma OuterCornerIsolated(m: Matrix, closed: set<Node>, corner: Node, parent: Node)
    requires WellFormed(m)
    requires corner.x == -1 || corner.x == MaxX(m)
    requires corner.y == -1 || corner.y == MaxY(m)
    ensures Neighbours(m, closed, corner, parent) == []
  {
    assert NeighboursUpTo(m, closed, corner, parent, 1) == [];
    assert NeighboursUpTo(m, closed, corner, parent, 2) == [];
    assert NeighboursUpTo(m, closed, corner, parent, 3) == [];
  }
}
