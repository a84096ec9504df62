/** The records findPath keeps (PathNode and its dataclass order), the
    record offered for a neighbour, and the predicates that describe the
    state of the search between two steps. */
module Search {
  import opened Grid
  import opened Paths

  /** A node of the traversed graph: f-cost, g-cost, the node and its parent. */
  datatype PathNode = PathNode(pathLength: int, distanceFromStart: int, node: Node, parent: Node)

  // ---------------------------------------------------------------------
  // The order of @dataclass(order=True): fields compared left to right,
  // nodes compared as (x, y) tuples.

  predicate NodeBefore(a: Node, b: Node)
  {
    a.x < b.x || (a.x == b.x && a.y < b.y)
  }

  predicate Before(a: PathNode, b: PathNode): (r: bool)
    ensures a.pathLength < b.pathLength ==> r
    ensures r ==> a.pathLength <= b.pathLength
  {
    || a.pathLength < b.pathLength
    || (a.pathLength == b.pathLength && a.distanceFromStart < b.distanceFromStart)
    || (a.pathLength == b.pathLength && a.distanceFromStart == b.distanceFromStart && NodeBefore(a.node, b.node))
    || (a.pathLength == b.pathLength && a.distanceFromStart == b.distanceFromStart && a.node == b.node &&
        NodeBefore(a.parent, b.parent))
  }

  predicate AtMost(a: PathNode, b: PathNode)
  {
    a == b || Before(a, b)
  }

  /** Before is a strict total order on records. */
  lemma BeforeIsStrictTotalOrder(a: PathNode, b: PathNode, c: PathNode)
    ensures !Before(a, a)
    ensures Before(a, b) && Before(b, c) ==> Before(a, c)
    ensures a != b ==> (Before(a, b) <==> !Before(b, a))
  {
  }

  predicate Distinct(s: seq<Node>)
  {
    forall i, j | 0 <= i < j < |s| :: s[i] != s[j]
  }

  // ---------------------------------------------------------------------
  // The record findValidNeighbours offers for a neighbour.

  /** The record offered for one neighbour of `from`: g is from's g plus the
      weight of the neighbour, f = g + h, and from is the parent. */
  ghost predicate Offer(m: Matrix, target: Node, from: PathNode, closed: set<Node>, nb: PathNode)
    requires WellFormed(m)
  {
    && nb.node !in closed && InBounds(m, nb.node) && Adjacent(from.node, nb.node)
    && nb.distanceFromStart == from.distanceFromStart + Weight(m, nb.node)
    && nb.pathLength == nb.distanceFromStart + Heuristic(nb.node, target)
    && nb.parent == from.node
  }

  /** The records offered for the neighbours of `from`, one per node. */
  ghost predicate OfferedBy(m: Matrix, target: Node, from: PathNode, closed: set<Node>, neighbours: seq<PathNode>)
    requires WellFormed(m)
  {
    && (forall i, j | 0 <= i < j < |neighbours| :: neighbours[i].node != neighbours[j].node)
    && forall i | 0 <= i < |neighbours| :: Offer(m, target, from, closed, neighbours[i])
  }

  // ---------------------------------------------------------------------
  // The state of findPath and what it keeps invariant.

  /** The record of the start node: its own parent, at distance 0. */
  function Root(start: Node, target: Node): PathNode
  {
    PathNode(Heuristic(start, target), 0, start, start)
  }

  /** Every record describes its own node, lies in the grid and has f = g + h. */
  ghost predicate RecordsConsistent(m: Matrix, target: Node, records: map<Node, PathNode>)
    requires WellFormed(m)
  {
    forall n | n in records ::
      && records[n].node == n && InBounds(m, n)
      && records[n].pathLength == records[n].distanceFromStart + Heuristic(n, target)
  }

  /** Every recorded distance is the cost of a real walk from the start. */
  ghost predicate Witnessed(m: Matrix, start: Node, records: map<Node, PathNode>, paths: map<Node, seq<Node>>)
    requires WellFormed(m)
  {
    forall n | n in records ::
      n in paths && IsPath(m, paths[n], start, n) && PathCost(m, paths[n]) == records[n].distanceFromStart
  }

  /** How the heap list, openListMap, closeList and the log of pushes relate.
      Each node enters the heap at most once: the log is duplicate-free. */
  ghost predicate ListsConsistent(start: Node, target: Node, heap: seq<Node>, records: map<Node, PathNode>,
                                  openListMap: set<Node>, closeList: set<Node>, pushed: seq<Node>)
  {
    && Distinct(heap)
    && (forall i | 0 <= i < |heap| :: heap[i] in records && heap[i] !in closeList)
    && closeList <= records.Keys
    && (forall n | n in records :: n in heap || n in closeList)
    && openListMap <= records.Keys
    && start !in openListMap
    && (forall n | n in records :: n in openListMap || n == start)
    && start in records && records[start] == Root(start, target)
    && (start !in closeList ==> heap == [start] && closeList == {})
    && Distinct(pushed)
    && (forall n :: n in pushed <==> n in openListMap)
  }

  /** Every parent is closed, except the start's, which is the start itself. */
  ghost predicate ParentsClosed(start: Node, records: map<Node, PathNode>, closeList: set<Node>)
  {
    forall n | n in records :: records[n].parent in closeList || (n == start && records[n].parent == start)
  }

  /** A closed node's distance is the least cost of any walk to it. */
  ghost predicate ClosedOptimal(m: Matrix, start: Node, records: map<Node, PathNode>, closeList: set<Node>)
    requires WellFormed(m)
  {
    forall c | c in closeList && c in records ::
      forall p | IsPath(m, p, start, c) :: records[c].distanceFromStart <= PathCost(m, p)
  }

  ghost predicate SearchState(m: Matrix, start: Node, target: Node, heap: seq<Node>, records: map<Node, PathNode>,
                              openListMap: set<Node>, closeList: set<Node>, pushed: seq<Node>,
                              paths: map<Node, seq<Node>>)
    requires WellFormed(m)
  {
    && RecordsConsistent(m, target, records)
    && Witnessed(m, start, records, paths)
    && ListsConsistent(start, target, heap, records, openListMap, closeList, pushed)
    && ParentsClosed(start, records, closeList)
    && ClosedOptimal(m, start, records, closeList)
  }

  /** Closed node c has offered every neighbour: each in-grid neighbour is
      closed or waits in the heap at no more than c's distance plus its weight. */
  ghost predicate Expanded(m: Matrix, records: map<Node, PathNode>, heap: seq<Node>, closeList: set<Node>, c: Node)
    requires WellFormed(m)
  {
    c in records &&
    forall v | InBounds(m, v) && Adjacent(c, v) ::
      v in closeList ||
      (v in heap && v in records &&
       records[v].distanceFromStart <= records[c].distanceFromStart + Weight(m, v))
  }

  ghost predicate FrontierComplete(m: Matrix, records: map<Node, PathNode>, heap: seq<Node>, closeList: set<Node>)
    requires WellFormed(m)
  {
    forall c | c in closeList :: Expanded(m, records, heap, closeList, c)
  }

  ghost predicate ExpandedAllBut(m: Matrix, records: map<Node, PathNode>, heap: seq<Node>, closeList: set<Node>, u: Node)
    requires WellFormed(m)
  {
    forall c | c in closeList && c != u :: Expanded(m, records, heap, closeList, c)
  }
}
