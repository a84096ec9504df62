/** The A* search of MatrixAStar (a_star.py): the heap pop, the records
    offered for neighbours, the open-list update and findPath. */
module AStar {
  import opened Grid
  import opened Paths
  import opened Search

  // ---------------------------------------------------------------------
  // heappop: the heap list holds references to records; the record of a
  // node n is records[n].

  /** The position of the least record in the heap list. */
  function LeastIndex(heap: seq<Node>, records: map<Node, PathNode>): (i: nat)
    requires |heap| > 0 && forall k | 0 <= k < |heap| :: heap[k] in records
    ensures i < |heap|
    ensures forall k | 0 <= k < |heap| :: AtMost(records[heap[i]], records[heap[k]])
  {
    if |heap| == 1 then 0
    else
      var j := LeastIndex(heap[..|heap| - 1], records);
      if Before(records[heap[|heap| - 1]], records[heap[j]]) then |heap| - 1 else j
  }

  /** With one record per node the least record is unique, so the pop does
      not depend on how heapq lays the list out. */
  lemma LeastIsUnique(heap: seq<Node>, records: map<Node, PathNode>, i: nat, k: nat)
    requires Distinct(heap) && forall j | 0 <= j < |heap| :: heap[j] in records && records[heap[j]].node == heap[j]
    requires i < |heap| && k < |heap|
    requires forall j | 0 <= j < |heap| :: AtMost(records[heap[i]], records[heap[j]])
    requires forall j | 0 <= j < |heap| :: AtMost(records[heap[k]], records[heap[j]])
    ensures i == k
  {
    BeforeIsStrictTotalOrder(records[heap[i]], records[heap[k]], records[heap[k]]);
  }

  // ---------------------------------------------------------------------
  // findValidNeighbours

  /** The records built for the neighbours of `current` at distance g: one
      per node findNeighbourNodes returns, in its order, each inside the grid,
      with distanceFromStart = g + weight, pathLength = distanceFromStart + h
      and the current node as parent. */
  ghost predicate NeighbourRecords(m: Matrix, closed: set<Node>, current: PathNode, g: int, target: Node,
                                   vs: seq<PathNode>)
    requires WellFormed(m)
  {
    var ns := Neighbours(m, closed, current.node, current.parent);
    && |vs| == |ns|
    && forall i | 0 <= i < |ns| ::
         && vs[i].node == ns[i] && InBounds(m, ns[i])
         && vs[i].distanceFromStart == g + Weight(m, ns[i])
         && vs[i].pathLength == vs[i].distanceFromStart + Heuristic(ns[i], target)
         && vs[i].parent == current.node
  }

  /** findValidNeighbours: the records NeighbourRecords describes. */
  method FindValidNeighbours(m: Matrix, closed: set<Node>, distanceFromStart: int, current: PathNode, target: Node)
    returns (validNeighbours: seq<PathNode>)
    requires WellFormed(m) && InBounds(m, current.node)
    ensures NeighbourRecords(m, closed, current, distanceFromStart, target, validNeighbours)
  {
    var currentNode := current.node;
    var neighbourNodes := FindNeighbourNodes(m, closed, currentNode, current.parent);
    NeighbourNodesSpec(m, closed, currentNode, current.parent);
    validNeighbours := [];
    for k := 0 to |neighbourNodes|
      invariant |validNeighbours| == k
      invariant forall i | 0 <= i < k ::
                  && validNeighbours[i].node == neighbourNodes[i]
                  && validNeighbours[i].distanceFromStart == distanceFromStart + Weight(m, neighbourNodes[i])
                  && validNeighbours[i].pathLength == validNeighbours[i].distanceFromStart + Heuristic(neighbourNodes[i], target)
                  && validNeighbours[i].parent == currentNode
    {
      var neighbourNode := neighbourNodes[k];
      var g := distanceFromStart + Weight(m, neighbourNode);
      var h := Heuristic(neighbourNode, target);
      var f := g + h;
      validNeighbours := validNeighbours + [PathNode(f, g, neighbourNode, currentNode)];
    }
  }

  /** The records findValidNeighbours returns for a closed node in the grid
      are what the open-list update expects. */
  lemma ValidNeighboursOffered(m: Matrix, target: Node, current: PathNode, closed: set<Node>, vs: seq<PathNode>)
    requires WellFormed(m) && InBounds(m, current.node)
    requires NeighbourRecords(m, closed, current, current.distanceFromStart, target, vs)
    ensures OfferedBy(m, target, current, closed, vs)
  {
    NeighbourNodesSpec(m, closed, current.node, current.parent);
  }

  /** The first node of a walk that is not closed. */
  function FirstOpen(p: seq<Node>, closed: set<Node>): (j: nat)
    requires |p| > 0 && p[|p| - 1] !in closed
    ensures j < |p| && p[j] !in closed
    ensures forall k | 0 <= k < j :: p[k] in closed
  {
    if p[0] !in closed then 0 else 1 + FirstOpen(p[1..], closed)
  }

  /** How a walk to u splits at its j-th node v: the part up to v and the
      part after it, with the heuristic bound along the second part. */
  lemma WalkThrough(m: Matrix, p: seq<Node>, start: Node, u: Node, target: Node, j: nat)
    requires WellFormed(m) && PositiveWeights(m) && IsPath(m, p, start, u) && 0 < j < |p|
    ensures IsPath(m, p[..j], start, p[j - 1]) && Adjacent(p[j - 1], p[j]) && InBounds(m, p[j])
    ensures PathCost(m, p) == PathCost(m, p[..j]) + Weight(m, p[j]) + PathCost(m, p[j..])
    ensures AllInBounds(m, p[j..])
    ensures Heuristic(p[j], target) <= PathCost(m, p[j..]) + Heuristic(u, target)
  {
    WalkParts(m, p, start, u, j);
    PathCostSplit(m, p, j);
    assert p[..j + 1][..j] == p[..j];
    HeuristicAlongPath(m, p[j..], p[j], u, target);
  }

  /** The two parts of a walk split before its j-th node are walks. */
  lemma WalkParts(m: Matrix, p: seq<Node>, start: Node, u: Node, j: nat)
    requires WellFormed(m) && IsPath(m, p, start, u) && 0 < j < |p|
    ensures IsPath(m, p[..j], start, p[j - 1]) && Adjacent(p[j - 1], p[j]) && InBounds(m, p[j])
    ensures IsPath(m, p[j..], p[j], u)
  {
    assert IsPath(m, p[..j], start, p[j - 1]);
    assert IsPath(m, p[j..], p[j], u);
  }

  /** A walk to the popped node u leaves the closed set at some node v, offered
      by a closed neighbour c: g(u) + h(u) <= g(v) + h(v) since u is least,
      g(v) is at most the cost up to c plus v's weight, and h drops by no more
      than the cost of the rest of the walk. */
  lemma PopBeatsWalk(m: Matrix, start: Node, target: Node, heap: seq<Node>, records: map<Node, PathNode>,
                     closeList: set<Node>, i: nat, p: seq<Node>)
    requires WellFormed(m) && PositiveWeights(m)
    requires RecordsConsistent(m, target, records)
    requires FrontierComplete(m, records, heap, closeList)
    requires ClosedOptimal(m, start, records, closeList)
    requires i < |heap| && forall k | 0 <= k < |heap| :: heap[k] in records
    requires forall k | 0 <= k < |heap| :: records[heap[i]].pathLength <= records[heap[k]].pathLength
    requires heap[i] !in closeList && start in closeList
    requires IsPath(m, p, start, heap[i])
    ensures records[heap[i]].distanceFromStart <= PathCost(m, p)
  {
    var u := heap[i];
    var j := FirstOpen(p, closeList);
    var c, v := p[j - 1], p[j];
    WalkThrough(m, p, start, u, target, j);
    assert Expanded(m, records, heap, closeList, c);
    assert v in heap && records[v].distanceFromStart <= records[c].distanceFromStart + Weight(m, v);
    var k :| 0 <= k < |heap| && heap[k] == v;
    assert records[c].distanceFromStart <= PathCost(m, p[..j]);
  }

  /** The A* argument: the record with the least f-cost in the heap already
      holds the least cost of any walk to its node, since the heuristic is
      consistent; so closing it keeps every closed distance optimal. */
  lemma PopIsOptimal(m: Matrix, start: Node, target: Node, heap: seq<Node>, records: map<Node, PathNode>,
                     closeList: set<Node>, i: nat)
    requires WellFormed(m) && PositiveWeights(m)
    requires RecordsConsistent(m, target, records)
    requires FrontierComplete(m, records, heap, closeList)
    requires ClosedOptimal(m, start, records, closeList)
    requires start in records && records[start].distanceFromStart == 0
    requires i < |heap| && forall k | 0 <= k < |heap| :: heap[k] in records
    requires forall k | 0 <= k < |heap| :: records[heap[i]].pathLength <= records[heap[k]].pathLength
    requires heap[i] !in closeList
    requires start in closeList || heap[i] == start
    ensures forall p | IsPath(m, p, start, heap[i]) :: records[heap[i]].distanceFromStart <= PathCost(m, p)
    ensures ClosedOptimal(m, start, records, closeList + {heap[i]})
  {
    var u := heap[i];
    forall p | IsPath(m, p, start, u)
      ensures records[u].distanceFromStart <= PathCost(m, p)
    {
      if start !in closeList {
        PathCostBelow(m, p);
      } else {
        PopBeatsWalk(m, start, target, heap, records, closeList, i, p);
      }
    }
  }

  lemma RemoveAt(heap: seq<Node>, i: nat)
    requires Distinct(heap) && i < |heap|
    ensures Distinct(heap[..i] + heap[i + 1..])
    ensures forall n :: n in heap[..i] + heap[i + 1..] <==> n in heap && n != heap[i]
  {
    var heap' := heap[..i] + heap[i + 1..];
    forall n ensures n in heap' <==> n in heap && n != heap[i] {
      if n in heap' {
        var k :| 0 <= k < |heap'| && heap'[k] == n;
        if k < i { assert heap[k] == n; } else { assert heap[k + 1] == n; }
      }
      if n in heap && n != heap[i] {
        var k :| 0 <= k < |heap| && heap[k] == n;
        if k < i { assert heap'[k] == n; } else { assert heap'[k - 1] == n; }
      }
    }
  }

  lemma PopKeepsLists(start: Node, target: Node, heap: seq<Node>, records: map<Node, PathNode>,
                      openListMap: set<Node>, closeList: set<Node>, pushed: seq<Node>, i: nat)
    requires ListsConsistent(start, target, heap, records, openListMap, closeList, pushed)
    requires i < |heap|
    ensures ListsConsistent(start, target, heap[..i] + heap[i + 1..], records, openListMap,
                            closeList + {heap[i]}, pushed)
    ensures start in closeList + {heap[i]}
  {
    RemoveAt(heap, i);
  }

  lemma PopKeepsExpanded(m: Matrix, records: map<Node, PathNode>, heap: seq<Node>, closeList: set<Node>, i: nat)
    requires WellFormed(m) && Distinct(heap) && i < |heap|
    requires FrontierComplete(m, records, heap, closeList)
    ensures ExpandedAllBut(m, records, heap[..i] + heap[i + 1..], closeList + {heap[i]}, heap[i])
  {
    RemoveAt(heap, i);
    var heap', closeList' := heap[..i] + heap[i + 1..], closeList + {heap[i]};
    forall c | c in closeList' && c != heap[i]
      ensures Expanded(m, records, heap', closeList', c)
    {
      assert Expanded(m, records, heap, closeList, c);
    }
  }

  /** Popping the least record and closing its node keeps the state; every
      other closed node stays expanded. */
  lemma PopKeepsState(m: Matrix, start: Node, target: Node, heap: seq<Node>, records: map<Node, PathNode>,
                      openListMap: set<Node>, closeList: set<Node>, pushed: seq<Node>,
                      paths: map<Node, seq<Node>>, i: nat)
    requires WellFormed(m) && PositiveWeights(m)
    requires SearchState(m, start, target, heap, records, openListMap, closeList, pushed, paths)
    requires FrontierComplete(m, records, heap, closeList)
    requires i < |heap| && forall k | 0 <= k < |heap| :: AtMost(records[heap[i]], records[heap[k]])
    ensures var heap' := heap[..i] + heap[i + 1..];
            var closeList' := closeList + {heap[i]};
            && SearchState(m, start, target, heap', records, openListMap, closeList', pushed, paths)
            && ExpandedAllBut(m, records, heap', closeList', heap[i])
            && start in closeList'
  {
    PopIsOptimal(m, start, target, heap, records, closeList, i);
    PopKeepsLists(start, target, heap, records, openListMap, closeList, pushed, i);
    PopKeepsExpanded(m, records, heap, closeList, i);
  }

  // ---------------------------------------------------------------------
  // The update of the open list in findPath (the loop over neighbours).

  /** Storing an offered record for a node that is not closed keeps every
      record consistent, witnessed by a walk, with a closed parent, and leaves
      the closed records alone. */
  lemma StoreKeepsRecords(m: Matrix, start: Node, target: Node, records: map<Node, PathNode>,
                          closeList: set<Node>, paths: map<Node, seq<Node>>, current: Node, nb: PathNode)
    requires WellFormed(m)
    requires RecordsConsistent(m, target, records) && Witnessed(m, start, records, paths)
    requires ParentsClosed(start, records, closeList) && ClosedOptimal(m, start, records, closeList)
    requires current in closeList && current in records
    requires Offer(m, target, records[current], closeList, nb)
    ensures var records', paths' := records[nb.node := nb], paths[nb.node := paths[current] + [nb.node]];
            && RecordsConsistent(m, target, records') && Witnessed(m, start, records', paths')
            && ParentsClosed(start, records', closeList) && ClosedOptimal(m, start, records', closeList)
  {
    ExtendPath(m, paths[current], start, current, nb.node);
  }

  lemma PushKeepsLists(start: Node, target: Node, heap: seq<Node>, records: map<Node, PathNode>,
                       openListMap: set<Node>, closeList: set<Node>, pushed: seq<Node>, nb: PathNode)
    requires ListsConsistent(start, target, heap, records, openListMap, closeList, pushed)
    requires start in closeList && nb.node !in closeList && nb.node !in openListMap
    ensures nb.node !in records
    ensures ListsConsistent(start, target, heap + [nb.node], records[nb.node := nb], openListMap + {nb.node},
                            closeList, pushed + [nb.node])
  {
  }

  lemma RelaxKeepsLists(start: Node, target: Node, heap: seq<Node>, records: map<Node, PathNode>,
                        openListMap: set<Node>, closeList: set<Node>, pushed: seq<Node>, nb: PathNode)
    requires ListsConsistent(start, target, heap, records, openListMap, closeList, pushed)
    requires nb.node !in closeList && nb.node in openListMap
    ensures nb.node in records && nb.node in heap
    ensures ListsConsistent(start, target, heap, records[nb.node := nb], openListMap, closeList, pushed)
  {
  }

  lemma PushKeepsExpanded(m: Matrix, records: map<Node, PathNode>, heap: seq<Node>, closeList: set<Node>,
                          current: Node, nb: PathNode)
    requires WellFormed(m)
    requires ExpandedAllBut(m, records, heap, closeList, current)
    requires nb.node !in records && nb.node !in closeList
    ensures ExpandedAllBut(m, records[nb.node := nb], heap + [nb.node], closeList, current)
  {
    var records', heap' := records[nb.node := nb], heap + [nb.node];
    forall c | c in closeList && c != current
      ensures Expanded(m, records', heap', closeList, c)
    {
      assert Expanded(m, records, heap, closeList, c);
    }
  }

  lemma RelaxKeepsExpanded(m: Matrix, records: map<Node, PathNode>, heap: seq<Node>, closeList: set<Node>,
                           current: Node, nb: PathNode)
    requires WellFormed(m)
    requires ExpandedAllBut(m, records, heap, closeList, current)
    requires nb.node in records && nb.node !in closeList
    requires nb.distanceFromStart <= records[nb.node].distanceFromStart
    ensures ExpandedAllBut(m, records[nb.node := nb], heap, closeList, current)
  {
    var records' := records[nb.node := nb];
    forall c | c in closeList && c != current
      ensures Expanded(m, records', heap, closeList, c)
    {
      assert Expanded(m, records, heap, closeList, c);
    }
  }

  /** The nodes of the offered records vs that are not in `known`, in order:
      the ones the update pushes. */
  function NewNodes(vs: seq<PathNode>, known: set<Node>): (ns: seq<Node>)
    ensures forall n :: n in ns <==> n !in known && exists i | 0 <= i < |vs| :: vs[i].node == n
  {
    if vs == [] then []
    else
      var last := vs[|vs| - 1].node;
      NewNodes(vs[..|vs| - 1], known) + (if last in known then [] else [last])
  }

  lemma NewNodesSnoc(vs: seq<PathNode>, k: nat, known: set<Node>)
    requires k < |vs|
    ensures NewNodes(vs[..k + 1], known) ==
            NewNodes(vs[..k], known) + (if vs[k].node in known then [] else [vs[k].node])
  {
    assert vs[..k + 1][..k] == vs[..k];
  }

  /** What one pass of the loop body does to the store and the lists, for the
      offered record nb: the node ends up in the heap at no more than the
      offered distance; no other record changes; a known record is overwritten
      only by a strictly cheaper offer; a node not yet in openListMap is pushed
      and stored with the offered record itself. */
  ghost predicate OfferEffect(nb: PathNode, heap: seq<Node>, records: map<Node, PathNode>,
                              openListMap: set<Node>, pushed: seq<Node>,
                              heap': seq<Node>, records': map<Node, PathNode>,
                              openListMap': set<Node>, pushed': seq<Node>, relaxed: bool)
  {
    && StoreEffect(nb, openListMap, records, records', relaxed)
    && ListEffect(nb, openListMap, heap, pushed, heap', openListMap', pushed')
  }

  /** The part of OfferEffect about the record store. */
  ghost predicate StoreEffect(nb: PathNode, openListMap: set<Node>, records: map<Node, PathNode>,
                              records': map<Node, PathNode>, relaxed: bool)
  {
    var n := nb.node;
    && records'.Keys == records.Keys + {n}
    && records'[n].distanceFromStart <= nb.distanceFromStart
    && (forall v | v in records' && v != n :: v in records && records'[v] == records[v])
    && (n in records ==> records'[n].pathLength <= records[n].pathLength)
    && (relaxed <==> n in records && records'[n] != records[n])
    && (relaxed ==> n in openListMap && records'[n].pathLength < records[n].pathLength && records'[n] == nb)
    && (n !in openListMap ==> records'[n] == nb)
  }

  /** The part of OfferEffect about the heap list, the log of pushes and openListMap. */
  ghost predicate ListEffect(nb: PathNode, openListMap: set<Node>, heap: seq<Node>, pushed: seq<Node>,
                             heap': seq<Node>, openListMap': set<Node>, pushed': seq<Node>)
  {
    var n := nb.node;
    && n in heap'
    && heap' == heap + (if n in openListMap then [] else [n])
    && pushed' == pushed + (if n in openListMap then [] else [n])
    && openListMap' == openListMap + {n}
  }

  /** A node not yet in openListMap is pushed with the offered record. */
  lemma PushEffect(nb: PathNode, heap: seq<Node>, records: map<Node, PathNode>, openListMap: set<Node>,
                   pushed: seq<Node>)
    requires nb.node !in openListMap && nb.node !in records
    ensures OfferEffect(nb, heap, records, openListMap, pushed,
                        heap + [nb.node], records[nb.node := nb], openListMap + {nb.node}, pushed + [nb.node], false)
  {
  }

  /** A known node whose offered f is strictly smaller takes over the offer. */
  lemma RelaxEffect(nb: PathNode, heap: seq<Node>, records: map<Node, PathNode>, openListMap: set<Node>,
                    pushed: seq<Node>)
    requires nb.node in openListMap && nb.node in records && nb.node in heap
    requires nb.pathLength < records[nb.node].pathLength
    ensures OfferEffect(nb, heap, records, openListMap, pushed,
                        heap, records[nb.node := nb], openListMap, pushed, true)
  {
  }

  /** A known node whose offered f is not smaller keeps its record, whose g is
      then no larger than the offer's (both have f = g + h for the same h). */
  lemma KeepEffect(nb: PathNode, heap: seq<Node>, records: map<Node, PathNode>, openListMap: set<Node>,
                   pushed: seq<Node>, h: int)
    requires nb.node in openListMap && nb.node in records && nb.node in heap
    requires records[nb.node].pathLength <= nb.pathLength
    requires records[nb.node].pathLength == records[nb.node].distanceFromStart + h
    requires nb.pathLength == nb.distanceFromStart + h
    ensures OfferEffect(nb, heap, records, openListMap, pushed, heap, records, openListMap, pushed, false)
  {
  }

  /** The body of the loop over neighbours, for one offered record: a node not
      yet in openListMap is pushed with it; a known node takes over its f, g
      and parent when its f is strictly smaller. */
  method OfferNeighbour(ghost m: Matrix, ghost start: Node, ghost target: Node,
                        heap: seq<Node>, records: map<Node, PathNode>, openListMap: set<Node>,
                        closeList: set<Node>, current: Node, neighbour: PathNode,
                        ghost pushed: seq<Node>, ghost paths: map<Node, seq<Node>>)
    returns (heap': seq<Node>, records': map<Node, PathNode>, openListMap': set<Node>, relaxed: bool,
             ghost pushed': seq<Node>, ghost paths': map<Node, seq<Node>>)
    requires WellFormed(m)
    requires SearchState(m, start, target, heap, records, openListMap, closeList, pushed, paths)
    requires ExpandedAllBut(m, records, heap, closeList, current)
    requires current in closeList && start in closeList
    requires Offer(m, target, records[current], closeList, neighbour)
    ensures SearchState(m, start, target, heap', records', openListMap', closeList, pushed', paths')
    ensures ExpandedAllBut(m, records', heap', closeList, current)
    ensures OfferEffect(neighbour, heap, records, openListMap, pushed, heap', records', openListMap', pushed', relaxed)
  {
    var n := neighbour.node;
    heap', records', openListMap', relaxed, pushed', paths' := heap, records, openListMap, false, pushed, paths;
    if n !in openListMap {
      PushKeepsLists(start, target, heap, records, openListMap, closeList, pushed, neighbour);
      PushKeepsExpanded(m, records, heap, closeList, current, neighbour);
      StoreKeepsRecords(m, start, target, records, closeList, paths, current, neighbour);
      PushEffect(neighbour, heap, records, openListMap, pushed);
      heap' := heap + [n];
      records' := records[n := neighbour];
      openListMap' := openListMap + {n};
      pushed' := pushed + [n];
      paths' := paths[n := paths[current] + [n]];
    } else {
      var oldNeighbour := records[n];
      RelaxKeepsLists(start, target, heap, records, openListMap, closeList, pushed, neighbour);
      if neighbour.pathLength < oldNeighbour.pathLength {
        RelaxKeepsExpanded(m, records, heap, closeList, current, neighbour);
        StoreKeepsRecords(m, start, target, records, closeList, paths, current, neighbour);
        assert oldNeighbour.(pathLength := neighbour.pathLength,
                             distanceFromStart := neighbour.distanceFromStart,
                             parent := neighbour.parent) == neighbour;
        records' := records[n := oldNeighbour.(pathLength := neighbour.pathLength,
                                               distanceFromStart := neighbour.distanceFromStart,
                                               parent := neighbour.parent)];
        paths' := paths[n := paths[current] + [n]];
        relaxed := true;
        RelaxEffect(neighbour, heap, records, openListMap, pushed);
      } else {
        KeepEffect(neighbour, heap, records, openListMap, pushed, Heuristic(n, target));
      }
    }
  }

  /** The first k offered nodes wait in the heap, recorded at no more than
      their offered distances. */
  ghost predicate Waiting(neighbours: seq<PathNode>, k: nat, heap': seq<Node>, records': map<Node, PathNode>)
    requires k <= |neighbours|
  {
    forall i | 0 <= i < k ::
      neighbours[i].node in heap' && neighbours[i].node in records' &&
      records'[neighbours[i].node].distanceFromStart <= neighbours[i].distanceFromStart
  }

  /** No record is lost and no recorded f-cost grows. */
  ghost predicate CostsKept(records: map<Node, PathNode>, records': map<Node, PathNode>)
  {
    forall n | n in records :: n in records' && records'[n].pathLength <= records[n].pathLength
  }

  /** A record of a node outside the first k offered ones is an original record, unchanged. */
  ghost predicate UnchangedElsewhere(neighbours: seq<PathNode>, k: nat, records: map<Node, PathNode>,
                                     records': map<Node, PathNode>)
    requires k <= |neighbours|
  {
    forall n | n in records' && (forall i | 0 <= i < k :: neighbours[i].node != n) ::
      n in records && records'[n] == records[n]
  }

  /** An original record that changed belongs to an open node that is not
      closed, and was replaced by one of the first k offers, strictly cheaper. */
  ghost predicate ChangedByOffer(neighbours: seq<PathNode>, k: nat, closeList: set<Node>, openListMap: set<Node>,
                                 records: map<Node, PathNode>, records': map<Node, PathNode>)
    requires k <= |neighbours|
  {
    forall n | n in records && n in records' && records'[n] != records[n] ::
      && n in openListMap && n !in closeList
      && records'[n].pathLength < records[n].pathLength
      && exists i | 0 <= i < k :: records'[n] == neighbours[i]
  }

  /** The flag is set exactly when some original record changed. */
  ghost predicate HeapifyFlag(records: map<Node, PathNode>, records': map<Node, PathNode>, needsHeapify: bool)
  {
    needsHeapify <==> exists n | n in records && n in records' :: records'[n] != records[n]
  }

  /** Each of the first k offered nodes that was not in openListMap is stored
      with its offered record. */
  ghost predicate StoredAsOffered(neighbours: seq<PathNode>, k: nat, openListMap: set<Node>,
                                  records': map<Node, PathNode>)
    requires k <= |neighbours|
  {
    forall i | 0 <= i < k && neighbours[i].node !in openListMap ::
      neighbours[i].node in records' && records'[neighbours[i].node] == neighbours[i]
  }

  /** openListMap gains exactly the first k offered nodes. */
  ghost predicate OpenedOffers(neighbours: seq<PathNode>, k: nat, openListMap: set<Node>, openListMap': set<Node>)
    requires k <= |neighbours|
  {
    forall n :: n in openListMap' <==> n in openListMap || exists i | 0 <= i < k :: neighbours[i].node == n
  }

  /** The accumulated effect of the first k passes of the loop over neighbours
      on the record store, relative to the store before the loop. */
  ghost predicate StoreProgress(neighbours: seq<PathNode>, k: nat, current: Node, closeList: set<Node>,
                                records: map<Node, PathNode>, openListMap: set<Node>,
                                heap': seq<Node>, records': map<Node, PathNode>, needsHeapify: bool)
    requires k <= |neighbours|
  {
    && current in records && current in records' && records'[current] == records[current]
    && Waiting(neighbours, k, heap', records')
    && CostsKept(records, records')
    && UnchangedElsewhere(neighbours, k, records, records')
    && ChangedByOffer(neighbours, k, closeList, openListMap, records, records')
    && HeapifyFlag(records, records', needsHeapify)
    && StoredAsOffered(neighbours, k, openListMap, records')
  }

  /** The accumulated effect of the first k passes on the heap list, the log
      of pushes and openListMap: the new nodes among the first k are appended. */
  ghost predicate ListProgress(neighbours: seq<PathNode>, k: nat, heap: seq<Node>, openListMap: set<Node>,
                               pushed: seq<Node>, heap': seq<Node>, openListMap': set<Node>, pushed': seq<Node>)
    requires k <= |neighbours|
  {
    && heap' == heap + NewNodes(neighbours[..k], openListMap)
    && pushed' == pushed + NewNodes(neighbours[..k], openListMap)
    && OpenedOffers(neighbours, k, openListMap, openListMap')
  }

  ghost predicate LoopProgress(neighbours: seq<PathNode>, k: nat, current: Node, closeList: set<Node>,
                               heap: seq<Node>, records: map<Node, PathNode>, openListMap: set<Node>,
                               pushed: seq<Node>,
                               heap': seq<Node>, records': map<Node, PathNode>, openListMap': set<Node>,
                               pushed': seq<Node>, needsHeapify: bool)
    requires k <= |neighbours|
  {
    && StoreProgress(neighbours, k, current, closeList, records, openListMap, heap', records', needsHeapify)
    && ListProgress(neighbours, k, heap, openListMap, pushed, heap', openListMap', pushed')
  }

  lemma ListStep(neighbours: seq<PathNode>, k: nat, heap: seq<Node>, openListMap: set<Node>, pushed: seq<Node>,
                 heap1: seq<Node>, openListMap1: set<Node>, pushed1: seq<Node>,
                 heap2: seq<Node>, openListMap2: set<Node>, pushed2: seq<Node>)
    requires k < |neighbours|
    requires forall i, j | 0 <= i < j < |neighbours| :: neighbours[i].node != neighbours[j].node
    requires ListProgress(neighbours, k, heap, openListMap, pushed, heap1, openListMap1, pushed1)
    requires ListEffect(neighbours[k], openListMap1, heap1, pushed1, heap2, openListMap2, pushed2)
    ensures ListProgress(neighbours, k + 1, heap, openListMap, pushed, heap2, openListMap2, pushed2)
  {
    var n := neighbours[k].node;
    assert n in openListMap1 <==> n in openListMap;
    NewNodesSnoc(neighbours, k, openListMap);
    var added := if n in openListMap then [] else [n];
    var before := NewNodes(neighbours[..k], openListMap);
    assert heap + (before + added) == heap + before + added;
    assert pushed + (before + added) == pushed + before + added;
  }

  lemma WaitingStep(neighbours: seq<PathNode>, k: nat, openListMap1: set<Node>,
                    heap1: seq<Node>, records1: map<Node, PathNode>,
                    heap2: seq<Node>, records2: map<Node, PathNode>, relaxed: bool)
    requires k < |neighbours|
    requires forall i, j | 0 <= i < j < |neighbours| :: neighbours[i].node != neighbours[j].node
    requires Waiting(neighbours, k, heap1, records1)
    requires heap1 <= heap2 && neighbours[k].node in heap2
    requires StoreEffect(neighbours[k], openListMap1, records1, records2, relaxed)
    ensures Waiting(neighbours, k + 1, heap2, records2)
  {
    forall i | 0 <= i < k + 1
      ensures neighbours[i].node in heap2 && neighbours[i].node in records2 &&
              records2[neighbours[i].node].distanceFromStart <= neighbours[i].distanceFromStart
    {
      if i < k {
        assert neighbours[i].node != neighbours[k].node;
      }
    }
  }

  lemma UnchangedStep(neighbours: seq<PathNode>, k: nat, records: map<Node, PathNode>, openListMap1: set<Node>,
                      records1: map<Node, PathNode>, records2: map<Node, PathNode>, relaxed: bool)
    requires k < |neighbours|
    requires UnchangedElsewhere(neighbours, k, records, records1)
    requires StoreEffect(neighbours[k], openListMap1, records1, records2, relaxed)
    ensures UnchangedElsewhere(neighbours, k + 1, records, records2)
  {
    forall v | v in records2 && (forall i | 0 <= i < k + 1 :: neighbours[i].node != v)
      ensures v in records && records2[v] == records[v]
    {
      assert neighbours[k].node != v;
      assert forall i | 0 <= i < k :: neighbours[i].node != v;
    }
  }

  lemma CostsStep(nb: PathNode, records: map<Node, PathNode>, openListMap1: set<Node>,
                  records1: map<Node, PathNode>, records2: map<Node, PathNode>, relaxed: bool)
    requires CostsKept(records, records1)
    requires StoreEffect(nb, openListMap1, records1, records2, relaxed)
    ensures CostsKept(records, records2)
  {
    forall v | v in records
      ensures v in records2 && records2[v].pathLength <= records[v].pathLength
    {
      if v != nb.node {
        assert records2[v] == records1[v];
      }
    }
  }

  lemma HeapifyStep(nb: PathNode, records: map<Node, PathNode>, needsHeapify1: bool,
                    openListMap1: set<Node>, records1: map<Node, PathNode>, records2: map<Node, PathNode>,
                    relaxed: bool)
    requires forall v | v in records :: v in records1
    requires nb.node in records1 ==> nb.node in records && records1[nb.node] == records[nb.node]
    requires HeapifyFlag(records, records1, needsHeapify1)
    requires StoreEffect(nb, openListMap1, records1, records2, relaxed)
    ensures HeapifyFlag(records, records2, needsHeapify1 || relaxed)
  {
    var n := nb.node;
    if relaxed {
      assert records2[n] != records[n];
    }
    if exists v | v in records && v in records2 :: records2[v] != records[v] {
      var v :| v in records && v in records2 && records2[v] != records[v];
      if v != n {
        assert records2[v] == records1[v];
      }
    }
    if needsHeapify1 {
      var v :| v in records && v in records1 && records1[v] != records[v];
      assert v != n;
      assert records2[v] == records1[v];
    }
  }

  lemma ChangedStep(neighbours: seq<PathNode>, k: nat, closeList: set<Node>,
                    records: map<Node, PathNode>, openListMap: set<Node>, openListMap1: set<Node>,
                    records1: map<Node, PathNode>, records2: map<Node, PathNode>, relaxed: bool)
    requires k < |neighbours| && neighbours[k].node !in closeList
    requires forall i, j | 0 <= i < j < |neighbours| :: neighbours[i].node != neighbours[j].node
    requires OpenedOffers(neighbours, k, openListMap, openListMap1)
    requires CostsKept(records, records1)
    requires UnchangedElsewhere(neighbours, k, records, records1)
    requires ChangedByOffer(neighbours, k, closeList, openListMap, records, records1)
    requires StoreEffect(neighbours[k], openListMap1, records1, records2, relaxed)
    ensures ChangedByOffer(neighbours, k + 1, closeList, openListMap, records, records2)
  {
    var n := neighbours[k].node;
    forall v | v in records && v in records2 && records2[v] != records[v]
      ensures && v in openListMap && v !in closeList
              && records2[v].pathLength < records[v].pathLength
              && exists i | 0 <= i < k + 1 :: records2[v] == neighbours[i]
    {
      if v != n {
        assert records2[v] == records1[v];
        var i :| 0 <= i < k && records1[v] == neighbours[i];
        assert 0 <= i < k + 1 && records2[v] == neighbours[i];
      } else {
        assert forall i | 0 <= i < k :: neighbours[i].node != v;
        assert records1[v] == records[v];
        assert relaxed;
        assert records2[v] == neighbours[k];
      }
    }
  }

  lemma StoredStep(neighbours: seq<PathNode>, k: nat, openListMap: set<Node>, openListMap1: set<Node>,
                   records1: map<Node, PathNode>, records2: map<Node, PathNode>, relaxed: bool)
    requires k < |neighbours|
    requires forall i, j | 0 <= i < j < |neighbours| :: neighbours[i].node != neighbours[j].node
    requires OpenedOffers(neighbours, k, openListMap, openListMap1)
    requires StoredAsOffered(neighbours, k, openListMap, records1)
    requires StoreEffect(neighbours[k], openListMap1, records1, records2, relaxed)
    ensures StoredAsOffered(neighbours, k + 1, openListMap, records2)
  {
    var n := neighbours[k].node;
    forall i | 0 <= i < k + 1 && neighbours[i].node !in openListMap
      ensures neighbours[i].node in records2 && records2[neighbours[i].node] == neighbours[i]
    {
      if i < k {
        assert neighbours[i].node != n;
      } else {
        assert n !in openListMap1;
      }
    }
  }

  lemma StoreStep(neighbours: seq<PathNode>, k: nat, current: Node, closeList: set<Node>,
                  records: map<Node, PathNode>, openListMap: set<Node>, needsHeapify1: bool,
                  heap1: seq<Node>, records1: map<Node, PathNode>, openListMap1: set<Node>,
                  heap2: seq<Node>, records2: map<Node, PathNode>, relaxed: bool)
    requires k < |neighbours|
    requires forall i, j | 0 <= i < j < |neighbours| :: neighbours[i].node != neighbours[j].node
    requires neighbours[k].node !in closeList && neighbours[k].node != current
    requires OpenedOffers(neighbours, k, openListMap, openListMap1)
    requires heap1 <= heap2 && neighbours[k].node in heap2
    requires StoreProgress(neighbours, k, current, closeList, records, openListMap, heap1, records1, needsHeapify1)
    requires StoreEffect(neighbours[k], openListMap1, records1, records2, relaxed)
    ensures StoreProgress(neighbours, k + 1, current, closeList, records, openListMap, heap2, records2,
                          needsHeapify1 || relaxed)
  {
    var nb := neighbours[k];
    // the record of this pass's node, if any, is still the original one
    if nb.node in records1 {
      assert forall i | 0 <= i < k :: neighbours[i].node != nb.node;
    }
    UnchangedStep(neighbours, k, records, openListMap1, records1, records2, relaxed);
    CostsStep(nb, records, openListMap1, records1, records2, relaxed);
    ChangedStep(neighbours, k, closeList, records, openListMap, openListMap1, records1, records2, relaxed);
    WaitingStep(neighbours, k, openListMap1, heap1, records1, heap2, records2, relaxed);
    StoredStep(neighbours, k, openListMap, openListMap1, records1, records2, relaxed);
    HeapifyStep(nb, records, needsHeapify1, openListMap1, records1, records2, relaxed);
  }

  /** One more pass of the loop body extends the accumulated effect by one neighbour. */
  lemma ProgressStep(neighbours: seq<PathNode>, k: nat, current: Node, closeList: set<Node>,
                     heap: seq<Node>, records: map<Node, PathNode>, openListMap: set<Node>, pushed: seq<Node>,
                     heap1: seq<Node>, records1: map<Node, PathNode>, openListMap1: set<Node>,
                     pushed1: seq<Node>, needsHeapify1: bool,
                     heap2: seq<Node>, records2: map<Node, PathNode>, openListMap2: set<Node>,
                     pushed2: seq<Node>, relaxed: bool, needsHeapify2: bool)
    requires k < |neighbours|
    requires forall i, j | 0 <= i < j < |neighbours| :: neighbours[i].node != neighbours[j].node
    requires neighbours[k].node !in closeList && neighbours[k].node != current
    requires needsHeapify2 == (needsHeapify1 || relaxed)
    requires LoopProgress(neighbours, k, current, closeList, heap, records, openListMap, pushed,
                          heap1, records1, openListMap1, pushed1, needsHeapify1)
    requires OfferEffect(neighbours[k], heap1, records1, openListMap1, pushed1,
                         heap2, records2, openListMap2, pushed2, relaxed)
    ensures LoopProgress(neighbours, k + 1, current, closeList, heap, records, openListMap, pushed,
                         heap2, records2, openListMap2, pushed2, needsHeapify2)
  {
    ListStep(neighbours, k, heap, openListMap, pushed, heap1, openListMap1, pushed1,
             heap2, openListMap2, pushed2);
    StoreStep(neighbours, k, current, closeList, records, openListMap, needsHeapify1,
              heap1, records1, openListMap1, heap2, records2, relaxed);
  }

  lemma ProgressStart(neighbours: seq<PathNode>, current: Node, closeList: set<Node>,
                      heap: seq<Node>, records: map<Node, PathNode>, openListMap: set<Node>, pushed: seq<Node>)
    requires current in records
    ensures LoopProgress(neighbours, 0, current, closeList, heap, records, openListMap, pushed,
                         heap, records, openListMap, pushed, false)
  {
    assert neighbours[..0] == [];
  }

  /** What the loop over neighbours does, offered records `neighbours` in
      hand: every neighbour ends up in the heap at no more than its offered
      distance; recorded costs never grow; a record changes only by taking
      over a strictly cheaper offer, and records of other nodes stay as they
      were; a node not yet in openListMap is stored with its offered record, and exactly those
      nodes are appended to the heap (and the log of pushes), in order;
      openListMap gains the offered nodes. */
  ghost predicate UpdateEffect(neighbours: seq<PathNode>, closeList: set<Node>,
                               heap: seq<Node>, records: map<Node, PathNode>, openListMap: set<Node>,
                               pushed: seq<Node>,
                               heap': seq<Node>, records': map<Node, PathNode>, openListMap': set<Node>,
                               pushed': seq<Node>)
  {
    && Waiting(neighbours, |neighbours|, heap', records')
    && CostsKept(records, records')
    && UnchangedElsewhere(neighbours, |neighbours|, records, records')
    && ChangedByOffer(neighbours, |neighbours|, closeList, openListMap, records, records')
    && StoredAsOffered(neighbours, |neighbours|, openListMap, records')
    && heap' == heap + NewNodes(neighbours, openListMap)
    && pushed' == pushed + NewNodes(neighbours, openListMap)
    && OpenedOffers(neighbours, |neighbours|, openListMap, openListMap')
  }

  lemma ProgressDone(neighbours: seq<PathNode>, current: Node, closeList: set<Node>,
                     heap: seq<Node>, records: map<Node, PathNode>, openListMap: set<Node>, pushed: seq<Node>,
                     heap': seq<Node>, records': map<Node, PathNode>, openListMap': set<Node>,
                     pushed': seq<Node>, needsHeapify: bool)
    requires LoopProgress(neighbours, |neighbours|, current, closeList, heap, records, openListMap, pushed,
                          heap', records', openListMap', pushed', needsHeapify)
    ensures UpdateEffect(neighbours, closeList, heap, records, openListMap, pushed,
                         heap', records', openListMap', pushed')
    ensures HeapifyFlag(records, records', needsHeapify)
  {
    assert neighbours[..|neighbours|] == neighbours;
  }

  /** The loop over neighbours of findPath, with its needsHeapify flag. It keeps
      the invariants, has the effect UpdateEffect describes, and sets the
      flag exactly when some record changed. */
  method UpdateOpenList(ghost m: Matrix, ghost start: Node, ghost target: Node,
                        heap: seq<Node>, records: map<Node, PathNode>, openListMap: set<Node>,
                        closeList: set<Node>, current: Node, neighbours: seq<PathNode>,
                        ghost pushed: seq<Node>, ghost paths: map<Node, seq<Node>>)
    returns (heap': seq<Node>, records': map<Node, PathNode>, openListMap': set<Node>, needsHeapify: bool,
             ghost pushed': seq<Node>, ghost paths': map<Node, seq<Node>>)
    requires WellFormed(m)
    requires SearchState(m, start, target, heap, records, openListMap, closeList, pushed, paths)
    requires ExpandedAllBut(m, records, heap, closeList, current)
    requires current in closeList && start in closeList
    requires OfferedBy(m, target, records[current], closeList, neighbours)
    ensures SearchState(m, start, target, heap', records', openListMap', closeList, pushed', paths')
    ensures ExpandedAllBut(m, records', heap', closeList, current)
    ensures UpdateEffect(neighbours, closeList, heap, records, openListMap, pushed,
                         heap', records', openListMap', pushed')
    ensures HeapifyFlag(records, records', needsHeapify)
  {
    heap', records', openListMap', needsHeapify := heap, records, openListMap, false;
    pushed', paths' := pushed, paths;
    ProgressStart(neighbours, current, closeList, heap, records, openListMap, pushed);
    for k := 0 to |neighbours|
      invariant SearchState(m, start, target, heap', records', openListMap', closeList, pushed', paths')
      invariant ExpandedAllBut(m, records', heap', closeList, current)
      invariant LoopProgress(neighbours, k, current, closeList, heap, records, openListMap, pushed,
                             heap', records', openListMap', pushed', needsHeapify)
    {
      var neighbour := neighbours[k];
      assert Offer(m, target, records'[current], closeList, neighbour);
      ghost var heap1, records1, openListMap1, pushed1, needsHeapify1 :=
        heap', records', openListMap', pushed', needsHeapify;
      var relaxed;
      heap', records', openListMap', relaxed, pushed', paths' :=
        OfferNeighbour(m, start, target, heap', records', openListMap', closeList, current, neighbour,
                       pushed', paths');
      if relaxed {
        needsHeapify := true;
      }
      ProgressStep(neighbours, k, current, closeList, heap, records, openListMap, pushed,
                   heap1, records1, openListMap1, pushed1, needsHeapify1,
                   heap', records', openListMap', pushed', relaxed, needsHeapify);
    }
    ProgressDone(neighbours, current, closeList, heap, records, openListMap, pushed,
                 heap', records', openListMap', pushed', needsHeapify);
  }

  /** After the update the current node is expanded too. */
  lemma ExpansionCompletes(m: Matrix, start: Node, target: Node, heap: seq<Node>, records: map<Node, PathNode>,
                           closeList: set<Node>, current: PathNode, neighbours: seq<PathNode>)
    requires WellFormed(m) && InBounds(m, current.node)
    requires ExpandedAllBut(m, records, heap, closeList, current.node)
    requires current.node in closeList && current.node in records && records[current.node] == current
    requires current.parent in closeList || current.parent == current.node
    requires NeighbourRecords(m, closeList, current, current.distanceFromStart, target, neighbours)
    requires Waiting(neighbours, |neighbours|, heap, records)
    ensures FrontierComplete(m, records, heap, closeList)
  {
    var u := current.node;
    var ns := Neighbours(m, closeList, u, current.parent);
    NeighbourNodesSpec(m, closeList, u, current.parent);
    forall v | InBounds(m, v) && Adjacent(u, v) && v !in closeList
      ensures v in heap && v in records &&
              records[v].distanceFromStart <= records[u].distanceFromStart + Weight(m, v)
    {
      assert v in ns;
      var i :| 0 <= i < |ns| && ns[i] == v;
      assert neighbours[i].node == v;
    }
    assert Expanded(m, records, heap, closeList, u);
  }

  /** A search whose heap ran empty closed every node it can reach: the
      target, never closed, lies outside the grid. */
  lemma ExhaustedMeansOutside(m: Matrix, start: Node, target: Node, records: map<Node, PathNode>,
                              closeList: set<Node>)
    requires WellFormed(m) && InBounds(m, start)
    requires FrontierComplete(m, records, [], closeList)
    requires start in closeList && target !in closeList
    ensures !InBounds(m, target)
  {
    if InBounds(m, target) {
      forall a, b | a in closeList && InBounds(m, b) && Adjacent(a, b)
        ensures b in closeList
      {
        assert Expanded(m, records, [], closeList, a);
      }
      Reachable(m, start, target);
      ClosedSetHoldsWalks(m, closeList, Walk(start, target), start, target);
    }
  }

  /** The result read from closeList[target] is the shortest cost. */
  lemma ClosedTargetIsShortest(m: Matrix, start: Node, target: Node, heap: seq<Node>, records: map<Node, PathNode>,
                               openListMap: set<Node>, closeList: set<Node>, pushed: seq<Node>,
                               paths: map<Node, seq<Node>>)
    requires WellFormed(m) && PositiveWeights(m)
    requires SearchState(m, start, target, heap, records, openListMap, closeList, pushed, paths)
    requires target in closeList
    ensures InBounds(m, target)
    ensures records[target].distanceFromStart >= 0
    ensures IsShortest(m, start, target, records[target].distanceFromStart)
  {
    PathCostBelow(m, paths[target]);
  }

  /** The expansion of a node findPath has just closed: its valid neighbours
      are offered to the open list (the heap is re-heapified when a record
      changed, which reorders the list but not its contents). `offered` holds
      the records offered, one per neighbour findNeighbourNodes returns, and
      the update has the effect UpdateEffect describes for them; in particular
      the log of pushes grows by the offered nodes that were not yet in
      openListMap, so no node is pushed twice. Afterwards every closed node is
      expanded. */
  method ExpandNode(m: Matrix, ghost start: Node, target: Node,
                    heap: seq<Node>, records: map<Node, PathNode>, openListMap: set<Node>,
                    closeList: set<Node>, current: PathNode,
                    ghost pushed: seq<Node>, ghost paths: map<Node, seq<Node>>)
    returns (heap': seq<Node>, records': map<Node, PathNode>, openListMap': set<Node>,
             ghost offered: seq<PathNode>, ghost pushed': seq<Node>, ghost paths': map<Node, seq<Node>>)
    requires WellFormed(m) && InBounds(m, current.node)
    requires SearchState(m, start, target, heap, records, openListMap, closeList, pushed, paths)
    requires ExpandedAllBut(m, records, heap, closeList, current.node)
    requires current.node in closeList && start in closeList
    requires current.node in records && records[current.node] == current
    ensures NeighbourRecords(m, closeList, current, current.distanceFromStart, target, offered)
    ensures UpdateEffect(offered, closeList, heap, records, openListMap, pushed,
                         heap', records', openListMap', pushed')
    ensures SearchState(m, start, target, heap', records', openListMap', closeList, pushed', paths')
    ensures FrontierComplete(m, records', heap', closeList)
  {
    var neighbours := FindValidNeighbours(m, closeList, current.distanceFromStart, current, target);
    ValidNeighboursOffered(m, target, current, closeList, neighbours);
    var needsHeapify;
    heap', records', openListMap', needsHeapify, pushed', paths' :=
      UpdateOpenList(m, start, target, heap, records, openListMap, closeList, current.node, neighbours,
                     pushed, paths);
    ExpansionCompletes(m, start, target, heap', records', closeList, current, neighbours);
    offered := neighbours;
  }

  /** The state findPath starts from: only the start record, in the heap. */
  lemma InitialState(m: Matrix, start: Node, target: Node)
    requires WellFormed(m) && InBounds(m, start)
    ensures SearchState(m, start, target, [start], map[start := Root(start, target)], {}, {}, [],
                        map[start := [start]])
    ensures FrontierComplete(m, map[start := Root(start, target)], [start], {})
  {
    assert IsPath(m, [start], start, start);
  }

  /** What findPath reads off once its loop stops: the shortest cost when the
      target was closed, and otherwise a target outside the grid. */
  lemma SearchOutcome(m: Matrix, start: Node, target: Node, heap: seq<Node>, records: map<Node, PathNode>,
                      openListMap: set<Node>, closeList: set<Node>, pushed: seq<Node>,
                      paths: map<Node, seq<Node>>)
    requires WellFormed(m) && InBounds(m, start) && PositiveWeights(m)
    requires SearchState(m, start, target, heap, records, openListMap, closeList, pushed, paths)
    requires target !in closeList ==> heap == [] && FrontierComplete(m, records, heap, closeList)
    ensures target in closeList ==>
              && InBounds(m, target) && records[target].distanceFromStart >= 0
              && IsShortest(m, start, target, records[target].distanceFromStart)
              && (start == target ==> records[target].distanceFromStart == 0)
    ensures target !in closeList ==> !InBounds(m, target)
  {
    if target in closeList {
      ClosedTargetIsShortest(m, start, target, heap, records, openListMap, closeList, pushed, paths);
      if start == target {
        assert IsPath(m, [start], start, start);
        ShortestUnique(m, start, target, 0, records[target].distanceFromStart);
      }
    } else {
      assert start in closeList;
      ExhaustedMeansOutside(m, start, target, records, closeList);
    }
  }

  /** heappop followed by the entry in closeList: the least record leaves
      the heap and its node is closed. */
  method PopAndClose(ghost m: Matrix, ghost start: Node, ghost target: Node,
                     heap: seq<Node>, records: map<Node, PathNode>, openListMap: set<Node>,
                     closeList: set<Node>, ghost pushed: seq<Node>, ghost paths: map<Node, seq<Node>>)
    returns (current: PathNode, heap': seq<Node>, closeList': set<Node>)
    requires WellFormed(m) && PositiveWeights(m) && |heap| > 0
    requires SearchState(m, start, target, heap, records, openListMap, closeList, pushed, paths)
    requires FrontierComplete(m, records, heap, closeList)
    requires closeList <= Cells(m)
    // the least record under the dataclass order leaves the heap; nothing else does
    ensures exists i | 0 <= i < |heap| ::
              && current == records[heap[i]] && heap' == heap[..i] + heap[i + 1..]
              && forall k | 0 <= k < |heap| :: AtMost(current, records[heap[k]])
    ensures closeList' == closeList + {current.node}
    ensures current.node in records && records[current.node] == current && InBounds(m, current.node)
    ensures SearchState(m, start, target, heap', records, openListMap, closeList', pushed, paths)
    ensures ExpandedAllBut(m, records, heap', closeList', current.node)
    ensures start in closeList' && closeList' <= Cells(m)
    ensures |Cells(m) - closeList'| < |Cells(m) - closeList|
  {
    var i := LeastIndex(heap, records);
    var currentNode := heap[i];
    current := records[currentNode];
    PopKeepsState(m, start, target, heap, records, openListMap, closeList, pushed, paths, i);
    CloseShrinks(m, closeList, currentNode);
    heap' := heap[..i] + heap[i + 1..];
    closeList' := closeList + {currentNode};
  }

  /** findPath: the least total weight of the cells entered on any 4-neighbour
      walk from start to target, or -1 exactly when the target is outside the
      grid (every cell inside is reachable). A start outside the grid is
      handled only when it is the target: the first pass pops it and stops
      before any weight is read, so the result is 0. */
  method FindPath(m: Matrix, startNode: Node, targetNode: Node) returns (r: int)
    requires WellFormed(m) && PositiveWeights(m)
    requires InBounds(m, startNode) || startNode == targetNode
    ensures InBounds(m, startNode) ==> (r == -1 <==> !InBounds(m, targetNode))
    ensures InBounds(m, startNode) && r != -1 ==> IsShortest(m, startNode, targetNode, r)
    ensures startNode == targetNode ==> r == 0
  {
    var heap := [startNode];
    var records := map[startNode := PathNode(Heuristic(startNode, targetNode), 0, startNode, startNode)];
    var openListMap: set<Node> := {};
    var closeList: set<Node> := {};
    if !InBounds(m, startNode) {
      // the pass of the loop below for start == target: pop, close, stop
      closeList := closeList + {heap[0]};
      heap := [];
      r := records[targetNode].distanceFromStart;
      return;
    }
    ghost var pushed: seq<Node> := [];
    ghost var paths := map[startNode := [startNode]];
    InitialState(m, startNode, targetNode);
    while |heap| > 0
      invariant SearchState(m, startNode, targetNode, heap, records, openListMap, closeList, pushed, paths)
      invariant FrontierComplete(m, records, heap, closeList)
      invariant targetNode !in closeList
      invariant closeList <= Cells(m)
      decreases |Cells(m) - closeList|
    {
      var currentPathNode;
      currentPathNode, heap, closeList :=
        PopAndClose(m, startNode, targetNode, heap, records, openListMap, closeList, pushed, paths);
      if currentPathNode.node == targetNode {
        break;
      }
      ghost var offered;
      heap, records, openListMap, offered, pushed, paths :=
        ExpandNode(m, startNode, targetNode, heap, records, openListMap, closeList, currentPathNode,
                   pushed, paths);
    }
    SearchOutcome(m, startNode, targetNode, heap, records, openListMap, closeList, pushed, paths);
    if targetNode in closeList {
      r := records[targetNode].distanceFromStart;
    } else {
      r := -1;
    }
  }
}

