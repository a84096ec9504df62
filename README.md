# A* search on a weighted grid

This project models `a_star.py`, an A* search over a grid of cell weights, and proves what it computes. A walk moves between 4-neighbour cells, and its cost is the sum of the weights of the cells it enters. `MatrixAStar.findPath` returns the least such cost from a start cell to a target cell, or -1.

The grid comes in two forms:
- `Matrix` is a plain matrix of rows.
- `Matrix5x5` is a view five times wider and taller than a base matrix. Its weights are the base weights raised by the tile indices and folded into 1..9.

The modules follow the structure of the program:

- `Grid` (grid.dfy): the pieces of `Node`, `Matrix` and `Matrix5x5`.
  - `Node` and its heuristic `heuristicPathLength`.
  - The `Matrix` datatype: `Plain` for `Matrix`, `Tiled` for `Matrix5x5` over any base.
  - Its bounds, `getWeight` and `findNeighbourNodes`. The last is kept as a method with its loop over the four offsets.
- `Paths` (paths.dfy): the reference the search is proved against.
  - Walks and their costs.
  - `IsShortest`, the least cost of any walk.
  - Reachability of every cell.
  - Admissibility of the heuristic.
  - Potential tables that certify a least cost.
- `Search` (search.dfy): the `PathNode` record and the order `@dataclass(order=True)` gives it, the record offered for a neighbour, and the invariants of the search state.
- `AStar` (astar.dfy): the search itself.
  - `heappop` as the removal of the least record.
  - `findValidNeighbours`, as a method with its loop.
  - The loop over neighbours that pushes or relaxes records, as a method with its loop.
  - `findPath`, as a method with its main loop, split into the pop-and-close step and the expansion step.
- `Examples` (examples.dfy): the grids of the unit tests in `a_star_test.py`.
  - For each, the cost the test expects is proved to be the least cost, and `FindPath` is proved to return it.
  - Also a tiled-weight example and a target outside a one-cell grid.

The search state is modelled as in the program.
- `PathNode` objects are shared between the heap list, `openListMap` and `closeList`, and are overwritten in place. The model keeps one record per node in a store `records: map<Node, PathNode>`.
- The heap list is a `seq<Node>` of the nodes whose records it holds. `openListMap` and `closeList` are the sets of their keys.
- An in-place overwrite is an update of the store, which all three views then see, as with Python's aliasing.

Two ghost variables carry the proof:
- `pushed`, the log of pushes, shows that each node enters the heap at most once.
- `paths` holds, for every record, a witness walk whose cost is the record's distance.

What is proved about `findPath`. Assume the grid has a first row and no row shorter than it, and every weight is at least 1. If the start lies inside the grid:
- the result is -1 exactly when the target lies outside the grid;
- otherwise the result is the least cost of any walk from start to target.

The result is 0 whenever start and target coincide, even for a start outside the grid.

The proof follows the classical argument for a consistent heuristic.
- Every recorded distance is the cost of a real walk.
- Every closed node has offered all of its neighbours.
- The record popped with the least f-cost therefore already holds the least cost.
- Every cell is reachable, so a search that runs out of open nodes without closing the target shows that the target is outside the grid.

Two points about the code:
- **Heuristic.** The heuristic is the Manhattan distance minus one whenever both coordinate differences are non-zero, not the plain Manhattan distance. It still changes by at most one per step (`Grid.HeuristicStep`), so with weights of at least 1 it stays consistent and admissible.
- **Malformed input.** The constructors check nothing. An empty weight list fails at once in `Matrix.__init__`, which reads `weights[0]`. For a start inside the grid, rows longer than the first are harmless, because cells past the first row's width are never read. A row shorter than the first fails with an index error if one of its missing cells is read. Weights outside 1..9 raise nothing. The model requires a first row and no shorter row (`Grid.WellFormed`), and `FindPath` requires weights of at least 1.

## Model

| member | source | states |
|---|---|---|
| Grid.Heuristic | a_star.py:14-20 | the heuristic lies between the Manhattan distance minus one and the Manhattan distance, and is 0 exactly at the target |
| Grid.HeuristicSymmetric | a_star.py:14-20 | the heuristic does not depend on which node is the target |
| Grid.HeuristicStep | a_star.py:14-20 | one step to a neighbour changes the heuristic by at most one, in either direction (the consistency the search relies on) |
| Grid.MaxY | a_star.py:70-71 | getMaxY is never 0: a plain matrix has a first row, and a tiled view multiplies its base's height by 5 |
| Grid.Dimensions | a_star.py:80-84 | getMaxX and getMaxY in closed form: each tiled view multiplies its base's bounds by 5, so the bounds are the innermost plain matrix's first-row length and number of rows (as its constructor records them), times 5 for each tiled view |
| Grid.PlainBounds | a_star.py:42-45 | for a plain matrix, a cell is inside the bounds the constructor records (length of the first row, number of rows) exactly when its row exists and its column is below the first row's length; such a cell can be read from its row |
| Grid.Wrap | a_star.py:92 | the fold returns a weight in 1..9, keeps weights already in 1..9, and differs from its argument by a multiple of 9 |
| Grid.Weight | a_star.py:86-93 | a tiled view's weights always lie in 1..9 |
| Grid.PlainPositive | a_star.py:64-65 | a plain matrix whose entries are all at least 1 makes every cell cost at least 1 to enter |
| Grid.TiledPositive | a_star.py:86-93 | every cell of a tiled view costs at least 1 to enter, whatever the base holds |
| Grid.TiledCell | a_star.py:80-93 | the cell at column sectorX*maxX+x and row sectorY*maxY+y of the tiled view lies inside it and costs the base weight of (x, y) raised by sectorX+sectorY, folded into 1..9 |
| Grid.TiledOrigin | a_star.py:86-93 | in the first tile, base weights in 1..9 are shown unchanged |
| Grid.FindNeighbourNodes | a_star.py:48-62 | the loop over the four offsets returns exactly the candidates that are not the parent, not on the border and not closed, in offset order |
| Grid.NeighboursUpToSpec | a_star.py:50-61 | after k offsets the collected nodes are the admissible ones among the first k shifts, in offset order |
| Grid.NeighbourNodesSpec | a_star.py:48-62 | at most four nodes, each a 4-neighbour, none the parent or closed, in the order right, below, left, above; for a node inside the grid, exactly its in-grid neighbours that are neither the parent nor closed |
| Grid.OuterCornerIsolated | a_star.py:54-56 | from a cell diagonally off a corner of the grid, every candidate lies on a rejected border line, so findNeighbourNodes returns no node |
| Paths.HeuristicAdmissible | a_star.py:14-20 | the heuristic never exceeds the cost of a walk to the target when weights are at least 1 |
| Paths.Reachable | a_star.py:141-144 | between any two cells of the grid there is a 4-neighbour walk inside the grid, so -1 can only mean a target outside it |
| Search.Before | a_star.py:26-33 | the dataclass order compares pathLength first: a smaller f-cost always sorts first, and a record sorts first only if its f-cost is no larger |
| Search.BeforeIsStrictTotalOrder | a_star.py:26-33 | the field-by-field dataclass order on records is irreflexive, transitive and total |
| AStar.LeastIndex | a_star.py:112 | heappop's choice: a position whose record is at most every record in the heap |
| AStar.LeastIsUnique | a_star.py:112 | with one record per node the least record is unique, so the pop does not depend on the heap layout |
| AStar.FindValidNeighbours | a_star.py:146-160 | one record per node findNeighbourNodes returns, in its order, each with g = distanceFromStart + weight, f = g + h and the current node as parent |
| AStar.ValidNeighboursOffered | a_star.py:146-160 | those records are distinct offers for in-grid, unclosed neighbours |
| AStar.PopIsOptimal | a_star.py:112-114 | the record popped with the least f-cost holds a distance no greater than the cost of any walk to its node, so closing it keeps every closed distance optimal |
| AStar.PopKeepsState | a_star.py:112-114 | popping the least record and closing its node keeps every search invariant |
| AStar.PopAndClose | a_star.py:112-114 | the least record leaves the heap and nothing else does; its node is closed; the invariants hold and fewer grid cells remain unclosed |
| AStar.NewNodes | a_star.py:124-126 | a node is pushed exactly when it is among the offered nodes and not yet in openListMap |
| AStar.OfferNeighbour | a_star.py:123-136 | a node not in openListMap is pushed, and its stored record is the offered record itself; a known node takes over f, g and parent only when the offered f is strictly smaller, and the flag is raised exactly when the record changes; no other record changes; the invariants are kept |
| AStar.UpdateOpenList | a_star.py:122-136 | every neighbour ends in the heap at no more than its offered distance; recorded costs never grow; a record changes only by taking over a strictly cheaper offer, and records of nodes not offered stay as they were; each node not yet in openListMap is stored with its offered record, and exactly those nodes are appended to the heap and the log of pushes, in order; openListMap gains the offered nodes; needsHeapify is set exactly when a record changed; the invariants are kept |
| AStar.ExpansionCompletes | a_star.py:120-136 | after the update every closed node has offered each in-grid neighbour at no more than its distance plus the neighbour's weight |
| AStar.ExpandNode | a_star.py:120-139 | the records offered are one per node findNeighbourNodes returns, with g = distanceFromStart + weight, f = g + h and the current node as parent; the update has the UpdateOpenList effect for those records, so the log of pushes grows only by offered nodes not yet in openListMap and stays free of repeats; the invariants hold and every closed node is expanded |
| AStar.InitialState | a_star.py:101-105 | the start record alone in the heap satisfies the invariants |
| AStar.ClosedTargetIsShortest | a_star.py:141-142 | a closed target's recorded distance is the least cost of any walk to it |
| AStar.ExhaustedMeansOutside | a_star.py:141-144 | a heap that ran empty without closing the target means the target is outside the grid |
| AStar.SearchOutcome | a_star.py:141-144 | when the loop stops, a closed target's distance is the least cost (0 when start is the target); otherwise the target is outside the grid |
| AStar.FindPath | a_star.py:99-144 | for a start inside the grid: -1 exactly when the target is outside the grid, and otherwise the least cost of any walk from start to target; 0 whenever start is the target, inside the grid or not |
| Examples.Shortest2x2 | a_star_test.py:11-17 | 4 is the least cost from (0, 0) to (1, 1) in grid '12,13' |
| Examples.Test2x2 | a_star_test.py:11-17 | findPath returns 4 on that grid |
| Examples.Shortest3x3 | a_star_test.py:20-26 | 7 is the least cost from (0, 0) to (2, 2) in grid '116,138,213' |
| Examples.Test3x3 | a_star_test.py:20-26 | findPath returns 7 on that grid |
| Examples.Shortest4x3 | a_star_test.py:29-35 | 13 is the least cost from (0, 0) to (3, 2) in grid '1163,1381,2136' |
| Examples.Test4x3 | a_star_test.py:29-35 | findPath returns 13 on that grid |
| Examples.TiledEight | a_star.py:86-93 | the tiled view of the one-cell grid '8' is 5 by 5 with weights 8, 9, 1 along the first row and 7 in the far corner |
| Examples.TestOutside | a_star.py:109-144 | on a one-cell grid, findPath returns -1 for a target outside it, 0 for the start itself, and 0 for a start outside the grid that is its own target |

## Left out

- `readinputfile` and `main`: file input and printing are I/O. The model takes the weights as a value.
- The tests that read the Advent of Code puzzle files: their grids come from files that are not part of this model.
- `Node.__repr__` and `PathNode.__repr__`: string formatting only.
- The layout of the heap list under `heapq.heappush`, `heappop` and `heapify`. The model keeps the heap's contents, in push order, and `heappop` removes the least record under the dataclass order. One record per node makes that record unique (`AStar.LeastIsUnique`), so the layout does not affect the result. `heapify` changes only the layout, so the model does not represent it.
- Object identity: the aliasing of `PathNode` objects between the heap list, `openListMap` and `closeList` becomes one store of records keyed by node. The `isNodeInCloseList` callback becomes the set of closed nodes.
- `Matrix5x5.__init__` passes `[[]]` to `Matrix.__init__`. The resulting weight table of the tiled view is never read, so the model does not represent it.
- Grid validation: an empty weight list fails in `Matrix.__init__` when it reads `weights[0]`. A row shorter than the first fails with an index error once a missing cell is read. The model leaves both out by requiring a first row and no shorter row (`Grid.WellFormed`). Longer rows are allowed, as in the code.
- FindPath: requires a start inside the grid unless the start is the target, in which case the model returns 0 as the code does. The model leaves out every other start outside the grid. The border test of `findNeighbourNodes` rejects whole lines (x = -1, y = -1, x = maxX, y = maxY), so such a search can run on outside the grid:
  - on a plain `Matrix`, it reads outside the weight table: a wrap-around read for an index from -2 down to minus the row's (or table's) length, an index error below that or past the end, or, in a row longer than the first, cells past the first row's width;
  - on a `Matrix5x5` view, `getWeight` uses floor division and remainder by the base's bounds, so every coordinate gives a weight in 1..9 with no error (for a base at least one column wide), and the search may never end. For example, over `[[1]]` from (-3, 0) to (0, 0), the strip x <= -2, 0 <= y <= 4 is unbounded and never reaches the target;
  - from one of the four cells diagonally off the grid's corners, no candidate passes (`Grid.OuterCornerIsolated`), so the code reads nothing and returns -1, even for a target inside the grid.

  The termination measure of `FindPath` (the unclosed cells of the grid) and its result hold only for a start inside the grid.
- Weight: requires the cell to lie inside the grid, so `getWeight` outside the grid is not modelled. There a plain `Matrix` gives a wrap-around read or an index error, and a `Matrix5x5` view over a base at least one column wide gives a weight in 1..9 at every coordinate. A search from inside the grid never asks for one: `Grid.NeighbourNodesSpec` shows that every neighbour of a cell inside the grid lies inside it.
- FindPath: requires every weight to be at least 1. With zero or negative weights the closed-set argument fails and the result need not be the least cost. The model does not describe what the code returns then.
- Integer width: Python integers are unbounded, like Dafny's, so no overflow is modelled.
