# Weighted graph and Dijkstra's shortest path, in Dafny

The model covers two parts of the repository.

`weightedGraph.py` defines a graph class that keeps four things:

- a square adjacency matrix of optional integer costs (rows are sources, columns are destinations);
- a list of node ids;
- a log of the edges added;
- a `directed` flag, fixed when the graph is created.

`dijkstras-algorithm.py` defines `dijkstra(graph, source, destination)`. It repeatedly takes the unvisited node with the lowest `(distance, id)` and relaxes its unvisited neighbours. When it selects the destination, it walks the `previous` links back and returns that path reversed.

The model has three modules:

- **`WeightedGraph`** (`weighted_graph.dfy`)
  - `Graph` is a class with `matrix`, `nodes` and `edges` fields that its methods reassign, plus a `const directed`.
  - `Valid()` is the invariant the class keeps:
    - the matrix is square;
    - the node list is `[0, 1, ..., k]`;
    - the edge log and the matrix describe the same edges.
  - The three exception classes become the `GraphError` datatype. Raising one becomes an `Err` result.
  - `_addEdge` and `addEdge` are specified by the value functions `InsertOutcome` and `AddOutcome`. Each gives the result, the new matrix and the new log. Lemmas state what those functions promise, case by case.
- **`ShortestPath`** (`shortest_path.dfy`)
  - `dijkstra` is a method with the source's loops, over a `GraphView`. A `GraphView` is the number of nodes, a neighbour function and an edge-cost function.
  - Its contract says that the result:
    - is a walk that ends at the destination and repeats no node;
    - starts at the source exactly when the destination is reachable;
    - then costs no more than any other walk.
  - The contract rests on the loop invariant `SearchInv`. Among other things, `SearchInv` makes the predecessor chain acyclic: a ghost finalisation rank decreases along every link.
- **`DijkstraHarness`** (`dijkstra_harness.dfy`)
  - Builds the test graph of `main` through the `Graph` class: ten `addNode` calls and fourteen undirected `addEdge` calls.
  - Proves that `dijkstra` returns the expected paths for `(0, 9)`, `(0, 8)` and `(2, 5)`. The argument is that a potential (the distances from the source) is tight along the expected path and on no other edge that could reach it. That makes the expected path the only cheapest walk, and `dijkstra`'s contract then leaves it no other answer.

Where the code and its comments or documentation differ, the model follows the code:

- **Initial node.** The graph starts with a 1x1 matrix and the node list `[0]`. The first `addNode` does not grow the matrix. So after k ≥ 1 calls the node list is `[0..k]`, one id longer than the matrix is high, and `count` is `y + 1`. In the test graph, node 10 is in `graph.nodes` but has no row. `dijkstra(graph, 0, 10)` returns `[10]`.
- **Undirected edges.** An undirected edge is stored only at `[source][destination]`. No mirror cell is written and no `(min, max)` reordering is done.
- **Bidirectional edges.** On a directed graph, a bidirectional edge whose second half fails is not rolled back.
- **Unreachable destination.** `dijkstra` returns `[destination]`, not an empty path.
- **Missing destination.** When the destination is not among the nodes, the loop empties the unvisited list and the function returns nothing. The model returns `None`.

## Model

| member | source | states |
|---|---|---|
| WeightedGraph.Graph.constructor | weightedGraph.py:100-125 | a new graph has the 1x1 matrix `[[None]]`, the node list `[0]`, no edges and the given `directed` flag, and satisfies the class invariant |
| WeightedGraph.Graph.Y | weightedGraph.py:140-148 | the height is at least 1, and is `count - 1` once a node was added (1 before) |
| WeightedGraph.Graph.X | weightedGraph.py:127-138 | on a square matrix the width of the first row equals the height |
| WeightedGraph.Graph.Count | weightedGraph.py:164-172 | the count is the length of the node list and at least 1 |
| WeightedGraph.Graph.Nodes | weightedGraph.py:150-162 | the node list is `[0, 1, ..., count - 1]` |
| WeightedGraph.Graph.ExtendMatrix | weightedGraph.py:216-223 | the matrix gains one row and one column: every old cell keeps its value, every new cell is empty, it stays square, and it still agrees with the edge log |
| WeightedGraph.Graph.AddNode | weightedGraph.py:259-279 | the first call keeps the 1x1 matrix and later calls extend it; the height is appended to the node list and `height - 1` is returned, so the k-th call returns k - 1 and `count == y + 1`; edges are unchanged and the invariant holds |
| WeightedGraph.Graph.InsertEdge | weightedGraph.py:225-257 | the result, new matrix and new log are those of `InsertOutcome`; the node list is unchanged and the invariant holds |
| WeightedGraph.Graph.AddEdge | weightedGraph.py:281-328 | the result, new matrix and new log are those of `AddOutcome`; the node list is unchanged and the invariant holds; a directional edge on an undirected graph may name any ids |
| WeightedGraph.InsertKeepsSquare | weightedGraph.py:249-257 | `_addEdge` keeps the matrix square and its size unchanged |
| WeightedGraph.InsertKeepsLog | weightedGraph.py:252-257 | after `_addEdge` the edge log and the matrix still describe the same edges: logged edges sit in their cells, no two share a cell, and every filled cell is logged |
| WeightedGraph.SelfLoopRefused | weightedGraph.py:244-247 | `source == destination` gives IllegalArgumentError and changes neither matrix nor log |
| WeightedGraph.PopulatedRefused | weightedGraph.py:252-253 | a filled cell gives AlreadyPopulatedError carrying `(source, destination, cost)` and changes nothing |
| WeightedGraph.InsertWritesOneCell | weightedGraph.py:249-257 | a successful `_addEdge` writes `cost` into exactly cell `[source][destination]`, leaves every other cell as it was, appends the edge to the log and returns its index, the old log length |
| WeightedGraph.NonDirectedRefused | weightedGraph.py:317-319 | a directional edge on an undirected graph gives NonDirectedError with no change, for any ids, in or out of the matrix |
| WeightedGraph.DirectionalEdge | weightedGraph.py:317-321 | on a directed graph a directional edge is exactly one `_addEdge`: same new matrix and log, and the same id or error |
| WeightedGraph.UndirectedNotReordered | weightedGraph.py:327-328 | on an undirected graph the edge is written at `[source][destination]` only, and the mirror cell is left as it was |
| WeightedGraph.BidirectionalPair | weightedGraph.py:323-326 | on a directed graph a bidirectional edge with both cells empty fills both, logs source to destination first, and returns ids `[i, i + 1]` |
| WeightedGraph.BidirectionalNotRolledBack | weightedGraph.py:323-325 | if the reverse cell is filled, the forward edge stays stored and logged, and the error carries the reversed edge |
| WeightedGraph.ExtendKeepsLog | weightedGraph.py:216-223 | growing the matrix keeps the edge log in step with it |
| ShortestPath.IndexOf | dijkstras-algorithm.py:50 | the position found holds the node, and no earlier position does |
| ShortestPath.Remove | dijkstras-algorithm.py:50 | `list.remove` shortens the list by one and removes exactly one occurrence of the node from its multiset |
| ShortestPath.RemoveAt | dijkstras-algorithm.py:50 | after the removal, each position holds the node that was there before the removed one, or one place later after it |
| ShortestPath.RemoveFromDistinct | dijkstras-algorithm.py:50 | removing a node from a list without repeats leaves a list without repeats holding exactly the other nodes |
| ShortestPath.SelectMin | dijkstras-algorithm.py:27-31 | the selected node is unvisited and its `(distance, id)` is lexicographically least over all unvisited nodes, so ties go to the smallest id |
| ShortestPath.Relax | dijkstras-algorithm.py:42-48 | only unvisited neighbours are relaxed; a distance changes only to a strictly smaller candidate, and then `previous` becomes the current node; distances never grow; visited nodes keep their distance and predecessor |
| ShortestPath.WalkBack | dijkstras-algorithm.py:35-39 | the walk starts at the destination, follows `previous` links and ends at a node without one; it terminates and repeats no node because the finalisation rank falls along every link |
| ShortestPath.InitialInv | dijkstras-algorithm.py:21-24 | the initial lists (every node unvisited, only the source at distance 0, no predecessors) satisfy the search invariant |
| ShortestPath.StepSettled | dijkstras-algorithm.py:42-50 | finalising the closest unvisited node after relaxing its neighbours keeps every finalised node's neighbours relaxed and every finalised node no further than the unvisited ones |
| ShortestPath.StepLinked | dijkstras-algorithm.py:42-50 | after the same step, every predecessor link points from a finalised node to a neighbour whose distance is the link's origin plus the edge, and the origin was finalised earlier |
| ShortestPath.StepInv | dijkstras-algorithm.py:26-50 | one iteration that does not select the destination keeps the whole search invariant; the unvisited list shrinks by exactly one node |
| ShortestPath.WalkBound | dijkstras-algorithm.py:26-48 | under the invariant, no walk from the source is cheaper than the distance of its end if that end is finalised, or than the next selected node's distance otherwise |
| ShortestPath.ChainCost | dijkstras-algorithm.py:44-48 | along predecessor links the last distance is the first plus the chain's edge costs |
| ShortestPath.NoCheaperWalk | dijkstras-algorithm.py:28-33 | when the destination is selected, no walk from the source to it costs less than its distance |
| ShortestPath.ReversedChain | dijkstras-algorithm.py:35-40 | the reversed predecessor walk is a walk along graph edges, without repeats, whose distances grow by the edge costs |
| ShortestPath.PathFound | dijkstras-algorithm.py:33-40 | the returned path ends at the destination and repeats no node; it starts at the source exactly when the destination is reachable, and then is a cheapest walk; otherwise it is `[destination]`; for `source == destination` it is `[source]` |
| ShortestPath.Dijkstra | dijkstras-algorithm.py:7-50 | a result exists exactly when the destination is a node; it is a walk that ends at the destination without repeats; it starts at the source exactly when the destination is reachable, and then no walk from source to destination is cheaper (the docstring's "shortest path"); an unreachable destination gives `[destination]`; `source == destination` gives `[source]` |
| DijkstraHarness.PotentialAlongWalk | dijkstras-algorithm.py:44-46 | if no edge shortcuts a potential, then along any walk the potential grows by at most the walk's cost |
| DijkstraHarness.TightPathCost | dijkstras-algorithm.py:44-46 | each prefix of a tight path costs exactly the potential at its end |
| DijkstraHarness.CheapWalkIsTight | dijkstras-algorithm.py:44-46 | a walk from a tight path's start to its j-th node that costs no more than the potential there is that path's prefix |
| DijkstraHarness.ForcedPath | dijkstras-algorithm.py:33-40 | any result meeting `dijkstra`'s contract between the ends of such a path is that path |
| DijkstraHarness.HarnessTablesMatchEdges | dijkstras-algorithm.py:157-172 | the neighbour and cost tables are the edge list read symmetrically: every listed edge appears in both directions with its cost, and there are no other entries |
| DijkstraHarness.HarnessEdgeStep | dijkstras-algorithm.py:174-176 | the k-th undirected `addEdge` of the test, on the graph the first k left behind, succeeds with id k and fills its cell |
| DijkstraHarness.AddHarnessNodes | dijkstras-algorithm.py:154-156 | ten `addNode` calls on a new graph return the ids 0..9 in order and leave the node list `[0..10]` over a 10x10 matrix |
| DijkstraHarness.AddHarnessEdges | dijkstras-algorithm.py:157-176 | the fourteen `addEdge` calls all succeed; the log is the edge list in order and every listed edge is stored at its `[source][destination]` cell |
| DijkstraHarness.BuildHarnessGraph | dijkstras-algorithm.py:154-176 | the test's graph is undirected, has nodes `[0..10]` and a 10x10 matrix, logged the fourteen edges in order with ids 0..13, and stores each at its cell |
| DijkstraHarness.TenUnreachable | dijkstras-algorithm.py:154-172 | no walk of the test graph other than `[10]` ends at node 10 |
| DijkstraHarness.RunOnForcedPath | dijkstras-algorithm.py:7-50 | where a potential singles out a path as the only cheapest walk, `dijkstra` between its ends returns it |
| DijkstraHarness.RunHarness | dijkstras-algorithm.py:69-70 | on the test graph `dijkstra(0, 9)` is `[0, 4, 1, 6, 7, 9]`, `dijkstra(0, 8)` is `[0, 4, 3, 2, 8]` and `dijkstra(2, 5)` is `[2, 8, 5]` (line 84); `dijkstra(0, 10)` is `[10]` |

## Left out

- `Graph.__str__`: console pretty-printing. It has no effect on the graph.
- Exception messages and `AlreadyPopulatedError.__str__`: only the kind of error and the `(source, destination, cost)` payload are modelled.
- `test()` and `main()` of both files: their printing is left out. Of the test table, only the rows `(0, 9)`, `(0, 8)` and `(2, 5)` are proved (together with node 10). The other rows are not stated.
- `Graph.neighbours` and `Graph.edge`: `dijkstra` calls them, but `weightedGraph.py` does not define them, so they are not part of this model. `dijkstra` takes them as the `neighbours` and `edge` functions of a `GraphView`.
- The test graph in `DijkstraHarness` reads the edge list symmetrically, since undirected edges are meant to be usable both ways. The matrix that the `Graph` class builds stores each undirected edge only at `[source][destination]`. The two are tied together only through the edge list.
- Floating point: `float("inf")` is only an "unreached" marker, so it is modelled as `Inf` in an extended natural number type.
- Dijkstra: the whole model of `dijkstra` is for natural-number edge costs, since the `edge` function of a `GraphView` returns a `nat`. Negative costs, which the matrix can hold, cannot be given to it.
- Node deletion: the comments mention it, but it is not implemented anywhere.
- InsertEdge: the ValueError of `list.index` and the IndexError of indexing, for ids that are not in the matrix, are not modelled. It requires `source == destination` or both ids below `y` instead. This covers the extra last id of the node list, which `list.index` accepts and whose missing row then raises IndexError.
- AddEdge: the same errors are not modelled. It requires what `InsertEdge` requires, except for a directional edge on an undirected graph, which is refused before any id is looked at and so may name any ids.
- Dijkstra: requires `source < count`, since `distance[source] = 0` raises IndexError otherwise. That error is not modelled.
- `directed` as a property is the class's `const directed` field. It cannot change after construction.
