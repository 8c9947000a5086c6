# Graph algorithms of a directed weighted graph, modelled in Dafny

This project models the algorithm engine `DWGraph_Algo` of a Java library for
directed weighted graphs, and proves what its operations compute:

- **Single-source shortest path** (`shortestPath`, `shortestPathDist`,
  `rebuildPath`, `setWeightInfinity`). A Dijkstra search keeps a tentative
  distance per node, polls the nearest frontier node, relaxes its outgoing
  edges and records predecessors. The path is then rebuilt from the
  predecessor map. Each returned node carries its distance from `src`.
- **Strong connectivity** (`isConnected`, `isConnectedBFS`, `Kosaraju`,
  `getFirstNode`, `allNodesWereVisited`, `resetTags`). A breadth-first
  traversal from the first node runs over the graph and again over its
  transpose. A traversal gives up as soon as it dequeues a node with no
  outgoing edge.
- **Transpose** (`transpose`): the same nodes with every edge reversed.
- **Strongly connected components** (`connected_component`,
  `connected_components`).

The graph is a value `Graph(nodes, weight)`: a set of integer keys, plus a map
from an ordered pair `(src, dest)` to the edge's non-negative weight. There is
at most one edge per ordered pair. The Java code keeps its working state in each
node's `tag` and `weight` fields. The model keeps the same state local to each
call:

- a set of marked keys for the tags (so `resetTags` is starting from the empty
  set);
- a distance map whose `None` is the Java code's infinity (`Double.MAX_VALUE + 1`);
- a predecessor map.

Where the store's iteration order matters, it is a parameter `order`. This
covers the node list `connected_components` walks. Where it does not matter,
an arbitrary member of a set is picked.

The proofs are stated against reference notions in `Graphs`: paths, their
cost, reachability and strong connectivity. The main results:

- `shortestPath` returns a real path whose node weights are its prefix costs,
  and no path is cheaper.
- For distinct present endpoints, `shortestPath` returns no path exactly when
  `dest` is unreachable from `src`.
- `isConnected` equals strong connectivity, whichever node comes first.
- The corrected component routines return exactly the strongly connected
  components, as a partition of the node set.

Some behaviour is reproduced as the code has it:

- `shortestPath(v, v)` is null when `v` has no outgoing edge. The out-edge
  test comes before the `src == dest` test.
- `shortestPathDist(v, v)` is −1, not the distance 0 of the empty path. The
  empty list is treated like a missing path.
- `Kosaraju` hands the original graph's start node to a traversal of the
  transpose. Marking it therefore does not mark the transpose's copy of the
  start, and that copy counts as visited only if the traversal comes back to
  it by an edge. `Kosaraju` on its own can thus answer false on a graph where
  every node reaches the start. `isConnected` is not affected: its forward
  traversal fails first whenever this matters (`StrongConnectivityFromOneNode`).
- The model settles a polled node before relaxing its edges. The Java code
  marks it after. This differs only for a self-loop: the Java code queues the node once
  more, and processing it again changes nothing.

## Model

| member | source | states |
|---|---|---|
| Transposition.Transpose | src/api/DWGraph_Algo.java:286-298 | the transpose has the same node keys, and an edge (v, u) exactly when the graph has (u, v), with the same weight |
| Transposition.TransposeWellFormed | src/api/DWGraph_Algo.java:290-295 | every reversed edge joins two nodes of the transpose, since all nodes are added before any edge is connected |
| Transposition.TransposeTwice | src/api/DWGraph_Algo.java:286-298 | transposing twice gives back the original graph, edge set and weights included |
| Transposition.ReachableTranspose | src/api/DWGraph_Algo.java:358-367 | a walk from s to t in the transpose exists exactly when a walk from t to s exists in the graph |
| Transposition.ReachablePlusTranspose | src/api/DWGraph_Algo.java:358-367 | the same for walks of at least one edge |
| Transposition.OutEdgesTranspose | src/api/DWGraph_Algo.java:292-295 | a node has an outgoing edge in the transpose exactly when it has an incoming edge in the graph |
| Traversal.AllNodesWereVisited | src/api/DWGraph_Algo.java:308-313 | true exactly when every node key is marked |
| Traversal.GetFirstNode | src/api/DWGraph_Algo.java:407-411 | null exactly for the empty graph, and otherwise a node of the graph |
| Traversal.IsConnectedBfs | src/api/DWGraph_Algo.java:376-403 | true exactly when every node is marked (reachable from the start, or reachable by at least one edge when the start object is not the graph's own node) and every node has an outgoing edge; every mark it leaves is on such a node |
| Traversal.BfsClosure | src/api/DWGraph_Algo.java:390-402 | once the marked nodes and the start have had their edges followed, every node that should be marked is marked, so the final all-visited test decides reachability |
| Traversal.ReachableFrom | src/api/DWGraph_Algo.java:427-429 | the traversal without the dead-end exit marks exactly the nodes reachable from the start |
| Traversal.Kosaraju | src/api/DWGraph_Algo.java:358-367 | true exactly when every node reaches the start by a walk of at least one edge and every node has an incoming edge |
| Traversal.IsConnected | src/api/DWGraph_Algo.java:79-84 | true exactly when every ordered pair of nodes is joined by a directed path |
| Traversal.AtMostOneNodeConnected | src/api/DWGraph_Algo.java:80 | a graph of zero or one node is strongly connected |
| Traversal.ConnectedNodeHasEdges | src/api/DWGraph_Algo.java:387-388 | in a strongly connected graph of two or more nodes, every node has an outgoing and an incoming edge |
| Traversal.SinkBreaksStrongConnectivity | src/api/DWGraph_Algo.java:387-388 | with two or more nodes, a node without outgoing edges makes the graph not strongly connected, so the early false is sound |
| Traversal.BothTraversals | src/api/DWGraph_Algo.java:83 | the conjunction of the forward and the transposed traversal's answers is exactly strong connectivity |
| Traversal.StrongConnectivityFromOneNode | src/api/DWGraph_Algo.java:82-83 | for any start node of a graph of two or more nodes, both traversals succeed exactly when the graph is strongly connected |
| Graphs.LeavesByAnEdge | src/api/DWGraph_Algo.java:124 | a node that reaches a different node has an outgoing edge, so the no-out-edge test loses no path between distinct nodes |
| ShortestPaths.SetWeightInfinity | src/api/DWGraph_Algo.java:318-321 | every node of the graph starts at distance infinity, and no other key has a distance |
| ShortestPaths.Poll | src/api/DWGraph_Algo.java:143 | the polled node is in the frontier, and no frontier node has a smaller tentative distance |
| ShortestPaths.RelaxEdge | src/api/DWGraph_Algo.java:146-156 | relaxing one edge keeps the search state, leaves the edge relaxed, never raises a distance and leaves settled distances alone |
| ShortestPaths.Improve | src/api/DWGraph_Algo.java:151-156 | lowering a neighbour's distance through the polled node and queueing it keeps the search state; the improved neighbour is neither settled nor src |
| ShortestPaths.RelaxAll | src/api/DWGraph_Algo.java:145-157 | after the loop over the polled node's edges, every settled node's edges are relaxed; a raised found flag means dest has a finite distance, and a lowered one means no settled node has an edge to dest |
| ShortestPaths.PolledIsOptimal | src/api/DWGraph_Algo.java:141-159 | the tentative distance of a polled node is no more than the cost of any path to it |
| ShortestPaths.Settle | src/api/DWGraph_Algo.java:158 | marking the polled node settled keeps the search state, and it is the farthest settled node |
| ShortestPaths.Step | src/api/DWGraph_Algo.java:141-159 | one iteration of the main loop keeps the search state and settles one more node of the graph |
| ShortestPaths.Explore | src/api/DWGraph_Algo.java:135-159 | when the queue is empty, the settled nodes are those at finite distance, each no farther than any path to it and with a settled predecessor accounting for its distance; a lowered found flag means no settled node has an edge to dest |
| ShortestPaths.LabelsAreCosts | src/api/DWGraph_Algo.java:149-152 | weights that start at 0 and grow by each crossed edge's weight are the path's prefix costs |
| ShortestPaths.RebuildPath | src/api/DWGraph_Algo.java:332-348 | the rebuilt list is a path from src to dest along graph edges, each node's weight is the cost of the path up to it, and the last weight is dest's distance |
| ShortestPaths.NotFoundUnreachable | src/api/DWGraph_Algo.java:161-164 | if dest was never seen next to a settled node, no path leads from src to dest |
| ShortestPaths.ShortestPath | src/api/DWGraph_Algo.java:120-165 | null exactly when src or dest is absent, src has no outgoing edge, or dest is unreachable from a different src; the empty list when src equals dest; otherwise a path from src to dest with cumulative weights that no path undercuts |
| ShortestPaths.ShortestPathDist | src/api/DWGraph_Algo.java:98-107 | −1 exactly when an endpoint is absent, src equals dest, or dest is unreachable; otherwise the cost of some path from src to dest, and no path costs less |
| Components.StronglyConnectedIffOneComponent | src/api/DWGraph_Algo.java:420-437 | a graph is strongly connected exactly when a node's component is the whole node set |
| Components.ConnectedComponentAsWritten | src/api/DWGraph_Algo.java:420-437 | as written, the component is empty for every src |
| Components.ComponentAsWrittenMissesTwoCycle | src/api/DWGraph_Algo.java:430-434 | on the cycle 1 → 2 → 1 the as-written component of 1 is empty, while the nodes that reach 1 and are reached from it are {1, 2} |
| Components.ConnectedComponent | src/api/DWGraph_Algo.java:420-437 | empty for an absent src, otherwise exactly the nodes reachable from src that also reach src |
| Components.ConnectedComponentsAsWritten | src/api/DWGraph_Algo.java:439-458 | as written, one empty list per node of the iteration order |
| Components.ConnectedComponentsStalePath | src/api/DWGraph_Algo.java:445-453 | with a working component routine, one entry per node, each the component of that node or of a node before it |
| Components.DuplicateComponentsOnTwoCycle | src/api/DWGraph_Algo.java:452 | on the cycle 1 → 2 → 1 in order [1, 2], the one component {1, 2} is listed twice |
| Components.ConnectedComponents | src/api/DWGraph_Algo.java:439-458 | the entries are non-empty, pairwise disjoint, each equal to the component of each of its members, and together cover exactly the nodes |

## Left out

- `save` and `load` (src/api/DWGraph_Algo.java:175-269): file I/O and JSON parsing, which hold no algorithmic content.
- The game client under `src/gameClient`: server calls, threads, GUI and floating-point scoring, outside the algorithm engine.
- `init`, `getGraph`, `copy` and `toString`: they hand over or print the graph; the graph store `DWGraph_DS` is not part of this model.
- Floating-point weights: weights are natural numbers, and the infinity `Double.MAX_VALUE + 1` is `None`.
- The priority queue's internals: the model polls a true minimum. Java's `PriorityQueue` does not reorder a node whose weight drops while it is queued, so the Java code may poll a node that is not the nearest. Ties are broken arbitrarily.
- Object identity: the returned path's nodes are store nodes whose tags `rebuildPath` resets to 0. Tags are not part of a returned node here, and `PathNode` keeps only key and weight.
- Node lists are sets: the order of nodes inside a component list, and its `Collections.reverse`, are not modelled. The reversal of the list of components is modelled by prepending.
- Null graphs and null arguments (`transpose(null)`, `graph == null`): the graph is always a value.
- `resetTags` is not a separate operation: each traversal starts from an empty set of marks.
- Components.ConnectedComponentAsWritten: the tags that the transpose's node copies carry depend on the copy constructor of `NodeData`, which is not part of this model. The model gives each copy mark 0 or 1, which is enough for the result.
- Components.ConnectedComponentsStalePath: says only that each entry is the component of its own node or of an earlier one, not which earlier one.

## Findings

| source | as written | input that shows it | evidently intended | confidence | as-written member | corrected member |
|---|---|---|---|---|---|---|
| src/api/DWGraph_Algo.java:427-434 | the two traversals only ever write tags 0 and 1, and the second one walks the original graph again; the filter keeps nodes with tag 2, so nothing is kept | graph {1, 2} with edges 1 → 2 and 2 → 1, `connected_component(1)` returns the empty list | the nodes reachable from src that also reach src: {1, 2}. This also needs traversals without the dead-end exit of lines 387-388: with edges src → d, src → a, a → b, b → src and d dequeued first, the as-written traversal stops at d, so repairing the tags alone would give {src, a} | not executed | Components.ComponentAsWrittenMissesTwoCycle | Components.ConnectedComponent |
| src/api/DWGraph_Algo.java:445-453 | the last computed list is appended for every node, including nodes already placed in an earlier component | graph {1, 2} with edges 1 → 2 and 2 → 1, iterated in order [1, 2], with a working `connected_component`: the list holds {1, 2} twice | one list per component, partitioning the nodes | not executed | Components.DuplicateComponentsOnTwoCycle | Components.ConnectedComponents |
