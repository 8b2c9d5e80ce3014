# A* route planner

A model of the A* search engine of the route planning project's `RoutePlanner`:
neighbour expansion (`AddNeighbors`), node selection (`NextNode` with `Compare`),
path reconstruction (`ConstructFinalPath`) and the driver loop (`AStarSearch`),
together with the heuristic `CalculateHValue`.

The map model (`RouteModel`) is not part of this model. Its nodes are named by
their index in a node table. Their search annotations (`g_value`, `h_value`,
`visited`, `parent`) are four arrays of the planner, updated in place. The open
list is a sequence of node ids. Node positions, neighbour discovery, the
distance between nodes and the metric scale are fields of a `Graph` value
(`route_model.dfy`), with the assumptions the planner relies on stated as
predicates:

- `ValidGraph`: distances are non-negative, and a node is at distance zero from itself.
- `FiltersVisited`: neighbour discovery reports only unvisited nodes.

The search session also keeps, as ghost state, its phase (`Searching`,
`Found`, `Exhausted`). `AStarSearch` returns, as a ghost `History` value, the
record of its expansions: the node table it began with, and for each
expansion the node taken off the open list, that open list, the node table
at that moment, and the neighbours discovery reported. The history is a
trace of A* steps (`Search.Traced`). It starts at the node table found on
entry with the open list holding the start node alone. Each step takes a node
of smallest f off its open list and expands it with the neighbours discovery
reports for the visited flags of its table. Each next step starts from the
table and open list the step before left. The contract of `AStarSearch` ties
both outcomes to that trace and to the planner's real node table.

Files:

- `wrappers.dfy`: `Option`, used for the nullable parent pointer.
- `route_model.dfy`: the map model as the planner sees it, and the node table as a value.
- `search.dfy`: what the planner computes, stated as functions on values. It holds the
  heuristic, the sort order of the open list, the node table after an expansion,
  the backward walk over parent pointers, and the invariant of the search loop,
  each with lemmas.
- `route_planner.dfy`: the `RoutePlanner` class, whose methods are proved against those functions.

The loop guard of `ConstructFinalPath` is modelled as written: the walk continues
while the node differs from the start node in both coordinates. It therefore
stops at the first node that shares either coordinate with the start node.
`SharedCoordinateStopsWalkEarly` exhibits a three-node map where the
reconstructed path does not begin at the start node.
`WalkEndsAtStartWithoutSharedCoordinates` gives the condition under which it does.

## Model

| member | source | states |
|---|---|---|
| Search.CalculateHValue | src/route_planner.cpp:23-25 | the heuristic is the distance to the end node: non-negative, and zero at the end node |
| Search.Compare | src/route_planner.cpp:60-65 | a node goes before another only when it is a different node of strictly larger g + h; when it does not, its f is at most the other's, so entries of equal f are incomparable |
| Search.CompareIsStrictWeakOrder | src/route_planner.cpp:60-65 | Compare (f of a greater than f of b) is irreflexive and transitive, and its incomparability is transitive, as `sort` requires of a comparator |
| Search.InsertByCompare | src/route_planner.cpp:69 | inserting a node into a list sorted by Compare gives a sorted list with exactly one more occurrence of that node |
| Search.SortOpenList | src/route_planner.cpp:69 | the sort of the open list returns a permutation of it (same multiset) in non-increasing f order |
| Search.LastIsMinimal | src/route_planner.cpp:69-70 | the back entry of a list sorted by Compare has the smallest f of all entries |
| RoutePlanner.RoutePlanner.NextNode | src/route_planner.cpp:67-73 | the open list becomes a sorted permutation of itself; the result is its back entry, has minimal g + h, and stays in the list |
| RoutePlanner.RoutePlanner.PopNext | src/route_planner.cpp:117-118 | NextNode followed by pop_back: the popped node plus the remaining list is exactly the old list, one entry shorter; the popped node has f no larger than any remaining entry |
| Search.ExpandAnnotates | src/route_planner.cpp:34-51 | after expanding c, each neighbour has parent c, g equal to c's entry g plus its distance to c (so at least c's g), h equal to its distance to the end node, and is visited; c is visited; every other node keeps its annotations |
| RoutePlanner.RoutePlanner.AddNeighbors | src/route_planner.cpp:34-51 | the node table becomes the expansion of c with the neighbours discovery reports, using c's g read on entry; the open list is the old one with the neighbours appended in discovery order |
| Search.ExpandShrinksUnvisited | src/route_planner.cpp:36-50 | an expansion never un-visits a node, and with neighbour discovery filtering visited nodes, a non-empty neighbour list strictly shrinks the set of unvisited nodes and its size |
| Search.ExpandPreservesSearchInvariant | src/route_planner.cpp:115-126 | expanding a popped node keeps the search invariant: every discovered node is visited, has a parent link of smaller depth whose g plus the link distance is its g, and carries its heuristic; every open node is the start node or discovered |
| Search.PoppedFrom | src/route_planner.cpp:117-118 | taking a node of f no larger than any remaining entry off an open list: the node and every remaining entry were on the list, and the node has the smallest f of the whole list |
| RoutePlanner.RoutePlanner.TakeNext | src/route_planner.cpp:115-118 | within the search loop, NextNode and pop_back take one node off a non-empty open list, which gets shorter; the node has f no larger than any remaining entry; the search invariant still holds with that node put back, the trace still reaches the list before the pop, and the visited flags are untouched |
| Search.ExploredStep | src/route_planner.cpp:117-125 | popping a node and expanding it extends the record of expansions: every node ever reported was expanded or is still open, and the first node expanded is the start node |
| Search.TracedStep | src/route_planner.cpp:117-125 | an A* step (a node of smallest f taken off the open list, with the neighbours discovery reports for it) followed by its expansion extends the trace by that step |
| Search.TracedPopped | src/route_planner.cpp:117-120 | taking the node of smallest f off the open list of a trace: the trace still holds with the node put back at the end, and the node has f no larger than any entry left |
| RoutePlanner.RoutePlanner.RecordExpansion | src/route_planner.cpp:117-125 | after AddNeighbors on a node of smallest f other than the end node, the history extended by that expansion (node, its open list, the table before it, the reported neighbours) satisfies the loop invariant of the new node table and open list |
| RoutePlanner.RoutePlanner.ExpandPopped | src/route_planner.cpp:125 | AddNeighbors on a popped node other than the end node: the node table becomes its expansion and the open list gains the reported neighbours, the history is extended by that expansion, the loop invariant holds again, and either fewer nodes are unvisited, or as many and the open list is strictly shorter than before the pop |
| Search.ExploredExhausted | src/route_planner.cpp:115-126 | when the open list runs empty, the start node was expanded and every node that any expansion reported was expanded too |
| Search.WalkContinues | src/route_planner.cpp:88 | the walk goes on only from a node other than the start node, and stops at any node that shares either coordinate with the start node |
| Search.WalkBackShape | src/route_planner.cpp:88-93 | a completed walk back from n ends at n, begins at a node where the loop guard fails, passes only through nodes where it holds, and has at most one node more than its step budget |
| Search.WalkBackLinked | src/route_planner.cpp:88-93 | consecutive nodes of a completed walk are linked by parent pointers |
| Search.WalkBackLength | src/route_planner.cpp:91 | the summed distance of a completed walk is the sum of distance(node, parent) over its links |
| Search.LinkSumNonNegative | src/route_planner.cpp:91 | with non-negative distances, the summed link distance is non-negative |
| Search.WalkFromStart | src/route_planner.cpp:88 | the walk from the start node is the one-node path at distance zero |
| Search.Reversed | src/route_planner.cpp:97 | the reversal has the same length, and its k-th entry is the k-th entry from the back of the input |
| RouteModel.Metres | src/route_planner.cpp:99 | scaling by the metric scale keeps a zero length zero, and with a positive scale keeps the sign of the length |
| Search.ReversedSnoc | src/route_planner.cpp:97 | reversing a list with one more entry at its back puts that entry at the front |
| RoutePlanner.RoutePlanner.ConstructFinalPath | src/route_planner.cpp:83-101 | the result is the backward walk from the node, reversed into start-to-goal order; when it completes, distance is its summed link distance times the metric scale; a null parent pointer, or a walk longer than one step per node, is reported instead |
| Search.WalkReachesUnderInvariant | src/route_planner.cpp:83-101 | under the search invariant, the walk back from a discovered node completes, without a null parent and within one step per node; its summed distance is the difference of the g values at its two ends |
| Search.GoalWalk | src/route_planner.cpp:120-121 | when the end node is popped, its walk completes, ends at the end node, starts where the guard fails, follows parent links, and has non-negative length g(end) - g(first); when start and end coincide, it is that node alone at length zero |
| Search.WalkEndsAtStartWithoutSharedCoordinates | src/route_planner.cpp:88 | when no discovered node other than the start shares a coordinate with the start node, the walk back from a discovered node begins at the start node |
| Search.SharedCoordinateStopsWalkEarly | src/route_planner.cpp:88 | on a concrete three-node map whose discovery finds node 1 from the start and the goal from node 1, the walk from the goal over the parent links a search leaves stops at node 1, which shares the start's y coordinate, so the path omits the start node |
| RoutePlanner.RoutePlanner.StoreFinalPath | src/route_planner.cpp:120-122 | with the end node popped, the path slot receives the completed walk from the end node, and distance its scaled length |
| RoutePlanner.RoutePlanner.FinishAtEnd | src/route_planner.cpp:120-123 | when the popped node is the end node, the search ends as Found with the path stored; the trace reaches the open list with the end node at its back, the end node has f no larger than any entry left, and it is the start node or was reported by some expansion |
| Search.TracedSteps | src/route_planner.cpp:115-125 | every expansion of a trace is an A* step: the expanded node was in the open list it was popped from and had the smallest f in it under the table of the time, and the reported neighbours are what discovery returns for that table's visited flags |
| Search.TracedLinks | src/route_planner.cpp:113-125 | a trace starts from its initial node table and the start node alone, and each step's table and open list are the previous step's table expanded at the popped node, and its open list less that node plus the reported neighbours |
| RoutePlanner.RoutePlanner.AStarSearch | src/route_planner.cpp:110-127 | the search terminates, never expanding the end node, and returns its history: a trace of A* steps from the node table found on entry, where each expanded node was in the open list it was popped from with the smallest f in it, the reported neighbours are what discovery returns for the visited flags of the time, and each step starts from the table and open list the step before left. The search ends either as Found: the trace reaches the final node table with the end node popped last, with f no larger than any entry left; the end node is the start node or was reported by an expansion; and the path slot holds the completed walk back from it (ending at the end node, linked by parents, distance the scaled non-negative g difference). Or it ends as Exhausted: the trace reaches the final node table with the open list empty, path and distance are untouched, the start node was expanded, every reported node was expanded, and the end node, distinct from the start node, was never reported. A search from the end node itself yields the one-node path at distance zero |
| RoutePlanner.RoutePlanner.constructor | src/route_planner.cpp:4-16 | start and end node ids are fixed at creation, and the open list starts empty |

## Left out

- Floating point: `float` g, h, f and distances are modelled as mathematical reals, without rounding.
- The constructor's scaling of the coordinates by 0.01 and `FindClosestNode` belong to the map model. The constructor takes the start and end node ids directly.
- `FindNeighbors`, `distance` and `MetricScale` belong to the map model, which is not part of this model. They are abstract fields of `Graph`.
- `FindNeighbors` is modelled as a function of the node and the visited flags of all nodes. `AddNeighbors` itself never checks `visited`.
- RoutePlanner.RoutePlanner.AStarSearch: requires `FiltersVisited` (discovery reports only unvisited nodes). It is the assumption under which the loop terminates. The guarantees of the Found case rest on it too: the search invariant that makes the walk back from the end node complete, without a null parent and within its step budget, with the g difference as its length.
- RoutePlanner.RoutePlanner.AStarSearch: requires an empty open list on entry, as for a freshly created planner.
- The order `sort` leaves among entries of equal f is unspecified. The model sorts by insertion, putting each entry in front of the first entry whose f is not larger than its own, so entries of equal f come out in reverse order of the input; the contracts only state a sorted permutation.
- Nodes are ids, not copies. The path holds node ids rather than node value snapshots, and rendering of `m_Model.path` is not modelled.
- `std::reverse` is modelled as the function `Reversed` on the collected list.
- RoutePlanner.RoutePlanner.ConstructFinalPath: the C++ loop of `ConstructFinalPath` dereferences a null parent pointer, and has no step bound. The model bounds the walk by one step per node and reports `NullParent`, or `Endless` when the walk exceeds that budget. `distance` is left unspecified in those cases.
