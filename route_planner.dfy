/**
 * The A* route planner: a search session over the node table of a map model,
 * from a start node to an end node fixed when the planner is created.
 */
module RoutePlanner {
  import opened Wrappers
  import opened RouteModel
  import opened Search

  /** Where a search session is: created, running, or ended with or without reaching the goal. */
  datatype SearchState = Idle | Searching | Found | Exhausted

  /**
   * The record of a search: the node table it began with, the nodes it
   * expanded, in order, and for each expansion the neighbours discovery
   * reported, the open list it was popped from and the node table at that
   * moment.
   */
  datatype History = History(initial: NodeTable, expanded: seq<NodeId>, reported: seq<seq<NodeId>>,
                             pools: seq<seq<NodeId>>, tables: seq<NodeTable>)
  {
    /** The history extended by expanding `c`, popped from `open` with table `t`, reporting `nbrs`. */
    function Record(c: NodeId, nbrs: seq<NodeId>, open: seq<NodeId>, t: NodeTable): History {
      History(initial, expanded + [c], reported + [nbrs], pools + [open], tables + [t])
    }
  }

  class RoutePlanner {
    /** The map model the planner searches. */
    const model: Graph
    /** The start and end nodes, fixed at construction. */
    const start: NodeId
    const end: NodeId

    /** The search annotations of the model's nodes, updated in place. */
    const gValue: array<real>
    const hValue: array<real>
    const visited: array<bool>
    const parent: array<Option<NodeId>>

    /** The open list of nodes waiting to be expanded. */
    var openList: seq<NodeId>
    /** The length of the last reconstructed path. */
    var distance: real
    /** The model's path slot, which the search fills when it reaches the goal. */
    var path: seq<NodeId>

    /** Where the session is. */
    ghost var state: SearchState

    /** The number of nodes of the model. */
    function Size(): nat {
      |model.pos|
    }

    /** The node annotations as a value. */
    function Table(): NodeTable
      reads gValue, hValue, visited, parent
    {
      NodeTable(gValue[..], hValue[..], visited[..], parent[..])
    }

    ghost predicate Valid()
      reads this`openList, gValue, hValue, visited, parent
    {
      && ValidGraph(model)
      && start < Size() && end < Size()
      && gValue.Length == Size() && hValue.Length == Size()
      && visited.Length == Size() && parent.Length == Size()
      && gValue != hValue
      && TableFits(Table(), Size())
      && InRange(openList, Size())
    }

    /**
     * The planner over `model` from `start` to `end`, using the node
     * annotations as the model left them; the open list starts empty.
     */
    constructor (model: Graph, start: NodeId, end: NodeId, gValue: array<real>, hValue: array<real>,
                 visited: array<bool>, parent: array<Option<NodeId>>)
      requires ValidGraph(model) && start < |model.pos| && end < |model.pos|
      requires gValue.Length == |model.pos| && hValue.Length == |model.pos|
      requires visited.Length == |model.pos| && parent.Length == |model.pos|
      requires gValue != hValue
      requires forall k :: 0 <= k < parent.Length && parent[k].Some? ==> parent[k].value < parent.Length
      ensures Valid()
      ensures this.model == model && this.start == start && this.end == end
      ensures this.gValue == gValue && this.hValue == hValue
      ensures this.visited == visited && this.parent == parent
      ensures openList == [] && distance == 0.0 && path == []
      ensures state == Idle
    {
      this.model := model;
      this.start := start;
      this.end := end;
      this.gValue := gValue;
      this.hValue := hValue;
      this.visited := visited;
      this.parent := parent;
      openList := [];
      distance := 0.0;
      path := [];
      state := Idle;
    }

    /**
     * AddNeighbors: discovers the neighbours of `current`, marks `current`
     * visited, and gives every neighbour `current` as parent, g from the g of
     * `current` read on entry, h from the heuristic, the visited mark, and a
     * place at the back of the open list, in discovery order.
     */
    method AddNeighbors(current: NodeId)
      requires Valid() && current < Size()
      modifies this`openList, gValue, hValue, visited, parent
      ensures Valid()
      ensures var nbrs := model.findNeighbors(current, old(visited[..]));
        && Table() == Expand(model, end, old(Table()), current, old(gValue[current]), nbrs)
        && openList == old(openList) + nbrs
    {
      var nbrs := model.findNeighbors(current, visited[..]);
      var currentG := gValue[current];
      visited[current] := true;
      ghost var t0 := old(Table());
      ExpandNone(model, end, t0, current, currentG);
      for i := 0 to |nbrs|
        invariant openList == old(openList) + nbrs[..i]
        invariant Table() == Expand(model, end, t0, current, currentG, nbrs[..i])
      {
        var neighbor := nbrs[i];
        assert nbrs[..i + 1] == nbrs[..i] + [neighbor];
        ExpandSnoc(model, end, t0, current, currentG, nbrs[..i], neighbor);
        parent[neighbor] := Some(current);
        gValue[neighbor] := currentG + model.dist(neighbor, current);
        hValue[neighbor] := CalculateHValue(model, end, neighbor);
        openList := openList + [neighbor];
        visited[neighbor] := true;
      }
      assert nbrs[..|nbrs|] == nbrs;
    }

    /**
     * NextNode: sorts the open list by non-increasing f with Compare and
     * returns its back entry, which has the smallest f; the entry stays in the
     * list (the caller removes it).
     */
    method NextNode() returns (next: NodeId)
      requires Valid() && openList != []
      modifies this`openList
      ensures Valid()
      ensures multiset(openList) == multiset(old(openList))
      ensures Annotated(Table(), openList) && SortedByCompare(Table(), openList)
      ensures next == openList[|openList| - 1]
      ensures forall k :: 0 <= k < |openList| ==> FValue(Table(), next) <= FValue(Table(), openList[k])
    {
      assert Annotated(Table(), openList);
      openList := SortOpenList(openList, Table());
      assert |openList| == |old(openList)| by {
        assert |multiset(openList)| == |multiset(old(openList))|;
      }
      next := openList[|openList| - 1];
      LastIsMinimal(Table(), openList);
    }

    /**
     * ConstructFinalPath: walks parent pointers back from `current` while its
     * loop guard (WalkContinues) holds, summing the distance from each node to
     * its parent, then reverses the collected nodes and scales the sum by the
     * metric scale into `distance`. A null parent pointer on the way, or a
     * walk longer than one step per node, is reported instead of a
     * path.
     */
    method ConstructFinalPath(current: NodeId) returns (r: Walk)
      requires Valid() && current < Size()
      modifies this`distance
      ensures r == WalkBack(model, start, parent[..], current, Size())
      ensures r.Reached? ==> distance == Metres(model, r.raw)
    {
      distance := 0.0;
      var found: seq<NodeId> := [];
      var node: NodeId := current;
      var steps: nat := 0;
      ghost var links := parent[..];
      assert LinksFit(links);
      while WalkContinues(model, start, node)
        invariant node < Size() && steps <= Size()
        invariant WalkBack(model, start, links, current, Size())
                  == ExtendAll(WalkBack(model, start, links, node, Size() - steps), found, distance)
        decreases Size() - steps
      {
        if steps == Size() {
          return Endless;
        }
        match parent[node]
        case None =>
          return NullParent(node);
        case Some(p) =>
          WalkStep(model, start, links, node, Size() - steps, found, distance);
          found := found + [node];
          distance := distance + model.dist(node, p);
          node := p;
          steps := steps + 1;
      }
      WalkDone(model, start, links, node, Size() - steps, found, distance);
      found := found + [node];
      r := Reached(Reversed(found), distance);
      distance := Metres(model, distance);
    }

    /** The walk of ConstructFinalPath back from the end node, over the current parent links. */
    ghost function FinalWalk(): Walk
      reads parent
      requires start < Size() && end < Size() && parent.Length == Size() && LinksFit(parent[..])
    {
      WalkBack(model, start, parent[..], end, Size())
    }

    /**
     * The path slot holds the walk back from the end node: it ends at the end
     * node, starts at a node where the walk of ConstructFinalPath stops,
     * follows parent links, and `distance` is its scaled length, the difference
     * of the g values of its two ends.
     */
    ghost predicate PathStored()
      reads this`path, this`distance, gValue, parent
    {
      && start < Size() && end < Size() && gValue.Length == Size() && parent.Length == Size()
      && LinksFit(parent[..])
      && FinalWalk().Reached? && path == FinalWalk().nodes
      && distance == Metres(model, FinalWalk().raw)
      && |path| >= 1 && path[|path| - 1] == end
      && path[0] < Size() && !WalkContinues(model, start, path[0])
      && ParentLinked(parent[..], path)
      && FinalWalk().raw == gValue[end] - gValue[path[0]] && FinalWalk().raw >= 0.0
    }

    /**
     * The first two steps of an iteration of the search loop: NextNode picks
     * the open node of smallest f, and the loop takes it off the back of the
     * open list.
     */
    method PopNext() returns (current: NodeId)
      requires Valid() && openList != []
      modifies this`openList
      ensures Valid() && current < Size()
      ensures multiset(openList) + multiset{current} == multiset(old(openList))
      ensures forall x | x in openList :: FValue(Table(), current) <= FValue(Table(), x)
      ensures current in old(openList) && forall x | x in openList :: x in old(openList)
      ensures |openList| == |old(openList)| - 1
    {
      ghost var open0 := openList;
      current := NextNode();
      ghost var sorted := openList;
      openList := openList[..|openList| - 1];
      assert sorted == openList + [current];
      forall x | x in sorted
        ensures x in open0
      {
        assert x in multiset(sorted);
      }
      assert |multiset(sorted)| == |multiset(open0)|;
    }

    /**
     * The goal step of the search loop: with the end node popped from the open
     * list, reconstructs the path from it and stores it in the path slot.
     */
    method StoreFinalPath(ghost open: seq<NodeId>, ghost disc: set<NodeId>, ghost depth: map<NodeId, nat>)
      requires Valid() && SearchInvariant(model, start, end, Table(), open, disc, depth)
      requires end == start || end in disc
      modifies this`path, this`distance
      ensures PathStored()
      ensures end == start ==> path == [start] && distance == 0.0
    {
      ghost var t := Table();
      GoalWalk(model, start, end, t, open, disc, depth);
      var w := ConstructFinalPath(end);
      assert parent[..] == t.parent && gValue[..] == t.g;
      assert w == FinalWalk();
      path := w.nodes;
    }

    /**
     * The expansions of `h` form a trace of A* steps from its initial node
     * table to the current one, the open list holding `open` after the last.
     */
    ghost predicate TracedTo(h: History, open: seq<NodeId>)
      reads gValue, hValue, visited, parent
      requires ValidGraph(model)
    {
      Traced(model, start, end, h.initial, h.expanded, h.reported, h.pools, h.tables, Table(), open)
    }

    /**
     * The invariant of the search loop of AStarSearch, over the history `h`,
     * the discovered nodes `disc` and their depths `depth`: the search
     * invariant of the node table, the expansions of `h` so far, and the end
     * node not yet expanded (when it is the start node, nothing is expanded
     * yet).
     */
    ghost predicate SearchLoopInvariant(h: History, disc: set<NodeId>, depth: map<NodeId, nat>)
      reads this`openList, this`state, gValue, hValue, visited, parent
    {
      && Valid() && state == Searching
      && SearchInvariant(model, start, end, Table(), openList, disc, depth)
      && Explored(start, h.expanded, h.reported, openList, disc)
      && TracedTo(h, openList)
      && end !in h.expanded
      && (end == start ==> h.expanded == [] && openList == [start])
    }

    /**
     * The search loop has made progress since there were `unvisited` unvisited
     * nodes and `openCount` open entries: fewer nodes are unvisited, or as many
     * and the open list is shorter.
     */
    ghost predicate ProgressSince(unvisited: nat, openCount: nat)
      reads this`openList, visited
    {
      || |Unvisited(visited[..])| < unvisited
      || (|Unvisited(visited[..])| == unvisited && |openList| < openCount)
    }

    /**
     * The state of the search loop right after `current` was taken off the
     * open list `open`: the loop invariant held of `open`, and the search
     * invariant still holds with `current` put back at the end of what remains;
     * `current` has the smallest f in `open`.
     */
    ghost predicate Popped(current: NodeId, open: seq<NodeId>, h: History, disc: set<NodeId>,
                           depth: map<NodeId, nat>)
      reads this`openList, this`state, gValue, hValue, visited, parent
    {
      && Valid() && state == Searching
      && PoppedState(model, start, end, h.initial, h.expanded, h.reported, h.pools, h.tables,
                     Table(), open, openList, current, disc)
      && SearchInvariant(model, start, end, Table(), openList + [current], disc, depth)
    }

    /**
     * The first two steps of an iteration of the search loop, PopNext, with
     * the loop invariant carried over to the popped state.
     */
    method TakeNext(ghost h: History, ghost disc: set<NodeId>, ghost depth: map<NodeId, nat>)
      returns (current: NodeId, ghost open: seq<NodeId>)
      requires SearchLoopInvariant(h, disc, depth) && openList != []
      modifies this`openList
      ensures Popped(current, open, h, disc, depth)
      ensures forall x | x in openList :: FValue(Table(), current) <= FValue(Table(), x)
      ensures open == old(openList) && |openList| < |old(openList)|
      ensures |Unvisited(visited[..])| == old(|Unvisited(visited[..])|)
    {
      open := openList;
      current := PopNext();
      PoppedFrom(Table(), Size(), open, openList, current);
      SearchInvariantOnFewer(model, start, end, Table(), open, openList + [current], disc, depth);
    }

    /**
     * The expansion of `current`, popped with the smallest f from the open
     * list `open` leaving `rest`, with node table `t` at the time, extends
     * the history `h` to one whose loop invariant holds of the current state.
     */
    lemma RecordExpansion(h: History, current: NodeId, t: NodeTable, open: seq<NodeId>, rest: seq<NodeId>,
                          disc: set<NodeId>, disc': set<NodeId>, depth': map<NodeId, nat>)
      requires Valid() && state == Searching && current != end
      requires PoppedState(model, start, end, h.initial, h.expanded, h.reported, h.pools, h.tables,
                           t, open, rest, current, disc)
      requires var nbrs := model.findNeighbors(current, t.visited);
        && openList == rest + nbrs && disc' == NextDisc(disc, nbrs)
        && Follows(model, end, t, open, current, nbrs, Table(), openList)
      requires SearchInvariant(model, start, end, Table(), openList, disc', depth')
      ensures SearchLoopInvariant(h.Record(current, model.findNeighbors(current, t.visited), open, t), disc', depth')
    {
      var nbrs := model.findNeighbors(current, t.visited);
      ExploredStep(start, h.expanded, h.reported, open, rest, disc, current, nbrs);
      assert current in multiset(open);
      TracedStep(model, start, end, h.initial, h.expanded, h.reported, h.pools, h.tables, t, open,
                 current, nbrs, Table(), openList);
    }

    /**
     * The expansion step of the search loop: AddNeighbors on a node other than
     * the end node, just popped from the open list `open`, records the
     * expansion in the history and keeps the loop invariant; it either visits
     * a node that was unvisited, or visits as many as before the pop and
     * leaves the open list strictly shorter than it was before the pop.
     */
    method ExpandPopped(current: NodeId, ghost open: seq<NodeId>, ghost h: History, ghost disc: set<NodeId>,
                        ghost depth: map<NodeId, nat>)
      returns (ghost h': History, ghost disc': set<NodeId>, ghost depth': map<NodeId, nat>)
      requires FiltersVisited(model) && Popped(current, open, h, disc, depth) && current != end
      modifies this`openList, gValue, hValue, visited, parent
      ensures var nbrs := model.findNeighbors(current, old(visited[..]));
        && Table() == Expand(model, end, old(Table()), current, old(gValue[current]), nbrs)
        && openList == old(openList) + nbrs
        && h' == h.Record(current, nbrs, open, old(Table()))
        && disc' == NextDisc(disc, nbrs)
      ensures SearchLoopInvariant(h', disc', depth')
      ensures ProgressSince(old(|Unvisited(visited[..])|), |old(openList)| + 1)
    {
      ghost var t0 := Table();
      ghost var rest := openList;
      ghost var nbrs := model.findNeighbors(current, t0.visited);
      ExpandPreservesSearchInvariant(model, start, end, t0, openList, disc, depth, current);
      ExpandShrinksUnvisited(model, end, t0, current, t0.g[current]);
      AddNeighbors(current);
      disc' := NextDisc(disc, nbrs);
      depth' := NextDepth(depth, start, current, nbrs);
      RecordExpansion(h, current, t0, open, rest, disc, disc', depth');
      h' := h.Record(current, nbrs, open, t0);
    }

    /**
     * The search with history `h` ended having popped the end node: the path
     * slot holds the walk back from it, and the end node is the start node or
     * was reported by some expansion; from the start node itself, the path is
     * that node alone at distance zero. The trace of expansions ends with the
     * end node popped, with the smallest f, from what is left in the open
     * list.
     */
    ghost predicate FoundEnd(h: History)
      reads this`openList, this`path, this`distance, this`state, gValue, hValue, visited, parent
    {
      && Valid() && state == Found && PathStored()
      && TracedTo(h, openList + [end]) && end !in h.expanded
      && (forall x | x in openList :: FValue(Table(), end) <= FValue(Table(), x))
      && (end == start || exists i :: 0 <= i < |h.reported| && end in h.reported[i])
      && (end == start ==> path == [start] && distance == 0.0)
    }

    /**
     * The search with history `h` ended with the open list empty: the trace of
     * expansions ends there, the start node was expanded, every node any
     * expansion reported was expanded too, and none of them reported the end
     * node, which is not the start node.
     */
    ghost predicate ExhaustedEnd(h: History)
      reads this`openList, this`state, gValue, hValue, visited, parent
    {
      && Valid() && state == Exhausted && openList == [] && TracedTo(h, [])
      && end != start && start in h.expanded
      && (forall i, x | 0 <= i < |h.reported| && x in h.reported[i] :: x in h.expanded)
      && (forall i | 0 <= i < |h.reported| :: end !in h.reported[i])
    }

    /**
     * The end of a search that popped the end node from `open`: the state
     * becomes Found and the path slot receives the walk back from the end
     * node, which was reported by some expansion unless it is the start node.
     */
    method FinishAtEnd(ghost open: seq<NodeId>, ghost h: History, ghost disc: set<NodeId>,
                       ghost depth: map<NodeId, nat>)
      requires Popped(end, open, h, disc, depth)
      modifies this`state, this`path, this`distance
      ensures FoundEnd(h)
    {
      ghost var t := Table();
      TracedPopped(model, start, end, h.initial, h.expanded, h.reported, h.pools, h.tables, t, open, openList, end);
      state := Found;
      assert end in openList + [end];
      StoreFinalPath(openList + [end], disc, depth);
      if end != start {
        ghost var i :| 0 <= i < |h.reported| && end in h.reported[i];
      }
      assert Table() == t;
    }

    /**
     * AStarSearch: seeds the open list with the start node and repeatedly
     * pops the node of smallest f; when it is the end node, stores the path
     * reconstructed from it and stops, otherwise expands it. The history `h`
     * of the search is a trace of A* steps from the node table found on
     * entry: each expanded node had the smallest f in the open list it was
     * popped from, and each step's table and open list are what the step
     * before left. The search ends either having popped the end node, with
     * the smallest f, which is then the start node or a node some expansion
     * reported, or with the open list empty, every reported node expanded and
     * the end node never reported; the path slot is then left as it was.
     */
    method AStarSearch() returns (ghost h: History)
      requires Valid() && FiltersVisited(model) && openList == []
      modifies this, gValue, hValue, visited, parent
      ensures Valid() && h.initial == old(Table()) && end !in h.expanded
      ensures state == Found || state == Exhausted
      ensures state == Found ==> FoundEnd(h)
      ensures state == Exhausted ==> ExhaustedEnd(h) && path == old(path) && distance == old(distance)
      ensures end == start ==> state == Found
      ensures |h.reported| == |h.expanded| && |h.pools| == |h.expanded| && |h.tables| == |h.expanded|
      ensures h.expanded != [] ==> h.tables[0] == old(Table()) && multiset(h.pools[0]) == multiset{start}
      ensures forall i | 0 <= i < |h.expanded| ::
        AStarStep(model, h.tables[i], h.pools[i], h.expanded[i], h.reported[i])
      ensures forall i | 0 <= i < |h.expanded| - 1 ::
        Follows(model, end, h.tables[i], h.pools[i], h.expanded[i], h.reported[i], h.tables[i + 1], h.pools[i + 1])
    {
      openList := openList + [start];
      state := Searching;
      h := History(Table(), [], [], [], []);
      ghost var disc: set<NodeId> := {};
      ghost var depth: map<NodeId, nat> := map[start := 0];
      while openList != []
        invariant SearchLoopInvariant(h, disc, depth)
        invariant h.initial == old(Table())
        invariant path == old(path) && distance == old(distance)
        decreases |Unvisited(visited[..])|, |openList|
      {
        var current;
        ghost var open;
        current, open := TakeNext(h, disc, depth);
        if current == end {
          FinishAtEnd(open, h, disc, depth);
          break;
        }
        h, disc, depth := ExpandPopped(current, open, h, disc, depth);
      }
      if state == Searching {
        ExploredExhausted(start, h.expanded, h.reported, disc);
        state := Exhausted;
      }
      ghost var open := if state == Found then openList + [end] else openList;
      TracedSteps(model, start, end, h.initial, h.expanded, h.reported, h.pools, h.tables, Table(), open);
      TracedLinks(model, start, end, h.initial, h.expanded, h.reported, h.pools, h.tables, Table(), open);
    }
  }
}
