/**
 * What the route planner computes, stated on values: the heuristic, the order
 * the open list is sorted in, the node table after a neighbour expansion, the
 * backward walk over parent pointers, and the invariant the A* loop keeps.
 */
module Search {
  import opened Wrappers
  import opened RouteModel

  // ---------------------------------------------------------------------------
  // Heuristic and ordering
  // ---------------------------------------------------------------------------

  /** CalculateHValue: the h value of `n` is its distance to the end node. */
  function CalculateHValue(m: Graph, end: NodeId, n: NodeId): (h: real)
    requires ValidGraph(m)
    ensures h >= 0.0
    ensures n == end ==> h == 0.0
  {
    m.dist(n, end)
  }

  /** Every node of `s` has an entry in `t`'s g and h columns. */
  ghost predicate Annotated(t: NodeTable, s: seq<NodeId>) {
    forall k :: 0 <= k < |s| ==> s[k] < |t.g| && s[k] < |t.h|
  }

  /** f = g + h, the priority of a node. */
  function FValue(t: NodeTable, n: NodeId): real
    requires n < |t.g| && n < |t.h|
  {
    t.g[n] + t.h[n]
  }

  /**
   * Compare: the comparator handed to `sort`; `a` goes before `b` when its f is
   * larger. Only a different node of larger f goes first; a node never goes
   * before one of equal or larger f, so entries of equal f are incomparable.
   */
  predicate Compare(t: NodeTable, a: NodeId, b: NodeId): (before: bool)
    requires a < |t.g| && a < |t.h| && b < |t.g| && b < |t.h|
    ensures before ==> a != b && FValue(t, b) < FValue(t, a)
    ensures !before ==> FValue(t, a) <= FValue(t, b)
  {
    FValue(t, a) > FValue(t, b)
  }

  /** Compare is a strict weak ordering, the requirement `sort` places on a comparator. */
  lemma CompareIsStrictWeakOrder(t: NodeTable, a: NodeId, b: NodeId, c: NodeId)
    requires a < |t.g| && a < |t.h| && b < |t.g| && b < |t.h| && c < |t.g| && c < |t.h|
    ensures !Compare(t, a, a)
    ensures Compare(t, a, b) && Compare(t, b, c) ==> Compare(t, a, c)
    ensures !Compare(t, a, b) && !Compare(t, b, a) && !Compare(t, b, c) && !Compare(t, c, b) ==>
              !Compare(t, a, c) && !Compare(t, c, a)
  {
  }

  /** `s` is sorted with respect to Compare: no entry compares before an earlier one. */
  ghost predicate SortedByCompare(t: NodeTable, s: seq<NodeId>)
    requires Annotated(t, s)
  {
    forall i, j :: 0 <= i < j < |s| ==> !Compare(t, s[j], s[i])
  }

  /**
   * Inserts `x` into a list sorted by Compare, in front of the first entry
   * whose f is not larger than its own.
   */
  function InsertByCompare(t: NodeTable, s: seq<NodeId>, x: NodeId): (r: seq<NodeId>)
    requires Annotated(t, s) && SortedByCompare(t, s) && x < |t.g| && x < |t.h|
    ensures multiset(r) == multiset(s) + multiset{x}
    ensures Annotated(t, r) && SortedByCompare(t, r)
    decreases |s|
  {
    if s == [] || !Compare(t, s[0], x) then
      PrependKeepsSorted(t, x, s);
      [x] + s
    else
      var rest := InsertByCompare(t, s[1..], x);
      RestBelowHead(t, s, x, rest);
      PrependKeepsSorted(t, s[0], rest);
      assert s == [s[0]] + s[1..];
      [s[0]] + rest
  }

  /** Putting `y` in front of a sorted list whose entries all have f at most y's keeps it sorted. */
  lemma PrependKeepsSorted(t: NodeTable, y: NodeId, r: seq<NodeId>)
    requires y < |t.g| && y < |t.h| && Annotated(t, r) && SortedByCompare(t, r)
    requires forall k :: 0 <= k < |r| ==> !Compare(t, r[k], y)
    ensures Annotated(t, [y] + r) && SortedByCompare(t, [y] + r)
  {
    var s := [y] + r;
    forall a, b | 0 <= a < b < |s|
      ensures !Compare(t, s[b], s[a])
    {
      if a > 0 {
        assert s[a] == r[a - 1] && s[b] == r[b - 1];
      } else {
        assert s[b] == r[b - 1];
      }
    }
  }

  /**
   * When `x` goes after the head of sorted `s`, every entry of the rest with
   * `x` inserted has f at most that of the head.
   */
  lemma RestBelowHead(t: NodeTable, s: seq<NodeId>, x: NodeId, rest: seq<NodeId>)
    requires Annotated(t, s) && SortedByCompare(t, s) && s != [] && x < |t.g| && x < |t.h|
    requires Compare(t, s[0], x)
    requires multiset(rest) == multiset(s[1..]) + multiset{x}
    ensures forall k :: 0 <= k < |rest| ==> rest[k] < |t.g| && rest[k] < |t.h| && !Compare(t, rest[k], s[0])
  {
    forall k | 0 <= k < |rest|
      ensures rest[k] < |t.g| && rest[k] < |t.h| && !Compare(t, rest[k], s[0])
    {
      var y := rest[k];
      assert y in multiset(rest);
      if y != x {
        assert y in multiset(s[1..]);
        var j :| 0 <= j < |s[1..]| && s[1..][j] == y;
        assert s[j + 1] == y;
      }
    }
  }

  /**
   * The `sort(open_list.begin(), open_list.end(), Compare)` of NextNode: the
   * result is a permutation of the open list, ordered by non-increasing f.
   * How entries of equal f end up is left open, as `sort` leaves it.
   */
  method SortOpenList(open: seq<NodeId>, t: NodeTable) returns (sorted: seq<NodeId>)
    requires Annotated(t, open)
    ensures multiset(sorted) == multiset(open)
    ensures Annotated(t, sorted)
    ensures SortedByCompare(t, sorted)
  {
    sorted := [];
    for i := 0 to |open|
      invariant multiset(sorted) == multiset(open[..i])
      invariant Annotated(t, sorted) && SortedByCompare(t, sorted)
    {
      assert open[..i + 1] == open[..i] + [open[i]];
      sorted := InsertByCompare(t, sorted, open[i]);
    }
    assert open[..|open|] == open;
  }

  /** The back of a sorted open list has the smallest f of all its entries. */
  lemma {:induction false} LastIsMinimal(t: NodeTable, s: seq<NodeId>)
    requires Annotated(t, s) && SortedByCompare(t, s) && s != []
    ensures forall k :: 0 <= k < |s| ==> FValue(t, s[|s| - 1]) <= FValue(t, s[k])
  {
    forall k | 0 <= k < |s|
      ensures FValue(t, s[|s| - 1]) <= FValue(t, s[k])
    {
      if k < |s| - 1 {
        assert !Compare(t, s[|s| - 1], s[k]);
      }
    }
  }

  // ---------------------------------------------------------------------------
  // Neighbour expansion
  // ---------------------------------------------------------------------------

  /**
   * The node table after AddNeighbors expands `c`, whose g value read on entry
   * was `cg`, with the neighbour list `nbrs`: every neighbour gets parent `c`,
   * g = cg + its distance to `c`, h = its heuristic, and is visited; `c` is
   * visited; every other node keeps its annotations.
   */
  ghost function Expand(m: Graph, end: NodeId, t: NodeTable, c: NodeId, cg: real,
                        nbrs: seq<NodeId>): (r: NodeTable)
    requires ValidGraph(m) && TableFits(t, |m.pos|) && c < |m.pos|
    ensures TableFits(r, |m.pos|)
  {
    var size := |m.pos|;
    NodeTable(
      seq(size, k requires 0 <= k < size => if k in nbrs then cg + m.dist(k, c) else t.g[k]),
      seq(size, k requires 0 <= k < size => if k in nbrs then CalculateHValue(m, end, k) else t.h[k]),
      seq(size, k requires 0 <= k < size => k in nbrs || k == c || t.visited[k]),
      seq(size, k requires 0 <= k < size => if k in nbrs then Some(c) else t.parent[k]))
  }

  /** What the expansion does to one node `k` of the table. */
  lemma ExpandAnnotates(m: Graph, end: NodeId, t: NodeTable, c: NodeId, cg: real,
                        nbrs: seq<NodeId>, k: NodeId)
    requires ValidGraph(m) && TableFits(t, |m.pos|) && c < |m.pos| && k < |m.pos|
    ensures var r := Expand(m, end, t, c, cg, nbrs);
      && (k in nbrs ==>
            && r.parent[k] == Some(c)
            && r.g[k] == cg + m.dist(k, c) && r.g[k] >= cg
            && r.h[k] == m.dist(k, end)
            && r.visited[k])
      && r.visited[c]
      && (k !in nbrs && k != c ==>
            r.g[k] == t.g[k] && r.h[k] == t.h[k] && r.visited[k] == t.visited[k] && r.parent[k] == t.parent[k])
      && (k !in nbrs ==> r.g[k] == t.g[k] && r.h[k] == t.h[k] && r.parent[k] == t.parent[k])
  {
  }

  /** The table after AddNeighbors annotates the one neighbour `x` of `c`. */
  ghost function Annotate(m: Graph, end: NodeId, t: NodeTable, c: NodeId, cg: real, x: NodeId): NodeTable
    requires ValidGraph(m) && x < |t.g| && x < |t.h| && x < |t.visited| && x < |t.parent|
  {
    NodeTable(t.g[x := cg + m.dist(x, c)], t.h[x := CalculateHValue(m, end, x)],
              t.visited[x := true], t.parent[x := Some(c)])
  }

  /** Before any neighbour is annotated, the expansion has only marked `c` visited. */
  lemma ExpandNone(m: Graph, end: NodeId, t: NodeTable, c: NodeId, cg: real)
    requires ValidGraph(m) && TableFits(t, |m.pos|) && c < |m.pos|
    ensures Expand(m, end, t, c, cg, []) == NodeTable(t.g, t.h, t.visited[c := true], t.parent)
  {
    var r := Expand(m, end, t, c, cg, []);
    assert r.g == t.g;
    assert r.h == t.h;
    assert r.visited == t.visited[c := true];
    assert r.parent == t.parent;
  }

  /** Expanding with one more neighbour `x` is annotating `x` after the shorter expansion. */
  lemma ExpandSnoc(m: Graph, end: NodeId, t: NodeTable, c: NodeId, cg: real, s: seq<NodeId>, x: NodeId)
    requires ValidGraph(m) && TableFits(t, |m.pos|) && c < |m.pos| && x < |m.pos|
    ensures Expand(m, end, t, c, cg, s + [x]) == Annotate(m, end, Expand(m, end, t, c, cg, s), c, cg, x)
  {
    var r := Expand(m, end, t, c, cg, s + [x]);
    var q := Annotate(m, end, Expand(m, end, t, c, cg, s), c, cg, x);
    assert forall k :: k in s + [x] <==> k in s || k == x;
    assert r.g == q.g;
    assert r.h == q.h;
    assert r.visited == q.visited;
    assert r.parent == q.parent;
  }

  /** The set of nodes not yet visited. */
  ghost function Unvisited(vis: seq<bool>): set<NodeId> {
    set k | 0 <= k < |vis| && !vis[k]
  }

  /**
   * An expansion never un-visits a node, and when neighbour discovery reports
   * only unvisited nodes, a non-empty neighbour list makes the unvisited set
   * strictly smaller: the measure that ends the search loop.
   */
  lemma ExpandShrinksUnvisited(m: Graph, end: NodeId, t: NodeTable, c: NodeId, cg: real)
    requires ValidGraph(m) && FiltersVisited(m) && TableFits(t, |m.pos|) && c < |m.pos|
    ensures var nbrs := m.findNeighbors(c, t.visited);
      && Unvisited(Expand(m, end, t, c, cg, nbrs).visited) <= Unvisited(t.visited)
      && (nbrs != [] ==> Unvisited(Expand(m, end, t, c, cg, nbrs).visited) < Unvisited(t.visited))
      && |Unvisited(Expand(m, end, t, c, cg, nbrs).visited)| <= |Unvisited(t.visited)|
      && (nbrs != [] ==> |Unvisited(Expand(m, end, t, c, cg, nbrs).visited)| < |Unvisited(t.visited)|)
  {
    var nbrs := m.findNeighbors(c, t.visited);
    var r := Expand(m, end, t, c, cg, nbrs);
    var before, after := Unvisited(t.visited), Unvisited(r.visited);
    assert before == after + (before - after);
    if nbrs != [] {
      var nb := nbrs[0];
      assert nb < |m.pos|;
      assert !t.visited[nb];
      assert nb in before;
      assert r.visited[nb];
      assert nb !in after;
      assert nb in before - after;
    }
  }

  // ---------------------------------------------------------------------------
  // Path reconstruction
  // ---------------------------------------------------------------------------

  /**
   * The guard of the backward walk in ConstructFinalPath, as written: the walk
   * goes on while the node differs from the start node in BOTH coordinates, so
   * it stops at the first node that shares either coordinate with the start.
   */
  predicate WalkContinues(m: Graph, start: NodeId, n: NodeId): (goesOn: bool)
    requires start < |m.pos| && n < |m.pos|
    ensures goesOn ==> n != start
    ensures m.pos[n].x == m.pos[start].x || m.pos[n].y == m.pos[start].y ==> !goesOn
  {
    m.pos[n].x != m.pos[start].x && m.pos[n].y != m.pos[start].y
  }

  /**
   * The outcome of walking parent pointers back from a node: the nodes met, in
   * start-to-goal order, with the summed unscaled distance; or the null parent
   * pointer the walk would dereference; or `Endless` when the walk exceeds
   * the step budget.
   */
  datatype Walk = Reached(nodes: seq<NodeId>, raw: real) | NullParent(at: NodeId) | Endless

  /** Appends `n`, reached over a link of length `d`, to the end of a walk. */
  function Extend(w: Walk, n: NodeId, d: real): Walk {
    match w
    case Reached(ns, raw) => Reached(ns + [n], raw + d)
    case _ => w
  }

  /** The backward walk from `n` with at most `fuel` parent steps. */
  ghost function WalkBack(m: Graph, start: NodeId, parent: seq<Option<NodeId>>, n: NodeId,
                          fuel: nat): Walk
    requires start < |m.pos| && n < |m.pos| && |parent| == |m.pos|
    requires LinksFit(parent)
    decreases fuel
  {
    if !WalkContinues(m, start, n) then Reached([n], 0.0)
    else if fuel == 0 then Endless
    else match parent[n]
      case None => NullParent(n)
      case Some(p) => Extend(WalkBack(m, start, parent, p, fuel - 1), n, m.dist(n, p))
  }

  /** Consecutive entries of `ns` are linked: each entry's parent is the one before it. */
  ghost predicate ParentLinked(parent: seq<Option<NodeId>>, ns: seq<NodeId>) {
    forall i :: 0 < i < |ns| ==> ns[i] < |parent| && parent[ns[i]] == Some(ns[i - 1])
  }

  /** The sum of the distances from each entry of `ns` to the entry before it. */
  ghost function LinkSum(m: Graph, ns: seq<NodeId>): real
    decreases |ns|
  {
    if |ns| <= 1 then 0.0
    else LinkSum(m, ns[..|ns| - 1]) + m.dist(ns[|ns| - 1], ns[|ns| - 2])
  }

  /** With non-negative distances, the length of a walked path is non-negative. */
  lemma {:induction false} LinkSumNonNegative(m: Graph, ns: seq<NodeId>)
    requires ValidGraph(m)
    ensures LinkSum(m, ns) >= 0.0
    decreases |ns|
  {
    if |ns| > 1 {
      LinkSumNonNegative(m, ns[..|ns| - 1]);
    }
  }

  /**
   * A completed walk from `n` ends at `n`, begins at a node where the loop guard of
   * ConstructFinalPath fails, passes only through nodes where it holds, and takes at most
   * `fuel` steps.
   */
  lemma {:induction false} WalkBackShape(m: Graph, start: NodeId, parent: seq<Option<NodeId>>,
                                         n: NodeId, fuel: nat)
    requires start < |m.pos| && n < |m.pos| && |parent| == |m.pos|
    requires LinksFit(parent)
    ensures var w := WalkBack(m, start, parent, n, fuel);
      w.Reached? ==>
        && 1 <= |w.nodes| <= fuel + 1
        && w.nodes[|w.nodes| - 1] == n
        && (forall i :: 0 <= i < |w.nodes| ==> w.nodes[i] < |m.pos|)
        && !WalkContinues(m, start, w.nodes[0])
        && (forall i :: 0 < i < |w.nodes| ==> WalkContinues(m, start, w.nodes[i]))
    decreases fuel
  {
    if WalkContinues(m, start, n) && fuel > 0 && parent[n].Some? {
      var p := parent[n].value;
      WalkBackShape(m, start, parent, p, fuel - 1);
      var w := WalkBack(m, start, parent, p, fuel - 1);
      if w.Reached? {
        var ns := w.nodes + [n];
        assert WalkBack(m, start, parent, n, fuel) == Reached(ns, w.raw + m.dist(n, p));
        assert ns[0] == w.nodes[0];
        forall i | 0 < i < |ns|
          ensures ns[i] < |m.pos| && WalkContinues(m, start, ns[i])
        {
          if i < |w.nodes| {
            assert ns[i] == w.nodes[i];
          }
        }
      }
    }
  }

  /** A completed walk from `n` follows parent pointers. */
  lemma {:induction false} WalkBackLinked(m: Graph, start: NodeId, parent: seq<Option<NodeId>>,
                                          n: NodeId, fuel: nat)
    requires start < |m.pos| && n < |m.pos| && |parent| == |m.pos|
    requires LinksFit(parent)
    ensures var w := WalkBack(m, start, parent, n, fuel);
      w.Reached? ==> ParentLinked(parent, w.nodes)
    decreases fuel
  {
    if WalkContinues(m, start, n) && fuel > 0 && parent[n].Some? {
      var p := parent[n].value;
      WalkBackLinked(m, start, parent, p, fuel - 1);
      WalkBackShape(m, start, parent, p, fuel - 1);
      var w := WalkBack(m, start, parent, p, fuel - 1);
      if w.Reached? {
        var ns := w.nodes + [n];
        assert WalkBack(m, start, parent, n, fuel).nodes == ns;
        forall i | 0 < i < |ns|
          ensures ns[i] < |parent| && parent[ns[i]] == Some(ns[i - 1])
        {
          if i < |w.nodes| {
            assert ns[i] == w.nodes[i] && ns[i - 1] == w.nodes[i - 1];
          } else {
            assert ns[i] == n && ns[i - 1] == p;
          }
        }
      }
    }
  }

  /** The distance of a completed walk is the sum of the distances along its links. */
  lemma {:induction false} WalkBackLength(m: Graph, start: NodeId, parent: seq<Option<NodeId>>,
                                          n: NodeId, fuel: nat)
    requires start < |m.pos| && n < |m.pos| && |parent| == |m.pos|
    requires LinksFit(parent)
    ensures var w := WalkBack(m, start, parent, n, fuel);
      w.Reached? ==> w.raw == LinkSum(m, w.nodes)
    decreases fuel
  {
    if WalkContinues(m, start, n) && fuel > 0 && parent[n].Some? {
      var p := parent[n].value;
      WalkBackLength(m, start, parent, p, fuel - 1);
      WalkBackShape(m, start, parent, p, fuel - 1);
      var w := WalkBack(m, start, parent, p, fuel - 1);
      if w.Reached? {
        var ns := w.nodes + [n];
        assert WalkBack(m, start, parent, n, fuel) == Reached(ns, w.raw + m.dist(n, p));
        assert ns[..|ns| - 1] == w.nodes && ns[|ns| - 2] == p;
      }
    }
  }

  /** The walk from the start node is the one-node path at distance zero. */
  lemma WalkFromStart(m: Graph, start: NodeId, parent: seq<Option<NodeId>>, fuel: nat)
    requires start < |m.pos| && |parent| == |m.pos|
    requires LinksFit(parent)
    ensures WalkBack(m, start, parent, start, fuel) == Reached([start], 0.0)
  {
  }

  /** `s` reversed: what `std::reverse` leaves in a vector. */
  function Reversed(s: seq<NodeId>): (r: seq<NodeId>)
    ensures |r| == |s|
    ensures forall k :: 0 <= k < |s| ==> r[k] == s[|s| - 1 - k]
    decreases |s|
  {
    if s == [] then [] else Reversed(s[1..]) + [s[0]]
  }

  /** Reversing a sequence with one more element at its end puts that element first. */
  lemma {:induction false} ReversedSnoc(s: seq<NodeId>, x: NodeId)
    ensures Reversed(s + [x]) == [x] + Reversed(s)
    decreases |s|
  {
    if s == [] {
      assert Reversed([x]) == Reversed([]) + [x];
    } else {
      assert (s + [x])[1..] == s[1..] + [x];
      ReversedSnoc(s[1..], x);
    }
  }

  /**
   * A walk completed by the nodes `found` already collected by the loop of
   * ConstructFinalPath (goal first), at the distance `acc` already summed.
   */
  function ExtendAll(w: Walk, found: seq<NodeId>, acc: real): Walk {
    match w
    case Reached(ns, raw) => Reached(ns + Reversed(found), raw + acc)
    case _ => w
  }

  /** One step of the collecting loop: moving node `n` from the walk into `found`. */
  lemma ExtendAllStep(w: Walk, found: seq<NodeId>, acc: real, n: NodeId, d: real)
    ensures ExtendAll(Extend(w, n, d), found, acc) == ExtendAll(w, found + [n], acc + d)
  {
    ReversedSnoc(found, n);
    if w.Reached? {
      assert (w.nodes + [n]) + Reversed(found) == w.nodes + ([n] + Reversed(found));
    }
  }

  /**
   * One iteration of the loop of ConstructFinalPath: from a node where the
   * guard holds, with budget left and a parent `p`, the pending walk moves on
   * to `p` and the node joins the collected ones.
   */
  lemma WalkStep(m: Graph, start: NodeId, parent: seq<Option<NodeId>>, n: NodeId, fuel: nat,
                 found: seq<NodeId>, acc: real)
    requires start < |m.pos| && n < |m.pos| && |parent| == |m.pos| && LinksFit(parent)
    requires WalkContinues(m, start, n) && fuel > 0 && parent[n].Some?
    ensures var p := parent[n].value;
      ExtendAll(WalkBack(m, start, parent, n, fuel), found, acc)
      == ExtendAll(WalkBack(m, start, parent, p, fuel - 1), found + [n], acc + m.dist(n, p))
  {
    var p := parent[n].value;
    ExtendAllStep(WalkBack(m, start, parent, p, fuel - 1), found, acc, n, m.dist(n, p));
  }

  /** The end of the loop of ConstructFinalPath: the node where the guard fails closes the path. */
  lemma WalkDone(m: Graph, start: NodeId, parent: seq<Option<NodeId>>, n: NodeId, fuel: nat,
                 found: seq<NodeId>, acc: real)
    requires start < |m.pos| && n < |m.pos| && |parent| == |m.pos| && LinksFit(parent)
    requires !WalkContinues(m, start, n)
    ensures ExtendAll(WalkBack(m, start, parent, n, fuel), found, acc)
            == Reached(Reversed(found + [n]), acc)
  {
    ReversedSnoc(found, n);
  }

  // ---------------------------------------------------------------------------
  // The A* loop invariant
  // ---------------------------------------------------------------------------

  /**
   * A node discovered by the current search has been reached from the start
   * node or from another discovered node of smaller depth, its g value is its
   * parent's plus the distance between them, and its h value is its heuristic.
   */
  ghost predicate Discovered(m: Graph, start: NodeId, end: NodeId, t: NodeTable, disc: set<NodeId>,
                             depth: map<NodeId, nat>, n: NodeId)
    requires ValidGraph(m) && TableFits(t, |m.pos|) && n < |m.pos| && n in depth
  {
    && t.parent[n].Some?
    && var p := t.parent[n].value;
    && (p == start || p in disc)
    && p in depth && depth[p] < depth[n]
    && t.g[n] == t.g[p] + m.dist(n, p)
    && t.h[n] == m.dist(n, end)
  }

  /**
   * The invariant of the A* loop. `disc` is the set of nodes that some
   * expansion of this search has annotated, `depth` the number of parent steps
   * from each of them back to the start node.
   */
  ghost predicate SearchInvariant(m: Graph, start: NodeId, end: NodeId, t: NodeTable,
                                  open: seq<NodeId>, disc: set<NodeId>, depth: map<NodeId, nat>)
    requires ValidGraph(m) && start < |m.pos| && TableFits(t, |m.pos|)
  {
    && start in depth && depth[start] == 0
    && (forall n | n in disc :: n < |m.pos| && t.visited[n] && n in depth && depth[n] <= |disc|)
    && (forall n | n in disc && n != start && n < |m.pos| && n in depth ::
          Discovered(m, start, end, t, disc, depth, n))
    && (forall x | x in open :: x == start || x in disc)
    && (t.visited[start] || (disc == {} && open == [start]))
  }

  /** The set of discovered nodes after an expansion that found `nbrs`. */
  ghost function NextDisc(disc: set<NodeId>, nbrs: seq<NodeId>): set<NodeId> {
    disc + set x | x in nbrs
  }

  /** The depths after expanding `c`: each new node is one step deeper than `c`. */
  ghost function NextDepth(depth: map<NodeId, nat>, start: NodeId, c: NodeId,
                           nbrs: seq<NodeId>): map<NodeId, nat>
    requires c in depth
  {
    depth + map x | x in nbrs && x != start :: depth[c] + 1
  }

  /** Neighbour discovery, under FiltersVisited, reports table nodes that are not visited. */
  lemma NeighborsUnvisited(m: Graph, t: NodeTable, c: NodeId)
    requires ValidGraph(m) && FiltersVisited(m) && TableFits(t, |m.pos|)
    ensures var nbrs := m.findNeighbors(c, t.visited);
      forall x | x in nbrs :: x < |m.pos| && !t.visited[x]
  {
    var nbrs := m.findNeighbors(c, t.visited);
    forall x | x in nbrs
      ensures x < |m.pos| && !t.visited[x]
    {
      var k :| 0 <= k < |nbrs| && nbrs[k] == x;
    }
  }

  /** An already discovered node keeps its parent link, g and h through an expansion. */
  lemma DiscoveredKept(m: Graph, start: NodeId, end: NodeId, t: NodeTable, r: NodeTable,
                       disc: set<NodeId>, depth: map<NodeId, nat>, disc': set<NodeId>,
                       depth': map<NodeId, nat>, n: NodeId)
    requires ValidGraph(m) && TableFits(t, |m.pos|) && TableFits(r, |m.pos|)
    requires n < |m.pos| && n in depth && n in depth'
    requires Discovered(m, start, end, t, disc, depth, n)
    requires disc <= disc' && depth'[n] == depth[n]
    requires r.parent[n] == t.parent[n] && r.g[n] == t.g[n] && r.h[n] == t.h[n]
    requires var p := t.parent[n].value; p in depth' && depth'[p] == depth[p] && r.g[p] == t.g[p]
    ensures Discovered(m, start, end, r, disc', depth', n)
  {
  }

  /** The facts about the expanded node `c` that every part of the preservation proof uses. */
  ghost predicate ExpandableFrom(m: Graph, start: NodeId, t: NodeTable, disc: set<NodeId>,
                                 depth: map<NodeId, nat>, c: NodeId)
    requires ValidGraph(m) && start < |m.pos| && TableFits(t, |m.pos|)
  {
    && c < |m.pos| && c in depth && depth[c] <= |disc|
    && (c == start || c in disc)
    && (forall n | n in disc :: n < |m.pos| && t.visited[n] && n in depth && depth[n] <= |disc|)
    && (!t.visited[start] ==> c == start && disc == {})
    && (forall x | x in m.findNeighbors(c, t.visited) :: x < |m.pos| && !t.visited[x])
  }

  /** After an expansion, every discovered node is visited and its depth is bounded. */
  lemma ExpandKeepsDepthBound(m: Graph, start: NodeId, end: NodeId, t: NodeTable,
                              disc: set<NodeId>, depth: map<NodeId, nat>, c: NodeId)
    requires ValidGraph(m) && start < |m.pos| && TableFits(t, |m.pos|)
    requires start in depth && depth[start] == 0
    requires ExpandableFrom(m, start, t, disc, depth, c)
    ensures var nbrs := m.findNeighbors(c, t.visited);
      var r := Expand(m, end, t, c, t.g[c], nbrs);
      var disc' := NextDisc(disc, nbrs);
      var depth' := NextDepth(depth, start, c, nbrs);
      forall n | n in disc' :: n < |m.pos| && r.visited[n] && n in depth' && depth'[n] <= |disc'|
  {
    var nbrs := m.findNeighbors(c, t.visited);
    var r := Expand(m, end, t, c, t.g[c], nbrs);
    var disc' := NextDisc(disc, nbrs);
    var depth' := NextDepth(depth, start, c, nbrs);
    SubsetCard(disc, disc');
    forall n | n in disc'
      ensures n < |m.pos| && r.visited[n] && n in depth' && depth'[n] <= |disc'|
    {
      ExpandAnnotates(m, end, t, c, t.g[c], nbrs, n);
      if n in nbrs && n != start {
        assert n !in disc;
        assert disc + {n} <= disc';
        SubsetCard(disc + {n}, disc');
      }
    }
  }

  /** After an expansion, every discovered node other than the start is correctly linked. */
  lemma ExpandKeepsLinks(m: Graph, start: NodeId, end: NodeId, t: NodeTable,
                         disc: set<NodeId>, depth: map<NodeId, nat>, c: NodeId)
    requires ValidGraph(m) && start < |m.pos| && TableFits(t, |m.pos|)
    requires start in depth && depth[start] == 0
    requires ExpandableFrom(m, start, t, disc, depth, c)
    requires forall n | n in disc && n != start && n < |m.pos| && n in depth ::
               Discovered(m, start, end, t, disc, depth, n)
    ensures var nbrs := m.findNeighbors(c, t.visited);
      var r := Expand(m, end, t, c, t.g[c], nbrs);
      var disc' := NextDisc(disc, nbrs);
      var depth' := NextDepth(depth, start, c, nbrs);
      forall n | n in disc' && n != start && n < |m.pos| && n in depth' ::
        Discovered(m, start, end, r, disc', depth', n)
  {
    var nbrs := m.findNeighbors(c, t.visited);
    var r := Expand(m, end, t, c, t.g[c], nbrs);
    var disc' := NextDisc(disc, nbrs);
    var depth' := NextDepth(depth, start, c, nbrs);
    ExpandAnnotates(m, end, t, c, t.g[c], nbrs, c);
    assert r.g[c] == t.g[c];
    forall n | n in disc' && n != start && n < |m.pos| && n in depth'
      ensures Discovered(m, start, end, r, disc', depth', n)
    {
      ExpandAnnotates(m, end, t, c, t.g[c], nbrs, n);
      if n !in nbrs {
        assert n in disc;
        assert Discovered(m, start, end, t, disc, depth, n);
        var p := t.parent[n].value;
        ExpandAnnotates(m, end, t, c, t.g[c], nbrs, p);
        assert p !in nbrs;
        DiscoveredKept(m, start, end, t, r, disc, depth, disc', depth', n);
      }
    }
  }

  /**
   * Expanding a node popped from the open list keeps the invariant, with the
   * neighbours appended to the open list and added to the discovered set.
   */
  lemma ExpandPreservesSearchInvariant(m: Graph, start: NodeId, end: NodeId, t: NodeTable,
                                       rest: seq<NodeId>, disc: set<NodeId>,
                                       depth: map<NodeId, nat>, c: NodeId)
    requires ValidGraph(m) && FiltersVisited(m) && start < |m.pos| && TableFits(t, |m.pos|)
    requires SearchInvariant(m, start, end, t, rest + [c], disc, depth)
    ensures c < |m.pos| && c in depth
    ensures var nbrs := m.findNeighbors(c, t.visited);
      SearchInvariant(m, start, end, Expand(m, end, t, c, t.g[c], nbrs), rest + nbrs,
                      NextDisc(disc, nbrs), NextDepth(depth, start, c, nbrs))
  {
    assert c in rest + [c];
    var nbrs := m.findNeighbors(c, t.visited);
    var r := Expand(m, end, t, c, t.g[c], nbrs);
    var disc' := NextDisc(disc, nbrs);
    NeighborsUnvisited(m, t, c);
    assert ExpandableFrom(m, start, t, disc, depth, c);
    ExpandKeepsDepthBound(m, start, end, t, disc, depth, c);
    ExpandKeepsLinks(m, start, end, t, disc, depth, c);
    forall x | x in rest + nbrs
      ensures x == start || x in disc'
    {
      if x in rest {
        assert x in rest + [c];
      }
    }
    ExpandAnnotates(m, end, t, c, t.g[c], nbrs, start);
  }

  /**
   * The invariant survives taking entries off the open list: it holds of any
   * list whose entries were all on it, provided the one-entry list of the
   * start node before the first expansion stays that list.
   */
  lemma SearchInvariantOnFewer(m: Graph, start: NodeId, end: NodeId, t: NodeTable,
                               open: seq<NodeId>, open': seq<NodeId>,
                               disc: set<NodeId>, depth: map<NodeId, nat>)
    requires ValidGraph(m) && start < |m.pos| && TableFits(t, |m.pos|)
    requires SearchInvariant(m, start, end, t, open, disc, depth)
    requires forall x | x in open' :: x in open
    requires open == [start] ==> open' == [start]
    ensures SearchInvariant(m, start, end, t, open', disc, depth)
  {
  }

  /**
   * Taking `c` off the open list `open`, leaving `rest`, when `c` has an f no
   * larger than any remaining entry: `c` and every remaining entry were on the
   * list, `c` has the smallest f on it, and a one-entry list is left empty.
   */
  lemma PoppedFrom(t: NodeTable, size: nat, open: seq<NodeId>, rest: seq<NodeId>, c: NodeId)
    requires TableFits(t, size) && InRange(open, size) && InRange(rest, size) && c < size
    requires multiset(rest) + multiset{c} == multiset(open)
    requires forall x | x in rest :: FValue(t, c) <= FValue(t, x)
    ensures c in open && forall x | x in rest + [c] :: x in open
    ensures |open| == 1 ==> rest + [c] == open
    ensures forall k | 0 <= k < |open| :: FValue(t, c) <= FValue(t, open[k])
  {
    assert c in multiset(open);
    forall x | x in rest + [c]
      ensures x in open
    {
      assert x in multiset(rest + [c]);
    }
    if |open| == 1 {
      assert |multiset(rest)| + 1 == |multiset(open)|;
    }
    forall k | 0 <= k < |open|
      ensures FValue(t, c) <= FValue(t, open[k])
    {
      if open[k] != c {
        assert open[k] in multiset(open);
        assert open[k] in multiset(rest);
      }
    }
  }

  // ---------------------------------------------------------------------------
  // The history of a search: which nodes were expanded and what they reported
  // ---------------------------------------------------------------------------

  /** Every node that some expansion reported as a neighbour. */
  ghost function Discoveries(reported: seq<seq<NodeId>>): set<NodeId> {
    set i, x | 0 <= i < |reported| && x in reported[i] :: x
  }

  /** One more expansion adds the nodes it reported to the discoveries. */
  lemma DiscoveriesSnoc(reported: seq<seq<NodeId>>, nbrs: seq<NodeId>)
    ensures Discoveries(reported + [nbrs]) == Discoveries(reported) + set x | x in nbrs
  {
    var r := reported + [nbrs];
    forall x | x in Discoveries(r)
      ensures x in Discoveries(reported) || x in nbrs
    {
      var i :| 0 <= i < |r| && x in r[i];
      if i < |reported| {
        assert r[i] == reported[i];
      }
    }
    forall x | x in nbrs
      ensures x in Discoveries(r)
    {
      assert x in r[|reported|];
    }
    forall x | x in Discoveries(reported)
      ensures x in Discoveries(r)
    {
      var i :| 0 <= i < |reported| && x in reported[i];
      assert r[i] == reported[i];
    }
  }

  /**
   * What the search loop has discovered so far: `expanded[i]` was expanded and
   * neighbour discovery reported `reported[i]`; `disc` is everything reported;
   * every reported node was expanded or is still open; and the start node is
   * the first node expanded, the open list being just the start node before that.
   */
  ghost predicate Explored(start: NodeId, expanded: seq<NodeId>, reported: seq<seq<NodeId>>,
                           open: seq<NodeId>, disc: set<NodeId>)
  {
    && |reported| == |expanded|
    && disc == Discoveries(reported)
    && (forall x | x in disc :: x in expanded || x in open)
    && (expanded == [] ==> open == [start])
    && (expanded != [] ==> expanded[0] == start)
  }

  /**
   * Popping `c` off the open list and expanding it, with `nbrs` reported,
   * extends the history by that expansion, with the neighbours appended to
   * what remains of the open list.
   */
  lemma ExploredStep(start: NodeId, expanded: seq<NodeId>, reported: seq<seq<NodeId>>,
                     open: seq<NodeId>, rest: seq<NodeId>, disc: set<NodeId>, c: NodeId,
                     nbrs: seq<NodeId>)
    requires Explored(start, expanded, reported, open, disc)
    requires multiset(rest) + multiset{c} == multiset(open)
    ensures Explored(start, expanded + [c], reported + [nbrs], rest + nbrs, NextDisc(disc, nbrs))
  {
    var expanded' := expanded + [c];
    DiscoveriesSnoc(reported, nbrs);
    forall x | x in NextDisc(disc, nbrs)
      ensures x in expanded' || x in rest + nbrs
    {
      if x in disc && x !in expanded && x != c {
        assert x in multiset(open);
        assert x in multiset(rest);
      }
    }
    if expanded == [] {
      assert c in multiset(open);
    }
  }

  /**
   * When the open list runs empty, the history is closed: the start node was
   * expanded, and every node any expansion reported was expanded too.
   */
  lemma ExploredExhausted(start: NodeId, expanded: seq<NodeId>, reported: seq<seq<NodeId>>,
                          disc: set<NodeId>)
    requires Explored(start, expanded, reported, [], disc)
    ensures start in expanded
    ensures forall i, x | 0 <= i < |reported| && x in reported[i] :: x in expanded
  {
    assert expanded[0] == start;
    forall i, x | 0 <= i < |reported| && x in reported[i]
      ensures x in expanded
    {
      assert x in Discoveries(reported);
    }
  }

  // ---------------------------------------------------------------------------
  // The trace of a search: each expansion, from the node table it began with
  // ---------------------------------------------------------------------------

  /**
   * An A* step: with node table `t`, the node `c` taken from the open list
   * `pool` is in it and has the smallest f in it, and `nbrs` is what neighbour
   * discovery returns for `c` with the visited flags of `t`.
   */
  ghost predicate AStarStep(m: Graph, t: NodeTable, pool: seq<NodeId>, c: NodeId, nbrs: seq<NodeId>) {
    && TableFits(t, |m.pos|) && c < |m.pos| && InRange(pool, |m.pos|)
    && c in pool
    && (forall k | 0 <= k < |pool| :: FValue(t, c) <= FValue(t, pool[k]))
    && nbrs == m.findNeighbors(c, t.visited)
  }

  /**
   * Table `t'` and open list `open'` are what expanding `c`, popped from the
   * open list `pool` with table `t` and reporting `nbrs`, leaves: the table
   * expanded at `c` with its g value of the time, and the pool less `c` plus
   * the reported neighbours, in some order.
   */
  ghost predicate Follows(m: Graph, end: NodeId, t: NodeTable, pool: seq<NodeId>, c: NodeId,
                          nbrs: seq<NodeId>, t': NodeTable, open': seq<NodeId>) {
    && ValidGraph(m) && TableFits(t, |m.pos|) && c < |m.pos|
    && t' == Expand(m, end, t, c, t.g[c], nbrs)
    && multiset(open') == multiset(pool) - multiset{c} + multiset(nbrs)
  }

  /**
   * The trace of a search that began with node table `t0` and the open list
   * holding only the start node, and is now at node table `t` and open list
   * `open`: expansion `i` popped `expanded[i]` from the open list `pools[i]`
   * with node table `tables[i]`, as an A* step that reported `reported[i]`.
   * Each step begins where the trace before it left off, and the current
   * table and open list are what the last step left: its table expanded at
   * the popped node, its pool less that node plus the reported neighbours.
   */
  ghost predicate Traced(m: Graph, start: NodeId, end: NodeId, t0: NodeTable, expanded: seq<NodeId>,
                         reported: seq<seq<NodeId>>, pools: seq<seq<NodeId>>, tables: seq<NodeTable>,
                         t: NodeTable, open: seq<NodeId>)
    requires ValidGraph(m)
    decreases |expanded|, 1
  {
    && |reported| == |expanded| && |pools| == |expanded| && |tables| == |expanded|
    && (expanded == [] ==> t == t0 && multiset(open) == multiset{start})
    && (expanded != [] ==> LastStep(m, start, end, t0, expanded, reported, pools, tables, t, open))
  }

  /**
   * The last expansion of a non-empty trace: what came before it is a trace
   * ending at its table and pool, it is an A* step, and it leaves table `t`
   * and open list `open`.
   */
  ghost predicate LastStep(m: Graph, start: NodeId, end: NodeId, t0: NodeTable, expanded: seq<NodeId>,
                           reported: seq<seq<NodeId>>, pools: seq<seq<NodeId>>, tables: seq<NodeTable>,
                           t: NodeTable, open: seq<NodeId>)
    requires ValidGraph(m) && expanded != []
    requires |reported| == |expanded| && |pools| == |expanded| && |tables| == |expanded|
    decreases |expanded|, 0
  {
    var n := |expanded| - 1;
    && Traced(m, start, end, t0, expanded[..n], reported[..n], pools[..n], tables[..n], tables[n], pools[n])
    && AStarStep(m, tables[n], pools[n], expanded[n], reported[n])
    && Follows(m, end, tables[n], pools[n], expanded[n], reported[n], t, open)
  }

  /**
   * The search has just taken `c`, with the smallest f under table `t`, off
   * the open list `open`, leaving `rest`: the expansions so far account for
   * `open` as the discovered nodes `disc` and trace the search up to it, and
   * the end node has not been expanded (when it is the start node, nothing
   * has been).
   */
  ghost predicate PoppedState(m: Graph, start: NodeId, end: NodeId, t0: NodeTable, expanded: seq<NodeId>,
                              reported: seq<seq<NodeId>>, pools: seq<seq<NodeId>>, tables: seq<NodeTable>,
                              t: NodeTable, open: seq<NodeId>, rest: seq<NodeId>, c: NodeId, disc: set<NodeId>)
  {
    && ValidGraph(m) && TableFits(t, |m.pos|) && c < |m.pos| && InRange(open, |m.pos|)
    && multiset(rest) + multiset{c} == multiset(open)
    && (forall k | 0 <= k < |open| :: FValue(t, c) <= FValue(t, open[k]))
    && Explored(start, expanded, reported, open, disc)
    && Traced(m, start, end, t0, expanded, reported, pools, tables, t, open)
    && end !in expanded && (end == start ==> expanded == [] && open == [start])
  }

  /**
   * An A* step from the current table and open list, leaving table `t'` and
   * open list `open'`, extends the trace by that step.
   */
  lemma TracedStep(m: Graph, start: NodeId, end: NodeId, t0: NodeTable, expanded: seq<NodeId>,
                   reported: seq<seq<NodeId>>, pools: seq<seq<NodeId>>, tables: seq<NodeTable>,
                   t: NodeTable, open: seq<NodeId>, c: NodeId, nbrs: seq<NodeId>,
                   t': NodeTable, open': seq<NodeId>)
    requires ValidGraph(m) && Traced(m, start, end, t0, expanded, reported, pools, tables, t, open)
    requires AStarStep(m, t, open, c, nbrs) && Follows(m, end, t, open, c, nbrs, t', open')
    ensures Traced(m, start, end, t0, expanded + [c], reported + [nbrs], pools + [open], tables + [t], t', open')
  {
    var n := |expanded|;
    assert (expanded + [c])[..n] == expanded && (reported + [nbrs])[..n] == reported;
    assert (pools + [open])[..n] == pools && (tables + [t])[..n] == tables;
  }

  /**
   * Taking `c`, of smallest f, off the open list `open` of a trace leaves
   * `rest`: the trace holds of `rest` with `c` put back at the end, and `c`
   * has an f no larger than any entry of `rest`.
   */
  lemma TracedPopped(m: Graph, start: NodeId, end: NodeId, t0: NodeTable, expanded: seq<NodeId>,
                     reported: seq<seq<NodeId>>, pools: seq<seq<NodeId>>, tables: seq<NodeTable>,
                     t: NodeTable, open: seq<NodeId>, rest: seq<NodeId>, c: NodeId)
    requires ValidGraph(m) && Traced(m, start, end, t0, expanded, reported, pools, tables, t, open)
    requires TableFits(t, |m.pos|) && InRange(open, |m.pos|) && InRange(rest, |m.pos|) && c < |m.pos|
    requires multiset(rest) + multiset{c} == multiset(open)
    requires forall k | 0 <= k < |open| :: FValue(t, c) <= FValue(t, open[k])
    ensures Traced(m, start, end, t0, expanded, reported, pools, tables, t, rest + [c])
    ensures forall x | x in rest :: FValue(t, c) <= FValue(t, x)
  {
    assert multiset(rest + [c]) == multiset(open);
    if expanded != [] {
      assert LastStep(m, start, end, t0, expanded, reported, pools, tables, t, open);
    }
    forall x | x in rest
      ensures FValue(t, c) <= FValue(t, x)
    {
      assert x in multiset(open);
    }
  }

  /** Every expansion of a trace is an A* step. */
  lemma {:induction false} TracedSteps(m: Graph, start: NodeId, end: NodeId, t0: NodeTable,
                                       expanded: seq<NodeId>, reported: seq<seq<NodeId>>,
                                       pools: seq<seq<NodeId>>, tables: seq<NodeTable>,
                                       t: NodeTable, open: seq<NodeId>)
    requires ValidGraph(m) && Traced(m, start, end, t0, expanded, reported, pools, tables, t, open)
    ensures |reported| == |expanded| && |pools| == |expanded| && |tables| == |expanded|
    ensures forall i | 0 <= i < |expanded| :: AStarStep(m, tables[i], pools[i], expanded[i], reported[i])
    decreases |expanded|
  {
    if expanded != [] {
      var n := |expanded| - 1;
      var expanded', reported', pools', tables' := expanded[..n], reported[..n], pools[..n], tables[..n];
      TracedSteps(m, start, end, t0, expanded', reported', pools', tables', tables[n], pools[n]);
      forall i | 0 <= i < n
        ensures AStarStep(m, tables[i], pools[i], expanded[i], reported[i])
      {
        assert AStarStep(m, tables'[i], pools'[i], expanded'[i], reported'[i]);
      }
    }
  }

  /**
   * A trace starts from the initial table and the start node alone, and each
   * step's table and pool are what the step before it left.
   */
  lemma {:induction false} TracedLinks(m: Graph, start: NodeId, end: NodeId, t0: NodeTable,
                                       expanded: seq<NodeId>, reported: seq<seq<NodeId>>,
                                       pools: seq<seq<NodeId>>, tables: seq<NodeTable>,
                                       t: NodeTable, open: seq<NodeId>)
    requires ValidGraph(m) && Traced(m, start, end, t0, expanded, reported, pools, tables, t, open)
    ensures |reported| == |expanded| && |pools| == |expanded| && |tables| == |expanded|
    ensures expanded != [] ==> tables[0] == t0 && multiset(pools[0]) == multiset{start}
    ensures forall i | 0 <= i < |expanded| - 1 ::
      Follows(m, end, tables[i], pools[i], expanded[i], reported[i], tables[i + 1], pools[i + 1])
    decreases |expanded|
  {
    if expanded != [] {
      var n := |expanded| - 1;
      var expanded', reported', pools', tables' := expanded[..n], reported[..n], pools[..n], tables[..n];
      TracedLinks(m, start, end, t0, expanded', reported', pools', tables', tables[n], pools[n]);
      forall i | 0 <= i < n - 1
        ensures Follows(m, end, tables[i], pools[i], expanded[i], reported[i], tables[i + 1], pools[i + 1])
      {
        assert expanded'[i] == expanded[i] && reported'[i] == reported[i];
        assert pools'[i] == pools[i] && tables'[i] == tables[i];
        assert tables'[i + 1] == tables[i + 1] && pools'[i + 1] == pools[i + 1];
      }
      if n > 0 {
        assert LastStep(m, start, end, t0, expanded', reported', pools', tables', tables[n], pools[n]);
        assert tables'[0] == tables[0] && pools'[0] == pools[0];
        assert tables'[n - 1] == tables[n - 1] && expanded'[n - 1] == expanded[n - 1];
        assert pools'[n - 1] == pools[n - 1] && reported'[n - 1] == reported[n - 1];
      }
    }
  }

  /** A subset has at most as many elements as its superset. */
  lemma SubsetCard(a: set<NodeId>, b: set<NodeId>)
    requires a <= b
    ensures |a| <= |b|
  {
    assert b == a + (b - a);
  }

  /** A set of node ids below `size` has at most `size` elements. */
  lemma {:induction false} BoundedSetCard(s: set<NodeId>, size: nat)
    requires forall x | x in s :: x < size
    ensures |s| <= size
    decreases size
  {
    if size > 0 {
      var s' := s - {size - 1};
      BoundedSetCard(s', size - 1);
    } else {
      assert s == {};
    }
  }

  /**
   * Under the loop invariant, the walk back from any node of the open list
   * reaches a node where the guard of ConstructFinalPath fails, within `fuel` steps when
   * `fuel` covers the node's depth, without meeting a null parent; its
   * distance is the difference of the g values at its two ends; and every node
   * on it is the start node or a discovered node.
   */
  lemma {:induction false} WalkReachesUnderInvariant(m: Graph, start: NodeId, end: NodeId, t: NodeTable,
                                                     open: seq<NodeId>, disc: set<NodeId>,
                                                     depth: map<NodeId, nat>, n: NodeId, fuel: nat)
    requires ValidGraph(m) && start < |m.pos| && TableFits(t, |m.pos|)
    requires SearchInvariant(m, start, end, t, open, disc, depth)
    requires n == start || n in disc
    requires n in depth && fuel >= depth[n]
    ensures n < |m.pos|
    ensures var w := WalkBack(m, start, t.parent, n, fuel);
      && w.Reached? && |w.nodes| >= 1 && w.nodes[0] < |m.pos|
      && w.raw == t.g[n] - t.g[w.nodes[0]]
      && (forall i :: 0 <= i < |w.nodes| ==> w.nodes[i] == start || w.nodes[i] in disc)
    decreases fuel
  {
    var w := WalkBack(m, start, t.parent, n, fuel);
    if WalkContinues(m, start, n) {
      assert n != start;
      assert Discovered(m, start, end, t, disc, depth, n);
      var p := t.parent[n].value;
      WalkReachesUnderInvariant(m, start, end, t, open, disc, depth, p, fuel - 1);
      var w' := WalkBack(m, start, t.parent, p, fuel - 1);
      assert w == Extend(w', n, m.dist(n, p));
      assert w.nodes == w'.nodes + [n];
    }
  }

  /**
   * Under the loop invariant, the reconstruction from the end node, once it is
   * popped, never meets a null parent nor exceeds its step budget: it yields a path that ends at
   * the end node, begins at a node where the guard of ConstructFinalPath fails, follows
   * parent pointers, and whose unscaled length is the non-negative difference
   * of the g values at its two ends. When the start is the end node, the path
   * is that node alone, of length zero.
   */
  lemma GoalWalk(m: Graph, start: NodeId, end: NodeId, t: NodeTable, open: seq<NodeId>,
                 disc: set<NodeId>, depth: map<NodeId, nat>)
    requires ValidGraph(m) && start < |m.pos| && end < |m.pos| && TableFits(t, |m.pos|)
    requires SearchInvariant(m, start, end, t, open, disc, depth)
    requires end == start || end in disc
    ensures var w := WalkBack(m, start, t.parent, end, |m.pos|);
      && w.Reached? && |w.nodes| >= 1 && w.nodes[|w.nodes| - 1] == end
      && w.nodes[0] < |m.pos| && !WalkContinues(m, start, w.nodes[0])
      && ParentLinked(t.parent, w.nodes)
      && w.raw == t.g[end] - t.g[w.nodes[0]]
      && w.raw >= 0.0
      && (end == start ==> w == Reached([start], 0.0))
  {
    BoundedSetCard(disc, |m.pos|);
    WalkReachesUnderInvariant(m, start, end, t, open, disc, depth, end, |m.pos|);
    WalkBackShape(m, start, t.parent, end, |m.pos|);
    WalkBackLinked(m, start, t.parent, end, |m.pos|);
    WalkBackLength(m, start, t.parent, end, |m.pos|);
    LinkSumNonNegative(m, WalkBack(m, start, t.parent, end, |m.pos|).nodes);
  }

  /**
   * Under the loop invariant, when no discovered node other than the start
   * node shares a coordinate with the start node, the walk back from a node of
   * the open list ends exactly at the start node.
   */
  lemma WalkEndsAtStartWithoutSharedCoordinates(m: Graph, start: NodeId, end: NodeId, t: NodeTable,
                                                open: seq<NodeId>, disc: set<NodeId>,
                                                depth: map<NodeId, nat>, n: NodeId, fuel: nat)
    requires ValidGraph(m) && start < |m.pos| && TableFits(t, |m.pos|)
    requires SearchInvariant(m, start, end, t, open, disc, depth)
    requires forall x | x in disc && x != start :: x < |m.pos| && WalkContinues(m, start, x)
    requires n == start || n in disc
    requires n in depth && fuel >= depth[n]
    ensures n < |m.pos|
    ensures var w := WalkBack(m, start, t.parent, n, fuel);
      w.Reached? && w.nodes[0] == start
  {
    WalkReachesUnderInvariant(m, start, end, t, open, disc, depth, n, fuel);
    WalkBackShape(m, start, t.parent, n, fuel);
  }

  /**
   * The guard as written stops early: start node 0 at (0, 0), a node 1 at
   * (1, 0) that shares the start's y coordinate, the goal 2 at (2, 2), where
   * discovery finds 1 from 0 and 2 from 1 while they are unvisited, so a
   * search leaves parent pointers 2 -> 1 -> 0. The walk from the goal ends at
   * node 1, so the reconstructed path does not begin at the start node.
   */
  lemma SharedCoordinateStopsWalkEarly()
    ensures var m := Graph([Point(0.0, 0.0), Point(1.0, 0.0), Point(2.0, 2.0)],
                           (n: NodeId, vis: seq<bool>) =>
                             if n == 0 && |vis| > 1 && !vis[1] then [1]
                             else if n == 1 && |vis| > 2 && !vis[2] then [2] else [],
                           (a: NodeId, b: NodeId) => if a == b then 0.0 else 1.0,
                           1.0);
      var parent := [None, Some(0), Some(1)];
      WalkBack(m, 0, parent, 2, 3) == Reached([1, 2], 1.0)
  {
    var m := Graph([Point(0.0, 0.0), Point(1.0, 0.0), Point(2.0, 2.0)],
                   (n: NodeId, vis: seq<bool>) =>
                     if n == 0 && |vis| > 1 && !vis[1] then [1]
                     else if n == 1 && |vis| > 2 && !vis[2] then [2] else [],
                   (a: NodeId, b: NodeId) => if a == b then 0.0 else 1.0,
                   1.0);
    var parent: seq<Option<NodeId>> := [None, Some(0), Some(1)];
    assert !WalkContinues(m, 0, 1);
    assert WalkBack(m, 0, parent, 1, 2) == Reached([1], 0.0);
  }
}
