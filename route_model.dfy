/**
 * The part of the map model that the route planner uses but that is not part of
 * this model: node positions, neighbour discovery, the distance between two nodes
 * and the metric scale. They are kept abstract, as values of a `Graph`, together
 * with the assumptions the planner relies on.
 */
module RouteModel {
  import opened Wrappers

  /** A node, named by its index in the model's node table (a `RouteModel::Node *`). */
  type NodeId = nat

  /** Normalised map coordinates of a node. */
  datatype Point = Point(x: real, y: real)

  /**
   * The map model as the planner sees it.
   * - `pos[n]` is the position of node `n`; `|pos|` is the number of nodes.
   * - `findNeighbors(n, visited)` is what `Node::FindNeighbors` leaves in `n`'s
   *   neighbour list, given the visited flags of all nodes at the time of the call.
   * - `dist(a, b)` is `a.distance(b)`.
   * - `metricScale` is `RouteModel::MetricScale()`.
   */
  datatype Graph = Graph(
    pos: seq<Point>,
    findNeighbors: (NodeId, seq<bool>) -> seq<NodeId>,
    dist: (NodeId, NodeId) -> real,
    metricScale: real)

  /**
   * A length in the model's units converted to metres with its metric scale:
   * a zero length stays zero, and with a positive scale a length and its
   * conversion have the same sign.
   */
  function Metres(m: Graph, length: real): (metres: real)
    ensures length == 0.0 ==> metres == 0.0
    ensures m.metricScale > 0.0 ==> (metres > 0.0 <==> length > 0.0) && (metres < 0.0 <==> length < 0.0)
  {
    length * m.metricScale
  }

  /** Every node id in `ns` names a node of a table with `size` nodes. */
  ghost predicate InRange(ns: seq<NodeId>, size: nat) {
    forall k :: 0 <= k < |ns| ==> ns[k] < size
  }

  /**
   * What the planner assumes of the model: distances are non-negative and a node
   * is at distance zero from itself, and neighbour discovery only names nodes
   * of the table.
   */
  ghost predicate ValidGraph(m: Graph) {
    && (forall a: NodeId, b: NodeId :: m.dist(a, b) >= 0.0)
    && (forall a: NodeId :: m.dist(a, a) == 0.0)
    && (forall n: NodeId, vis: seq<bool>, k ::
          0 <= k < |m.findNeighbors(n, vis)| ==> m.findNeighbors(n, vis)[k] < |m.pos|)
  }

  /**
   * Neighbour discovery reports only nodes that are not yet visited. The
   * planner never checks the visited flag itself; this is the assumption under
   * which its search loop terminates.
   */
  ghost predicate FiltersVisited(m: Graph) {
    forall n: NodeId, vis: seq<bool>, k ::
      0 <= k < |m.findNeighbors(n, vis)| && m.findNeighbors(n, vis)[k] < |vis| ==>
        !vis[m.findNeighbors(n, vis)[k]]
  }

  /**
   * The search annotations of all nodes, as a value: `g_value`, `h_value`,
   * `visited` and `parent` (None for a null parent pointer).
   */
  datatype NodeTable = NodeTable(
    g: seq<real>,
    h: seq<real>,
    visited: seq<bool>,
    parent: seq<Option<NodeId>>)

  /** Every parent pointer of the column names a node of the column. */
  ghost predicate LinksFit(parent: seq<Option<NodeId>>) {
    forall k :: 0 <= k < |parent| && parent[k].Some? ==> parent[k].value < |parent|
  }

  /** The table has one entry per node and every parent pointer names a node. */
  ghost predicate TableFits(t: NodeTable, size: nat) {
    && |t.g| == size && |t.h| == size && |t.visited| == size && |t.parent| == size
    && LinksFit(t.parent)
  }
}
