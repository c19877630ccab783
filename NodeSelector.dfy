// The picker (src/operations/NodeSelector.js): the topmost node under a
// point, the first edge drawn near it, and the selection rule that prefers
// a node to an edge. The perpendicular shift of a two-way pair's drawn
// segments uses trigonometry and is taken as a parameter `offset`.

module NodeSelector {
  import opened GraphTypes
  import opened GraphMath
  import opened GraphConstants
  import opened GraphStateService
  import opened Editor

  function Position(n: Node): Point
  {
    Point(n.x, n.y)
  }

  /** The point lies in the node's drawn circle of radius NODE_RADIUS. */
  predicate UnderPoint(n: Node, p: Point)
  {
    IsPointInCircle(p, Position(n), NODE_RADIUS)
  }

  /** The last of the first `k` nodes that lies under the point. */
  function TopmostBelow(nodes: seq<Node>, p: Point, k: nat): (r: Option<Node>)
    requires k <= |nodes|
    ensures r.None? <==> forall i :: 0 <= i < k ==> !UnderPoint(nodes[i], p)
    ensures r.Some? ==> exists i :: 0 <= i < k && nodes[i] == r.value && UnderPoint(nodes[i], p)
                          && forall j :: i < j < k ==> !UnderPoint(nodes[j], p)
  {
    if k == 0 then None
    else if UnderPoint(nodes[k - 1], p) then Some(nodes[k - 1])
    else TopmostBelow(nodes, p, k - 1)
  }

  /** The node drawn on top (the last in list order) under the point. */
  function TopmostNodeAt(nodes: seq<Node>, p: Point): (r: Option<Node>)
    ensures r.None? <==> forall i :: 0 <= i < |nodes| ==> !UnderPoint(nodes[i], p)
    ensures r.Some? ==> exists i :: 0 <= i < |nodes| && nodes[i] == r.value && UnderPoint(nodes[i], p)
                          && forall j :: i < j < |nodes| ==> !UnderPoint(nodes[j], p)
  {
    TopmostBelow(nodes, p, |nodes|)
  }

  /** `findNodeAtPosition`: scan from the last node down, stop at the first one under the point. */
  method FindNodeAtPosition(nodes: seq<Node>, p: Point) returns (r: Option<Node>)
    ensures r == TopmostNodeAt(nodes, p)
  {
    var i := |nodes| - 1;
    while i >= 0
      invariant -1 <= i < |nodes|
      invariant TopmostNodeAt(nodes, p) == TopmostBelow(nodes, p, i + 1)
    {
      if UnderPoint(nodes[i], p) {
        return Some(nodes[i]);
      }
      i := i - 1;
    }
    return None;
  }

  /** Any node the picker returns contains the point. */
  lemma PickedNodeContainsPoint(nodes: seq<Node>, p: Point)
    requires TopmostNodeAt(nodes, p).Some?
    ensures UnderPoint(TopmostNodeAt(nodes, p).value, p)
    ensures TopmostNodeAt(nodes, p).value in nodes
  {
  }

  /** Of two overlapping nodes the later one in the list is picked. */
  lemma LaterNodeWins(a: Node, b: Node, p: Point)
    requires UnderPoint(a, p) && UnderPoint(b, p)
    ensures TopmostNodeAt([a, b], p) == Some(b)
  {
  }

  /** `p` translated by `d`. */
  function Shift(p: Point, d: Point): Point
  {
    Point(p.x + d.x, p.y + d.y)
  }

  /**
   * The predicate of `findEdgeAtPosition`'s `find`: both endpoints exist and
   * the point is closer than EDGE_HIT_DISTANCE to the drawn segment, which is
   * shifted by `offset(source, target)` when the reverse edge exists.
   * Distances are compared squared.
   */
  predicate EdgeHit(edges: seq<Edge>, nodes: seq<Node>, e: Edge, p: Point, offset: (Point, Point) -> Point)
  {
    var s := FindNode(nodes, e.source);
    var t := FindNode(nodes, e.target);
    if s.None? || t.None? then false
    else
      var a := Position(s.value);
      var b := Position(t.value);
      if EdgeExists(edges, e.target, e.source) then
        SquaredDistanceToSegment(p, Shift(a, offset(a, b)), Shift(b, offset(a, b)))
          < EDGE_HIT_DISTANCE * EDGE_HIT_DISTANCE
      else
        SquaredDistanceToSegment(p, a, b) < EDGE_HIT_DISTANCE * EDGE_HIT_DISTANCE
  }

  /** The first edge at index `k` or later that `EdgeHit` accepts. */
  function FirstEdgeHitFrom(edges: seq<Edge>, nodes: seq<Node>, p: Point, offset: (Point, Point) -> Point, k: nat)
    : (r: Option<Edge>)
    requires k <= |edges|
    ensures r.None? <==> forall i :: k <= i < |edges| ==> !EdgeHit(edges, nodes, edges[i], p, offset)
    ensures r.Some? ==> exists i :: k <= i < |edges| && edges[i] == r.value && EdgeHit(edges, nodes, edges[i], p, offset)
                          && forall j :: k <= j < i ==> !EdgeHit(edges, nodes, edges[j], p, offset)
    decreases |edges| - k
  {
    if k == |edges| then None
    else if EdgeHit(edges, nodes, edges[k], p, offset) then Some(edges[k])
    else FirstEdgeHitFrom(edges, nodes, p, offset, k + 1)
  }

  /** `findEdgeAtPosition(x, y, edges, nodes)`: the first edge in list order drawn near the point. */
  function FindEdgeAtPosition(edges: seq<Edge>, nodes: seq<Node>, p: Point, offset: (Point, Point) -> Point)
    : (r: Option<Edge>)
    ensures r.None? <==> forall i :: 0 <= i < |edges| ==> !EdgeHit(edges, nodes, edges[i], p, offset)
    ensures r.Some? ==> exists i :: 0 <= i < |edges| && edges[i] == r.value && EdgeHit(edges, nodes, edges[i], p, offset)
                          && forall j :: 0 <= j < i ==> !EdgeHit(edges, nodes, edges[j], p, offset)
  {
    FirstEdgeHitFrom(edges, nodes, p, offset, 0)
  }

  /** An edge with a missing endpoint is never hit, wherever the point is. */
  lemma MissingEndpointNeverHit(edges: seq<Edge>, nodes: seq<Node>, e: Edge, p: Point, offset: (Point, Point) -> Point)
    requires (forall i :: 0 <= i < |nodes| ==> nodes[i].id != e.source)
          || (forall i :: 0 <= i < |nodes| ==> nodes[i].id != e.target)
    ensures !EdgeHit(edges, nodes, e, p, offset)
  {
  }

  /**
   * The shift is applied exactly when the reverse edge exists; without it a
   * point on the straight segment between the two endpoints always hits.
   */
  lemma OneWayEdgeHitOnSegment(edges: seq<Edge>, nodes: seq<Node>, e: Edge, t: real, offset: (Point, Point) -> Point)
    requires 0.0 <= t <= 1.0
    requires FindNode(nodes, e.source).Some? && FindNode(nodes, e.target).Some?
    requires !HasEdge(edges, e.target, e.source)
    ensures var a := Position(FindNode(nodes, e.source).value);
            var b := Position(FindNode(nodes, e.target).value);
            EdgeHit(edges, nodes, e, Along(a, b, t), offset)
  {
    var a := Position(FindNode(nodes, e.source).value);
    var b := Position(FindNode(nodes, e.target).value);
    PointOnSegmentAtZero(a, b, t);
  }

  /** A two-way pair is hit along its shifted segment, whatever the shift is. */
  lemma TwoWayEdgeHitOnShiftedSegment(edges: seq<Edge>, nodes: seq<Node>, e: Edge, t: real, offset: (Point, Point) -> Point)
    requires 0.0 <= t <= 1.0
    requires FindNode(nodes, e.source).Some? && FindNode(nodes, e.target).Some?
    requires HasEdge(edges, e.target, e.source)
    ensures var a := Position(FindNode(nodes, e.source).value);
            var b := Position(FindNode(nodes, e.target).value);
            var d := offset(a, b);
            EdgeHit(edges, nodes, e, Along(Shift(a, d), Shift(b, d), t), offset)
  {
    var a := Position(FindNode(nodes, e.source).value);
    var b := Position(FindNode(nodes, e.target).value);
    var d := offset(a, b);
    PointOnSegmentAtZero(Shift(a, d), Shift(b, d), t);
  }

  /**
   * `selectNodeAtPosition`: a node under the point is selected (and the edge
   * selection cleared); otherwise the first edge near it; otherwise nothing.
   */
  method SelectNodeAtPosition(g: Graph, p: Point, offset: (Point, Point) -> Point) returns (selected: bool)
    modifies g`selectedNode, g`selectedEdge
    ensures g.selectedNode == TopmostNodeAt(g.nodes, p)
    ensures g.selectedEdge == if g.selectedNode.Some? then None else FindEdgeAtPosition(g.edges, g.nodes, p, offset)
    ensures !(g.selectedNode.Some? && g.selectedEdge.Some?)
    ensures selected <==> g.selectedNode.Some? || g.selectedEdge.Some?
  {
    var node := FindNodeAtPosition(g.nodes, p);
    if node.Some? {
      g.selectedNode := node;
      g.selectedEdge := None;
      return true;
    }
    var edge := FindEdgeAtPosition(g.edges, g.nodes, p, offset);
    g.selectedNode := None;
    g.selectedEdge := edge;
    selected := edge.Some?;
  }
}
