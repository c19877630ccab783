// The connect gesture (src/utils/GraphConnectionManager.js): the first
// click on a node starts a pending connection, a click on a different node
// completes it through the live connector, a second click on the start
// node or a click on empty space cancels it. The state is the pair
// (connectStartNode, pendingConnection) of the editor.

module ConnectionManager {
  import opened GraphTypes
  import opened GraphMath
  import opened GraphInvariants
  import opened NodeSelector
  import opened NodeConnector
  import opened Editor

  datatype CancelReason = SameNode | EmptySpace

  /** The object a handler returns. */
  datatype Status = Started(node: Node) | Completed(result: bool) | Cancelled(reason: CancelReason)

  /** Which branch of the handler a click takes. */
  datatype Click = Begin(node: Node) | Finish(start: Node, node: Node) | CancelSame | CancelEmpty | Ignored

  /**
   * The branch taken for a click hitting `hit` in the state
   * (`start`, `pending`). With a pending connection but no start node the
   * handler matches no branch and returns nothing.
   */
  function ClassifyClick(pending: bool, start: Option<Node>, hit: Option<Node>): (c: Click)
    ensures c.CancelEmpty? <==> hit.None?
    ensures c.Begin? <==> hit.Some? && !pending
    ensures c.Begin? ==> c.node == hit.value
    ensures c.Finish? <==> hit.Some? && pending && start.Some? && start.value.id != hit.value.id
    ensures c.Finish? ==> c.start == start.value && c.node == hit.value
    ensures c.CancelSame? <==> hit.Some? && pending && start.Some? && start.value.id == hit.value.id
    ensures c.Ignored? <==> hit.Some? && pending && start.None?
  {
    match hit
    case None => CancelEmpty
    case Some(node) =>
      if !pending then Begin(node)
      else if start.Some? && node.id != start.value.id then Finish(start.value, node)
      else if start.Some? && node.id == start.value.id then CancelSame
      else Ignored
  }

  /** The gesture state after a click: a start begins it, everything else but an ignored click resets it. */
  function NextGesture(c: Click, start: Option<Node>, pending: bool): (r: (Option<Node>, bool))
    ensures c.Begin? ==> r == (Some(c.node), true)
    ensures c.Ignored? ==> r == (start, pending)
    ensures !c.Begin? && !c.Ignored? ==> r == (None, false)
  {
    match c
    case Begin(node) => (Some(node), true)
    case Ignored => (start, pending)
    case _ => (None, false)
  }

  /** A start node is recorded exactly while a connection is pending. */
  predicate GestureConsistent(start: Option<Node>, pending: bool)
  {
    pending <==> start.Some?
  }

  /**
   * From a consistent state no click is ignored, and every click leads to a
   * consistent state again; so the fall-through branch is reachable only
   * from a state the handlers themselves never produce.
   */
  lemma GestureStaysConsistent(start: Option<Node>, pending: bool, hit: Option<Node>)
    requires GestureConsistent(start, pending)
    ensures !ClassifyClick(pending, start, hit).Ignored?
    ensures var r := NextGesture(ClassifyClick(pending, start, hit), start, pending);
            GestureConsistent(r.0, r.1)
  {
  }

  /** Two clicks on different nodes from the idle state complete a connection between them. */
  lemma TwoClicksComplete(a: Node, b: Node)
    requires a.id != b.id
    ensures var c1 := ClassifyClick(false, None, Some(a));
            var s1 := NextGesture(c1, None, false);
            && c1 == Begin(a)
            && ClassifyClick(s1.1, s1.0, Some(b)) == Finish(a, b)
            && NextGesture(Finish(a, b), s1.0, s1.1) == (None, false)
  {
  }

  /**
   * `handleConnectClick(x, y, …)`: classifies the click on the topmost node
   * under the point; a completed gesture runs the live `connectNodes` with
   * no selection snapshot, so the selection is not touched.
   */
  method HandleConnectClick(g: Graph, p: Point) returns (status: Option<Status>)
    modifies g`connectStartNode, g`pendingConnection, g`nodes, g`edges, g`error, g`selectedNode
    ensures var c := ClassifyClick(old(g.pendingConnection), old(g.connectStartNode), TopmostNodeAt(old(g.nodes), p));
            && (g.connectStartNode, g.pendingConnection)
               == NextGesture(c, old(g.connectStartNode), old(g.pendingConnection))
            && g.selectedNode == old(g.selectedNode)
            && (c.Begin? ==> status == Some(Started(c.node)))
            && (c.CancelSame? ==> status == Some(Cancelled(SameNode)))
            && (c.CancelEmpty? ==> status == Some(Cancelled(EmptySpace)))
            && (c.Ignored? ==> status == None)
            && (!c.Finish? ==> g.nodes == old(g.nodes) && g.edges == old(g.edges) && g.error == old(g.error))
            && (c.Finish? ==>
                  var check := NodeConnector.CheckConnect(old(g.edges), c.start, c.node);
                  && status == Some(Completed(check.Pass?))
                  && (check.Pass? ==> g.edges == old(g.edges) + [CreateEdge(c.start, c.node)]
                                      && g.nodes == MarkBank(old(g.nodes), c.start, c.node, Some("streetCover"))
                                      && g.error == old(g.error))
                  && (check.Fail? ==> g.nodes == old(g.nodes) && g.edges == old(g.edges)
                                      && g.error == if check.error.Some? then check.error else old(g.error)))
    ensures old(GraphInvariant(g.nodes, g.edges))
            && (old(g.connectStartNode).Some? ==> old(g.connectStartNode).value in old(g.nodes))
            ==> GraphInvariant(g.nodes, g.edges)
  {
    var node := FindNodeAtPosition(g.nodes, p);
    if node.Some? {
      if !g.pendingConnection {
        g.connectStartNode := node;
        g.pendingConnection := true;
        return Some(Started(node.value));
      } else if g.connectStartNode.Some? && node.value.id != g.connectStartNode.value.id {
        PickedNodeContainsPoint(g.nodes, p);
        var result := ConnectNodes(g, g.connectStartNode.value, node.value, None);
        g.connectStartNode := None;
        g.pendingConnection := false;
        return Some(Completed(result));
      } else if g.connectStartNode.Some? && node.value.id == g.connectStartNode.value.id {
        g.connectStartNode := None;
        g.pendingConnection := false;
        return Some(Cancelled(SameNode));
      }
      return None;
    } else {
      g.connectStartNode := None;
      g.pendingConnection := false;
      return Some(Cancelled(EmptySpace));
    }
  }

  /**
   * `handleConnectBidirectionalClick(x, y, …)`: the same transitions,
   * completing through `connectNodesBidirectional`. The two nodes of a
   * completed gesture always have different ids.
   */
  method HandleConnectBidirectionalClick(g: Graph, p: Point) returns (status: Option<Status>)
    modifies g`connectStartNode, g`pendingConnection, g`nodes, g`edges, g`error, g`selectedNode
    ensures var c := ClassifyClick(old(g.pendingConnection), old(g.connectStartNode), TopmostNodeAt(old(g.nodes), p));
            && (g.connectStartNode, g.pendingConnection)
               == NextGesture(c, old(g.connectStartNode), old(g.pendingConnection))
            && g.selectedNode == old(g.selectedNode)
            && (c.Begin? ==> status == Some(Started(c.node)))
            && (c.CancelSame? ==> status == Some(Cancelled(SameNode)))
            && (c.CancelEmpty? ==> status == Some(Cancelled(EmptySpace)))
            && (c.Ignored? ==> status == None)
            && (!c.Finish? ==> g.nodes == old(g.nodes) && g.edges == old(g.edges) && g.error == old(g.error))
            && (c.Finish? ==>
                  var check := NodeConnector.CheckBidirectional(c.start, c.node);
                  var missing := MissingEdges(old(g.edges), c.start, c.node);
                  && status == Some(Completed(check.Pass? && missing != []))
                  && (check.Pass? ==> g.edges == old(g.edges) + missing
                                      && g.nodes == MarkBank(old(g.nodes), c.start, c.node, Some("streetCover"))
                                      && g.error == old(g.error))
                  && (check.Fail? ==> g.nodes == old(g.nodes) && g.edges == old(g.edges) && g.error == check.error))
    ensures old(GraphInvariant(g.nodes, g.edges))
            && (old(g.connectStartNode).Some? ==> old(g.connectStartNode).value in old(g.nodes))
            ==> GraphInvariant(g.nodes, g.edges)
  {
    var node := FindNodeAtPosition(g.nodes, p);
    if node.Some? {
      if !g.pendingConnection {
        g.connectStartNode := node;
        g.pendingConnection := true;
        return Some(Started(node.value));
      } else if g.connectStartNode.Some? && node.value.id != g.connectStartNode.value.id {
        PickedNodeContainsPoint(g.nodes, p);
        var result := ConnectNodesBidirectional(g, g.connectStartNode.value, node.value, None);
        g.connectStartNode := None;
        g.pendingConnection := false;
        return Some(Completed(result));
      } else if g.connectStartNode.Some? && node.value.id == g.connectStartNode.value.id {
        g.connectStartNode := None;
        g.pendingConnection := false;
        return Some(Cancelled(SameNode));
      }
      return None;
    } else {
      g.connectStartNode := None;
      g.pendingConnection := false;
      return Some(Cancelled(EmptySpace));
    }
  }
}
