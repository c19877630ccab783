// The deletion engine (src/operations/NodeDeleter.js). Deleting a credit
// line, projection or street first undoes the derived flag it gave each
// bank it is joined to (a projection or street flag only when no other
// link of that kind is left), working on a copy of the node list; then the
// node and its incident edges go. Deleting an edge removes it by id.

module NodeDeleter {
  import opened GraphTypes
  import opened GraphMath
  import opened GraphInvariants
  import opened NodeSelector
  import opened Editor
  import NodeManager

  /** The derived bank property a deleted node of this type gave its banks. */
  function ClearedKey(kind: NodeType): string
  {
    match kind
    case CreditLine => "creditLine"
    case Projection => "projectionAware"
    case Street => "streetCover"
    case Bank => ""
  }

  /** The value that property is reset to. */
  function ClearedValue(kind: NodeType): Value
  {
    if kind == CreditLine then Null else Bool(false)
  }

  /**
   * Some edge other than the one at index `skip` joins the bank to a node
   * of type `kind` other than the deleted one (`remainingEdges.some(…)`).
   */
  predicate HasOtherLink(nodes: seq<Node>, edges: seq<Edge>, skip: int, bankId: string, deletedId: string, kind: NodeType)
  {
    exists k :: 0 <= k < |edges| && k != skip && Incident(edges[k], bankId)
      && var other := OtherEnd(edges[k], bankId);
         && other != deletedId
         && FindNode(nodes, other).Some?
         && FindNode(nodes, other).value.kind == kind
  }

  /** The edge at index `j` makes the bank `bankId` lose the flag the deleted node gave it. */
  predicate Clears(nodes: seq<Node>, edges: seq<Edge>, del: Node, bankId: string, j: int)
    requires 0 <= j < |edges|
  {
    && Incident(edges[j], del.id)
    && OtherEnd(edges[j], del.id) == bankId
    && (del.kind == CreditLine
        || ((del.kind == Projection || del.kind == Street)
            && !HasOtherLink(nodes, edges, j, bankId, del.id, del.kind)))
  }

  /** The working copy of the node list and the selection, during the reversal. */
  datatype Reversal = Reversal(nodes: seq<Node>, selected: Option<Node>)

  /** One pass of the `forEach` body, for the edge at index `j`. */
  function ReverseStep(nodes: seq<Node>, edges: seq<Edge>, del: Node, selected: Option<Node>, r: Reversal, j: int)
    : (r': Reversal)
    requires 0 <= j < |edges|
    ensures |r'.nodes| == |r.nodes|
  {
    if !Incident(edges[j], del.id) then r
    else
      var connectedNodeId := OtherEnd(edges[j], del.id);
      var idx := IndexOfNode(r.nodes, connectedNodeId);
      if idx < 0 || r.nodes[idx].kind != Bank || !Clears(nodes, edges, del, connectedNodeId, j) then r
      else
        var updated := SetProp(r.nodes[idx], ClearedKey(del.kind), ClearedValue(del.kind));
        Reversal(r.nodes[idx := updated],
                 if selected.Some? && selected.value.id == r.nodes[idx].id then Some(updated) else r.selected)
  }

  /** The working copy after the `forEach` has handled the first `k` edges. */
  function ReverseFlags(nodes: seq<Node>, edges: seq<Edge>, del: Node, selected: Option<Node>, current: Option<Node>, k: nat)
    : (r: Reversal)
    requires k <= |edges|
    ensures |r.nodes| == |nodes|
  {
    if k == 0 then Reversal(nodes, current)
    else ReverseStep(nodes, edges, del, selected, ReverseFlags(nodes, edges, del, selected, current, k - 1), k - 1)
  }

  /** The reversal as a whole: nothing happens for a deleted bank. */
  function Reverse(nodes: seq<Node>, edges: seq<Edge>, del: Node, selected: Option<Node>, current: Option<Node>)
    : Reversal
  {
    if del.kind == CreditLine || del.kind == Projection || del.kind == Street
    then ReverseFlags(nodes, edges, del, selected, current, |edges|)
    else Reversal(nodes, current)
  }

  /** Some edge among the first `k` clears the bank's flag. */
  predicate ClearedBy(nodes: seq<Node>, edges: seq<Edge>, del: Node, bankId: string, k: nat)
    requires k <= |edges|
  {
    exists j :: 0 <= j < k && Clears(nodes, edges, del, bankId, j)
  }

  lemma ClearedByStep(nodes: seq<Node>, edges: seq<Edge>, del: Node, bankId: string, k: nat)
    requires 0 < k <= |edges|
    ensures ClearedBy(nodes, edges, del, bankId, k)
            <==> ClearedBy(nodes, edges, del, bankId, k - 1) || Clears(nodes, edges, del, bankId, k - 1)
  {
    if ClearedBy(nodes, edges, del, bankId, k) {
      var j :| 0 <= j < k && Clears(nodes, edges, del, bankId, j);
      if j < k - 1 {
        assert ClearedBy(nodes, edges, del, bankId, k - 1);
      }
    }
  }

  /** The reversal changes properties only. */
  lemma {:induction false} ReverseFlagsShape(nodes: seq<Node>, edges: seq<Edge>, del: Node, selected: Option<Node>,
                                             current: Option<Node>, k: nat)
    requires k <= |edges|
    ensures SameShape(nodes, ReverseFlags(nodes, edges, del, selected, current, k).nodes)
  {
    if k > 0 {
      var r := ReverseFlags(nodes, edges, del, selected, current, k - 1);
      ReverseFlagsShape(nodes, edges, del, selected, current, k - 1);
      ReverseStepShape(nodes, edges, del, selected, r, k - 1);
    }
  }

  lemma ReverseStepShape(nodes: seq<Node>, edges: seq<Edge>, del: Node, selected: Option<Node>, r: Reversal, j: int)
    requires 0 <= j < |edges| && SameShape(nodes, r.nodes)
    ensures SameShape(nodes, ReverseStep(nodes, edges, del, selected, r, j).nodes)
  {
  }

  /** The step for edge `j` writes the bank at index `i` exactly when that edge clears it. */
  lemma StepTargets(nodes: seq<Node>, edges: seq<Edge>, del: Node, r: seq<Node>, j: int, i: int)
    requires NodeIdsUnique(nodes) && SameKinds(nodes, r) && 0 <= i < |nodes| && 0 <= j < |edges|
    requires nodes[i].kind == Bank
    ensures var c := OtherEnd(edges[j], del.id);
            Clears(nodes, edges, del, nodes[i].id, j)
            <==> Incident(edges[j], del.id) && IndexOfNode(r, c) == i && r[i].kind == Bank
                 && Clears(nodes, edges, del, c, j)
  {
    IndexInSameKinds(nodes, r, OtherEnd(edges[j], del.id), i);
  }

  /** The step for edge `j` resets the node at index `i` exactly when it is a bank that edge clears. */
  lemma ReverseStepAt(nodes: seq<Node>, edges: seq<Edge>, del: Node, selected: Option<Node>, r: Reversal, j: int, i: int)
    requires NodeIdsUnique(nodes) && SameKinds(nodes, r.nodes) && 0 <= j < |edges| && 0 <= i < |nodes|
    ensures ReverseStep(nodes, edges, del, selected, r, j).nodes[i]
            == if nodes[i].kind == Bank && Clears(nodes, edges, del, nodes[i].id, j)
               then SetProp(r.nodes[i], ClearedKey(del.kind), ClearedValue(del.kind))
               else r.nodes[i]
  {
    IndexInSameKinds(nodes, r.nodes, OtherEnd(edges[j], del.id), i);
    if nodes[i].kind == Bank {
      StepTargets(nodes, edges, del, r.nodes, j, i);
    }
  }

  /** The step for edge `j` replaces the selection exactly when the selected node is a bank that edge clears. */
  lemma ReverseStepSelection(nodes: seq<Node>, edges: seq<Edge>, del: Node, selected: Option<Node>, r: Reversal, j: int)
    requires NodeIdsUnique(nodes) && SameKinds(nodes, r.nodes) && 0 <= j < |edges| && selected.Some?
    ensures var i := IndexOfNode(nodes, selected.value.id);
            ReverseStep(nodes, edges, del, selected, r, j).selected
            == if i >= 0 && nodes[i].kind == Bank && Clears(nodes, edges, del, nodes[i].id, j)
               then Some(SetProp(r.nodes[i], ClearedKey(del.kind), ClearedValue(del.kind)))
               else r.selected
  {
    var i := IndexOfNode(nodes, selected.value.id);
    var c := OtherEnd(edges[j], del.id);
    var idx := IndexOfNode(r.nodes, c);
    if Incident(edges[j], del.id) && idx >= 0 && r.nodes[idx].kind == Bank && Clears(nodes, edges, del, c, j) {
      IndexInSameKinds(nodes, r.nodes, c, idx);
      if selected.value.id == r.nodes[idx].id {
        IndexInSameKinds(nodes, nodes, selected.value.id, idx);
        StepTargets(nodes, edges, del, r.nodes, j, idx);
      } else if i >= 0 {
        IndexInSameKinds(nodes, r.nodes, c, i);
      }
    } else if i >= 0 && nodes[i].kind == Bank {
      StepTargets(nodes, edges, del, r.nodes, j, i);
    }
  }

  /**
   * After the first `k` edges, a node of the working copy is its original
   * with the flag reset exactly when it is a bank some of those edges clear;
   * every other node is as it was.
   */
  lemma {:induction false} ReverseFlagsAt(nodes: seq<Node>, edges: seq<Edge>, del: Node, selected: Option<Node>,
                                          current: Option<Node>, k: nat, i: int)
    requires NodeIdsUnique(nodes) && k <= |edges| && 0 <= i < |nodes|
    ensures ReverseFlags(nodes, edges, del, selected, current, k).nodes[i]
            == if nodes[i].kind == Bank && ClearedBy(nodes, edges, del, nodes[i].id, k)
               then SetProp(nodes[i], ClearedKey(del.kind), ClearedValue(del.kind))
               else nodes[i]
  {
    if k > 0 {
      var r := ReverseFlags(nodes, edges, del, selected, current, k - 1);
      ReverseFlagsShape(nodes, edges, del, selected, current, k - 1);
      ReverseFlagsAt(nodes, edges, del, selected, current, k - 1, i);
      ReverseStepAt(nodes, edges, del, selected, r, k - 1, i);
      ClearedByStep(nodes, edges, del, nodes[i].id, k);
      var key := ClearedKey(del.kind);
      var v := ClearedValue(del.kind);
      assert SetProp(SetProp(nodes[i], key, v), key, v) == SetProp(nodes[i], key, v);
    }
  }

  /**
   * The selection after the first `k` edges: the selected bank's copy in
   * the working list when some of those edges clear it, otherwise the
   * selection as it was.
   */
  lemma {:induction false} ReverseFlagsSelection(nodes: seq<Node>, edges: seq<Edge>, del: Node, selected: Option<Node>,
                                                 current: Option<Node>, k: nat)
    requires NodeIdsUnique(nodes) && k <= |edges| && selected.Some?
    ensures var i := IndexOfNode(nodes, selected.value.id);
            var r := ReverseFlags(nodes, edges, del, selected, current, k);
            r.selected == if i >= 0 && nodes[i].kind == Bank && ClearedBy(nodes, edges, del, nodes[i].id, k)
                          then Some(r.nodes[i])
                          else current
  {
    if k > 0 {
      var i := IndexOfNode(nodes, selected.value.id);
      var r := ReverseFlags(nodes, edges, del, selected, current, k - 1);
      ReverseFlagsShape(nodes, edges, del, selected, current, k - 1);
      ReverseFlagsSelection(nodes, edges, del, selected, current, k - 1);
      ReverseStepSelection(nodes, edges, del, selected, r, k - 1);
      if i >= 0 {
        ReverseStepAt(nodes, edges, del, selected, r, k - 1, i);
        ClearedByStep(nodes, edges, del, nodes[i].id, k);
      }
    }
  }

  /**
   * The flag each bank ends with: a deleted credit line resets `creditLine`
   * to null on every bank an incident edge joins it to; a deleted
   * projection or street resets its flag on such a bank only when no other
   * edge still joins that bank to a different node of the same type. Every
   * other node, and every node when a bank is deleted, is left as it was.
   */
  lemma ReverseEffect(nodes: seq<Node>, edges: seq<Edge>, del: Node, selected: Option<Node>, current: Option<Node>, i: int)
    requires NodeIdsUnique(nodes) && 0 <= i < |nodes|
    ensures var r := Reverse(nodes, edges, del, selected, current);
            && SameShape(nodes, r.nodes)
            && (del.kind == Bank ==> r == Reversal(nodes, current))
            && (nodes[i].kind == Bank && ClearedBy(nodes, edges, del, nodes[i].id, |edges|) ==>
                  && Get(r.nodes[i].props, ClearedKey(del.kind)) == ClearedValue(del.kind)
                  && forall key :: key != ClearedKey(del.kind) ==> Get(r.nodes[i].props, key) == Get(nodes[i].props, key))
            && (nodes[i].kind != Bank || !ClearedBy(nodes, edges, del, nodes[i].id, |edges|) ==> r.nodes[i] == nodes[i])
  {
    if del.kind != Bank {
      ReverseFlagsShape(nodes, edges, del, selected, current, |edges|);
      ReverseFlagsAt(nodes, edges, del, selected, current, |edges|, i);
    }
  }

  /** Which edges clear a bank, by the type of the deleted node. */
  lemma ClearedByCases(nodes: seq<Node>, edges: seq<Edge>, del: Node, bankId: string)
    ensures del.kind == Bank ==> !ClearedBy(nodes, edges, del, bankId, |edges|)
    ensures del.kind == CreditLine ==>
              (ClearedBy(nodes, edges, del, bankId, |edges|)
               <==> exists j :: 0 <= j < |edges| && Incident(edges[j], del.id) && OtherEnd(edges[j], del.id) == bankId)
    ensures del.kind == Projection || del.kind == Street ==>
              (ClearedBy(nodes, edges, del, bankId, |edges|)
               <==> exists j :: 0 <= j < |edges| && Incident(edges[j], del.id) && OtherEnd(edges[j], del.id) == bankId
                                && !HasOtherLink(nodes, edges, j, bankId, del.id, del.kind))
  {
    if exists j :: 0 <= j < |edges| && Incident(edges[j], del.id) && OtherEnd(edges[j], del.id) == bankId {
      var j :| 0 <= j < |edges| && Incident(edges[j], del.id) && OtherEnd(edges[j], del.id) == bankId;
      if del.kind == CreditLine {
        assert Clears(nodes, edges, del, bankId, j);
      }
    }
    if exists j :: 0 <= j < |edges| && Incident(edges[j], del.id) && OtherEnd(edges[j], del.id) == bankId
                   && !HasOtherLink(nodes, edges, j, bankId, del.id, del.kind) {
      var j :| 0 <= j < |edges| && Incident(edges[j], del.id) && OtherEnd(edges[j], del.id) == bankId
               && !HasOtherLink(nodes, edges, j, bankId, del.id, del.kind);
      if del.kind == Projection || del.kind == Street {
        assert Clears(nodes, edges, del, bankId, j);
      }
    }
  }

  /**
   * The selection after the reversal: when the selected node is a bank
   * that loses its flag, its reset copy; otherwise as it was.
   */
  lemma ReverseSelection(nodes: seq<Node>, edges: seq<Edge>, del: Node, selected: Option<Node>, current: Option<Node>)
    requires NodeIdsUnique(nodes) && selected.Some?
    ensures var i := IndexOfNode(nodes, selected.value.id);
            Reverse(nodes, edges, del, selected, current).selected
            == if i >= 0 && nodes[i].kind == Bank && ClearedBy(nodes, edges, del, nodes[i].id, |edges|)
               then Some(SetProp(nodes[i], ClearedKey(del.kind), ClearedValue(del.kind)))
               else current
  {
    if del.kind != Bank {
      ReverseFlagsSelection(nodes, edges, del, selected, current, |edges|);
      var i := IndexOfNode(nodes, selected.value.id);
      if i >= 0 {
        ReverseFlagsAt(nodes, edges, del, selected, current, |edges|, i);
      }
    } else {
      var i := IndexOfNode(nodes, selected.value.id);
      if i >= 0 {
        ClearedByCases(nodes, edges, del, nodes[i].id);
      }
    }
  }

  /** The node list without the nodes carrying the id. */
  function RemoveNode(nodes: seq<Node>, id: string): (r: seq<Node>)
    ensures forall n :: n in r <==> n in nodes && n.id != id
  {
    KeepNodes(nodes, OtherThan(id))
  }

  function OtherThan(id: string): Node -> bool
  {
    (n: Node) => n.id != id
  }

  function NotIncident(id: string): Edge -> bool
  {
    (e: Edge) => !Incident(e, id)
  }

  function IdOtherThan(id: string): Edge -> bool
  {
    (e: Edge) => e.id != id
  }

  /** The edge list without the edges incident to the id. */
  function RemoveIncidentEdges(edges: seq<Edge>, id: string): (r: seq<Edge>)
    ensures forall e :: e in r <==> e in edges && !Incident(e, id)
  {
    KeepEdges(edges, NotIncident(id))
  }

  /**
   * Deleting a node keeps the structural rules: a remaining edge is not
   * incident to the deleted node, so its bank survives, with its type.
   */
  lemma DeleteKeepsInvariant(nodes: seq<Node>, edges: seq<Edge>, reversed: seq<Node>, id: string)
    requires GraphInvariant(nodes, edges) && SameShape(nodes, reversed)
    ensures GraphInvariant(RemoveNode(reversed, id), RemoveIncidentEdges(edges, id))
  {
    var rn := RemoveNode(reversed, id);
    var re := RemoveIncidentEdges(edges, id);
    CountKindSameShape(nodes, reversed, Street);
    CountKindKeep(reversed, OtherThan(id), Street);
    NoDuplicatePairsKeep(edges, NotIncident(id));
    forall j | 0 <= j < |re| ensures TouchesBank(rn, re[j]) {
      assert re[j] in edges;
      var k :| 0 <= k < |edges| && edges[k] == re[j];
      var n :| n in nodes && n.kind == Bank && Incident(edges[k], n.id);
      var i :| 0 <= i < |nodes| && nodes[i] == n;
      assert reversed[i] in reversed && reversed[i].id != id;
      assert reversed[i] in rn;
    }
  }

  /**
   * The `forEach` over the edges incident to the deleted node, on an array
   * copy of the node list; the selection is written through as it goes.
   */
  method ReverseDerivedFlags(g: Graph, nodes: seq<Node>, edges: seq<Edge>, node: Node, selected: Option<Node>)
    returns (updatedNodes: seq<Node>)
    modifies g`selectedNode
    ensures var r := ReverseFlags(nodes, edges, node, selected, old(g.selectedNode), |edges|);
            updatedNodes == r.nodes && g.selectedNode == r.selected
  {
    ghost var current := g.selectedNode;
    var work := new Node[|nodes|](i requires 0 <= i < |nodes| => nodes[i]);
    assert work[..] == nodes;
    var j := 0;
    while j < |edges|
      invariant 0 <= j <= |edges|
      invariant work[..] == ReverseFlags(nodes, edges, node, selected, current, j).nodes
      invariant g.selectedNode == ReverseFlags(nodes, edges, node, selected, current, j).selected
    {
      ReverseAt(g, work, nodes, edges, node, selected, j);
      j := j + 1;
    }
    updatedNodes := work[..];
  }

  /** The `forEach` body for the edge at index `j`, on the working array. */
  method ReverseAt(g: Graph, work: array<Node>, nodes: seq<Node>, edges: seq<Edge>, node: Node, selected: Option<Node>, j: int)
    requires 0 <= j < |edges|
    modifies work, g`selectedNode
    ensures var r := ReverseStep(nodes, edges, node, selected, Reversal(old(work[..]), old(g.selectedNode)), j);
            work[..] == r.nodes && g.selectedNode == r.selected
  {
    var edge := edges[j];
    if Incident(edge, node.id) {
      var connectedNodeId := OtherEnd(edge, node.id);
      var connectedNodeIndex := IndexOfNode(work[..], connectedNodeId);
      if connectedNodeIndex >= 0 && work[connectedNodeIndex].kind == Bank {
        var connectedNode := work[connectedNodeIndex];
        if Clears(nodes, edges, node, connectedNodeId, j) {
          var updatedNode := SetProp(connectedNode, ClearedKey(node.kind), ClearedValue(node.kind));
          work[connectedNodeIndex] := updatedNode;
          if selected.Some? && selected.value.id == connectedNode.id {
            g.selectedNode := Some(updatedNode);
          }
        }
      }
    }
  }

  /**
   * `deleteNodeAtPosition`: without a node under the point nothing changes;
   * otherwise the flags are reversed on a working copy, the node and every
   * edge incident to it removed, and the selection cleared when it was the
   * deleted node.
   */
  method DeleteNodeAtPosition(g: Graph, p: Point, selected: Option<Node>) returns (deleted: bool)
    modifies g`nodes, g`edges, g`selectedNode
    ensures TopmostNodeAt(old(g.nodes), p).None? ==>
              !deleted && g.nodes == old(g.nodes) && g.edges == old(g.edges) && g.selectedNode == old(g.selectedNode)
    ensures TopmostNodeAt(old(g.nodes), p).Some? ==>
              var del := TopmostNodeAt(old(g.nodes), p).value;
              var rev := Reverse(old(g.nodes), old(g.edges), del, selected, old(g.selectedNode));
              && deleted
              && g.nodes == RemoveNode(rev.nodes, del.id)
              && g.edges == RemoveIncidentEdges(old(g.edges), del.id)
              && (forall e :: e in g.edges ==> e.source != del.id && e.target != del.id)
              && g.selectedNode == if selected.Some? && selected.value.id == del.id then None else rev.selected
    ensures old(GraphInvariant(g.nodes, g.edges)) ==> GraphInvariant(g.nodes, g.edges)
    ensures old(NodeIdsUnique(g.nodes) && DerivedFlagsTrack(g.nodes, g.edges) && OneCreditLinePerBank(g.nodes, g.edges))
            ==> DerivedFlagsTrack(g.nodes, g.edges)
  {
    var found := FindNodeAtPosition(g.nodes, p);
    if found.None? {
      return false;
    }
    DeleteNode(g, found.value, selected);
    deleted := true;
  }

  /** The deletion itself, once a node was hit. */
  method DeleteNode(g: Graph, node: Node, selected: Option<Node>)
    modifies g`nodes, g`edges, g`selectedNode
    ensures var rev := Reverse(old(g.nodes), old(g.edges), node, selected, old(g.selectedNode));
            && g.nodes == RemoveNode(rev.nodes, node.id)
            && g.edges == RemoveIncidentEdges(old(g.edges), node.id)
            && (forall e :: e in g.edges ==> e.source != node.id && e.target != node.id)
            && g.selectedNode == if selected.Some? && selected.value.id == node.id then None else rev.selected
    ensures old(GraphInvariant(g.nodes, g.edges)) ==> GraphInvariant(g.nodes, g.edges)
    ensures old(NodeIdsUnique(g.nodes) && DerivedFlagsTrack(g.nodes, g.edges) && OneCreditLinePerBank(g.nodes, g.edges))
            && node in old(g.nodes)
            ==> DerivedFlagsTrack(g.nodes, g.edges)
  {
    DeleteKeepsRules(g.nodes, g.edges, node, selected, g.selectedNode);
    var nodes := g.nodes;
    var edges := g.edges;
    var updatedNodes := nodes;
    if node.kind == CreditLine || node.kind == Projection || node.kind == Street {
      updatedNodes := ReverseDerivedFlags(g, nodes, edges, node, selected);
      ReverseFlagsShape(nodes, edges, node, selected, old(g.selectedNode), |edges|);
    }
    g.nodes := RemoveNode(updatedNodes, node.id);
    g.edges := RemoveIncidentEdges(edges, node.id);
    if selected.Some? && selected.value.id == node.id {
      g.selectedNode := None;
    }
    if GraphInvariant(nodes, edges) {
      DeleteKeepsInvariant(nodes, edges, updatedNodes, node.id);
    }
  }

  /**
   * `deleteEdgeAtPosition`: the edges with the hit edge's id go, the nodes
   * stay, and the edge selection is cleared when it was that edge.
   */
  method DeleteEdgeAtPosition(g: Graph, p: Point, offset: (Point, Point) -> Point, selectedEdge: Option<Edge>)
    returns (deleted: bool)
    modifies g`edges, g`selectedEdge
    ensures var hit := FindEdgeAtPosition(old(g.edges), g.nodes, p, offset);
            && (deleted <==> hit.Some?)
            && (hit.None? ==> g.edges == old(g.edges) && g.selectedEdge == old(g.selectedEdge))
            && (hit.Some? ==> g.edges == RemoveEdgeId(old(g.edges), hit.value.id)
                              && g.selectedEdge == if selectedEdge.Some? && selectedEdge.value.id == hit.value.id
                                                   then None else old(g.selectedEdge))
    ensures old(GraphInvariant(g.nodes, g.edges)) ==> GraphInvariant(g.nodes, g.edges)
  {
    var edge := FindEdgeAtPosition(g.edges, g.nodes, p, offset);
    if edge.None? {
      return false;
    }
    DeleteEdge(g, edge.value.id, selectedEdge);
    deleted := true;
  }

  /** The deletion itself, once an edge was hit. */
  method DeleteEdge(g: Graph, id: string, selectedEdge: Option<Edge>)
    modifies g`edges, g`selectedEdge
    ensures g.edges == RemoveEdgeId(old(g.edges), id)
    ensures g.selectedEdge == if selectedEdge.Some? && selectedEdge.value.id == id then None else old(g.selectedEdge)
    ensures old(GraphInvariant(g.nodes, g.edges)) ==> GraphInvariant(g.nodes, g.edges)
  {
    if GraphInvariant(g.nodes, g.edges) {
      RemoveEdgeKeepsInvariant(g.nodes, g.edges, id);
    }
    g.edges := RemoveEdgeId(g.edges, id);
    if selectedEdge.Some? && selectedEdge.value.id == id {
      g.selectedEdge := None;
    }
  }

  /** The edge list without the edges carrying the id. */
  function RemoveEdgeId(edges: seq<Edge>, id: string): (r: seq<Edge>)
    ensures forall e :: e in r <==> e in edges && e.id != id
  {
    KeepEdges(edges, IdOtherThan(id))
  }

  /** Removing edges keeps the structural rules. */
  lemma RemoveEdgeKeepsInvariant(nodes: seq<Node>, edges: seq<Edge>, id: string)
    requires GraphInvariant(nodes, edges)
    ensures GraphInvariant(nodes, RemoveEdgeId(edges, id))
  {
    var re := RemoveEdgeId(edges, id);
    NoDuplicatePairsKeep(edges, IdOtherThan(id));
    forall j | 0 <= j < |re| ensures TouchesBank(nodes, re[j]) {
      assert re[j] in edges;
      var k :| 0 <= k < |edges| && edges[k] == re[j];
    }
  }

  // ---------------------------------------------------------------------
  // The derived flags after a node deletion

  /** Some node of type `kind` other than the one with id `d` is joined to `x`. */
  predicate LinkedExcept(nodes: seq<Node>, edges: seq<Edge>, x: string, kind: NodeType, d: string)
  {
    exists n :: n in nodes && n.kind == kind && n.id != d && JoinedTo(edges, x, n.id)
  }

  /** Only the banks of the working copy differ from the original list. */
  predicate BanksOnlyChanged(nodes: seq<Node>, rev: seq<Node>)
  {
    SameKinds(nodes, rev) && forall i :: 0 <= i < |nodes| && nodes[i].kind != Bank ==> rev[i] == nodes[i]
  }

  /** The non-bank nodes left are the original ones but the deleted one. */
  lemma NonBankAfterDelete(nodes: seq<Node>, rev: seq<Node>, d: string, n: Node)
    requires BanksOnlyChanged(nodes, rev) && n.kind != Bank
    ensures n in RemoveNode(rev, d) <==> n in nodes && n.id != d
  {
    if n in rev {
      var i :| 0 <= i < |rev| && rev[i] == n;
      assert nodes[i] in nodes;
    }
    if n in nodes {
      var i :| 0 <= i < |nodes| && nodes[i] == n;
      assert rev[i] in rev;
    }
  }

  /** Between two nodes that stay, the edges that stay join what they joined. */
  lemma JoinedAfterDelete(edges: seq<Edge>, d: string, x: string, y: string)
    requires x != d && y != d
    ensures JoinedTo(RemoveIncidentEdges(edges, d), x, y) <==> JoinedTo(edges, x, y)
  {
    if JoinedTo(edges, x, y) {
      var e :| e in edges && Incident(e, x) && OtherEnd(e, x) == y;
      assert e in RemoveIncidentEdges(edges, d);
    }
  }

  /** After the deletion a node is linked to a type exactly when a node of it other than the deleted one was. */
  lemma LinkedAfterDelete(nodes: seq<Node>, edges: seq<Edge>, rev: seq<Node>, d: string, x: string, kind: NodeType)
    requires BanksOnlyChanged(nodes, rev) && kind != Bank && x != d
    ensures Linked(RemoveNode(rev, d), RemoveIncidentEdges(edges, d), x, kind) <==> LinkedExcept(nodes, edges, x, kind, d)
  {
    if Linked(RemoveNode(rev, d), RemoveIncidentEdges(edges, d), x, kind) {
      var n :| n in RemoveNode(rev, d) && n.kind == kind && JoinedTo(RemoveIncidentEdges(edges, d), x, n.id);
      NonBankAfterDelete(nodes, rev, d, n);
      JoinedAfterDelete(edges, d, x, n.id);
    }
    if LinkedExcept(nodes, edges, x, kind, d) {
      var n :| n in nodes && n.kind == kind && n.id != d && JoinedTo(edges, x, n.id);
      NonBankAfterDelete(nodes, rev, d, n);
      JoinedAfterDelete(edges, d, x, n.id);
    }
  }

  /** Leaving out the deleted node changes nothing when it is not a linked node of that type. */
  lemma LinkedExceptDeleted(nodes: seq<Node>, edges: seq<Edge>, del: Node, x: string, kind: NodeType)
    requires NodeIdsUnique(nodes) && del in nodes && (del.kind != kind || !JoinedTo(edges, x, del.id))
    ensures LinkedExcept(nodes, edges, x, kind, del.id) <==> Linked(nodes, edges, x, kind)
  {
    if Linked(nodes, edges, x, kind) {
      var n :| n in nodes && n.kind == kind && JoinedTo(edges, x, n.id);
      var i :| 0 <= i < |nodes| && nodes[i] == n;
      var k :| 0 <= k < |nodes| && nodes[k] == del;
      assert n.id != del.id;
    }
  }

  /** The source's "other link" test is the link to another node of the type, whichever edge is skipped. */
  lemma OtherLinkIsLinkedExcept(nodes: seq<Node>, edges: seq<Edge>, del: Node, b: string, j: int)
    requires NodeIdsUnique(nodes) && 0 <= j < |edges|
    requires Incident(edges[j], del.id) && OtherEnd(edges[j], del.id) == b && b != del.id
    ensures HasOtherLink(nodes, edges, j, b, del.id, del.kind) <==> LinkedExcept(nodes, edges, b, del.kind, del.id)
  {
    if HasOtherLink(nodes, edges, j, b, del.id, del.kind) {
      var k :| 0 <= k < |edges| && k != j && Incident(edges[k], b)
               && var other := OtherEnd(edges[k], b);
                  other != del.id && FindNode(nodes, other).Some? && FindNode(nodes, other).value.kind == del.kind;
      var n := FindNode(nodes, OtherEnd(edges[k], b)).value;
      assert edges[k] in edges;
      assert JoinedTo(edges, b, n.id);
    }
    if LinkedExcept(nodes, edges, b, del.kind, del.id) {
      var n :| n in nodes && n.kind == del.kind && n.id != del.id && JoinedTo(edges, b, n.id);
      var e :| e in edges && Incident(e, b) && OtherEnd(e, b) == n.id;
      var k :| 0 <= k < |edges| && edges[k] == e;
      FindListed(nodes, n);
      assert OtherEnd(edges[j], b) == del.id;
      assert k != j;
    }
  }

  /** A deleted node joined to the bank gives an edge the reversal looks at. */
  lemma JoinedEdge(edges: seq<Edge>, del: Node, b: string) returns (j: int)
    requires JoinedTo(edges, b, del.id)
    ensures 0 <= j < |edges| && Incident(edges[j], del.id) && OtherEnd(edges[j], del.id) == b
  {
    JoinedToSym(edges, b, del.id);
    var e :| e in edges && Incident(e, del.id) && OtherEnd(e, del.id) == b;
    j :| 0 <= j < |edges| && edges[j] == e;
  }

  /** An edge the reversal looks at joins the bank to the deleted node. */
  lemma ClearedByJoined(nodes: seq<Node>, edges: seq<Edge>, del: Node, b: string)
    requires ClearedBy(nodes, edges, del, b, |edges|)
    ensures JoinedTo(edges, b, del.id)
  {
    var j :| 0 <= j < |edges| && Clears(nodes, edges, del, b, j);
    assert edges[j] in edges;
    JoinedToSym(edges, b, del.id);
  }

  /** One boolean flag of a bank that stays, after the reversal and the deletion. */
  lemma DeleteKeepsBoolFlag(nodes: seq<Node>, edges: seq<Edge>, rev: seq<Node>, del: Node, i: int,
                            kind: NodeType, key: string)
    requires NodeIdsUnique(nodes) && del in nodes && BanksOnlyChanged(nodes, rev)
    requires 0 <= i < |nodes| && nodes[i].kind == Bank && nodes[i].id != del.id
    requires (kind == Projection && key == "projectionAware") || (kind == Street && key == "streetCover")
    requires Get(nodes[i].props, key) == Bool(Linked(nodes, edges, nodes[i].id, kind))
    requires Get(rev[i].props, key)
             == if del.kind == kind && ClearedBy(nodes, edges, del, nodes[i].id, |edges|) then Bool(false)
                else Get(nodes[i].props, key)
    ensures Get(rev[i].props, key) == Bool(Linked(RemoveNode(rev, del.id), RemoveIncidentEdges(edges, del.id), rev[i].id, kind))
  {
    var b := nodes[i].id;
    LinkedAfterDelete(nodes, edges, rev, del.id, b, kind);
    if ClearedBy(nodes, edges, del, b, |edges|) {
      ClearedByJoined(nodes, edges, del, b);
    }
    if del.kind == kind && JoinedTo(edges, b, del.id) {
      var j := JoinedEdge(edges, del, b);
      OtherLinkIsLinkedExcept(nodes, edges, del, b, j);
      ClearedByCases(nodes, edges, del, b);
      if ClearedBy(nodes, edges, del, b, |edges|) {
        var j' :| 0 <= j' < |edges| && Incident(edges[j'], del.id) && OtherEnd(edges[j'], del.id) == b
                  && !HasOtherLink(nodes, edges, j', b, del.id, del.kind);
        OtherLinkIsLinkedExcept(nodes, edges, del, b, j');
      }
    } else {
      LinkedExceptDeleted(nodes, edges, del, b, kind);
    }
  }

  /** With one credit line per bank, a bank joined to the deleted credit line has no other. */
  lemma LoneCreditLine(nodes: seq<Node>, edges: seq<Edge>, b: Node, del: Node)
    requires OneCreditLinePerBank(nodes, edges) && b in nodes && del in nodes
    requires b.kind == Bank && del.kind == CreditLine && JoinedTo(edges, b.id, del.id)
    ensures !LinkedExcept(nodes, edges, b.id, CreditLine, del.id)
  {
  }

  /** The `creditLine` property of a bank that stays, after the reversal and the deletion. */
  lemma DeleteKeepsCreditLine(nodes: seq<Node>, edges: seq<Edge>, rev: seq<Node>, del: Node, i: int)
    requires NodeIdsUnique(nodes) && del in nodes && BanksOnlyChanged(nodes, rev)
    requires 0 <= i < |nodes| && nodes[i].kind == Bank && nodes[i].id != del.id
    requires del.kind == CreditLine && JoinedTo(edges, nodes[i].id, del.id) ==>
               !LinkedExcept(nodes, edges, nodes[i].id, CreditLine, del.id)
    requires if Linked(nodes, edges, nodes[i].id, CreditLine) then NamesLinkedCreditLine(nodes, edges, nodes[i])
             else Get(nodes[i].props, "creditLine") == Null
    requires Get(rev[i].props, "creditLine")
             == if del.kind == CreditLine && ClearedBy(nodes, edges, del, nodes[i].id, |edges|) then Null
                else Get(nodes[i].props, "creditLine")
    ensures var rn := RemoveNode(rev, del.id);
            var re := RemoveIncidentEdges(edges, del.id);
            if Linked(rn, re, rev[i].id, CreditLine) then NamesLinkedCreditLine(rn, re, rev[i])
            else Get(rev[i].props, "creditLine") == Null
  {
    var b := nodes[i];
    var rn := RemoveNode(rev, del.id);
    var re := RemoveIncidentEdges(edges, del.id);
    LinkedAfterDelete(nodes, edges, rev, del.id, b.id, CreditLine);
    if del.kind == CreditLine && JoinedTo(edges, b.id, del.id) {
      var j := JoinedEdge(edges, del, b.id);
      assert Clears(nodes, edges, del, b.id, j);
    } else {
      if ClearedBy(nodes, edges, del, b.id, |edges|) {
        ClearedByJoined(nodes, edges, del, b.id);
      }
      LinkedExceptDeleted(nodes, edges, del, b.id, CreditLine);
      if Linked(nodes, edges, b.id, CreditLine) {
        var c :| c in nodes && c.kind == CreditLine && JoinedTo(edges, b.id, c.id)
                 && Get(b.props, "creditLine") == Get(c.props, "name");
        var k :| 0 <= k < |nodes| && nodes[k] == del;
        var m :| 0 <= m < |nodes| && nodes[m] == c;
        assert c.id != del.id;
        NonBankAfterDelete(nodes, rev, del.id, c);
        JoinedAfterDelete(edges, del.id, b.id, c.id);
        assert c in rn && JoinedTo(re, rev[i].id, c.id);
      }
    }
  }

  /** The reversal writes banks only. */
  lemma ReverseBanksOnly(nodes: seq<Node>, edges: seq<Edge>, del: Node, selected: Option<Node>, current: Option<Node>)
    requires NodeIdsUnique(nodes)
    ensures BanksOnlyChanged(nodes, Reverse(nodes, edges, del, selected, current).nodes)
  {
    forall i | 0 <= i < |nodes|
      ensures Reverse(nodes, edges, del, selected, current).nodes[i].id == nodes[i].id
      ensures Reverse(nodes, edges, del, selected, current).nodes[i].kind == nodes[i].kind
      ensures nodes[i].kind != Bank ==> Reverse(nodes, edges, del, selected, current).nodes[i] == nodes[i]
    {
      ReverseEffect(nodes, edges, del, selected, current, i);
    }
  }

  /** One property of the node at index `i` after the reversal. */
  lemma ReversedProp(nodes: seq<Node>, edges: seq<Edge>, del: Node, selected: Option<Node>,
                     current: Option<Node>, i: int, key: string)
    requires NodeIdsUnique(nodes) && 0 <= i < |nodes| && nodes[i].kind == Bank
    ensures Get(Reverse(nodes, edges, del, selected, current).nodes[i].props, key)
            == if key == ClearedKey(del.kind) && ClearedBy(nodes, edges, del, nodes[i].id, |edges|)
               then ClearedValue(del.kind) else Get(nodes[i].props, key)
  {
    ReverseEffect(nodes, edges, del, selected, current, i);
  }

  /** A bank that stays still tracks its neighbours after the reversal `rev` and the deletion. */
  lemma DeleteKeepsBankTrack(nodes: seq<Node>, edges: seq<Edge>, rev: seq<Node>, del: Node, i: int)
    requires NodeIdsUnique(nodes) && del in nodes && OneCreditLinePerBank(nodes, edges) && BanksOnlyChanged(nodes, rev)
    requires 0 <= i < |nodes| && nodes[i].kind == Bank && nodes[i].id != del.id
    requires BankFlagsTrack(nodes, edges, nodes[i])
    requires Get(rev[i].props, "projectionAware")
             == if del.kind == Projection && ClearedBy(nodes, edges, del, nodes[i].id, |edges|) then Bool(false)
                else Get(nodes[i].props, "projectionAware")
    requires Get(rev[i].props, "streetCover")
             == if del.kind == Street && ClearedBy(nodes, edges, del, nodes[i].id, |edges|) then Bool(false)
                else Get(nodes[i].props, "streetCover")
    requires Get(rev[i].props, "creditLine")
             == if del.kind == CreditLine && ClearedBy(nodes, edges, del, nodes[i].id, |edges|) then Null
                else Get(nodes[i].props, "creditLine")
    ensures BankFlagsTrack(RemoveNode(rev, del.id), RemoveIncidentEdges(edges, del.id), rev[i])
  {
    if del.kind == CreditLine && JoinedTo(edges, nodes[i].id, del.id) {
      assert nodes[i] in nodes;
      LoneCreditLine(nodes, edges, nodes[i], del);
    }
    DeleteKeepsBoolFlag(nodes, edges, rev, del, i, Projection, "projectionAware");
    DeleteKeepsBoolFlag(nodes, edges, rev, del, i, Street, "streetCover");
    DeleteKeepsCreditLine(nodes, edges, rev, del, i);
  }

  /** `DeleteKeepsBankTrack` for the reversal the deletion computes. */
  lemma DeleteKeepsBankAt(nodes: seq<Node>, edges: seq<Edge>, del: Node, selected: Option<Node>,
                          current: Option<Node>, i: int)
    requires NodeIdsUnique(nodes) && del in nodes && OneCreditLinePerBank(nodes, edges)
    requires 0 <= i < |nodes| && nodes[i].kind == Bank && nodes[i].id != del.id
    requires BankFlagsTrack(nodes, edges, nodes[i])
    ensures var rev := Reverse(nodes, edges, del, selected, current).nodes;
            BankFlagsTrack(RemoveNode(rev, del.id), RemoveIncidentEdges(edges, del.id), rev[i])
  {
    var rev := Reverse(nodes, edges, del, selected, current).nodes;
    ReverseBanksOnly(nodes, edges, del, selected, current);
    ClearedByCases(nodes, edges, del, nodes[i].id);
    ReversedProp(nodes, edges, del, selected, current, i, "projectionAware");
    ReversedProp(nodes, edges, del, selected, current, i, "streetCover");
    ReversedProp(nodes, edges, del, selected, current, i, "creditLine");
    DeleteKeepsBankTrack(nodes, edges, rev, del, i);
  }

  /**
   * `deleteNodeAtPosition` keeps every remaining bank's derived properties
   * tracking its neighbours, as long as no bank was joined to two credit
   * lines: a deleted credit line nulls `creditLine`, and a deleted
   * projection or street resets its flag exactly when it was the bank's
   * last link of that type.
   */
  lemma DeleteKeepsDerivedFlags(nodes: seq<Node>, edges: seq<Edge>, del: Node, selected: Option<Node>, current: Option<Node>)
    requires NodeIdsUnique(nodes) && del in nodes && DerivedFlagsTrack(nodes, edges) && OneCreditLinePerBank(nodes, edges)
    ensures DerivedFlagsTrack(RemoveNode(Reverse(nodes, edges, del, selected, current).nodes, del.id),
                              RemoveIncidentEdges(edges, del.id))
  {
    var rn := RemoveNode(Reverse(nodes, edges, del, selected, current).nodes, del.id);
    forall b | b in rn && b.kind == Bank ensures BankFlagsTrack(rn, RemoveIncidentEdges(edges, del.id), b) {
      DeleteKeepsBank(nodes, edges, del, selected, current, b);
    }
  }

  /** `DeleteKeepsDerivedFlags` for one bank left after the deletion. */
  lemma DeleteKeepsBank(nodes: seq<Node>, edges: seq<Edge>, del: Node, selected: Option<Node>, current: Option<Node>,
                        b: Node)
    requires NodeIdsUnique(nodes) && del in nodes && DerivedFlagsTrack(nodes, edges) && OneCreditLinePerBank(nodes, edges)
    requires b in RemoveNode(Reverse(nodes, edges, del, selected, current).nodes, del.id) && b.kind == Bank
    ensures BankFlagsTrack(RemoveNode(Reverse(nodes, edges, del, selected, current).nodes, del.id),
                           RemoveIncidentEdges(edges, del.id), b)
  {
    var i := BankLeftOrigin(nodes, edges, del, selected, current, b);
    DeleteKeepsBankAt(nodes, edges, del, selected, current, i);
  }

  /** A bank left after the deletion sits where a listed bank other than the deleted node sat. */
  lemma BankLeftOrigin(nodes: seq<Node>, edges: seq<Edge>, del: Node, selected: Option<Node>, current: Option<Node>,
                       b: Node) returns (i: int)
    requires NodeIdsUnique(nodes)
    requires b in RemoveNode(Reverse(nodes, edges, del, selected, current).nodes, del.id) && b.kind == Bank
    ensures 0 <= i < |nodes| && nodes[i] in nodes && nodes[i].kind == Bank && nodes[i].id != del.id
    ensures Reverse(nodes, edges, del, selected, current).nodes[i] == b
  {
    var rev := Reverse(nodes, edges, del, selected, current).nodes;
    ReverseBanksOnly(nodes, edges, del, selected, current);
    i :| 0 <= i < |rev| && rev[i] == b;
  }

  // ---------------------------------------------------------------------
  // Where the source lets the derived flags fall behind

  /**
   * `deleteEdgeAtPosition` removes the edge and touches no node: deleting
   * the only edge between a bank and its projection leaves
   * `projectionAware` true on a bank with no projection left.
   */
  lemma DeleteEdgeLeavesProjectionFlag()
    ensures var bank := Node("bank-1", 0.0, 0.0, Bank, map["creditLine" := Null, "projectionAware" := Bool(true),
                                                            "streetCover" := Bool(false)]);
            var proj := Node("proj-1", 100.0, 0.0, Projection, map["name" := Str("P_GSCO_1")]);
            var e := Edge("bank-1-proj-1", "bank-1", "proj-1", map[]);
            && DerivedFlagsTrack([bank, proj], [e])
            && !DerivedFlagsTrack([bank, proj], RemoveEdgeId([e], e.id))
  {
    var bank := Node("bank-1", 0.0, 0.0, Bank, map["creditLine" := Null, "projectionAware" := Bool(true),
                                                    "streetCover" := Bool(false)]);
    var proj := Node("proj-1", 100.0, 0.0, Projection, map["name" := Str("P_GSCO_1")]);
    var e := Edge("bank-1-proj-1", "bank-1", "proj-1", map[]);
    var nodes := [bank, proj];
    assert JoinedTo([e], bank.id, proj.id) by {
      assert e in [e];
    }
    assert Linked(nodes, [e], bank.id, Projection) by {
      assert proj in nodes;
    }
    assert BankFlagsTrack(nodes, [e], bank);
    var left := RemoveEdgeId([e], e.id);
    assert !Linked(nodes, left, bank.id, Projection);
    assert bank in nodes && !BankFlagsTrack(nodes, left, bank);
  }

  /** Every credit line of the list carries a name. */
  predicate CreditLinesNamed(nodes: seq<Node>)
  {
    forall n :: n in nodes && n.kind == CreditLine ==> Get(n.props, "name") != Null
  }

  /** Deleting keeps every credit line left named. */
  lemma DeleteKeepsCreditLinesNamed(nodes: seq<Node>, rev: seq<Node>, d: string)
    requires CreditLinesNamed(nodes) && BanksOnlyChanged(nodes, rev)
    ensures CreditLinesNamed(RemoveNode(rev, d))
  {
    forall n | n in RemoveNode(rev, d) && n.kind == CreditLine ensures Get(n.props, "name") != Null {
      NonBankAfterDelete(nodes, rev, d, n);
    }
  }

  /**
   * The live connect lets a bank reach two credit lines. Deleting either
   * one then nulls `creditLine`, although the bank is still joined to the
   * other, whose name is not null: the flags no longer track.
   */
  lemma DeleteOneOfTwoCreditLines(nodes: seq<Node>, edges: seq<Edge>, b: Node, keep: Node, del: Node,
                                  selected: Option<Node>, current: Option<Node>)
    requires NodeIdsUnique(nodes) && CreditLinesNamed(nodes) && b in nodes && keep in nodes && del in nodes
    requires b.kind == Bank && keep.kind == CreditLine && del.kind == CreditLine && keep.id != del.id
    requires JoinedTo(edges, b.id, keep.id) && JoinedTo(edges, b.id, del.id)
    ensures !DerivedFlagsTrack(RemoveNode(Reverse(nodes, edges, del, selected, current).nodes, del.id),
                               RemoveIncidentEdges(edges, del.id))
  {
    var rev := Reverse(nodes, edges, del, selected, current).nodes;
    var rn := RemoveNode(rev, del.id);
    var re := RemoveIncidentEdges(edges, del.id);
    var i :| 0 <= i < |nodes| && nodes[i] == b;
    var k :| 0 <= k < |nodes| && nodes[k] == del;
    assert b.id != del.id;
    var j := JoinedEdge(edges, del, b.id);
    assert Clears(nodes, edges, del, b.id, j);
    ReversedProp(nodes, edges, del, selected, current, i, "creditLine");
    ReverseBanksOnly(nodes, edges, del, selected, current);
    DeleteKeepsCreditLinesNamed(nodes, rev, del.id);
    assert rev[i] in rn && rev[i].kind == Bank;
    LinkedAfterDelete(nodes, edges, rev, del.id, b.id, CreditLine);
    assert LinkedExcept(nodes, edges, b.id, CreditLine, del.id);
    assert !BankFlagsTrack(rn, re, rev[i]);
  }

  /**
   * The reversal writes only derived properties, and the deletion drops
   * nodes, so deleting keeps ids and names distinct and the id counters
   * ahead.
   */
  lemma DeleteKeepsAllocation(nodes: seq<Node>, edges: seq<Edge>, del: Node, selected: Option<Node>,
                              current: Option<Node>, c: NodeManager.Counters)
    requires NodeManager.Allocation(nodes, c)
    ensures NodeManager.Allocation(RemoveNode(Reverse(nodes, edges, del, selected, current).nodes, del.id), c)
  {
    var rev := Reverse(nodes, edges, del, selected, current).nodes;
    forall i | 0 <= i < |nodes|
      ensures rev[i].id == nodes[i].id && rev[i].kind == nodes[i].kind
      ensures Get(rev[i].props, "name") == Get(nodes[i].props, "name")
      ensures Get(rev[i].props, "bankId") == Get(nodes[i].props, "bankId")
    {
      ReverseEffect(nodes, edges, del, selected, current, i);
    }
    NodeManager.SameNamesKeepAllocation(nodes, rev, c);
    NodeManager.KeepNodesKeepsAllocation(rev, OtherThan(del.id), c);
  }

  /** Deleting a node and its incident edges keeps every edge running between listed nodes. */
  lemma DeleteKeepsEdgesEnd(nodes: seq<Node>, edges: seq<Edge>, rev: seq<Node>, d: string)
    requires EdgesEndAtNodes(nodes, edges) && SameKinds(nodes, rev)
    ensures EdgesEndAtNodes(RemoveNode(rev, d), RemoveIncidentEdges(edges, d))
    ensures EdgesEndAtNodes(nodes, RemoveEdgeId(edges, d))
  {
    SameKindsKeepEdgesEnd(nodes, rev, edges);
    forall e | e in RemoveIncidentEdges(edges, d)
      ensures HasNode(RemoveNode(rev, d), e.source) && HasNode(RemoveNode(rev, d), e.target)
    {
      var a :| a in rev && a.id == e.source;
      var b :| b in rev && b.id == e.target;
      assert a in RemoveNode(rev, d) && b in RemoveNode(rev, d);
    }
  }

  /** The derived flags survive a node deletion whenever one credit line per bank held before it. */
  lemma DeleteKeepsRules(nodes: seq<Node>, edges: seq<Edge>, del: Node, selected: Option<Node>, current: Option<Node>)
    ensures NodeIdsUnique(nodes) && DerivedFlagsTrack(nodes, edges) && OneCreditLinePerBank(nodes, edges) && del in nodes
            ==> DerivedFlagsTrack(RemoveNode(Reverse(nodes, edges, del, selected, current).nodes, del.id),
                                  RemoveIncidentEdges(edges, del.id))
  {
    if NodeIdsUnique(nodes) && DerivedFlagsTrack(nodes, edges) && OneCreditLinePerBank(nodes, edges) && del in nodes {
      DeleteKeepsDerivedFlags(nodes, edges, del, selected, current);
    }
  }
}
