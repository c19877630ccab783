// The stricter alternate connection engine
// (src/operations/NodeConnectorUpdated.js). Its edge factory is the live
// connector's `CreateEdge`; its one-way connect adds the one-credit-line and
// one-projection rules and writes `streetAware` for a street; its two-way
// connect has its own error texts, no entity rule and no street effect.

module NodeConnectorUpdated {
  import opened GraphTypes
  import opened Strings
  import opened GraphInvariants
  import opened GraphStateService
  import opened NodeConnector
  import opened Editor

  const BIDIRECTIONAL_NON_BANK_ERROR: string :=
    "Error: At least one node must be a Bank node for bidirectional connections"
  const BIDIRECTIONAL_EXISTS_ERROR: string := "Error: Bidirectional connection already exists"

  /** `creditLine !== undefined && creditLine !== null && creditLine !== ''`. */
  predicate HasExistingCreditLine(bank: Node)
  {
    var v := Get(bank.props, "creditLine");
    v != Undef && v != Null && v != Str("")
  }

  /** Some edge joins the bank to a node of the list that has type `kind`. */
  predicate BankLinkedTo(nodes: seq<Node>, edges: seq<Edge>, bankId: string, kind: NodeType)
  {
    exists j :: 0 <= j < |edges| && Incident(edges[j], bankId)
      && var other := FindNode(nodes, OtherEnd(edges[j], bankId));
         other.Some? && other.value.kind == kind
  }

  function CreditLineTakenError(bank: Node): string
  {
    "Error: Bank node '" + Text(Get(bank.props, "bankId")) + "' is already connected to a credit line"
  }

  function ProjectionTakenError(bank: Node): string
  {
    "Error: Bank node '" + Text(Get(bank.props, "bankId")) + "' is already connected to a projection node"
  }

  /** The checks of this `connectNodes`, in order. */
  function CheckConnect(nodes: seq<Node>, edges: seq<Edge>, s: Node, t: Node): Check
  {
    var bank := BankEnd(s, t);
    if EdgeExists(edges, s.id, t.id) then Fail(None)
    else if s.kind != Bank && t.kind != Bank then Fail(Some(NON_BANK_ERROR))
    else if Joins(s, t, CreditLine) && (HasExistingCreditLine(bank) || BankLinkedTo(nodes, edges, bank.id, CreditLine))
    then Fail(Some(CreditLineTakenError(bank)))
    else if Joins(s, t, Projection) && BankLinkedTo(nodes, edges, bank.id, Projection)
    then Fail(Some(ProjectionTakenError(bank)))
    else match EntityMismatch(s, t)
      case Some(m) => Fail(Some(m))
      case None => Pass
  }

  /**
   * The one-credit-line rule: a bank↔credit line connect goes ahead only if
   * the bank's `creditLine` is undefined, null or empty and no edge joins the
   * bank to a credit line. The one-projection rule: a bank↔projection connect
   * goes ahead only if no edge joins the bank to a projection, and the
   * entity rule is applied only after that.
   */
  lemma CheckConnectRules(nodes: seq<Node>, edges: seq<Edge>, s: Node, t: Node)
    ensures var c := CheckConnect(nodes, edges, s, t);
            var bank := BankEnd(s, t);
            && (c == Fail(None) <==> HasEdge(edges, s.id, t.id))
            && (Joins(s, t, CreditLine) && !HasEdge(edges, s.id, t.id) ==>
                  (c.Pass? <==> !HasExistingCreditLine(bank) && !BankLinkedTo(nodes, edges, bank.id, CreditLine)))
            && (Joins(s, t, Projection) && !HasEdge(edges, s.id, t.id) && BankLinkedTo(nodes, edges, bank.id, Projection) ==>
                  c == Fail(Some(ProjectionTakenError(bank))))
            && (Joins(s, t, Projection) && !HasEdge(edges, s.id, t.id) && !BankLinkedTo(nodes, edges, bank.id, Projection) ==>
                  (c.Pass? <==> EntityMismatch(s, t).None?))
  {
  }

  /** Every connect this engine accepts the live engine accepts too. */
  lemma StricterThanLive(nodes: seq<Node>, edges: seq<Edge>, s: Node, t: Node)
    ensures CheckConnect(nodes, edges, s, t).Pass? ==> NodeConnector.CheckConnect(edges, s, t).Pass?
  {
  }

  /**
   * The test suite's second-credit-line scenario: with BANK1 already joined
   * to CL1, joining it to CL2 is refused here, while the live engine
   * accepts it.
   */
  lemma SecondCreditLineRefused()
    ensures var bank := Node("bank-1", 100.0, 100.0, Bank, map["bankId" := Str("BANK1"), "creditLine" := Null]);
            var cl1 := Node("cl-1", 200.0, 100.0, CreditLine, map["name" := Str("CL1")]);
            var cl2 := Node("cl-2", 200.0, 200.0, CreditLine, map["name" := Str("CL2")]);
            var edges := [Edge("bank-1-cl-1", "bank-1", "cl-1", map[])];
            && CheckConnect([bank, cl1, cl2], edges, bank, cl2) == Fail(Some(CreditLineTakenError(bank)))
            && NodeConnector.CheckConnect(edges, bank, cl2).Pass?
  {
    var bank := Node("bank-1", 100.0, 100.0, Bank, map["bankId" := Str("BANK1"), "creditLine" := Null]);
    var cl1 := Node("cl-1", 200.0, 100.0, CreditLine, map["name" := Str("CL1")]);
    var cl2 := Node("cl-2", 200.0, 200.0, CreditLine, map["name" := Str("CL2")]);
    var nodes := [bank, cl1, cl2];
    var edges := [Edge("bank-1-cl-1", "bank-1", "cl-1", map[])];
    assert IndexOfNode(nodes, "cl-1") == 1;
    assert Incident(edges[0], bank.id) && OtherEnd(edges[0], bank.id) == "cl-1";
    assert BankLinkedTo(nodes, edges, bank.id, CreditLine);
    assert !HasEdge(edges, "bank-1", "cl-2") by {
      assert forall e :: e in edges ==> e.target == "cl-1";
    }
  }

  /** `updatedNodes.find(n => n.id === selected.id)` differs from the snapshot. */
  predicate RefreshesSelection(selected: Option<Node>, updated: seq<Node>)
  {
    selected.Some? && FindNode(updated, selected.value.id).Some? && FindNode(updated, selected.value.id) != selected
  }

  /** With distinct ids, a node of a same-shape list is found at its own index. */
  lemma FindAtIndex(nodes: seq<Node>, updated: seq<Node>, i: int)
    requires NodeIdsUnique(nodes) && SameShape(nodes, updated) && 0 <= i < |nodes|
    ensures FindNode(updated, nodes[i].id) == Some(updated[i])
  {
    var r := IndexOfNode(updated, nodes[i].id);
    assert r != -1 by {
      assert updated[i].id == nodes[i].id;
    }
  }

  /**
   * For a current snapshot of a node of a list with distinct ids, the
   * selection is refreshed exactly when marking changed that node, and then
   * the node is the connection's bank.
   */
  lemma RefreshExactlyWhenChanged(nodes: seq<Node>, s: Node, t: Node, streetKey: Option<string>, i: int)
    requires NodeIdsUnique(nodes) && 0 <= i < |nodes|
    ensures var marked := MarkBank(nodes, s, t, streetKey);
            && (RefreshesSelection(Some(nodes[i]), marked) <==> marked[i] != nodes[i])
            && (RefreshesSelection(Some(nodes[i]), marked) ==> nodes[i].id == BankEnd(s, t).id)
  {
    var marked := MarkBank(nodes, s, t, streetKey);
    MarkBankOnlyBank(nodes, s, t, streetKey);
    FindAtIndex(nodes, marked, i);
  }

  /**
   * This `connectNodes`: on passed checks the edge is appended, the bank's
   * derived property written (`streetAware` for a street), and the
   * selection replaced by its re-read copy when that differs.
   */
  method ConnectNodes(g: Graph, start: Node, end: Node, selected: Option<Node>) returns (ok: bool)
    modifies g`nodes, g`edges, g`error, g`selectedNode
    ensures var c := CheckConnect(old(g.nodes), old(g.edges), start, end);
            && (ok <==> c.Pass?)
            && (c.Fail? ==> g.nodes == old(g.nodes) && g.edges == old(g.edges)
                            && g.selectedNode == old(g.selectedNode)
                            && g.error == if c.error.Some? then c.error else old(g.error))
    ensures ok ==> g.edges == old(g.edges) + [CreateEdge(start, end)]
    ensures ok ==> g.nodes == MarkBank(old(g.nodes), start, end, Some("streetAware"))
    ensures ok ==> g.error == old(g.error)
    ensures ok ==> g.selectedNode == if RefreshesSelection(selected, g.nodes)
                                     then FindNode(g.nodes, selected.value.id)
                                     else old(g.selectedNode)
    ensures old(GraphInvariant(g.nodes, g.edges)) && start in old(g.nodes) && end in old(g.nodes)
            ==> GraphInvariant(g.nodes, g.edges)
    ensures old(NodeIdsUnique(g.nodes) && OneCreditLinePerBank(g.nodes, g.edges)) && start in old(g.nodes) && end in old(g.nodes)
            ==> OneCreditLinePerBank(g.nodes, g.edges)
    ensures old(NodeIdsUnique(g.nodes) && DerivedFlagsTrack(g.nodes, g.edges)) && start in old(g.nodes) && end in old(g.nodes)
            && !Joins(start, end, Street)
            ==> DerivedFlagsTrack(g.nodes, g.edges)
  {
    if EdgeExists(g.edges, start.id, end.id) {
      return false;
    }
    if start.kind != Bank && end.kind != Bank {
      g.error := Some(NON_BANK_ERROR);
      return false;
    }
    var bank := BankEnd(start, end);
    if Joins(start, end, CreditLine)
       && (HasExistingCreditLine(bank) || BankLinkedTo(g.nodes, g.edges, bank.id, CreditLine)) {
      g.error := Some(CreditLineTakenError(bank));
      return false;
    }
    if Joins(start, end, Projection) {
      if BankLinkedTo(g.nodes, g.edges, bank.id, Projection) {
        g.error := Some(ProjectionTakenError(bank));
        return false;
      }
      var mismatch := EntityMismatch(start, end);
      if mismatch.Some? {
        g.error := mismatch;
        return false;
      }
    }
    StricterThanLive(g.nodes, g.edges, start, end);
    ConnectKeepsRules(g.nodes, g.edges, start, end);
    AppendConnection(g, start, end, selected);
    ok := true;
  }

  /** The part of `connectNodes` after its checks passed: the edge goes in and the bank is marked. */
  method AppendConnection(g: Graph, start: Node, end: Node, selected: Option<Node>)
    requires NodeConnector.CheckConnect(g.edges, start, end).Pass?
    modifies g`nodes, g`edges, g`selectedNode
    ensures g.edges == old(g.edges) + [CreateEdge(start, end)]
    ensures g.nodes == MarkBank(old(g.nodes), start, end, Some("streetAware"))
    ensures g.selectedNode == if RefreshesSelection(selected, g.nodes)
                              then FindNode(g.nodes, selected.value.id)
                              else old(g.selectedNode)
    ensures old(GraphInvariant(g.nodes, g.edges)) && start in old(g.nodes) && end in old(g.nodes)
            ==> GraphInvariant(g.nodes, g.edges)
  {
    var newEdge := CreateEdge(start, end);
    var updatedNodes := MarkBank(g.nodes, start, end, Some("streetAware"));
    if GraphInvariant(g.nodes, g.edges) && start in g.nodes && end in g.nodes {
      ConnectKeepsInvariant(g.nodes, g.edges, start, end, Some("streetAware"));
    }
    g.nodes := updatedNodes;
    g.edges := g.edges + [newEdge];
    if selected.Some? {
      var updatedSelectedNode := FindNode(updatedNodes, selected.value.id);
      if updatedSelectedNode.Some? && updatedSelectedNode != selected {
        g.selectedNode := updatedSelectedNode;
      }
    }
  }

  /** The checks of this `connectNodesBidirectional`: a bank end, then not both directions present. */
  function CheckBidirectional(edges: seq<Edge>, s: Node, t: Node): Check
  {
    if s.kind != Bank && t.kind != Bank then Fail(Some(BIDIRECTIONAL_NON_BANK_ERROR))
    else if BidirectionalConnectionExists(edges, s.id, t.id) then Fail(Some(BIDIRECTIONAL_EXISTS_ERROR))
    else Pass
  }

  /**
   * The two-way connect refuses two non-banks and an existing pair with
   * their own texts, and needs no entity match; once it passes, at least
   * one direction is missing, so it always adds an edge.
   */
  lemma CheckBidirectionalCases(edges: seq<Edge>, s: Node, t: Node)
    ensures CheckBidirectional(edges, s, t) == Fail(Some(BIDIRECTIONAL_NON_BANK_ERROR)) <==>
              s.kind != Bank && t.kind != Bank
    ensures CheckBidirectional(edges, s, t) == Fail(Some(BIDIRECTIONAL_EXISTS_ERROR)) <==>
              (s.kind == Bank || t.kind == Bank) && HasEdge(edges, s.id, t.id) && HasEdge(edges, t.id, s.id)
    ensures CheckBidirectional(edges, s, t).Pass? ==> MissingEdges(edges, s, t) != []
  {
    assert BIDIRECTIONAL_NON_BANK_ERROR != BIDIRECTIONAL_EXISTS_ERROR by {
      assert |BIDIRECTIONAL_NON_BANK_ERROR| != |BIDIRECTIONAL_EXISTS_ERROR|;
    }
    MissingEdgesCompletePair(edges, s, t);
  }

  /**
   * This `connectNodesBidirectional`: on passed checks the missing
   * directions are appended, only a credit line or projection flag is
   * written on the bank, the selection is refreshed as in `ConnectNodes`,
   * and the result is true.
   */
  method ConnectNodesBidirectional(g: Graph, start: Node, end: Node, selected: Option<Node>) returns (ok: bool)
    modifies g`nodes, g`edges, g`error, g`selectedNode
    ensures var c := CheckBidirectional(old(g.edges), start, end);
            && (ok <==> c.Pass?)
            && (c.Fail? ==> g.nodes == old(g.nodes) && g.edges == old(g.edges)
                            && g.selectedNode == old(g.selectedNode) && g.error == c.error)
    ensures ok ==> g.edges == old(g.edges) + MissingEdges(old(g.edges), start, end)
    ensures ok ==> g.nodes == MarkBank(old(g.nodes), start, end, None)
    ensures ok ==> g.error == old(g.error)
    ensures ok ==> g.selectedNode == if RefreshesSelection(selected, g.nodes)
                                     then FindNode(g.nodes, selected.value.id)
                                     else old(g.selectedNode)
    ensures old(GraphInvariant(g.nodes, g.edges)) && start in old(g.nodes) && end in old(g.nodes) && start.id != end.id
            ==> GraphInvariant(g.nodes, g.edges)
    ensures old(NodeIdsUnique(g.nodes) && DerivedFlagsTrack(g.nodes, g.edges)) && start in old(g.nodes) && end in old(g.nodes)
            && !Joins(start, end, Street)
            ==> DerivedFlagsTrack(g.nodes, g.edges)
  {
    if NodeIdsUnique(g.nodes) && DerivedFlagsTrack(g.nodes, g.edges) && start in g.nodes && end in g.nodes
       && !Joins(start, end, Street) {
      ConnectKeepsDerivedFlagsOffStreet(g.nodes, g.edges, start, end);
    }
    if start.kind != Bank && end.kind != Bank {
      g.error := Some(BIDIRECTIONAL_NON_BANK_ERROR);
      return false;
    }
    if BidirectionalConnectionExists(g.edges, start.id, end.id) {
      g.error := Some(BIDIRECTIONAL_EXISTS_ERROR);
      return false;
    }
    var forwardEdgeExists := EdgeExists(g.edges, start.id, end.id);
    var reverseEdgeExists := EdgeExists(g.edges, end.id, start.id);
    var newEdges: seq<Edge> := [];
    if !forwardEdgeExists {
      newEdges := newEdges + [CreateEdge(start, end)];
    }
    if !reverseEdgeExists {
      newEdges := newEdges + [CreateEdge(end, start)];
    }
    assert newEdges == MissingEdges(g.edges, start, end);
    var updatedNodes := MarkBank(g.nodes, start, end, None);
    if GraphInvariant(g.nodes, g.edges) && start in g.nodes && end in g.nodes && start.id != end.id {
      BidirectionalKeepsInvariant(g.nodes, g.edges, start, end, None);
    }
    g.nodes := updatedNodes;
    if |newEdges| > 0 {
      g.edges := g.edges + newEdges;
    }
    if selected.Some? {
      var updatedSelectedNode := FindNode(updatedNodes, selected.value.id);
      if updatedSelectedNode.Some? && updatedSelectedNode != selected {
        g.selectedNode := updatedSelectedNode;
      }
    }
    ok := true;
  }

  // ---------------------------------------------------------------------
  // The derived flags under this engine

  /** The edges the two-way connect appends join its two ends, and afterwards the two are joined. */
  lemma MissingEdgesJoin(edges: seq<Edge>, s: Node, t: Node)
    ensures OnlyJoins(MissingEdges(edges, s, t), s.id, t.id)
    ensures JoinedTo(edges + MissingEdges(edges, s, t), s.id, t.id)
  {
    MissingEdgesCompletePair(edges, s, t);
    var e :| e in edges + MissingEdges(edges, s, t) && e.source == s.id && e.target == t.id;
    assert Incident(e, s.id) && OtherEnd(e, s.id) == t.id;
  }

  /**
   * Off the street case this engine's flags are the live ones: a passed
   * one-way connect, or a passed two-way connect, between listed nodes of
   * a list with distinct ids keeps the derived properties tracking.
   */
  lemma ConnectKeepsDerivedFlagsOffStreet(nodes: seq<Node>, edges: seq<Edge>, s: Node, t: Node)
    requires NodeIdsUnique(nodes) && DerivedFlagsTrack(nodes, edges) && s in nodes && t in nodes
    requires !Joins(s, t, Street)
    ensures CheckConnect(nodes, edges, s, t).Pass? ==>
              DerivedFlagsTrack(MarkBank(nodes, s, t, Some("streetAware")), edges + [CreateEdge(s, t)])
    ensures CheckBidirectional(edges, s, t).Pass? ==>
              DerivedFlagsTrack(MarkBank(nodes, s, t, None), edges + MissingEdges(edges, s, t))
  {
    assert MarkBank(nodes, s, t, Some("streetAware")) == MarkBank(nodes, s, t, Some("streetCover"));
    assert MarkBank(nodes, s, t, None) == MarkBank(nodes, s, t, Some("streetCover"));
    if CheckConnect(nodes, edges, s, t).Pass? {
      StricterThanLive(nodes, edges, s, t);
      ConnectKeepsDerivedFlags(nodes, edges, s, t);
    }
    if CheckBidirectional(edges, s, t).Pass? {
      MissingEdgesJoin(edges, s, t);
      ConnectKeepsTrack(nodes, edges, MissingEdges(edges, s, t), s, t);
    }
  }

  /**
   * A bank↔street connect here writes `streetAware`, not `streetCover`, so
   * `streetCover` stays false on a bank that had no street and now has one.
   */
  lemma StreetConnectLeavesCover(nodes: seq<Node>, edges: seq<Edge>, b: Node, st: Node)
    requires NodeIdsUnique(nodes) && DerivedFlagsTrack(nodes, edges) && b in nodes && st in nodes
    requires b.kind == Bank && st.kind == Street && !Linked(nodes, edges, b.id, Street)
    ensures !DerivedFlagsTrack(MarkBank(nodes, b, st, Some("streetAware")), edges + [CreateEdge(b, st)])
  {
    var i :| 0 <= i < |nodes| && nodes[i] == b;
    assert BankFlagsTrack(nodes, edges, b);
    var one := [CreateEdge(b, st)];
    assert CreateEdge(b, st) in edges + one;
    assert JoinedTo(edges + one, b.id, st.id);
    MarkBankOnlyBank(nodes, b, st, Some("streetAware"));
    LinkedAfterConnect(nodes, edges, one, b, st, Some("streetAware"), b.id, Street);
    var m := MarkBank(nodes, b, st, Some("streetAware"));
    assert m[i] in m && !BankFlagsTrack(m, edges + one, m[i]);
  }

  /**
   * The two-way connect writes no street property at all, so likewise
   * `streetCover` stays false on a bank that now has a street.
   */
  lemma BidirectionalStreetLeavesCover(nodes: seq<Node>, edges: seq<Edge>, b: Node, st: Node)
    requires NodeIdsUnique(nodes) && DerivedFlagsTrack(nodes, edges) && b in nodes && st in nodes
    requires b.kind == Bank && st.kind == Street && !Linked(nodes, edges, b.id, Street)
    ensures !DerivedFlagsTrack(MarkBank(nodes, b, st, None), edges + MissingEdges(edges, b, st))
  {
    assert BankFlagsTrack(nodes, edges, b);
    assert MarkBank(nodes, b, st, None) == nodes;
    MissingEdgesJoin(edges, b, st);
    LinkedAfterConnect(nodes, edges, MissingEdges(edges, b, st), b, st, None, b.id, Street);
    assert !BankFlagsTrack(nodes, edges + MissingEdges(edges, b, st), b);
  }

  /** A credit line joined to the bank is what the source's credit-line check finds. */
  lemma JoinedIsBankLinked(nodes: seq<Node>, edges: seq<Edge>, bankId: string, c: Node)
    requires NodeIdsUnique(nodes) && c in nodes && JoinedTo(edges, bankId, c.id)
    ensures BankLinkedTo(nodes, edges, bankId, c.kind)
  {
    var e :| e in edges && Incident(e, bankId) && OtherEnd(e, bankId) == c.id;
    var j :| 0 <= j < |edges| && edges[j] == e;
    FindListed(nodes, c);
  }

  /** A new edge between a bank and a credit line is a bank↔credit line connect with those two ends. */
  lemma NewCreditLineEnds(nodes: seq<Node>, s: Node, t: Node, b: Node, c: Node)
    requires NodeIdsUnique(nodes) && s in nodes && t in nodes && b in nodes && c in nodes
    requires b.kind == Bank && c.kind == CreditLine
    requires (b.id == s.id && c.id == t.id) || (b.id == t.id && c.id == s.id)
    ensures Joins(s, t, CreditLine) && BankEnd(s, t) == b && PartnerEnd(s, t) == c
  {
    var si :| 0 <= si < |nodes| && nodes[si] == s;
    var ti :| 0 <= ti < |nodes| && nodes[ti] == t;
    var bi :| 0 <= bi < |nodes| && nodes[bi] == b;
    var ci :| 0 <= ci < |nodes| && nodes[ci] == c;
  }

  /** The case analysis of `ConnectKeepsOneCreditLine` for one bank and two credit lines. */
  lemma OneCreditLineCase(nodes: seq<Node>, edges: seq<Edge>, s: Node, t: Node, b: Node, c: Node, d: Node)
    requires NodeIdsUnique(nodes) && OneCreditLinePerBank(nodes, edges) && s in nodes && t in nodes
    requires Joins(s, t, CreditLine) ==> !BankLinkedTo(nodes, edges, BankEnd(s, t).id, CreditLine)
    requires b in nodes && c in nodes && d in nodes && b.kind == Bank && c.kind == CreditLine && d.kind == CreditLine
    requires JoinedTo(edges, b.id, c.id) || (b.id == s.id && c.id == t.id) || (b.id == t.id && c.id == s.id)
    requires JoinedTo(edges, b.id, d.id) || (b.id == s.id && d.id == t.id) || (b.id == t.id && d.id == s.id)
    ensures c.id == d.id
  {
    var oldC := JoinedTo(edges, b.id, c.id);
    var oldD := JoinedTo(edges, b.id, d.id);
    if !oldC {
      NewCreditLineEnds(nodes, s, t, b, c);
      if oldD {
        JoinedIsBankLinked(nodes, edges, b.id, d);
      } else {
        NewCreditLineEnds(nodes, s, t, b, d);
      }
    } else if !oldD {
      NewCreditLineEnds(nodes, s, t, b, d);
      JoinedIsBankLinked(nodes, edges, b.id, c);
    }
  }

  /** A node of the marked list comes from a node of the original with the same id and type. */
  lemma MarkedOrigin(nodes: seq<Node>, s: Node, t: Node, streetKey: Option<string>, n: Node) returns (o: Node)
    requires n in MarkBank(nodes, s, t, streetKey)
    ensures o in nodes && o.id == n.id && o.kind == n.kind
  {
    var m := MarkBank(nodes, s, t, streetKey);
    MarkBankOnlyBank(nodes, s, t, streetKey);
    var i :| 0 <= i < |m| && m[i] == n;
    o := nodes[i];
  }

  /**
   * A bank and two credit lines of the new list, joined after the connect,
   * come from listed nodes that were joined before or are the new edge's ends.
   */
  lemma ConnectJoinOrigin(nodes: seq<Node>, edges: seq<Edge>, s: Node, t: Node, b: Node, c: Node, d: Node)
    returns (o: Node)
    requires NodeIdsUnique(nodes) && s in nodes && t in nodes
    requires var m := MarkBank(nodes, s, t, Some("streetAware"));
             b in m && c in m && d in m && b.kind == Bank && c.kind == CreditLine && d.kind == CreditLine
    requires JoinedTo(edges + [CreateEdge(s, t)], b.id, c.id) && JoinedTo(edges + [CreateEdge(s, t)], b.id, d.id)
    ensures o in nodes && o.id == b.id && o.kind == Bank && c in nodes && d in nodes
    ensures JoinedTo(edges, b.id, c.id) || (b.id == s.id && c.id == t.id) || (b.id == t.id && c.id == s.id)
    ensures JoinedTo(edges, b.id, d.id) || (b.id == s.id && d.id == t.id) || (b.id == t.id && d.id == s.id)
  {
    var key := Some("streetAware");
    o := MarkedOrigin(nodes, s, t, key, b);
    MarkBankNonBanks(nodes, s, t, key, c);
    MarkBankNonBanks(nodes, s, t, key, d);
    JoinedAfterAppend(edges, [CreateEdge(s, t)], s.id, t.id, b.id, c.id);
    JoinedAfterAppend(edges, [CreateEdge(s, t)], s.id, t.id, b.id, d.id);
  }

  /** `ConnectKeepsOneCreditLine` for one bank and two credit lines of the new list. */
  lemma OneCreditLineAfterConnect(nodes: seq<Node>, edges: seq<Edge>, s: Node, t: Node, b: Node, c: Node, d: Node)
    requires NodeIdsUnique(nodes) && OneCreditLinePerBank(nodes, edges) && s in nodes && t in nodes
    requires Joins(s, t, CreditLine) ==> !BankLinkedTo(nodes, edges, BankEnd(s, t).id, CreditLine)
    requires var m := MarkBank(nodes, s, t, Some("streetAware"));
             b in m && c in m && d in m && b.kind == Bank && c.kind == CreditLine && d.kind == CreditLine
    requires JoinedTo(edges + [CreateEdge(s, t)], b.id, c.id) && JoinedTo(edges + [CreateEdge(s, t)], b.id, d.id)
    ensures c.id == d.id
  {
    var o := ConnectJoinOrigin(nodes, edges, s, t, b, c, d);
    OneCreditLineCase(nodes, edges, s, t, o, c, d);
  }

  /**
   * The one-credit-line rule this engine enforces: a passed connect
   * between listed nodes keeps every bank joined to at most one credit
   * line.
   */
  lemma ConnectKeepsOneCreditLine(nodes: seq<Node>, edges: seq<Edge>, s: Node, t: Node)
    requires NodeIdsUnique(nodes) && OneCreditLinePerBank(nodes, edges) && s in nodes && t in nodes
    requires CheckConnect(nodes, edges, s, t).Pass?
    ensures OneCreditLinePerBank(MarkBank(nodes, s, t, Some("streetAware")), edges + [CreateEdge(s, t)])
  {
    assert Joins(s, t, CreditLine) ==> !BankLinkedTo(nodes, edges, BankEnd(s, t).id, CreditLine);
    OneCreditLineKept(nodes, edges, s, t);
  }

  /** `ConnectKeepsOneCreditLine` once the check's credit-line clause is known. */
  lemma OneCreditLineKept(nodes: seq<Node>, edges: seq<Edge>, s: Node, t: Node)
    requires NodeIdsUnique(nodes) && OneCreditLinePerBank(nodes, edges) && s in nodes && t in nodes
    requires Joins(s, t, CreditLine) ==> !BankLinkedTo(nodes, edges, BankEnd(s, t).id, CreditLine)
    ensures OneCreditLinePerBank(MarkBank(nodes, s, t, Some("streetAware")), edges + [CreateEdge(s, t)])
  {
    var m := MarkBank(nodes, s, t, Some("streetAware"));
    var all := edges + [CreateEdge(s, t)];
    forall b, c, d | b in m && c in m && d in m && b.kind == Bank && c.kind == CreditLine && d.kind == CreditLine
                     && JoinedTo(all, b.id, c.id) && JoinedTo(all, b.id, d.id)
      ensures c.id == d.id
    {
      OneCreditLineAfterConnect(nodes, edges, s, t, b, c, d);
    }
  }

  /** What a passing `connectNodes` keeps: one credit line per bank, and the derived flags off the street case. */
  lemma ConnectKeepsRules(nodes: seq<Node>, edges: seq<Edge>, s: Node, t: Node)
    ensures NodeIdsUnique(nodes) && s in nodes && t in nodes && CheckConnect(nodes, edges, s, t).Pass?
            ==> (OneCreditLinePerBank(nodes, edges)
                 ==> OneCreditLinePerBank(MarkBank(nodes, s, t, Some("streetAware")), edges + [CreateEdge(s, t)]))
                && (DerivedFlagsTrack(nodes, edges) && !Joins(s, t, Street)
                    ==> DerivedFlagsTrack(MarkBank(nodes, s, t, Some("streetAware")), edges + [CreateEdge(s, t)]))
  {
    if NodeIdsUnique(nodes) && s in nodes && t in nodes && CheckConnect(nodes, edges, s, t).Pass? {
      if OneCreditLinePerBank(nodes, edges) {
        ConnectKeepsOneCreditLine(nodes, edges, s, t);
      }
      if DerivedFlagsTrack(nodes, edges) && !Joins(s, t, Street) {
        ConnectKeepsDerivedFlagsOffStreet(nodes, edges, s, t);
      }
    }
  }
}
