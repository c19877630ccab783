// The live connection engine (src/operations/NodeConnector.js): the edge
// factory with its bank-first flow id and cost table, and the one-way and
// two-way connect operations with the bank's derived-flag side effects.

module NodeConnector {
  import opened GraphTypes
  import opened Strings
  import opened GraphConstants
  import opened GraphInvariants
  import opened GraphStateService
  import opened NodeCreator
  import opened Editor
  import NodeManager

  const NON_BANK_ERROR: string := "Error: Cannot connect non-Bank nodes to each other"

  /** One end is a bank and the other has type `kind`, in either direction. */
  predicate Joins(s: Node, t: Node, kind: NodeType)
  {
    (s.kind == Bank && t.kind == kind) || (s.kind == kind && t.kind == Bank)
  }

  /** The bank end of a connection (the start when it is a bank). */
  function BankEnd(s: Node, t: Node): Node
  {
    if s.kind == Bank then s else t
  }

  /** The end opposite to `BankEnd`. */
  function PartnerEnd(s: Node, t: Node): Node
  {
    if s.kind == Bank then t else s
  }

  /** `bankId || (name || 'NODE')` as interpolated into a flow id. */
  function Label(n: Node): string
  {
    var bankId := Get(n.props, "bankId");
    var name := Get(n.props, "name");
    if Truthy(bankId) then Text(bankId) else if Truthy(name) then Text(name) else "NODE"
  }

  /** The flow id `createEdge` writes. */
  function FlowId(s: Node, t: Node): string
  {
    if s.kind == Bank && t.kind == CreditLine then Text(Get(s.props, "bankId")) + "_" + Text(Get(t.props, "name"))
    else if t.kind == Bank && s.kind == CreditLine then Text(Get(t.props, "bankId")) + "_" + Text(Get(s.props, "name"))
    else if s.kind == Bank && t.kind == Projection then Text(Get(s.props, "bankId")) + "_" + Text(Get(t.props, "name"))
    else if t.kind == Bank && s.kind == Projection then Text(Get(t.props, "bankId")) + "_" + Text(Get(s.props, "name"))
    else if s.kind == Bank && t.kind == Street then Text(Get(s.props, "bankId")) + "_STREET"
    else if t.kind == Bank && s.kind == Street then Text(Get(t.props, "bankId")) + "_STREET"
    else Label(s) + "_" + Label(t)
  }

  /** The cost `createEdge` writes. */
  function Cost(s: Node, t: Node): int
  {
    if Joins(s, t, CreditLine) || Joins(s, t, Projection) then BANK_TO_CREDIT_LINE_COST
    else if Joins(s, t, Street) then BANK_TO_STREET_COST
    else DEFAULT_COST
  }

  /** `createEdge(source, target)`. */
  function CreateEdge(s: Node, t: Node): (e: Edge)
    ensures e.id == s.id + "-" + t.id && e.source == s.id && e.target == t.id
    ensures Get(e.props, "flowType") == Str(DEFAULT_FLOW_TYPE)
  {
    Edge(s.id + "-" + t.id, s.id, t.id,
         map["flowId" := Str(FlowId(s, t)), "cost" := Num(Cost(s, t)), "flowType" := Str(DEFAULT_FLOW_TYPE)])
  }

  /**
   * Bank↔credit line and bank↔projection edges carry `bankId_name` and
   * bank↔street edges `bankId_STREET`, whichever end is the source; an
   * edge between any other pair uses each end's bankId, else its name, else
   * "NODE".
   */
  lemma CreateEdgeFlowId(s: Node, t: Node)
    ensures var f := Get(CreateEdge(s, t).props, "flowId");
            var b := BankEnd(s, t);
            var o := PartnerEnd(s, t);
            && ((Joins(s, t, CreditLine) || Joins(s, t, Projection)) ==>
                  f == Str(Text(Get(b.props, "bankId")) + "_" + Text(Get(o.props, "name"))))
            && (Joins(s, t, Street) ==> f == Str(Text(Get(b.props, "bankId")) + "_STREET"))
            && (!Joins(s, t, CreditLine) && !Joins(s, t, Projection) && !Joins(s, t, Street) ==>
                  f == Str(Label(s) + "_" + Label(t)))
  {
  }

  /** For a bank and a non-bank the flow id does not depend on the direction. */
  lemma FlowIdDirectionFree(s: Node, t: Node)
    requires Joins(s, t, CreditLine) || Joins(s, t, Projection) || Joins(s, t, Street)
    ensures Get(CreateEdge(s, t).props, "flowId") == Get(CreateEdge(t, s).props, "flowId")
  {
  }

  /** The fallback label: bankId if truthy, else the name if truthy, else "NODE". */
  lemma LabelFallback(n: Node)
    ensures Truthy(Get(n.props, "bankId")) ==> Label(n) == Text(Get(n.props, "bankId"))
    ensures !Truthy(Get(n.props, "bankId")) && Truthy(Get(n.props, "name")) ==> Label(n) == Text(Get(n.props, "name"))
    ensures !Truthy(Get(n.props, "bankId")) && !Truthy(Get(n.props, "name")) ==> Label(n) == "NODE"
  {
  }

  /** The cost table: 1, 1000 or 4 by the pair of types, the same in both directions. */
  lemma CreateEdgeCost(s: Node, t: Node)
    ensures var c := Get(CreateEdge(s, t).props, "cost");
            && (c == Num(1) <==> Joins(s, t, CreditLine) || Joins(s, t, Projection))
            && (c == Num(1000) <==> Joins(s, t, Street))
            && (c == Num(4) <==> !Joins(s, t, CreditLine) && !Joins(s, t, Projection) && !Joins(s, t, Street))
            && c == Get(CreateEdge(t, s).props, "cost")
  {
  }

  /** The example of the test suite: BANK1 to CL1. */
  lemma CreateEdgeBankToCreditLineExample()
    ensures var e := CreateEdge(CreateBankNode(100.0, 100.0, 1), CreateCreditLineNode(200.0, 100.0, 1));
            e == Edge("bank-1-cl-1", "bank-1", "cl-1",
                      map["flowId" := Str("BANK1_CL1"), "cost" := Num(1), "flowType" := Str("INTRABANK")])
  {
    var b := CreateBankNode(100.0, 100.0, 1);
    var c := CreateCreditLineNode(200.0, 100.0, 1);
    assert NatToString(1) == "1";
    assert b.id == "bank-1" && c.id == "cl-1";
    assert Get(b.props, "bankId") == Str("BANK1") && Get(c.props, "name") == Str("CL1");
    assert FlowId(b, c) == "BANK1_CL1";
    assert Cost(b, c) == 1;
  }

  /** A derived property to write on a bank. */
  datatype Flag = Flag(key: string, value: Value)

  /**
   * The property a connection writes on its bank: the credit line's name,
   * `projectionAware`, or the street flag under `streetKey` (`None` where a
   * variant has no street effect).
   */
  function DerivedFlag(s: Node, t: Node, streetKey: Option<string>): Option<Flag>
  {
    if Joins(s, t, CreditLine) then Some(Flag("creditLine", Get(PartnerEnd(s, t).props, "name")))
    else if Joins(s, t, Projection) then Some(Flag("projectionAware", Bool(true)))
    else if Joins(s, t, Street) && streetKey.Some? then Some(Flag(streetKey.value, Bool(true)))
    else None
  }

  /** `updatedNodes`: the bank's derived property written, every other node as it was. */
  function MarkBank(nodes: seq<Node>, s: Node, t: Node, streetKey: Option<string>): (r: seq<Node>)
    ensures |r| == |nodes|
  {
    match DerivedFlag(s, t, streetKey)
    case None => nodes
    case Some(f) => SetPropWhere(nodes, BankEnd(s, t).id, f.key, f.value)
  }

  /**
   * Marking keeps the shape of the list; only nodes with the bank's id
   * change, and in them only the one derived key.
   */
  lemma MarkBankOnlyBank(nodes: seq<Node>, s: Node, t: Node, streetKey: Option<string>)
    ensures SameShape(nodes, MarkBank(nodes, s, t, streetKey))
    ensures forall i :: 0 <= i < |nodes| && nodes[i].id != BankEnd(s, t).id ==>
              MarkBank(nodes, s, t, streetKey)[i] == nodes[i]
    ensures forall i, k :: 0 <= i < |nodes| && nodes[i].id == BankEnd(s, t).id ==>
              Get(MarkBank(nodes, s, t, streetKey)[i].props, k)
                == match DerivedFlag(s, t, streetKey)
                   case Some(f) => if k == f.key then f.value else Get(nodes[i].props, k)
                   case None => Get(nodes[i].props, k)
  {
  }

  /** The error text of the entity rule, when a bank↔projection pair breaks it. */
  function EntityMismatch(s: Node, t: Node): Option<string>
  {
    if Joins(s, t, Projection) then
      var bank := BankEnd(s, t);
      var entity := EntityOf(Get(PartnerEnd(s, t).props, "name"));
      if Str(entity) != Get(bank.props, "entity") then
        Some("Error: Projection entity (" + entity + ") must match Bank entity ("
             + Text(Get(bank.props, "entity")) + ")")
      else None
    else None
  }

  /** The entity a projection name encodes: its second '_'-separated field. */
  function EntityOf(name: Value): string
  {
    if name.Str? then Field1(name.s) else ""
  }

  /** The outcome of a connect's checks: go ahead, or stop with an optional error. */
  datatype Check = Pass | Fail(error: Option<string>)

  /** The checks of `connectNodes`, in order. */
  function CheckConnect(edges: seq<Edge>, s: Node, t: Node): Check
  {
    if EdgeExists(edges, s.id, t.id) then Fail(None)
    else if s.kind != Bank && t.kind != Bank then Fail(Some(NON_BANK_ERROR))
    else match EntityMismatch(s, t)
      case Some(m) => Fail(Some(m))
      case None => Pass
  }

  /**
   * A connect goes ahead exactly when the same-direction edge is absent, an
   * end is a bank and a bank↔projection pair agrees on the entity; an
   * existing edge stops it silently, two non-banks with the fixed message.
   */
  lemma CheckConnectCases(edges: seq<Edge>, s: Node, t: Node)
    ensures CheckConnect(edges, s, t) == Fail(None) <==> HasEdge(edges, s.id, t.id)
    ensures CheckConnect(edges, s, t) == Fail(Some(NON_BANK_ERROR)) <==>
              !HasEdge(edges, s.id, t.id) && s.kind != Bank && t.kind != Bank
    ensures CheckConnect(edges, s, t).Pass? <==>
              !HasEdge(edges, s.id, t.id) && (s.kind == Bank || t.kind == Bank)
              && (Joins(s, t, Projection) ==>
                    Str(EntityOf(Get(PartnerEnd(s, t).props, "name"))) == Get(BankEnd(s, t).props, "entity"))
  {
    MismatchIsNotNonBank(s, t);
  }

  /** The entity message and the non-bank message differ at their eighth character. */
  lemma MismatchIsNotNonBank(s: Node, t: Node)
    ensures EntityMismatch(s, t) != Some(NON_BANK_ERROR)
  {
    if Joins(s, t, Projection) {
      MessagesDiffer(EntityOf(Get(PartnerEnd(s, t).props, "name")), Text(Get(BankEnd(s, t).props, "entity")));
    }
  }

  lemma MessagesDiffer(entity: string, bankEntity: string)
    ensures "Error: Projection entity (" + entity + ") must match Bank entity (" + bankEntity + ")" != NON_BANK_ERROR
  {
    var prefix := "Error: Projection entity (";
    var m := "Error: Projection entity (" + entity + ") must match Bank entity (" + bankEntity + ")";
    assert m == prefix + (entity + ") must match Bank entity (" + bankEntity + ")");
    assert m[7] == prefix[7] == 'P';
    assert NON_BANK_ERROR[7] == 'C';
  }

  /** A well-formed projection name `PRJ_xxxx` matches a bank exactly when the bank's entity is `xxxx`. */
  lemma EntityRuleOnValidName(bank: Node, prj: Node)
    requires bank.kind == Bank && prj.kind == Projection
    requires var n := Get(prj.props, "name"); n.Str? && ValidProjectionName(n.s)
    ensures EntityMismatch(bank, prj).None? <==> Get(bank.props, "entity") == Str(Get(prj.props, "name").s[4..])
  {
    ValidProjectionNameSuffix(Get(prj.props, "name").s);
  }

  /** Both node types, as `[start.type, end.type].includes(kind)`. */
  predicate TypesInclude(s: Node, t: Node, kind: NodeType)
  {
    s.kind == kind || t.kind == kind
  }

  /** The selection is refreshed when the selected node is the bank a bank↔non-bank connection changed. */
  predicate RefreshesSelection(selected: Option<Node>, s: Node, t: Node)
  {
    selected.Some?
    && TypesInclude(s, t, Bank)
    && (TypesInclude(s, t, CreditLine) || TypesInclude(s, t, Projection) || TypesInclude(s, t, Street))
    && selected.value.id == BankEnd(s, t).id
  }

  /** A refresh happens only for a connection that writes a derived flag on its bank. */
  lemma RefreshOnlyWhenMarked(selected: Option<Node>, s: Node, t: Node, streetKey: Option<string>)
    requires streetKey.Some?
    ensures RefreshesSelection(selected, s, t) <==>
              selected.Some? && DerivedFlag(s, t, streetKey).Some? && selected.value.id == BankEnd(s, t).id
  {
  }

  /**
   * Connecting two nodes of the list keeps the structural rules: the new
   * edge touches the connection's bank, its ordered pair is new, and
   * marking the bank changes no type.
   */
  lemma ConnectKeepsInvariant(nodes: seq<Node>, edges: seq<Edge>, s: Node, t: Node, streetKey: Option<string>)
    requires GraphInvariant(nodes, edges)
    requires s in nodes && t in nodes
    requires CheckConnect(edges, s, t).Pass?
    ensures GraphInvariant(MarkBank(nodes, s, t, streetKey), edges + [CreateEdge(s, t)])
  {
    var marked := MarkBank(nodes, s, t, streetKey);
    MarkBankOnlyBank(nodes, s, t, streetKey);
    AtMostOneStreetSameShape(nodes, marked);
    TouchesBankSameShape(nodes, marked, edges);
    NoDuplicatePairsAppend(edges, CreateEdge(s, t));
    EdgesTouchBankAppend(nodes, marked, edges, CreateEdge(s, t), BankEnd(s, t));
  }

  /** Appending an edge incident to a bank of the list keeps every edge touching a bank. */
  lemma EdgesTouchBankAppend(nodes: seq<Node>, marked: seq<Node>, edges: seq<Edge>, e: Edge, b: Node)
    requires SameShape(nodes, marked)
    requires EdgesTouchBank(marked, edges)
    requires b in nodes && b.kind == Bank && Incident(e, b.id)
    ensures EdgesTouchBank(marked, edges + [e])
  {
    var i :| 0 <= i < |nodes| && nodes[i] == b;
    assert marked[i] in marked;
    assert TouchesBank(marked, e);
    var all := edges + [e];
    forall j | 0 <= j < |all| ensures TouchesBank(marked, all[j]) {
      if j < |edges| {
        assert all[j] == edges[j];
      }
    }
  }

  /**
   * `connectNodes(start, end, …, selectedNode, …)`: on a passed check the
   * new edge is appended, the bank's derived property written (`streetCover`
   * for a street), and a selected bank re-read from the new list.
   */
  method ConnectNodes(g: Graph, start: Node, end: Node, selected: Option<Node>) returns (ok: bool)
    modifies g`nodes, g`edges, g`error, g`selectedNode
    ensures var c := CheckConnect(old(g.edges), start, end);
            && (ok <==> c.Pass?)
            && (c.Fail? ==> g.nodes == old(g.nodes) && g.edges == old(g.edges)
                            && g.selectedNode == old(g.selectedNode)
                            && g.error == if c.error.Some? then c.error else old(g.error))
    ensures ok ==> g.edges == old(g.edges) + [CreateEdge(start, end)]
    ensures ok ==> g.nodes == MarkBank(old(g.nodes), start, end, Some("streetCover"))
    ensures ok ==> g.error == old(g.error)
    ensures ok ==> g.selectedNode == if RefreshesSelection(selected, start, end)
                                     then FindNode(g.nodes, BankEnd(start, end).id)
                                     else old(g.selectedNode)
    ensures old(GraphInvariant(g.nodes, g.edges)) && start in old(g.nodes) && end in old(g.nodes)
            ==> GraphInvariant(g.nodes, g.edges)
    ensures old(NodeIdsUnique(g.nodes) && DerivedFlagsTrack(g.nodes, g.edges)) && start in old(g.nodes) && end in old(g.nodes)
            ==> DerivedFlagsTrack(g.nodes, g.edges)
  {
    if NodeIdsUnique(g.nodes) && DerivedFlagsTrack(g.nodes, g.edges) && start in g.nodes && end in g.nodes
       && CheckConnect(g.edges, start, end).Pass? {
      ConnectKeepsDerivedFlags(g.nodes, g.edges, start, end);
    }
    if EdgeExists(g.edges, start.id, end.id) {
      return false;
    }
    if start.kind != Bank && end.kind != Bank {
      g.error := Some(NON_BANK_ERROR);
      return false;
    }
    var mismatch := EntityMismatch(start, end);
    if mismatch.Some? {
      g.error := mismatch;
      return false;
    }
    var newEdge := CreateEdge(start, end);
    var updatedNodes := MarkBank(g.nodes, start, end, Some("streetCover"));
    if GraphInvariant(g.nodes, g.edges) && start in g.nodes && end in g.nodes {
      ConnectKeepsInvariant(g.nodes, g.edges, start, end, Some("streetCover"));
    }
    g.nodes := updatedNodes;
    if RefreshesSelection(selected, start, end) {
      g.selectedNode := FindNode(updatedNodes, BankEnd(start, end).id);
    }
    g.edges := g.edges + [newEdge];
    ok := true;
  }

  /** The checks of `connectNodesBidirectional`: a bank end, then the entity rule. */
  function CheckBidirectional(s: Node, t: Node): Check
  {
    if s.kind != Bank && t.kind != Bank then Fail(Some(NON_BANK_ERROR))
    else match EntityMismatch(s, t)
      case Some(m) => Fail(Some(m))
      case None => Pass
  }

  /** `newEdges`: the forward edge if absent, then the reverse edge if absent. */
  function MissingEdges(edges: seq<Edge>, s: Node, t: Node): (r: seq<Edge>)
    ensures |r| <= 2
  {
    (if EdgeExists(edges, s.id, t.id) then [] else [CreateEdge(s, t)])
      + (if EdgeExists(edges, t.id, s.id) then [] else [CreateEdge(t, s)])
  }

  /**
   * Only missing directions are added: nothing is added exactly when both
   * already exist, and afterwards both directions exist.
   */
  lemma MissingEdgesCompletePair(edges: seq<Edge>, s: Node, t: Node)
    ensures MissingEdges(edges, s, t) == [] <==> HasEdge(edges, s.id, t.id) && HasEdge(edges, t.id, s.id)
    ensures forall e :: e in MissingEdges(edges, s, t) ==>
              (e == CreateEdge(s, t) && !HasEdge(edges, s.id, t.id))
              || (e == CreateEdge(t, s) && !HasEdge(edges, t.id, s.id))
    ensures var all := edges + MissingEdges(edges, s, t);
            HasEdge(all, s.id, t.id) && HasEdge(all, t.id, s.id)
  {
    var all := edges + MissingEdges(edges, s, t);
    if !HasEdge(edges, s.id, t.id) {
      assert CreateEdge(s, t) in all;
    }
    if !HasEdge(edges, t.id, s.id) {
      assert CreateEdge(t, s) in all;
    }
  }

  /**
   * Adding the missing directions between two distinct nodes of the list
   * keeps the structural rules. (With a node joined to itself both pushes
   * produce the same pair; the gesture never passes the same node twice.)
   */
  lemma BidirectionalKeepsInvariant(nodes: seq<Node>, edges: seq<Edge>, s: Node, t: Node, streetKey: Option<string>)
    requires GraphInvariant(nodes, edges)
    requires s in nodes && t in nodes && s.id != t.id
    requires s.kind == Bank || t.kind == Bank
    ensures GraphInvariant(MarkBank(nodes, s, t, streetKey), edges + MissingEdges(edges, s, t))
  {
    var marked := MarkBank(nodes, s, t, streetKey);
    MarkBankOnlyBank(nodes, s, t, streetKey);
    AtMostOneStreetSameShape(nodes, marked);
    TouchesBankSameShape(nodes, marked, edges);
    var b := BankEnd(s, t);
    var forward := CreateEdge(s, t);
    var backward := CreateEdge(t, s);
    var mid := AppendIfMissing(edges, forward);
    AppendIfMissingKeeps(nodes, marked, edges, forward, b);
    HasEdgeAppendIfMissing(edges, forward, t.id, s.id);
    AppendIfMissingKeeps(nodes, marked, mid, backward, b);
    assert AppendIfMissing(mid, backward) == edges + MissingEdges(edges, s, t);
  }

  /** `edges` with `e` appended unless its ordered pair is already there. */
  function AppendIfMissing(edges: seq<Edge>, e: Edge): seq<Edge>
  {
    if EdgeExists(edges, e.source, e.target) then edges else edges + [e]
  }

  lemma AppendIfMissingKeeps(nodes: seq<Node>, marked: seq<Node>, edges: seq<Edge>, e: Edge, b: Node)
    requires SameShape(nodes, marked)
    requires EdgesTouchBank(marked, edges) && NoDuplicatePairs(edges)
    requires b in nodes && b.kind == Bank && Incident(e, b.id)
    ensures EdgesTouchBank(marked, AppendIfMissing(edges, e)) && NoDuplicatePairs(AppendIfMissing(edges, e))
  {
    if !EdgeExists(edges, e.source, e.target) {
      NoDuplicatePairsAppend(edges, e);
      EdgesTouchBankAppend(nodes, marked, edges, e, b);
    }
  }

  /** Appending an edge for another ordered pair does not change whether a pair is present. */
  lemma HasEdgeAppendIfMissing(edges: seq<Edge>, e: Edge, a: string, c: string)
    requires e.source != a || e.target != c
    ensures HasEdge(AppendIfMissing(edges, e), a, c) <==> HasEdge(edges, a, c)
  {
    if !EdgeExists(edges, e.source, e.target) {
      assert forall f :: f in edges + [e] <==> f in edges || f == e;
    }
  }

  /**
   * `connectNodesBidirectional`: on passed checks the bank's derived
   * property is written and the selection refreshed even when both
   * directions already exist; the missing directions are appended and the
   * result says whether any was.
   */
  method ConnectNodesBidirectional(g: Graph, start: Node, end: Node, selected: Option<Node>) returns (ok: bool)
    modifies g`nodes, g`edges, g`error, g`selectedNode
    ensures var c := CheckBidirectional(start, end);
            && (c.Fail? ==> !ok && g.nodes == old(g.nodes) && g.edges == old(g.edges)
                            && g.selectedNode == old(g.selectedNode) && g.error == c.error)
            && (c.Pass? ==> g.error == old(g.error))
    ensures CheckBidirectional(start, end).Pass? ==>
              && g.nodes == MarkBank(old(g.nodes), start, end, Some("streetCover"))
              && g.edges == old(g.edges) + MissingEdges(old(g.edges), start, end)
              && (ok <==> MissingEdges(old(g.edges), start, end) != [])
              && g.selectedNode == if RefreshesSelection(selected, start, end)
                                   then FindNode(g.nodes, BankEnd(start, end).id)
                                   else old(g.selectedNode)
    ensures old(GraphInvariant(g.nodes, g.edges)) && start in old(g.nodes) && end in old(g.nodes) && start.id != end.id
            ==> GraphInvariant(g.nodes, g.edges)
    ensures old(NodeIdsUnique(g.nodes) && DerivedFlagsTrack(g.nodes, g.edges)) && start in old(g.nodes) && end in old(g.nodes)
            ==> DerivedFlagsTrack(g.nodes, g.edges)
  {
    if NodeIdsUnique(g.nodes) && DerivedFlagsTrack(g.nodes, g.edges) && start in g.nodes && end in g.nodes
       && CheckBidirectional(start, end).Pass? {
      BidirectionalKeepsDerivedFlags(g.nodes, g.edges, start, end);
    }
    if start.kind != Bank && end.kind != Bank {
      g.error := Some(NON_BANK_ERROR);
      return false;
    }
    var mismatch := EntityMismatch(start, end);
    if mismatch.Some? {
      g.error := mismatch;
      return false;
    }
    ok := LinkBothWays(g, start, end, selected);
  }

  /** The part of `connectNodesBidirectional` after its checks passed. */
  method LinkBothWays(g: Graph, start: Node, end: Node, selected: Option<Node>) returns (ok: bool)
    requires start.kind == Bank || end.kind == Bank
    modifies g`nodes, g`edges, g`selectedNode
    ensures g.nodes == MarkBank(old(g.nodes), start, end, Some("streetCover"))
    ensures g.edges == old(g.edges) + MissingEdges(old(g.edges), start, end)
    ensures ok <==> MissingEdges(old(g.edges), start, end) != []
    ensures g.selectedNode == if RefreshesSelection(selected, start, end)
                              then FindNode(g.nodes, BankEnd(start, end).id)
                              else old(g.selectedNode)
    ensures old(GraphInvariant(g.nodes, g.edges)) && start in old(g.nodes) && end in old(g.nodes) && start.id != end.id
            ==> GraphInvariant(g.nodes, g.edges)
  {
    var sourceToTargetExists := EdgeExists(g.edges, start.id, end.id);
    var targetToSourceExists := EdgeExists(g.edges, end.id, start.id);
    var newEdges: seq<Edge> := [];
    if !sourceToTargetExists {
      newEdges := newEdges + [CreateEdge(start, end)];
    }
    if !targetToSourceExists {
      newEdges := newEdges + [CreateEdge(end, start)];
    }
    assert newEdges == MissingEdges(g.edges, start, end);
    var updatedNodes := MarkBank(g.nodes, start, end, Some("streetCover"));
    if GraphInvariant(g.nodes, g.edges) && start in g.nodes && end in g.nodes && start.id != end.id {
      BidirectionalKeepsInvariant(g.nodes, g.edges, start, end, Some("streetCover"));
    }
    g.nodes := updatedNodes;
    if RefreshesSelection(selected, start, end) {
      g.selectedNode := FindNode(updatedNodes, BankEnd(start, end).id);
    }
    if |newEdges| > 0 {
      g.edges := g.edges + newEdges;
    }
    ok := |newEdges| > 0;
  }

  // ---------------------------------------------------------------------
  // The derived flags after a connect

  /**
   * Marking the bank leaves the non-bank nodes as they were: with distinct
   * ids, only the bank carries the bank's id.
   */
  lemma MarkBankNonBanks(nodes: seq<Node>, s: Node, t: Node, streetKey: Option<string>, n: Node)
    requires NodeIdsUnique(nodes) && s in nodes && t in nodes && n.kind != Bank
    ensures n in MarkBank(nodes, s, t, streetKey) <==> n in nodes
  {
    var m := MarkBank(nodes, s, t, streetKey);
    MarkBankOnlyBank(nodes, s, t, streetKey);
    if DerivedFlag(s, t, streetKey).Some? {
      var b := BankEnd(s, t);
      assert b.kind == Bank;
      SameIdSameNode(nodes, b);
      if n in m {
        var i :| 0 <= i < |m| && m[i] == n;
        assert m[i].kind == nodes[i].kind;
        assert nodes[i] != b;
      }
      if n in nodes {
        var i :| 0 <= i < |nodes| && nodes[i] == n;
        assert nodes[i] != b;
        assert m[i] in m;
      }
    }
  }

  /** With distinct ids, a listed node is the only one carrying its id. */
  lemma SameIdSameNode(nodes: seq<Node>, b: Node)
    requires NodeIdsUnique(nodes) && b in nodes
    ensures forall i :: 0 <= i < |nodes| && nodes[i].id == b.id ==> nodes[i] == b
  {
    var k :| 0 <= k < |nodes| && nodes[k] == b;
    forall i | 0 <= i < |nodes| && nodes[i].id == b.id
      ensures nodes[i] == b
    {
      assert i == k;
    }
  }

  /** The edges added join `a` and `c` only. */
  predicate OnlyJoins(added: seq<Edge>, a: string, c: string)
  {
    forall e :: e in added ==> (e.source == a && e.target == c) || (e.source == c && e.target == a)
  }

  lemma JoinedAfterAppend(edges: seq<Edge>, added: seq<Edge>, a: string, c: string, x: string, y: string)
    requires OnlyJoins(added, a, c)
    ensures JoinedTo(edges + added, x, y) ==> JoinedTo(edges, x, y) || (x == a && y == c) || (x == c && y == a)
    ensures JoinedTo(edges, x, y) ==> JoinedTo(edges + added, x, y)
  {
    if JoinedTo(edges + added, x, y) {
      var e :| e in edges + added && Incident(e, x) && OtherEnd(e, x) == y;
      if e !in edges {
        assert e in added;
      }
    }
    if JoinedTo(edges, x, y) {
      var e :| e in edges && Incident(e, x) && OtherEnd(e, x) == y;
      assert e in edges + added;
    }
  }

  /**
   * After a connect a node is joined to a node of type `kind` exactly when
   * it was before, or it is the bank and the partner has that type.
   */
  lemma LinkedAfterConnect(nodes: seq<Node>, edges: seq<Edge>, added: seq<Edge>, s: Node, t: Node,
                           streetKey: Option<string>, x: string, kind: NodeType)
    requires NodeIdsUnique(nodes) && s in nodes && t in nodes && (s.kind == Bank || t.kind == Bank)
    requires OnlyJoins(added, s.id, t.id) && JoinedTo(edges + added, s.id, t.id)
    requires kind != Bank
    ensures Linked(MarkBank(nodes, s, t, streetKey), edges + added, x, kind)
            <==> Linked(nodes, edges, x, kind) || (x == BankEnd(s, t).id && PartnerEnd(s, t).kind == kind)
  {
    var m := MarkBank(nodes, s, t, streetKey);
    var all := edges + added;
    if Linked(m, all, x, kind) {
      var n :| n in m && n.kind == kind && JoinedTo(all, x, n.id);
      MarkBankNonBanks(nodes, s, t, streetKey, n);
      JoinedAfterAppend(edges, added, s.id, t.id, x, n.id);
      if !JoinedTo(edges, x, n.id) {
        var i :| 0 <= i < |nodes| && nodes[i] == n;
        var si :| 0 <= si < |nodes| && nodes[si] == s;
        var ti :| 0 <= ti < |nodes| && nodes[ti] == t;
      }
    }
    if Linked(nodes, edges, x, kind) {
      var n :| n in nodes && n.kind == kind && JoinedTo(edges, x, n.id);
      MarkBankNonBanks(nodes, s, t, streetKey, n);
      JoinedAfterAppend(edges, added, s.id, t.id, x, n.id);
    }
    if x == BankEnd(s, t).id && PartnerEnd(s, t).kind == kind {
      var p := PartnerEnd(s, t);
      MarkBankNonBanks(nodes, s, t, streetKey, p);
      JoinedToSym(all, s.id, t.id);
      assert JoinedTo(all, x, p.id);
    }
  }

  /** With a bank among the ends, the flag written follows the partner's type alone. */
  lemma DerivedFlagByPartner(s: Node, t: Node)
    requires s.kind == Bank || t.kind == Bank
    ensures var p := PartnerEnd(s, t);
            DerivedFlag(s, t, Some("streetCover"))
              == if p.kind == CreditLine then Some(Flag("creditLine", Get(p.props, "name")))
                 else if p.kind == Projection then Some(Flag("projectionAware", Bool(true)))
                 else if p.kind == Street then Some(Flag("streetCover", Bool(true)))
                 else None
  {
  }

  /** One boolean flag of the bank at index `i` after the connect. */
  lemma ConnectKeepsBoolFlag(nodes: seq<Node>, edges: seq<Edge>, added: seq<Edge>, s: Node, t: Node,
                             i: int, kind: NodeType, key: string)
    requires NodeIdsUnique(nodes) && s in nodes && t in nodes && (s.kind == Bank || t.kind == Bank)
    requires OnlyJoins(added, s.id, t.id) && JoinedTo(edges + added, s.id, t.id)
    requires (kind == Projection && key == "projectionAware") || (kind == Street && key == "streetCover")
    requires 0 <= i < |nodes| && Get(nodes[i].props, key) == Bool(Linked(nodes, edges, nodes[i].id, kind))
    ensures var m := MarkBank(nodes, s, t, Some("streetCover"));
            Get(m[i].props, key) == Bool(Linked(m, edges + added, m[i].id, kind))
  {
    MarkBankOnlyBank(nodes, s, t, Some("streetCover"));
    DerivedFlagByPartner(s, t);
    LinkedAfterConnect(nodes, edges, added, s, t, Some("streetCover"), nodes[i].id, kind);
  }

  /** The `creditLine` property of the bank at index `i` after the connect. */
  lemma ConnectKeepsCreditLine(nodes: seq<Node>, edges: seq<Edge>, added: seq<Edge>, s: Node, t: Node, i: int)
    requires NodeIdsUnique(nodes) && s in nodes && t in nodes && (s.kind == Bank || t.kind == Bank)
    requires OnlyJoins(added, s.id, t.id) && JoinedTo(edges + added, s.id, t.id)
    requires 0 <= i < |nodes|
    requires if Linked(nodes, edges, nodes[i].id, CreditLine) then NamesLinkedCreditLine(nodes, edges, nodes[i])
             else Get(nodes[i].props, "creditLine") == Null
    ensures var m := MarkBank(nodes, s, t, Some("streetCover"));
            if Linked(m, edges + added, m[i].id, CreditLine) then NamesLinkedCreditLine(m, edges + added, m[i])
            else Get(m[i].props, "creditLine") == Null
  {
    var key := Some("streetCover");
    var m := MarkBank(nodes, s, t, key);
    var all := edges + added;
    var b := nodes[i];
    var p := PartnerEnd(s, t);
    MarkBankOnlyBank(nodes, s, t, key);
    DerivedFlagByPartner(s, t);
    LinkedAfterConnect(nodes, edges, added, s, t, key, b.id, CreditLine);
    if b.id == BankEnd(s, t).id && p.kind == CreditLine {
      MarkBankNonBanks(nodes, s, t, key, p);
      JoinedToSym(all, s.id, t.id);
      assert p in m && JoinedTo(all, m[i].id, p.id);
    } else if Linked(nodes, edges, b.id, CreditLine) {
      var c :| c in nodes && c.kind == CreditLine && JoinedTo(edges, b.id, c.id)
               && Get(b.props, "creditLine") == Get(c.props, "name");
      MarkBankNonBanks(nodes, s, t, key, c);
      JoinedAfterAppend(edges, added, s.id, t.id, b.id, c.id);
      assert Get(m[i].props, "creditLine") == Get(b.props, "creditLine");
    }
  }

  /** The bank at index `i` still tracks its neighbours after the connect. */
  lemma ConnectKeepsBankTrack(nodes: seq<Node>, edges: seq<Edge>, added: seq<Edge>, s: Node, t: Node, i: int)
    requires NodeIdsUnique(nodes) && DerivedFlagsTrack(nodes, edges)
    requires s in nodes && t in nodes && (s.kind == Bank || t.kind == Bank)
    requires OnlyJoins(added, s.id, t.id) && JoinedTo(edges + added, s.id, t.id)
    requires 0 <= i < |nodes| && nodes[i].kind == Bank
    ensures BankFlagsTrack(MarkBank(nodes, s, t, Some("streetCover")), edges + added,
                           MarkBank(nodes, s, t, Some("streetCover"))[i])
  {
    assert nodes[i] in nodes;
    assert BankFlagsTrack(nodes, edges, nodes[i]);
    ConnectKeepsBoolFlag(nodes, edges, added, s, t, i, Projection, "projectionAware");
    ConnectKeepsBoolFlag(nodes, edges, added, s, t, i, Street, "streetCover");
    ConnectKeepsCreditLine(nodes, edges, added, s, t, i);
  }

  /**
   * A connect between two nodes of a list with distinct ids, writing the
   * street flag as `streetCover`, keeps every bank's derived properties
   * tracking its neighbours; `added` is whatever edges between the two it
   * appended, as long as the two end up joined.
   */
  lemma ConnectKeepsTrack(nodes: seq<Node>, edges: seq<Edge>, added: seq<Edge>, s: Node, t: Node)
    requires NodeIdsUnique(nodes) && DerivedFlagsTrack(nodes, edges)
    requires s in nodes && t in nodes && (s.kind == Bank || t.kind == Bank)
    requires OnlyJoins(added, s.id, t.id) && JoinedTo(edges + added, s.id, t.id)
    ensures DerivedFlagsTrack(MarkBank(nodes, s, t, Some("streetCover")), edges + added)
  {
    var m := MarkBank(nodes, s, t, Some("streetCover"));
    MarkBankOnlyBank(nodes, s, t, Some("streetCover"));
    forall b | b in m && b.kind == Bank ensures BankFlagsTrack(m, edges + added, b) {
      var i :| 0 <= i < |m| && m[i] == b;
      ConnectKeepsBankTrack(nodes, edges, added, s, t, i);
    }
  }

  /** `connectNodes`: a passed connect between listed nodes keeps the derived flags tracking. */
  lemma ConnectKeepsDerivedFlags(nodes: seq<Node>, edges: seq<Edge>, s: Node, t: Node)
    requires NodeIdsUnique(nodes) && DerivedFlagsTrack(nodes, edges)
    requires s in nodes && t in nodes && CheckConnect(edges, s, t).Pass?
    ensures DerivedFlagsTrack(MarkBank(nodes, s, t, Some("streetCover")), edges + [CreateEdge(s, t)])
  {
    assert CreateEdge(s, t) in edges + [CreateEdge(s, t)];
    ConnectKeepsTrack(nodes, edges, [CreateEdge(s, t)], s, t);
  }

  /** `connectNodesBidirectional`: passed checks between listed nodes keep the derived flags tracking. */
  lemma BidirectionalKeepsDerivedFlags(nodes: seq<Node>, edges: seq<Edge>, s: Node, t: Node)
    requires NodeIdsUnique(nodes) && DerivedFlagsTrack(nodes, edges)
    requires s in nodes && t in nodes && CheckBidirectional(s, t).Pass?
    ensures DerivedFlagsTrack(MarkBank(nodes, s, t, Some("streetCover")), edges + MissingEdges(edges, s, t))
  {
    MissingEdgesCompletePair(edges, s, t);
    var all := edges + MissingEdges(edges, s, t);
    var e :| e in all && e.source == s.id && e.target == t.id;
    assert Incident(e, s.id) && OtherEnd(e, s.id) == t.id;
    ConnectKeepsTrack(nodes, edges, MissingEdges(edges, s, t), s, t);
  }

  /**
   * The live connect checks no existing credit line: a bank already joined
   * to one credit line is joined to a second, and the graph then breaks
   * the one-credit-line rule that deletion relies on.
   */
  lemma ConnectAllowsSecondCreditLine(nodes: seq<Node>, edges: seq<Edge>, b: Node, c1: Node, c2: Node)
    requires NodeIdsUnique(nodes) && b in nodes && c1 in nodes && c2 in nodes
    requires b.kind == Bank && c1.kind == CreditLine && c2.kind == CreditLine && c1.id != c2.id
    requires JoinedTo(edges, b.id, c1.id) && CheckConnect(edges, b, c2).Pass?
    ensures var all := edges + [CreateEdge(b, c2)];
            && JoinedTo(all, b.id, c1.id) && JoinedTo(all, b.id, c2.id)
            && !OneCreditLinePerBank(MarkBank(nodes, b, c2, Some("streetCover")), all)
  {
    var all := edges + [CreateEdge(b, c2)];
    JoinedAfterAppend(edges, [CreateEdge(b, c2)], b.id, c2.id, b.id, c1.id);
    assert CreateEdge(b, c2) in all;
    assert JoinedTo(all, b.id, c2.id);
    var bm := MarkedMembers(nodes, b, c2, Some("streetCover"), c1);
  }

  /** The marked list still holds the bank, under its id, and the two non-bank nodes. */
  lemma MarkedMembers(nodes: seq<Node>, b: Node, c: Node, streetKey: Option<string>, d: Node) returns (bm: Node)
    requires NodeIdsUnique(nodes) && b in nodes && c in nodes && d in nodes
    requires b.kind == Bank && c.kind != Bank && d.kind != Bank
    ensures var m := MarkBank(nodes, b, c, streetKey);
            bm in m && bm.kind == Bank && bm.id == b.id && c in m && d in m
  {
    MarkBankNonBanks(nodes, b, c, streetKey, c);
    MarkBankNonBanks(nodes, b, c, streetKey, d);
    MarkBankOnlyBank(nodes, b, c, streetKey);
    var i :| 0 <= i < |nodes| && nodes[i] == b;
    bm := MarkBank(nodes, b, c, streetKey)[i];
  }

  /**
   * Marking writes only a derived property, never a name or a bank id, so
   * a connect keeps ids and names distinct and the id counters ahead.
   */
  lemma ConnectKeepsAllocation(nodes: seq<Node>, s: Node, t: Node, streetKey: Option<string>, c: NodeManager.Counters)
    requires NodeManager.Allocation(nodes, c)
    requires streetKey.Some? ==> streetKey.value != "name" && streetKey.value != "bankId"
    ensures NodeManager.Allocation(MarkBank(nodes, s, t, streetKey), c)
  {
    MarkBankOnlyBank(nodes, s, t, streetKey);
    NodeManager.SameNamesKeepAllocation(nodes, MarkBank(nodes, s, t, streetKey), c);
  }

  /** A connect between listed nodes keeps every edge running between listed nodes. */
  lemma ConnectKeepsEdgesEnd(nodes: seq<Node>, edges: seq<Edge>, added: seq<Edge>, s: Node, t: Node,
                             streetKey: Option<string>)
    requires EdgesEndAtNodes(nodes, edges) && s in nodes && t in nodes && OnlyJoins(added, s.id, t.id)
    ensures EdgesEndAtNodes(MarkBank(nodes, s, t, streetKey), edges + added)
  {
    assert EdgesEndAtNodes(nodes, edges + added) by {
      assert HasNode(nodes, s.id) && HasNode(nodes, t.id);
    }
    MarkBankOnlyBank(nodes, s, t, streetKey);
    SameKindsKeepEdgesEnd(nodes, MarkBank(nodes, s, t, streetKey), edges + added);
  }
}
