// The node manager (src/utils/GraphNodeManager.js): the business-name
// uniqueness test, the four add operations with their search for the first
// free sequence number, the one-street rule, and the validation of a
// property edit.

module NodeManager {
  import opened GraphTypes
  import opened Strings
  import opened NodeCreator
  import opened GraphInvariants
  import opened GraphStateService
  import opened Editor

  /** `node` holds `name`: a bank as its `bankId`, any node as its `name`. */
  predicate HoldsName(node: Node, name: string)
  {
    (node.kind == Bank && Get(node.props, "bankId") == Str(name)) || Get(node.props, "name") == Str(name)
  }

  /** `isNodeNameUnique(nodes, name)`: `!nodes.some(...)`, one node at a time. */
  function IsNodeNameUnique(nodes: seq<Node>, name: string): bool
  {
    if nodes == [] then true
    else !HoldsName(nodes[0], name) && IsNodeNameUnique(nodes[1..], name)
  }

  /** A name is unique exactly when no node, bank or not, holds it. */
  lemma {:induction false} IsNodeNameUniqueIff(nodes: seq<Node>, name: string)
    ensures IsNodeNameUnique(nodes, name) <==> forall i :: 0 <= i < |nodes| ==> !HoldsName(nodes[i], name)
  {
    if nodes != [] {
      IsNodeNameUniqueIff(nodes[1..], name);
      assert forall i :: 1 <= i < |nodes| ==> nodes[i] == nodes[1..][i - 1];
    }
  }

  /** The names one node holds. */
  function NamesOf(n: Node): set<string>
  {
    (if n.kind == Bank && Get(n.props, "bankId").Str? then {Get(n.props, "bankId").s} else {})
      + (if Get(n.props, "name").Str? then {Get(n.props, "name").s} else {})
  }

  /** Every name held in `nodes`: a finite set, which bounds the search for a free name. */
  function NamesHeld(nodes: seq<Node>): set<string>
  {
    if nodes == [] then {} else NamesOf(nodes[0]) + NamesHeld(nodes[1..])
  }

  lemma {:induction false} NamesHeldIff(nodes: seq<Node>, s: string)
    ensures s in NamesHeld(nodes) <==> !IsNodeNameUnique(nodes, s)
  {
    if nodes != [] {
      assert HoldsName(nodes[0], s) <==> s in NamesOf(nodes[0]);
      NamesHeldIff(nodes[1..], s);
    }
  }

  /** A default name is never repeated at an earlier sequence number. */
  lemma DefaultNameFresh(kind: NodeType, start: nat, c: nat)
    ensures forall k :: start <= k < c ==> DefaultName(kind, k) != DefaultName(kind, c)
  {
    forall k | start <= k < c ensures DefaultName(kind, k) != DefaultName(kind, c) {
      IdsInjective(kind, 0.0, 0.0, k, 0.0, 0.0, c);
    }
  }

  /** The default names of the numbers `start` up to, but excluding, `c`. */
  function DefaultsBetween(kind: NodeType, start: nat, c: nat): (r: set<string>)
    ensures forall k :: start <= k < c ==> DefaultName(kind, k) in r
    decreases c
  {
    if c <= start then {}
    else DefaultsBetween(kind, start, c - 1) + {DefaultName(kind, c - 1)}
  }

  /** Every name in DefaultsBetween is one of those default names, so the next one is not among them. */
  lemma {:induction false} DefaultsBetweenOnly(kind: NodeType, start: nat, c: nat)
    ensures forall s :: s in DefaultsBetween(kind, start, c) ==> exists k :: start <= k < c && s == DefaultName(kind, k)
    ensures DefaultName(kind, c) !in DefaultsBetween(kind, start, c)
    decreases c
  {
    DefaultNameFresh(kind, start, c);
    if c > start {
      DefaultsBetweenOnly(kind, start, c - 1);
    }
  }

  /** The default names of the numbers `start` up to, but excluding, `c` are all held. */
  predicate AllHeld(nodes: seq<Node>, kind: NodeType, start: nat, c: nat)
  {
    forall k :: start <= k < c ==> !IsNodeNameUnique(nodes, DefaultName(kind, k))
  }

  lemma NextNameUntried(kind: NodeType, start: nat, c: nat)
    ensures DefaultName(kind, c) !in DefaultsBetween(kind, start, c)
  {
    DefaultsBetweenOnly(kind, start, c);
  }

  /** The default names of distinct numbers are distinct, so there are as many names as numbers. */
  lemma {:induction false} DefaultsBetweenCard(kind: NodeType, start: nat, c: nat)
    requires start <= c
    ensures |DefaultsBetween(kind, start, c)| == c - start
  {
    if c > start {
      DefaultsBetweenCard(kind, start, c - 1);
      NextNameUntried(kind, start, c - 1);
    }
  }

  lemma SubsetCard(a: set<string>, b: set<string>)
    requires a <= b
    ensures |a| <= |b|
  {
    assert b == a + (b - a);
    assert a * (b - a) == {};
  }

  /**
   * One more held default name: the names from `start` to `c` are all held,
   * and since they are distinct, there are no more of them than names held
   * in all. This bounds the search.
   */
  lemma HeldStep(nodes: seq<Node>, kind: NodeType, start: nat, c: nat)
    requires start <= c
    requires AllHeld(nodes, kind, start, c)
    requires !IsNodeNameUnique(nodes, DefaultName(kind, c))
    ensures AllHeld(nodes, kind, start, c + 1)
    ensures c + 1 - start <= |NamesHeld(nodes)|
  {
    var tried := DefaultsBetween(kind, start, c + 1);
    DefaultsBetweenOnly(kind, start, c + 1);
    forall s | s in tried ensures s in NamesHeld(nodes) {
      var k :| start <= k < c + 1 && s == DefaultName(kind, k);
      NamesHeldIff(nodes, s);
    }
    DefaultsBetweenCard(kind, start, c + 1);
    SubsetCard(tried, NamesHeld(nodes));
  }

  /**
   * The do-while of every add operation: starting at the counter, try the
   * default name of each number in turn until one is free. The result is the
   * least number at or after `start` whose default name no node holds.
   */
  method AllocateSequenceNumber(nodes: seq<Node>, kind: NodeType, start: nat) returns (n: nat)
    ensures start <= n
    ensures IsNodeNameUnique(nodes, DefaultName(kind, n))
    ensures AllHeld(nodes, kind, start, n)
  {
    var counter := start;
    var name := DefaultName(kind, counter);
    counter := counter + 1;
    ghost var held := |NamesHeld(nodes)|;
    while !IsNodeNameUnique(nodes, name)
      invariant start < counter
      invariant name == DefaultName(kind, counter - 1)
      invariant AllHeld(nodes, kind, start, counter - 1)
      invariant counter - 1 - start <= held
      decreases held - (counter - 1 - start)
    {
      HeldStep(nodes, kind, start, counter - 1);
      name := DefaultName(kind, counter);
      counter := counter + 1;
    }
    n := counter - 1;
  }

  /** The next sequence number of each type: `nextBankId`, `nextCreditLineId`, `nextProjectionId`, `nextStreetId`. */
  datatype Counters = Counters(bank: nat, creditLine: nat, projection: nat, street: nat)

  function Next(c: Counters, kind: NodeType): nat
  {
    match kind
    case Bank => c.bank
    case CreditLine => c.creditLine
    case Projection => c.projection
    case Street => c.street
  }

  /** `setNext…Id(v)` for the type. */
  function Advance(c: Counters, kind: NodeType, v: nat): Counters
  {
    match kind
    case Bank => c.(bank := v)
    case CreditLine => c.(creditLine := v)
    case Projection => c.(projection := v)
    case Street => c.(street := v)
  }

  function CountersOf(g: Graph): Counters
    reads g
  {
    Counters(g.nextBankId, g.nextCreditLineId, g.nextProjectionId, g.nextStreetId)
  }

  /** No node carries the id the factory would build from a number at or past the counter. */
  ghost predicate CounterAhead(nodes: seq<Node>, kind: NodeType, next: nat)
  {
    forall k: nat, i :: next <= k && 0 <= i < |nodes| ==> nodes[i].id != IdPrefix(kind) + NatToString(k)
  }

  /**
   * What the add operations keep: node ids are distinct, names and bank ids
   * are distinct, and every counter is past the numbers in the ids issued.
   */
  ghost predicate Allocation(nodes: seq<Node>, c: Counters)
  {
    && NodeIdsUnique(nodes) && NamesDistinct(nodes)
    && CounterAhead(nodes, Bank, c.bank) && CounterAhead(nodes, CreditLine, c.creditLine)
    && CounterAhead(nodes, Projection, c.projection) && CounterAhead(nodes, Street, c.street)
  }

  /** Changing anything but ids, types, names and bank ids keeps the allocation invariant. */
  lemma SameNamesKeepAllocation(a: seq<Node>, b: seq<Node>, c: Counters)
    requires Allocation(a, c) && SameNames(a, b)
    ensures Allocation(b, c)
  {
    SameNamesKeepDistinct(a, b);
    forall kind: NodeType ensures CounterAhead(a, kind, Next(c, kind)) ==> CounterAhead(b, kind, Next(c, kind)) {
    }
    assert Next(c, Bank) == c.bank && Next(c, CreditLine) == c.creditLine;
    assert Next(c, Projection) == c.projection && Next(c, Street) == c.street;
  }

  /** Dropping nodes keeps the allocation invariant. */
  lemma KeepNodesKeepsAllocation(nodes: seq<Node>, keep: Node -> bool, c: Counters)
    requires Allocation(nodes, c)
    ensures Allocation(KeepNodes(nodes, keep), c)
  {
    var r := KeepNodes(nodes, keep);
    KeepNodesDistinct(nodes, keep);
    forall kind: NodeType, next: nat | CounterAhead(nodes, kind, next) ensures CounterAhead(r, kind, next) {
      forall k: nat, i | next <= k && 0 <= i < |r| ensures r[i].id != IdPrefix(kind) + NatToString(k) {
        assert r[i] in nodes;
      }
    }
  }

  /**
   * Adding the node of the first free number at or past the counter, and
   * moving the counter past it, keeps ids and names distinct and every
   * counter ahead: the counter rules out the id, the name search the name.
   */
  lemma AddKeepsAllocation(nodes: seq<Node>, c: Counters, kind: NodeType, x: real, y: real, n: nat)
    requires Allocation(nodes, c)
    requires Next(c, kind) <= n && IsNodeNameUnique(nodes, DefaultName(kind, n))
    ensures Allocation(nodes + [CreateNode(kind, x, y, n)], Advance(c, kind, n + 1))
  {
    var c' := Advance(c, kind, n + 1);
    AddKeepsDistinct(nodes, kind, x, y, n, Next(c, kind));
    AddKeepsCounterAhead(nodes, kind, x, y, n, Bank, Next(c, Bank), Next(c', Bank));
    AddKeepsCounterAhead(nodes, kind, x, y, n, CreditLine, Next(c, CreditLine), Next(c', CreditLine));
    AddKeepsCounterAhead(nodes, kind, x, y, n, Projection, Next(c, Projection), Next(c', Projection));
    AddKeepsCounterAhead(nodes, kind, x, y, n, Street, Next(c, Street), Next(c', Street));
  }

  /** The two rules an add keeps, stated as implications for the add methods. */
  lemma AddKeepsRules(nodes: seq<Node>, edges: seq<Edge>, c: Counters, kind: NodeType, x: real, y: real, n: nat)
    requires Next(c, kind) <= n && IsNodeNameUnique(nodes, DefaultName(kind, n))
    ensures Allocation(nodes, c) ==> Allocation(nodes + [CreateNode(kind, x, y, n)], Advance(c, kind, n + 1))
    ensures Allocation(nodes, c) && DerivedFlagsTrack(nodes, edges) && EdgesEndAtNodes(nodes, edges)
            ==> var s := nodes + [CreateNode(kind, x, y, n)];
                DerivedFlagsTrack(s, edges) && EdgesEndAtNodes(s, edges)
  {
    if Allocation(nodes, c) {
      AddKeepsAllocation(nodes, c, kind, x, y, n);
      if DerivedFlagsTrack(nodes, edges) && EdgesEndAtNodes(nodes, edges) {
        AddKeepsDerivedFlags(nodes, edges, c, kind, x, y, n);
      }
    }
  }

  /**
   * An added node starts with no edge, since every edge runs between
   * listed nodes and the new id is fresh; so the derived properties keep
   * tracking, a new bank starting with none of them.
   */
  lemma AddKeepsDerivedFlags(nodes: seq<Node>, edges: seq<Edge>, c: Counters, kind: NodeType, x: real, y: real, n: nat)
    requires Allocation(nodes, c) && Next(c, kind) <= n
    requires DerivedFlagsTrack(nodes, edges) && EdgesEndAtNodes(nodes, edges)
    ensures var s := nodes + [CreateNode(kind, x, y, n)];
            DerivedFlagsTrack(s, edges) && EdgesEndAtNodes(s, edges)
  {
    var node := CreateNode(kind, x, y, n);
    var s := nodes + [node];
    CreateNodeShape(kind, x, y, n);
    NewBankDefaults(x, y, n);
    assert CounterAhead(nodes, kind, Next(c, kind));
    forall e | e in edges ensures !Incident(e, node.id) && HasNode(s, e.source) && HasNode(s, e.target) {
      var a :| a in nodes && a.id == e.source;
      var b :| b in nodes && b.id == e.target;
      var ia :| 0 <= ia < |nodes| && nodes[ia] == a;
      var ib :| 0 <= ib < |nodes| && nodes[ib] == b;
      assert a in s && b in s;
    }
    AppendUnlinkedKeepsTrack(nodes, edges, node);
  }

  lemma AddKeepsDistinct(nodes: seq<Node>, kind: NodeType, x: real, y: real, n: nat, next: nat)
    requires NodeIdsUnique(nodes) && NamesDistinct(nodes) && CounterAhead(nodes, kind, next)
    requires next <= n && IsNodeNameUnique(nodes, DefaultName(kind, n))
    ensures var s := nodes + [CreateNode(kind, x, y, n)];
            NodeIdsUnique(s) && NamesDistinct(s)
  {
    AddKeepsIdsUnique(nodes, kind, x, y, n, next);
    AddKeepsNamesDistinct(nodes, kind, x, y, n);
  }

  lemma AddKeepsIdsUnique(nodes: seq<Node>, kind: NodeType, x: real, y: real, n: nat, next: nat)
    requires NodeIdsUnique(nodes) && CounterAhead(nodes, kind, next) && next <= n
    ensures NodeIdsUnique(nodes + [CreateNode(kind, x, y, n)])
  {
    var node := CreateNode(kind, x, y, n);
    CreateNodeShape(kind, x, y, n);
    assert forall i :: 0 <= i < |nodes| ==> nodes[i].id != node.id;
  }

  lemma AddKeepsNamesDistinct(nodes: seq<Node>, kind: NodeType, x: real, y: real, n: nat)
    requires NamesDistinct(nodes) && IsNodeNameUnique(nodes, DefaultName(kind, n))
    ensures NamesDistinct(nodes + [CreateNode(kind, x, y, n)])
  {
    var node := CreateNode(kind, x, y, n);
    var s := nodes + [node];
    CreateNodeShape(kind, x, y, n);
    IsNodeNameUniqueIff(nodes, DefaultName(kind, n));
    assert kind == Bank ==> Get(node.props, "name") == Undef;
    assert forall i :: 0 <= i < |nodes| ==> s[i] == nodes[i] && !HoldsName(nodes[i], DefaultName(kind, n));
  }

  lemma AddKeepsCounterAhead(nodes: seq<Node>, kind: NodeType, x: real, y: real, n: nat,
                             k2: NodeType, next: nat, next': nat)
    requires CounterAhead(nodes, k2, next)
    requires if k2 == kind then next <= n + 1 <= next' else next == next'
    ensures CounterAhead(nodes + [CreateNode(kind, x, y, n)], k2, next')
  {
    var s := nodes + [CreateNode(kind, x, y, n)];
    forall k: nat, i | next' <= k && 0 <= i < |s| ensures s[i].id != IdPrefix(k2) + NatToString(k) {
      if i == |nodes| {
        CreateNodeShape(kind, x, y, n);
        CreateNodeShape(k2, x, y, k);
        if k2 == kind {
          IdsInjective(kind, x, y, n, x, y, k);
        } else {
          IdsDistinctAcrossTypes(kind, k2, x, y, n, x, y, k);
        }
      } else {
        assert s[i] == nodes[i];
      }
    }
  }

  /** Appending a node that is not a street keeps the structural rules. */
  lemma AppendKeepsInvariant(nodes: seq<Node>, edges: seq<Edge>, node: Node)
    requires GraphInvariant(nodes, edges)
    requires node.kind != Street || CountKind(nodes, Street) == 0
    ensures GraphInvariant(nodes + [node], edges)
  {
    CountKindAppend(nodes, node, Street);
    forall j | 0 <= j < |edges| ensures TouchesBank(nodes + [node], edges[j]) {
      var n :| n in nodes && n.kind == Bank && Incident(edges[j], n.id);
      assert n in nodes + [node];
    }
  }

  /** `addBankNode`: a bank with the first free `BANK` number, appended; the counter moves past it. */
  method AddBankNode(g: Graph, x: real, y: real) returns (node: Node)
    modifies g`nodes, g`nextBankId
    ensures g.nextBankId > old(g.nextBankId)
    ensures node == CreateBankNode(x, y, g.nextBankId - 1)
    ensures IsNodeNameUnique(old(g.nodes), DefaultName(Bank, g.nextBankId - 1))
    ensures forall k :: old(g.nextBankId) <= k < g.nextBankId - 1 ==>
              !IsNodeNameUnique(old(g.nodes), DefaultName(Bank, k))
    ensures g.nodes == old(g.nodes) + [node]
    ensures old(GraphInvariant(g.nodes, g.edges)) ==> GraphInvariant(g.nodes, g.edges)
    ensures old(Allocation(g.nodes, CountersOf(g))) ==> Allocation(g.nodes, CountersOf(g))
    ensures old(Allocation(g.nodes, CountersOf(g)) && DerivedFlagsTrack(g.nodes, g.edges) && EdgesEndAtNodes(g.nodes, g.edges))
            ==> DerivedFlagsTrack(g.nodes, g.edges) && EdgesEndAtNodes(g.nodes, g.edges)
  {
    var n := AllocateSequenceNumber(g.nodes, Bank, g.nextBankId);
    AddKeepsRules(g.nodes, g.edges, CountersOf(g), Bank, x, y, n);
    node := CreateBankNode(x, y, n);
    if GraphInvariant(g.nodes, g.edges) {
      AppendKeepsInvariant(g.nodes, g.edges, node);
    }
    g.nextBankId := n + 1;
    g.nodes := g.nodes + [node];
  }

  /** `addCreditLineNode`: the same search over `CL` names. */
  method AddCreditLineNode(g: Graph, x: real, y: real) returns (node: Node)
    modifies g`nodes, g`nextCreditLineId
    ensures g.nextCreditLineId > old(g.nextCreditLineId)
    ensures node == CreateCreditLineNode(x, y, g.nextCreditLineId - 1)
    ensures IsNodeNameUnique(old(g.nodes), DefaultName(CreditLine, g.nextCreditLineId - 1))
    ensures forall k :: old(g.nextCreditLineId) <= k < g.nextCreditLineId - 1 ==>
              !IsNodeNameUnique(old(g.nodes), DefaultName(CreditLine, k))
    ensures g.nodes == old(g.nodes) + [node]
    ensures old(GraphInvariant(g.nodes, g.edges)) ==> GraphInvariant(g.nodes, g.edges)
    ensures old(Allocation(g.nodes, CountersOf(g))) ==> Allocation(g.nodes, CountersOf(g))
    ensures old(Allocation(g.nodes, CountersOf(g)) && DerivedFlagsTrack(g.nodes, g.edges) && EdgesEndAtNodes(g.nodes, g.edges))
            ==> DerivedFlagsTrack(g.nodes, g.edges) && EdgesEndAtNodes(g.nodes, g.edges)
  {
    var n := AllocateSequenceNumber(g.nodes, CreditLine, g.nextCreditLineId);
    AddKeepsRules(g.nodes, g.edges, CountersOf(g), CreditLine, x, y, n);
    node := CreateCreditLineNode(x, y, n);
    if GraphInvariant(g.nodes, g.edges) {
      AppendKeepsInvariant(g.nodes, g.edges, node);
    }
    g.nextCreditLineId := n + 1;
    g.nodes := g.nodes + [node];
  }

  /** `addProjectionNode`: the same search over `PRJ_ENT` names. */
  method AddProjectionNode(g: Graph, x: real, y: real) returns (node: Node)
    modifies g`nodes, g`nextProjectionId
    ensures g.nextProjectionId > old(g.nextProjectionId)
    ensures node == CreateProjectionNode(x, y, g.nextProjectionId - 1)
    ensures IsNodeNameUnique(old(g.nodes), DefaultName(Projection, g.nextProjectionId - 1))
    ensures forall k :: old(g.nextProjectionId) <= k < g.nextProjectionId - 1 ==>
              !IsNodeNameUnique(old(g.nodes), DefaultName(Projection, k))
    ensures g.nodes == old(g.nodes) + [node]
    ensures old(GraphInvariant(g.nodes, g.edges)) ==> GraphInvariant(g.nodes, g.edges)
    ensures old(Allocation(g.nodes, CountersOf(g))) ==> Allocation(g.nodes, CountersOf(g))
    ensures old(Allocation(g.nodes, CountersOf(g)) && DerivedFlagsTrack(g.nodes, g.edges) && EdgesEndAtNodes(g.nodes, g.edges))
            ==> DerivedFlagsTrack(g.nodes, g.edges) && EdgesEndAtNodes(g.nodes, g.edges)
  {
    var n := AllocateSequenceNumber(g.nodes, Projection, g.nextProjectionId);
    AddKeepsRules(g.nodes, g.edges, CountersOf(g), Projection, x, y, n);
    node := CreateProjectionNode(x, y, n);
    if GraphInvariant(g.nodes, g.edges) {
      AppendKeepsInvariant(g.nodes, g.edges, node);
    }
    g.nextProjectionId := n + 1;
    g.nodes := g.nodes + [node];
  }

  const ONE_STREET_ERROR: string := "Error: Only one Street node is allowed"

  /**
   * `addStreetNode`: refused with an error, changing nothing else, when a
   * street exists; otherwise the same search over `STREET` names.
   */
  method AddStreetNode(g: Graph, x: real, y: real) returns (node: Option<Node>)
    modifies g`nodes, g`nextStreetId, g`error
    ensures CountKind(old(g.nodes), Street) > 0 ==>
              && node == None && g.error == Some(ONE_STREET_ERROR)
              && g.nodes == old(g.nodes) && g.nextStreetId == old(g.nextStreetId)
    ensures CountKind(old(g.nodes), Street) == 0 ==>
              && g.nextStreetId > old(g.nextStreetId)
              && node == Some(CreateStreetNode(x, y, g.nextStreetId - 1))
              && IsNodeNameUnique(old(g.nodes), DefaultName(Street, g.nextStreetId - 1))
              && (forall k :: old(g.nextStreetId) <= k < g.nextStreetId - 1 ==>
                    !IsNodeNameUnique(old(g.nodes), DefaultName(Street, k)))
              && g.nodes == old(g.nodes) + [node.value]
              && g.error == old(g.error)
    ensures old(GraphInvariant(g.nodes, g.edges)) ==> GraphInvariant(g.nodes, g.edges)
    ensures old(Allocation(g.nodes, CountersOf(g))) ==> Allocation(g.nodes, CountersOf(g))
    ensures old(Allocation(g.nodes, CountersOf(g)) && DerivedFlagsTrack(g.nodes, g.edges) && EdgesEndAtNodes(g.nodes, g.edges))
            ==> DerivedFlagsTrack(g.nodes, g.edges) && EdgesEndAtNodes(g.nodes, g.edges)
  {
    if CountKind(g.nodes, Street) > 0 {
      g.error := Some(ONE_STREET_ERROR);
      return None;
    }
    var n := AllocateSequenceNumber(g.nodes, Street, g.nextStreetId);
    AddKeepsRules(g.nodes, g.edges, CountersOf(g), Street, x, y, n);
    var created := CreateStreetNode(x, y, n);
    if GraphInvariant(g.nodes, g.edges) {
      AppendKeepsInvariant(g.nodes, g.edges, created);
    }
    g.nextStreetId := n + 1;
    g.nodes := g.nodes + [created];
    node := Some(created);
  }

  /** A street is added exactly when none exists, so no sequence of adds makes a second one. */
  lemma StreetAddKeepsSingleton(nodes: seq<Node>, x: real, y: real, n: nat)
    requires CountKind(nodes, Street) == 0
    ensures CountKind(nodes + [CreateStreetNode(x, y, n)], Street) == 1
  {
    CountKindAppend(nodes, CreateStreetNode(x, y, n), Street);
  }

  /** The outcome of validating a property edit. */
  datatype Validation = UnknownNode | Rejected(message: string) | Accepted

  /** Another bank (by id) already has this `bankId`. */
  predicate BankIdTaken(nodes: seq<Node>, id: string, bankId: Value)
  {
    exists i :: 0 <= i < |nodes| && nodes[i].id != id && nodes[i].kind == Bank
                && Get(nodes[i].props, "bankId") == bankId
  }

  /** Another node (by id), of any type, already has this `name`. */
  predicate NameTaken(nodes: seq<Node>, id: string, name: Value)
  {
    exists i :: 0 <= i < |nodes| && nodes[i].id != id && Get(nodes[i].props, "name") == name
  }

  /**
   * `updateNodeProperties(nodes, id, patch)` of the manager: an unknown id
   * fails silently; a truthy `bankId` on a bank must not be another bank's;
   * a truthy `name` must not be another node's.
   */
  function ValidateNodeUpdate(nodes: seq<Node>, id: string, patch: Props): (r: Validation)
    ensures r == UnknownNode <==> forall i :: 0 <= i < |nodes| ==> nodes[i].id != id
    ensures r == Accepted ==>
              ((FindNode(nodes, id).value.kind == Bank && Truthy(Get(patch, "bankId")))
                 ==> !BankIdTaken(nodes, id, Get(patch, "bankId")))
              && (Truthy(Get(patch, "name")) ==> !NameTaken(nodes, id, Get(patch, "name")))
  {
    match FindNode(nodes, id)
    case None => UnknownNode
    case Some(target) =>
      var bankId := Get(patch, "bankId");
      var name := Get(patch, "name");
      if target.kind == Bank && Truthy(bankId) && BankIdTaken(nodes, id, bankId) then
        Rejected("Error: Bank ID '" + Text(bankId) + "' already exists")
      else if Truthy(name) && NameTaken(nodes, id, name) then
        Rejected("Error: Node name '" + Text(name) + "' already exists")
      else Accepted
  }

  /** A rejected edit is rejected for a real clash, and each message names the clashing value. */
  lemma ValidateRejects(nodes: seq<Node>, id: string, patch: Props)
    requires FindNode(nodes, id).Some?
    ensures var t := FindNode(nodes, id).value;
            var bankId := Get(patch, "bankId");
            var name := Get(patch, "name");
            && (t.kind == Bank && Truthy(bankId) && BankIdTaken(nodes, id, bankId) ==>
                  ValidateNodeUpdate(nodes, id, patch) == Rejected("Error: Bank ID '" + Text(bankId) + "' already exists"))
            && (!(t.kind == Bank && Truthy(bankId) && BankIdTaken(nodes, id, bankId))
                && Truthy(name) && NameTaken(nodes, id, name) ==>
                  ValidateNodeUpdate(nodes, id, patch) == Rejected("Error: Node name '" + Text(name) + "' already exists"))
            && (ValidateNodeUpdate(nodes, id, patch).Rejected? ==>
                  (t.kind == Bank && Truthy(bankId) && BankIdTaken(nodes, id, bankId))
                  || (Truthy(name) && NameTaken(nodes, id, name)))
  {
  }

  /** `validateNodeUpdate` with its error written to the editor state. */
  method UpdateNodeProperties(g: Graph, id: string, patch: Props) returns (ok: bool)
    modifies g`error
    ensures ok <==> ValidateNodeUpdate(g.nodes, id, patch) == Accepted
    ensures g.error == if ValidateNodeUpdate(g.nodes, id, patch).Rejected?
                       then Some(ValidateNodeUpdate(g.nodes, id, patch).message) else old(g.error)
  {
    var v := ValidateNodeUpdate(g.nodes, id, patch);
    if v.Rejected? {
      g.error := Some(v.message);
    }
    ok := v == Accepted;
  }

  /** The name and `bankId` of each node after the state service applies an edit. */
  lemma UpdatedKeys(nodes: seq<Node>, id: string, patch: Props, i: int, key: string)
    requires 0 <= i < |nodes| && (key == "name" || key == "bankId")
    ensures var r := GraphStateService.UpdateNodeProperties(nodes, id, patch);
            && r[i].kind == nodes[i].kind
            && Get(r[i].props, key) == if nodes[i].id == id && key in patch then patch[key] else Get(nodes[i].props, key)
  {
    UpdateKeepsShape(nodes, id, patch, i);
    if nodes[i].id == id {
      UpdateMergesPatch(nodes, id, patch, i, key);
    } else {
      UpdateRenameCascade(nodes, id, patch, i);
    }
  }

  /**
   * An accepted edit, applied by the state service's merge and rename
   * cascade, keeps names and bank ids distinct (node ids being unique).
   */
  lemma AcceptedUpdateKeepsNamesDistinct(nodes: seq<Node>, id: string, patch: Props)
    requires NodeIdsUnique(nodes) && NamesDistinct(nodes)
    requires ValidateNodeUpdate(nodes, id, patch) == Accepted
    ensures NamesDistinct(GraphStateService.UpdateNodeProperties(nodes, id, patch))
  {
    var r := GraphStateService.UpdateNodeProperties(nodes, id, patch);
    var t := FindNode(nodes, id).value;
    forall i, j | 0 <= i < |r| && 0 <= j < |r| && i != j && Truthy(Get(r[i].props, "name"))
      ensures Get(r[i].props, "name") != Get(r[j].props, "name")
    {
      UpdatedKeys(nodes, id, patch, i, "name");
      UpdatedKeys(nodes, id, patch, j, "name");
      if nodes[i].id == id && "name" in patch {
        assert !NameTaken(nodes, id, patch["name"]);
      } else if nodes[j].id == id && "name" in patch && Truthy(patch["name"]) {
        assert !NameTaken(nodes, id, patch["name"]);
      }
    }
    forall i, j | 0 <= i < |r| && 0 <= j < |r| && i != j && r[i].kind == Bank && r[j].kind == Bank
                  && Truthy(Get(r[i].props, "bankId"))
      ensures Get(r[i].props, "bankId") != Get(r[j].props, "bankId")
    {
      UpdatedKeys(nodes, id, patch, i, "bankId");
      UpdatedKeys(nodes, id, patch, j, "bankId");
      if nodes[i].id == id && "bankId" in patch {
        assert t == nodes[i] || t.kind == nodes[i].kind;
        assert !BankIdTaken(nodes, id, patch["bankId"]);
      } else if nodes[j].id == id && "bankId" in patch && Truthy(patch["bankId"]) {
        assert t.kind == Bank;
        assert !BankIdTaken(nodes, id, patch["bankId"]);
      }
    }
  }
}
