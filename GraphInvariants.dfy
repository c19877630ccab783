// The structural rules the editor's operations keep: at most one street
// node, every edge touches a bank, and no two edges join the same ordered
// pair of nodes. Beside them, the rules the operations are measured
// against: distinct node ids and business names, and a bank's derived
// `creditLine`, `projectionAware` and `streetCover` tracking its neighbours.

module GraphInvariants {
  import opened GraphTypes

  /** The number of nodes of the given type. */
  function CountKind(nodes: seq<Node>, kind: NodeType): (c: nat)
    ensures c <= |nodes|
    ensures c == 0 <==> forall i :: 0 <= i < |nodes| ==> nodes[i].kind != kind
  {
    if nodes == [] then 0
    else (if nodes[0].kind == kind then 1 else 0) + CountKind(nodes[1..], kind)
  }

  predicate AtMostOneStreet(nodes: seq<Node>)
  {
    CountKind(nodes, Street) <= 1
  }

  /** Some bank of `nodes` is an end of `e`. */
  predicate TouchesBank(nodes: seq<Node>, e: Edge)
  {
    exists n :: n in nodes && n.kind == Bank && Incident(e, n.id)
  }

  predicate EdgesTouchBank(nodes: seq<Node>, edges: seq<Edge>)
  {
    forall j :: 0 <= j < |edges| ==> TouchesBank(nodes, edges[j])
  }

  predicate NoDuplicatePairs(edges: seq<Edge>)
  {
    forall i, j :: 0 <= i < j < |edges| ==>
      edges[i].source != edges[j].source || edges[i].target != edges[j].target
  }

  predicate GraphInvariant(nodes: seq<Node>, edges: seq<Edge>)
  {
    AtMostOneStreet(nodes) && EdgesTouchBank(nodes, edges) && NoDuplicatePairs(edges)
  }

  /** Two node lists with the same ids and types in the same order; positions and properties may differ. */
  predicate SameKinds(a: seq<Node>, b: seq<Node>)
  {
    |a| == |b| &&
    forall i :: 0 <= i < |a| ==> a[i].id == b[i].id && a[i].kind == b[i].kind
  }

  /** Two node lists that differ at most in properties: same ids, types and positions, in the same order. */
  predicate SameShape(a: seq<Node>, b: seq<Node>)
  {
    SameKinds(a, b) &&
    forall i :: 0 <= i < |a| ==> a[i].x == b[i].x && a[i].y == b[i].y
  }

  /** Setting a property on the nodes with a given id keeps the list's shape. */
  lemma SetPropWhereShape(nodes: seq<Node>, id: string, key: string, v: Value)
    ensures SameShape(nodes, SetPropWhere(nodes, id, key, v))
  {
  }

  lemma UniqueSameKinds(a: seq<Node>, b: seq<Node>)
    requires NodeIdsUnique(a) && SameKinds(a, b)
    ensures NodeIdsUnique(b)
  {
  }

  /** With distinct ids, looking an id up in a same-kinds list finds the index holding it. */
  lemma IndexInSameKinds(nodes: seq<Node>, r: seq<Node>, id: string, i: int)
    requires NodeIdsUnique(nodes) && SameKinds(nodes, r) && 0 <= i < |nodes|
    ensures IndexOfNode(r, id) == i <==> nodes[i].id == id
  {
    var idx := IndexOfNode(r, id);
    if nodes[i].id == id {
      assert r[i].id == id;
      assert idx != -1;
      assert nodes[idx].id == r[idx].id;
    }
  }

  lemma {:induction false} CountKindAppend(nodes: seq<Node>, n: Node, kind: NodeType)
    ensures CountKind(nodes + [n], kind) == CountKind(nodes, kind) + (if n.kind == kind then 1 else 0)
  {
    if nodes != [] {
      assert (nodes + [n])[1..] == nodes[1..] + [n];
      CountKindAppend(nodes[1..], n, kind);
    }
  }

  lemma {:induction false} CountKindSameShape(a: seq<Node>, b: seq<Node>, kind: NodeType)
    requires SameKinds(a, b)
    ensures CountKind(a, kind) == CountKind(b, kind)
  {
    if a != [] {
      CountKindSameShape(a[1..], b[1..], kind);
    }
  }

  lemma {:induction false} CountKindKeep(nodes: seq<Node>, keep: Node -> bool, kind: NodeType)
    ensures CountKind(KeepNodes(nodes, keep), kind) <= CountKind(nodes, kind)
  {
    if nodes != [] {
      CountKindKeep(nodes[1..], keep, kind);
    }
  }

  /** Changing positions or properties only keeps every edge's bank. */
  lemma TouchesBankSameShape(a: seq<Node>, b: seq<Node>, edges: seq<Edge>)
    requires SameKinds(a, b)
    requires EdgesTouchBank(a, edges)
    ensures EdgesTouchBank(b, edges)
  {
    forall j | 0 <= j < |edges| ensures TouchesBank(b, edges[j]) {
      var n :| n in a && n.kind == Bank && Incident(edges[j], n.id);
      var i :| 0 <= i < |a| && a[i] == n;
      assert b[i] in b;
    }
  }

  /** A node list that keeps its shape keeps at most one street. */
  lemma AtMostOneStreetSameShape(a: seq<Node>, b: seq<Node>)
    requires SameKinds(a, b)
    requires AtMostOneStreet(a)
    ensures AtMostOneStreet(b)
  {
    CountKindSameShape(a, b, Street);
  }

  lemma NoDuplicatePairsCons(e: Edge, rest: seq<Edge>)
    requires NoDuplicatePairs(rest)
    requires forall f :: f in rest ==> f.source != e.source || f.target != e.target
    ensures NoDuplicatePairs([e] + rest)
  {
    var s := [e] + rest;
    forall i, j | 0 <= i < j < |s| ensures s[i].source != s[j].source || s[i].target != s[j].target {
      if i > 0 {
        assert s[i] == rest[i - 1] && s[j] == rest[j - 1];
      } else {
        assert s[j] == rest[j - 1];
      }
    }
  }

  /** Filtering edges keeps them free of duplicate pairs. */
  lemma {:induction false} NoDuplicatePairsKeep(edges: seq<Edge>, keep: Edge -> bool)
    requires NoDuplicatePairs(edges)
    ensures NoDuplicatePairs(KeepEdges(edges, keep))
  {
    if edges != [] {
      var rest := edges[1..];
      assert NoDuplicatePairs(rest) by {
        forall i, j | 0 <= i < j < |rest|
          ensures rest[i].source != rest[j].source || rest[i].target != rest[j].target
        {
          assert rest[i] == edges[i + 1] && rest[j] == edges[j + 1];
        }
      }
      NoDuplicatePairsKeep(rest, keep);
      if keep(edges[0]) {
        forall f | f in KeepEdges(rest, keep)
          ensures f.source != edges[0].source || f.target != edges[0].target
        {
          var j :| 0 <= j < |rest| && rest[j] == f;
          assert edges[j + 1] == f;
        }
        NoDuplicatePairsCons(edges[0], KeepEdges(rest, keep));
      }
    }
  }

  /** Appending an edge whose ordered pair is new keeps the edges free of duplicate pairs. */
  lemma NoDuplicatePairsAppend(edges: seq<Edge>, e: Edge)
    requires NoDuplicatePairs(edges)
    requires !HasEdge(edges, e.source, e.target)
    ensures NoDuplicatePairs(edges + [e])
  {
    var s := edges + [e];
    forall i, j | 0 <= i < j < |s| ensures s[i].source != s[j].source || s[i].target != s[j].target {
      if j == |edges| {
        assert s[i] in edges;
      }
    }
  }

  // ---------------------------------------------------------------------
  // Distinct ids and business names

  /** No two nodes share a truthy name, and no two banks share a truthy `bankId`. */
  predicate NamesDistinct(nodes: seq<Node>)
  {
    && (forall i, j :: 0 <= i < |nodes| && 0 <= j < |nodes| && i != j && Truthy(Get(nodes[i].props, "name"))
          ==> Get(nodes[i].props, "name") != Get(nodes[j].props, "name"))
    && (forall i, j :: 0 <= i < |nodes| && 0 <= j < |nodes| && i != j
          && nodes[i].kind == Bank && nodes[j].kind == Bank && Truthy(Get(nodes[i].props, "bankId"))
          ==> Get(nodes[i].props, "bankId") != Get(nodes[j].props, "bankId"))
  }

  /** Two lists with the same ids, types, names and bank ids, index by index. */
  predicate SameNames(a: seq<Node>, b: seq<Node>)
  {
    SameKinds(a, b) &&
    forall i :: 0 <= i < |a| ==>
      Get(a[i].props, "name") == Get(b[i].props, "name") && Get(a[i].props, "bankId") == Get(b[i].props, "bankId")
  }

  /** Changing anything but ids, types, names and bank ids keeps ids and names distinct. */
  lemma SameNamesKeepDistinct(a: seq<Node>, b: seq<Node>)
    requires SameNames(a, b) && NodeIdsUnique(a) && NamesDistinct(a)
    ensures NodeIdsUnique(b) && NamesDistinct(b)
  {
  }

  /** Filtering keeps ids and names distinct. */
  lemma {:induction false} KeepNodesDistinct(nodes: seq<Node>, keep: Node -> bool)
    requires NodeIdsUnique(nodes) && NamesDistinct(nodes)
    ensures NodeIdsUnique(KeepNodes(nodes, keep)) && NamesDistinct(KeepNodes(nodes, keep))
  {
    if nodes != [] {
      var rest := nodes[1..];
      assert forall i :: 0 <= i < |rest| ==> rest[i] == nodes[i + 1];
      KeepNodesDistinct(rest, keep);
      if keep(nodes[0]) {
        var kr := KeepNodes(rest, keep);
        forall m | m in kr
          ensures m.id != nodes[0].id
          ensures Truthy(Get(nodes[0].props, "name")) ==> Get(m.props, "name") != Get(nodes[0].props, "name")
          ensures Truthy(Get(m.props, "name")) ==> Get(m.props, "name") != Get(nodes[0].props, "name")
          ensures nodes[0].kind == Bank && m.kind == Bank && Truthy(Get(nodes[0].props, "bankId"))
                  ==> Get(m.props, "bankId") != Get(nodes[0].props, "bankId")
          ensures nodes[0].kind == Bank && m.kind == Bank && Truthy(Get(m.props, "bankId"))
                  ==> Get(m.props, "bankId") != Get(nodes[0].props, "bankId")
        {
          var j :| 0 <= j < |rest| && rest[j] == m;
          assert nodes[j + 1] == m;
        }
        ConsDistinct(nodes[0], kr);
      }
    }
  }

  lemma ConsDistinct(n: Node, rest: seq<Node>)
    requires NodeIdsUnique(rest) && NamesDistinct(rest)
    requires forall m :: m in rest ==>
               && m.id != n.id
               && (Truthy(Get(n.props, "name")) ==> Get(m.props, "name") != Get(n.props, "name"))
               && (Truthy(Get(m.props, "name")) ==> Get(m.props, "name") != Get(n.props, "name"))
               && (n.kind == Bank && m.kind == Bank && Truthy(Get(n.props, "bankId")) ==>
                     Get(m.props, "bankId") != Get(n.props, "bankId"))
               && (n.kind == Bank && m.kind == Bank && Truthy(Get(m.props, "bankId")) ==>
                     Get(m.props, "bankId") != Get(n.props, "bankId"))
    ensures NodeIdsUnique([n] + rest) && NamesDistinct([n] + rest)
  {
    var s := [n] + rest;
    assert forall i :: 1 <= i < |s| ==> s[i] == rest[i - 1] && s[i] in rest;
  }

  /** With distinct ids, `find` by a listed node's id returns that node. */
  lemma FindListed(nodes: seq<Node>, n: Node)
    requires NodeIdsUnique(nodes) && n in nodes
    ensures FindNode(nodes, n.id) == Some(n)
  {
    var i :| 0 <= i < |nodes| && nodes[i] == n;
    assert IndexOfNode(nodes, n.id) == i;
  }

  // ---------------------------------------------------------------------
  // The derived bank flags

  /** Some edge joins node `a` to node `c` (in either direction). */
  predicate JoinedTo(edges: seq<Edge>, a: string, c: string)
  {
    exists e :: e in edges && Incident(e, a) && OtherEnd(e, a) == c
  }

  lemma JoinedToSym(edges: seq<Edge>, a: string, c: string)
    ensures JoinedTo(edges, a, c) <==> JoinedTo(edges, c, a)
  {
    if JoinedTo(edges, a, c) {
      var e :| e in edges && Incident(e, a) && OtherEnd(e, a) == c;
      assert Incident(e, c) && OtherEnd(e, c) == a;
    }
    if JoinedTo(edges, c, a) {
      var e :| e in edges && Incident(e, c) && OtherEnd(e, c) == a;
      assert Incident(e, a) && OtherEnd(e, a) == c;
    }
  }

  /** Some edge joins node `id` to a node of the list of type `kind`. */
  predicate Linked(nodes: seq<Node>, edges: seq<Edge>, id: string, kind: NodeType)
  {
    exists n :: n in nodes && n.kind == kind && JoinedTo(edges, id, n.id)
  }

  /** The bank's `creditLine` is the name of a credit line it is joined to. */
  predicate NamesLinkedCreditLine(nodes: seq<Node>, edges: seq<Edge>, b: Node)
  {
    exists n :: n in nodes && n.kind == CreditLine && JoinedTo(edges, b.id, n.id)
                && Get(b.props, "creditLine") == Get(n.props, "name")
  }

  /**
   * The bank's derived properties describe its neighbours: `creditLine`
   * names a credit line it is joined to, or is null when there is none;
   * `projectionAware` and `streetCover` hold exactly when it is joined to a
   * projection or a street.
   */
  predicate BankFlagsTrack(nodes: seq<Node>, edges: seq<Edge>, b: Node)
  {
    && Get(b.props, "projectionAware") == Bool(Linked(nodes, edges, b.id, Projection))
    && Get(b.props, "streetCover") == Bool(Linked(nodes, edges, b.id, Street))
    && (if Linked(nodes, edges, b.id, CreditLine) then NamesLinkedCreditLine(nodes, edges, b)
        else Get(b.props, "creditLine") == Null)
  }

  predicate DerivedFlagsTrack(nodes: seq<Node>, edges: seq<Edge>)
  {
    forall b :: b in nodes && b.kind == Bank ==> BankFlagsTrack(nodes, edges, b)
  }

  /** Some node of the list carries the id. */
  predicate HasNode(nodes: seq<Node>, id: string)
  {
    exists n :: n in nodes && n.id == id
  }

  /** Every edge runs between nodes of the list. */
  predicate EdgesEndAtNodes(nodes: seq<Node>, edges: seq<Edge>)
  {
    forall e :: e in edges ==> HasNode(nodes, e.source) && HasNode(nodes, e.target)
  }

  /** A list with the same ids has the same nodes for edges to end at. */
  lemma SameKindsKeepEdgesEnd(a: seq<Node>, b: seq<Node>, edges: seq<Edge>)
    requires SameKinds(a, b) && EdgesEndAtNodes(a, edges)
    ensures EdgesEndAtNodes(b, edges)
  {
    forall id | HasNode(a, id) ensures HasNode(b, id) {
      var n :| n in a && n.id == id;
      var i :| 0 <= i < |a| && a[i] == n;
      assert b[i] in b;
    }
  }

  /** A bank flagged as projection-aware with no projection joined to it breaks the tracking. */
  lemma ProjectionFlagBehind(nodes: seq<Node>, edges: seq<Edge>, b: Node)
    requires b in nodes && b.kind == Bank
    requires Get(b.props, "projectionAware") == Bool(true) && !Linked(nodes, edges, b.id, Projection)
    ensures !DerivedFlagsTrack(nodes, edges)
  {
    assert !BankFlagsTrack(nodes, edges, b);
  }

  /** Every bank is joined to at most one credit-line node. */
  predicate OneCreditLinePerBank(nodes: seq<Node>, edges: seq<Edge>)
  {
    forall b, c, d :: b in nodes && c in nodes && d in nodes && b.kind == Bank
      && c.kind == CreditLine && d.kind == CreditLine && JoinedTo(edges, b.id, c.id) && JoinedTo(edges, b.id, d.id)
      ==> c.id == d.id
  }

  /**
   * The flags depend on ids, types, the credit lines' names and the banks'
   * own properties only: moving nodes, or changing what else they hold,
   * keeps them tracking.
   */
  lemma {:induction false} TrackSameKinds(a: seq<Node>, b: seq<Node>, edges: seq<Edge>)
    requires SameKinds(a, b) && DerivedFlagsTrack(a, edges)
    requires forall i :: 0 <= i < |a| ==> a[i].props == b[i].props
    ensures DerivedFlagsTrack(b, edges)
  {
    forall k: NodeType, x: string ensures Linked(a, edges, x, k) <==> Linked(b, edges, x, k) {
      if Linked(a, edges, x, k) {
        var n :| n in a && n.kind == k && JoinedTo(edges, x, n.id);
        var i :| 0 <= i < |a| && a[i] == n;
        assert b[i] in b;
      }
      if Linked(b, edges, x, k) {
        var n :| n in b && n.kind == k && JoinedTo(edges, x, n.id);
        var i :| 0 <= i < |b| && b[i] == n;
        assert a[i] in a;
      }
    }
    forall m | m in b && m.kind == Bank ensures BankFlagsTrack(b, edges, m) {
      var i :| 0 <= i < |b| && b[i] == m;
      assert a[i] in a;
      assert BankFlagsTrack(a, edges, a[i]);
      if Linked(a, edges, m.id, CreditLine) {
        var n :| n in a && n.kind == CreditLine && JoinedTo(edges, a[i].id, n.id)
                 && Get(a[i].props, "creditLine") == Get(n.props, "name");
        var k :| 0 <= k < |a| && a[k] == n;
        assert b[k] in b;
      }
    }
  }

  /**
   * Appending a node no edge reaches keeps the flags tracking, when a new
   * bank starts with no credit line and both flags false.
   */
  lemma AppendUnlinkedKeepsTrack(nodes: seq<Node>, edges: seq<Edge>, n: Node)
    requires DerivedFlagsTrack(nodes, edges)
    requires forall e :: e in edges ==> !Incident(e, n.id)
    requires n.kind == Bank ==>
               && Get(n.props, "creditLine") == Null
               && Get(n.props, "projectionAware") == Bool(false) && Get(n.props, "streetCover") == Bool(false)
    ensures DerivedFlagsTrack(nodes + [n], edges)
  {
    var s := nodes + [n];
    forall x, k: NodeType ensures Linked(s, edges, x, k) <==> Linked(nodes, edges, x, k) {
      if Linked(s, edges, x, k) {
        var m :| m in s && m.kind == k && JoinedTo(edges, x, m.id);
        if m == n {
          JoinedToSym(edges, x, m.id);
        }
      }
    }
    forall b | b in s && b.kind == Bank ensures BankFlagsTrack(s, edges, b) {
      if b == n {
        forall k: NodeType ensures !Linked(nodes, edges, n.id, k) {
        }
      } else {
        assert BankFlagsTrack(nodes, edges, b);
        if Linked(nodes, edges, b.id, CreditLine) {
          var c :| c in nodes && c.kind == CreditLine && JoinedTo(edges, b.id, c.id)
                   && Get(b.props, "creditLine") == Get(c.props, "name");
          assert c in s;
        }
      }
    }
  }
}
