// The graph state service (src/services/GraphStateService.js): the export
// of the store partitioned by node type, edge existence queries, lookups by
// id, and the shallow property merges with the credit-line rename cascade.

module GraphStateService {
  import opened GraphTypes

  /** A node as exported: its type is implied by the list it is in. */
  datatype NodeRecord = NodeRecord(id: string, x: real, y: real, props: Props)

  /** The exported state, one list per node type plus the edges. */
  datatype GraphState = GraphState(
    bankNodes: seq<NodeRecord>,
    creditLineNodes: seq<NodeRecord>,
    projectionNodes: seq<NodeRecord>,
    streetNodes: seq<NodeRecord>,
    edges: seq<Edge>)

  function Record(n: Node): NodeRecord
  {
    NodeRecord(n.id, n.x, n.y, n.props)
  }

  /** `nodes.filter(n => n.type === kind).map(Record)`. */
  function RecordsOfKind(nodes: seq<Node>, kind: NodeType): (r: seq<NodeRecord>)
    ensures |r| <= |nodes|
    ensures forall n :: n in nodes && n.kind == kind ==> Record(n) in r
    ensures forall rec :: rec in r ==> exists n :: n in nodes && n.kind == kind && rec == Record(n)
  {
    if nodes == [] then []
    else if nodes[0].kind == kind then [Record(nodes[0])] + RecordsOfKind(nodes[1..], kind)
    else RecordsOfKind(nodes[1..], kind)
  }

  /** `formatGraphState(nodes, edges)`. */
  function FormatGraphState(nodes: seq<Node>, edges: seq<Edge>): (r: GraphState)
    ensures r.edges == edges
  {
    GraphState(RecordsOfKind(nodes, Bank), RecordsOfKind(nodes, CreditLine),
               RecordsOfKind(nodes, Projection), RecordsOfKind(nodes, Street), edges)
  }

  /** The bucket of the export that holds nodes of the given type. */
  function Bucket(s: GraphState, kind: NodeType): seq<NodeRecord>
  {
    match kind
    case Bank => s.bankNodes
    case CreditLine => s.creditLineNodes
    case Projection => s.projectionNodes
    case Street => s.streetNodes
  }

  /** The filter keeps list order: exporting a concatenation concatenates the exports. */
  lemma {:induction false} RecordsOfKindAppend(a: seq<Node>, b: seq<Node>, kind: NodeType)
    ensures RecordsOfKind(a + b, kind) == RecordsOfKind(a, kind) + RecordsOfKind(b, kind)
  {
    if a == [] {
      assert a + b == b;
    } else {
      assert (a + b)[1..] == a[1..] + b;
      RecordsOfKindAppend(a[1..], b, kind);
    }
  }

  lemma {:induction false} PartitionSize(nodes: seq<Node>)
    ensures |RecordsOfKind(nodes, Bank)| + |RecordsOfKind(nodes, CreditLine)|
            + |RecordsOfKind(nodes, Projection)| + |RecordsOfKind(nodes, Street)| == |nodes|
  {
    if nodes != [] {
      PartitionSize(nodes[1..]);
    }
  }

  /**
   * The export is a partition: every node lands, as a record with its id,
   * position and properties, in the bucket of its own type; the bucket sizes
   * add up to the node count; every record comes from a node of its bucket's type.
   */
  lemma FormatGraphStatePartition(nodes: seq<Node>, edges: seq<Edge>)
    ensures var s := FormatGraphState(nodes, edges);
            && (forall n :: n in nodes ==> Record(n) in Bucket(s, n.kind))
            && (forall k: NodeType, rec :: rec in Bucket(s, k) ==>
                  exists n :: n in nodes && n.kind == k && rec == Record(n))
            && |s.bankNodes| + |s.creditLineNodes| + |s.projectionNodes| + |s.streetNodes| == |nodes|
            && s.edges == edges
  {
    PartitionSize(nodes);
  }

  /** `edgeExists(edges, s, t)`: some edge runs from `s` to `t`. */
  function EdgeExists(edges: seq<Edge>, source: string, target: string): (r: bool)
    ensures r <==> HasEdge(edges, source, target)
  {
    if edges == [] then false
    else
      (edges[0].source == source && edges[0].target == target)
      || (assert forall e :: e in edges[1..] ==> e in edges;
          assert HasEdge(edges, source, target) && !(edges[0].source == source && edges[0].target == target)
                 ==> HasEdge(edges[1..], source, target);
          EdgeExists(edges[1..], source, target))
  }

  /** Edge existence is directional: a single edge a→b does not give b→a. */
  lemma EdgeExistsDirectional()
    ensures var edges := [Edge("a-b", "a", "b", map[])];
            EdgeExists(edges, "a", "b") && !EdgeExists(edges, "b", "a")
  {
    var edges := [Edge("a-b", "a", "b", map[])];
    assert edges[0] in edges;
  }

  /** `bidirectionalConnectionExists(edges, a, b)`. */
  function BidirectionalConnectionExists(edges: seq<Edge>, a: string, b: string): (r: bool)
    ensures r <==> HasEdge(edges, a, b) && HasEdge(edges, b, a)
  {
    EdgeExists(edges, a, b) && EdgeExists(edges, b, a)
  }

  lemma BidirectionalSymmetric(edges: seq<Edge>, a: string, b: string)
    ensures BidirectionalConnectionExists(edges, a, b) == BidirectionalConnectionExists(edges, b, a)
  {
  }

  /**
   * `findNodeById` / `findEdgeById`: the first element with the id, or
   * nothing when no element has it.
   */
  lemma FindByIdFirst(nodes: seq<Node>, edges: seq<Edge>, id: string)
    ensures FindNode(nodes, id).Some? ==>
              exists i :: 0 <= i < |nodes| && FindNode(nodes, id).value == nodes[i]
                          && forall j :: 0 <= j < i ==> nodes[j].id != id
    ensures FindEdge(edges, id).Some? ==>
              exists i :: 0 <= i < |edges| && FindEdge(edges, id).value == edges[i]
                          && forall j :: 0 <= j < i ==> edges[j].id != id
  {
    var i := IndexOfNode(nodes, id);
    if i >= 0 {
      assert FindNode(nodes, id).value == nodes[i];
    }
    var k := IndexOfKey(edges, EdgeId, id);
    if k >= 0 {
      assert FindEdge(edges, id).value == edges[k];
    }
  }

  /** True when the node is a credit line and the patch gives it a new, non-empty name. */
  predicate IsCreditLineRename(node: Node, patch: Props)
  {
    node.kind == CreditLine && Truthy(Get(patch, "name")) && Get(patch, "name") != Get(node.props, "name")
  }

  /** Banks whose `creditLine` equals `oldName` get `newName` instead. */
  function RenameCreditLine(nodes: seq<Node>, oldName: Value, newName: Value): (r: seq<Node>)
    ensures |r| == |nodes|
    ensures forall i :: 0 <= i < |nodes| ==>
              r[i] == if nodes[i].kind == Bank && Get(nodes[i].props, "creditLine") == oldName
                      then SetProp(nodes[i], "creditLine", newName) else nodes[i]
  {
    if nodes == [] then []
    else
      var n := nodes[0];
      [if n.kind == Bank && Get(n.props, "creditLine") == oldName then SetProp(n, "creditLine", newName) else n]
        + RenameCreditLine(nodes[1..], oldName, newName)
  }

  /** `updateNodeProperties(nodes, id, patch)` of the state service. */
  function UpdateNodeProperties(nodes: seq<Node>, id: string, patch: Props): (r: seq<Node>)
    ensures |r| == |nodes|
  {
    match FindNode(nodes, id)
    case None => nodes
    case Some(target) =>
      var merged := PatchNodes(nodes, id, patch);
      if IsCreditLineRename(target, patch)
      then RenameCreditLine(merged, Get(target.props, "name"), Get(patch, "name"))
      else merged
  }

  /** An unknown id leaves the list as it was. */
  lemma UpdateUnknownNode(nodes: seq<Node>, id: string, patch: Props)
    requires forall i :: 0 <= i < |nodes| ==> nodes[i].id != id
    ensures UpdateNodeProperties(nodes, id, patch) == nodes
  {
  }

  /** Only properties change: ids, types, positions and order are kept. */
  lemma UpdateKeepsShape(nodes: seq<Node>, id: string, patch: Props, i: int)
    requires 0 <= i < |nodes|
    ensures var r := UpdateNodeProperties(nodes, id, patch);
            r[i].id == nodes[i].id && r[i].kind == nodes[i].kind && r[i].x == nodes[i].x && r[i].y == nodes[i].y
  {
    match FindNode(nodes, id)
    case None =>
    case Some(target) =>
      var merged := PatchNodes(nodes, id, patch);
      assert merged[i].id == nodes[i].id && merged[i].kind == nodes[i].kind;
      if IsCreditLineRename(target, patch) {
        var r := RenameCreditLine(merged, Get(target.props, "name"), Get(patch, "name"));
        assert r[i].id == merged[i].id && r[i].kind == merged[i].kind;
      }
  }

  /**
   * The updated node gets a shallow merge: keys in the patch take the patch's
   * value, every other key keeps its old value. (A bank is never renamed by
   * the cascade, which only touches `creditLine`.)
   */
  lemma UpdateMergesPatch(nodes: seq<Node>, id: string, patch: Props, i: int, key: string)
    requires 0 <= i < |nodes| && nodes[i].id == id
    requires key != "creditLine" || nodes[i].kind != Bank
    ensures Get(UpdateNodeProperties(nodes, id, patch)[i].props, key)
            == if key in patch then patch[key] else Get(nodes[i].props, key)
  {
    var target := FindNode(nodes, id).value;
    var merged := PatchNodes(nodes, id, patch);
    assert merged[i] == nodes[i].(props := nodes[i].props + patch);
    GetMerge(nodes[i].props, patch, key);
    if IsCreditLineRename(target, patch) {
      var r := RenameCreditLine(merged, Get(target.props, "name"), Get(patch, "name"));
      if merged[i].kind == Bank && Get(merged[i].props, "creditLine") == Get(target.props, "name") {
        assert r[i] == SetProp(merged[i], "creditLine", Get(patch, "name"));
        GetSetOther(merged[i].props, "creditLine", Get(patch, "name"), key);
      } else {
        assert r[i] == merged[i];
      }
    }
  }

  lemma GetMerge(p: Props, q: Props, key: string)
    ensures Get(p + q, key) == if key in q then q[key] else Get(p, key)
  {
  }

  lemma GetSetOther(p: Props, k: string, v: Value, key: string)
    requires key != k
    ensures Get(p[k := v], key) == Get(p, key)
  {
  }

  /**
   * The rename cascade: a node with another id changes exactly when a credit
   * line is renamed and the node is a bank whose `creditLine` holds the old
   * name; it then holds the new name and nothing else changes.
   */
  lemma UpdateRenameCascade(nodes: seq<Node>, id: string, patch: Props, i: int)
    requires 0 <= i < |nodes| && nodes[i].id != id
    ensures var r := UpdateNodeProperties(nodes, id, patch);
            var t := FindNode(nodes, id);
            r[i] == if t.Some? && IsCreditLineRename(t.value, patch)
                       && nodes[i].kind == Bank && Get(nodes[i].props, "creditLine") == Get(t.value.props, "name")
                    then SetProp(nodes[i], "creditLine", Get(patch, "name"))
                    else nodes[i]
  {
  }

  /** `updateEdgeProperties(edges, id, patch)`. */
  function UpdateEdgeProperties(edges: seq<Edge>, id: string, patch: Props): (r: seq<Edge>)
    ensures |r| == |edges|
  {
    PatchEdges(edges, id, patch)
  }

  /**
   * Only the edges with the given id change, and only in their properties,
   * which become a shallow merge with the patch; with an unknown id the list
   * is unchanged.
   */
  lemma UpdateEdgeMerges(edges: seq<Edge>, id: string, patch: Props, i: int, key: string)
    requires 0 <= i < |edges|
    ensures var r := UpdateEdgeProperties(edges, id, patch);
            && r[i].id == edges[i].id && r[i].source == edges[i].source && r[i].target == edges[i].target
            && (edges[i].id != id ==> r[i] == edges[i])
            && (edges[i].id == id ==> Get(r[i].props, key) == if key in patch then patch[key] else Get(edges[i].props, key))
  {
  }

  lemma UpdateEdgeUnknown(edges: seq<Edge>, id: string, patch: Props)
    requires forall i :: 0 <= i < |edges| ==> edges[i].id != id
    ensures UpdateEdgeProperties(edges, id, patch) == edges
  {
  }
}
