// The typed graph store shared by every operation: nodes with an id, a
// position, a type and a property record; edges with an id, a source id, a
// target id and a property record.

module GraphTypes {

  datatype Option<T> = None | Some(value: T)

  /** A JavaScript property value. `Undef` is what reading an absent key gives. */
  datatype Value = Str(s: string) | Num(n: int) | Bool(b: bool) | Null | Undef

  /** A property record; a shallow spread `{...a, ...b}` is the map union `a + b`. */
  type Props = map<string, Value>

  function Get(p: Props, k: string): Value
  {
    if k in p then p[k] else Undef
  }

  /** JavaScript truthiness. */
  predicate Truthy(v: Value)
  {
    match v
    case Str(s) => s != ""
    case Num(n) => n != 0
    case Bool(b) => b
    case Null => false
    case Undef => false
  }

  /** The four node types of the editor. */
  datatype NodeType = Bank | CreditLine | Projection | Street

  datatype Node = Node(id: string, x: real, y: real, kind: NodeType, props: Props)

  datatype Edge = Edge(id: string, source: string, target: string, props: Props)

  predicate IsBank(n: Node) { n.kind == Bank }

  /** The index of the first element whose key is `id`, or -1 (`findIndex(x => key(x) === id)`). */
  function IndexOfKey<T>(xs: seq<T>, key: T -> string, id: string): (r: int)
    ensures -1 <= r < |xs|
    ensures r == -1 <==> (forall j :: 0 <= j < |xs| ==> key(xs[j]) != id)
    ensures r >= 0 ==> key(xs[r]) == id && forall j :: 0 <= j < r ==> key(xs[j]) != id
  {
    if xs == [] then -1
    else if key(xs[0]) == id then 0
    else
      var r := IndexOfKey(xs[1..], key, id);
      if r == -1 then -1 else r + 1
  }

  function NodeId(n: Node): string { n.id }

  function EdgeId(e: Edge): string { e.id }

  /** The index of the first node with the given id, or -1. */
  function IndexOfNode(nodes: seq<Node>, id: string): (r: int)
    ensures -1 <= r < |nodes|
    ensures r == -1 <==> (forall j :: 0 <= j < |nodes| ==> nodes[j].id != id)
    ensures r >= 0 ==> nodes[r].id == id && forall j :: 0 <= j < r ==> nodes[j].id != id
  {
    IndexOfKey(nodes, NodeId, id)
  }

  /** The first node with the given id (`nodes.find(n => n.id === id)`). */
  function FindNode(nodes: seq<Node>, id: string): (r: Option<Node>)
    ensures r.None? <==> (forall j :: 0 <= j < |nodes| ==> nodes[j].id != id)
    ensures r.Some? ==> r.value in nodes && r.value.id == id
  {
    var i := IndexOfNode(nodes, id);
    if i == -1 then None else Some(nodes[i])
  }

  /** The first edge with the given id (`edges.find(e => e.id === id)`). */
  function FindEdge(edges: seq<Edge>, id: string): (r: Option<Edge>)
    ensures r.None? <==> (forall j :: 0 <= j < |edges| ==> edges[j].id != id)
    ensures r.Some? ==> r.value in edges && r.value.id == id
  {
    var i := IndexOfKey(edges, EdgeId, id);
    if i == -1 then None else Some(edges[i])
  }

  /** Every node whose id matches gets its properties shallow-merged with `patch`. */
  function PatchNodes(nodes: seq<Node>, id: string, patch: Props): (r: seq<Node>)
    ensures |r| == |nodes|
    ensures forall i :: 0 <= i < |nodes| ==>
              r[i] == if nodes[i].id == id then nodes[i].(props := nodes[i].props + patch) else nodes[i]
  {
    if nodes == [] then []
    else
      var n := nodes[0];
      [if n.id == id then n.(props := n.props + patch) else n] + PatchNodes(nodes[1..], id, patch)
  }

  /** Node ids are pairwise distinct. */
  predicate NodeIdsUnique(nodes: seq<Node>)
  {
    forall i, j :: 0 <= i < j < |nodes| ==> nodes[i].id != nodes[j].id
  }

  predicate HasEdge(edges: seq<Edge>, source: string, target: string)
  {
    exists e :: e in edges && e.source == source && e.target == target
  }

  /** Every edge whose id matches gets its properties shallow-merged with `patch`. */
  function PatchEdges(edges: seq<Edge>, id: string, patch: Props): (r: seq<Edge>)
    ensures |r| == |edges|
    ensures forall i :: 0 <= i < |edges| ==>
              r[i] == if edges[i].id == id then edges[i].(props := edges[i].props + patch) else edges[i]
  {
    if edges == [] then []
    else
      var e := edges[0];
      [if e.id == id then e.(props := e.props + patch) else e] + PatchEdges(edges[1..], id, patch)
  }

  /** `{...n, properties: {...n.properties, [key]: v}}`. */
  function SetProp(n: Node, key: string, v: Value): Node
  {
    n.(props := n.props[key := v])
  }

  /** `nodes.map(n => n.id === id ? SetProp(n, key, v) : n)`. */
  function SetPropWhere(nodes: seq<Node>, id: string, key: string, v: Value): (r: seq<Node>)
    ensures |r| == |nodes|
    ensures forall i :: 0 <= i < |nodes| ==>
              r[i] == if nodes[i].id == id then SetProp(nodes[i], key, v) else nodes[i]
  {
    if nodes == [] then []
    else
      [if nodes[0].id == id then SetProp(nodes[0], key, v) else nodes[0]]
        + SetPropWhere(nodes[1..], id, key, v)
  }

  /** `nodes.filter(keep)`. */
  function KeepNodes(nodes: seq<Node>, keep: Node -> bool): (r: seq<Node>)
    ensures |r| <= |nodes|
    ensures forall n :: n in r <==> n in nodes && keep(n)
  {
    if nodes == [] then []
    else if keep(nodes[0]) then [nodes[0]] + KeepNodes(nodes[1..], keep)
    else KeepNodes(nodes[1..], keep)
  }

  /** `edges.filter(keep)`. */
  function KeepEdges(edges: seq<Edge>, keep: Edge -> bool): (r: seq<Edge>)
    ensures |r| <= |edges|
    ensures forall e :: e in r <==> e in edges && keep(e)
  {
    if edges == [] then []
    else if keep(edges[0]) then [edges[0]] + KeepEdges(edges[1..], keep)
    else KeepEdges(edges[1..], keep)
  }

  /** The edge has the node as its source or its target. */
  predicate Incident(e: Edge, id: string)
  {
    e.source == id || e.target == id
  }

  /** The end of `e` opposite to `id` (the target when `id` is the source). */
  function OtherEnd(e: Edge, id: string): string
  {
    if e.source == id then e.target else e.source
  }
}
