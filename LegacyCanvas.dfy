// The parts of the legacy canvas component (src/components/GraphCanvas.js)
// that no newer module carries: the property edit with its validation and
// cascades, the timestamp-id street add and the ×1.1 / ÷1.1 wheel zoom.
// Its `createEdge` is textually the connector's and is
// `NodeConnector.CreateEdge`.
//
// The property edit is modelled as written, with three behaviours the code
// has: every `setEdges` call in the credit-line cascade starts from the same
// edge list, so only the last one survives (and a later pruning overwrites
// it again); the `projectionAware: false` written into the supplied
// properties after a bank's entity change never reaches the node list; and
// the scan for other projection links that precedes it is not restricted to
// the bank's edges (it has no effect either).

module LegacyCanvas {
  import opened GraphTypes
  import opened Strings
  import opened GraphMath
  import opened GraphConstants
  import opened GraphInvariants
  import opened NodeConnector
  import NodeManager
  import InteractionHandler
  import opened Editor

  const PROJECTION_FORMAT_ERROR: string := "Error: Projection node name must follow format PRJ_XXXX where X is alphanumeric"
  const PROJECTION_NAME_TAKEN: string := "Error: A Projection node with this name already exists"
  const CREDIT_LINE_NAME_TAKEN: string := "Error: A Credit Line node with this name already exists"

  // ---------------------------------------------------------------------
  // Validation

  /** `/^PRJ_[A-Za-z0-9]{4}$/.test(v)`; a non-string value renders as text that never starts with `PRJ_`. */
  predicate MatchesProjectionFormat(v: Value)
  {
    v.Str? && ValidProjectionName(v.s)
  }

  /** A node of type `kind` other than `id` already has `name` as its `name`. */
  predicate NameTakenByKind(nodes: seq<Node>, id: string, kind: NodeType, name: Value)
  {
    exists i :: 0 <= i < |nodes| && nodes[i].id != id && nodes[i].kind == kind && Get(nodes[i].props, "name") == name
  }

  /**
   * The checks before an edit: a projection's new name must be well formed
   * and not used by another projection; a credit line's new name must not
   * be used by another credit line. Names of other types never block.
   */
  function ValidateEdit(nodes: seq<Node>, id: string, props: Props): Option<string>
  {
    var target := FindNode(nodes, id);
    var name := Get(props, "name");
    if target.Some? && target.value.kind == Projection && name != Undef then
      if !MatchesProjectionFormat(name) then Some(PROJECTION_FORMAT_ERROR)
      else if NameTakenByKind(nodes, id, Projection, name) then Some(PROJECTION_NAME_TAKEN)
      else None
    else if target.Some? && target.value.kind == CreditLine && name != Undef
            && NameTakenByKind(nodes, id, CreditLine, name) then
      Some(CREDIT_LINE_NAME_TAKEN)
    else None
  }

  /**
   * An edit is refused exactly when it renames a projection to a malformed
   * name or to another projection's name, or a credit line to another
   * credit line's name; the clash is searched within the node's own type.
   */
  lemma ValidateEditCases(nodes: seq<Node>, id: string, props: Props)
    ensures var target := FindNode(nodes, id);
            var name := Get(props, "name");
            && (ValidateEdit(nodes, id, props) == Some(PROJECTION_FORMAT_ERROR)
                <==> target.Some? && target.value.kind == Projection && name != Undef && !MatchesProjectionFormat(name))
            && (ValidateEdit(nodes, id, props) == Some(PROJECTION_NAME_TAKEN)
                <==> target.Some? && target.value.kind == Projection && MatchesProjectionFormat(name)
                     && NameTakenByKind(nodes, id, Projection, name))
            && (ValidateEdit(nodes, id, props) == Some(CREDIT_LINE_NAME_TAKEN)
                <==> target.Some? && target.value.kind == CreditLine && name != Undef
                     && NameTakenByKind(nodes, id, CreditLine, name))
            && (ValidateEdit(nodes, id, props).None? <==>
                  target.None? || target.value.kind == Bank || target.value.kind == Street || name == Undef
                  || (target.value.kind == Projection && MatchesProjectionFormat(name)
                      && !NameTakenByKind(nodes, id, Projection, name))
                  || (target.value.kind == CreditLine && !NameTakenByKind(nodes, id, CreditLine, name)))
  {
    assert PROJECTION_FORMAT_ERROR != PROJECTION_NAME_TAKEN by {
      assert |PROJECTION_FORMAT_ERROR| != |PROJECTION_NAME_TAKEN|;
    }
    assert PROJECTION_FORMAT_ERROR != CREDIT_LINE_NAME_TAKEN by {
      assert |PROJECTION_FORMAT_ERROR| != |CREDIT_LINE_NAME_TAKEN|;
    }
    assert PROJECTION_NAME_TAKEN != CREDIT_LINE_NAME_TAKEN by {
      assert |PROJECTION_NAME_TAKEN| != |CREDIT_LINE_NAME_TAKEN|;
    }
  }

  /** A credit line holding a name does not stop a projection from taking it, and the other way round. */
  lemma NameScopeIsPerType(a: Node, b: Node, name: string)
    requires a.id != b.id && a.kind == Projection && b.kind == CreditLine
    requires ValidProjectionName(name)
    requires Get(a.props, "name") != Str(name)
    ensures ValidateEdit([a, b], a.id, map["name" := Str(name)]) == None
    ensures Get(b.props, "name") != Str(name) ==>
              ValidateEdit([a, b], b.id, map["name" := Str(name)]) == None
  {
    assert FindNode([a, b], a.id) == Some(a);
    assert !NameTakenByKind([a, b], a.id, Projection, Str(name));
    assert [a, b][0].id != b.id && [a, b][1] == b;
    assert IndexOfNode([a, b], b.id) == 1;
  }

  // ---------------------------------------------------------------------
  // Wholesale property replacement

  /** `nodes.map(n => n.id === id ? { ...n, properties: props } : n)`: no merge. */
  function ReplaceProps(nodes: seq<Node>, id: string, props: Props): (r: seq<Node>)
    ensures |r| == |nodes|
    ensures forall i :: 0 <= i < |nodes| ==>
              r[i] == if nodes[i].id == id then nodes[i].(props := props) else nodes[i]
  {
    if nodes == [] then []
    else [if nodes[0].id == id then nodes[0].(props := props) else nodes[0]] + ReplaceProps(nodes[1..], id, props)
  }

  /**
   * The edit replaces the node's properties wholesale: a key the supplied
   * properties lack is gone afterwards, unlike the service's merge.
   */
  lemma ReplaceDropsOmittedKeys(nodes: seq<Node>, id: string, props: Props, i: int, key: string)
    requires 0 <= i < |nodes| && nodes[i].id == id
    ensures Get(ReplaceProps(nodes, id, props)[i].props, key) == Get(props, key)
    ensures key !in props ==> Get(ReplaceProps(nodes, id, props)[i].props, key) == Undef
  {
  }

  // ---------------------------------------------------------------------
  // The credit-line rename cascade

  /** `additionalInfo` of type `creditLineNameChange`. */
  datatype Rename = Rename(oldName: string, newName: string)

  /** The working node list and the last edge list handed to `setEdges`, if any. */
  datatype Cascade = Cascade(nodes: seq<Node>, edgesWrite: Option<seq<Edge>>)

  /**
   * The edge with the first occurrence of the old name in its `flowId`
   * replaced by the new one. (A `flowId` that is not a string is left as
   * it is; the component would throw.)
   */
  function RenameFlowId(e: Edge, r: Rename): (e': Edge)
    ensures e'.id == e.id && e'.source == e.source && e'.target == e.target
  {
    match Get(e.props, "flowId")
    case Str(f) => e.(props := e.props["flowId" := Str(ReplaceFirst(f, r.oldName, r.newName))])
    case _ => e
  }

  /** `edges.map(e => e.id === id ? updated : e)`. */
  function ReplaceEdgeById(edges: seq<Edge>, id: string, updated: Edge): (r: seq<Edge>)
    ensures |r| == |edges|
    ensures forall i :: 0 <= i < |edges| ==> r[i] == if edges[i].id == id then updated else edges[i]
  {
    if edges == [] then []
    else [if edges[0].id == id then updated else edges[0]] + ReplaceEdgeById(edges[1..], id, updated)
  }

  /** The cascade's condition for edge `j`: it joins the credit line to a bank that still holds the old name. */
  predicate RenameHits(nodes: seq<Node>, edges: seq<Edge>, nodeId: string, r: Rename, j: int)
    requires 0 <= j < |edges|
  {
    && Incident(edges[j], nodeId)
    && var idx := IndexOfNode(nodes, OtherEnd(edges[j], nodeId));
       && idx >= 0
       && nodes[idx].kind == Bank
       && Get(nodes[idx].props, "creditLine") == Str(r.oldName)
  }

  /** The node list after the cascade's step for the edge at index `j`. */
  function RenameNodesStep(nodes: seq<Node>, edges: seq<Edge>, nodeId: string, r: Rename, j: int): (ns: seq<Node>)
    requires 0 <= j < |edges|
    ensures |ns| == |nodes|
  {
    if !RenameHits(nodes, edges, nodeId, r, j) then nodes
    else
      var idx := IndexOfNode(nodes, OtherEnd(edges[j], nodeId));
      SetPropWhere(nodes, nodes[idx].id, "creditLine", Str(r.newName))
  }

  /** The cascade's working node list after its first `k` edges, starting from the edited node list. */
  function RenameNodes(start: seq<Node>, edges: seq<Edge>, nodeId: string, r: Rename, k: nat): (ns: seq<Node>)
    requires k <= |edges|
    ensures |ns| == |start|
  {
    if k == 0 then start
    else RenameNodesStep(RenameNodes(start, edges, nodeId, r, k - 1), edges, nodeId, r, k - 1)
  }

  /** The cascade's step for edge `j` fires. */
  predicate RenameFires(start: seq<Node>, edges: seq<Edge>, nodeId: string, r: Rename, j: int)
    requires 0 <= j < |edges|
  {
    RenameHits(RenameNodes(start, edges, nodeId, r, j), edges, nodeId, r, j)
  }

  /** The list the step for edge `j` hands to `setEdges`: the original with that edge's `flowId` rewritten. */
  function Rewritten(edges: seq<Edge>, r: Rename, j: int): seq<Edge>
  {
    if 0 <= j < |edges| then ReplaceEdgeById(edges, edges[j].id, RenameFlowId(edges[j], r)) else edges
  }

  /** The rewritten list of each step. */
  function Rewrites(edges: seq<Edge>, r: Rename): int -> seq<Edge>
  {
    (j: int) => Rewritten(edges, r, j)
  }

  /** The last value the first `k` steps wrote, when the steps `fires` selects write `write(j)`. */
  function LastWrite<T>(fires: int -> bool, write: int -> T, k: nat): Option<T>
  {
    if k == 0 then None
    else if fires(k - 1) then Some(write(k - 1))
    else LastWrite(fires, write, k - 1)
  }

  /** The last list the cascade's first `k` steps handed to `setEdges`, if any. */
  function RenameWrite(start: seq<Node>, edges: seq<Edge>, nodeId: string, r: Rename, k: nat): Option<seq<Edge>>
    requires k <= |edges|
  {
    LastWrite(Fires(start, edges, nodeId, r), Rewrites(edges, r), k)
  }

  /** One more edge of the cascade: its node step, and its write when the step fires. */
  lemma RenameFoldStep(start: seq<Node>, edges: seq<Edge>, nodeId: string, r: Rename, j: nat)
    requires j < |edges|
    ensures RenameNodes(start, edges, nodeId, r, j + 1)
            == RenameNodesStep(RenameNodes(start, edges, nodeId, r, j), edges, nodeId, r, j)
    ensures RenameWrite(start, edges, nodeId, r, j + 1)
            == if RenameHits(RenameNodes(start, edges, nodeId, r, j), edges, nodeId, r, j)
               then Some(Rewritten(edges, r, j))
               else RenameWrite(start, edges, nodeId, r, j)
  {
    assert Fires(start, edges, nodeId, r)(j) == RenameFires(start, edges, nodeId, r, j);
    assert Rewrites(edges, r)(j) == Rewritten(edges, r, j);
  }

  /** The cascade's step for edge `j`, in the terms of the loop that runs it. */
  lemma RenameStepCases(start: seq<Node>, edges: seq<Edge>, nodeId: string, r: Rename, j: nat)
    requires j < |edges|
    ensures var nodes := RenameNodes(start, edges, nodeId, r, j);
            var idx := IndexOfNode(nodes, OtherEnd(edges[j], nodeId));
            if Incident(edges[j], nodeId) && idx >= 0 && nodes[idx].kind == Bank
               && Get(nodes[idx].props, "creditLine") == Str(r.oldName)
            then RenameNodes(start, edges, nodeId, r, j + 1)
                 == SetPropWhere(nodes, nodes[idx].id, "creditLine", Str(r.newName))
                 && RenameWrite(start, edges, nodeId, r, j + 1)
                 == Some(ReplaceEdgeById(edges, edges[j].id, RenameFlowId(edges[j], r)))
            else RenameNodes(start, edges, nodeId, r, j + 1) == nodes
                 && RenameWrite(start, edges, nodeId, r, j + 1) == RenameWrite(start, edges, nodeId, r, j)
  {
    RenameFoldStep(start, edges, nodeId, r, j);
  }

  /** The cascade after its first `k` edges. */
  function RenameFold(start: seq<Node>, edges: seq<Edge>, nodeId: string, r: Rename, k: nat): Cascade
    requires k <= |edges|
  {
    Cascade(RenameNodes(start, edges, nodeId, r, k), RenameWrite(start, edges, nodeId, r, k))
  }

  /** The cascade writes properties only. */
  lemma {:induction false} RenameNodesShape(start: seq<Node>, edges: seq<Edge>, nodeId: string, r: Rename, k: nat)
    requires k <= |edges|
    ensures SameShape(start, RenameNodes(start, edges, nodeId, r, k))
  {
    if k > 0 {
      var c := RenameNodes(start, edges, nodeId, r, k - 1);
      RenameNodesShape(start, edges, nodeId, r, k - 1);
      var next := RenameNodesStep(c, edges, nodeId, r, k - 1);
      RenameNodesStepShape(c, edges, nodeId, r, k - 1);
      SameShapeTrans(start, c, next);
      assert RenameNodes(start, edges, nodeId, r, k) == next;
    }
  }

  lemma RenameNodesStepShape(c: seq<Node>, edges: seq<Edge>, nodeId: string, r: Rename, j: int)
    requires 0 <= j < |edges|
    ensures SameShape(c, RenameNodesStep(c, edges, nodeId, r, j))
  {
    if RenameHits(c, edges, nodeId, r, j) {
      var idx := IndexOfNode(c, OtherEnd(edges[j], nodeId));
      SetPropWhereShape(c, c[idx].id, "creditLine", Str(r.newName));
    }
  }

  /** Some of the first `k` edges joins the credit line to the node `id`. */
  predicate LinkedBy(edges: seq<Edge>, nodeId: string, id: string, k: nat)
    requires k <= |edges|
  {
    exists j :: 0 <= j < k && Incident(edges[j], nodeId) && OtherEnd(edges[j], nodeId) == id
  }

  /**
   * After the cascade, a bank joined to the credit line whose `creditLine`
   * held the old name holds the new one; every other node is as the edit
   * left it.
   */
  lemma {:induction false} RenameNodesAt(start: seq<Node>, edges: seq<Edge>, nodeId: string, r: Rename, k: nat, i: int)
    requires NodeIdsUnique(start) && k <= |edges| && 0 <= i < |start|
    ensures RenameNodes(start, edges, nodeId, r, k)[i]
            == if start[i].kind == Bank && Get(start[i].props, "creditLine") == Str(r.oldName)
                  && LinkedBy(edges, nodeId, start[i].id, k)
               then SetProp(start[i], "creditLine", Str(r.newName))
               else start[i]
  {
    if k > 0 {
      var j := k - 1;
      var c := RenameNodes(start, edges, nodeId, r, j);
      RenameNodesShape(start, edges, nodeId, r, j);
      RenameNodesAt(start, edges, nodeId, r, j, i);
      RenameNodesStepAt(start, c, edges, nodeId, r, j, i);
      LinkedByStep(edges, nodeId, start[i].id, j);
      var v := Str(r.newName);
      assert SetProp(SetProp(start[i], "creditLine", v), "creditLine", v) == SetProp(start[i], "creditLine", v);
    }
  }

  /** One step of the cascade changes the node at index `i` exactly when its edge reaches that node and the node is a bank holding the old name. */
  lemma RenameNodesStepAt(start: seq<Node>, c: seq<Node>, edges: seq<Edge>, nodeId: string, r: Rename, j: int, i: int)
    requires NodeIdsUnique(start) && SameKinds(start, c) && 0 <= j < |edges| && 0 <= i < |start|
    ensures RenameNodesStep(c, edges, nodeId, r, j)[i]
            == if Incident(edges[j], nodeId) && OtherEnd(edges[j], nodeId) == start[i].id
                  && c[i].kind == Bank && Get(c[i].props, "creditLine") == Str(r.oldName)
               then SetProp(c[i], "creditLine", Str(r.newName))
               else c[i]
  {
    var cid := OtherEnd(edges[j], nodeId);
    IndexInSameKinds(start, c, cid, i);
    if RenameHits(c, edges, nodeId, r, j) {
      var idx := IndexOfNode(c, cid);
      IndexInSameKinds(start, c, c[idx].id, i);
    }
  }

  /** The edges below `j + 1` link the node `id` when those below `j` do or edge `j` does. */
  lemma LinkedByStep(edges: seq<Edge>, nodeId: string, id: string, j: nat)
    requires j < |edges|
    ensures LinkedBy(edges, nodeId, id, j + 1)
            <==> LinkedBy(edges, nodeId, id, j) || (Incident(edges[j], nodeId) && OtherEnd(edges[j], nodeId) == id)
  {
    if LinkedBy(edges, nodeId, id, j + 1) && !(Incident(edges[j], nodeId) && OtherEnd(edges[j], nodeId) == id) {
      var w :| 0 <= w < j + 1 && Incident(edges[w], nodeId) && OtherEnd(edges[w], nodeId) == id;
      assert w < j;
    }
  }

  /** The last index below `k` that `fires` selects, if any. */
  function LastWhere(fires: int -> bool, k: nat): Option<int>
  {
    if k == 0 then None
    else if fires(k - 1) then Some(k - 1)
    else LastWhere(fires, k - 1)
  }

  /** LastWhere finds a selected index with none after it, and nothing exactly when none is selected. */
  lemma {:induction false} LastWhereIsLast(fires: int -> bool, k: nat)
    ensures var l := LastWhere(fires, k);
            && (l.None? <==> forall j :: 0 <= j < k ==> !fires(j))
            && (l.Some? ==> 0 <= l.value < k && fires(l.value) && forall j :: l.value < j < k ==> !fires(j))
  {
    if k > 0 {
      LastWhereIsLast(fires, k - 1);
    }
  }

  /** The cascade steps that fire. */
  function Fires(start: seq<Node>, edges: seq<Edge>, nodeId: string, r: Rename): int -> bool
  {
    (j: int) => 0 <= j < |edges| && RenameFires(start, edges, nodeId, r, j)
  }

  /**
   * Only the last `setEdges` of the cascade survives: the edge list it
   * leaves is the original list with only the last firing edge's `flowId`
   * rewritten, and there is none when no step fires.
   */
  lemma {:induction false} RenameLastWriteWins<T>(fires: int -> bool, write: int -> T, k: nat)
    ensures LastWrite(fires, write, k)
            == match LastWhere(fires, k)
               case None => None
               case Some(j) => Some(write(j))
  {
    if k > 0 {
      RenameLastWriteWins(fires, write, k - 1);
    }
  }

  /**
   * A step fires for the first edge joining the credit line to a bank that
   * holds the old name (and for every such edge when the name is kept).
   */
  lemma RenameFiresIff(start: seq<Node>, edges: seq<Edge>, nodeId: string, r: Rename, j: int)
    requires NodeIdsUnique(start) && 0 <= j < |edges|
    ensures var idx := IndexOfNode(start, OtherEnd(edges[j], nodeId));
            RenameFires(start, edges, nodeId, r, j)
            <==> Incident(edges[j], nodeId) && idx >= 0 && start[idx].kind == Bank
                 && Get(start[idx].props, "creditLine") == Str(r.oldName)
                 && (r.newName == r.oldName || !LinkedBy(edges, nodeId, start[idx].id, j))
  {
    var c := RenameNodes(start, edges, nodeId, r, j);
    var cid := OtherEnd(edges[j], nodeId);
    var idx := IndexOfNode(start, cid);
    RenameNodesShape(start, edges, nodeId, r, j);
    if idx >= 0 {
      IndexInSameKinds(start, c, cid, idx);
      RenameNodesAt(start, edges, nodeId, r, j, idx);
    } else {
      var cidx := IndexOfNode(c, cid);
      if cidx >= 0 {
        IndexInSameKinds(start, start, cid, cidx);
      }
    }
  }

  // ---------------------------------------------------------------------
  // Pruning on an entity change

  /** `edges.filter(e => !ids.includes(e.id))`. */
  function RemoveIds(edges: seq<Edge>, ids: seq<string>): (r: seq<Edge>)
    ensures forall e :: e in r <==> e in edges && e.id !in ids
  {
    KeepEdges(edges, IdNotIn(ids))
  }

  function IdNotIn(ids: seq<string>): Edge -> bool
  {
    (e: Edge) => e.id !in ids
  }

  /** The ids of the edges among the first `k` that `drop` selects, in order (`edgesToRemove`). */
  function IdsWhere(edges: seq<Edge>, drop: int -> bool, k: nat): (r: seq<string>)
    requires k <= |edges|
    ensures |r| <= k
    ensures forall id :: id in r <==> exists j :: 0 <= j < k && drop(j) && edges[j].id == id
  {
    if k == 0 then []
    else IdsWhere(edges, drop, k - 1) + (if drop(k - 1) then [edges[k - 1].id] else [])
  }

  /** `Removed N connection(s) due to entity mismatch`. */
  function RemovedMessage(n: nat): string
  {
    "Removed " + NatToString(n) + " connection(s) due to entity mismatch"
  }

  /** The projection at the far end of edge `j` of the bank has a suffix other than the new entity. */
  predicate BankDropsAt(nodes: seq<Node>, edges: seq<Edge>, bankId: string, entity: Value, j: int)
    requires 0 <= j < |edges|
  {
    && Incident(edges[j], bankId)
    && var c := FindNode(nodes, OtherEnd(edges[j], bankId));
       && c.Some?
       && c.value.kind == Projection
       && Str(EntityOf(Get(c.value.props, "name"))) != entity
  }

  function BankDrops(nodes: seq<Node>, edges: seq<Edge>, bankId: string, entity: Value): int -> bool
  {
    (j: int) => 0 <= j < |edges| && BankDropsAt(nodes, edges, bankId, entity, j)
  }

  /** The bank at the far end of edge `j` of the projection has an entity other than the new suffix. */
  predicate ProjectionDropsAt(nodes: seq<Node>, edges: seq<Edge>, projId: string, entity: string, j: int)
    requires 0 <= j < |edges|
  {
    && Incident(edges[j], projId)
    && var c := FindNode(nodes, OtherEnd(edges[j], projId));
       && c.Some?
       && c.value.kind == Bank
       && Str(entity) != Get(c.value.props, "entity")
  }

  function ProjectionDrops(nodes: seq<Node>, edges: seq<Edge>, projId: string, entity: string): int -> bool
  {
    (j: int) => 0 <= j < |edges| && ProjectionDropsAt(nodes, edges, projId, entity, j)
  }

  /** Some edge other than `skip` joins the bank to a projection (the renamed one included). */
  predicate HasOtherProjection(nodes: seq<Node>, edges: seq<Edge>, skip: int, bankId: string)
  {
    exists k :: 0 <= k < |edges| && k != skip && Incident(edges[k], bankId)
      && var o := FindNode(nodes, OtherEnd(edges[k], bankId));
         o.Some? && o.value.kind == Projection
  }

  /** Dropping edge `j` also clears its bank's `projectionAware`: no other projection link is left. */
  predicate ClearsAwareAt(nodes: seq<Node>, edges: seq<Edge>, projId: string, entity: string, j: int)
    requires 0 <= j < |edges|
  {
    ProjectionDropsAt(nodes, edges, projId, entity, j)
    && !HasOtherProjection(nodes, edges, j, OtherEnd(edges[j], projId))
  }

  function ClearsAware(nodes: seq<Node>, edges: seq<Edge>, projId: string, entity: string): int -> bool
  {
    (j: int) => 0 <= j < |edges| && ClearsAwareAt(nodes, edges, projId, entity, j)
  }

  /**
   * The working node list after the projection pass has handled the first
   * `k` edges, for the steps `clears` selects.
   */
  function ClearAwareFold(start: seq<Node>, edges: seq<Edge>, projId: string, clears: int -> bool, k: nat)
    : (r: seq<Node>)
    requires k <= |edges|
    ensures |r| == |start|
  {
    if k == 0 then start
    else
      var prev := ClearAwareFold(start, edges, projId, clears, k - 1);
      if clears(k - 1)
      then SetPropWhere(prev, OtherEnd(edges[k - 1], projId), "projectionAware", Bool(false))
      else prev
  }

  /** Some of the first `k` steps clears the flag of the node `id`. */
  predicate AwareClearedBy(edges: seq<Edge>, projId: string, clears: int -> bool, id: string, k: nat)
    requires k <= |edges|
  {
    exists j :: 0 <= j < k && clears(j) && OtherEnd(edges[j], projId) == id
  }

  /** The projection pass writes properties only. */
  lemma {:induction false} ClearAwareFoldShape(start: seq<Node>, edges: seq<Edge>, projId: string,
                                               clears: int -> bool, k: nat)
    requires k <= |edges|
    ensures SameShape(start, ClearAwareFold(start, edges, projId, clears, k))
  {
    if k > 0 {
      ClearAwareFoldShape(start, edges, projId, clears, k - 1);
    }
  }

  /**
   * After the projection pass a bank loses its `projectionAware` exactly
   * when one of its dropped edges was its last projection link; every
   * other node is as before.
   */
  lemma {:induction false} ClearAwareFoldAt(start: seq<Node>, edges: seq<Edge>, projId: string,
                                            clears: int -> bool, k: nat, i: int)
    requires k <= |edges| && 0 <= i < |start|
    ensures ClearAwareFold(start, edges, projId, clears, k)[i]
            == if AwareClearedBy(edges, projId, clears, start[i].id, k)
               then SetProp(start[i], "projectionAware", Bool(false))
               else start[i]
  {
    if k > 0 {
      var j := k - 1;
      ClearAwareFoldAt(start, edges, projId, clears, j, i);
      ClearAwareFoldShape(start, edges, projId, clears, j);
      var v := Bool(false);
      if clears(j) && OtherEnd(edges[j], projId) == start[i].id {
        assert SetProp(SetProp(start[i], "projectionAware", v), "projectionAware", v)
               == SetProp(start[i], "projectionAware", v);
        assert AwareClearedBy(edges, projId, clears, start[i].id, k);
      } else if AwareClearedBy(edges, projId, clears, start[i].id, k) {
        assert AwareClearedBy(edges, projId, clears, start[i].id, j);
      }
    }
  }

  // ---------------------------------------------------------------------
  // The edit as a whole

  /** A bank's `entity` is given a value different from its current one. */
  predicate BankEntityChange(nodes: seq<Node>, id: string, props: Props)
  {
    var t := FindNode(nodes, id);
    t.Some? && t.value.kind == Bank && Get(props, "entity") != Undef
    && Get(props, "entity") != Get(t.value.props, "entity")
  }

  /** A projection is renamed and the entity suffix of its name changes. */
  predicate ProjectionSuffixChange(nodes: seq<Node>, id: string, props: Props)
  {
    var t := FindNode(nodes, id);
    t.Some? && t.value.kind == Projection && Get(props, "name") != Undef
    && Get(props, "name") != Get(t.value.props, "name")
    && EntityOf(Get(t.value.props, "name")) != EntityOf(Get(props, "name"))
  }

  /** The node list after the wholesale replacement and the credit-line cascade. */
  function AfterCascade(nodes: seq<Node>, edges: seq<Edge>, id: string, props: Props, rename: Option<Rename>): Cascade
  {
    var start := ReplaceProps(nodes, id, props);
    if rename.Some? && FindNode(nodes, id).Some? then RenameFold(start, edges, id, rename.value, |edges|)
    else Cascade(start, None)
  }

  /** The ids a bank's entity change drops. */
  function BankDropIds(nodes: seq<Node>, edges: seq<Edge>, id: string, props: Props): seq<string>
  {
    if BankEntityChange(nodes, id, props)
    then IdsWhere(edges, BankDrops(nodes, edges, id, Get(props, "entity")), |edges|)
    else []
  }

  /** The ids a projection's suffix change drops. */
  function ProjectionDropIds(nodes: seq<Node>, edges: seq<Edge>, id: string, props: Props): seq<string>
  {
    if ProjectionSuffixChange(nodes, id, props)
    then IdsWhere(edges, ProjectionDrops(nodes, edges, id, EntityOf(Get(props, "name"))), |edges|)
    else []
  }

  /** The node list the edit stores. */
  function EditedNodes(nodes: seq<Node>, edges: seq<Edge>, id: string, props: Props, rename: Option<Rename>): seq<Node>
  {
    var c := AfterCascade(nodes, edges, id, props, rename);
    if ProjectionSuffixChange(nodes, id, props)
    then ClearAwareFold(c.nodes, edges, id, ClearsAware(nodes, edges, id, EntityOf(Get(props, "name"))), |edges|)
    else c.nodes
  }

  /** The edge list the edit stores: the last `setEdges` call wins. */
  function EditedEdges(nodes: seq<Node>, edges: seq<Edge>, id: string, props: Props, rename: Option<Rename>): seq<Edge>
  {
    var dropP := ProjectionDropIds(nodes, edges, id, props);
    var dropB := BankDropIds(nodes, edges, id, props);
    var c := AfterCascade(nodes, edges, id, props, rename);
    if |dropP| > 0 then RemoveIds(edges, dropP)
    else if |dropB| > 0 then RemoveIds(edges, dropB)
    else if c.edgesWrite.Some? then c.edgesWrite.value
    else edges
  }

  /** The error banner after the edit. */
  function EditedError(nodes: seq<Node>, edges: seq<Edge>, id: string, props: Props, error: Option<string>): Option<string>
  {
    var dropP := ProjectionDropIds(nodes, edges, id, props);
    var dropB := BankDropIds(nodes, edges, id, props);
    if |dropP| > 0 then Some(RemovedMessage(|dropP|))
    else if |dropB| > 0 then Some(RemovedMessage(|dropB|))
    else error
  }

  /** Edge ids are pairwise distinct. */
  predicate EdgeIdsUnique(edges: seq<Edge>)
  {
    forall i, j :: 0 <= i < j < |edges| ==> edges[i].id != edges[j].id
  }

  /** Two edge lists joining the same pairs, index by index. */
  predicate SameEnds(a: seq<Edge>, b: seq<Edge>)
  {
    |a| == |b| && forall i :: 0 <= i < |a| ==> a[i].source == b[i].source && a[i].target == b[i].target
  }

  lemma SameEndsKeepInvariant(nodes: seq<Node>, a: seq<Edge>, b: seq<Edge>)
    requires SameEnds(a, b) && GraphInvariant(nodes, a)
    ensures GraphInvariant(nodes, b)
  {
    forall j | 0 <= j < |b| ensures TouchesBank(nodes, b[j]) {
      assert TouchesBank(nodes, a[j]);
    }
  }

  /** Dropping edges by id keeps the structural rules. */
  lemma RemoveIdsKeepsInvariant(nodes: seq<Node>, edges: seq<Edge>, ids: seq<string>)
    requires GraphInvariant(nodes, edges)
    ensures GraphInvariant(nodes, RemoveIds(edges, ids))
  {
    var r := RemoveIds(edges, ids);
    NoDuplicatePairsKeep(edges, IdNotIn(ids));
    forall j | 0 <= j < |r| ensures TouchesBank(nodes, r[j]) {
      assert r[j] in edges;
      var k :| 0 <= k < |edges| && edges[k] == r[j];
    }
  }

  /**
   * With distinct edge ids the cascade's stored list joins the same pairs
   * as before: it rewrites one edge's `flowId` only.
   */
  lemma CascadeWriteSameEnds(start: seq<Node>, edges: seq<Edge>, id: string, r: Rename)
    requires EdgeIdsUnique(edges)
    ensures var w := RenameFold(start, edges, id, r, |edges|).edgesWrite;
            w.Some? ==> SameEnds(edges, w.value)
  {
    RenameLastWriteWins(Fires(start, edges, id, r), Rewrites(edges, r), |edges|);
    var l := LastWhere(Fires(start, edges, id, r), |edges|);
    LastWhereIsLast(Fires(start, edges, id, r), |edges|);
    if l.Some? {
      ReplaceKeepsEnds(edges, l.value, r);
    }
  }

  lemma ReplaceKeepsEnds(edges: seq<Edge>, j: int, r: Rename)
    requires EdgeIdsUnique(edges) && 0 <= j < |edges|
    ensures SameEnds(edges, ReplaceEdgeById(edges, edges[j].id, RenameFlowId(edges[j], r)))
  {
    var w := ReplaceEdgeById(edges, edges[j].id, RenameFlowId(edges[j], r));
    forall i | 0 <= i < |edges| ensures w[i].source == edges[i].source && w[i].target == edges[i].target {
      if i != j {
        assert edges[i].id != edges[j].id by {
          if i < j { assert edges[i].id != edges[j].id; } else { assert edges[j].id != edges[i].id; }
        }
      }
    }
  }

  lemma SameShapeTrans(a: seq<Node>, b: seq<Node>, c: seq<Node>)
    requires SameShape(a, b) && SameShape(b, c)
    ensures SameShape(a, c)
  {
  }

  /** The edit changes properties only: same ids, types and positions. */
  lemma EditedNodesShape(nodes: seq<Node>, edges: seq<Edge>, id: string, props: Props, rename: Option<Rename>)
    ensures SameShape(nodes, AfterCascade(nodes, edges, id, props, rename).nodes)
    ensures SameShape(nodes, EditedNodes(nodes, edges, id, props, rename))
  {
    var c := AfterCascade(nodes, edges, id, props, rename);
    AfterCascadeShape(nodes, edges, id, props, rename);
    if ProjectionSuffixChange(nodes, id, props) {
      var clears := ClearsAware(nodes, edges, id, EntityOf(Get(props, "name")));
      ClearAwareFoldShape(c.nodes, edges, id, clears, |edges|);
      SameShapeTrans(nodes, c.nodes, ClearAwareFold(c.nodes, edges, id, clears, |edges|));
    }
  }

  lemma AfterCascadeShape(nodes: seq<Node>, edges: seq<Edge>, id: string, props: Props, rename: Option<Rename>)
    ensures SameShape(nodes, AfterCascade(nodes, edges, id, props, rename).nodes)
  {
    var start := ReplaceProps(nodes, id, props);
    ReplacePropsShape(nodes, id, props);
    if rename.Some? && FindNode(nodes, id).Some? {
      RenameNodesShape(start, edges, id, rename.value, |edges|);
      SameShapeTrans(nodes, start, RenameNodes(start, edges, id, rename.value, |edges|));
    }
  }

  lemma ReplacePropsShape(nodes: seq<Node>, id: string, props: Props)
    ensures SameShape(nodes, ReplaceProps(nodes, id, props))
  {
  }

  /** A property edit keeps the structural rules, given distinct edge ids. */
  lemma EditKeepsInvariant(nodes: seq<Node>, edges: seq<Edge>, id: string, props: Props, rename: Option<Rename>)
    requires GraphInvariant(nodes, edges) && EdgeIdsUnique(edges)
    ensures GraphInvariant(EditedNodes(nodes, edges, id, props, rename), EditedEdges(nodes, edges, id, props, rename))
  {
    var en := EditedNodes(nodes, edges, id, props, rename);
    var ee := EditedEdges(nodes, edges, id, props, rename);
    var c := AfterCascade(nodes, edges, id, props, rename);
    EditedNodesShape(nodes, edges, id, props, rename);
    RemoveIdsKeepsInvariant(nodes, edges, ProjectionDropIds(nodes, edges, id, props));
    RemoveIdsKeepsInvariant(nodes, edges, BankDropIds(nodes, edges, id, props));
    if rename.Some? && FindNode(nodes, id).Some? {
      CascadeWriteSameEnds(ReplaceProps(nodes, id, props), edges, id, rename.value);
      if c.edgesWrite.Some? {
        SameEndsKeepInvariant(nodes, edges, c.edgesWrite.value);
      }
    }
    assert GraphInvariant(nodes, ee);
    AtMostOneStreetSameShape(nodes, en);
    TouchesBankSameShape(nodes, en, ee);
  }

  /**
   * A bank's entity change: the bank's properties become exactly the
   * supplied ones (the `projectionAware: false` the component writes into
   * its copy of them is not among them), and the edges dropped are exactly
   * its links to projections whose name suffix differs from the new entity,
   * reported in the error banner.
   */
  lemma BankEntityChangeEffect(nodes: seq<Node>, edges: seq<Edge>, id: string, props: Props, error: Option<string>)
    requires BankEntityChange(nodes, id, props)
    ensures var en := EditedNodes(nodes, edges, id, props, None);
            && |en| == |nodes|
            && forall i :: 0 <= i < |nodes| ==> en[i] == if nodes[i].id == id then nodes[i].(props := props) else nodes[i]
    ensures forall e :: e in EditedEdges(nodes, edges, id, props, None)
              <==> e in edges
                   && !exists j :: 0 <= j < |edges| && BankDropsAt(nodes, edges, id, Get(props, "entity"), j) && edges[j].id == e.id
    ensures var drop := BankDropIds(nodes, edges, id, props);
            EditedError(nodes, edges, id, props, error) == if drop == [] then error else Some(RemovedMessage(|drop|))
  {
    var entity := Get(props, "entity");
    var drop := BankDropIds(nodes, edges, id, props);
    BankChangeOnly(nodes, edges, id, props);
    forall e | e in edges
      ensures e.id in drop
              <==> exists j :: 0 <= j < |edges| && BankDropsAt(nodes, edges, id, entity, j) && edges[j].id == e.id
    {
      BankDropIdsIff(nodes, edges, id, entity, e.id);
    }
  }

  /** A bank's entity change is no projection rename: the edit replaces the properties, then prunes by the bank's drops only. */
  lemma BankChangeOnly(nodes: seq<Node>, edges: seq<Edge>, id: string, props: Props)
    requires BankEntityChange(nodes, id, props)
    ensures ProjectionDropIds(nodes, edges, id, props) == []
    ensures EditedNodes(nodes, edges, id, props, None) == ReplaceProps(nodes, id, props)
    ensures var drop := BankDropIds(nodes, edges, id, props);
            EditedEdges(nodes, edges, id, props, None) == if |drop| > 0 then RemoveIds(edges, drop) else edges
  {
    assert !ProjectionSuffixChange(nodes, id, props);
  }

  /** An id is in a bank's drop list exactly when an edge it drops carries that id. */
  lemma BankDropIdsIff(nodes: seq<Node>, edges: seq<Edge>, id: string, entity: Value, x: string)
    ensures x in IdsWhere(edges, BankDrops(nodes, edges, id, entity), |edges|)
            <==> exists j :: 0 <= j < |edges| && BankDropsAt(nodes, edges, id, entity, j) && edges[j].id == x
  {
    var drops := BankDrops(nodes, edges, id, entity);
    if x in IdsWhere(edges, drops, |edges|) {
      var j :| 0 <= j < |edges| && drops(j) && edges[j].id == x;
    }
    if exists j :: 0 <= j < |edges| && BankDropsAt(nodes, edges, id, entity, j) && edges[j].id == x {
      var j :| 0 <= j < |edges| && BankDropsAt(nodes, edges, id, entity, j) && edges[j].id == x;
      assert drops(j);
    }
  }

  /**
   * A bank's entity change drops its links to projections of another
   * entity but stores the supplied properties as they are: when the form
   * passes the bank's own properties with only the entity changed, a bank
   * that loses every projection keeps `projectionAware` true.
   */
  lemma EntityChangeLeavesProjectionFlag(nodes: seq<Node>, edges: seq<Edge>, b: Node, entity: Value)
    requires NodeIdsUnique(nodes) && DerivedFlagsTrack(nodes, edges) && b in nodes && b.kind == Bank
    requires entity != Undef && entity != Get(b.props, "entity") && Linked(nodes, edges, b.id, Projection)
    requires forall p :: p in nodes && p.kind == Projection && JoinedTo(edges, b.id, p.id) ==>
               Str(EntityOf(Get(p.props, "name"))) != entity
    ensures var props := b.props["entity" := entity];
            !DerivedFlagsTrack(EditedNodes(nodes, edges, b.id, props, None), EditedEdges(nodes, edges, b.id, props, None))
  {
    var props := b.props["entity" := entity];
    FindListed(nodes, b);
    assert BankEntityChange(nodes, b.id, props);
    BankChangeOnly(nodes, edges, b.id, props);
    var p :| p in nodes && p.kind == Projection && JoinedTo(edges, b.id, p.id);
    DroppedLink(nodes, edges, b, entity, p);
    assert BankFlagsTrack(nodes, edges, b);
    FlagOutlivesDrop(nodes, edges, b, entity);
  }

  /** The bank keeps its `projectionAware` true through the replacement, and the drop leaves it no projection. */
  lemma FlagOutlivesDrop(nodes: seq<Node>, edges: seq<Edge>, b: Node, entity: Value)
    requires NodeIdsUnique(nodes) && b in nodes && b.kind == Bank && Get(b.props, "projectionAware") == Bool(true)
    requires forall p :: p in nodes && p.kind == Projection && JoinedTo(edges, b.id, p.id) ==>
               Str(EntityOf(Get(p.props, "name"))) != entity
    ensures !DerivedFlagsTrack(ReplaceProps(nodes, b.id, b.props["entity" := entity]),
                               RemoveIds(edges, IdsWhere(edges, BankDrops(nodes, edges, b.id, entity), |edges|)))
  {
    var props := b.props["entity" := entity];
    var en := ReplaceProps(nodes, b.id, props);
    var i :| 0 <= i < |nodes| && nodes[i] == b;
    assert en[i] == b.(props := props) && en[i] in en;
    NoProjectionLeft(nodes, edges, b, props, entity);
    ProjectionFlagBehind(en, RemoveIds(edges, IdsWhere(edges, BankDrops(nodes, edges, b.id, entity), |edges|)), en[i]);
  }

  /** After the entity change drops them, no edge joins the bank to a projection. */
  lemma NoProjectionLeft(nodes: seq<Node>, edges: seq<Edge>, b: Node, props: Props, entity: Value)
    requires NodeIdsUnique(nodes) && b in nodes && b.kind == Bank
    requires forall p :: p in nodes && p.kind == Projection && JoinedTo(edges, b.id, p.id) ==>
               Str(EntityOf(Get(p.props, "name"))) != entity
    ensures !Linked(ReplaceProps(nodes, b.id, props),
                    RemoveIds(edges, IdsWhere(edges, BankDrops(nodes, edges, b.id, entity), |edges|)), b.id, Projection)
  {
    var en := ReplaceProps(nodes, b.id, props);
    var ee := RemoveIds(edges, IdsWhere(edges, BankDrops(nodes, edges, b.id, entity), |edges|));
    forall n | n in en && n.kind == Projection ensures !JoinedTo(ee, b.id, n.id) {
      var k :| 0 <= k < |en| && en[k] == n;
      assert nodes[k] == n && n in nodes;
      if JoinedTo(ee, b.id, n.id) {
        var e :| e in ee && Incident(e, b.id) && OtherEnd(e, b.id) == n.id;
        assert JoinedTo(edges, b.id, n.id);
        DroppedLink(nodes, edges, b, entity, n);
      }
    }
  }

  /** An edge from the bank to a projection of another entity is among the ids the entity change drops. */
  lemma DroppedLink(nodes: seq<Node>, edges: seq<Edge>, b: Node, entity: Value, p: Node)
    requires NodeIdsUnique(nodes) && p in nodes && p.kind == Projection && JoinedTo(edges, b.id, p.id)
    requires Str(EntityOf(Get(p.props, "name"))) != entity
    ensures |IdsWhere(edges, BankDrops(nodes, edges, b.id, entity), |edges|)| > 0
    ensures forall e :: e in edges && Incident(e, b.id) && OtherEnd(e, b.id) == p.id ==>
              e.id in IdsWhere(edges, BankDrops(nodes, edges, b.id, entity), |edges|)
  {
    FindListed(nodes, p);
    forall e | e in edges && Incident(e, b.id) && OtherEnd(e, b.id) == p.id
      ensures e.id in IdsWhere(edges, BankDrops(nodes, edges, b.id, entity), |edges|)
    {
      var j :| 0 <= j < |edges| && edges[j] == e;
      assert BankDropsAt(nodes, edges, b.id, entity, j);
      BankDropIdsIff(nodes, edges, b.id, entity, e.id);
    }
    var e :| e in edges && Incident(e, b.id) && OtherEnd(e, b.id) == p.id;
    assert e.id in IdsWhere(edges, BankDrops(nodes, edges, b.id, entity), |edges|);
  }

  /**
   * A projection rename across entities: a bank loses its
   * `projectionAware` exactly when a dropped edge was its last link to a
   * projection, every other node keeps what the wholesale replacement left,
   * and the edges dropped are exactly the projection's links to banks of
   * another entity.
   */
  lemma ProjectionRenameEffect(nodes: seq<Node>, edges: seq<Edge>, id: string, props: Props)
    requires ProjectionSuffixChange(nodes, id, props)
    ensures var entity := EntityOf(Get(props, "name"));
            var start := ReplaceProps(nodes, id, props);
            var en := EditedNodes(nodes, edges, id, props, None);
            && |en| == |nodes|
            && forall i :: 0 <= i < |nodes| ==>
                 en[i] == if AwareClearedBy(edges, id, ClearsAware(nodes, edges, id, entity), nodes[i].id, |edges|)
                          then SetProp(start[i], "projectionAware", Bool(false))
                          else start[i]
    ensures forall e :: e in EditedEdges(nodes, edges, id, props, None)
              <==> e in edges
                   && !exists j :: 0 <= j < |edges| && ProjectionDropsAt(nodes, edges, id, EntityOf(Get(props, "name")), j)
                                   && edges[j].id == e.id
  {
    var entity := EntityOf(Get(props, "name"));
    var start := ReplaceProps(nodes, id, props);
    var clears := ClearsAware(nodes, edges, id, entity);
    ProjectionChangeOnly(nodes, edges, id, props);
    forall i | 0 <= i < |nodes|
      ensures ClearAwareFold(start, edges, id, clears, |edges|)[i]
              == if AwareClearedBy(edges, id, clears, nodes[i].id, |edges|)
                 then SetProp(start[i], "projectionAware", Bool(false)) else start[i]
    {
      ClearAwareFoldAt(start, edges, id, clears, |edges|, i);
    }
    var drop := ProjectionDropIds(nodes, edges, id, props);
    forall e | e in edges
      ensures e.id in drop
              <==> exists j :: 0 <= j < |edges| && ProjectionDropsAt(nodes, edges, id, entity, j) && edges[j].id == e.id
    {
      ProjectionDropIdsIff(nodes, edges, id, entity, e.id);
    }
  }

  /** A projection's suffix change is no bank entity change: the edit replaces the properties, then runs the projection pass only. */
  lemma ProjectionChangeOnly(nodes: seq<Node>, edges: seq<Edge>, id: string, props: Props)
    requires ProjectionSuffixChange(nodes, id, props)
    ensures BankDropIds(nodes, edges, id, props) == []
    ensures var entity := EntityOf(Get(props, "name"));
            EditedNodes(nodes, edges, id, props, None)
            == ClearAwareFold(ReplaceProps(nodes, id, props), edges, id, ClearsAware(nodes, edges, id, entity), |edges|)
    ensures var drop := ProjectionDropIds(nodes, edges, id, props);
            && drop == IdsWhere(edges, ProjectionDrops(nodes, edges, id, EntityOf(Get(props, "name"))), |edges|)
            && EditedEdges(nodes, edges, id, props, None) == if |drop| > 0 then RemoveIds(edges, drop) else edges
  {
    assert !BankEntityChange(nodes, id, props);
  }

  /** An id is in a projection's drop list exactly when an edge it drops carries that id. */
  lemma ProjectionDropIdsIff(nodes: seq<Node>, edges: seq<Edge>, id: string, entity: string, x: string)
    ensures x in IdsWhere(edges, ProjectionDrops(nodes, edges, id, entity), |edges|)
            <==> exists j :: 0 <= j < |edges| && ProjectionDropsAt(nodes, edges, id, entity, j) && edges[j].id == x
  {
    var drops := ProjectionDrops(nodes, edges, id, entity);
    if x in IdsWhere(edges, drops, |edges|) {
      var j :| 0 <= j < |edges| && drops(j) && edges[j].id == x;
    }
    if exists j :: 0 <= j < |edges| && ProjectionDropsAt(nodes, edges, id, entity, j) && edges[j].id == x {
      var j :| 0 <= j < |edges| && ProjectionDropsAt(nodes, edges, id, entity, j) && edges[j].id == x;
      assert drops(j);
    }
  }

  /**
   * A credit line's rename: a bank joined to it whose `creditLine` held the
   * old name now holds the new one, every other node keeps what the
   * wholesale replacement left, and the edge list stored is the last one
   * the cascade wrote, if any.
   */
  lemma CreditLineRenameEffect(nodes: seq<Node>, edges: seq<Edge>, id: string, props: Props, r: Rename)
    requires NodeIdsUnique(nodes)
    requires FindNode(nodes, id).Some? && FindNode(nodes, id).value.kind == CreditLine
    ensures var start := ReplaceProps(nodes, id, props);
            var en := EditedNodes(nodes, edges, id, props, Some(r));
            && |en| == |nodes|
            && forall i :: 0 <= i < |nodes| ==>
                 en[i] == if start[i].kind == Bank && Get(start[i].props, "creditLine") == Str(r.oldName)
                             && LinkedBy(edges, id, start[i].id, |edges|)
                          then SetProp(start[i], "creditLine", Str(r.newName))
                          else start[i]
    ensures var w := RenameFold(ReplaceProps(nodes, id, props), edges, id, r, |edges|).edgesWrite;
            EditedEdges(nodes, edges, id, props, Some(r)) == if w.Some? then w.value else edges
    ensures EditedError(nodes, edges, id, props, None) == None
  {
    var start := ReplaceProps(nodes, id, props);
    assert !BankEntityChange(nodes, id, props) && !ProjectionSuffixChange(nodes, id, props);
    UniqueSameKinds(nodes, start);
    forall i | 0 <= i < |nodes|
      ensures EditedNodes(nodes, edges, id, props, Some(r))[i]
              == if start[i].kind == Bank && Get(start[i].props, "creditLine") == Str(r.oldName)
                    && LinkedBy(edges, id, start[i].id, |edges|)
                 then SetProp(start[i], "creditLine", Str(r.newName))
                 else start[i]
    {
      RenameNodesAt(start, edges, id, r, |edges|, i);
    }
  }

  // ---------------------------------------------------------------------
  // The three passes and the edit

  /**
   * The credit-line cascade's `forEach`: banks holding the old name take
   * the new one, and each firing edge hands a freshly rewritten copy of
   * the original edge list to `setEdges`.
   */
  method CascadeRename(g: Graph, start: seq<Node>, edges: seq<Edge>, nodeId: string, r: Rename)
    returns (updatedNodes: seq<Node>)
    modifies g`edges
    ensures updatedNodes == RenameNodes(start, edges, nodeId, r, |edges|)
    ensures var w := RenameWrite(start, edges, nodeId, r, |edges|);
            g.edges == if w.Some? then w.value else old(g.edges)
  {
    updatedNodes := start;
    ghost var written: Option<seq<Edge>> := None;
    var j := 0;
    while j < |edges|
      invariant 0 <= j <= |edges|
      invariant updatedNodes == RenameNodes(start, edges, nodeId, r, j)
      invariant written == RenameWrite(start, edges, nodeId, r, j)
      invariant g.edges == if written.Some? then written.value else old(g.edges)
    {
      RenameStepCases(start, edges, nodeId, r, j);
      var edge := edges[j];
      if edge.source == nodeId || edge.target == nodeId {
        var connectedNodeId := if edge.source == nodeId then edge.target else edge.source;
        var connectedNodeIndex := IndexOfNode(updatedNodes, connectedNodeId);
        if connectedNodeIndex >= 0 && updatedNodes[connectedNodeIndex].kind == Bank
           && Get(updatedNodes[connectedNodeIndex].props, "creditLine") == Str(r.oldName) {
          var connectedNode := updatedNodes[connectedNodeIndex];
          updatedNodes := SetPropWhere(updatedNodes, connectedNode.id, "creditLine", Str(r.newName));
          var updatedEdge := RenameFlowId(edge, r);
          g.edges := ReplaceEdgeById(edges, edge.id, updatedEdge);
          written := Some(g.edges);
        }
      }
      j := j + 1;
    }
  }

  /** The bank pass's `forEach`: the ids of incident projection edges whose suffix differs from the new entity. */
  method CollectBankDrops(nodes: seq<Node>, edges: seq<Edge>, bankId: string, entity: Value)
    returns (edgesToRemove: seq<string>)
    ensures edgesToRemove == IdsWhere(edges, BankDrops(nodes, edges, bankId, entity), |edges|)
  {
    edgesToRemove := [];
    var j := 0;
    while j < |edges|
      invariant 0 <= j <= |edges|
      invariant edgesToRemove == IdsWhere(edges, BankDrops(nodes, edges, bankId, entity), j)
    {
      var edge := edges[j];
      if edge.source == bankId || edge.target == bankId {
        var connectedNodeId := if edge.source == bankId then edge.target else edge.source;
        var connectedNode := FindNode(nodes, connectedNodeId);
        if connectedNode.Some? && connectedNode.value.kind == Projection {
          var projectionEntity := EntityOf(Get(connectedNode.value.props, "name"));
          if Str(projectionEntity) != entity {
            edgesToRemove := edgesToRemove + [edge.id];
          }
        }
      }
      j := j + 1;
    }
  }

  /**
   * The projection pass's `forEach`: the ids of incident edges to banks of
   * another entity, clearing such a bank's `projectionAware` when no other
   * edge joins it to a projection.
   */
  method PruneProjectionLinks(nodes: seq<Node>, start: seq<Node>, edges: seq<Edge>, projId: string, entity: string)
    returns (updatedNodes: seq<Node>, edgesToRemove: seq<string>)
    ensures updatedNodes == ClearAwareFold(start, edges, projId, ClearsAware(nodes, edges, projId, entity), |edges|)
    ensures edgesToRemove == IdsWhere(edges, ProjectionDrops(nodes, edges, projId, entity), |edges|)
  {
    updatedNodes := start;
    edgesToRemove := [];
    var j := 0;
    while j < |edges|
      invariant 0 <= j <= |edges|
      invariant updatedNodes == ClearAwareFold(start, edges, projId, ClearsAware(nodes, edges, projId, entity), j)
      invariant edgesToRemove == IdsWhere(edges, ProjectionDrops(nodes, edges, projId, entity), j)
    {
      var edge := edges[j];
      if edge.source == projId || edge.target == projId {
        var connectedNodeId := if edge.source == projId then edge.target else edge.source;
        var connectedNode := FindNode(nodes, connectedNodeId);
        if connectedNode.Some? && connectedNode.value.kind == Bank
           && Str(entity) != Get(connectedNode.value.props, "entity") {
          edgesToRemove := edgesToRemove + [edge.id];
          var bankNodeId := connectedNode.value.id;
          if !HasOtherProjection(nodes, edges, j, bankNodeId) {
            updatedNodes := SetPropWhere(updatedNodes, bankNodeId, "projectionAware", Bool(false));
          }
        }
      }
      j := j + 1;
    }
  }

  /** The bank branch: a changed entity drops the mismatched projection edges and reports how many. */
  method ApplyBankEntityChange(g: Graph, nodes: seq<Node>, edges: seq<Edge>, nodeId: string, props: Props)
    modifies g`edges, g`error
    ensures var drop := BankDropIds(nodes, edges, nodeId, props);
            if |drop| > 0 then g.edges == RemoveIds(edges, drop) && g.error == Some(RemovedMessage(|drop|))
            else g.edges == old(g.edges) && g.error == old(g.error)
  {
    var nodeToUpdate := FindNode(nodes, nodeId);
    if nodeToUpdate.Some? && nodeToUpdate.value.kind == Bank && Get(props, "entity") != Undef
       && Get(props, "entity") != Get(nodeToUpdate.value.props, "entity") {
      var edgesToRemove := CollectBankDrops(nodes, edges, nodeId, Get(props, "entity"));
      if |edgesToRemove| > 0 {
        g.edges := RemoveIds(edges, edgesToRemove);
        g.error := Some(RemovedMessage(|edgesToRemove|));
      }
    }
  }

  /**
   * The projection branch: a rename that changes the entity suffix drops
   * the edges to banks of another entity, clears `projectionAware` where
   * no other projection link remains, and reports how many edges went.
   */
  method ApplyProjectionRename(g: Graph, nodes: seq<Node>, edges: seq<Edge>, nodeId: string, props: Props, current: seq<Node>)
    returns (updatedNodes: seq<Node>)
    modifies g`edges, g`error
    ensures updatedNodes
            == if ProjectionSuffixChange(nodes, nodeId, props)
               then ClearAwareFold(current, edges, nodeId, ClearsAware(nodes, edges, nodeId, EntityOf(Get(props, "name"))), |edges|)
               else current
    ensures var drop := ProjectionDropIds(nodes, edges, nodeId, props);
            if |drop| > 0 then g.edges == RemoveIds(edges, drop) && g.error == Some(RemovedMessage(|drop|))
            else g.edges == old(g.edges) && g.error == old(g.error)
  {
    updatedNodes := current;
    var nodeToUpdate := FindNode(nodes, nodeId);
    if nodeToUpdate.Some? && nodeToUpdate.value.kind == Projection && Get(props, "name") != Undef
       && Get(props, "name") != Get(nodeToUpdate.value.props, "name") {
      var oldEntity := EntityOf(Get(nodeToUpdate.value.props, "name"));
      var newEntity := EntityOf(Get(props, "name"));
      if oldEntity != newEntity {
        var edgesToRemove;
        updatedNodes, edgesToRemove := PruneProjectionLinks(nodes, current, edges, nodeId, newEntity);
        if |edgesToRemove| > 0 {
          g.edges := RemoveIds(edges, edgesToRemove);
          g.error := Some(RemovedMessage(|edgesToRemove|));
        }
      }
    }
  }

  /**
   * An accepted edit up to `setNodes`: the wholesale replacement, the
   * credit-line cascade and the bank and projection branches, in source
   * order; the edge list and error left behind are the last ones written.
   */
  method ApplyEdit(g: Graph, nodes: seq<Node>, edges: seq<Edge>, nodeId: string, props: Props, rename: Option<Rename>)
    returns (updatedNodes: seq<Node>)
    requires g.edges == edges
    modifies g`edges, g`error
    ensures updatedNodes == EditedNodes(nodes, edges, nodeId, props, rename)
    ensures g.edges == EditedEdges(nodes, edges, nodeId, props, rename)
    ensures g.error == EditedError(nodes, edges, nodeId, props, old(g.error))
  {
    ghost var c := AfterCascade(nodes, edges, nodeId, props, rename);
    var nodeToUpdate := FindNode(nodes, nodeId);
    updatedNodes := ReplaceProps(nodes, nodeId, props);
    if rename.Some? && nodeToUpdate.Some? {
      updatedNodes := CascadeRename(g, updatedNodes, edges, nodeId, rename.value);
    }
    assert updatedNodes == c.nodes;
    ApplyBankEntityChange(g, nodes, edges, nodeId, props);
    updatedNodes := ApplyProjectionRename(g, nodes, edges, nodeId, props, updatedNodes);
    assert BankDropIds(nodes, edges, nodeId, props) == [] || ProjectionDropIds(nodes, edges, nodeId, props) == [];
  }

  /**
   * `updateNodeProperties(nodeId, updatedProperties, additionalInfo)`: a
   * refused edit only sets the error; otherwise the node's properties are
   * replaced, the cascades run, the last edge list written is stored and
   * a selected copy of the node is re-read.
   */
  method UpdateNodeProperties(g: Graph, nodeId: string, props: Props, rename: Option<Rename>)
    modifies g`nodes, g`edges, g`error, g`selectedNode
    ensures ValidateEdit(old(g.nodes), nodeId, props).Some? ==>
              && g.error == ValidateEdit(old(g.nodes), nodeId, props)
              && g.nodes == old(g.nodes) && g.edges == old(g.edges) && g.selectedNode == old(g.selectedNode)
    ensures ValidateEdit(old(g.nodes), nodeId, props).None? ==>
              && g.nodes == EditedNodes(old(g.nodes), old(g.edges), nodeId, props, rename)
              && g.edges == EditedEdges(old(g.nodes), old(g.edges), nodeId, props, rename)
              && g.error == EditedError(old(g.nodes), old(g.edges), nodeId, props, old(g.error))
              && g.selectedNode == if old(g.selectedNode).Some? && old(g.selectedNode).value.id == nodeId
                                   then FindNode(g.nodes, nodeId) else old(g.selectedNode)
    ensures old(GraphInvariant(g.nodes, g.edges)) && old(EdgeIdsUnique(g.edges)) ==> GraphInvariant(g.nodes, g.edges)
  {
    var nodes := g.nodes;
    var edges := g.edges;
    var invalid := ValidateEdit(nodes, nodeId, props);
    if invalid.Some? {
      g.error := invalid;
      return;
    }
    if GraphInvariant(nodes, edges) && EdgeIdsUnique(edges) {
      EditKeepsInvariant(nodes, edges, nodeId, props, rename);
    }
    var updatedNodes := ApplyEdit(g, nodes, edges, nodeId, props, rename);
    g.nodes := updatedNodes;
    if g.selectedNode.Some? && g.selectedNode.value.id == nodeId {
      g.selectedNode := FindNode(updatedNodes, nodeId);
    }
  }

  // ---------------------------------------------------------------------
  // addStreetNode and handleWheel

  /** `addStreetNode(x, y)`: refused when a street exists; the new street's id is the caller's timestamp. */
  method AddStreetNode(g: Graph, x: real, y: real, id: string) returns (added: bool)
    modifies g`nodes, g`error
    ensures CountKind(old(g.nodes), Street) > 0 ==>
              !added && g.error == Some(NodeManager.ONE_STREET_ERROR) && g.nodes == old(g.nodes)
    ensures CountKind(old(g.nodes), Street) == 0 ==>
              added && g.nodes == old(g.nodes) + [Node(id, x, y, Street, map[])] && g.error == old(g.error)
    ensures old(GraphInvariant(g.nodes, g.edges)) ==> GraphInvariant(g.nodes, g.edges)
  {
    if CountKind(g.nodes, Street) > 0 {
      g.error := Some(NodeManager.ONE_STREET_ERROR);
      return false;
    }
    var newNode := Node(id, x, y, Street, map[]);
    if GraphInvariant(g.nodes, g.edges) {
      NodeManager.AppendKeepsInvariant(g.nodes, g.edges, newNode);
    }
    g.nodes := g.nodes + [newNode];
    added := true;
  }

  /** The wheel's zoom: ×1.1 up, ÷1.1 otherwise, clamped to the zoom bounds. */
  function LegacyNextZoom(zoom: real, deltaY: real): (z: real)
    ensures MIN_ZOOM <= z <= MAX_ZOOM
  {
    InteractionHandler.ClampZoom(if deltaY < 0.0 then zoom * 1.1 else zoom / 1.1)
  }

  /**
   * Away from the upper bound, one step in and one step out return to the
   * same zoom level here; the handler's ×1.1 then ×0.9 lands 1% lower.
   */
  lemma ZoomStepsInverse(zoom: real)
    requires MIN_ZOOM <= zoom && zoom * 1.1 <= MAX_ZOOM
    ensures LegacyNextZoom(LegacyNextZoom(zoom, -1.0), 1.0) == zoom
    ensures zoom * 0.99 >= MIN_ZOOM ==>
              InteractionHandler.NextZoom(InteractionHandler.NextZoom(zoom, -1.0), 1.0) == zoom * 0.99
  {
    assert LegacyNextZoom(zoom, -1.0) == zoom * 1.1;
    assert (zoom * 1.1) / 1.1 == zoom;
    assert InteractionHandler.NextZoom(zoom, -1.0) == zoom * 1.1;
    assert zoom * 1.1 * 0.9 == zoom * 0.99;
  }

  /** `handleWheel`: the legacy zoom step, about the cursor. */
  method HandleWheel(g: Graph, client: Point, origin: Point, deltaY: real)
    requires g.zoomLevel != 0.0
    modifies g`zoomLevel, g`panOffset
    ensures g.zoomLevel == LegacyNextZoom(old(g.zoomLevel), deltaY)
    ensures var mouse := InteractionHandler.CanvasPoint(client, origin);
            && g.panOffset == InteractionHandler.ZoomPan(mouse, old(g.panOffset), old(g.zoomLevel), g.zoomLevel)
            && ScreenToWorld(mouse, g.panOffset, g.zoomLevel) == ScreenToWorld(mouse, old(g.panOffset), old(g.zoomLevel))
    ensures old(g.Valid()) ==> g.Valid()
  {
    var mouse := InteractionHandler.CanvasPoint(client, origin);
    var newZoomLevel := LegacyNextZoom(g.zoomLevel, deltaY);
    var worldXBeforeZoom := (mouse.x - g.panOffset.x) / g.zoomLevel;
    var worldYBeforeZoom := (mouse.y - g.panOffset.y) / g.zoomLevel;
    var newPanX := mouse.x - worldXBeforeZoom * newZoomLevel;
    var newPanY := mouse.y - worldYBeforeZoom * newZoomLevel;
    InteractionHandler.ZoomKeepsCursorFixed(mouse, g.panOffset, g.zoomLevel, newZoomLevel);
    g.zoomLevel := newZoomLevel;
    g.panOffset := Point(newPanX, newPanY);
  }
}
