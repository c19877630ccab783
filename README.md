# Graph editor core, modelled in Dafny

This project models the graph-editing engine of a diagram editor for banks,
credit lines, projections and streets. The editor keeps a typed graph store:
- a node has an id, a position, a type and a property map;
- an edge has an id, a source id, a target id and a property map.

The UI calls a small set of operations around the store, and each is
modelled here:
- creating and naming nodes;
- picking the node or edge under the cursor;
- connecting two nodes, one way or both ways;
- deleting a node or an edge, with the bank's derived flags undone;
- the state service's lookups and shallow property merges;
- the two-click connect gesture;
- the zoom, pan and drag view transform;
- the older monolithic canvas's edit-time validation and cascades.

State-changing code is an `Editor.Graph` class. Each React state hook is a
field, and each setter call is an assignment to that field. Pure code
(geometry, node factories, edge construction, the state service) is a set of
functions over datatypes. Loops the source runs become `while` loops with
invariants, each proved against a specification function. The loops are:
- the do-while name search;
- the top-down node pick;
- the delete-time flag reversal;
- the rename cascade;
- the edge-pruning scans.

Every state-changing operation also carries the structural rules of the
store, `GraphInvariant`. It holds that:
- every edge touches a bank;
- there is at most one street;
- no two edges share a (source, target) pair.

The hypotheses under which each operation keeps it are part of its clause:
- A connect keeps it when both ends are listed nodes
  (`NodeConnector.ConnectNodes`, `NodeConnectorUpdated.ConnectNodes`, and
  the gesture in `ConnectionManager.HandleConnectClick`, which requires the
  recorded start node to be listed).
- Both bidirectional connects also need the two ends to have distinct ids,
  because connecting a node to itself appends the same pair twice.
- The legacy edit (`LegacyCanvas.EditKeepsInvariant`,
  `LegacyCanvas.UpdateNodeProperties`) also needs distinct edge ids,
  because its cascades find and drop edges by id.
- Add, delete and drag keep it unconditionally.

Node ids and names are a separate rule, `NodeManager.Allocation`:
- node ids are distinct;
- names, and bank ids among banks, are distinct;
- each of the four counters is past every number used in an id of its type.

The adds (`NodeManager.AddKeepsAllocation`), the connects
(`NodeConnector.ConnectKeepsAllocation`), the delete
(`NodeDeleter.DeleteKeepsAllocation`) and the drag
(`InteractionHandler.MoveNodeKeepsAllocationAndFlags`) keep it. The legacy
canvas does not: it scopes names per type and takes street ids from the
clock.

A bank's derived properties record what it is joined to. This is the rule
`DerivedFlagsTrack` (in `GraphInvariants`):
- `projectionAware` is true exactly when an edge joins the bank to a projection;
- `streetCover` is true exactly when an edge joins it to a street;
- `creditLine` is null when no credit line is joined, and otherwise names one that is.

Where the source keeps this rule:
- The live connect keeps it, one way and both ways
  (`NodeConnector.ConnectKeepsDerivedFlags`,
  `NodeConnector.BidirectionalKeepsDerivedFlags`).
- The alternate connector keeps it for every pair but a bank and a street
  (`NodeConnectorUpdated.ConnectKeepsDerivedFlagsOffStreet`).
- Adding a node keeps it when every edge runs between listed nodes
  (`NodeManager.AddKeepsDerivedFlags`), and dragging keeps it.
- Deleting a node keeps it when every bank is joined to at most one credit
  line (`NodeDeleter.DeleteKeepsDerivedFlags`). The alternate connector keeps
  that one-credit-line rule (`NodeConnectorUpdated.ConnectKeepsOneCreditLine`).

The methods state the same rule as an `ensures`, under the same hypotheses
and with distinct node ids.

Where the source lets the rule fall behind, each case is a proved lemma:
- `deleteEdgeAtPosition` (`src/operations/NodeDeleter.js:187-203`) removes
  an edge and touches no node. Removing a bank's only projection edge leaves
  `projectionAware` true (`NodeDeleter.DeleteEdgeLeavesProjectionFlag`).
- The live connect (`src/operations/NodeConnector.js:106-143`) does not
  check for an existing credit line. A bank gets a second one
  (`NodeConnector.ConnectAllowsSecondCreditLine`). Deleting either credit
  line then sets `creditLine` to null although the other is still joined
  (`NodeDeleter.DeleteOneOfTwoCreditLines`).
- The alternate connector writes `streetAware`, not `streetCover`
  (`src/operations/NodeConnectorUpdated.js:254-270`). A bank joined to its
  first street keeps `streetCover` false
  (`NodeConnectorUpdated.StreetConnectLeavesCover`,
  `NodeConnectorUpdated.BidirectionalStreetLeavesCover`).
- The legacy bank entity change drops the bank's projection edges, but its
  `projectionAware:false` never lands (`src/components/GraphCanvas.js:1476`).
  The flag outlives the edges (`LegacyCanvas.EntityChangeLeavesProjectionFlag`).

The model keeps the two connectors apart:
- `NodeConnector` models the live connector.
- `NodeConnectorUpdated` models the stricter alternate one. It allows one
  credit line per bank and one projection per bank. Its street connection
  writes `streetAware`.

`createEdge` has three textually equivalent copies, in
`src/operations/NodeConnector.js`, `src/operations/NodeConnectorUpdated.js`
and `src/components/GraphCanvas.js`. They differ only in spelling constants
inline, so one definition, `NodeConnector.CreateEdge`, serves all three.

The connector tests disagree with the live connector in three places, and the
model follows the code:
- `src/operations/NodeConnector.test.js:151-181` expects the one-way connect
  to refuse a second credit line for a bank. The live connector does not check
  for one (`src/operations/NodeConnector.js:106-216`,
  `NodeConnector.ConnectAllowsSecondCreditLine`). Only the alternate connector
  refuses it (`NodeConnectorUpdated.SecondCreditLineRefused`).
- `src/operations/NodeConnector.test.js:224` expects the bidirectional
  refusal of two non-banks to mention "At least one node must be a Bank
  node". The live text is "Cannot connect non-Bank nodes to each other"
  (`src/operations/NodeConnector.js:275`). The other wording belongs to the
  alternate connector (`src/operations/NodeConnectorUpdated.js:326`).
- `src/operations/NodeConnector.test.js:227-251` expects a bidirectional
  connect to refuse a second credit line. Neither bidirectional connect checks
  credit lines (`NodeConnector.ConnectNodesBidirectional`,
  `NodeConnectorUpdated.ConnectNodesBidirectional`).

The legacy canvas (`src/components/GraphCanvas.js`) is modelled as written,
with three quirks:
- In the credit-line rename cascade, each hit re-writes the edge list from the
  stale list the edit started with. The last such write wins
  (`LegacyCanvas.RenameLastWriteWins`), and a later entity-mismatch removal
  overwrites it again. The banks are renamed from the progressively updated
  node list. So a bank reached by two edges fires only once, unless the old
  and new names coincide (`LegacyCanvas.RenameFiresIff`).
- On a bank entity change, the `projectionAware:false` assignment at
  `src/components/GraphCanvas.js:1476` goes to `updatedProperties` after the
  node list was built at `:1380`, so it never lands. `BankEntityChangeEffect`
  proves that the only node change is the wholesale property replacement.
- The "other projection" scan at `:1464-1472` does not look only at the
  bank's own edges. Its result is used only by the assignment that never
  lands.

Numbers are `real` for coordinates and `int` for property values. Geometry
compares squared distances, so no square root is taken. Strings are
`seq<char>`.

## Model

| member | source | states |
|---|---|---|
| GraphMath.CentreInside | src/utils/GraphMathUtils.js:54-58 | the centre of a circle is inside it for every radius, zero included |
| GraphMath.ZeroRadiusOnlyCentre | src/utils/GraphMathUtils.js:54-58 | with radius 0 a point is inside exactly when it is the centre |
| GraphMath.NegativeRadius | src/utils/GraphMathUtils.js:54-58 | a negative radius answers as its absolute value does |
| GraphMath.CircleBoundary | src/utils/GraphMathUtils.js:54-58 | a point at distance r is inside, one at distance r+1 is outside |
| GraphMath.DegenerateSegment | src/utils/GraphMathUtils.js:23-32 | for a zero-length segment the nearest point is its start and the distance is the point-to-point distance |
| GraphMath.NearestPointOnSegment | src/utils/GraphMathUtils.js:29-38 | the nearest point is the start when the projection parameter is below 0, the end when above 1, and always a point of the segment |
| GraphMath.NearestPointIsClosest | src/utils/GraphMathUtils.js:15-43 | the computed squared distance is no larger than the distance to any point of the segment, so it is the true minimum |
| GraphMath.PointOnSegmentAtZero | src/utils/GraphMathUtils.js:15-43 | every point of the segment is at distance 0 from it |
| GraphMath.OffSegmentExample | src/utils/GraphMathUtils.js:15-43 | a point beyond the start of the segment (100,100)-(200,200) at (50,50) is at squared distance 5000 |
| GraphMath.MidpointOnSegment | src/utils/GraphMathUtils.js:80-85 | the midpoint is the segment point at parameter 0.5, equidistant from both ends and on the segment |
| GraphMath.ScreenWorldRoundTrip | src/utils/GraphMathUtils.js:96-101 | for a non-zero zoom, screen-to-world and world-to-screen invert each other both ways |
| NodeCreator.CreateNodeShape | src/operations/NodeCreator.js:14-103 | a created node keeps the given position and type, has id prefix plus number and carries the default name for that number |
| NodeCreator.NewBankDefaults | src/operations/NodeCreator.js:14-37 | a new bank has no credit line, both derived flags false, entity GSCO and no name |
| NodeCreator.NewNodeDefaults | src/operations/NodeCreator.js:46-103 | a new credit line has amount 1000, a projection factor 1, a street capacity 5000 |
| NodeCreator.IdsInjective | src/operations/NodeCreator.js:18-103 | within one type, two nodes get the same id, or the same default name, exactly when they get the same number |
| NodeCreator.IdsDistinctAcrossTypes | src/operations/NodeCreator.js:18-103 | nodes of different types never share an id |
| NodeCreator.DefaultProjectionSuffix | src/operations/NodeCreator.js:68-81 | the entity field of a default projection name is ENT plus its number, never GSCO, so a fresh projection never matches a fresh bank |
| NodeCreator.DefaultProjectionNameValid | src/operations/NodeCreator.js:68-81 | a default projection name passes the legacy PRJ_XXXX rule exactly for numbers below 10 |
| Strings.NatToStringInjective | src/operations/NodeCreator.js:18-94 | decimal rendering of naturals is injective, the basis of distinct ids |
| Strings.Field1OfJoin | src/operations/NodeConnector.js:134-135 | the second underscore field of a_e_rest is e when a and e hold no underscore |
| Strings.ValidProjectionNameSuffix | src/components/GraphCanvas.js:1343 | for a name of the form PRJ_XXXX the entity field is the four characters after PRJ_ |
| Strings.IndexOf | src/components/GraphCanvas.js:1428 | the result is the first position where the pattern occurs, or nothing when it occurs nowhere |
| Strings.ReplaceFirst | src/components/GraphCanvas.js:1428 | a string without the pattern is returned unchanged; otherwise the text before the first occurrence and the text after it are kept around the substituted replacement |
| Strings.Substitution | src/components/GraphCanvas.js:1428 | a replacement without `$` is inserted as written |
| Strings.ReplaceFirstLiteral | src/components/GraphCanvas.js:1428 | with a `$`-free replacement the result is the text before the first occurrence, the replacement, then the rest |
| Strings.ReplacementPatterns | src/components/GraphCanvas.js:1428 | renaming CL1 to X$& gives XCL1 and to X$$ gives X$, while $1 stays as written |
| Strings.ContextPatterns | src/components/GraphCanvas.js:1428 | `` $` `` inserts the text before the match and `$'` the text after it |
| NodeManager.IsNodeNameUniqueIff | src/utils/GraphNodeManager.js:14-26 | a name is unique exactly when no bank has it as bankId and no node has it as name |
| NodeManager.NamesHeldIff | src/utils/GraphNodeManager.js:14-26 | the set of names in use holds exactly the names that are not unique |
| NodeManager.AllocateSequenceNumber | src/utils/GraphNodeManager.js:36-39 | the do-while search returns the least number at or after the counter whose default name is unused, and always stops |
| NodeManager.AddBankNode | src/utils/GraphNodeManager.js:31-45 | appends a bank created with the least free number at or after the counter, moves the counter past it, keeps the graph invariant and the allocation rule, and keeps the derived flags when edges run between listed nodes |
| NodeManager.AddCreditLineNode | src/utils/GraphNodeManager.js:50-64 | the same for credit lines with CL names |
| NodeManager.AddProjectionNode | src/utils/GraphNodeManager.js:69-83 | the same for projections with PRJ_ENT names |
| NodeManager.AddStreetNode | src/utils/GraphNodeManager.js:88-111 | with a street present it reports the one-street error and changes nothing else; otherwise it appends a street as the other adds do |
| NodeManager.StreetAddKeepsSingleton | src/utils/GraphNodeManager.js:90-96 | adding a street to a graph with none leaves exactly one |
| NodeManager.AddKeepsAllocation | src/utils/GraphNodeManager.js:31-111 | an add with a free default name at or past the counter keeps node ids and names distinct and moves the counter past the new number |
| NodeManager.AddKeepsDerivedFlags | src/utils/GraphNodeManager.js:31-111 | a new node joins nothing and a new bank starts with no credit line and both flags false, so the derived flags still track and edges still run between listed nodes |
| NodeManager.ValidateNodeUpdate | src/utils/GraphNodeManager.js:116-153 | an unknown id is reported as such; an accepted patch reuses no other bank's bankId and no other node's name |
| NodeManager.ValidateRejects | src/utils/GraphNodeManager.js:122-150 | a taken bankId on a bank is refused first with its message, then a taken name with its message, and nothing else is refused |
| NodeManager.UpdateNodeProperties | src/utils/GraphNodeManager.js:116-153 | returns true exactly for an accepted patch and sets the error text only on a refusal |
| NodeManager.AcceptedUpdateKeepsNamesDistinct | src/utils/GraphNodeManager.js:116-153 | applying an accepted patch keeps names and bankIds distinct across nodes |
| NodeConnector.CreateEdge | src/operations/NodeConnector.js:14-77 | the edge id is source id, dash, target id; source and target are those ids; flowType is INTRABANK |
| NodeConnector.CreateEdgeFlowId | src/operations/NodeConnector.js:35-52 | flowId is bankId_name for a bank with a credit line or projection, bankId_STREET for a bank with a street, and label_label otherwise |
| NodeConnector.FlowIdDirectionFree | src/operations/NodeConnector.js:35-46 | for the three bank pairings the flowId does not depend on which end is the source |
| NodeConnector.LabelFallback | src/operations/NodeConnector.js:49-51 | the fallback label is the bankId, else the name, else NODE |
| NodeConnector.CreateEdgeCost | src/operations/NodeConnector.js:55-64 | cost is 1 exactly for bank with credit line or projection, 1000 exactly for bank with street, 4 otherwise, in either direction |
| NodeConnector.CreateEdgeBankToCreditLineExample | src/operations/NodeConnector.js:14-77 | the edge from bank 1 to credit line 1 is bank-1-cl-1 with flowId BANK1_CL1, cost 1 |
| NodeConnector.MarkBankOnlyBank | src/operations/NodeConnector.js:149-216 | marking changes only nodes with the bank's id, and in them only the one derived key |
| NodeConnector.CheckConnectCases | src/operations/NodeConnector.js:106-143 | an existing same-direction edge fails silently, two non-banks fail with the fixed text, and otherwise the connect passes exactly when a bank-projection pair agrees on the entity |
| NodeConnector.MismatchIsNotNonBank | src/operations/NodeConnector.js:117-143 | the entity message is never the non-bank message, so the two refusals are told apart |
| NodeConnector.EntityRuleOnValidName | src/operations/NodeConnector.js:124-143 | for a projection named PRJ_XXXX the connect passes exactly when the bank's entity is XXXX |
| NodeConnector.RefreshOnlyWhenMarked | src/operations/NodeConnector.js:222-235 | the selection is refreshed exactly when the selected node is the bank that gets a derived flag |
| NodeConnector.ConnectKeepsInvariant | src/operations/NodeConnector.js:93-241 | a passing connect keeps the graph invariant |
| NodeConnector.ConnectNodes | src/operations/NodeConnector.js:93-241 | returns true exactly when the check passes; on failure nothing but the error changes; on success the new edge is appended and the bank's flag written; with listed ends it keeps the graph invariant, and with distinct node ids the derived flags |
| NodeConnector.LinkedAfterConnect | src/operations/NodeConnector.js:146-216 | after a connect a node is joined to a type exactly when it was before, or it is the bank and the partner has that type |
| NodeConnector.ConnectKeepsTrack | src/operations/NodeConnector.js:146-216 | writing the partner's flag on the bank after joining it keeps every bank's derived flags tracking its links |
| NodeConnector.ConnectKeepsDerivedFlags | src/operations/NodeConnector.js:93-241 | a passing one-way connect between listed nodes keeps the derived flags |
| NodeConnector.BidirectionalKeepsDerivedFlags | src/operations/NodeConnector.js:257-415 | a passing two-way connect between listed nodes keeps the derived flags |
| NodeConnector.ConnectAllowsSecondCreditLine | src/operations/NodeConnector.js:106-216 | the live check passes for a bank already joined to a credit line and a second credit line; afterwards the bank is joined to both |
| NodeConnector.ConnectKeepsAllocation | src/operations/NodeConnector.js:149-216 | marking the bank writes no name or bank id, so node ids and names stay distinct and the counters ahead |
| NodeConnector.ConnectKeepsEdgesEnd | src/operations/NodeConnector.js:146-241 | an edge between listed nodes keeps every edge running between listed nodes |
| NodeConnector.MissingEdgesCompletePair | src/operations/NodeConnector.js:303-318 | only the absent directions are created, nothing is created exactly when both exist, and afterwards both exist |
| NodeConnector.BidirectionalKeepsInvariant | src/operations/NodeConnector.js:257-415 | adding the missing directions between distinct nodes, one a bank, keeps the invariant |
| NodeConnector.ConnectNodesBidirectional | src/operations/NodeConnector.js:257-415 | refuses non-bank pairs and entity mismatches unchanged; otherwise adds the missing directions, marks the bank and returns true exactly when an edge was added; with listed ends of distinct ids it keeps the graph invariant, and with distinct node ids the derived flags |
| NodeConnector.LinkBothWays | src/operations/NodeConnector.js:303-414 | the commit step: missing edges appended, bank marked, selection refreshed, invariant kept |
| NodeConnectorUpdated.CheckConnectRules | src/operations/NodeConnectorUpdated.js:105-198 | an existing edge fails silently; a credit line passes exactly when the bank has none by property or by edge; a second projection is refused; otherwise the entity decides |
| NodeConnectorUpdated.StricterThanLive | src/operations/NodeConnectorUpdated.js:105-198 | every connect the alternate connector allows, the live one allows too |
| NodeConnectorUpdated.SecondCreditLineRefused | src/operations/NodeConnectorUpdated.js:128-156 | a bank already linked to one credit line is refused a second by the alternate connector but not by the live one |
| NodeConnectorUpdated.RefreshExactlyWhenChanged | src/operations/NodeConnectorUpdated.js:282-290 | the selection is refreshed exactly when the selected node's record changed, and only for the bank |
| NodeConnectorUpdated.ConnectNodes | src/operations/NodeConnectorUpdated.js:93-293 | returns true exactly on a passing check; on success appends the edge and marks the bank, street pairs through streetAware; with listed ends and distinct node ids it keeps one credit line per bank, and the derived flags unless a bank meets a street |
| NodeConnectorUpdated.ConnectKeepsOneCreditLine | src/operations/NodeConnectorUpdated.js:128-156 | a passing connect between listed nodes keeps every bank joined to at most one credit line |
| NodeConnectorUpdated.ConnectKeepsDerivedFlagsOffStreet | src/operations/NodeConnectorUpdated.js:200-290 | for any pair but a bank and a street, both connects of this engine keep the derived flags |
| NodeConnectorUpdated.StreetConnectLeavesCover | src/operations/NodeConnectorUpdated.js:254-270 | joining a bank to its first street writes streetAware, so streetCover no longer tracks the link |
| NodeConnectorUpdated.BidirectionalStreetLeavesCover | src/operations/NodeConnectorUpdated.js:370-418 | the two-way connect marks no street bank, so the same bank keeps streetCover false |
| NodeConnectorUpdated.AppendConnection | src/operations/NodeConnectorUpdated.js:200-290 | the commit step of a passing connect, keeping the invariant |
| NodeConnectorUpdated.CheckBidirectionalCases | src/operations/NodeConnectorUpdated.js:321-342 | the non-bank text exactly for two non-banks, the already-exists text exactly when both directions exist, and a pass always has an edge to add |
| NodeConnectorUpdated.ConnectNodesBidirectional | src/operations/NodeConnectorUpdated.js:309-440 | on a pass adds the missing directions, marks credit line or projection banks but not streets, returns true; on failure changes only the error; with listed ends of distinct ids it keeps the graph invariant, and with distinct node ids the derived flags unless a bank meets a street |
| NodeSelector.TopmostNodeAt | src/operations/NodeSelector.js:15-24 | the result is the last node in list order whose circle holds the point, or none exactly when no circle holds it |
| NodeSelector.FindNodeAtPosition | src/operations/NodeSelector.js:15-24 | the reverse index loop returns the topmost node under the point |
| NodeSelector.PickedNodeContainsPoint | src/operations/NodeSelector.js:19 | a picked node contains the point and is in the list |
| NodeSelector.LaterNodeWins | src/operations/NodeSelector.js:17-21 | of two overlapping nodes the later one is picked |
| NodeSelector.FindEdgeAtPosition | src/operations/NodeSelector.js:34-70 | the result is the first edge in list order that is hit, or none exactly when no edge is hit |
| NodeSelector.MissingEndpointNeverHit | src/operations/NodeSelector.js:36-39 | an edge with a missing endpoint node is never hit |
| NodeSelector.OneWayEdgeHitOnSegment | src/operations/NodeSelector.js:42-68 | without a reverse edge, every point of the straight segment hits the edge |
| NodeSelector.TwoWayEdgeHitOnShiftedSegment | src/operations/NodeSelector.js:42-68 | with a reverse edge, every point of the offset segment hits the edge |
| NodeSelector.SelectNodeAtPosition | src/operations/NodeSelector.js:83-106 | a node hit wins over an edge hit, at most one of the two is selected, and true is returned exactly when something is |
| NodeDeleter.ReverseFlagsAt | src/operations/NodeDeleter.js:44-143 | after the flag-reversal loop, a bank is changed exactly when an incident edge clears it, and then only in the one derived key |
| NodeDeleter.ReverseFlagsSelection | src/operations/NodeDeleter.js:65-69 | the selection ends as the updated bank exactly when the selected node is a bank that was cleared |
| NodeDeleter.ClearedByCases | src/operations/NodeDeleter.js:42-139 | deleting a bank clears nothing; a credit line clears every adjacent bank; a projection or street clears an adjacent bank only when no other edge links it to another node of that type |
| NodeDeleter.ReverseEffect | src/operations/NodeDeleter.js:39-143 | the reversal keeps every node's shape, sets the cleared key on cleared banks and leaves every other node and key as it was |
| NodeDeleter.ReverseSelection | src/operations/NodeDeleter.js:65-137 | the selection after reversal is the cleared bank's new record when it is selected, and otherwise as it was |
| NodeDeleter.ReverseDerivedFlags | src/operations/NodeDeleter.js:39-143 | the forEach loop over an array copy computes exactly the reversal specification |
| NodeDeleter.ReverseAt | src/operations/NodeDeleter.js:45-141 | one pass of the loop body updates the working copy and the selection by one reversal step |
| NodeDeleter.DeleteNodeAtPosition | src/operations/NodeDeleter.js:21-163 | with no node hit nothing changes and false is returned; otherwise the hit node and its incident edges go, flags are reversed first, no edge refers to it afterwards, and its selection is cleared; the derived flags are kept under the same hypotheses as the removal step |
| NodeDeleter.DeleteNode | src/operations/NodeDeleter.js:35-159 | the removal step after the pick, keeping the graph invariant, and the derived flags when node ids are distinct and each bank has at most one credit line |
| NodeDeleter.OtherLinkIsLinkedExcept | src/operations/NodeDeleter.js:73-85 | the source's other-link scan, which skips the edge being handled, answers whether the bank is joined to another node of the deleted node's type |
| NodeDeleter.DeleteKeepsDerivedFlags | src/operations/NodeDeleter.js:35-151 | with distinct node ids and one credit line per bank, reversing the flags and removing the node and its edges keeps the derived flags |
| NodeDeleter.DeleteKeepsAllocation | src/operations/NodeDeleter.js:39-151 | the reversal writes no name or bank id and the removal only drops nodes, so node ids and names stay distinct and the counters ahead |
| NodeDeleter.DeleteKeepsEdgesEnd | src/operations/NodeDeleter.js:146-151 | removing a node with its incident edges keeps every edge running between listed nodes |
| NodeDeleter.DeleteOneOfTwoCreditLines | src/operations/NodeDeleter.js:52-69 | deleting one of two named credit lines joined to a bank sets its creditLine to null although the other is still joined, so the flags no longer track |
| NodeDeleter.DeleteKeepsInvariant | src/operations/NodeDeleter.js:146-151 | removing a node and its incident edges keeps the invariant |
| NodeDeleter.RemoveNode | src/operations/NodeDeleter.js:146 | the result holds exactly the nodes with another id |
| NodeDeleter.RemoveIncidentEdges | src/operations/NodeDeleter.js:150 | the result holds exactly the edges not touching the id |
| NodeDeleter.DeleteEdgeAtPosition | src/operations/NodeDeleter.js:177-204 | returns true exactly when an edge is hit, removes exactly the edges with its id, clears its selection, leaves nodes alone |
| NodeDeleter.DeleteEdge | src/operations/NodeDeleter.js:190-200 | removes the edges with the id and clears a matching edge selection |
| NodeDeleter.RemoveEdgeId | src/operations/NodeDeleter.js:191 | the result holds exactly the edges with another id |
| NodeDeleter.RemoveEdgeKeepsInvariant | src/operations/NodeDeleter.js:191 | removing edges by id keeps the invariant |
| NodeDeleter.DeleteEdgeLeavesProjectionFlag | src/operations/NodeDeleter.js:187-203 | removing a bank's only projection edge leaves projectionAware true, so the flags no longer track |
| GraphStateService.FormatGraphStatePartition | src/services/GraphStateService.js:13-51 | every node is exported in its type's list, every exported record comes from a node of that type, the lists add up to the node count, and the edges are copied |
| GraphStateService.RecordsOfKindAppend | src/services/GraphStateService.js:14-43 | the per-type filter distributes over concatenation, so each list keeps the node order |
| GraphStateService.EdgeExistsDirectional | src/services/GraphStateService.js:60-62 | an edge a to b does not make b to a exist |
| GraphStateService.EdgeExists | src/services/GraphStateService.js:60-62 | true exactly when some edge runs from the source to the target |
| GraphStateService.BidirectionalConnectionExists | src/services/GraphStateService.js:71-75 | true exactly when both directions exist |
| GraphStateService.BidirectionalSymmetric | src/services/GraphStateService.js:71-75 | the bidirectional test is symmetric in its two ids |
| GraphStateService.FindByIdFirst | src/services/GraphStateService.js:83-95 | a found node or edge is the first one with the id |
| GraphTypes.FindNode | src/services/GraphStateService.js:83-85 | nothing is found exactly when no node has the id; a found node is in the list with that id |
| GraphTypes.FindEdge | src/services/GraphStateService.js:93-95 | nothing is found exactly when no edge has the id; a found edge is in the list with that id |
| GraphStateService.UpdateUnknownNode | src/services/GraphStateService.js:106-107 | an unknown id leaves the node list unchanged |
| GraphStateService.UpdateKeepsShape | src/services/GraphStateService.js:116-147 | every node keeps its id, type and position |
| GraphStateService.UpdateMergesPatch | src/services/GraphStateService.js:116-127 | on the target node, patch keys overwrite and every other key is kept |
| GraphStateService.UpdateRenameCascade | src/services/GraphStateService.js:110-148 | another node changes exactly when the edit renames a credit line and it is a bank naming the old credit line, and then only its creditLine becomes the new name |
| GraphStateService.RenameCreditLine | src/services/GraphStateService.js:135-147 | exactly the banks whose creditLine is the old name get the new one |
| GraphStateService.UpdateEdgeMerges | src/services/GraphStateService.js:160-173 | only edges with the id change, by a shallow merge, and ends are kept |
| GraphStateService.UpdateEdgeUnknown | src/services/GraphStateService.js:160-173 | an unknown edge id leaves the list equal |
| ConnectionManager.ClassifyClick | src/utils/GraphConnectionManager.js:13-51 | classifies a click as start, complete, cancel on the same node, cancel on empty space, or fall-through, each exactly under its source condition |
| ConnectionManager.GestureStaysConsistent | src/utils/GraphConnectionManager.js:11-52 | while a start node is recorded exactly when a connection is pending, no click falls through and every transition keeps that agreement |
| ConnectionManager.TwoClicksComplete | src/utils/GraphConnectionManager.js:16-39 | clicking two different nodes starts and then completes a connection and resets the gesture |
| ConnectionManager.HandleConnectClick | src/utils/GraphConnectionManager.js:11-52 | the gesture moves as classified, the status reports it, the connector runs only on completion and its result is the status; a refused completion leaves the connector's error and a passing one keeps the error as it was |
| ConnectionManager.HandleConnectBidirectionalClick | src/utils/GraphConnectionManager.js:57-98 | the same protocol around the bidirectional connector, with the same error clauses |
| InteractionHandler.ClampZoom | src/utils/GraphInteractionHandler.js:121 | the zoom is kept within 0.1 to 5 and an in-range value is unchanged |
| InteractionHandler.NextZoom | src/utils/GraphInteractionHandler.js:120-121 | a wheel step keeps the zoom within 0.1 to 5 |
| InteractionHandler.ZoomDirection | src/utils/GraphInteractionHandler.js:120-121 | scrolling up never zooms out and down never zooms in; away from the bounds the factor is exactly 1.1 or 0.9 |
| InteractionHandler.ZoomKeepsCursorFixed | src/utils/GraphInteractionHandler.js:116-125 | the world point under the cursor is the same before and after the zoom |
| InteractionHandler.HandleWheel | src/utils/GraphInteractionHandler.js:105-131 | sets the next zoom and the pan that keeps the cursor's world point fixed, and keeps the zoom bounds |
| InteractionHandler.PanAccumulates | src/utils/GraphInteractionHandler.js:88-96 | two pan moves add up to one move from the first to the last position |
| InteractionHandler.MoveNode | src/utils/GraphInteractionHandler.js:68-72 | only nodes with the dragged id move, to the target point |
| InteractionHandler.MoveNodeKeepsInvariant | src/utils/GraphInteractionHandler.js:68-74 | dragging keeps the graph invariant |
| InteractionHandler.MoveNodeKeepsAllocationAndFlags | src/utils/GraphInteractionHandler.js:68-72 | dragging keeps node ids and names distinct, the derived flags, and edges running between listed nodes |
| InteractionHandler.DragStartsInPlace | src/utils/GraphInteractionHandler.js:31-32 | with the recorded drag offset the node's target at the click point is its own position |
| InteractionHandler.HandleMouseDown | src/utils/GraphInteractionHandler.js:12-45 | in select mode a node hit starts a drag with offset world minus node, a miss starts a pan; delete mode reports a delete at the world point; other modes do nothing |
| InteractionHandler.HandleMouseMove | src/utils/GraphInteractionHandler.js:50-100 | a drag moves only the dragged node and updates a matching selection; a pan adds the client movement; otherwise nothing changes |
| Editor.Graph.constructor | src/components/graph/GraphCanvas.js:26-54 | the initial state is an empty graph with counters at 1, zoom 1, no pan, no selection, no gesture |
| LegacyCanvas.ValidateEditCases | src/components/GraphCanvas.js:1341-1378 | a projection name must match PRJ_XXXX and be unused by other projections, a credit-line name unused by other credit lines; each failure has its message and nothing else fails |
| LegacyCanvas.NameScopeIsPerType | src/components/GraphCanvas.js:1351-1377 | a projection and a credit line may share a name |
| LegacyCanvas.ReplaceDropsOmittedKeys | src/components/GraphCanvas.js:1380-1385 | the edit replaces the property map wholesale, so a key left out of the edit is gone |
| LegacyCanvas.RenameNodesAt | src/components/GraphCanvas.js:1401-1421 | after the cascade a bank holds the new credit-line name exactly when it held the old one and some incident edge links it to the credit line |
| LegacyCanvas.RenameFiresIff | src/components/GraphCanvas.js:1404-1433 | an edge rewrites the edge list exactly when its bank still holds the old name at that point of the loop |
| LegacyCanvas.RenameLastWriteWins | src/components/GraphCanvas.js:1432 | of the edge-list writes in the loop, the last one is what remains |
| LegacyCanvas.CascadeRename | src/components/GraphCanvas.js:1388-1436 | the loop computes the renamed nodes and the last edge-list write of the specification fold |
| LegacyCanvas.CreditLineRenameEffect | src/components/GraphCanvas.js:1380-1436 | a credit-line edit renames exactly the linked banks, the edge list is the last write or unchanged, and no error is set |
| LegacyCanvas.BankEntityChangeEffect | src/components/GraphCanvas.js:1439-1491 | a bank entity change replaces only the bank's properties, drops exactly the incident projection edges with another entity, and reports their count when any |
| LegacyCanvas.EntityChangeLeavesProjectionFlag | src/components/GraphCanvas.js:1439-1491 | an entity change that drops every projection edge of a bank leaves its projectionAware true, so the flags no longer track |
| LegacyCanvas.CollectBankDrops | src/components/GraphCanvas.js:1441-1483 | the scan collects exactly the ids of incident projection edges whose entity differs |
| LegacyCanvas.ProjectionRenameEffect | src/components/GraphCanvas.js:1494-1564 | a projection suffix change drops exactly the edges to banks of another entity and clears projectionAware on those banks only when no other projection edge remains |
| LegacyCanvas.ClearAwareFoldAt | src/components/GraphCanvas.js:1538-1552 | after the loop a node has projectionAware false exactly when some dropped edge cleared it |
| LegacyCanvas.PruneProjectionLinks | src/components/GraphCanvas.js:1505-1555 | the loop computes the cleared nodes and the dropped edge ids of the specification |
| LegacyCanvas.ApplyEdit | src/components/GraphCanvas.js:1380-1564 | the three cascades together give the edited nodes, edges and error of the specification |
| LegacyCanvas.EditedNodesShape | src/components/GraphCanvas.js:1380-1564 | the edit keeps every node's id, type and position |
| LegacyCanvas.EditKeepsInvariant | src/components/GraphCanvas.js:1380-1566 | an edit keeps the graph invariant when edge ids are distinct |
| LegacyCanvas.UpdateNodeProperties | src/components/GraphCanvas.js:1336-1573 | a refused edit sets only the error; an accepted one commits the edited graph and refreshes a selected target; the graph invariant is kept when edge ids are distinct |
| LegacyCanvas.AddStreetNode | src/components/GraphCanvas.js:607-624 | a second street is refused with the one-street error; otherwise the street is appended |
| LegacyCanvas.LegacyNextZoom | src/components/GraphCanvas.js:986-992 | the zoom step by 1.1 up or down stays within 0.1 to 5 |
| LegacyCanvas.ZoomStepsInverse | src/components/GraphCanvas.js:986-992 | in the legacy canvas a step in and a step out cancel, while the newer handler's 1.1 and 0.9 leave 0.99 of the zoom |
| LegacyCanvas.HandleWheel | src/components/GraphCanvas.js:975-1005 | sets the clamped zoom and the pan that keeps the cursor's world point fixed |

## Left out

- Rendering is not modelled. That covers the renderer, the legacy `drawGraph` and both `drawPendingConnection` helpers, because they only draw on a 2D context.
- `calculateAngle` (`Math.atan2`) and the `sin`/`cos` perpendicular offset of bidirectional edges are not modelled. The offset is a function parameter of the edge picker, because trigonometry has no exact real model.
- `Math.sqrt` in `distanceToLineSegment` is not modelled. Distances are compared squared, and the hit threshold 12 becomes 144.
- Floating point is not modelled. Coordinates and zoom are exact reals.
- `setTimeout` error clearing is not modelled, because it is a timer. An error stays set until the next write.
- `Date.now()` values are not modelled. The legacy street id is a parameter, and the `FLOW_` default flowId is overwritten by every branch.
- `setSelectedElement` is not modelled. It mirrors the node or edge selection, which is modelled.
- React batching is not modelled. Each setter is a plain assignment in program order.
- The HTTP service, the mocks, the React components and the keyboard and resize handlers are not modelled, because they are glue around the core.
- The legacy canvas's inline copies of connect, delete and select are not modelled again. They repeat `src/operations/*`.
- `handleDeleteClick` in the mouse-down handler is a callback the handler does not define. The model returns a delete action at the world point instead.
- A `split` on a non-string name throws in the source. The model reads such a value's entity field as empty text.
- `NodeConnector.ConnectNodesBidirectional`, `NodeConnectorUpdated.ConnectNodesBidirectional`: invariant preservation is proved only for two ends with distinct ids. When the start node and end node are the same node, the source appends an edge and its duplicate.
- `InteractionHandler.HandleWheel`, `LegacyCanvas.HandleWheel`, `InteractionHandler.HandleMouseDown`: require a non-zero zoom, because the source divides by it. The source keeps the zoom within 0.1 to 5, so it is never zero.
- `LegacyCanvas.BankEntityChangeEffect`, `LegacyCanvas.ProjectionRenameEffect`: state the effect of an edit that carries no credit-line rename. A combined edit is covered by `LegacyCanvas.ApplyEdit`.
- `LegacyCanvas.UpdateNodeProperties`: takes the rename information (`additionalInfo`) as an optional parameter, because the properties pane supplies it.
- `GraphStateService.FormatGraphStatePartition`: exported records carry the same property map. The source's shallow copy is indistinguishable in a value model.
- `Strings.ReplaceFirst`: its contract pins the text before and after the first occurrence. What goes between is `Strings.Substitution`, whose own contract covers only a `$`-free replacement. The `$` patterns are stated by the examples in `Strings.ReplacementPatterns` and `Strings.ContextPatterns`, not for all inputs.
- `LegacyCanvas.RenameFlowId`: a `flowId` that is not a string (missing, a number, null) makes the source throw a `TypeError` at `src/components/GraphCanvas.js:1428`, which aborts the edit. The model leaves such an edge unchanged and goes on.
- `NodeConnectorUpdated.ConnectNodes`, `NodeConnectorUpdated.ConnectNodesBidirectional`: the derived-flag clause excludes a bank meeting a street, because the source then writes `streetAware` (or nothing) and `streetCover` falls behind (`NodeConnectorUpdated.StreetConnectLeavesCover`).
- `NodeDeleter.DeleteNode`, `NodeDeleter.DeleteNodeAtPosition`: the derived-flag clause assumes one credit line per bank, because the live connector can join a second one and deleting either then clears `creditLine` (`NodeDeleter.DeleteOneOfTwoCreditLines`).
- `NodeDeleter.DeleteEdgeAtPosition`: carries no derived-flag clause, because the source does not keep the flags there (`NodeDeleter.DeleteEdgeLeavesProjectionFlag`).
- `NodeManager.AddKeepsDerivedFlags`: assumes every edge runs between listed nodes, because an edge naming an absent id would join the new node as soon as it is added. Connects and deletes keep that assumption (`NodeConnector.ConnectKeepsEdgesEnd`, `NodeDeleter.DeleteKeepsEdgesEnd`).
- `LegacyCanvas.EditKeepsInvariant`, `LegacyCanvas.UpdateNodeProperties`: assume distinct edge ids. The source builds an edge id as source id, dash, target id, which two different pairs can share, and no operation is proved to keep ids distinct.
- The allocation rule (`NodeManager.Allocation`) is not claimed for the legacy canvas. Its names are unique only per type and its street ids come from the clock.
- The derived-flag rule is not claimed for property edits (`NodeManager.UpdateNodeProperties`, `GraphStateService.UpdateNodeProperties`, the legacy edit). A patch may write `projectionAware`, `streetCover` or `creditLine` directly.
