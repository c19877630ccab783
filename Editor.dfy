// The editor's state: the graph store, the selection, the error banner, the
// per-type name counters, the pending connect gesture and the view
// transform. Each React state hook becomes a field, each setter an
// assignment to it.

module Editor {
  import opened GraphTypes
  import opened GraphMath
  import opened GraphConstants
  import opened GraphInvariants

  class Graph {
    var nodes: seq<Node>
    var edges: seq<Edge>
    var selectedNode: Option<Node>
    var selectedEdge: Option<Edge>
    var error: Option<string>
    var nextBankId: nat
    var nextCreditLineId: nat
    var nextProjectionId: nat
    var nextStreetId: nat
    var connectStartNode: Option<Node>
    var pendingConnection: bool
    var zoomLevel: real
    var panOffset: Point
    var isPanning: bool
    var lastPanPosition: Point
    var draggingNode: Option<Node>
    var dragStart: Point

    /** The structural rules hold and the zoom level lies within its bounds. */
    predicate Valid()
      reads this
    {
      GraphInvariant(nodes, edges) && MIN_ZOOM <= zoomLevel <= MAX_ZOOM
    }

    /** The initial state of the canvas component: an empty graph, counters at 1, zoom 1, no pan. */
    constructor ()
      ensures nodes == [] && edges == []
      ensures selectedNode == None && selectedEdge == None && error == None
      ensures nextBankId == 1 && nextCreditLineId == 1 && nextProjectionId == 1 && nextStreetId == 1
      ensures connectStartNode == None && !pendingConnection
      ensures zoomLevel == 1.0 && panOffset == Point(0.0, 0.0)
      ensures !isPanning && lastPanPosition == Point(0.0, 0.0)
      ensures draggingNode == None && dragStart == Point(0.0, 0.0)
      ensures Valid()
    {
      nodes := [];
      edges := [];
      selectedNode := None;
      selectedEdge := None;
      error := None;
      nextBankId := 1;
      nextCreditLineId := 1;
      nextProjectionId := 1;
      nextStreetId := 1;
      connectStartNode := None;
      pendingConnection := false;
      zoomLevel := 1.0;
      panOffset := Point(0.0, 0.0);
      isPanning := false;
      lastPanPosition := Point(0.0, 0.0);
      draggingNode := None;
      dragStart := Point(0.0, 0.0);
    }
  }
}
