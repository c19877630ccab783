// The view arithmetic of the mouse handlers
// (src/utils/GraphInteractionHandler.js): zoom about the cursor with a
// clamped zoom level, pan accumulation, dragging a node by the point where
// it was grabbed, and the mouse-down dispatch by mode. Event coordinates
// arrive as the client point and the canvas origin.

module InteractionHandler {
  import opened GraphTypes
  import opened GraphMath
  import opened GraphConstants
  import opened GraphInvariants
  import opened NodeSelector
  import opened Editor
  import NodeManager

  /** `Math.max(0.1, Math.min(5, v))`. */
  function ClampZoom(v: real): (z: real)
    ensures MIN_ZOOM <= z <= MAX_ZOOM
    ensures MIN_ZOOM <= v <= MAX_ZOOM ==> z == v
    ensures v < MIN_ZOOM ==> z == MIN_ZOOM
    ensures v > MAX_ZOOM ==> z == MAX_ZOOM
  {
    var capped := if v < MAX_ZOOM then v else MAX_ZOOM;
    if capped > MIN_ZOOM then capped else MIN_ZOOM
  }

  /** Scrolling up zooms in by 10%, anything else zooms out by 10%. */
  function ZoomFactor(deltaY: real): real
  {
    if deltaY < 0.0 then 1.1 else 0.9
  }

  /** The zoom level after one wheel event. */
  function NextZoom(zoom: real, deltaY: real): (z: real)
    ensures MIN_ZOOM <= z <= MAX_ZOOM
  {
    ClampZoom(zoom * ZoomFactor(deltaY))
  }

  /**
   * Within the bounds, scrolling up never lowers the zoom level and
   * scrolling down never raises it; away from the bounds it moves by
   * exactly the factor.
   */
  lemma ZoomDirection(zoom: real, deltaY: real)
    requires MIN_ZOOM <= zoom <= MAX_ZOOM
    ensures deltaY < 0.0 ==> NextZoom(zoom, deltaY) >= zoom
    ensures deltaY >= 0.0 ==> NextZoom(zoom, deltaY) <= zoom
    ensures deltaY < 0.0 && zoom * 1.1 <= MAX_ZOOM ==> NextZoom(zoom, deltaY) == zoom * 1.1
    ensures deltaY >= 0.0 && zoom * 0.9 >= MIN_ZOOM ==> NextZoom(zoom, deltaY) == zoom * 0.9
  {
  }

  /** The pan offset that keeps the world point under `mouse` in place when the zoom changes. */
  function ZoomPan(mouse: Point, pan: Point, zoom: real, newZoom: real): Point
    requires zoom != 0.0
  {
    var world := ScreenToWorld(mouse, pan, zoom);
    Point(mouse.x - world.x * newZoom, mouse.y - world.y * newZoom)
  }

  lemma MulDivCancel(w: real, z: real)
    requires z != 0.0
    ensures (w * z) / z == w
  {
  }

  /** The point under the cursor maps to the same world point before and after the zoom. */
  lemma ZoomKeepsCursorFixed(mouse: Point, pan: Point, zoom: real, newZoom: real)
    requires zoom != 0.0 && newZoom != 0.0
    ensures ScreenToWorld(mouse, ZoomPan(mouse, pan, zoom, newZoom), newZoom) == ScreenToWorld(mouse, pan, zoom)
    ensures WorldToScreen(ScreenToWorld(mouse, pan, zoom), ZoomPan(mouse, pan, zoom, newZoom), newZoom) == mouse
  {
    var world := ScreenToWorld(mouse, pan, zoom);
    var newPan := ZoomPan(mouse, pan, zoom, newZoom);
    assert mouse.x - newPan.x == world.x * newZoom;
    assert mouse.y - newPan.y == world.y * newZoom;
    MulDivCancel(world.x, newZoom);
    MulDivCancel(world.y, newZoom);
  }

  /** The canvas-relative point of a client point. */
  function CanvasPoint(client: Point, origin: Point): Point
  {
    Point(client.x - origin.x, client.y - origin.y)
  }

  /**
   * `handleWheel`: the zoom level moves by the factor within its bounds and
   * the pan is chosen so that the point under the cursor stays put.
   */
  method HandleWheel(g: Graph, client: Point, origin: Point, deltaY: real) returns (level: real, offset: Point)
    requires g.zoomLevel != 0.0
    modifies g`zoomLevel, g`panOffset
    ensures level == NextZoom(old(g.zoomLevel), deltaY) && g.zoomLevel == level
    ensures offset == ZoomPan(CanvasPoint(client, origin), old(g.panOffset), old(g.zoomLevel), level)
    ensures g.panOffset == offset
    ensures ScreenToWorld(CanvasPoint(client, origin), g.panOffset, g.zoomLevel)
            == ScreenToWorld(CanvasPoint(client, origin), old(g.panOffset), old(g.zoomLevel))
    ensures old(g.Valid()) ==> g.Valid()
  {
    var mouse := CanvasPoint(client, origin);
    var worldX := (mouse.x - g.panOffset.x) / g.zoomLevel;
    var worldY := (mouse.y - g.panOffset.y) / g.zoomLevel;
    var zoomFactor := if deltaY < 0.0 then 1.1 else 0.9;
    var newZoomLevel := ClampZoom(g.zoomLevel * zoomFactor);
    var newPanX := mouse.x - worldX * newZoomLevel;
    var newPanY := mouse.y - worldY * newZoomLevel;
    ZoomKeepsCursorFixed(mouse, g.panOffset, g.zoomLevel, newZoomLevel);
    g.zoomLevel := newZoomLevel;
    g.panOffset := Point(newPanX, newPanY);
    level, offset := newZoomLevel, Point(newPanX, newPanY);
  }

  /** `pan + (client − last)`: the pan follows the pointer. */
  function PanBy(pan: Point, last: Point, client: Point): Point
  {
    Point(pan.x + (client.x - last.x), pan.y + (client.y - last.y))
  }

  /**
   * Pan steps accumulate: two moves, the second starting where the first
   * ended, pan by the total movement.
   */
  lemma PanAccumulates(pan: Point, p0: Point, p1: Point, p2: Point)
    ensures PanBy(PanBy(pan, p0, p1), p1, p2) == PanBy(pan, p0, p2)
  {
  }

  /** `nodes.map(…)`: the node with the id moved to `p`, every other node unchanged. */
  function MoveNode(nodes: seq<Node>, id: string, p: Point): (r: seq<Node>)
    ensures |r| == |nodes|
    ensures forall i :: 0 <= i < |nodes| ==>
              r[i] == if nodes[i].id == id then nodes[i].(x := p.x, y := p.y) else nodes[i]
  {
    if nodes == [] then []
    else
      var n := nodes[0];
      [if n.id == id then n.(x := p.x, y := p.y) else n] + MoveNode(nodes[1..], id, p)
  }

  /** Moving a node keeps the structural rules, which depend on ids and types only. */
  lemma MoveNodeKeepsInvariant(nodes: seq<Node>, edges: seq<Edge>, id: string, p: Point)
    requires GraphInvariant(nodes, edges)
    ensures SameKinds(nodes, MoveNode(nodes, id, p))
    ensures GraphInvariant(MoveNode(nodes, id, p), edges)
  {
    var moved := MoveNode(nodes, id, p);
    AtMostOneStreetSameShape(nodes, moved);
    TouchesBankSameShape(nodes, moved, edges);
  }

  /**
   * Moving a node changes its position only: ids, names and the id
   * counters' lead are kept, and so is every bank's derived properties'
   * tracking of its neighbours.
   */
  lemma MoveNodeKeepsAllocationAndFlags(nodes: seq<Node>, edges: seq<Edge>, id: string, p: Point, c: NodeManager.Counters)
    ensures NodeManager.Allocation(nodes, c) ==> NodeManager.Allocation(MoveNode(nodes, id, p), c)
    ensures DerivedFlagsTrack(nodes, edges) ==> DerivedFlagsTrack(MoveNode(nodes, id, p), edges)
    ensures EdgesEndAtNodes(nodes, edges) ==> EdgesEndAtNodes(MoveNode(nodes, id, p), edges)
  {
    var moved := MoveNode(nodes, id, p);
    if NodeManager.Allocation(nodes, c) {
      NodeManager.SameNamesKeepAllocation(nodes, moved, c);
    }
    if DerivedFlagsTrack(nodes, edges) {
      TrackSameKinds(nodes, moved, edges);
    }
    if EdgesEndAtNodes(nodes, edges) {
      SameKindsKeepEdgesEnd(nodes, moved, edges);
    }
  }

  /** Where a dragged node goes: the cursor's world point less the grab offset. */
  function DragTarget(world: Point, dragStart: Point): Point
  {
    Point(world.x - dragStart.x, world.y - dragStart.y)
  }

  /** With the grab offset taken at mouse-down, a drag to the same point leaves the node where it was. */
  lemma DragStartsInPlace(n: Node, world: Point)
    ensures DragTarget(world, Point(world.x - n.x, world.y - n.y)) == Point(n.x, n.y)
  {
  }

  datatype DownAction = DragNode(node: Node) | StartPan | DeleteAt(p: Point) | NoAction

  /**
   * `handleMouseDown`: in select mode a node under the cursor starts a drag
   * with the grab offset, empty space starts a pan from the client point;
   * delete mode hands the world point to the delete callback; other modes
   * do nothing.
   */
  method HandleMouseDown(g: Graph, mode: Mode, client: Point, origin: Point) returns (action: DownAction)
    requires g.zoomLevel != 0.0
    modifies g`draggingNode, g`dragStart, g`isPanning, g`lastPanPosition
    ensures var w := ScreenToWorld(CanvasPoint(client, origin), g.panOffset, g.zoomLevel);
            var hit := TopmostNodeAt(g.nodes, w);
            && (mode == Select && hit.Some? ==>
                  action == DragNode(hit.value) && g.draggingNode == hit
                  && g.dragStart == Point(w.x - hit.value.x, w.y - hit.value.y)
                  && g.isPanning == old(g.isPanning) && g.lastPanPosition == old(g.lastPanPosition))
            && (mode == Select && hit.None? ==>
                  action == StartPan && g.isPanning && g.lastPanPosition == client
                  && g.draggingNode == old(g.draggingNode) && g.dragStart == old(g.dragStart))
            && (mode != Select ==>
                  action == (if mode == Delete then DeleteAt(w) else NoAction)
                  && g.draggingNode == old(g.draggingNode) && g.dragStart == old(g.dragStart)
                  && g.isPanning == old(g.isPanning) && g.lastPanPosition == old(g.lastPanPosition))
  {
    var world := ScreenToWorld(CanvasPoint(client, origin), g.panOffset, g.zoomLevel);
    var clickedNode := FindNodeAtPosition(g.nodes, world);
    if mode == Select && clickedNode.Some? {
      g.draggingNode := clickedNode;
      g.dragStart := Point(world.x - clickedNode.value.x, world.y - clickedNode.value.y);
      return DragNode(clickedNode.value);
    } else if mode == Select && clickedNode.None? {
      g.isPanning := true;
      g.lastPanPosition := client;
      return StartPan;
    } else if mode == Delete {
      return DeleteAt(world);
    }
    return NoAction;
  }

  datatype MoveAction = DragTo(node: Node, to: Point) | Pan(delta: Point, offset: Point) | NoMove

  /**
   * `handleMouseMove`: while a node is dragged it (and a selected copy of
   * it) moves to the drag target; otherwise while panning the pan follows
   * the pointer.
   */
  method HandleMouseMove(g: Graph, client: Point, origin: Point, selected: Option<Node>) returns (action: MoveAction)
    requires g.draggingNode.Some? ==> g.zoomLevel != 0.0
    modifies g`nodes, g`selectedNode, g`panOffset, g`lastPanPosition
    ensures old(g.draggingNode).Some? ==>
              var d := old(g.draggingNode).value;
              var to := DragTarget(ScreenToWorld(CanvasPoint(client, origin), g.panOffset, g.zoomLevel), g.dragStart);
              && action == DragTo(d, to)
              && g.nodes == MoveNode(old(g.nodes), d.id, to)
              && g.selectedNode == (if selected.Some? && selected.value.id == d.id
                                    then Some(selected.value.(x := to.x, y := to.y)) else old(g.selectedNode))
              && g.panOffset == old(g.panOffset) && g.lastPanPosition == old(g.lastPanPosition)
    ensures old(g.draggingNode).None? && g.isPanning ==>
              && action == Pan(Point(client.x - old(g.lastPanPosition).x, client.y - old(g.lastPanPosition).y), g.panOffset)
              && g.panOffset == PanBy(old(g.panOffset), old(g.lastPanPosition), client)
              && g.lastPanPosition == client
              && g.nodes == old(g.nodes) && g.selectedNode == old(g.selectedNode)
    ensures old(g.draggingNode).None? && !g.isPanning ==>
              action == NoMove && g.nodes == old(g.nodes) && g.selectedNode == old(g.selectedNode)
              && g.panOffset == old(g.panOffset) && g.lastPanPosition == old(g.lastPanPosition)
    ensures old(GraphInvariant(g.nodes, g.edges)) ==> GraphInvariant(g.nodes, g.edges)
  {
    if g.draggingNode.Some? {
      var world := ScreenToWorld(CanvasPoint(client, origin), g.panOffset, g.zoomLevel);
      var to := DragTarget(world, g.dragStart);
      if GraphInvariant(g.nodes, g.edges) {
        MoveNodeKeepsInvariant(g.nodes, g.edges, g.draggingNode.value.id, to);
      }
      g.nodes := MoveNode(g.nodes, g.draggingNode.value.id, to);
      if selected.Some? && selected.value.id == g.draggingNode.value.id {
        g.selectedNode := Some(selected.value.(x := to.x, y := to.y));
      }
      return DragTo(g.draggingNode.value, to);
    } else if g.isPanning {
      var dx := client.x - g.lastPanPosition.x;
      var dy := client.y - g.lastPanPosition.y;
      var newPanOffset := Point(g.panOffset.x + dx, g.panOffset.y + dy);
      g.panOffset := newPanOffset;
      g.lastPanPosition := client;
      return Pan(Point(dx, dy), newPanOffset);
    }
    return NoMove;
  }
}
