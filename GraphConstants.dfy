// Constants used throughout the editor (src/utils/GraphConstants.js).

module GraphConstants {

  /** Radius of a drawn node, also the pick radius. */
  const NODE_RADIUS: real := 30.0

  /** Edge costs by the pair of node types an edge joins. */
  const DEFAULT_COST: int := 4
  const BANK_TO_CREDIT_LINE_COST: int := 1
  const BANK_TO_PROJECTION_COST: int := 1
  const BANK_TO_STREET_COST: int := 1000
  const DEFAULT_FLOW_TYPE: string := "INTRABANK"

  /** The editor's operation modes. */
  datatype Mode =
    | Select
    | Connect
    | ConnectBidirectional
    | Delete
    | AddBank
    | AddCreditLine
    | AddProjection
    | AddStreet

  /** Perpendicular distance between the two drawn directions of a bidirectional pair. */
  const EDGE_OFFSET_DISTANCE: real := 5.0

  /** An edge is hit when the point lies closer than this to its drawn segment. */
  const EDGE_HIT_DISTANCE: real := 12.0

  /** Bounds of the zoom level. */
  const MIN_ZOOM: real := 0.1
  const MAX_ZOOM: real := 5.0
}
