/**
 * The shared data types of the simulation engine: cells, their display
 * kinds, costs with an explicit "unknown" value, frontier entries and the
 * snapshots a run records.
 */
module Types {

  /** Display classification of a cell (the `type` field of a cell). */
  datatype NodeType = Empty | Wall | Start | Target | Visited | Path | Frontier | Current

  /** A (row, col) pair; neighbours of border cells may lie outside the grid. */
  datatype Coord = Coord(row: int, col: int)

  datatype Option<T> = None | Some(value: T)

  /** A path cost: `Inf` stands for the unknown/unreached value +Infinity. */
  datatype Cost = Inf | Fin(n: nat)

  /** `c + 1`, where Infinity + 1 stays Infinity. */
  function Add1(c: Cost): Cost
  {
    match c
    case Inf => Inf
    case Fin(n) => Fin(n + 1)
  }

  /** `a < b` on costs: Infinity lies above every finite value and is below nothing. */
  predicate Less(a: Cost, b: Cost)
  {
    match (a, b)
    case (Fin(x), Fin(y)) => x < y
    case (Fin(_), Inf) => true
    case (Inf, _) => false
  }

  /** `a <= b` on costs; Infinity is the largest value. */
  predicate AtMost(a: Cost, b: Cost)
  {
    !Less(b, a)
  }

  datatype Cell = Cell(
    row: int,
    col: int,
    kind: NodeType,
    isVisited: bool,
    isWall: bool,
    isPath: bool,
    distance: Cost,
    parent: Option<Coord>,
    f: Cost,
    g: Cost,
    h: Cost)

  /** One element of a snapshot's `structureState`: a bare coordinate (BFS, DFS),
      a coordinate with its distance (Dijkstra) or with its f score (A*). */
  datatype Entry = Pos(pos: Coord) | PosDistance(pos: Coord, d: Cost) | PosF(pos: Coord, f: Cost)

  /** What a snapshot's log message reports. The text itself carries no invariant;
      only the path length reported by BFS is kept. */
  datatype Log =
    | Started
    | Picked
    | TargetFound
    | Expanded
    | PathConstructed(length: nat)
    | PathFound
    | NoPathFound

  datatype Snapshot = Snapshot(
    gridState: seq<seq<Cell>>,
    structureState: seq<Entry>,
    currentNode: Option<Cell>,
    log: Log)

  datatype AlgorithmType = BfsAlgorithm | DfsAlgorithm | DijkstraAlgorithm | AStarAlgorithm
}
