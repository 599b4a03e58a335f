/**
 * The game store of src/store/gameStore.ts: the board, the start and target
 * coordinates, the chosen algorithm, the recorded snapshots and the replay
 * cursor, with the actions that edit the board, run a search and move the
 * cursor. The board the store keeps is always "clean" (no search has written
 * to it), and only the start coordinate shows as start; together these give
 * every search the grid it requires.
 */
module Store {
  import opened Types
  import opened Grids
  import opened Paths
  import opened Search
  import BfsSpec
  import DfsSpec
  import BestFirstSpec
  import Bfs
  import Dfs
  import Dijkstra
  import AStar

  /** A coordinate of the default GRID_ROWS × GRID_COLS board. */
  predicate OnBoard(p: Coord)
  {
    0 <= p.row < GRID_ROWS && 0 <= p.col < GRID_COLS
  }

  /** A grid of the default dimensions whose cells know their coordinates. */
  ghost predicate Board(g: Grid)
  {
    Rect(g) && |g| == GRID_ROWS && Cols(g) == GRID_COLS && WellIndexed(g)
  }

  // ---------------------------------------------------------------------
  // Cleaning (runSimulation and resetSimulation) and fillWalls.

  /** One cell as the pre-run cleaning rebuilds it. */
  function CleanCell(cell: Cell): Cell
  {
    cell.(isVisited := false, isPath := false, distance := Inf, parent := None, f := Inf, g := Inf, h := Inf,
          kind := if cell.kind == Start || cell.kind == Target || cell.kind == Wall then cell.kind else Empty)
  }

  /** The cleaning, applied to every cell. */
  function CleanGrid(g: Grid): (r: Grid)
    ensures |r| == |g| && forall i | 0 <= i < |g| :: |r[i]| == |g[i]|
    ensures forall i, j | 0 <= i < |g| && 0 <= j < |g[i]| :: r[i][j] == CleanCell(g[i][j])
  {
    seq(|g|, i requires 0 <= i < |g| => seq(|g[i]|, j requires 0 <= j < |g[i]| => CleanCell(g[i][j])))
  }

  /** A cell no search has written to: search fields at their initial values
      and a kind among empty, wall, start and target. */
  predicate IsClean(cell: Cell)
  {
    && !cell.isVisited && !cell.isPath && cell.parent == None
    && cell.distance == Inf && cell.f == Inf && cell.g == Inf && cell.h == Inf
    && cell.kind in {Empty, Wall, Start, Target}
  }

  /** Cleaning yields clean cells, keeps the layout and the start, target and
      wall kinds, and changes exactly the cells that were not clean: it is
      idempotent. */
  lemma CleanGridClean(g: Grid)
    requires Rect(g)
    ensures SameLayout(g, CleanGrid(g))
    ensures forall p | InBounds(g, p) :: IsClean(At(CleanGrid(g), p))
    ensures forall p | InBounds(g, p) && At(g, p).kind in {Start, Target, Wall} ::
              At(CleanGrid(g), p).kind == At(g, p).kind
    ensures forall p | InBounds(g, p) :: At(CleanGrid(g), p) == At(g, p) <==> IsClean(At(g, p))
    ensures CleanGrid(CleanGrid(g)) == CleanGrid(g)
  {
    var r := CleanGrid(g);
    forall i | 0 <= i < |g|
      ensures r[i] == CleanGrid(r)[i]
    {
      forall j | 0 <= j < |g[i]|
        ensures CleanGrid(r)[i][j] == r[i][j]
      {
      }
    }
  }

  /** One cell as fillWalls rebuilds it: a wall unless its own coordinates are
      the start's or the target's. f, g and h are kept. */
  function FillCell(cell: Cell, start: Coord, target: Coord): Cell
  {
    var isStart := cell.row == start.row && cell.col == start.col;
    var isTarget := cell.row == target.row && cell.col == target.col;
    cell.(isWall := !isStart && !isTarget, kind := if isStart then Start else if isTarget then Target else Wall,
          isVisited := false, isPath := false, distance := Inf, parent := None)
  }

  function FillWalls(g: Grid, start: Coord, target: Coord): (r: Grid)
    ensures |r| == |g| && forall i | 0 <= i < |g| :: |r[i]| == |g[i]|
    ensures forall i, j | 0 <= i < |g| && 0 <= j < |g[i]| :: r[i][j] == FillCell(g[i][j], start, target)
  {
    seq(|g|, i requires 0 <= i < |g| => seq(|g[i]|, j requires 0 <= j < |g[i]| => FillCell(g[i][j], start, target)))
  }

  /** On a well-indexed grid fillWalls leaves exactly the start and the target
      passable, shown as start and target (start winning when they coincide),
      and walls everything else; layout coordinates stay. */
  lemma FillWallsShape(g: Grid, start: Coord, target: Coord)
    requires Rect(g) && WellIndexed(g)
    ensures Rect(FillWalls(g, start, target)) && WellIndexed(FillWalls(g, start, target))
    ensures forall p | InBounds(g, p) ::
              && (Passable(FillWalls(g, start, target), p) <==> p == start || p == target)
              && At(FillWalls(g, start, target), p).kind == (if p == start then Start else if p == target then Target else Wall)
  {
  }

  /** After fillWalls the target is reachable from the start exactly when it
      is the start or one of its four neighbours. */
  lemma {:induction false} FillWallsBlocks(g: Grid, start: Coord, target: Coord)
    requires Rect(g) && WellIndexed(g) && InBounds(g, start) && InBounds(g, target)
    ensures Reachable(FillWalls(g, start, target), start, target) <==> start == target || Adjacent(start, target)
  {
    var r := FillWalls(g, start, target);
    FillWallsShape(g, start, target);
    if start == target {
      assert IsWalk(r, [start]);
    } else if Adjacent(start, target) {
      assert IsWalk(r, [start, target]);
    } else {
      OnlyEndsPassable(r, start, target);
    }
  }

  /** When only the start and the target are passable, and they are distinct
      and not neighbours, no walk joins them. */
  lemma OnlyEndsPassable(r: Grid, start: Coord, target: Coord)
    requires Rect(r) && start != target && !Adjacent(start, target)
    requires forall p | Passable(r, p) :: p == start || p == target
    ensures !Reachable(r, start, target)
  {
    if Reachable(r, start, target) {
      var w :| IsWalk(r, w) && w[0] == start && w[|w| - 1] == target;
      var i := FirstTarget(r, w, start, target);
    }
  }

  /** On a walk through cells that are all the start or the target, leading
      from the start to a different target, the first visit of the target
      comes straight after the start, so the two are neighbours. */
  lemma FirstTarget(r: Grid, w: seq<Coord>, start: Coord, target: Coord) returns (i: nat)
    requires Rect(r) && IsWalk(r, w) && w[0] == start && w[|w| - 1] == target && start != target
    requires forall p | Passable(r, p) :: p == start || p == target
    ensures 0 < i < |w| && w[i] == target && w[i - 1] == start
    ensures Adjacent(start, target)
  {
    i := 1;
    while w[i] != target
      invariant 1 <= i < |w| && forall k | 0 <= k < i :: w[k] == start
      decreases |w| - i
    {
      assert Passable(r, w[i]);
      i := i + 1;
    }
  }

  // ---------------------------------------------------------------------
  // What the store keeps.

  /** The board the store holds once initialized: default dimensions,
      well-indexed, only `start` shown as start, every cell clean. */
  ghost predicate LiveGrid(g: Grid, start: Coord)
  {
    && Board(g)
    && OnlyStartAt(g, start)
    && forall p | InBounds(g, p) :: IsClean(At(g, p))
  }

  /** What a search returns, by algorithm. */
  ghost predicate RunResult(algorithm: AlgorithmType, g: Grid, start: Coord, target: Coord, snaps: seq<Snapshot>)
  {
    match algorithm
    case BfsAlgorithm => BfsSpec.BfsResult(g, start, target, snaps)
    case DfsAlgorithm => DfsSpec.DfsResult(g, start, target, snaps)
    case DijkstraAlgorithm => BestFirstSpec.BestResult(g, start, target, ByDistance, snaps)
    case AStarAlgorithm => BestFirstSpec.BestResult(g, start, target, ByG, snaps)
  }

  /** The cleaned live board meets what every search requires. */
  lemma CleanRunnable(g: Grid, start: Coord, target: Coord)
    requires LiveGrid(g, start) && OnBoard(start) && OnBoard(target)
    ensures CleanGrid(g) == g
    ensures InBounds(g, start) && InBounds(g, target) && At(g, start).parent == None
    ensures BestFirstSpec.Searchable(g, start, ByDistance) && BestFirstSpec.Searchable(g, start, ByG)
  {
    CleanGridClean(g);
    assert CleanGrid(g) == g by {
      forall i | 0 <= i < |g|
        ensures CleanGrid(g)[i] == g[i]
      {
        forall j | 0 <= j < |g[i]|
          ensures CleanGrid(g)[i][j] == g[i][j]
        {
          assert IsClean(At(g, Coord(i, j)));
        }
      }
    }
  }

  /** The log with which a run reports the target found: breadth-first
      closes with the path's length, depth-first with "target found",
      Dijkstra and A* with "path found". */
  predicate Found(algorithm: AlgorithmType, snaps: seq<Snapshot>)
  {
    && snaps != []
    && match algorithm
       case BfsAlgorithm => Last(snaps).log.PathConstructed?
       case DfsAlgorithm => Last(snaps).log == TargetFound
       case _ => Last(snaps).log == PathFound
  }

  /** Whatever the algorithm, a run reports the target found exactly when a
      walk leads from the start to it, and then the parent links of the last
      snapshot, whose board has the run's layout, spell out such a walk. */
  lemma RunFound(algorithm: AlgorithmType, g: Grid, start: Coord, target: Coord, snaps: seq<Snapshot>)
    requires RunResult(algorithm, g, start, target, snaps)
    ensures Found(algorithm, snaps) <==> Reachable(g, start, target)
    ensures Found(algorithm, snaps) ==>
              SameLayout(g, Last(snaps).gridState) && exists n :: ParentChainWalk(Last(snaps).gridState, start, target, n)
  {
    var i := |snaps| - 1;
    match algorithm
    case BfsAlgorithm =>
      assert BfsSpec.SnapOk(g, snaps[i]);
    case DfsAlgorithm =>
      assert DfsSpec.DfsSnapOk(g, start, snaps[i]);
    case DijkstraAlgorithm =>
      assert BestFirstSpec.BestSnapOk(g, snaps[i], ByDistance);
    case AStarAlgorithm =>
      assert BestFirstSpec.BestSnapOk(g, snaps[i], ByG);
  }

  /** The number of cells of the path a run reports: breadth-first writes it
      into its last log; Dijkstra and A* colour a parent chain one cell
      longer than the target's cost in the snapshot before the last.
      Depth-first reports no length. 0 when there is no such report. */
  ghost function PathCells(algorithm: AlgorithmType, target: Coord, snaps: seq<Snapshot>): nat
  {
    if |snaps| < 2 then 0
    else
      var before := snaps[|snaps| - 2].gridState;
      var m := if algorithm == AStarAlgorithm then ByG else ByDistance;
      match algorithm
      case BfsAlgorithm => if Last(snaps).log.PathConstructed? then Last(snaps).log.length else 0
      case DfsAlgorithm => 0
      case _ =>
        if Rect(before) && InBounds(before, target) && CostOf(At(before, target), m).Fin?
        then CostOf(At(before, target), m).n + 1 else 0
  }

  /** A shortest walk from s to t has n cells: one of n cells exists and none
      has fewer. */
  ghost predicate ShortestWalk(g: Grid, s: Coord, t: Coord, n: nat)
    requires Rect(g)
  {
    && (exists w :: IsWalk(g, w) && w[0] == s && w[|w| - 1] == t && |w| == n)
    && NoShorterWalk(g, s, t, n)
  }

  /** Breadth-first, Dijkstra and A* report a shortest path: when the target
      is reachable, the last snapshot's parent chain is a walk of PathCells
      cells and no walk on the run's board has fewer. */
  lemma RunShortest(algorithm: AlgorithmType, g: Grid, start: Coord, target: Coord, snaps: seq<Snapshot>)
    requires algorithm != DfsAlgorithm && RunResult(algorithm, g, start, target, snaps)
    requires Reachable(g, start, target)
    ensures Rect(g) && Rect(Last(snaps).gridState)
    ensures ParentChainWalk(Last(snaps).gridState, start, target, PathCells(algorithm, target, snaps))
    ensures ShortestWalk(g, start, target, PathCells(algorithm, target, snaps))
  {
    var i := |snaps| - 1;
    var n := PathCells(algorithm, target, snaps);
    if algorithm == BfsAlgorithm {
      assert BfsSpec.SnapOk(g, snaps[i]);
    } else {
      assert BestFirstSpec.BestSnapOk(g, snaps[i], if algorithm == AStarAlgorithm then ByG else ByDistance);
    }
    var w := ParentChainWalkOf(Last(snaps).gridState, start, target, n);
    WalkSameLayout(g, Last(snaps).gridState, w);
  }

  /** On the same board, breadth-first, Dijkstra and A* report paths of the
      same number of cells. */
  lemma ShortestAgree(a1: AlgorithmType, a2: AlgorithmType, g: Grid, start: Coord, target: Coord,
                      snaps1: seq<Snapshot>, snaps2: seq<Snapshot>)
    requires a1 != DfsAlgorithm && RunResult(a1, g, start, target, snaps1)
    requires a2 != DfsAlgorithm && RunResult(a2, g, start, target, snaps2)
    requires Reachable(g, start, target)
    ensures PathCells(a1, target, snaps1) == PathCells(a2, target, snaps2)
  {
    RunShortest(a1, g, start, target, snaps1);
    RunShortest(a2, g, start, target, snaps2);
  }

  class GameStore {
    var grid: Grid
    var startNode: Coord
    var targetNode: Coord
    var algorithm: AlgorithmType
    var isPlaying: bool
    var isFinished: bool
    var snapshots: seq<Snapshot>
    var currentSnapshotIndex: int

    /** The store's invariant: start and target lie on the board; the grid is
        empty (before initializeGrid) or a live board; the cursor lies in
        0 .. max(|snapshots| - 1, 0). */
    ghost predicate Valid()
      reads this
    {
      && OnBoard(startNode) && OnBoard(targetNode)
      && (grid == [] || LiveGrid(grid, startNode))
      && 0 <= currentSnapshotIndex && (currentSnapshotIndex == 0 || currentSnapshotIndex < |snapshots|)
    }

    /** The initial state. */
    constructor ()
      ensures Valid()
      ensures grid == [] && startNode == Coord(10, 10) && targetNode == Coord(10, 30)
      ensures algorithm == BfsAlgorithm && !isPlaying && !isFinished
      ensures snapshots == [] && currentSnapshotIndex == 0
    {
      grid := [];
      startNode := Coord(10, 10);
      targetNode := Coord(10, 30);
      algorithm := BfsAlgorithm;
      isPlaying := false;
      isFinished := false;
      snapshots := [];
      currentSnapshotIndex := 0;
    }

    /** initializeGrid: a fresh board with the start and target marked. */
    method InitializeGrid()
      requires Valid()
      modifies this
      ensures Valid()
      ensures grid == MarkedBoard(startNode, targetNode)
      ensures startNode == old(startNode) && targetNode == old(targetNode) && algorithm == old(algorithm)
      ensures isPlaying == old(isPlaying) && isFinished == old(isFinished)
      ensures snapshots == old(snapshots) && currentSnapshotIndex == old(currentSnapshotIndex)
    {
      grid := NewBoard(startNode, targetNode);
    }

    /** toggleWall: ignored while playing and on the start or target cell;
        otherwise flips that cell's wall flag, shows it as wall or empty, and
        drops the snapshots. */
    method ToggleWall(row: int, col: int)
      requires Valid() && (isPlaying || InBounds(grid, Coord(row, col)))
      modifies this
      ensures Valid()
      ensures old(isPlaying) ==>
                grid == old(grid) && snapshots == old(snapshots) && currentSnapshotIndex == old(currentSnapshotIndex)
                && isFinished == old(isFinished)
      ensures !old(isPlaying) ==>
                var cell := At(old(grid), Coord(row, col));
                if cell.kind == Start || cell.kind == Target then
                  grid == old(grid) && snapshots == old(snapshots) && currentSnapshotIndex == old(currentSnapshotIndex)
                  && isFinished == old(isFinished)
                else
                  grid == With(old(grid), Coord(row, col), cell.(isWall := !cell.isWall, kind := if cell.isWall then Empty else Wall))
                  && snapshots == [] && currentSnapshotIndex == 0 && !isFinished
      ensures startNode == old(startNode) && targetNode == old(targetNode) && algorithm == old(algorithm)
      ensures isPlaying == old(isPlaying)
    {
      if isPlaying {
        return;
      }
      var p := Coord(row, col);
      var cell := At(grid, p);
      if cell.kind == Start || cell.kind == Target {
        return;
      }
      var wall := !cell.isWall;
      ToggleLive(grid, startNode, p);
      cell := cell.(isWall := wall, kind := if wall then Wall else Empty);
      grid := With(grid, p, cell);
      snapshots, currentSnapshotIndex, isFinished := [], 0, false;
    }

    /** setStartNode: ignored while playing; otherwise shows the old start
        cell as empty, makes the new one a non-wall start, and drops the
        snapshots. */
    method SetStartNode(row: int, col: int)
      requires Valid() && (isPlaying || InBounds(grid, Coord(row, col)))
      modifies this
      ensures Valid()
      ensures if old(isPlaying) then
                grid == old(grid) && startNode == old(startNode) && snapshots == old(snapshots)
                && currentSnapshotIndex == old(currentSnapshotIndex) && isFinished == old(isFinished)
              else
                var g1 := With(old(grid), old(startNode), At(old(grid), old(startNode)).(kind := Empty));
                && grid == With(g1, Coord(row, col), At(g1, Coord(row, col)).(kind := Start, isWall := false))
                && startNode == Coord(row, col)
                && snapshots == [] && currentSnapshotIndex == 0 && !isFinished
      ensures targetNode == old(targetNode) && algorithm == old(algorithm) && isPlaying == old(isPlaying)
    {
      if isPlaying {
        return;
      }
      RemarkLive(grid, startNode, startNode, Coord(row, col), Start);
      var newGrid := With(grid, startNode, At(grid, startNode).(kind := Empty));
      var p := Coord(row, col);
      newGrid := With(newGrid, p, At(newGrid, p).(kind := Start, isWall := false));
      grid, startNode := newGrid, p;
      snapshots, currentSnapshotIndex, isFinished := [], 0, false;
    }

    /** setTargetNode: as setStartNode, for the target. */
    method SetTargetNode(row: int, col: int)
      requires Valid() && (isPlaying || InBounds(grid, Coord(row, col)))
      modifies this
      ensures Valid()
      ensures if old(isPlaying) then
                grid == old(grid) && targetNode == old(targetNode) && snapshots == old(snapshots)
                && currentSnapshotIndex == old(currentSnapshotIndex) && isFinished == old(isFinished)
              else
                var g1 := With(old(grid), old(targetNode), At(old(grid), old(targetNode)).(kind := Empty));
                && grid == With(g1, Coord(row, col), At(g1, Coord(row, col)).(kind := Target, isWall := false))
                && targetNode == Coord(row, col)
                && snapshots == [] && currentSnapshotIndex == 0 && !isFinished
      ensures startNode == old(startNode) && algorithm == old(algorithm) && isPlaying == old(isPlaying)
    {
      if isPlaying {
        return;
      }
      RemarkLive(grid, startNode, targetNode, Coord(row, col), Target);
      var newGrid := With(grid, targetNode, At(grid, targetNode).(kind := Empty));
      var p := Coord(row, col);
      newGrid := With(newGrid, p, At(newGrid, p).(kind := Target, isWall := false));
      grid, targetNode := newGrid, p;
      snapshots, currentSnapshotIndex, isFinished := [], 0, false;
    }

    method SetAlgorithm(algo: AlgorithmType)
      requires Valid()
      modifies this
      ensures Valid() && algorithm == algo
      ensures grid == old(grid) && startNode == old(startNode) && targetNode == old(targetNode)
      ensures isPlaying == old(isPlaying) && isFinished == old(isFinished)
      ensures snapshots == old(snapshots) && currentSnapshotIndex == old(currentSnapshotIndex)
    {
      algorithm := algo;
    }

    /** setSnapshots: store a run's snapshots with the cursor at the first. */
    method SetSnapshots(snaps: seq<Snapshot>)
      requires Valid()
      modifies this
      ensures Valid() && snapshots == snaps && currentSnapshotIndex == 0 && !isFinished
      ensures grid == old(grid) && startNode == old(startNode) && targetNode == old(targetNode)
      ensures algorithm == old(algorithm) && isPlaying == old(isPlaying)
    {
      snapshots, currentSnapshotIndex, isFinished := snaps, 0, false;
    }

    /** runSimulation: clean the grid and run the chosen search on it, then
        store its snapshots with the cursor at the first and playing on. On
        the empty grid every search fails reading the first row, and the
        store only stops playing. The stored grid is left as it was. */
    method RunSimulation()
      requires Valid()
      modifies this
      ensures Valid()
      ensures grid == old(grid) && startNode == old(startNode) && targetNode == old(targetNode)
      ensures algorithm == old(algorithm)
      ensures old(grid) == [] ==>
                && !isPlaying && isFinished == old(isFinished)
                && snapshots == old(snapshots) && currentSnapshotIndex == old(currentSnapshotIndex)
      ensures old(grid) != [] ==>
                && RunResult(algorithm, CleanGrid(grid), startNode, targetNode, snapshots)
                && currentSnapshotIndex == 0 && isPlaying && !isFinished
    {
      if grid == [] {
        isPlaying := false;
        return;
      }
      var cleanGrid := CleanGrid(grid);
      CleanRunnable(grid, startNode, targetNode);
      var snaps := Run(algorithm, cleanGrid, startNode, targetNode);
      snapshots, currentSnapshotIndex, isPlaying, isFinished := snaps, 0, true, false;
    }

    /** nextStep: advance the cursor unless it is at the last snapshot; there
        (or with no snapshots) stop playing and mark the replay finished. */
    method NextStep()
      requires Valid()
      modifies this
      ensures Valid()
      ensures if old(currentSnapshotIndex) < |snapshots| - 1 then
                currentSnapshotIndex == old(currentSnapshotIndex) + 1
                && isPlaying == old(isPlaying) && isFinished == old(isFinished)
              else
                currentSnapshotIndex == old(currentSnapshotIndex) && !isPlaying && isFinished
      ensures grid == old(grid) && startNode == old(startNode) && targetNode == old(targetNode)
      ensures algorithm == old(algorithm) && snapshots == old(snapshots)
    {
      if currentSnapshotIndex < |snapshots| - 1 {
        currentSnapshotIndex := currentSnapshotIndex + 1;
      } else {
        isPlaying, isFinished := false, true;
      }
    }

    /** prevStep: move the cursor back unless it is at the first snapshot. */
    method PrevStep()
      requires Valid()
      modifies this
      ensures Valid()
      ensures currentSnapshotIndex == if old(currentSnapshotIndex) > 0 then old(currentSnapshotIndex) - 1 else 0
      ensures grid == old(grid) && startNode == old(startNode) && targetNode == old(targetNode)
      ensures algorithm == old(algorithm) && snapshots == old(snapshots)
      ensures isPlaying == old(isPlaying) && isFinished == old(isFinished)
    {
      if currentSnapshotIndex > 0 {
        currentSnapshotIndex := currentSnapshotIndex - 1;
      }
    }

    method SetPlaying(playing: bool)
      requires Valid()
      modifies this
      ensures Valid() && isPlaying == playing
      ensures grid == old(grid) && startNode == old(startNode) && targetNode == old(targetNode)
      ensures algorithm == old(algorithm) && isFinished == old(isFinished)
      ensures snapshots == old(snapshots) && currentSnapshotIndex == old(currentSnapshotIndex)
    {
      isPlaying := playing;
    }

    /** resetSimulation: clean the grid, drop the snapshots, stop playing. */
    method ResetSimulation()
      requires Valid()
      modifies this
      ensures Valid()
      ensures grid == CleanGrid(old(grid))
      ensures snapshots == [] && currentSnapshotIndex == 0 && !isPlaying && !isFinished
      ensures startNode == old(startNode) && targetNode == old(targetNode) && algorithm == old(algorithm)
    {
      if grid != [] {
        CleanRunnable(grid, startNode, targetNode);
      }
      grid := CleanGrid(grid);
      snapshots, currentSnapshotIndex, isPlaying, isFinished := [], 0, false, false;
    }

    /** clearBoard: a fresh board with the start and target marked; the
        snapshots are dropped and playing stops. */
    method ClearBoard()
      requires Valid()
      modifies this
      ensures Valid()
      ensures grid == MarkedBoard(startNode, targetNode)
      ensures snapshots == [] && currentSnapshotIndex == 0 && !isPlaying && !isFinished
      ensures startNode == old(startNode) && targetNode == old(targetNode) && algorithm == old(algorithm)
    {
      var g := NewBoard(startNode, targetNode);
      grid := g;
      snapshots, currentSnapshotIndex, isPlaying, isFinished := [], 0, false, false;
    }

    /** fillWalls: wall every cell but the start and the target and drop the
        snapshots. It does not look at isPlaying. */
    method FillAllWalls()
      requires Valid()
      modifies this
      ensures Valid()
      ensures grid == FillWalls(old(grid), startNode, targetNode)
      ensures snapshots == [] && currentSnapshotIndex == 0 && !isFinished
      ensures startNode == old(startNode) && targetNode == old(targetNode) && algorithm == old(algorithm)
      ensures isPlaying == old(isPlaying)
    {
      if grid != [] {
        FillWallsShape(grid, startNode, targetNode);
      }
      grid := FillWalls(grid, startNode, targetNode);
      snapshots, currentSnapshotIndex, isFinished := [], 0, false;
    }
  }

  /** What createGrid(GRID_ROWS, GRID_COLS) builds. */
  function BlankBoard(): (g: Grid)
    ensures Board(g) && forall p | InBounds(g, p) :: At(g, p) == InitialCell(p.row, p.col)
  {
    seq(GRID_ROWS, r requires 0 <= r < GRID_ROWS => seq(GRID_COLS, c requires 0 <= c < GRID_COLS => InitialCell(r, c)))
  }

  /** The board initializeGrid and clearBoard build: createGrid's pristine
      cells, with the start shown as start and then the target as target. */
  function MarkedBoard(start: Coord, target: Coord): (g: Grid)
    requires OnBoard(start) && OnBoard(target)
    ensures LiveGrid(g, start)
    ensures forall p | InBounds(g, p) ::
              At(g, p) == InitialCell(p.row, p.col).(kind := if p == target then Target else if p == start then Start else Empty)
  {
    var g0 := BlankBoard();
    var g1 := With(g0, start, At(g0, start).(kind := Start));
    With(g1, target, At(g1, target).(kind := Target))
  }

  /** initializeGrid and clearBoard: createGrid, then mark the start and the
      target. */
  method NewBoard(start: Coord, target: Coord) returns (g: Grid)
    requires OnBoard(start) && OnBoard(target)
    ensures g == MarkedBoard(start, target)
  {
    g := CreateGrid(GRID_ROWS, GRID_COLS);
    assert g == BlankBoard() by {
      forall r | 0 <= r < GRID_ROWS
        ensures g[r] == BlankBoard()[r]
      {
        assert forall c | 0 <= c < GRID_COLS :: g[r][c] == At(BlankBoard(), Coord(r, c));
      }
    }
    g := With(g, start, At(g, start).(kind := Start));
    g := With(g, target, At(g, target).(kind := Target));
  }

  /** Moving the start (or target) mark: the old cell q shown as empty, the
      new cell p shown as start (or target) and not a wall, keeps a live
      board live, with the start at p when the start moved. */
  lemma RemarkLive(g: Grid, start: Coord, q: Coord, p: Coord, k: NodeType)
    requires LiveGrid(g, start) && InBounds(g, q) && InBounds(g, p) && (k == Start || k == Target)
    requires k == Start ==> q == start
    ensures var g1 := With(g, q, At(g, q).(kind := Empty));
            LiveGrid(With(g1, p, At(g1, p).(kind := k, isWall := false)), if k == Start then p else start)
  {
  }

  /** Flipping the wall flag of a cell that is neither start nor target, and
      showing it as wall or empty to match, keeps a live board live. */
  lemma ToggleLive(g: Grid, start: Coord, p: Coord)
    requires LiveGrid(g, start) && InBounds(g, p) && At(g, p).kind != Start && At(g, p).kind != Target
    ensures var cell := At(g, p);
            LiveGrid(With(g, p, cell.(isWall := !cell.isWall, kind := if !cell.isWall then Wall else Empty)), start)
  {
  }

  /** runSimulation's dispatch: the chosen search on the cleaned board. */
  method Run(algorithm: AlgorithmType, cleanGrid: Grid, start: Coord, target: Coord) returns (snaps: seq<Snapshot>)
    requires LiveGrid(cleanGrid, start) && OnBoard(start) && OnBoard(target)
    ensures RunResult(algorithm, cleanGrid, start, target, snaps)
  {
    CleanRunnable(cleanGrid, start, target);
    match algorithm {
      case BfsAlgorithm =>
        snaps := Bfs.Bfs(cleanGrid, start, target);
      case DfsAlgorithm =>
        snaps := Dfs.Dfs(cleanGrid, start, target);
      case AStarAlgorithm =>
        snaps := AStar.AStar(cleanGrid, start, target);
      case DijkstraAlgorithm =>
        snaps := Dijkstra.Dijkstra(cleanGrid, start, target);
    }
  }
}
