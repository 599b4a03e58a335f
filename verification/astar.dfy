/**
 * The search of src/algorithms/astar.ts: an open set seeded with the start
 * at g = 0, h = f = the Manhattan distance to the target, sorted by f with
 * ties broken by h before each removal; the removed cell is closed (shown as
 * visited) and each neighbour that is inside the board, not a wall, not
 * closed and not the start, and that is either not in the open set or
 * reached by a step from the removed cell at a smaller g, gets that cell as
 * parent, the new g, h and f, and joins the open set if it was not in it.
 * The heuristic h is `Manhattan` (paths.dfy).
 */
module AStar {
  import opened Types
  import opened Grids
  import opened Paths
  import opened Search
  import opened Sorting
  import opened BestFirstSpec

  /** The neighbour loop, in the order up, down, left, right. */
  method RelaxNeighbors(grid: Grid, open: seq<Coord>, c: Coord, target: Coord) returns (grid': Grid, open': seq<Coord>)
    requires Rect(grid) && InBounds(grid, c) && At(grid, c).g.Fin?
    ensures RelaxedFrom(grid, grid', open, open', c, target, ByG)
  {
    var ns := Neighbors(c);
    var g := At(grid, c).g.n;
    grid', open' := grid, open;
    RelaxedNone(grid, open, c, target, ByG);
    for k := 0 to 4
      invariant RelaxedUpTo(grid, grid', open, open', c, target, ByG, k)
    {
      var n := ns[k];
      RelaxedPending(grid, grid', open, open', c, target, ByG, k);
      ghost var before, queued := grid', open';
      if 0 <= n.row < |grid'| && 0 <= n.col < Cols(grid') {
        var neighbor := At(grid', n);
        if !(neighbor.isWall || neighbor.kind == Visited || neighbor.kind == Start) {
          var tentativeG := g + 1;
          var inOpenSet := neighbor.kind == Frontier;
          if !inOpenSet || Less(Fin(tentativeG), neighbor.g) {
            var h := Manhattan(n, target);
            neighbor := neighbor.(parent := Some(c), g := Fin(tentativeG), h := Fin(h));
            neighbor := neighbor.(f := Fin(tentativeG + h));
            if !inOpenSet {
              neighbor := neighbor.(kind := Frontier);
              open' := open' + [n];
            }
            grid' := With(grid', n, neighbor);
          }
        }
      }
      RelaxedNext(grid, before, grid', open, queued, open', c, target, ByG, k);
    }
    RelaxedAll(grid, grid', open, open', c, target, ByG);
  }

  /** One iteration: sort the open set by f then h, remove its first cell c,
      record the `Picked` snapshot, close c; then either report the target
      found, or relax c's neighbours and record the `Expanded` snapshot. */
  method Step(ghost g0: Grid, start: Coord, target: Coord, grid: Grid, open: seq<Coord>, snapshots: seq<Snapshot>,
              ghost E: set<Coord>, ghost L: nat)
    returns (grid': Grid, open': seq<Coord>, snapshots': seq<Snapshot>, found: bool,
             ghost E': set<Coord>, ghost L': nat)
    requires BestLoop(g0, start, target, ByG, grid, open, E, L, snapshots) && open != []
    ensures found ==> BestFound(g0, start, target, ByG, grid', Reached(open', E'), snapshots')
    ensures !found ==> BestLoop(g0, start, target, ByG, grid', open', E', L', snapshots')
    ensures !found ==> |Universe(|g0|, Cols(g0)) - E'| < |Universe(|g0|, Cols(g0)) - E|
  {
    PopMin(grid, open, ByG);
    var sorted := SortBy(open, CellKey(grid, ByG));
    var c := sorted[0];
    var rest := sorted[1..];
    var current := At(grid, c);
    var snaps1 := snapshots + [Snapshot(grid, OpenEntries(grid, rest, ByG), Some(current), Picked)];
    var grid1 := grid;
    if current.kind != Start && current.kind != Target {
      grid1 := With(grid, c, current.(kind := Visited));
    }
    BestPick(g0, start, target, ByG, grid, open, E, L, snapshots, c, rest, grid1, snaps1);
    E', L' := E + {c}, Score(current, ByG).n;
    if c == target {
      found := true;
      grid', open' := grid1, rest;
      snapshots' := snaps1 + [Snapshot(grid1, [], Some(At(grid1, c)), TargetFound)];
      BestLoopFound(g0, start, target, ByG, grid1, rest, E', L', snaps1, E);
      return;
    }
    found := false;
    grid', open' := RelaxNeighbors(grid1, rest, c, target);
    BestRelax(g0, start, target, ByG, grid1, rest, E', L', snaps1, c, E, grid', open');
    snapshots' := snaps1 + [Snapshot(grid', OpenEntries(grid', open', ByG), Some(At(grid', c)), Expanded)];
    BestExpand(g0, start, target, ByG, grid', open', E', L', snaps1, c, snapshots');
  }

  /** The main loop: until the open set runs empty or the target is removed
      from it. `found` tells which; S holds the cells reached. */
  method AStarSearch(initialGrid: Grid, start: Coord, target: Coord)
    returns (grid: Grid, snapshots: seq<Snapshot>, found: bool, ghost S: set<Coord>)
    requires Searchable(initialGrid, start, ByG)
    ensures found ==> BestFound(initialGrid, start, target, ByG, grid, S, snapshots)
    ensures !found ==> BestNotFound(initialGrid, start, target, ByG, snapshots)
  {
    grid := initialGrid;
    var h := Manhattan(start, target);
    var startCell := At(grid, start).(g := Fin(0), h := Fin(h), f := Fin(0 + h), kind := Frontier);
    grid := With(grid, start, startCell);
    var open := [start];
    snapshots := [Snapshot(grid, OpenEntries(grid, open, ByG), None, Started)];
    found := false;
    ghost var E: set<Coord> := {};
    ghost var L: nat := h;
    BestLoopInit(initialGrid, start, target, ByG);
    while open != []
      invariant BestLoop(initialGrid, start, target, ByG, grid, open, E, L, snapshots)
      decreases |Universe(|initialGrid|, Cols(initialGrid)) - E|
    {
      var grid', open', snapshots', found';
      ghost var E', L';
      grid', open', snapshots', found', E', L' := Step(initialGrid, start, target, grid, open, snapshots, E, L);
      if found' {
        grid, snapshots, found := grid', snapshots', true;
        S := Reached(open', E');
        return;
      }
      grid, open, snapshots, E, L := grid', open', snapshots', E', L';
    }
    S := E;
    BestLoopEmpty(initialGrid, start, target, ByG, grid, open, E, L, snapshots);
  }

  /** astar: run the search and, when the target was found, colour its
      parent chain and record the `PathFound` snapshot. */
  method AStar(initialGrid: Grid, start: Coord, target: Coord) returns (snapshots: seq<Snapshot>)
    requires Searchable(initialGrid, start, ByG)
    ensures BestResult(initialGrid, start, target, ByG, snapshots)
  {
    var grid, found;
    ghost var S;
    grid, snapshots, found, S := AStarSearch(initialGrid, start, target);
    if found {
      CostTreeChainLength(grid, S, start, ByG, target);
      var coloured := MarkPath(grid, target, S, start, CostRank(grid, S, ByG));
      FoundResult(initialGrid, start, target, ByG, grid, S, snapshots, coloured);
      snapshots := snapshots + [Snapshot(coloured, [], None, PathFound)];
    }
  }
}
