/**
 * The depth-first search of src/algorithms/dfs.ts: an explicit stack seeded
 * with the start, a cell accepted when popped for the first time (later
 * copies are dropped), its unaccepted passable neighbours pushed in the order
 * up, down, left, right (so the last of them is popped first), and a snapshot
 * after each acceptance and each expansion.
 */
module Dfs {
  import opened Types
  import opened Grids
  import opened Paths
  import opened Search
  import opened DfsSpec

  /** The neighbour loop: push every passable neighbour of c that is not yet
      accepted, making c its parent and showing it as frontier. */
  method PushNeighbors(grid: Grid, stack: seq<Coord>, visited: set<Coord>, c: Coord)
    returns (grid': Grid, stack': seq<Coord>)
    requires Rect(grid) && InBounds(grid, c)
    ensures PushedFrom(grid, grid', stack, stack', visited, c)
  {
    var ns := Neighbors(c);
    NeighborsDistinct(c);
    grid', stack' := grid, stack;
    for k := 0 to 4
      invariant Rect(grid') && |grid'| == |grid| && Cols(grid') == Cols(grid)
      invariant stack' == stack + Fresh(grid, visited, ns[..k])
      invariant forall p | InBounds(grid, p) ::
                  At(grid', p) == if p in Fresh(grid, visited, ns[..k]) then Push(At(grid, p), c) else At(grid, p)
    {
      var n := ns[k];
      assert ns[..k + 1][..k] == ns[..k] && ns[..k + 1][k] == n;
      assert n !in ns[..k];
      if InBounds(grid', n) && !At(grid', n).isWall && n !in visited {
        grid' := With(grid', n, Push(At(grid', n), c));
        stack' := stack' + [n];
      }
    }
    assert ns[..4] == ns;
  }

  /** One iteration that pops a cell c not accepted before: accept it, show
      it as current and record the `Picked` snapshot; then either report the
      target found, or push its neighbours, show it as visited and record the
      `Expanded` snapshot. */
  method Visit(ghost g0: Grid, start: Coord, target: Coord, grid: Grid, stack: seq<Coord>, visited: set<Coord>,
               snapshots: seq<Snapshot>, ghost rank: map<Coord, nat>, ghost pops: nat)
    returns (grid': Grid, stack': seq<Coord>, visited': set<Coord>, snapshots': seq<Snapshot>, found: bool,
             ghost rank': map<Coord, nat>, ghost pops': nat)
    requires DfsLoop(g0, start, target, grid, stack, visited, rank, snapshots, pops)
    requires stack != [] && stack[|stack| - 1] !in visited
    ensures found ==> DfsExit(g0, start, target, grid', true, visited', rank', snapshots', pops')
    ensures !found ==> DfsLoop(g0, start, target, grid', stack', visited', rank', snapshots', pops')
    ensures !found ==> |Universe(|g0|, Cols(g0)) - visited'| < |Universe(|g0|, Cols(g0)) - visited|
  {
    var c := stack[|stack| - 1];
    var stack1 := stack[..|stack| - 1];
    visited' := visited + {c};
    var cell := At(grid, c);
    var grid1 := grid;
    if cell.kind != Start && cell.kind != Target {
      grid1 := With(grid, c, cell.(kind := Current));
    }
    var snaps1 := snapshots + [Snapshot(grid1, CoordEntries(stack1), Some(At(grid1, c)), Picked)];
    DfsAccept(g0, start, target, grid, stack, visited, rank, snapshots, pops, grid1, snaps1);
    rank', pops' := rank[c := |visited|], pops + 1;
    if c == target {
      found := true;
      grid', stack' := grid1, stack1;
      snapshots' := snaps1 + [Snapshot(grid1, [], Some(At(grid1, c)), TargetFound)];
      DfsLoopFound(g0, start, target, grid1, stack1, visited', rank', snaps1, pops', visited, snapshots');
      return;
    }
    found := false;
    var grid2, stack2 := PushNeighbors(grid1, stack1, visited', c);
    grid' := grid2;
    var expanded := At(grid2, c);
    if expanded.kind != Start && expanded.kind != Target {
      grid' := With(grid2, c, expanded.(kind := Visited));
    }
    PushStep(g0, start, target, grid1, stack1, visited', rank', snaps1, pops', c, visited, grid2, stack2, grid');
    stack' := stack2;
    snapshots' := snaps1 + [Snapshot(grid', CoordEntries(stack'), Some(At(grid', c)), Expanded)];
    DfsLoopStep(g0, start, target, grid1, stack1, visited', rank', snaps1, pops', c, visited,
                grid', stack', snapshots');
  }

  /** The main loop. On return the search state is described by `DfsExit`:
      `found` tells whether the target was accepted, `accepted` holds the
      accepted cells (ranked by `rank`) and `pops` counts the pops, which
      never exceed four per cell of the board plus one. */
  method DfsSearch(initialGrid: Grid, start: Coord, target: Coord)
    returns (grid: Grid, snapshots: seq<Snapshot>, found: bool,
             ghost accepted: set<Coord>, ghost rank: map<Coord, nat>, ghost pops: nat)
    requires Rect(initialGrid) && InBounds(initialGrid, start) && At(initialGrid, start).parent == None
    ensures DfsExit(initialGrid, start, target, grid, found, accepted, rank, snapshots, pops)
    ensures pops <= 4 * (|initialGrid| * Cols(initialGrid)) + 1
  {
    grid := initialGrid;
    var stack := [start];
    var visited: set<Coord> := {};
    rank, pops := map[], 0;
    snapshots := [Snapshot(grid, CoordEntries(stack), None, Started)];
    found := false;
    DfsLoopInit(initialGrid, start, target);
    while stack != []
      invariant !found
      invariant DfsLoop(initialGrid, start, target, grid, stack, visited, rank, snapshots, pops)
      decreases |Universe(|initialGrid|, Cols(initialGrid)) - visited|, |stack|
    {
      if stack[|stack| - 1] in visited {
        DfsSkip(initialGrid, start, target, grid, stack, visited, rank, snapshots, pops);
        stack := stack[..|stack| - 1];
        pops := pops + 1;
      } else {
        grid, stack, visited, snapshots, found, rank, pops :=
          Visit(initialGrid, start, target, grid, stack, visited, snapshots, rank, pops);
        if found {
          break;
        }
      }
    }
    if !found {
      DfsLoopEmpty(initialGrid, start, target, grid, visited, rank, snapshots, pops);
    }
    accepted := visited;
  }

  /** dfs: run the search, then, when the target was found, colour its parent
      chain on the working grid. That grid is dropped: the result is the
      snapshot list alone, whose last entry was taken before the colouring. */
  method Dfs(initialGrid: Grid, start: Coord, target: Coord) returns (snapshots: seq<Snapshot>)
    requires Rect(initialGrid) && InBounds(initialGrid, start) && At(initialGrid, start).parent == None
    ensures DfsResult(initialGrid, start, target, snapshots)
  {
    var grid, found;
    ghost var visited, rank, pops;
    grid, snapshots, found, visited, rank, pops := DfsSearch(initialGrid, start, target);
    DfsFinish(initialGrid, start, target, grid, found, visited, rank, snapshots, pops);
    if found {
      var coloured := MarkPath(grid, target, visited, start, rank);
    }
  }
}
