/**
 * Breadth-first search (src/algorithms/bfs.ts): a FIFO queue of coordinates,
 * a visited set marked on discovery, and a snapshot before and after every
 * expansion. The cost tree of discovered cells, the sorted queue and the
 * relaxed settled region give the two results that matter: "no path" exactly
 * when the target is unreachable, and otherwise a parent chain that is a
 * shortest walk.
 */
module Bfs {
  import opened Types
  import opened Grids
  import opened Paths
  import opened Search
  import opened BfsSpec

  method Explore(grid: Grid, queue: seq<Coord>, visited: set<Coord>, c: Coord)
    returns (grid': Grid, queue': seq<Coord>, visited': set<Coord>)
    requires Rect(grid) && InBounds(grid, c)
    ensures Rect(grid') && |grid'| == |grid| && Cols(grid') == Cols(grid)
    ensures queue' == queue + Fresh(grid, visited, Neighbors(c))
    ensures visited' == visited + Elems(Fresh(grid, visited, Neighbors(c)))
    ensures forall p | InBounds(grid, p) ::
              At(grid', p) == if p in Fresh(grid, visited, Neighbors(c))
                              then Discover(At(grid, p), c, Add1(At(grid, c).distance))
                              else At(grid, p)
  {
    var neighbors := Neighbors(c);
    NeighborsDistinct(c);
    grid', queue', visited' := grid, queue, visited;
    var i := 0;
    while i < |neighbors|
      invariant 0 <= i <= |neighbors|
      invariant Rect(grid') && |grid'| == |grid| && Cols(grid') == Cols(grid)
      invariant queue' == queue + Fresh(grid, visited, neighbors[..i])
      invariant visited' == visited + Elems(Fresh(grid, visited, neighbors[..i]))
      invariant forall p | InBounds(grid, p) ::
                  At(grid', p) == if p in Fresh(grid, visited, neighbors[..i])
                                  then Discover(At(grid, p), c, Add1(At(grid, c).distance))
                                  else At(grid, p)
    {
      var n := neighbors[i];
      assert neighbors[..i + 1][..i] == neighbors[..i];
      assert n !in Fresh(grid, visited, neighbors[..i]) by {
        assert forall j | 0 <= j < i :: neighbors[j] != n;
      }
      if 0 <= n.row < |grid| && 0 <= n.col < Cols(grid) {
        var neighborCell := At(grid', n);
        if !neighborCell.isWall && n !in visited' {
          visited' := visited' + {n};
          var currentCell := At(grid', c);
          grid' := With(grid', n, Discover(neighborCell, c, Add1(currentCell.distance)));
          queue' := queue' + [n];
        }
      }
      i := i + 1;
    }
    assert neighbors[..i] == neighbors;
  }

  method ExpandNode(grid: Grid, queue: seq<Coord>, visited: set<Coord>, c: Coord,
                    ghost g0: Grid, ghost start: Coord, ghost target: Coord, ghost queue0: seq<Coord>, ghost last: nat)
    returns (grid': Grid, queue': seq<Coord>, visited': set<Coord>)
    requires SameLayout(g0, grid) && KindsKept(g0, grid) && OnlyStartAt(grid, start)
    requires BfsCore(grid, start, target, queue0, visited, last)
    requires |queue0| > 0 && queue0[0] == c && c != target && queue == queue0[1..]
    ensures ExpansionDone(g0, start, target, grid, queue0, visited, last, grid', queue', visited')
  {
    assert c in visited;
    grid' := grid;
    if At(grid', c).kind != Start && At(grid', c).kind != Target {
      grid' := With(grid', c, At(grid', c).(kind := Current));
      RecolorKeeps(g0, grid, grid', c, Current, start);
      SameSearchKeepsCore(grid, grid', start, target, queue0, visited, last);
    }
    ghost var grid1 := grid';
    ghost var F := Fresh(grid1, visited, Neighbors(c));
    grid', queue', visited' := Explore(grid', queue, visited, c);
    ExploreKeepsCore(grid1, grid', start, target, queue0, visited, last);
    DiscoverKeepsKinds(g0, grid1, grid', F, c, Add1(At(grid1, c).distance), start);
    SameLayoutTrans(g0, grid1, grid');
    ghost var grid2 := grid';
    ghost var d := Depth(grid, c, ByDistance);
    if At(grid', c).kind != Start && At(grid', c).kind != Target {
      grid' := With(grid', c, At(grid', c).(kind := Visited));
      RecolorKeeps(g0, grid2, grid', c, Visited, start);
      SameSearchKeepsCore(grid2, grid', start, target, queue', visited', d);
    }
    NeighborsDistinct(c);
    DistinctCard(F);
    assert visited * Elems(F) == {};
  }

  method FinishRun(grid: Grid, start: Coord, target: Coord, found: bool, snapshots: seq<Snapshot>,
                   ghost g0: Grid, ghost visited: set<Coord>, ghost D: nat)
    returns (snapshots': seq<Snapshot>)
    requires BfsExit(g0, start, target, grid, found, visited, D, snapshots)
    ensures BfsResult(g0, start, target, snapshots')
  {
    if found {
      CostTreeChainLength(grid, visited, start, ByDistance, target);
      var r, length := Backtrace(grid, target, visited, start, CostRank(grid, visited, ByDistance));
      FoundResult(g0, start, target, grid, visited, D, snapshots, r, length);
      snapshots' := snapshots + [Snapshot(r, [], None, PathConstructed(length))];
    } else {
      NotFoundResult(g0, start, target, grid, visited, D, snapshots);
      snapshots' := snapshots + [Snapshot(grid, [], None, NoPathFound)];
    }
  }

  method Bfs(initialGrid: Grid, start: Coord, target: Coord) returns (snapshots: seq<Snapshot>)
    requires Rect(initialGrid) && InBounds(initialGrid, start) && InBounds(initialGrid, target)
    requires At(initialGrid, start).parent == None
    requires OnlyStartAt(initialGrid, start)
    ensures BfsResult(initialGrid, start, target, snapshots)
  {
    var grid := initialGrid;
    var queue := [start];
    var visited := {start};
    grid := With(grid, start, At(grid, start).(distance := Fin(0)));
    snapshots := [Snapshot(grid, CoordEntries(queue), None, Started)];
    var found := false;
    ghost var last: nat := 0;
    ghost var D: nat := 0;
    BfsLoopInit(initialGrid, start, target);
    while queue != []
      invariant BfsLoop(initialGrid, start, target, grid, queue, visited, last, snapshots)
      decreases |Universe(|initialGrid|, Cols(initialGrid)) - visited|, |queue|
    {
      ghost var grid0, queue0, visited0, snapshots0 := grid, queue, visited, snapshots;
      var currentCoord := queue[0];
      queue := queue[1..];
      var currentCell := At(grid, currentCoord);
      snapshots := snapshots + [Snapshot(grid, CoordEntries(queue), Some(currentCell), Picked)];
      if currentCoord == target {
        found := true;
        snapshots := snapshots + [Snapshot(grid, [], Some(currentCell), TargetFound)];
        BfsLoopFound(initialGrid, start, target, grid, queue0, visited, last, snapshots0, snapshots);
        D := Depth(grid, target, ByDistance);
        break;
      }
      grid, queue, visited := ExpandNode(grid, queue, visited, currentCoord, initialGrid, start, target, queue0, last);
      snapshots := snapshots + [Snapshot(grid, CoordEntries(queue), Some(At(grid, currentCoord)), Expanded)];
      BfsLoopStep(initialGrid, start, target, grid0, queue0, visited0, last, snapshots0, grid, queue, visited, snapshots);
      last := Depth(grid0, currentCoord, ByDistance);
    }
    if !found {
      BfsLoopEmpty(initialGrid, start, target, grid, visited, last, snapshots);
      D := last;
    }
    snapshots := FinishRun(grid, start, target, found, snapshots, initialGrid, visited, D);
  }
}
