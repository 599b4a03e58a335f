/**
 * What the four searches share: the shape of their snapshots, the facts
 * about cell kinds they keep, and the backtrace that colours the parent
 * chain (the mark-then-move loop of the depth-first, Dijkstra and A* searches).
 */
module Search {
  import opened Types
  import opened Grids
  import opened Paths

  /** `[...queue]` / `[...stack]`: the frontier as bare coordinates. */
  function CoordEntries(q: seq<Coord>): (es: seq<Entry>)
    ensures |es| == |q| && forall i | 0 <= i < |q| :: es[i] == Pos(q[i])
  {
    if q == [] then [] else CoordEntries(q[..|q| - 1]) + [Pos(q[|q| - 1])]
  }

  function Last(s: seq<Snapshot>): Snapshot
    requires |s| > 0
  {
    s[|s| - 1]
  }

  /** The cost of the cell at p by the given metric, or -1 when p is outside
      the grid or the cost is still unknown. */
  function Depth(g: Grid, p: Coord, m: Metric): int
  {
    if Rect(g) && InBounds(g, p) && CostOf(At(g, p), m).Fin? then CostOf(At(g, p), m).n else -1
  }

  /** The `distance` of a snapshot's current node, or -1 when there is none
      or it is unknown. */
  function CurrentDistance(s: Snapshot): int
  {
    if s.currentNode.Some? && s.currentNode.value.distance.Fin? then s.currentNode.value.distance.n else -1
  }

  /** Only the cell at `start` has kind `start` (the store keeps this). */
  ghost predicate OnlyStartAt(g: Grid, start: Coord)
    requires Rect(g)
  {
    forall p | InBounds(g, p) && At(g, p).kind == Start :: p == start
  }

  /** Cells of kind start or target keep their kind. */
  ghost predicate KindsKept(g0: Grid, g: Grid)
    requires SameLayout(g0, g)
  {
    forall p | InBounds(g0, p) && At(g0, p).kind in {Start, Target} :: At(g, p).kind == At(g0, p).kind
  }

  /** Same layout, and every cell keeps its parent and all four costs: only
      kinds and the visited/path flags may differ. */
  ghost predicate SameSearch(g0: Grid, g: Grid)
  {
    && SameLayout(g0, g)
    && forall p | InBounds(g0, p) ::
         && At(g, p).parent == At(g0, p).parent
         && At(g, p).distance == At(g0, p).distance
         && At(g, p).g == At(g0, p).g
         && At(g, p).h == At(g0, p).h
         && At(g, p).f == At(g0, p).f
  }

  /** The members of ns that an expansion discovers (BFS) or pushes (DFS), in the order of ns:
      exactly the passable ones not yet visited. */
  function Fresh(g: Grid, visited: set<Coord>, ns: seq<Coord>): (r: seq<Coord>)
    requires Rect(g)
    ensures forall i | 0 <= i < |r| :: r[i] in ns && Passable(g, r[i]) && r[i] !in visited
    ensures forall p | p in ns && Passable(g, p) && p !in visited :: p in r
    ensures Distinct(ns) ==> Distinct(r)
    ensures |r| <= |ns|
  {
    if ns == [] then []
    else
      var init := Fresh(g, visited, ns[..|ns| - 1]);
      var p := ns[|ns| - 1];
      assert forall q | q in ns :: q in ns[..|ns| - 1] || q == p;
      if Passable(g, p) && p !in visited then
        assert Distinct(ns) ==> p !in init;
        init + [p]
      else init
  }

  lemma NeighborsDistinct(c: Coord)
    ensures Distinct(Neighbors(c)) && c !in Neighbors(c)
  {
  }

  /** The cells discovered never outnumber the grid. */
  lemma VisitedBound(grid: Grid, visited: set<Coord>)
    requires forall v | v in visited :: InBounds(grid, v)
    ensures visited <= Universe(|grid|, Cols(grid))
    ensures |visited| <= |grid| * Cols(grid)
  {
    SubsetCard(visited, Universe(|grid|, Cols(grid)));
  }

  /** Discovering a new cell shrinks the undiscovered rest of the grid. */
  lemma GrowthShrinksRest(U: set<Coord>, visited: set<Coord>, visited': set<Coord>)
    requires visited < visited' <= U
    ensures |U - visited'| < |U - visited|
  {
    assert visited' - visited != {};
    var x :| x in visited' - visited;
    SubsetCard(U - visited', (U - visited) - {x});
  }

  /** The cell c's own coordinates, as it records them. */
  function CellCoord(cell: Cell): Coord
  {
    Coord(cell.row, cell.col)
  }

  /** The coordinates of the current cells of the `Picked` snapshots, in order. */
  function Picks(snaps: seq<Snapshot>): seq<Coord>
  {
    if snaps == [] then []
    else
      var s := snaps[|snaps| - 1];
      Picks(snaps[..|snaps| - 1]) + if s.log == Picked && s.currentNode.Some? then [CellCoord(s.currentNode.value)] else []
  }

  /** The cells picked so far, when S holds the accepted cells: each lies in
      S and none is picked twice. */
  ghost predicate PicksOk(snaps: seq<Snapshot>, S: set<Coord>)
  {
    Distinct(Picks(snaps)) && forall i | 0 <= i < |Picks(snaps)| :: Picks(snaps)[i] in S
  }

  /** `picked` is a `Picked` snapshot and `next`, the snapshot recorded after
      it, shows the same cell as the current node. */
  predicate Follows(picked: Snapshot, next: Snapshot)
  {
    && picked.log == Picked
    && picked.currentNode.Some? && next.currentNode.Some?
    && CellCoord(next.currentNode.value) == CellCoord(picked.currentNode.value)
  }

  /** The first n snapshots of a run: the initial one, then (n - 1) / 2
      extractions, each a `Picked` snapshot followed by one showing the same
      cell; that second snapshot is `Expanded`, except in the last of the n
      snapshots, which has the log `closing` (`Expanded` while the search
      goes on, `TargetFound` once it found the target). Every search records
      its snapshots by this one policy; `FramesExplicit` states it index by
      index. */
  ghost predicate Frames(snaps: seq<Snapshot>, n: int, closing: Log)
    decreases n
  {
    if n <= 1 then n == 1 && |snaps| >= 1
    else
      && 3 <= n <= |snaps|
      && Follows(snaps[n - 2], snaps[n - 1]) && snaps[n - 1].log == closing
      && Frames(snaps, n - 2, Expanded)
  }

  /** `Frames` index by index: n is odd and within the run, and each odd
      index i below n - 1 holds a `Picked` snapshot followed by one showing
      the same cell, logged `Expanded`, or `closing` when i + 1 is the last. */
  lemma {:induction false} FramesExplicit(snaps: seq<Snapshot>, n: int, closing: Log)
    ensures Frames(snaps, n, closing) <==>
              && 1 <= n <= |snaps| && n % 2 == 1
              && forall i | 1 <= i < n - 1 && i % 2 == 1 ::
                   Follows(snaps[i], snaps[i + 1]) && snaps[i + 1].log == (if i + 2 == n then closing else Expanded)
    decreases n
  {
    if n > 1 {
      FramesExplicit(snaps, n - 2, Expanded);
    }
  }

  /** Recording more snapshots keeps the frames recorded before. */
  lemma {:induction false} FramesKept(snaps: seq<Snapshot>, n: int, closing: Log, more: seq<Snapshot>)
    requires Frames(snaps, n, closing)
    ensures Frames(snaps + more, n, closing)
    decreases n
  {
    if n > 1 {
      FramesKept(snaps, n - 2, Expanded, more);
      assert (snaps + more)[n - 2] == snaps[n - 2] && (snaps + more)[n - 1] == snaps[n - 1];
    }
  }

  /** Recording the snapshot that follows the `Picked` snapshot recorded last
      completes an extraction. */
  lemma FramesClose(snaps: seq<Snapshot>, next: Snapshot)
    requires |snaps| >= 2 && Frames(snaps, |snaps| - 1, Expanded) && Follows(snaps[|snaps| - 1], next)
    ensures Frames(snaps + [next], |snaps| + 1, next.log)
  {
    FramesKept(snaps, |snaps| - 1, Expanded, [next]);
    var s := snaps + [next];
    assert s[|snaps| - 1] == snaps[|snaps| - 1] && s[|snaps|] == next;
  }

  /** Recording the `Picked` snapshot of a new extraction after complete ones. */
  lemma FramesPick(snaps: seq<Snapshot>, picked: Snapshot, snaps': seq<Snapshot>)
    requires Frames(snaps, |snaps|, Expanded) && snaps' == snaps + [picked]
    ensures Frames(snaps', |snaps'| - 1, Expanded) && Last(snaps') == picked
  {
    FramesKept(snaps, |snaps|, Expanded, [picked]);
  }

  /** Recording the snapshot that completes the extraction picked last. */
  lemma FramesAppend(snaps: seq<Snapshot>, next: Snapshot, snaps': seq<Snapshot>)
    requires |snaps| >= 2 && Frames(snaps, |snaps| - 1, Expanded) && Follows(Last(snaps), next)
    requires snaps' == snaps + [next]
    ensures Frames(snaps', |snaps'|, next.log)
  {
    FramesClose(snaps, next);
  }

  /** The closing snapshot leaves the frames before it alone. */
  lemma ClosingFrames(snaps: seq<Snapshot>, last: Snapshot, closing: Log)
    requires Frames(snaps, |snaps|, closing)
    ensures Frames(snaps + [last], |snaps + [last]| - 1, closing)
  {
    FramesKept(snaps, |snaps|, closing, [last]);
  }

  /** Recording both snapshots of one more extraction. */
  lemma FramesGrow(snaps: seq<Snapshot>, picked: Snapshot, next: Snapshot)
    requires Frames(snaps, |snaps|, Expanded) && Follows(picked, next)
    ensures Frames(snaps + [picked] + [next], |snaps| + 2, next.log)
  {
    FramesKept(snaps, |snaps|, Expanded, [picked]);
    FramesClose(snaps + [picked], next);
  }

  /** Frontier entries that are pairwise distinct coordinates inside the grid. */
  ghost predicate DistinctInBounds(g: Grid, es: seq<Entry>)
  {
    && (forall i, j | 0 <= i < j < |es| :: es[i].pos != es[j].pos)
    && forall i | 0 <= i < |es| :: InBounds(g, es[i].pos)
  }

  /** A snapshot's frontier never holds more than rows × cols entries. */
  lemma EntriesBound(g: Grid, es: seq<Entry>)
    requires DistinctInBounds(g, es)
    ensures |es| <= |g| * Cols(g)
  {
    var s := seq(|es|, i requires 0 <= i < |es| => es[i].pos);
    forall i, j | 0 <= i < j < |s|
      ensures s[i] != s[j]
    {
    }
    DistinctCoordsBound(g, s);
  }

  lemma SameSearchKeepsCostTree(g: Grid, g': Grid, S: set<Coord>, root: Coord, m: Metric)
    requires SameSearch(g, g') && CostTree(g, S, root, m)
    ensures CostTree(g', S, root, m)
  {
    forall c | c in S && c != root
      ensures CostLink(g', S, m, c)
    {
      assert CostLink(g, S, m, c);
    }
  }

  lemma SameSearchKeepsRankedTree(g: Grid, g': Grid, S: set<Coord>, root: Coord, rank: map<Coord, nat>)
    requires SameSearch(g, g') && RankedTree(g, S, root, rank)
    ensures RankedTree(g', S, root, rank)
  {
    forall c | c in S && c != root
      ensures RankLink(g', S, rank, c)
    {
      assert RankLink(g, S, rank, c);
    }
  }

  lemma {:induction false} SameSearchAncestor(g: Grid, g': Grid, c: Coord, k: nat)
    requires SameSearch(g, g')
    ensures Ancestor(g', c, k) == Ancestor(g, c, k)
    decreases k
  {
    if k > 0 && InBounds(g, c) && At(g, c).parent.Some? {
      SameSearchAncestor(g, g', At(g, c).parent.value, k - 1);
    }
  }

  /** What the backtrace does to one cell of the chain: colour it as path,
      unless it shows the start or the target. */
  function Mark(cell: Cell): Cell
  {
    if cell.kind == Start || cell.kind == Target then cell else cell.(kind := Path, isPath := true)
  }

  /** The cells reached from t after lo..hi parent steps. */
  ghost function ChainCells(g: Grid, t: Coord, lo: nat, hi: int): set<Coord>
    requires Rect(g)
  {
    set k: nat | lo <= k <= hi && Ancestor(g, t, k).Some? :: Ancestor(g, t, k).value
  }

  /** A ranked tree's parent chain passes through distinct cells. */
  lemma {:induction false} ChainRankDecreases(g: Grid, S: set<Coord>, root: Coord, rank: map<Coord, nat>, t: Coord, i: nat, j: nat)
    requires Rect(g) && RankedTree(g, S, root, rank) && t in S
    requires i < j <= ChainLength(g, S, root, rank, t)
    ensures Ancestor(g, t, i).Some? && Ancestor(g, t, j).Some?
    ensures Ancestor(g, t, i).value in S && Ancestor(g, t, j).value in S
    ensures rank[Ancestor(g, t, j).value] < rank[Ancestor(g, t, i).value]
    decreases j
  {
    var n := ChainLength(g, S, root, rank, t);
    var a := Ancestor(g, t, j - 1).value;
    assert a in S && a != root;
    assert RankLink(g, S, rank, a);
    AncestorStep(g, t, j - 1);
    assert Ancestor(g, t, j) == At(g, a).parent;
    if i < j - 1 {
      ChainRankDecreases(g, S, root, rank, t, i, j - 1);
    }
  }

  /** r is grid with exactly the cells of `marked` coloured by `Mark`. */
  ghost predicate MarkedExactly(grid: Grid, r: Grid, marked: set<Coord>)
    requires Rect(grid) && Rect(r)
  {
    forall p | InBounds(grid, p) :: InBounds(r, p) && At(r, p) == if p in marked then Mark(At(grid, p)) else At(grid, p)
  }

  /** One more step along a ranked chain adds one new cell to the chain's cells. */
  lemma ChainCellsStep(grid: Grid, S: set<Coord>, root: Coord, rank: map<Coord, nat>, target: Coord, lo: nat, steps: nat)
    requires Rect(grid) && RankedTree(grid, S, root, rank) && target in S
    requires lo <= steps <= ChainLength(grid, S, root, rank, target)
    ensures Ancestor(grid, target, steps).Some?
    ensures ChainCells(grid, target, lo, steps) == ChainCells(grid, target, lo, steps - 1) + {Ancestor(grid, target, steps).value}
    ensures Ancestor(grid, target, steps).value !in ChainCells(grid, target, lo, steps - 1)
  {
    var curr := Ancestor(grid, target, steps).value;
    forall k: nat | lo <= k <= steps - 1 && Ancestor(grid, target, k).Some?
      ensures Ancestor(grid, target, k).value != curr
    {
      ChainRankDecreases(grid, S, root, rank, target, k, steps);
    }
  }

  /** Colouring the chain's cell p, hi steps from the target, extends the
      coloured cells from lo..hi-1 to lo..hi. */
  lemma MarkOne(grid: Grid, S: set<Coord>, root: Coord, rank: map<Coord, nat>, target: Coord,
                lo: nat, hi: nat, p: Coord, r: Grid, r': Grid)
    requires Rect(grid) && RankedTree(grid, S, root, rank) && target in S
    requires lo <= hi <= ChainLength(grid, S, root, rank, target) && Ancestor(grid, target, hi) == Some(p)
    requires SameSearch(grid, r) && MarkedExactly(grid, r, ChainCells(grid, target, lo, hi - 1))
    requires InBounds(r, p)
    requires r' == if At(r, p).kind != Start && At(r, p).kind != Target
                   then With(r, p, At(r, p).(kind := Path, isPath := true)) else r
    ensures SameSearch(grid, r') && MarkedExactly(grid, r', ChainCells(grid, target, lo, hi))
  {
    ChainCellsStep(grid, S, root, rank, target, lo, hi);
  }

  /** The backtrace of the breadth-first search: starting at `target`, while
      the current cell has a parent, count it, move to the parent and colour
      the parent (unless it shows start or target); finally count the start.
      Every cell of the chain but the target is coloured, nothing else changes,
      and the count is the number of cells on the chain. */
  method Backtrace(grid: Grid, target: Coord, ghost S: set<Coord>, ghost root: Coord, ghost rank: map<Coord, nat>)
    returns (r: Grid, length: nat)
    requires Rect(grid) && RankedTree(grid, S, root, rank) && target in S
    ensures SameSearch(grid, r)
    ensures length == ChainLength(grid, S, root, rank, target) + 1
    ensures MarkedExactly(grid, r, ChainCells(grid, target, 1, ChainLength(grid, S, root, rank, target)))
  {
    ghost var n := ChainLength(grid, S, root, rank, target);
    r := grid;
    var curr := target;
    length := 0;
    assert ChainCells(grid, target, 1, 0) == {};
    while At(r, curr).parent.Some?
      invariant length <= n && Ancestor(grid, target, length) == Some(curr) && curr in S
      invariant SameSearch(grid, r)
      invariant MarkedExactly(grid, r, ChainCells(grid, target, 1, length))
      decreases rank[curr]
    {
      assert curr != root && RankLink(grid, S, rank, curr);
      AncestorStep(grid, target, length);
      curr := At(r, curr).parent.value;
      length := length + 1;
      ghost var r0 := r;
      var cell := At(r, curr);
      if cell.kind != Start && cell.kind != Target {
        r := With(r, curr, cell.(kind := Path, isPath := true));
      }
      MarkOne(grid, S, root, rank, target, 1, length, curr, r0, r);
    }
    assert curr == root || RankLink(grid, S, rank, curr);
    if length < n {
      assert false;
    }
    length := length + 1;
  }

  /** Recolouring keeps every parent chain. */
  lemma SameSearchKeepsParentChain(g: Grid, g': Grid, s: Coord, t: Coord, n: nat)
    requires SameSearch(g, g') && ParentChainWalk(g, s, t, n)
    ensures ParentChainWalk(g', s, t, n)
  {
    SameSearchAncestor(g, g', t, n - 1);
    forall k | 0 <= k < n - 1
      ensures ChainStep(g', t, k)
    {
      assert ChainStep(g, t, k);
      SameSearchAncestor(g, g', t, k);
      SameSearchAncestor(g, g', t, k + 1);
    }
  }

  /** The backtrace of the depth-first, Dijkstra and A* searches: starting at
      `target`, while the current cell has a parent, colour it (unless it shows
      start or target) and move to the parent. Every cell of the chain but the
      root is coloured; nothing else changes. */
  method MarkPath(grid: Grid, target: Coord, ghost S: set<Coord>, ghost root: Coord, ghost rank: map<Coord, nat>)
    returns (r: Grid)
    requires Rect(grid) && RankedTree(grid, S, root, rank) && target in S
    ensures SameSearch(grid, r)
    ensures MarkedExactly(grid, r, ChainCells(grid, target, 0, ChainLength(grid, S, root, rank, target) - 1))
  {
    ghost var n := ChainLength(grid, S, root, rank, target);
    r := grid;
    var curr := target;
    ghost var steps: nat := 0;
    assert ChainCells(grid, target, 0, -1) == {};
    while At(r, curr).parent.Some?
      invariant steps <= n && Ancestor(grid, target, steps) == Some(curr) && curr in S
      invariant SameSearch(grid, r)
      invariant MarkedExactly(grid, r, ChainCells(grid, target, 0, steps - 1))
      decreases rank[curr]
    {
      assert curr != root && RankLink(grid, S, rank, curr);
      ghost var r0 := r;
      var cell := At(r, curr);
      if cell.kind != Start && cell.kind != Target {
        r := With(r, curr, cell.(kind := Path, isPath := true));
      }
      MarkOne(grid, S, root, rank, target, 0, steps, curr, r0, r);
      AncestorStep(grid, target, steps);
      curr := At(r, curr).parent.value;
      steps := steps + 1;
    }
    assert curr == root || RankLink(grid, S, rank, curr);
    if steps < n {
      assert false;
    }
  }

  /** Colouring a path keeps layout and start/target kinds. */
  lemma MarkedKeepsKinds(g0: Grid, g: Grid, r: Grid, marked: set<Coord>)
    requires SameLayout(g0, g) && KindsKept(g0, g) && SameSearch(g, r) && MarkedExactly(g, r, marked)
    ensures SameLayout(g0, r) && KindsKept(g0, r)
  {
  }
}
