# AlgoGlass search engine in Dafny

AlgoGlass shows step by step how four path-finding algorithms explore a grid
of cells. It covers breadth-first search, depth-first search, Dijkstra and A*.
Each search takes a grid, a start and a target. It returns a list of
*snapshots*: copies of the grid together with the frontier, the cell being
processed and a log message. A store (`useGameStore`) holds the following:

- the board;
- the start and target coordinates;
- the chosen algorithm;
- the recorded snapshots and a replay cursor.

The store's actions edit the board, run a search on a cleaned copy of it and
move the cursor.

This project models that core and proves what it promises:

- **Grid.** `Grids.CreateGrid` builds the dense `rows × cols` grid with
  nested loops. `GRID_ROWS` and `GRID_COLS` are 20 and 40.
- **Searches.** Each search is an imperative method working on a local
  working grid (`seq<seq<Cell>>`, rewritten one cell at a time):
  - `Bfs.Bfs` uses a FIFO queue and a visited set marked on discovery.
  - `Dfs.Dfs` uses a stack; a cell is accepted when first popped and later
    copies are dropped.
  - `Dijkstra.Dijkstra` and `AStar.AStar` keep an open set. Before each
    removal it is re-sorted with a stable sort, by `distance`, or by `f` with
    ties broken on `h`.

  Every run appends exactly the snapshots the source appends. Each search's
  postcondition is a predicate on the whole snapshot list
  (`BfsSpec.BfsResult`, `DfsSpec.DfsResult`, `BestFirstSpec.BestResult`).
  All three state:
  - the first snapshot and the bounds on the list's length;
  - that every snapshot keeps the board's layout and lists in-bounds cells;
  - the order in which snapshots are recorded (`Search.Frames`). After the
    initial snapshot, each cell taken from the frontier records a "picked"
    snapshot with that cell as its current node. It is followed by a
    snapshot showing the same cell: "target found" for the target and
    "expanded" otherwise. Only BFS, and Dijkstra and A* after finding the
    target, add one closing snapshot;
  - that the run reports the target found **exactly when** it is
    reachable, and that the found snapshot has an empty frontier and the
    target as its current node.

  What every snapshot keeps differs by search:
  - BFS: the start and target kinds, and a frontier without duplicates.
    Dequeued distances never decrease.
  - DFS: the start's kind, but not the target's. The stack may hold
    duplicates, so the result only states that, on a well-indexed board, no
    cell is accepted twice.
  - Dijkstra and A*: no kind, since the source overwrites both. The open
    set has no duplicates. Each entry is `{ row, col, d }` (Dijkstra) or
    `{ row, col, f }` (A*), carrying the score its cell has in that
    snapshot's grid. No cell is picked twice, and the scores of picked
    cells never decrease.

  For BFS, Dijkstra and A* the reported path is a shortest walk: the
  coloured parent chain is a walk of `D + 1` cells, and no walk from start
  to target is shorter. For DFS the parent chain of the found target is a
  walk from the start.
- **Loop invariants.** The invariants that carry these results are stated
  as predicates (`BfsLoop`, `DfsLoop`, `BestLoop`). They are proved by
  per-iteration lemmas. They cover:
  - the distance tree of discovered cells, and the sorted queue whose
    distances span at most `last .. last + 1`;
  - the relaxed settled region, and the ranked tree of accepted DFS cells;
  - "in the open set ⇔ shown as frontier", "closed ⇔ shown as visited", and
    `f = g + h`;
  - monotone extraction scores, and parent chains that end at the start.
- **Store.** `Store.GameStore` is a class with the store's fields. Each action
  is a method whose postcondition gives the whole new state. `Valid()` says:
  - the start and target are on the board;
  - the board is empty (before `initializeGrid`) or *live*: 20 × 40 and
    well-indexed, with only the start coordinate shown as start and every
    cell clean (no search field written);
  - the cursor lies in `0 .. max(|snapshots| - 1, 0)`.

  Because the live board is always clean, the pre-run cleaning gives back
  the board itself (`Store.CleanRunnable`). That is also why every search's
  precondition holds when `runSimulation` calls it.
- **Across algorithms.** `Store.RunFound` shows that all four algorithms
  report "found" exactly when the target is reachable.
  `Store.ShortestAgree` shows that BFS, Dijkstra and A* report paths of the
  same number of cells.

All grids are values: the source's deep copies (`cloneGrid`, `{ ...cell }`)
are implicit. The open set holds coordinates and reads costs from the
working grid. That is what the source's sharing of `Cell` objects between
`openSet` and the grid achieves.

The model keeps these quirks of the code:

- Only BFS closes with a "no path" snapshot. DFS, Dijkstra and A* end on
  their last expansion snapshot when the target is unreachable
  (src/algorithms/dfs.ts:132-145, src/algorithms/dijkstra.ts:102-121,
  src/algorithms/astar.ts:121-140).
- DFS colours its path on the working grid after the last snapshot and
  returns only the snapshots. The colouring is never visible, and a DFS run
  that finds the target ends on its "target found" snapshot
  (src/algorithms/dfs.ts:132-145).
- Start and target kinds are not always kept:
  - DFS shows a pushed target as frontier (src/algorithms/dfs.ts:113) and
    then as current when it is accepted.
  - Dijkstra and A* show the start as frontier and then visited
    (src/algorithms/dijkstra.ts:20, src/algorithms/astar.ts:25).
  - Dijkstra and A* show the target as frontier and visited, and the
    backtrace then colours it as path.
- In DFS the most recent push sets a cell's parent, not the first discovery
  (src/algorithms/dfs.ts:112).

## Model

| member | source | states |
|---|---|---|
| Grids.CreateGrid | src/utils/gridUtils.ts:3-25 | exactly `rows` rows of `cols` cells; the cell at [r][c] records r and c, is empty, no wall, not visited, not on a path, every cost Infinity and no parent |
| Grids.DistinctCoordsBound | src/algorithms/bfs.ts:78-87 | a frontier list without duplicates, all in bounds, never exceeds rows × cols entries |
| Paths.Manhattan | src/algorithms/astar.ts:13 | the heuristic h is zero exactly when the two cells coincide |
| Paths.ManhattanStep | src/algorithms/astar.ts:13 | h is consistent: one move changes it by at most one |
| Paths.ManhattanWalk | src/algorithms/astar.ts:13 | h is admissible: a walk between two cells has at least h moves |
| Paths.ClosedRegionExcludes | src/algorithms/bfs.ts:35-104 | a region closed under moves that holds the start but not the target: the target is unreachable, the basis of every "no path" outcome |
| Paths.ShortestByFrontier | src/algorithms/dijkstra.ts:34-61 | when every reached but unsettled cell costs at least D and the target is unsettled, every walk to it has at least D + 1 cells |
| Paths.ShortestByEstimate | src/algorithms/astar.ts:38-70 | the same with costs plus the Manhattan estimate: A* closes the target at its shortest distance |
| Paths.CostTreeParentWalk | src/algorithms/dijkstra.ts:103-112 | in a cost tree, a member's parent chain is a walk from the root of exactly cost + 1 cells: parent chains end at the start |
| Paths.RankedTreeParentWalk | src/algorithms/dfs.ts:133-142 | in the DFS acceptance-ranked tree, a member's parent chain reaches the start |
| Paths.ParentChainWalkOf | src/algorithms/bfs.ts:107-124 | a parent chain of n cells ending at s is a walk of exactly n cells from s to t |
| Search.FramesExplicit | src/algorithms/astar.ts:49-118 | the recursive snapshot-order predicate read index by index: an odd number of snapshots, and each odd index holds a "picked" snapshot followed by one showing the same cell, "expanded" except the last, which carries the closing log |
| Search.Fresh | src/algorithms/bfs.ts:73-88 | the neighbours an expansion takes are exactly the passable, not yet visited ones |
| Search.Backtrace | src/algorithms/bfs.ts:107-124 | the BFS backtrace colours exactly the chain cells between target and start (start and target kinds kept), changes no parent or cost, and counts chain length + 1 cells |
| Search.MarkPath | src/algorithms/dijkstra.ts:103-112 | the mark-then-move backtrace colours exactly the chain cells from the target up to but excluding the root, and changes no parent or cost |
| Search.MarkedKeepsKinds | src/algorithms/bfs.ts:117-119 | colouring a path keeps the layout and the start/target kinds |
| Sorting.SortBy | src/algorithms/dijkstra.ts:36 | the sort permutes the open set |
| Sorting.SortedBySort | src/algorithms/dijkstra.ts:36 | the sorted open set is ordered by the comparator's key |
| Sorting.SortStable | src/algorithms/astar.ts:40-43 | the sort is stable: entries with equal keys keep their relative order |
| Sorting.SortFirstIsMin | src/algorithms/dijkstra.ts:36-38 | the removed head scores at most every open entry |
| BfsSpec.DiscoverKeepsKinds | src/algorithms/bfs.ts:83-85 | discovering cells keeps the layout and the start/target kinds (a discovered target stays target) |
| BfsSpec.ExpandKeepsQueue | src/algorithms/bfs.ts:78-87 | after an expansion the queue is still distinct, sorted by distance and within last .. last + 1 |
| BfsSpec.ExpandKeepsRelaxed | src/algorithms/bfs.ts:73-90 | the expanded region grows by the dequeued cell and stays relaxed |
| BfsSpec.BfsLoopInit | src/algorithms/bfs.ts:18-31 | the seeded state (start at distance 0, queue [start], initial snapshot) satisfies the loop invariant |
| BfsSpec.BfsLoopStep | src/algorithms/bfs.ts:35-104 | one non-target iteration keeps the invariant, including the "picked"/"expanded" pair of the dequeued cell, advances `last` to the dequeued distance and shrinks the undiscovered cells |
| BfsSpec.BfsLoopFound | src/algorithms/bfs.ts:41-57 | dequeuing the target records its "picked" snapshot and then the "target found" snapshot with an empty queue and the same cell current, and leaves no walk shorter than its distance + 1 |
| BfsSpec.BfsLoopEmpty | src/algorithms/bfs.ts:35 | an empty queue means the target is unreachable |
| BfsSpec.PathReported | src/algorithms/bfs.ts:106-131 | the closing snapshot's length is the distance the "target found" snapshot shows for the target, plus 1; its parent chain is a walk of that many cells, no walk is shorter, and exactly the chain cells strictly between target and start are coloured |
| BfsSpec.FoundResult | src/algorithms/bfs.ts:106-131 | appending "path constructed" completes a BfsResult |
| BfsSpec.NotFoundResult | src/algorithms/bfs.ts:132-139 | appending "no path found" completes a BfsResult |
| Bfs.Explore | src/algorithms/bfs.ts:73-90 | the neighbour loop appends exactly the fresh neighbours, up, down, left, right, marks them visited and discovers them from the current cell at its distance + 1 |
| Bfs.ExpandNode | src/algorithms/bfs.ts:41-104 | marking current, exploring and marking visited keep the layout, the start/target kinds and the search invariant, with the "picked" and "expanded" snapshots of the dequeued cell recorded |
| Bfs.FinishRun | src/algorithms/bfs.ts:106-139 | the closing snapshot completes a BfsResult |
| Bfs.Bfs | src/algorithms/bfs.ts:3-142 | BfsResult: 2 .. 2·rows·cols + 2 snapshots, the first as seeded, then one "picked" and one "expanded" (or, for the target, "target found") snapshot per dequeued cell, both showing it current, then one closing snapshot; ordered dequeue distances, "no path" exactly when unreachable, otherwise a "target found" snapshot with an empty queue and the target current, then a shortest parent-chain walk whose reported length is the target's distance + 1 |
| DfsSpec.DfsLoopInit | src/algorithms/dfs.ts:17-39 | the stack [start] and the initial snapshot satisfy the loop invariant |
| DfsSpec.DfsSkip | src/algorithms/dfs.ts:44-49 | popping an accepted cell changes nothing else and keeps the invariant |
| DfsSpec.AcceptTree | src/algorithms/dfs.ts:51 | accepting a popped cell grows the ranked tree: its parent was accepted strictly earlier |
| DfsSpec.DfsAccept | src/algorithms/dfs.ts:44-65 | accepting, showing current and recording the "picked" snapshot of the popped cell reach the accepted state |
| DfsSpec.PushStep | src/algorithms/dfs.ts:78-122 | pushing at most four unaccepted neighbours with this cell as parent and showing it visited keeps tree, stack and closure |
| DfsSpec.DfsLoopStep | src/algorithms/dfs.ts:43-130 | a non-target iteration keeps the invariant (each cell accepted at most once, pops ≤ 4·accepted + 1, an "expanded" snapshot of the same cell after its "picked" one) and shrinks the unaccepted cells |
| DfsSpec.DfsLoopFound | src/algorithms/dfs.ts:67-76 | accepting the target records "target found" after its "picked" snapshot and ends the loop with its parent chain a walk from the start |
| DfsSpec.DfsLoopEmpty | src/algorithms/dfs.ts:43 | an empty stack means the accepted region is closed and the target unreachable |
| DfsSpec.DfsFinish | src/algorithms/dfs.ts:132-145 | the exit state gives DfsResult |
| Dfs.PushNeighbors | src/algorithms/dfs.ts:88-118 | the neighbour loop pushes exactly the passable unaccepted neighbours in order, overwriting their parent and showing them frontier, target included |
| Dfs.Visit | src/algorithms/dfs.ts:44-129 | one accepting iteration keeps the invariant or ends with the target found |
| Dfs.DfsSearch | src/algorithms/dfs.ts:14-130 | the loop ends either with the target accepted and its parent chain a walk from the start, or with the accepted region closed under moves and the target unreachable; each cell is accepted at most once, and there are at most 4·rows·cols + 1 pops |
| Dfs.Dfs | src/algorithms/dfs.ts:3-146 | DfsResult: 3 .. 2·rows·cols + 1 snapshots, the first as seeded, then one "picked" and one "expanded" (or, for the target, "target found") snapshot per accepted pop, both showing the popped cell, nothing for a skipped pop; no cell accepted twice, "target found" exactly when reachable, with an empty stack, the target current and its parent chain a walk from the start |
| BestFirstSpec.Candidates | src/algorithms/dijkstra.ts:70-92 | the neighbours relaxation updates: in bounds, not wall, not visited, not start, and improved |
| BestFirstSpec.Newcomers | src/algorithms/dijkstra.ts:86-89 | the neighbours relaxation pushes: updated and not already frontier, without duplicates |
| BestFirstSpec.SeededCore | src/algorithms/dijkstra.ts:18-23 | the seeded start (cost 0, A*: h and f = 0 + h, shown frontier) satisfies the search invariant |
| BestFirstSpec.BestLoopInit | src/algorithms/astar.ts:21-34 | seeding and the initial snapshot satisfy the loop invariant |
| BestFirstSpec.PopMin | src/algorithms/astar.ts:40-45 | sort-and-shift removes an open cell scoring at most every open cell and leaves the others, each once |
| BestFirstSpec.CloseKinds | src/algorithms/dijkstra.ts:48-50 | closing the removed cell changes only its kind to visited; frontier ⇔ open, visited ⇔ closed still hold |
| BestFirstSpec.EntriesOk | src/algorithms/astar.ts:49-53 | on a well-indexed board the open-set entries name distinct in-bounds cells, each `{ row, col, d }` or `{ row, col, f }` with its cell's current score |
| BestFirstSpec.BestPick | src/algorithms/dijkstra.ts:38-50 | removing and closing the minimum with its "picked" snapshot (current node the removed cell, entries the remaining open set) keeps the invariant, and the removed score never drops below the previous one |
| BestFirstSpec.RelaxOpen | src/algorithms/dijkstra.ts:80-89 | the open set stays distinct: only cells not shown as frontier are pushed |
| BestFirstSpec.RelaxKinds | src/algorithms/astar.ts:94-104 | after relaxation a cell is frontier exactly when open and visited exactly when closed |
| BestFirstSpec.RelaxTree | src/algorithms/dijkstra.ts:82-84 | updated cells hang off the closed cell at one more than its cost: the reached cells stay a cost tree |
| BestFirstSpec.RelaxScores | src/algorithms/astar.ts:96-100 | every reached cell keeps f = g + h with h the Manhattan estimate (Dijkstra: score = distance) |
| BestFirstSpec.RelaxMonotone | src/algorithms/astar.ts:90-100 | closed cells score at most the last removed score and open cells at least it |
| BestFirstSpec.BestRelax | src/algorithms/dijkstra.ts:63-92 | relaxing a closed non-target cell keeps the invariant and shrinks the unclosed cells |
| BestFirstSpec.BestExpand | src/algorithms/dijkstra.ts:94-99 | recording the "expanded" snapshot of the removed cell after its "picked" one restores the loop invariant |
| BestFirstSpec.FoundShortest | src/algorithms/dijkstra.ts:52-61 | when the target is closed its cost D is final: no walk has fewer than D + 1 cells |
| BestFirstSpec.BestLoopFound | src/algorithms/astar.ts:61-70 | closing the target and recording "target found" after its "picked" snapshot gives BestFound |
| BestFirstSpec.BestLoopEmpty | src/algorithms/dijkstra.ts:34 | an empty open set means the target is unreachable |
| BestFirstSpec.FoundReported | src/algorithms/dijkstra.ts:103-118 | the coloured grid's parent chain is a walk of D + 1 cells and the target is reachable |
| BestFirstSpec.FoundResult | src/algorithms/astar.ts:122-137 | appending "path found" completes a BestResult |
| Dijkstra.RelaxNeighbors | src/algorithms/dijkstra.ts:70-92 | the neighbour loop updates exactly the candidates (parent, distance + 1, frontier) and appends exactly the newcomers |
| Dijkstra.Step | src/algorithms/dijkstra.ts:34-99 | one iteration records a "picked" snapshot of the removed cell and then "expanded" or "target found" for it, and keeps the loop invariant and shrinks the unclosed cells, or closes the target with BestFound |
| Dijkstra.DijkstraSearch | src/algorithms/dijkstra.ts:14-100 | the loop ends with the target found and shortest, or the target unreachable |
| Dijkstra.Dijkstra | src/algorithms/dijkstra.ts:3-122 | BestResult by distance: 3 .. 2·rows·cols + 2 snapshots, the first as seeded, then per removal a "picked" snapshot and an "expanded" (or, for the target, "target found") one, both showing the removed cell; every entry `{ row, col, d }` with its cell's distance; distinct picks with non-decreasing distances, "path found" exactly when reachable, and then a shortest parent-chain walk |
| AStar.RelaxNeighbors | src/algorithms/astar.ts:82-111 | the neighbour loop updates exactly the candidates (parent, g + 1, h, f = g + h, frontier) and appends exactly the newcomers |
| AStar.Step | src/algorithms/astar.ts:38-118 | one iteration records a "picked" snapshot of the removed cell and then "expanded" or "target found" for it, and keeps the loop invariant and shrinks the unclosed cells, or closes the target with BestFound |
| AStar.AStarSearch | src/algorithms/astar.ts:15-119 | the loop ends with the target found and shortest, or the target unreachable |
| AStar.AStar | src/algorithms/astar.ts:3-141 | BestResult by g: 3 .. 2·rows·cols + 2 snapshots, the first as seeded, then per removal a "picked" snapshot and an "expanded" (or, for the target, "target found") one, both showing the removed cell; every entry `{ row, col, f }` with its cell's f; distinct picks with non-decreasing f, "path found" exactly when reachable, and then a shortest parent-chain walk |
| Store.CleanGrid | src/store/gameStore.ts:131-141 | every cell cleaned: search fields reset, kind kept only when start, target or wall |
| Store.CleanGridClean | src/store/gameStore.ts:183-205 | cleaning keeps the layout and the start/target/wall kinds, yields clean cells, changes exactly the unclean cells and is idempotent |
| Store.FillWalls | src/store/gameStore.ts:222-240 | every cell rebuilt from its own coordinates |
| Store.FillWallsShape | src/store/gameStore.ts:225-239 | after fillWalls exactly the start and target cells are passable, shown as start and target; everything else is a wall |
| Store.FillWallsBlocks | src/store/gameStore.ts:222-248 | after fillWalls the target is reachable exactly when it is the start or its neighbour |
| Store.CleanRunnable | src/store/gameStore.ts:124-156 | on the live board, cleaning changes nothing and every search's precondition holds |
| Store.Run | src/store/gameStore.ts:145-155 | the dispatch runs the chosen search and its result satisfies that search's postcondition |
| Store.RunFound | src/store/gameStore.ts:145-158 | whatever the algorithm, the run reports the target found exactly when it is reachable, and the last snapshot's parent chain is then a walk |
| Store.RunShortest | src/algorithms/bfs.ts:106-131 | BFS, Dijkstra and A* report a path of PathCells cells, and no walk is shorter |
| Store.ShortestAgree | src/store/gameStore.ts:145-155 | BFS, Dijkstra and A* report paths of equal length on the same board |
| Store.BlankBoard | src/utils/gridUtils.ts:3-28 | createGrid(GRID_ROWS, GRID_COLS) as a value: the 20 × 40 board of initial cells |
| Store.MarkedBoard | src/store/gameStore.ts:50-56 | a live board: initial cells with the target shown as target and the start as start, the target winning when they coincide |
| Store.NewBoard | src/store/gameStore.ts:208-212 | createGrid followed by marking start and target gives MarkedBoard |
| Store.GameStore.constructor | src/store/gameStore.ts:39-48 | the initial state: empty grid, start (10, 10), target (10, 30), bfs, not playing, no snapshots, cursor 0 |
| Store.GameStore.InitializeGrid | src/store/gameStore.ts:50-56 | the grid becomes MarkedBoard; nothing else changes |
| Store.GameStore.ToggleWall | src/store/gameStore.ts:58-78 | nothing changes while playing (whatever the coordinates) or on the start/target cell; otherwise only that cell flips its wall flag and shows wall/empty, and snapshots, cursor and finished are reset |
| Store.GameStore.SetStartNode | src/store/gameStore.ts:80-98 | ignored while playing, whatever the coordinates; otherwise the old start shows empty, the new cell start and not a wall, the coordinate moves and the snapshots are reset |
| Store.GameStore.SetTargetNode | src/store/gameStore.ts:100-118 | the same for the target |
| Store.GameStore.SetAlgorithm | src/store/gameStore.ts:120 | only the algorithm changes |
| Store.GameStore.SetSnapshots | src/store/gameStore.ts:122 | snapshots stored, cursor 0, not finished |
| Store.GameStore.RunSimulation | src/store/gameStore.ts:124-163 | on a live board the stored snapshots satisfy the chosen search's postcondition on the cleaned board, cursor 0, playing, not finished; on the empty grid only playing stops |
| Store.GameStore.NextStep | src/store/gameStore.ts:165-172 | the cursor advances when below the last index, otherwise playing stops and the replay is finished; the cursor stays in range |
| Store.GameStore.PrevStep | src/store/gameStore.ts:174-179 | the cursor moves back when above 0 and stays in range |
| Store.GameStore.SetPlaying | src/store/gameStore.ts:181 | only isPlaying changes |
| Store.GameStore.ResetSimulation | src/store/gameStore.ts:183-206 | the grid is cleaned, snapshots dropped, cursor 0, not playing, not finished |
| Store.GameStore.ClearBoard | src/store/gameStore.ts:208-220 | a fresh MarkedBoard, snapshots dropped, cursor 0, not playing, not finished |
| Store.GameStore.FillAllWalls | src/store/gameStore.ts:222-248 | the grid becomes FillWalls of the old one, snapshots dropped, cursor 0, not finished, isPlaying untouched; the board stays live |

## Left out

- The React components, the playback timer, the speed setting (`speed`,
  `setSpeed`) and the styling. The timer only calls `nextStep` at intervals.
- zustand's `create`/`set`/`get`: the store is a plain class, and each action
  assigns its fields directly.
- `console.log`/`console.error`. The try/catch of `runSimulation` is modelled
  only for the one throw the store can reach: every search reads
  `initialGrid[0]`, which fails on the empty grid before `initializeGrid`. In
  that case the store only stops playing.
- Log message text. Logs are tags; only the path length that BFS reports is
  kept.
- JavaScript numbers. Costs are `Inf | Fin(n)` with natural `n`. Coordinates
  are unbounded integers, so no overflow is modelled.
- Aliasing of `Cell` objects between `openSet` and the grid. The open set
  holds coordinates and every read goes to the grid, which gives the same
  observable values.
- Preconditions the code does not check. The store always meets them
  (`Store.CleanRunnable`). Each search requires the following:
  - Bfs.Bfs: a rectangular grid with the start and the target inside it, a
    start without a parent, and no other cell shown as start. The source
    would also accept a target outside the grid and report "no path".
  - Dfs.Dfs: a rectangular grid with the start inside it and without a
    parent.
  - Dijkstra.Dijkstra and AStar.AStar (`BestFirstSpec.Searchable`): a
    rectangular, well-indexed grid, a start inside it without a parent, no
    other cell shown as start, and no cell shown as frontier or visited.
    Dijkstra also needs every distance to be Infinity.
- Store.GameStore.ToggleWall, Store.GameStore.SetStartNode and
  Store.GameStore.SetTargetNode require an in-bounds cell of the current
  grid when not playing. The source then indexes the grid and would throw
  on the empty grid or outside it; while playing it returns before reading
  the cell, and so does the model, whatever the coordinates.
- The `else` default of the dispatch (src/store/gameStore.ts:153-155) cannot
  be reached: `AlgorithmType` has exactly four values.
- Store.RunShortest and Store.ShortestAgree do not cover DFS, which reports
  no length and does not promise a shortest path.
