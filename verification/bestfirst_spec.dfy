/**
 * What the Dijkstra search (src/algorithms/dijkstra.ts) and the A* search
 * (src/algorithms/astar.ts) share. Both keep an open set of frontier cells,
 * sort it by a score, remove its first cell, close that cell, and relax its
 * neighbours. Dijkstra orders by `distance` (its cost); A* orders by
 * `f = g + h` (its cost `g` plus the Manhattan estimate `h`) and breaks ties
 * on `h`. The invariants below hold for both, with the estimate taken as zero
 * for Dijkstra.
 */
module BestFirstSpec {
  import opened Types
  import opened Grids
  import opened Paths
  import opened Search
  import opened Sorting

  /** The estimate added to a cell's cost: none for Dijkstra, the Manhattan
      distance to the target for A*. */
  function Estimate(m: Metric, p: Coord, target: Coord): nat
  {
    match m
    case ByDistance => 0
    case ByG => Manhattan(p, target)
  }

  /** The field the open set is ordered by: `distance` or `f`. */
  function Score(cell: Cell, m: Metric): Cost
  {
    match m
    case ByDistance => cell.distance
    case ByG => cell.f
  }

  /** What the comparator reads: the distance alone (Dijkstra), or f with
      ties broken by h (A*). */
  function KeyOf(cell: Cell, m: Metric): Key
  {
    match m
    case ByDistance => Key(cell.distance, Fin(0))
    case ByG => Key(cell.f, cell.h)
  }

  /** The comparator's key of the open-set entry at p, read from the grid. */
  function CellKey(grid: Grid, m: Metric): Coord -> Key
  {
    p => if Rect(grid) && InBounds(grid, p) then KeyOf(At(grid, p), m) else Key(Inf, Inf)
  }

  /** One entry of a snapshot's structureState: `{ row, col, d }` (Dijkstra)
      or `{ row, col, f }` (A*), read from the cell. */
  function EntryOf(cell: Cell, m: Metric): Entry
  {
    match m
    case ByDistance => PosDistance(CellCoord(cell), cell.distance)
    case ByG => PosF(CellCoord(cell), cell.f)
  }

  function OpenEntries(grid: Grid, open: seq<Coord>, m: Metric): (es: seq<Entry>)
    requires Rect(grid) && forall i | 0 <= i < |open| :: InBounds(grid, open[i])
    ensures |es| == |open|
    ensures forall i | 0 <= i < |open| :: es[i] == EntryOf(At(grid, open[i]), m)
  {
    if open == [] then [] else OpenEntries(grid, open[..|open| - 1], m) + [EntryOf(At(grid, open[|open| - 1]), m)]
  }

  /** The start cell as the search seeds it: cost 0 (and, for A*, h and f
      computed from the estimate), shown as frontier. */
  function Seed(cell: Cell, p: Coord, target: Coord, m: Metric): Cell
  {
    match m
    case ByDistance => cell.(distance := Fin(0), kind := Frontier)
    case ByG => cell.(g := Fin(0), h := Fin(Manhattan(p, target)), f := Fin(0 + Manhattan(p, target)), kind := Frontier)
  }

  function Seeded(g0: Grid, start: Coord, target: Coord, m: Metric): Grid
    requires Rect(g0) && InBounds(g0, start)
  {
    With(g0, start, Seed(At(g0, start), start, target, m))
  }

  function InitialSnapshot(g0: Grid, start: Coord, target: Coord, m: Metric): Snapshot
    requires Rect(g0) && InBounds(g0, start)
  {
    var grid := Seeded(g0, start, target, m);
    Snapshot(grid, OpenEntries(grid, [start], m), None, Started)
  }

  /** Whether a neighbour reached at cost n + 1 gets new values: Dijkstra
      when that beats its distance; A* when it is not in the open set or
      that beats its g. */
  predicate Improves(cell: Cell, n: nat, m: Metric)
  {
    match m
    case ByDistance => Less(Fin(n + 1), cell.distance)
    case ByG => cell.kind != Frontier || Less(Fin(n + 1), cell.g)
  }

  /** The neighbour at p after it is reached from `from` at cost n + 1: parent,
      cost (and h, f for A*) set, shown as frontier. */
  function Update(cell: Cell, from: Coord, n: nat, p: Coord, target: Coord, m: Metric): Cell
  {
    match m
    case ByDistance => cell.(parent := Some(from), distance := Fin(n + 1), kind := Frontier)
    case ByG =>
      cell.(parent := Some(from), g := Fin(n + 1), h := Fin(Manhattan(p, target)),
            f := Fin(n + 1 + Manhattan(p, target)), kind := Frontier)
  }

  /** A neighbour the relaxation loop updates: inside the grid, not a wall,
      not closed, not the start, and improved. */
  predicate Eligible(grid: Grid, y: Coord, n: nat, m: Metric)
    requires Rect(grid)
  {
    && InBounds(grid, y) && !At(grid, y).isWall
    && At(grid, y).kind != Visited && At(grid, y).kind != Start
    && Improves(At(grid, y), n, m)
  }

  /** The members of ns that are updated, in order. */
  function Candidates(grid: Grid, ns: seq<Coord>, n: nat, m: Metric): (r: seq<Coord>)
    requires Rect(grid)
    ensures forall i | 0 <= i < |r| :: r[i] in ns && Eligible(grid, r[i], n, m)
    ensures forall p | p in ns && Eligible(grid, p, n, m) :: p in r
    ensures |r| <= |ns|
  {
    if ns == [] then []
    else
      var init := Candidates(grid, ns[..|ns| - 1], n, m);
      var p := ns[|ns| - 1];
      assert forall q | q in ns :: q in ns[..|ns| - 1] || q == p;
      if Eligible(grid, p, n, m) then init + [p] else init
  }

  /** The members of ns that are updated and were not in the open set: the
      ones pushed onto it, in order. */
  function Newcomers(grid: Grid, ns: seq<Coord>, n: nat, m: Metric): (r: seq<Coord>)
    requires Rect(grid)
    ensures forall i | 0 <= i < |r| :: r[i] in ns && Eligible(grid, r[i], n, m) && At(grid, r[i]).kind != Frontier
    ensures forall p | p in ns && Eligible(grid, p, n, m) && At(grid, p).kind != Frontier :: p in r
    ensures Distinct(ns) ==> Distinct(r)
    ensures |r| <= |ns|
  {
    if ns == [] then []
    else
      var init := Newcomers(grid, ns[..|ns| - 1], n, m);
      var p := ns[|ns| - 1];
      assert forall q | q in ns :: q in ns[..|ns| - 1] || q == p;
      if Eligible(grid, p, n, m) && At(grid, p).kind != Frontier then
        assert Distinct(ns) ==> p !in init;
        init + [p]
      else init
  }

  /** Extending the neighbour list by one extends both filters by that
      neighbour when it qualifies. */
  lemma FiltersSnoc(grid: Grid, ns: seq<Coord>, k: nat, n: nat, m: Metric)
    requires Rect(grid) && k < |ns|
    ensures Candidates(grid, ns[..k + 1], n, m) ==
            Candidates(grid, ns[..k], n, m) + (if Eligible(grid, ns[k], n, m) then [ns[k]] else [])
    ensures Newcomers(grid, ns[..k + 1], n, m) ==
            Newcomers(grid, ns[..k], n, m) +
            (if Eligible(grid, ns[k], n, m) && At(grid, ns[k]).kind != Frontier then [ns[k]] else [])
  {
    assert ns[..k + 1][..k] == ns[..k];
  }

  /** grid' and open' are what relaxing the neighbours of c (closed, at cost
      n) makes of grid and open: every candidate updated, the newcomers
      appended, nothing else changed. */
  ghost predicate RelaxedFrom(grid: Grid, grid': Grid, open: seq<Coord>, open': seq<Coord>, c: Coord,
                              target: Coord, m: Metric)
  {
    && Rect(grid) && InBounds(grid, c) && CostOf(At(grid, c), m).Fin?
    && Rect(grid') && |grid'| == |grid| && Cols(grid') == Cols(grid)
    && var n := CostOf(At(grid, c), m).n;
       && open' == open + Newcomers(grid, Neighbors(c), n, m)
       && forall p | InBounds(grid, p) ::
            At(grid', p) == if p in Candidates(grid, Neighbors(c), n, m) then Update(At(grid, p), c, n, p, target, m)
                            else At(grid, p)
  }

  /** The neighbour loop after its first k neighbours. */
  ghost predicate RelaxedUpTo(grid: Grid, grid': Grid, open: seq<Coord>, open': seq<Coord>, c: Coord,
                              target: Coord, m: Metric, k: nat)
    requires Rect(grid) && InBounds(grid, c) && CostOf(At(grid, c), m).Fin? && k <= 4
  {
    && Rect(grid') && |grid'| == |grid| && Cols(grid') == Cols(grid)
    && var n := CostOf(At(grid, c), m).n;
       var ns := Neighbors(c)[..k];
       && open' == open + Newcomers(grid, ns, n, m)
       && forall p | InBounds(grid, p) ::
            At(grid', p) == if p in Candidates(grid, ns, n, m) then Update(At(grid, p), c, n, p, target, m)
                            else At(grid, p)
  }

  /** One neighbour y handled: updated and, when new, queued, if it qualifies;
      left alone otherwise. */
  ghost predicate RelaxedOne(grid: Grid, grid': Grid, grid'': Grid, open': seq<Coord>, open'': seq<Coord>,
                             c: Coord, target: Coord, m: Metric, y: Coord)
    requires Rect(grid) && InBounds(grid, c) && CostOf(At(grid, c), m).Fin?
    requires Rect(grid') && |grid'| == |grid| && Cols(grid') == Cols(grid)
  {
    var n := CostOf(At(grid, c), m).n;
    if Eligible(grid, y, n, m) then
      && grid'' == With(grid', y, Update(At(grid, y), c, n, y, target, m))
      && open'' == open' + (if At(grid, y).kind != Frontier then [y] else [])
    else grid'' == grid' && open'' == open'
  }

  /** Nothing is relaxed before the loop starts. */
  lemma RelaxedNone(grid: Grid, open: seq<Coord>, c: Coord, target: Coord, m: Metric)
    requires Rect(grid) && InBounds(grid, c) && CostOf(At(grid, c), m).Fin?
    ensures RelaxedUpTo(grid, grid, open, open, c, target, m, 0)
  {
    assert Neighbors(c)[..0] == [];
  }

  /** A neighbour not yet handled still holds its value from before the loop. */
  lemma RelaxedPending(grid: Grid, grid': Grid, open: seq<Coord>, open': seq<Coord>, c: Coord,
                       target: Coord, m: Metric, k: nat)
    requires Rect(grid) && InBounds(grid, c) && CostOf(At(grid, c), m).Fin? && k < 4
    requires RelaxedUpTo(grid, grid', open, open', c, target, m, k)
    ensures InBounds(grid, Neighbors(c)[k]) ==> At(grid', Neighbors(c)[k]) == At(grid, Neighbors(c)[k])
  {
    NeighborsDistinct(c);
    assert Neighbors(c)[k] !in Neighbors(c)[..k];
  }

  /** Handling neighbour k extends the loop's invariant by one. */
  lemma RelaxedNext(grid: Grid, grid': Grid, grid'': Grid, open: seq<Coord>, open': seq<Coord>, open'': seq<Coord>,
                    c: Coord, target: Coord, m: Metric, k: nat)
    requires Rect(grid) && InBounds(grid, c) && CostOf(At(grid, c), m).Fin? && k < 4
    requires RelaxedUpTo(grid, grid', open, open', c, target, m, k)
    requires RelaxedOne(grid, grid', grid'', open', open'', c, target, m, Neighbors(c)[k])
    ensures RelaxedUpTo(grid, grid'', open, open'', c, target, m, k + 1)
  {
    var n := CostOf(At(grid, c), m).n;
    var y := Neighbors(c)[k];
    NeighborsDistinct(c);
    assert y !in Neighbors(c)[..k];
    FiltersSnoc(grid, Neighbors(c), k, n, m);
  }

  /** After the fourth neighbour the loop has done what RelaxedFrom describes. */
  lemma RelaxedAll(grid: Grid, grid': Grid, open: seq<Coord>, open': seq<Coord>, c: Coord, target: Coord, m: Metric)
    requires Rect(grid) && InBounds(grid, c) && CostOf(At(grid, c), m).Fin?
    requires RelaxedUpTo(grid, grid', open, open', c, target, m, 4)
    ensures RelaxedFrom(grid, grid', open, open', c, target, m)
  {
    assert Neighbors(c)[..4] == Neighbors(c);
  }

  // ---------------------------------------------------------------------
  // The search state: the open list, the closed set E, the score L of the
  // last cell removed.

  /** The cells reached so far: closed or open. */
  ghost function Reached(open: seq<Coord>, E: set<Coord>): set<Coord>
  {
    E + Elems(open)
  }

  ghost predicate OpenOk(grid: Grid, open: seq<Coord>)
  {
    Distinct(open) && forall i | 0 <= i < |open| :: InBounds(grid, open[i])
  }

  /** A cell shows as frontier exactly when it is open, as visited exactly
      when it is closed, and no cell shows as start. */
  ghost predicate KindsOk(grid: Grid, open: seq<Coord>, E: set<Coord>)
    requires Rect(grid)
  {
    forall p | InBounds(grid, p) ::
      && (At(grid, p).kind == Frontier <==> p in open)
      && (At(grid, p).kind == Visited <==> p in E)
      && At(grid, p).kind != Start
  }

  /** The reached cells form a cost tree rooted at the start, and every
      parent is a closed cell. */
  ghost predicate TreeOk(grid: Grid, start: Coord, open: seq<Coord>, E: set<Coord>, m: Metric)
    requires Rect(grid)
  {
    && CostTree(grid, Reached(open, E), start, m)
    && forall p | p in Reached(open, E) && p != start ::
         InBounds(grid, p) && At(grid, p).parent.Some? && At(grid, p).parent.value in E
  }

  /** A reached cell's score is its cost plus its estimate, and A*'s h is the
      estimate. */
  predicate ScoreLink(cell: Cell, p: Coord, target: Coord, m: Metric)
  {
    && CostOf(cell, m).Fin?
    && Score(cell, m) == Fin(CostOf(cell, m).n + Estimate(m, p, target))
    && (m == ByG ==> cell.h == Fin(Manhattan(p, target)))
  }

  ghost predicate ScoresOk(grid: Grid, S: set<Coord>, target: Coord, m: Metric)
    requires Rect(grid)
  {
    forall p | p in S :: InBounds(grid, p) && ScoreLink(At(grid, p), p, target, m)
  }

  /** Every closed cell scores at most L, every open one at least L. */
  ghost predicate Monotone(grid: Grid, open: seq<Coord>, E: set<Coord>, m: Metric, L: nat)
    requires Rect(grid)
  {
    && (forall p | p in E :: InBounds(grid, p) && AtMost(Score(At(grid, p), m), Fin(L)))
    && forall i | 0 <= i < |open| :: InBounds(grid, open[i]) && AtMost(Fin(L), Score(At(grid, open[i]), m))
  }

  /** Dijkstra only: a cell not reached yet still has distance Infinity. */
  ghost predicate Unreached(grid: Grid, S: set<Coord>, m: Metric)
    requires Rect(grid)
  {
    m == ByDistance ==> forall p | InBounds(grid, p) && p !in S :: At(grid, p).distance == Inf
  }

  ghost predicate BestCore(grid: Grid, start: Coord, target: Coord, open: seq<Coord>, E: set<Coord>, m: Metric, L: nat)
  {
    && Rect(grid)
    && OpenOk(grid, open)
    && KindsOk(grid, open, E)
    && TreeOk(grid, start, open, E, m)
    && Relaxed(grid, E, Reached(open, E), m)
    && ScoresOk(grid, Reached(open, E), target, m)
    && Monotone(grid, open, E, m, L)
    && Unreached(grid, Reached(open, E), m)
    && (E == {} ==> open == [start])
    && (E != {} ==> start in E)
  }

  // ---------------------------------------------------------------------
  // Snapshots.

  /** Each entry names a cell of the grid and carries that cell's score, as
      `EntryOf` reads it. */
  ghost predicate EntriesRead(grid: Grid, es: seq<Entry>, m: Metric)
  {
    forall i | 0 <= i < |es| ::
      Rect(grid) && InBounds(grid, es[i].pos) && es[i] == EntryOf(At(grid, es[i].pos), m)
  }

  /** A snapshot keeps g0's layout and lists distinct in-bounds cells, each
      with its score in the snapshot's grid. */
  ghost predicate BestSnapOk(g0: Grid, s: Snapshot, m: Metric)
  {
    && SameLayout(g0, s.gridState)
    && DistinctInBounds(g0, s.structureState)
    && EntriesRead(s.gridState, s.structureState, m)
  }

  /** The score of a cell as a number, -1 when still infinite. */
  function ScoreValue(cell: Cell, m: Metric): int
  {
    if Score(cell, m).Fin? then Score(cell, m).n else -1
  }

  /** The scores of the current cells of the `Picked` snapshots, in order. */
  function PickScores(snaps: seq<Snapshot>, m: Metric): seq<int>
  {
    if snaps == [] then []
    else
      var s := snaps[|snaps| - 1];
      PickScores(snaps[..|snaps| - 1], m) + if s.log == Picked && s.currentNode.Some? then [ScoreValue(s.currentNode.value, m)] else []
  }

  ghost predicate Ordered(xs: seq<int>)
  {
    forall i, j | 0 <= i < j < |xs| :: xs[i] <= xs[j]
  }

  /** The snapshots so far, when E is the closed set and L the last score:
      all keep the layout; the picked cells are distinct and closed; their
      scores never decrease and are at most L. */
  ghost predicate SnapsOk(g0: Grid, snaps: seq<Snapshot>, E: set<Coord>, L: nat, m: Metric)
  {
    && (forall i {:trigger BestSnapOk(g0, snaps[i], m)} | 0 <= i < |snaps| :: BestSnapOk(g0, snaps[i], m))
    && PicksOk(snaps, E)
    && Ordered(PickScores(snaps, m))
    && forall i | 0 <= i < |PickScores(snaps, m)| :: PickScores(snaps, m)[i] <= L
  }

  lemma AppendSnap(g0: Grid, snaps: seq<Snapshot>, s: Snapshot, E: set<Coord>, E': set<Coord>, L: nat, L': nat, m: Metric)
    requires SnapsOk(g0, snaps, E, L, m) && E <= E' && L <= L' && BestSnapOk(g0, s, m)
    requires s.log == Picked ==>
               s.currentNode.Some? && CellCoord(s.currentNode.value) in E' - E && ScoreValue(s.currentNode.value, m) == L'
    ensures SnapsOk(g0, snaps + [s], E', L', m)
  {
    assert (snaps + [s])[..|snaps|] == snaps;
  }

  /** Open-set entries of a well-indexed grid name distinct in-bounds cells. */
  lemma EntriesOk(g0: Grid, grid: Grid, open: seq<Coord>, m: Metric)
    requires SameLayout(g0, grid) && WellIndexed(g0) && OpenOk(grid, open)
    ensures DistinctInBounds(g0, OpenEntries(grid, open, m))
    ensures EntriesRead(grid, OpenEntries(grid, open, m), m)
  {
    var es := OpenEntries(grid, open, m);
    forall i | 0 <= i < |es|
      ensures es[i].pos == open[i]
    {
      assert es[i] == EntryOf(At(grid, open[i]), m);
    }
  }

  /** The cells of a grid laid out like a well-indexed one record their own coordinates. */
  lemma SameLayoutIndexed(g0: Grid, grid: Grid, p: Coord)
    requires SameLayout(g0, grid) && WellIndexed(g0) && InBounds(g0, p)
    ensures CellCoord(At(grid, p)) == p
  {
  }

  /** The search state at the head of the loop. */
  ghost predicate BestLoop(g0: Grid, start: Coord, target: Coord, m: Metric, grid: Grid, open: seq<Coord>,
                           E: set<Coord>, L: nat, snaps: seq<Snapshot>)
  {
    && Rect(g0) && WellIndexed(g0) && InBounds(g0, start)
    && SameLayout(g0, grid)
    && BestCore(grid, start, target, open, E, m, L)
    && target !in E
    && LoopSnaps(g0, start, target, m, E, L, snaps)
  }

  /** What both searches demand of the grid they are given (the store's
      cleaned grid meets it): a well-indexed board, the start inside it
      without a parent and the only cell shown as start, no cell shown as
      frontier or visited, and, for Dijkstra, every distance Infinity. */
  ghost predicate Searchable(g0: Grid, start: Coord, m: Metric)
  {
    && Rect(g0) && WellIndexed(g0) && InBounds(g0, start)
    && At(g0, start).parent == None
    && OnlyStartAt(g0, start)
    && forall p | InBounds(g0, p) ::
         && At(g0, p).kind != Frontier && At(g0, p).kind != Visited
         && (m == ByDistance ==> At(g0, p).distance == Inf)
  }

  /** The seeded grid: only the start open, nothing closed. */
  lemma SeededCore(g0: Grid, start: Coord, target: Coord, m: Metric)
    requires Searchable(g0, start, m)
    ensures SameLayout(g0, Seeded(g0, start, target, m))
    ensures BestCore(Seeded(g0, start, target, m), start, target, [start], {}, m, Estimate(m, start, target))
  {
    assert Reached([start], {}) == {start};
  }

  /** The initial snapshot alone meets the loop's snapshot invariant. */
  lemma InitialSnaps(g0: Grid, start: Coord, target: Coord, m: Metric)
    requires Rect(g0) && WellIndexed(g0) && InBounds(g0, start)
    requires SameLayout(g0, Seeded(g0, start, target, m)) && OpenOk(Seeded(g0, start, target, m), [start])
    ensures LoopSnaps(g0, start, target, m, {}, Estimate(m, start, target), [InitialSnapshot(g0, start, target, m)])
  {
    var s := InitialSnapshot(g0, start, target, m);
    EntriesOk(g0, Seeded(g0, start, target, m), [start], m);
    var none: seq<Snapshot> := [];
    assert [s][..0] == none && s.log == Started;
    assert Picks(none) == [] && PickScores(none, m) == [];
    assert Picks([s]) == Picks(none) && PickScores([s], m) == PickScores(none, m);
  }

  lemma BestLoopInit(g0: Grid, start: Coord, target: Coord, m: Metric)
    requires Searchable(g0, start, m)
    ensures BestLoop(g0, start, target, m, Seeded(g0, start, target, m), [start], {}, Estimate(m, start, target),
                     [InitialSnapshot(g0, start, target, m)])
  {
    SeededCore(g0, start, target, m);
    InitialSnaps(g0, start, target, m);
  }

  // ---------------------------------------------------------------------
  // One iteration: sort, remove the first cell, close it.

  /** The facts about removing c from the open set that the rest of an
      iteration uses: c was open and scores at most every open cell, and rest
      holds the other open cells, each once. */
  ghost predicate PoppedMin(grid: Grid, open: seq<Coord>, c: Coord, rest: seq<Coord>, m: Metric)
    requires Rect(grid)
  {
    && c in open && InBounds(grid, c) && OpenOk(grid, rest)
    && (forall y :: y in rest <==> y in open && y != c)
    && forall x | x in open :: InBounds(grid, x) && AtMost(Score(At(grid, c), m), Score(At(grid, x), m))
  }

  /** The first cell of the sorted open set scores at most every open cell. */
  lemma SortedMin(grid: Grid, open: seq<Coord>, m: Metric)
    requires Rect(grid) && OpenOk(grid, open) && open != []
    ensures var sorted := SortBy(open, CellKey(grid, m));
      && sorted != [] && sorted[0] in open
      && forall x | x in open :: AtMost(Score(At(grid, sorted[0]), m), Score(At(grid, x), m))
  {
    var key := CellKey(grid, m);
    var sorted := SortBy(open, key);
    SortFirstIsMin(open, key);
    var c := sorted[0];
    forall x | x in open
      ensures AtMost(Score(At(grid, c), m), Score(At(grid, x), m))
    {
      assert !Before(key(x), key(c));
      assert key(x) == KeyOf(At(grid, x), m) && key(c) == KeyOf(At(grid, c), m);
    }
  }

  /** Removing the head of a permutation of a distinct in-bounds list leaves
      the other cells, each once. */
  lemma SortedRest(grid: Grid, open: seq<Coord>, sorted: seq<Coord>)
    requires Rect(grid) && OpenOk(grid, open) && multiset(sorted) == multiset(open) && sorted != []
    ensures OpenOk(grid, sorted[1..])
    ensures forall y :: y in sorted[1..] <==> y in open && y != sorted[0]
  {
    PermutationDistinct(open, sorted);
    var c, rest := sorted[0], sorted[1..];
    assert sorted == [c] + rest;
    forall y
      ensures y in rest <==> y in open && y != c
    {
      assert y in rest ==> y in multiset(sorted);
      assert y in open ==> y in multiset(sorted);
    }
    forall i | 0 <= i < |rest|
      ensures InBounds(grid, rest[i])
    {
      assert rest[i] in multiset(open);
    }
  }

  /** Sorting the open set and removing its first cell pops a minimum. */
  lemma PopMin(grid: Grid, open: seq<Coord>, m: Metric)
    requires Rect(grid) && OpenOk(grid, open) && open != []
    ensures var sorted := SortBy(open, CellKey(grid, m));
      sorted != [] && PoppedMin(grid, open, sorted[0], sorted[1..], m)
  {
    SortedMin(grid, open, m);
    SortedRest(grid, open, SortBy(open, CellKey(grid, m)));
  }

  /** The grid and open set once c, removed from the open set, is closed:
      E is the closed set with c, `done` the one before; the cells closed
      before c are relaxed, c's neighbours not yet. */
  ghost predicate PickedCore(grid: Grid, start: Coord, target: Coord, open: seq<Coord>, E: set<Coord>, m: Metric,
                             L: nat, c: Coord, done: set<Coord>)
  {
    && Rect(grid)
    && OpenOk(grid, open)
    && KindsOk(grid, open, E)
    && TreeOk(grid, start, open, E, m)
    && Relaxed(grid, done, Reached(open, E), m)
    && ScoresOk(grid, Reached(open, E), target, m)
    && Monotone(grid, open, E, m, L)
    && Unreached(grid, Reached(open, E), m)
    && start in E
    && E == done + {c} && c !in done && target !in done
    && InBounds(grid, c) && Score(At(grid, c), m) == Fin(L)
  }

  /** The whole state after closing c, snapshots included. */
  ghost predicate BestPicked(g0: Grid, start: Coord, target: Coord, m: Metric, grid: Grid, open: seq<Coord>,
                             E: set<Coord>, L: nat, snaps: seq<Snapshot>, c: Coord, done: set<Coord>)
  {
    && Rect(g0) && WellIndexed(g0) && InBounds(g0, start)
    && SameLayout(g0, grid)
    && PickedCore(grid, start, target, open, E, m, L, c, done)
    && |E| == |done| + 1
    && HalfSnaps(g0, start, target, m, E, L, snaps, c)
  }

  /** Closing c changes only its kind, from frontier to visited. */
  lemma CloseKinds(grid: Grid, grid': Grid, open: seq<Coord>, rest: seq<Coord>, done: set<Coord>, c: Coord)
    requires Rect(grid) && OpenOk(grid, open) && KindsOk(grid, open, done) && c in open
    requires forall y :: y in rest <==> y in open && y != c
    requires grid' == if At(grid, c).kind != Start && At(grid, c).kind != Target
                      then With(grid, c, At(grid, c).(kind := Visited)) else grid
    ensures InBounds(grid, c) && grid' == With(grid, c, At(grid, c).(kind := Visited))
    ensures SameSearch(grid, grid')
    ensures KindsOk(grid', rest, done + {c})
  {
  }

  /** The cost tree, relaxation, scores and the unreached cells do not look
      at kinds. */
  lemma CloseKeeps(grid: Grid, grid': Grid, start: Coord, target: Coord, open: seq<Coord>, done: set<Coord>,
                   rest: seq<Coord>, E: set<Coord>, m: Metric)
    requires Rect(grid) && SameSearch(grid, grid') && done <= E
    requires Reached(rest, E) == Reached(open, done)
    requires TreeOk(grid, start, open, done, m) && Relaxed(grid, done, Reached(open, done), m)
    requires ScoresOk(grid, Reached(open, done), target, m) && Unreached(grid, Reached(open, done), m)
    ensures TreeOk(grid', start, rest, E, m) && Relaxed(grid', done, Reached(rest, E), m)
    ensures ScoresOk(grid', Reached(rest, E), target, m) && Unreached(grid', Reached(rest, E), m)
  {
    SameSearchKeepsCostTree(grid, grid', Reached(open, done), start, m);
  }

  /** After removing the minimum c, every closed cell including c scores at
      most c's score, every open cell at least. */
  lemma CloseMonotone(grid: Grid, grid': Grid, open: seq<Coord>, done: set<Coord>, L0: nat, rest: seq<Coord>,
                      c: Coord, m: Metric)
    requires Rect(grid) && SameSearch(grid, grid') && Monotone(grid, open, done, m, L0) && c in open
    requires forall x | x in open :: InBounds(grid, x) && AtMost(Score(At(grid, c), m), Score(At(grid, x), m))
    requires Score(At(grid, c), m).Fin?
    requires forall i | 0 <= i < |rest| :: rest[i] in open
    ensures Monotone(grid', rest, done + {c}, m, Score(At(grid, c), m).n)
    ensures L0 <= Score(At(grid, c), m).n
  {
    var i :| 0 <= i < |open| && open[i] == c;
  }

  /** The closed cells of a cost tree lie on the board. */
  lemma TreeBound(grid: Grid, S: set<Coord>, E: set<Coord>, start: Coord, m: Metric)
    requires Rect(grid) && CostTree(grid, S, start, m) && E <= S
    ensures |E| <= |grid| * Cols(grid)
  {
    CellsBound(grid, E);
  }

  /** Closing the open set's minimum c. */
  lemma PickCore(grid: Grid, start: Coord, target: Coord, open: seq<Coord>, done: set<Coord>, m: Metric, L0: nat,
                 c: Coord, rest: seq<Coord>, grid': Grid)
    requires BestCore(grid, start, target, open, done, m, L0) && target !in done
    requires PoppedMin(grid, open, c, rest, m)
    requires grid' == if At(grid, c).kind != Start && At(grid, c).kind != Target
                      then With(grid, c, At(grid, c).(kind := Visited)) else grid
    ensures SameSearch(grid, grid') && Score(At(grid, c), m).Fin? && L0 <= Score(At(grid, c), m).n
    ensures PickedCore(grid', start, target, rest, done + {c}, m, Score(At(grid, c), m).n, c, done)
  {
    var E := done + {c};
    CloseKinds(grid, grid', open, rest, done, c);
    assert Reached(rest, E) == Reached(open, done);
    CloseKeeps(grid, grid', start, target, open, done, rest, E, m);
    assert ScoreLink(At(grid, c), c, target, m);
    CloseMonotone(grid, grid', open, done, L0, rest, c, m);
  }

  /** Removing and closing the open set's minimum c, and recording the
      `Picked` snapshot taken before the closing, leads from the loop state
      to `BestPicked`. */
  lemma BestPick(g0: Grid, start: Coord, target: Coord, m: Metric, grid: Grid, open: seq<Coord>,
                 done: set<Coord>, L0: nat, snaps: seq<Snapshot>, c: Coord, rest: seq<Coord>,
                 grid': Grid, snaps': seq<Snapshot>)
    requires BestLoop(g0, start, target, m, grid, open, done, L0, snaps)
    requires PoppedMin(grid, open, c, rest, m)
    requires grid' == if At(grid, c).kind != Start && At(grid, c).kind != Target
                      then With(grid, c, At(grid, c).(kind := Visited)) else grid
    requires snaps' == snaps + [Snapshot(grid, OpenEntries(grid, rest, m), Some(At(grid, c)), Picked)]
    ensures Score(At(grid, c), m).Fin?
    ensures BestPicked(g0, start, target, m, grid', rest, done + {c}, Score(At(grid, c), m).n, snaps', c, done)
  {
    PickCore(grid, start, target, open, done, m, L0, c, rest, grid');
    var L := Score(At(grid, c), m).n;
    SameLayoutTrans(g0, grid, grid');
    CardAddOne(done, c);
    EntriesOk(g0, grid, rest, m);
    SameLayoutIndexed(g0, grid, c);
    AppendSnap(g0, snaps, Last(snaps'), done, done + {c}, L0, L, m);
    FramesPick(snaps, Last(snaps'), snaps');
  }

  // ---------------------------------------------------------------------
  // One iteration, continued: relaxing the neighbours of the closed cell c.

  /** The cells relaxing c's neighbours makes open: the ones open before and
      the updated neighbours that were not. */
  ghost predicate OpenAfter(grid: Grid, open: seq<Coord>, open': seq<Coord>, c: Coord, m: Metric)
    requires Rect(grid) && InBounds(grid, c) && CostOf(At(grid, c), m).Fin?
  {
    forall y :: y in open' <==>
      y in open || (y in Neighbors(c) && Eligible(grid, y, CostOf(At(grid, c), m).n, m) && At(grid, y).kind != Frontier)
  }

  /** The updated cells are exactly the eligible neighbours of c. */
  lemma CandidatesExactly(grid: Grid, c: Coord, n: nat, m: Metric)
    requires Rect(grid)
    ensures forall p :: p in Candidates(grid, Neighbors(c), n, m) <==> p in Neighbors(c) && Eligible(grid, p, n, m)
  {
  }

  /** Relaxation keeps the layout and leaves every closed cell alone. */
  lemma RelaxLayout(grid: Grid, grid': Grid, open: seq<Coord>, open': seq<Coord>, c: Coord, target: Coord,
                    E: set<Coord>, m: Metric)
    requires RelaxedFrom(grid, grid', open, open', c, target, m) && KindsOk(grid, open, E)
    ensures SameLayout(grid, grid')
    ensures forall p | p in E && InBounds(grid, p) :: At(grid', p) == At(grid, p)
  {
    CandidatesExactly(grid, c, CostOf(At(grid, c), m).n, m);
  }

  /** The open list stays a list of distinct cells: the newcomers were not open. */
  lemma RelaxOpen(grid: Grid, grid': Grid, open: seq<Coord>, open': seq<Coord>, c: Coord, target: Coord,
                  E: set<Coord>, m: Metric)
    requires RelaxedFrom(grid, grid', open, open', c, target, m) && OpenOk(grid, open) && KindsOk(grid, open, E)
    ensures OpenOk(grid', open') && OpenAfter(grid, open, open', c, m)
  {
    var n := CostOf(At(grid, c), m).n;
    var N := Newcomers(grid, Neighbors(c), n, m);
    NeighborsDistinct(c);
    assert open' == open + N;
    forall i, j | 0 <= i < j < |open'|
      ensures open'[i] != open'[j]
    {
      if i < |open| <= j {
        assert At(grid, open[i]).kind == Frontier;
        assert At(grid, N[j - |open|]).kind != Frontier;
      }
    }
  }

  /** Kinds still mark the open and the closed cells. */
  lemma RelaxKinds(grid: Grid, grid': Grid, open: seq<Coord>, open': seq<Coord>, c: Coord, target: Coord,
                   E: set<Coord>, m: Metric)
    requires RelaxedFrom(grid, grid', open, open', c, target, m) && KindsOk(grid, open, E)
    requires OpenAfter(grid, open, open', c, m)
    ensures KindsOk(grid', open', E)
  {
    CandidatesExactly(grid, c, CostOf(At(grid, c), m).n, m);
  }

  /** The reached cells still form a cost tree whose parents are closed:
      every updated cell hangs off c at one more than c's cost. */
  lemma RelaxTree(grid: Grid, grid': Grid, start: Coord, open: seq<Coord>, open': seq<Coord>, c: Coord,
                  target: Coord, E: set<Coord>, m: Metric)
    requires RelaxedFrom(grid, grid', open, open', c, target, m) && KindsOk(grid, open, E)
    requires OpenAfter(grid, open, open', c, m)
    requires TreeOk(grid, start, open, E, m) && c in E && start in E
    ensures TreeOk(grid', start, open', E, m)
  {
    var n := CostOf(At(grid, c), m).n;
    var C := Candidates(grid, Neighbors(c), n, m);
    var S, S' := Reached(open, E), Reached(open', E);
    CandidatesExactly(grid, c, n, m);
    RelaxLayout(grid, grid', open, open', c, target, E, m);
    forall p | p in S' && p != start
      ensures CostLink(grid', S', m, p)
      ensures InBounds(grid', p) && At(grid', p).parent.Some? && At(grid', p).parent.value in E
    {
      if p in C {
        assert At(grid', p) == Update(At(grid, p), c, n, p, target, m);
        assert Adjacent(c, p);
      } else {
        assert p in S;
        assert CostLink(grid, S, m, p);
      }
    }
  }

  /** The cells closed before c stay relaxed: an update only lowers a cost. */
  lemma RelaxOld(grid: Grid, grid': Grid, open: seq<Coord>, open': seq<Coord>, c: Coord, target: Coord,
                 E: set<Coord>, done: set<Coord>, m: Metric)
    requires RelaxedFrom(grid, grid', open, open', c, target, m) && KindsOk(grid, open, E)
    requires OpenAfter(grid, open, open', c, m)
    requires Relaxed(grid, done, Reached(open, E), m) && done <= E
    ensures Relaxed(grid', done, Reached(open', E), m)
  {
    var n := CostOf(At(grid, c), m).n;
    CandidatesExactly(grid, c, n, m);
    RelaxLayout(grid, grid', open, open', c, target, E, m);
    forall x, y | x in done && Adjacent(x, y) && Passable(grid', y)
      ensures AtMost(CostOf(At(grid', y), m), Add1(CostOf(At(grid', x), m)))
    {
      assert Passable(grid, y);
      if y in Candidates(grid, Neighbors(c), n, m) {
        assert Less(Fin(n + 1), CostOf(At(grid, y), m));
      }
    }
  }

  /** The estimate never drops by more than one from a cell to its neighbour. */
  lemma EstimateStep(m: Metric, a: Coord, b: Coord, target: Coord)
    requires Adjacent(a, b)
    ensures Estimate(m, a, target) <= Estimate(m, b, target) + 1
  {
    ManhattanStep(a, b, target);
  }

  /** c's neighbours become relaxed: each updated one costs one more than c;
      each other passable one was closed (and, scoring at most c, costs at
      most one more), or is already reached at most one more. */
  lemma RelaxNew(grid: Grid, grid': Grid, open: seq<Coord>, open': seq<Coord>, c: Coord, target: Coord,
                 E: set<Coord>, L: nat, m: Metric)
    requires RelaxedFrom(grid, grid', open, open', c, target, m) && KindsOk(grid, open, E)
    requires OpenAfter(grid, open, open', c, m)
    requires ScoresOk(grid, Reached(open, E), target, m) && Monotone(grid, open, E, m, L)
    requires Unreached(grid, Reached(open, E), m)
    requires c in E && Score(At(grid, c), m) == Fin(L)
    ensures forall y | Adjacent(c, y) && Passable(grid', y) ::
              y in Reached(open', E) && AtMost(CostOf(At(grid', y), m), Add1(CostOf(At(grid', c), m)))
  {
    var n := CostOf(At(grid, c), m).n;
    CandidatesExactly(grid, c, n, m);
    RelaxLayout(grid, grid', open, open', c, target, E, m);
    assert ScoreLink(At(grid, c), c, target, m);
    forall y | Adjacent(c, y) && Passable(grid', y)
      ensures y in Reached(open', E) && AtMost(CostOf(At(grid', y), m), Add1(CostOf(At(grid', c), m)))
    {
      if y !in Candidates(grid, Neighbors(c), n, m) {
        if At(grid, y).kind == Visited {
          assert ScoreLink(At(grid, y), y, target, m);
          EstimateStep(m, c, y, target);
        }
      }
    }
  }

  /** Updated cells get a score linked to their new cost. */
  lemma RelaxScores(grid: Grid, grid': Grid, open: seq<Coord>, open': seq<Coord>, c: Coord, target: Coord,
                    E: set<Coord>, m: Metric)
    requires RelaxedFrom(grid, grid', open, open', c, target, m)
    requires OpenAfter(grid, open, open', c, m)
    requires ScoresOk(grid, Reached(open, E), target, m)
    ensures ScoresOk(grid', Reached(open', E), target, m)
  {
    var n := CostOf(At(grid, c), m).n;
    CandidatesExactly(grid, c, n, m);
    forall p | p in Reached(open', E)
      ensures InBounds(grid', p) && ScoreLink(At(grid', p), p, target, m)
    {
      if p in Candidates(grid, Neighbors(c), n, m) {
        assert At(grid', p) == Update(At(grid, p), c, n, p, target, m);
      } else {
        assert p in Reached(open, E);
        assert At(grid', p) == At(grid, p);
      }
    }
  }

  /** Scores stay monotone: an updated neighbour of c scores at least c's
      score, since the estimate drops by at most one per step. */
  lemma RelaxMonotone(grid: Grid, grid': Grid, open: seq<Coord>, open': seq<Coord>, c: Coord, target: Coord,
                      E: set<Coord>, L: nat, m: Metric)
    requires RelaxedFrom(grid, grid', open, open', c, target, m) && KindsOk(grid, open, E)
    requires OpenAfter(grid, open, open', c, m)
    requires Monotone(grid, open, E, m, L) && c in E && ScoreLink(At(grid, c), c, target, m)
    requires Score(At(grid, c), m) == Fin(L)
    ensures Monotone(grid', open', E, m, L)
  {
    var n := CostOf(At(grid, c), m).n;
    var C := Candidates(grid, Neighbors(c), n, m);
    CandidatesExactly(grid, c, n, m);
    RelaxLayout(grid, grid', open, open', c, target, E, m);
    forall i | 0 <= i < |open'|
      ensures InBounds(grid', open'[i]) && AtMost(Fin(L), Score(At(grid', open'[i]), m))
    {
      var p := open'[i];
      if p in C {
        assert Adjacent(c, p);
        EstimateStep(m, c, p, target);
      } else {
        assert i < |open|;
      }
    }
  }

  /** Every updated cell is reached, so the unreached keep distance Infinity. */
  lemma RelaxUnreached(grid: Grid, grid': Grid, open: seq<Coord>, open': seq<Coord>, c: Coord, target: Coord,
                       E: set<Coord>, m: Metric)
    requires RelaxedFrom(grid, grid', open, open', c, target, m) && KindsOk(grid, open, E)
    requires OpenAfter(grid, open, open', c, m)
    requires Unreached(grid, Reached(open, E), m)
    ensures Unreached(grid', Reached(open', E), m)
  {
    CandidatesExactly(grid, c, CostOf(At(grid, c), m).n, m);
  }

  /** Relaxing c's neighbours turns the state after closing c back into a
      loop state. */
  lemma RelaxCore(grid: Grid, grid': Grid, start: Coord, target: Coord, open: seq<Coord>, open': seq<Coord>,
                  E: set<Coord>, m: Metric, L: nat, c: Coord, done: set<Coord>)
    requires PickedCore(grid, start, target, open, E, m, L, c, done)
    requires RelaxedFrom(grid, grid', open, open', c, target, m)
    ensures SameLayout(grid, grid')
    ensures BestCore(grid', start, target, open', E, m, L)
  {
    RelaxLayout(grid, grid', open, open', c, target, E, m);
    RelaxOpen(grid, grid', open, open', c, target, E, m);
    RelaxKinds(grid, grid', open, open', c, target, E, m);
    RelaxTree(grid, grid', start, open, open', c, target, E, m);
    RelaxOld(grid, grid', open, open', c, target, E, done, m);
    RelaxNew(grid, grid', open, open', c, target, E, L, m);
    RelaxScores(grid, grid', open, open', c, target, E, m);
    assert ScoreLink(At(grid, c), c, target, m);
    RelaxMonotone(grid, grid', open, open', c, target, E, L, m);
    RelaxUnreached(grid, grid', open, open', c, target, E, m);
    forall x, y | x in E && Adjacent(x, y) && Passable(grid', y)
      ensures y in Reached(open', E) && InBounds(grid', x) && CostOf(At(grid', x), m).Fin?
      ensures AtMost(CostOf(At(grid', y), m), Add1(CostOf(At(grid', x), m)))
    {
      if x != c {
        assert x in done;
      }
    }
  }

  /** The state after relaxing the neighbours of c, before the `Expanded`
      snapshot is recorded. */
  ghost predicate BestRelaxed(g0: Grid, start: Coord, target: Coord, m: Metric, grid: Grid, open: seq<Coord>,
                              E: set<Coord>, L: nat, snaps: seq<Snapshot>, c: Coord)
  {
    && Rect(g0) && WellIndexed(g0) && InBounds(g0, start)
    && SameLayout(g0, grid)
    && BestCore(grid, start, target, open, E, m, L)
    && OpenOk(grid, open) && InBounds(grid, c)
    && target !in E
    && HalfSnaps(g0, start, target, m, E, L, snaps, c)
  }

  /** The closed cells lie on the board, so there are at most rows × cols of them. */
  lemma ClosedBound(g0: Grid, grid: Grid, S: set<Coord>, E: set<Coord>, start: Coord, m: Metric)
    requires SameLayout(g0, grid) && CostTree(grid, S, start, m) && E <= S
    ensures E <= Universe(|g0|, Cols(g0)) && |E| <= |g0| * Cols(g0)
  {
    VisitedBound(g0, E);
  }

  /** Relaxing the neighbours of a closed c other than the target. */
  lemma BestRelax(g0: Grid, start: Coord, target: Coord, m: Metric, grid: Grid, open: seq<Coord>, E: set<Coord>,
                  L: nat, snaps: seq<Snapshot>, c: Coord, done: set<Coord>, grid': Grid, open': seq<Coord>)
    requires BestPicked(g0, start, target, m, grid, open, E, L, snaps, c, done) && c != target
    requires RelaxedFrom(grid, grid', open, open', c, target, m)
    ensures BestRelaxed(g0, start, target, m, grid', open', E, L, snaps, c)
    ensures |Universe(|g0|, Cols(g0)) - E| < |Universe(|g0|, Cols(g0)) - done|
  {
    RelaxCore(grid, grid', start, target, open, open', E, m, L, c, done);
    SameLayoutTrans(g0, grid, grid');
    ClosedBound(g0, grid', Reached(open', E), E, start, m);
    GrowthShrinksRest(Universe(|g0|, Cols(g0)), done, E);
  }

  /** The snapshot part of the loop state. */
  ghost predicate LoopSnaps(g0: Grid, start: Coord, target: Coord, m: Metric, E: set<Coord>, L: nat,
                            snaps: seq<Snapshot>)
    requires Rect(g0) && InBounds(g0, start)
  {
    && |snaps| == 1 + 2 * |E| && snaps[0] == InitialSnapshot(g0, start, target, m)
    && (|snaps| > 1 ==> Last(snaps).log == Expanded)
    && Frames(snaps, |snaps|, Expanded)
    && SnapsOk(g0, snaps, E, L, m)
  }

  /** The snapshot part of the state in the middle of an iteration. */
  ghost predicate HalfSnaps(g0: Grid, start: Coord, target: Coord, m: Metric, E: set<Coord>, L: nat,
                            snaps: seq<Snapshot>, c: Coord)
    requires Rect(g0) && InBounds(g0, start)
  {
    && |snaps| == 2 * |E| && snaps != [] && snaps[0] == InitialSnapshot(g0, start, target, m)
    && Frames(snaps, |snaps| - 1, Expanded)
    && Last(snaps).log == Picked && Last(snaps).currentNode.Some? && CellCoord(Last(snaps).currentNode.value) == c
    && SnapsOk(g0, snaps, E, L, m)
  }

  lemma ExpandSnaps(g0: Grid, start: Coord, target: Coord, m: Metric, E: set<Coord>, L: nat,
                    snaps: seq<Snapshot>, c: Coord, s: Snapshot, snaps': seq<Snapshot>)
    requires Rect(g0) && InBounds(g0, start) && HalfSnaps(g0, start, target, m, E, L, snaps, c)
    requires BestSnapOk(g0, s, m) && s.log == Expanded && s.currentNode.Some? && CellCoord(s.currentNode.value) == c
    requires snaps' == snaps + [s]
    ensures LoopSnaps(g0, start, target, m, E, L, snaps')
  {
    AppendSnap(g0, snaps, s, E, E, L, L, m);
    FramesAppend(snaps, s, snaps');
  }

  /** Recording the `Expanded` snapshot restores the loop state. */
  lemma BestExpand(g0: Grid, start: Coord, target: Coord, m: Metric, grid: Grid, open: seq<Coord>, E: set<Coord>,
                   L: nat, snaps: seq<Snapshot>, c: Coord, snaps': seq<Snapshot>)
    requires BestRelaxed(g0, start, target, m, grid, open, E, L, snaps, c)
    requires snaps' == snaps + [Snapshot(grid, OpenEntries(grid, open, m), Some(At(grid, c)), Expanded)]
    ensures BestLoop(g0, start, target, m, grid, open, E, L, snaps')
  {
    EntriesOk(g0, grid, open, m);
    SameLayoutIndexed(g0, grid, c);
    ExpandSnaps(g0, start, target, m, E, L, snaps, c, Last(snaps'), snaps');
  }

  // ---------------------------------------------------------------------
  // Leaving the loop.

  /** The snapshots of a finished search: all keep the layout and list
      distinct in-bounds cells; the picked cells are distinct and their
      scores never decrease. */
  ghost predicate SnapsDone(g0: Grid, snaps: seq<Snapshot>, m: Metric)
  {
    && (forall i {:trigger BestSnapOk(g0, snaps[i], m)} | 0 <= i < |snaps| :: BestSnapOk(g0, snaps[i], m))
    && Distinct(Picks(snaps))
    && Ordered(PickScores(snaps, m))
  }

  /** The state when the target has just been closed: the reached cells S
      form a cost tree holding the target, whose cost D equals its score, is
      shown as visited, and no walk from the start to the target has fewer
      than D + 1 cells; the last snapshot reports the target found. */
  ghost predicate BestFound(g0: Grid, start: Coord, target: Coord, m: Metric, grid: Grid, S: set<Coord>,
                            snaps: seq<Snapshot>)
  {
    && Rect(g0) && WellIndexed(g0) && InBounds(g0, start)
    && SameLayout(g0, grid)
    && FoundCost(g0, grid, S, start, target, m)
    && FinishedSnaps(g0, start, target, m, snaps)
    && Last(snaps) == Snapshot(grid, [], Some(At(grid, target)), TargetFound)
  }

  /** The reached cells S form a cost tree holding the target, whose cost D
      equals its score; it is shown as visited, and no walk on g0 from the
      start to the target has fewer than D + 1 cells. */
  ghost predicate FoundCost(g0: Grid, grid: Grid, S: set<Coord>, start: Coord, target: Coord, m: Metric)
  {
    && Rect(g0) && Rect(grid)
    && CostTree(grid, S, start, m) && target in S
    && At(grid, target).kind == Visited
    && Score(At(grid, target), m) == CostOf(At(grid, target), m)
    && NoShorterWalk(g0, start, target, CostOf(At(grid, target), m).n + 1)
  }

  /** The snapshots of a finished loop: at most two per cell plus the first,
      starting with the initial one; after it, pairs of a `Picked` snapshot
      and one showing the same cell, the last pair closed by the last
      snapshot's log. */
  ghost predicate FinishedSnaps(g0: Grid, start: Coord, target: Coord, m: Metric, snaps: seq<Snapshot>)
    requires Rect(g0) && InBounds(g0, start)
  {
    && 2 <= |snaps| <= 2 * (|g0| * Cols(g0)) + 1
    && snaps[0] == InitialSnapshot(g0, start, target, m)
    && Frames(snaps, |snaps|, Last(snaps).log)
    && SnapsDone(g0, snaps, m)
  }

  /** When the target is closed with score L, every cell reached but not
      closed before scores at least L, which is the target's cost. */
  lemma UnsettledAtLeast(grid: Grid, open: seq<Coord>, E: set<Coord>, done: set<Coord>, target: Coord, m: Metric,
                         L: nat)
    requires Rect(grid) && ScoresOk(grid, Reached(open, E), target, m) && Monotone(grid, open, E, m, L)
    requires E == done + {target} && Score(At(grid, target), m) == Fin(L)
    ensures CostOf(At(grid, target), m) == Fin(L)
    ensures forall p | p in Reached(open, E) && p !in done ::
              InBounds(grid, p) && CostOf(At(grid, p), m).Fin? && L <= CostOf(At(grid, p), m).n + Manhattan(p, target)
  {
    assert ScoreLink(At(grid, target), target, target, m);
    forall p | p in Reached(open, E) && p !in done
      ensures InBounds(grid, p) && CostOf(At(grid, p), m).Fin? && L <= CostOf(At(grid, p), m).n + Manhattan(p, target)
    {
      assert ScoreLink(At(grid, p), p, target, m);
      if p != target {
        var i :| 0 <= i < |open| && open[i] == p;
      }
    }
  }

  /** When the target is closed, no walk beats its cost. */
  lemma FoundShortest(g0: Grid, grid: Grid, start: Coord, target: Coord, open: seq<Coord>, E: set<Coord>, m: Metric,
                      L: nat, done: set<Coord>)
    requires SameLayout(g0, grid) && PickedCore(grid, start, target, open, E, m, L, target, done)
    ensures FoundCost(g0, grid, Reached(open, E), start, target, m)
    ensures |E| <= |grid| * Cols(grid)
  {
    TreeBound(grid, Reached(open, E), E, start, m);
    UnsettledAtLeast(grid, open, E, done, target, m, L);
    ShortestByEstimate(grid, done, Reached(open, E), m, start, target, L);
    NoShorterWalkSameLayout(g0, grid, start, target, L + 1);
  }

  /** Appending a snapshot that picks nothing to the snapshots of a
      half-done iteration finishes them. */
  lemma CloseSnaps(g0: Grid, start: Coord, target: Coord, m: Metric, E: set<Coord>, L: nat,
                   snaps: seq<Snapshot>, c: Coord, s: Snapshot, snaps': seq<Snapshot>)
    requires Rect(g0) && InBounds(g0, start) && HalfSnaps(g0, start, target, m, E, L, snaps, c)
    requires BestSnapOk(g0, s, m) && s.log != Picked && |E| <= |s.gridState| * Cols(s.gridState)
    requires s.currentNode.Some? && CellCoord(s.currentNode.value) == c && snaps' == snaps + [s]
    ensures FinishedSnaps(g0, start, target, m, snaps') && Last(snaps') == s
  {
    AppendSnap(g0, snaps, s, E, E, L, L, m);
    FramesAppend(snaps, s, snaps');
  }

  /** Closing the target and recording the `TargetFound` snapshot. */
  lemma BestLoopFound(g0: Grid, start: Coord, target: Coord, m: Metric, grid: Grid, open: seq<Coord>,
                      E: set<Coord>, L: nat, snaps: seq<Snapshot>, done: set<Coord>)
    requires BestPicked(g0, start, target, m, grid, open, E, L, snaps, target, done)
    ensures BestFound(g0, start, target, m, grid, Reached(open, E),
                      snaps + [Snapshot(grid, [], Some(At(grid, target)), TargetFound)])
  {
    FoundShortest(g0, grid, start, target, open, E, m, L, done);
    FoundSnaps(g0, start, target, m, grid, Reached(open, E), E, L, snaps);
  }

  /** The `TargetFound` snapshot closes the snapshots of a found target. */
  lemma FoundSnaps(g0: Grid, start: Coord, target: Coord, m: Metric, grid: Grid, S: set<Coord>, E: set<Coord>,
                   L: nat, snaps: seq<Snapshot>)
    requires Rect(g0) && WellIndexed(g0) && InBounds(g0, start) && SameLayout(g0, grid)
    requires FoundCost(g0, grid, S, start, target, m) && |E| <= |grid| * Cols(grid)
    requires HalfSnaps(g0, start, target, m, E, L, snaps, target)
    ensures BestFound(g0, start, target, m, grid, S, snaps + [Snapshot(grid, [], Some(At(grid, target)), TargetFound)])
  {
    var s := Snapshot(grid, [], Some(At(grid, target)), TargetFound);
    SameLayoutIndexed(g0, grid, target);
    CloseSnaps(g0, start, target, m, E, L, snaps, target, s, snaps + [s]);
  }

  /** The state when the open set runs empty without reaching the target. */
  ghost predicate BestNotFound(g0: Grid, start: Coord, target: Coord, m: Metric, snaps: seq<Snapshot>)
  {
    && Rect(g0) && InBounds(g0, start)
    && !Reachable(g0, start, target)
    && 3 <= |snaps| && FinishedSnaps(g0, start, target, m, snaps)
    && Last(snaps).log == Expanded
  }

  /** An empty open set means every reached cell is closed and relaxed: the
      closed region is closed under moves and misses the target. */
  lemma BestLoopEmpty(g0: Grid, start: Coord, target: Coord, m: Metric, grid: Grid, open: seq<Coord>, E: set<Coord>,
                      L: nat, snaps: seq<Snapshot>)
    requires BestLoop(g0, start, target, m, grid, open, E, L, snaps) && open == []
    ensures BestNotFound(g0, start, target, m, snaps)
  {
    assert Reached(open, E) == E;
    RelaxedClosed(grid, E, m);
    ClosedRegionExcludes(grid, E, start, target);
    ReachableSameLayout(g0, grid, start, target);
    ClosedBound(g0, grid, E, E, start, m);
  }

  // ---------------------------------------------------------------------
  // What a run returns.

  /** The last two snapshots of a run that found the target. `before` is the
      `TargetFound` snapshot: empty open set, the target as current node,
      shown as visited, its cost D equal to its score, and no walk from the
      start to the target has fewer than D + 1 cells. `last` is the
      `PathFound` snapshot: empty open set, no current node, and a grid whose
      parent chain from the target is a walk of D + 1 cells from the start,
      which is `before`'s grid with exactly the chain's cells other than the
      start (the target included) coloured as path. */
  ghost predicate ShortestReport(g0: Grid, start: Coord, target: Coord, m: Metric, before: Snapshot, last: Snapshot)
  {
    && Rect(g0) && Rect(before.gridState) && InBounds(before.gridState, target)
    && before.log == TargetFound && before.structureState == []
    && before.currentNode == Some(At(before.gridState, target))
    && At(before.gridState, target).kind == Visited
    && CostOf(At(before.gridState, target), m).Fin?
    && Score(At(before.gridState, target), m) == CostOf(At(before.gridState, target), m)
    && var D := CostOf(At(before.gridState, target), m).n;
       && NoShorterWalk(g0, start, target, D + 1)
       && last.log == PathFound && last.structureState == [] && last.currentNode == None
       && Rect(last.gridState)
       && ParentChainWalk(last.gridState, start, target, D + 1)
       && MarkedExactly(before.gridState, last.gridState, ChainCells(before.gridState, target, 0, D - 1))
  }

  /** What a run of either search returns: between 3 and 2 × rows × cols + 2
      snapshots, the first showing the seeded grid with only the start open;
      every snapshot keeps the board's layout and lists distinct in-bounds
      cells; no cell is picked twice and the scores of picked cells never
      decrease. The last snapshot reports a path exactly when the target is
      reachable, as `ShortestReport` describes; otherwise it is the snapshot
      of the last expansion (no closing snapshot). Between the first and the
      closing one, each removal from the open set records a `Picked`
      snapshot whose current node is the removed cell, then one showing the
      same cell: `TargetFound` for the target, `Expanded` otherwise
      (`Frames`). */
  ghost predicate BestResult(g0: Grid, start: Coord, target: Coord, m: Metric, snaps: seq<Snapshot>)
  {
    && Rect(g0) && InBounds(g0, start)
    && 3 <= |snaps| <= 2 * (|g0| * Cols(g0)) + 2
    && snaps[0] == InitialSnapshot(g0, start, target, m)
    && SnapsDone(g0, snaps, m)
    && (Last(snaps).log == PathFound || Last(snaps).log == Expanded)
    && (Last(snaps).log == PathFound <==> Reachable(g0, start, target))
    && (Last(snaps).log == PathFound ==> ShortestReport(g0, start, target, m, snaps[|snaps| - 2], Last(snaps)))
    && (Last(snaps).log == PathFound ==> Frames(snaps, |snaps| - 1, TargetFound))
    && (Last(snaps).log == Expanded ==> Frames(snaps, |snaps|, Expanded))
  }

  /** A snapshot that picks nothing keeps the picks and their scores. */
  lemma DoneSnap(g0: Grid, snaps: seq<Snapshot>, s: Snapshot, m: Metric)
    requires SnapsDone(g0, snaps, m) && BestSnapOk(g0, s, m) && s.log != Picked
    ensures SnapsDone(g0, snaps + [s], m)
  {
    assert (snaps + [s])[..|snaps|] == snaps;
  }

  /** The `PathFound` snapshot after a found target: its grid r is the
      working grid with the target's parent chain coloured, which is a walk of
      cost + 1 cells from the start, so the target is reachable. */
  lemma FoundReported(g0: Grid, start: Coord, target: Coord, m: Metric, grid: Grid, S: set<Coord>,
                      before: Snapshot, r: Grid)
    requires SameLayout(g0, grid) && FoundCost(g0, grid, S, start, target, m)
    requires before == Snapshot(grid, [], Some(At(grid, target)), TargetFound)
    requires SameSearch(grid, r) && MarkedExactly(grid, r, ChainCells(grid, target, 0, CostOf(At(grid, target), m).n - 1))
    ensures SameLayout(g0, r) && Reachable(g0, start, target)
    ensures ShortestReport(g0, start, target, m, before, Snapshot(r, [], None, PathFound))
  {
    var D := CostOf(At(grid, target), m).n;
    CostTreeParentWalk(grid, S, start, m, target);
    SameSearchKeepsParentChain(grid, r, start, target, D + 1);
    ParentChainReachable(grid, start, target, D + 1);
    ReachableSameLayout(g0, grid, start, target);
  }

  /** Closing the snapshots of a found target with the `PathFound` snapshot. */
  lemma PathFoundSnaps(g0: Grid, start: Coord, target: Coord, m: Metric, snaps: seq<Snapshot>, s: Snapshot)
    requires Rect(g0) && InBounds(g0, start) && FinishedSnaps(g0, start, target, m, snaps)
    requires BestSnapOk(g0, s, m) && s.log == PathFound && Reachable(g0, start, target)
    requires ShortestReport(g0, start, target, m, Last(snaps), s)
    ensures BestResult(g0, start, target, m, snaps + [s])
  {
    DoneSnap(g0, snaps, s, m);
    ClosingFrames(snaps, s, TargetFound);
    var s' := snaps + [s];
    assert s'[|s'| - 2] == Last(snaps) && s'[0] == snaps[0];
  }

  lemma FoundResult(g0: Grid, start: Coord, target: Coord, m: Metric, grid: Grid, S: set<Coord>,
                    snaps: seq<Snapshot>, r: Grid)
    requires BestFound(g0, start, target, m, grid, S, snaps)
    requires SameSearch(grid, r) && MarkedExactly(grid, r, ChainCells(grid, target, 0, CostOf(At(grid, target), m).n - 1))
    ensures BestResult(g0, start, target, m, snaps + [Snapshot(r, [], None, PathFound)])
  {
    FoundReported(g0, start, target, m, grid, S, Last(snaps), r);
    PathFoundSnaps(g0, start, target, m, snaps, Snapshot(r, [], None, PathFound));
  }
}
