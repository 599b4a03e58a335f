/**
 * Walks through the grid and parent links between cells: what "reachable"
 * means for the searches, the trees their `parent` fields form, and the
 * facts the searches' correctness rests on.
 */
module Paths {
  import opened Types
  import opened Grids

  /** A walk: a non-empty list of in-bounds coordinates, each adjacent to the
      one before it; every step enters a passable cell. The first cell is the
      start, which no search checks for a wall. */
  ghost predicate IsWalk(g: Grid, w: seq<Coord>)
    requires Rect(g)
  {
    && |w| > 0
    && InBounds(g, w[0])
    && forall i | 1 <= i < |w| :: Passable(g, w[i]) && Adjacent(w[i - 1], w[i])
  }

  ghost predicate Reachable(g: Grid, s: Coord, t: Coord)
    requires Rect(g)
  {
    exists w :: IsWalk(g, w) && w[0] == s && w[|w| - 1] == t
  }

  /** Walks depend only on the layout (dimensions and walls). */
  lemma WalkSameLayout(g0: Grid, g: Grid, w: seq<Coord>)
    requires SameLayout(g0, g)
    ensures IsWalk(g0, w) <==> IsWalk(g, w)
  {
  }

  lemma ReachableSameLayout(g0: Grid, g: Grid, s: Coord, t: Coord)
    requires SameLayout(g0, g)
    ensures Reachable(g0, s, t) <==> Reachable(g, s, t)
  {
    if Reachable(g0, s, t) {
      var w :| IsWalk(g0, w) && w[0] == s && w[|w| - 1] == t;
      WalkSameLayout(g0, g, w);
    }
    if Reachable(g, s, t) {
      var w :| IsWalk(g, w) && w[0] == s && w[|w| - 1] == t;
      WalkSameLayout(g0, g, w);
    }
  }

  /** No passable neighbour of a member of S lies outside S. */
  ghost predicate ClosedUnderMoves(g: Grid, S: set<Coord>)
    requires Rect(g)
  {
    forall x, y | x in S && Adjacent(x, y) && Passable(g, y) :: y in S
  }

  lemma {:induction false} WalkStaysInside(g: Grid, S: set<Coord>, w: seq<Coord>)
    requires Rect(g) && ClosedUnderMoves(g, S) && IsWalk(g, w) && w[0] in S
    ensures forall i | 0 <= i < |w| :: w[i] in S
  {
    if |w| > 1 {
      var init := w[..|w| - 1];
      assert IsWalk(g, init);
      WalkStaysInside(g, S, init);
      assert w[|w| - 2] in S;
    }
  }

  /** A region closed under moves that holds the start but not the target
      proves the target unreachable: the argument behind "frontier exhausted". */
  lemma ClosedRegionExcludes(g: Grid, S: set<Coord>, s: Coord, t: Coord)
    requires Rect(g) && ClosedUnderMoves(g, S) && s in S && t !in S
    ensures !Reachable(g, s, t)
  {
    if Reachable(g, s, t) {
      var w :| IsWalk(g, w) && w[0] == s && w[|w| - 1] == t;
      WalkStaysInside(g, S, w);
    }
  }

  /** Follows `parent` links k times from c; None when a link is missing. */
  function Ancestor(g: Grid, c: Coord, k: nat): Option<Coord>
    requires Rect(g)
    decreases k
  {
    if k == 0 then Some(c)
    else if !InBounds(g, c) then None
    else match At(g, c).parent
      case None => None
      case Some(p) => Ancestor(g, p, k - 1)
  }

  lemma {:induction false} AncestorStep(g: Grid, c: Coord, k: nat)
    requires Rect(g) && Ancestor(g, c, k).Some?
    requires InBounds(g, Ancestor(g, c, k).value) && At(g, Ancestor(g, c, k).value).parent.Some?
    ensures Ancestor(g, c, k + 1) == At(g, Ancestor(g, c, k).value).parent
    decreases k
  {
    if k > 0 {
      AncestorStep(g, At(g, c).parent.value, k - 1);
    }
  }

  /** Which cost field orders a tree: `distance` (BFS, Dijkstra) or `g` (A*). */
  datatype Metric = ByDistance | ByG

  function CostOf(cell: Cell, m: Metric): Cost
  {
    match m
    case ByDistance => cell.distance
    case ByG => cell.g
  }

  /** c is a passable cell whose parent is an adjacent member of S costing one less. */
  ghost predicate CostLink(g: Grid, S: set<Coord>, m: Metric, c: Coord)
    requires Rect(g) && InBounds(g, c)
  {
    && Passable(g, c)
    && At(g, c).parent.Some?
    && At(g, c).parent.value in S
    && InBounds(g, At(g, c).parent.value)
    && Adjacent(At(g, c).parent.value, c)
    && CostOf(At(g, c), m) == Add1(CostOf(At(g, At(g, c).parent.value), m))
  }

  /** The parent links of the members of S form a tree rooted at `root` whose
      depth is the chosen cost: the root costs 0 and has no parent; every other
      member is a passable cell whose parent is an adjacent member costing one less. */
  ghost predicate CostTree(g: Grid, S: set<Coord>, root: Coord, m: Metric)
    requires Rect(g)
  {
    && root in S
    && (forall c | c in S :: InBounds(g, c) && CostOf(At(g, c), m).Fin?)
    && At(g, root).parent == None
    && CostOf(At(g, root), m) == Fin(0)
    && forall c {:trigger CostLink(g, S, m, c)} | c in S && c != root :: CostLink(g, S, m, c)
  }

  /** The parent links of the members of S form a tree rooted at `root`: every
      other member's parent is an adjacent member of strictly smaller rank. */
  ghost predicate RankedTree(g: Grid, S: set<Coord>, root: Coord, rank: map<Coord, nat>)
    requires Rect(g)
  {
    && root in S
    && S <= rank.Keys
    && (forall c | c in S :: InBounds(g, c))
    && At(g, root).parent == None
    && forall c {:trigger RankLink(g, S, rank, c)} | c in S && c != root :: RankLink(g, S, rank, c)
  }

  /** c is a passable cell whose parent is an adjacent member of S of smaller rank. */
  ghost predicate RankLink(g: Grid, S: set<Coord>, rank: map<Coord, nat>, c: Coord)
    requires Rect(g)
  {
    && Passable(g, c)
    && At(g, c).parent.Some?
    && At(g, c).parent.value in S
    && Adjacent(At(g, c).parent.value, c)
    && At(g, c).parent.value in rank && c in rank
    && rank[At(g, c).parent.value] < rank[c]
  }

  ghost function CostRank(g: Grid, S: set<Coord>, m: Metric): map<Coord, nat>
    requires Rect(g)
    requires forall c | c in S :: InBounds(g, c) && CostOf(At(g, c), m).Fin?
  {
    map c | c in S :: CostOf(At(g, c), m).n
  }

  lemma CostTreeIsRanked(g: Grid, S: set<Coord>, root: Coord, m: Metric)
    requires Rect(g) && CostTree(g, S, root, m)
    ensures RankedTree(g, S, root, CostRank(g, S, m))
  {
    forall c | c in S && c != root
      ensures RankLink(g, S, CostRank(g, S, m), c)
    {
      assert CostLink(g, S, m, c);
    }
  }

  /** Following parents from a member of a cost tree reaches the root after
      exactly as many steps as the member's cost, through members whose cost
      drops by one per step. */
  lemma {:induction false} CostTreeChain(g: Grid, S: set<Coord>, root: Coord, m: Metric, c: Coord, k: nat)
    requires Rect(g) && CostTree(g, S, root, m) && c in S
    requires k <= CostOf(At(g, c), m).n
    ensures Ancestor(g, c, k).Some?
    ensures Ancestor(g, c, k).value in S
    ensures CostOf(At(g, Ancestor(g, c, k).value), m) == Fin(CostOf(At(g, c), m).n - k)
    ensures k == CostOf(At(g, c), m).n ==> Ancestor(g, c, k) == Some(root)
    decreases k
  {
    if k > 0 {
      assert c != root && CostLink(g, S, m, c);
      var p := At(g, c).parent.value;
      assert p in S && CostOf(At(g, c), m).n == CostOf(At(g, p), m).n + 1;
      CostTreeChain(g, S, root, m, p, k - 1);
      assert Ancestor(g, c, k) == Ancestor(g, p, k - 1);
    } else if c != root {
      assert CostLink(g, S, m, c);
    }
  }

  /** The number of parent steps from a member of a ranked tree to its root. */
  ghost function ChainLength(g: Grid, S: set<Coord>, root: Coord, rank: map<Coord, nat>, c: Coord): (n: nat)
    requires Rect(g) && RankedTree(g, S, root, rank) && c in S
    ensures Ancestor(g, c, n) == Some(root)
    ensures forall k | 0 <= k < n :: Ancestor(g, c, k).Some? && Ancestor(g, c, k).value in S
                                   && Ancestor(g, c, k).value != root
    decreases rank[c]
  {
    if c == root then 0
    else
      assert RankLink(g, S, rank, c);
      var p := At(g, c).parent.value;
      var n := 1 + ChainLength(g, S, root, rank, p);
      assert forall k | 1 <= k < n :: Ancestor(g, c, k) == Ancestor(g, p, k - 1);
      n
  }

  /** The walk read off a ranked tree's parent chain, from the root to c. */
  ghost function ChainWalk(g: Grid, S: set<Coord>, root: Coord, rank: map<Coord, nat>, c: Coord): (w: seq<Coord>)
    requires Rect(g) && RankedTree(g, S, root, rank) && c in S
    ensures IsWalk(g, w) && w[0] == root && w[|w| - 1] == c
    ensures |w| == ChainLength(g, S, root, rank, c) + 1
    decreases rank[c]
  {
    if c == root then [root]
    else
      assert RankLink(g, S, rank, c);
      ChainWalk(g, S, root, rank, At(g, c).parent.value) + [c]
  }

  /** Every member of a ranked tree is reachable from its root. */
  lemma RankedTreeReachable(g: Grid, S: set<Coord>, root: Coord, rank: map<Coord, nat>, c: Coord)
    requires Rect(g) && RankedTree(g, S, root, rank) && c in S
    ensures Reachable(g, root, c)
  {
    var w := ChainWalk(g, S, root, rank, c);
  }

  /** Every passable neighbour of a settled cell (one of E) has been reached
      (it is in S) and costs at most one more than the settled cell: the
      relaxation step has been applied to every member of E. */
  ghost predicate Relaxed(g: Grid, E: set<Coord>, S: set<Coord>, m: Metric)
    requires Rect(g)
  {
    forall x, y | x in E && Adjacent(x, y) && Passable(g, y) ::
      && y in S
      && InBounds(g, x) && CostOf(At(g, x), m).Fin?
      && AtMost(CostOf(At(g, y), m), Add1(CostOf(At(g, x), m)))
  }

  /** When everything reached is settled, the reached region is closed under moves. */
  lemma RelaxedClosed(g: Grid, S: set<Coord>, m: Metric)
    requires Rect(g) && Relaxed(g, S, S, m)
    ensures ClosedUnderMoves(g, S)
  {
  }

  /** Along a walk from a cost-0 cell whose first j cells are settled, the
      j-th cell costs at most j. */
  lemma {:induction false} SettledPrefixBound(g: Grid, E: set<Coord>, S: set<Coord>, m: Metric, w: seq<Coord>, j: nat)
    requires Rect(g) && Relaxed(g, E, S, m) && IsWalk(g, w) && CostOf(At(g, w[0]), m) == Fin(0)
    requires j < |w| && forall i | 0 <= i < j :: w[i] in E
    ensures AtMost(CostOf(At(g, w[j]), m), Fin(j))
  {
    if j > 0 {
      SettledPrefixBound(g, E, S, m, w, j - 1);
      assert w[j - 1] in E && Adjacent(w[j - 1], w[j]) && Passable(g, w[j]);
    }
  }

  /** The first index of a walk outside E, when its last cell is outside E. */
  lemma FirstOutside(w: seq<Coord>, E: set<Coord>) returns (j: nat)
    requires |w| > 0 && w[|w| - 1] !in E
    ensures j < |w| && w[j] !in E && forall i | 0 <= i < j :: w[i] in E
  {
    j := 0;
    while w[j] in E
      invariant j < |w| && forall i | 0 <= i < j :: w[i] in E
      decreases |w| - j
    {
      j := j + 1;
    }
  }

  /** No walk from s to t has fewer than n cells: t is at distance at least n - 1. */
  ghost predicate NoShorterWalk(g: Grid, s: Coord, t: Coord, n: nat)
    requires Rect(g)
  {
    forall w | IsWalk(g, w) && w[0] == s && w[|w| - 1] == t :: |w| >= n
  }

  lemma NoShorterWalkSameLayout(g0: Grid, g: Grid, s: Coord, t: Coord, n: nat)
    requires SameLayout(g0, g) && NoShorterWalk(g, s, t, n)
    ensures NoShorterWalk(g0, s, t, n)
  {
    forall w | IsWalk(g0, w) && w[0] == s && w[|w| - 1] == t
      ensures |w| >= n
    {
      WalkSameLayout(g0, g, w);
    }
  }

  /** The optimality argument of the breadth-first and Dijkstra searches: when
      every reached but unsettled cell costs at least D, and t is not settled,
      every walk from the cost-0 cell s to t has at least D + 1 cells. */
  lemma ShortestByFrontier(g: Grid, E: set<Coord>, S: set<Coord>, m: Metric, s: Coord, t: Coord, D: nat)
    requires Rect(g) && Relaxed(g, E, S, m) && s in S && InBounds(g, s) && CostOf(At(g, s), m) == Fin(0)
    requires t !in E
    requires forall p | p in S && p !in E :: InBounds(g, p) && CostOf(At(g, p), m).Fin? && D <= CostOf(At(g, p), m).n
    ensures NoShorterWalk(g, s, t, D + 1)
  {
    forall w | IsWalk(g, w) && w[0] == s && w[|w| - 1] == t
      ensures |w| >= D + 1
    {
      var j := FirstOutside(w, E);
      SettledPrefixBound(g, E, S, m, w, j);
      if j > 0 {
        assert w[j - 1] in E && Adjacent(w[j - 1], w[j]) && Passable(g, w[j]);
      }
    }
  }

  function Abs(x: int): nat
  {
    if x < 0 then -x else x
  }

  /** The heuristic h of the A* search: the Manhattan distance between two
      cells, zero exactly when they coincide. */
  function Manhattan(a: Coord, b: Coord): (d: nat)
    ensures d == 0 <==> a == b
  {
    Abs(a.row - b.row) + Abs(a.col - b.col)
  }

  /** The heuristic is consistent: one move changes it by at most one. */
  lemma ManhattanStep(a: Coord, b: Coord, t: Coord)
    requires Adjacent(a, b)
    ensures Manhattan(a, t) <= Manhattan(b, t) + 1
    ensures Manhattan(b, t) <= Manhattan(a, t) + 1
  {
  }

  /** The heuristic is admissible: the part of a walk from w[i] to w[k] has at
      least Manhattan(w[i], w[k]) moves. */
  lemma {:induction false} ManhattanWalk(g: Grid, w: seq<Coord>, i: nat, k: nat)
    requires Rect(g) && IsWalk(g, w) && i <= k < |w|
    ensures Manhattan(w[i], w[k]) <= k - i
    decreases k - i
  {
    if i < k {
      ManhattanWalk(g, w, i + 1, k);
      ManhattanStep(w[i], w[i + 1], w[k]);
    }
  }

  /** The optimality argument of the A* search: when every reached but
      unsettled cell p has cost plus estimate at least D, and t is not
      settled, every walk from the cost-0 cell s to t has at least D + 1 cells. */
  lemma ShortestByEstimate(g: Grid, E: set<Coord>, S: set<Coord>, m: Metric, s: Coord, t: Coord, D: nat)
    requires Rect(g) && Relaxed(g, E, S, m) && s in S && InBounds(g, s) && CostOf(At(g, s), m) == Fin(0)
    requires t !in E
    requires forall p | p in S && p !in E ::
               InBounds(g, p) && CostOf(At(g, p), m).Fin? && D <= CostOf(At(g, p), m).n + Manhattan(p, t)
    ensures NoShorterWalk(g, s, t, D + 1)
  {
    forall w | IsWalk(g, w) && w[0] == s && w[|w| - 1] == t
      ensures |w| >= D + 1
    {
      var j := FirstOutside(w, E);
      SettledPrefixBound(g, E, S, m, w, j);
      ManhattanWalk(g, w, j, |w| - 1);
      if j > 0 {
        assert w[j - 1] in E && Adjacent(w[j - 1], w[j]) && Passable(g, w[j]);
      }
    }
  }

  /** Following parents from t for n - 1 steps walks back to s through
      passable, adjacent cells: the parent links spell out a walk of n cells. */
  ghost predicate ParentChainWalk(g: Grid, s: Coord, t: Coord, n: nat)
    requires Rect(g)
  {
    && n >= 1
    && InBounds(g, s)
    && Ancestor(g, t, n - 1) == Some(s)
    && forall k | 0 <= k < n - 1 :: ChainStep(g, t, k)
  }

  /** The k-th cell of t's parent chain is passable and its parent is adjacent to it. */
  ghost predicate ChainStep(g: Grid, t: Coord, k: nat)
    requires Rect(g)
  {
    && Ancestor(g, t, k).Some? && Ancestor(g, t, k + 1).Some?
    && Passable(g, Ancestor(g, t, k).value)
    && Adjacent(Ancestor(g, t, k + 1).value, Ancestor(g, t, k).value)
  }

  /** A parent chain is a genuine walk from s to t, of exactly n cells. */
  lemma ParentChainWalkOf(g: Grid, s: Coord, t: Coord, n: nat) returns (w: seq<Coord>)
    requires Rect(g) && ParentChainWalk(g, s, t, n)
    ensures IsWalk(g, w) && w[0] == s && w[|w| - 1] == t && |w| == n
  {
    forall k | 0 <= k < n
      ensures Ancestor(g, t, k).Some?
    {
      if k < n - 1 {
        assert ChainStep(g, t, k);
      }
    }
    w := seq(n, i requires 0 <= i < n && Ancestor(g, t, n - 1 - i).Some? => Ancestor(g, t, n - 1 - i).value);
    assert w[0] == s && w[n - 1] == t;
    forall i | 1 <= i < n
      ensures Passable(g, w[i]) && Adjacent(w[i - 1], w[i])
    {
      var k := n - 1 - i;
      assert ChainStep(g, t, k);
      assert w[i - 1] == Ancestor(g, t, k + 1).value;
    }
  }

  lemma ParentChainReachable(g: Grid, s: Coord, t: Coord, n: nat)
    requires Rect(g) && ParentChainWalk(g, s, t, n)
    ensures Reachable(g, s, t)
  {
    var w := ParentChainWalkOf(g, s, t, n);
  }

  /** In a cost tree, the parent chain of a member is a walk from the root of
      exactly cost + 1 cells. */
  lemma CostTreeParentWalk(g: Grid, S: set<Coord>, root: Coord, m: Metric, t: Coord)
    requires Rect(g) && CostTree(g, S, root, m) && t in S
    ensures ParentChainWalk(g, root, t, CostOf(At(g, t), m).n + 1)
  {
    var D := CostOf(At(g, t), m).n;
    CostTreeChain(g, S, root, m, t, D);
    forall k | 0 <= k < D
      ensures ChainStep(g, t, k)
    {
      CostTreeChain(g, S, root, m, t, k);
      var a := Ancestor(g, t, k).value;
      assert a != root;
      assert CostLink(g, S, m, a);
      AncestorStep(g, t, k);
    }
  }

  /** In a ranked tree, the parent chain of a member is a walk from the root. */
  lemma RankedTreeParentWalk(g: Grid, S: set<Coord>, root: Coord, rank: map<Coord, nat>, t: Coord)
    requires Rect(g) && RankedTree(g, S, root, rank) && t in S
    ensures ParentChainWalk(g, root, t, ChainLength(g, S, root, rank, t) + 1)
  {
    var n := ChainLength(g, S, root, rank, t);
    forall k | 0 <= k < n
      ensures ChainStep(g, t, k)
    {
      var a := Ancestor(g, t, k).value;
      assert RankLink(g, S, rank, a);
      AncestorStep(g, t, k);
    }
  }

  /** In a cost tree the chain length of a member is its cost. */
  lemma CostTreeChainLength(g: Grid, S: set<Coord>, root: Coord, m: Metric, t: Coord)
    requires Rect(g) && CostTree(g, S, root, m) && t in S
    ensures RankedTree(g, S, root, CostRank(g, S, m))
    ensures ChainLength(g, S, root, CostRank(g, S, m), t) == CostOf(At(g, t), m).n
  {
    CostTreeIsRanked(g, S, root, m);
    var n := ChainLength(g, S, root, CostRank(g, S, m), t);
    var D := CostOf(At(g, t), m).n;
    CostTreeChain(g, S, root, m, t, D);
    if n < D {
      CostTreeChain(g, S, root, m, t, n);
    }
  }
}
