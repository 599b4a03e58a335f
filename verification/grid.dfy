/**
 * The grid model: a dense rows × cols array of cells, built by `CreateGrid`,
 * with the accessors the search algorithms and the store share.
 */
module Grids {
  import opened Types

  type Grid = seq<seq<Cell>>

  /** Default dimensions of the board. */
  const GRID_ROWS: nat := 20
  const GRID_COLS: nat := 40

  /** Width of the grid, read from its first row as the algorithms do. */
  function Cols(g: Grid): nat
  {
    if |g| == 0 then 0 else |g[0]|
  }

  /** Every row has the same width. */
  predicate Rect(g: Grid)
  {
    forall r | 0 <= r < |g| :: |g[r]| == Cols(g)
  }

  predicate InBounds(g: Grid, p: Coord)
  {
    0 <= p.row < |g| && 0 <= p.col < Cols(g)
  }

  function At(g: Grid, p: Coord): Cell
    requires Rect(g) && InBounds(g, p)
  {
    g[p.row][p.col]
  }

  /** The grid with the cell at `p` replaced by `x`. */
  function With(g: Grid, p: Coord, x: Cell): (r: Grid)
    requires Rect(g) && InBounds(g, p)
    ensures Rect(r) && |r| == |g| && Cols(r) == Cols(g)
    ensures forall q | InBounds(g, q) :: At(r, q) == if q == p then x else At(g, q)
  {
    g[p.row := g[p.row][p.col := x]]
  }

  /** Every cell records its own coordinates. */
  ghost predicate WellIndexed(g: Grid)
    requires Rect(g)
  {
    forall p | InBounds(g, p) :: At(g, p).row == p.row && At(g, p).col == p.col
  }

  /** Same dimensions, and every cell keeps its coordinates and its wall flag. */
  ghost predicate SameLayout(g0: Grid, g: Grid)
  {
    && Rect(g0) && Rect(g) && |g| == |g0| && Cols(g) == Cols(g0)
    && forall p | InBounds(g0, p) ::
         && At(g, p).isWall == At(g0, p).isWall
         && At(g, p).row == At(g0, p).row
         && At(g, p).col == At(g0, p).col
  }

  lemma SameLayoutTrans(g0: Grid, g1: Grid, g2: Grid)
    requires SameLayout(g0, g1) && SameLayout(g1, g2)
    ensures SameLayout(g0, g2)
  {
  }

  /** Up, down, left, right: the fixed expansion order of all four searches. */
  function Neighbors(c: Coord): (ns: seq<Coord>)
    ensures |ns| == 4
  {
    [Coord(c.row - 1, c.col), Coord(c.row + 1, c.col), Coord(c.row, c.col - 1), Coord(c.row, c.col + 1)]
  }

  predicate Adjacent(a: Coord, b: Coord)
  {
    b in Neighbors(a)
  }

  lemma AdjacentSymmetric(a: Coord, b: Coord)
    requires Adjacent(a, b)
    ensures Adjacent(b, a)
  {
  }

  /** A cell that a search may enter: inside the grid and not a wall. */
  predicate Passable(g: Grid, p: Coord)
    requires Rect(g)
  {
    InBounds(g, p) && !At(g, p).isWall
  }

  /** The coordinates of row r with columns 0 .. cols-1. */
  ghost function RowCoords(r: int, cols: nat): (s: set<Coord>)
    ensures forall p :: p in s <==> p.row == r && 0 <= p.col < cols
    ensures |s| == cols
  {
    if cols == 0 then {} else RowCoords(r, cols - 1) + {Coord(r, cols - 1)}
  }

  /** All coordinates of a rows × cols grid: exactly the in-bounds ones,
      rows × cols of them. */
  ghost function Universe(rows: nat, cols: nat): (u: set<Coord>)
    ensures forall p :: p in u <==> 0 <= p.row < rows && 0 <= p.col < cols
    ensures |u| == rows * cols
  {
    if rows == 0 then {}
    else
      var prev, last := Universe(rows - 1, cols), RowCoords(rows - 1, cols);
      assert prev * last == {} by {
        forall p | p in last
          ensures p !in prev
        {
        }
      }
      prev + last
  }

  /** The members of a list, as a set. */
  ghost function Elems<T>(s: seq<T>): set<T>
  {
    set x | x in s
  }

  predicate Distinct<T(==)>(s: seq<T>)
  {
    forall i, j | 0 <= i < j < |s| :: s[i] != s[j]
  }

  lemma {:induction false} DistinctCard<T>(s: seq<T>)
    requires Distinct(s)
    ensures |set x | x in s| == |s|
  {
    if s != [] {
      var init := s[..|s| - 1];
      assert (set x | x in s) == (set x | x in init) + {s[|s| - 1]};
      assert s[|s| - 1] !in (set x | x in init);
      DistinctCard(init);
    }
  }

  lemma {:induction false} SubsetCard<T>(a: set<T>, b: set<T>)
    requires a <= b
    ensures |a| <= |b|
  {
    if a != {} {
      var x :| x in a;
      SubsetCard(a - {x}, b - {x});
    }
  }

  /** A list without duplicates holds each value at most once. */
  lemma {:induction false} DistinctMultiplicity<T>(s: seq<T>, x: T)
    requires Distinct(s)
    ensures multiset(s)[x] <= 1
  {
    if s != [] {
      var init := s[..|s| - 1];
      assert s == init + [s[|s| - 1]];
      DistinctMultiplicity(init, x);
      if x == s[|s| - 1] {
        assert x !in multiset(init);
      }
    }
  }

  /** A permutation of a list without duplicates has none either. */
  lemma PermutationDistinct<T>(a: seq<T>, b: seq<T>)
    requires multiset(a) == multiset(b) && Distinct(a)
    ensures Distinct(b)
  {
    forall i, j | 0 <= i < j < |b|
      ensures b[i] != b[j]
    {
      if b[i] == b[j] {
        assert b == b[..j] + b[j..];
        assert b[i] in multiset(b[..j]) && b[i] in multiset(b[j..]);
        DistinctMultiplicity(a, b[i]);
        assert false;
      }
    }
  }

  /** Adding a new member grows a set by one. */
  lemma CardAddOne<T>(s: set<T>, x: T)
    requires x !in s
    ensures |s + {x}| == |s| + 1
  {
    assert (s + {x}) - {x} == s;
  }

  /** A set of in-bounds cells has at most rows × cols members. */
  lemma CellsBound(g: Grid, S: set<Coord>)
    requires forall p | p in S :: InBounds(g, p)
    ensures |S| <= |g| * Cols(g)
  {
    SubsetCard(S, Universe(|g|, Cols(g)));
  }

  /** A list of distinct in-bounds coordinates (a queue, stack or open set
      without duplicates) never holds more than rows × cols entries. */
  lemma DistinctCoordsBound(g: Grid, s: seq<Coord>)
    requires Distinct(s)
    requires forall i | 0 <= i < |s| :: InBounds(g, s[i])
    ensures |s| <= |g| * Cols(g)
  {
    DistinctCard(s);
    SubsetCard((set x | x in s), Universe(|g|, Cols(g)));
  }

  /** The cell `createGrid` places at row r, column c. */
  function InitialCell(r: int, c: int): Cell
  {
    Cell(r, c, Empty, false, false, false, Inf, None, Inf, Inf, Inf)
  }

  /** A cell with every search field at its initial value. */
  predicate Pristine(cell: Cell)
  {
    && !cell.isVisited && !cell.isWall && !cell.isPath
    && cell.distance == Inf && cell.f == Inf && cell.g == Inf && cell.h == Inf
    && cell.parent == None
  }

  /** createGrid: builds the grid row by row with nested loops. */
  method CreateGrid(rows: nat, cols: nat) returns (grid: Grid)
    ensures |grid| == rows
    ensures forall r | 0 <= r < rows :: |grid[r]| == cols
    ensures forall r, c | 0 <= r < rows && 0 <= c < cols ::
              && grid[r][c].row == r && grid[r][c].col == c
              && grid[r][c].kind == Empty && Pristine(grid[r][c])
  {
    grid := [];
    var r := 0;
    while r < rows
      invariant 0 <= r <= rows && |grid| == r
      invariant forall i | 0 <= i < r :: |grid[i]| == cols
      invariant forall i, j | 0 <= i < r && 0 <= j < cols :: grid[i][j] == InitialCell(i, j)
    {
      var row: seq<Cell> := [];
      var c := 0;
      while c < cols
        invariant 0 <= c <= cols && |row| == c
        invariant forall j | 0 <= j < c :: row[j] == InitialCell(r, j)
      {
        row := row + [InitialCell(r, c)];
        c := c + 1;
      }
      grid := grid + [row];
      r := r + 1;
    }
  }
}
