/**
  The puzzle surface shared by the generator and the selection tracker:
  cells, cell coordinates and the square grid of rows `grid[y][x]`.
*/
module Grids {

  /** A grid cell: the empty string '' a fresh grid holds, or a single letter. */
  datatype Cell = Empty | Letter(ch: char)

  /** A cell coordinate; `row` indexes the outer array (y), `col` a row (x). */
  datatype Pos = Pos(row: int, col: int)

  /** The grid as a sequence of rows. */
  type Grid = seq<seq<Cell>>

  datatype Option<T> = None | Some(value: T)

  /** Every row is as long as there are rows. */
  predicate IsSquare(g: Grid) {
    forall y :: 0 <= y < |g| ==> |g[y]| == |g|
  }

  predicate InGrid(n: int, p: Pos) {
    0 <= p.row < n && 0 <= p.col < n
  }

  function At(g: Grid, p: Pos): Cell
    requires IsSquare(g) && InGrid(|g|, p)
  {
    g[p.row][p.col]
  }

  /** `grid[y][x] = c`: the grid with exactly one cell replaced. */
  function SetCell(g: Grid, p: Pos, c: Cell): (r: Grid)
    requires IsSquare(g) && InGrid(|g|, p)
    ensures IsSquare(r) && |r| == |g|
    ensures At(r, p) == c
    ensures forall q {:trigger At(r, q)} {:trigger At(g, q)} :: InGrid(|g|, q) && q != p ==> At(r, q) == At(g, q)
  {
    g[p.row := g[p.row][p.col := c]]
  }

  /** `Array(n).fill().map(() => Array(n).fill(''))` */
  function EmptyGrid(n: nat): (g: Grid)
    ensures IsSquare(g) && |g| == n
    ensures forall q {:trigger At(g, q)} :: InGrid(n, q) ==> At(g, q) == Empty
  {
    seq(n, _ => seq(n, _ => Empty))
  }

  /** No cell holds the empty string. */
  ghost predicate NoEmpty(g: Grid)
    requires IsSquare(g)
  {
    forall q {:trigger At(g, q)} :: InGrid(|g|, q) ==> At(g, q) != Empty
  }

  /**
    `h` keeps every letter of `g`: same size, and a cell that held a letter
    in `g` holds the same letter in `h` (only empty cells may change).
  */
  ghost predicate Keeps(g: Grid, h: Grid) {
    IsSquare(g) && IsSquare(h) && |g| == |h| &&
    forall q {:trigger At(g, q)} :: InGrid(|g|, q) && At(g, q) != Empty ==> At(h, q) == At(g, q)
  }

  /** Two grids of one size that agree on every cell are the same grid. */
  lemma SameCells(g: Grid, h: Grid)
    requires IsSquare(g) && IsSquare(h) && |g| == |h|
    requires forall q :: InGrid(|g|, q) ==> At(g, q) == At(h, q)
    ensures g == h
  {
    forall y | 0 <= y < |g|
      ensures g[y] == h[y]
    {
      forall x | 0 <= x < |g|
        ensures g[y][x] == h[y][x]
      {
        assert At(g, Pos(y, x)) == At(h, Pos(y, x));
      }
    }
  }

  lemma KeepsTransitive(g: Grid, h: Grid, k: Grid)
    requires Keeps(g, h) && Keeps(h, k)
    ensures Keeps(g, k)
  {
  }

  /** A property each step of a chain of grids passes on holds all along it. */
  lemma {:induction false} ChainHolds(f: nat -> Grid, P: Grid -> bool, m: nat)
    requires P(f(0))
    requires forall i :: 0 < i <= m ==> P(f(i - 1)) ==> P(f(i))
    ensures P(f(m))
    decreases m
  {
    if m > 0 {
      ChainHolds(f, P, m - 1);
    }
  }

  /** Each grid of a chain keeps the letters of the one before it, so the last keeps those of the first. */
  lemma {:induction false} KeepsAlong(gs: seq<Grid>, m: nat, j: nat)
    requires m <= j < |gs| && IsSquare(gs[m])
    requires forall i :: m < i <= j ==> Keeps(gs[i - 1], gs[i])
    ensures Keeps(gs[m], gs[j])
    decreases j
  {
    if m < j {
      KeepsAlong(gs, m, j - 1);
      KeepsTransitive(gs[m], gs[j - 1], gs[j]);
    }
  }

  /** Keeping the letters of a grid that has no empty cell changes nothing. */
  lemma KeepsFullGrid(g: Grid, h: Grid)
    requires IsSquare(g) && NoEmpty(g) && Keeps(g, h)
    ensures h == g
  {
    SameCells(g, h);
  }
}
