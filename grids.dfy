/** The grid as a value: a row-major sequence of rows of cells, and the number of bombs in it. */
module Grids {
  import opened Cells

  /** `grid[y][x]` is the cell in column `x` of row `y`. */
  type Grid = seq<seq<Cell>>

  /** The grid has `rows` rows of `cols` cells each. */
  predicate WellFormed(g: Grid, cols: nat, rows: nat)
  {
    |g| == rows && forall y :: 0 <= y < rows ==> |g[y]| == cols
  }

  /** The bounds test the editor applies to a cell coordinate. */
  predicate InBounds(cols: int, rows: int, x: int, y: int)
  {
    0 <= x < cols && 0 <= y < rows
  }

  /** Every bomb is face-down. */
  predicate BombsHidden(g: Grid)
  {
    forall y, x :: 0 <= y < |g| && 0 <= x < |g[y]| && g[y][x].isBomb ==> g[y][x].state == Hidden
  }

  /** No cell is a bomb. */
  predicate NoBombs(g: Grid)
  {
    forall y, x :: 0 <= y < |g| && 0 <= x < |g[y]| ==> !g[y][x].isBomb
  }

  /** The grid with the cell at `(x, y)` replaced by `c`. */
  function SetCell(g: Grid, x: int, y: int, c: Cell): Grid
    requires 0 <= y < |g| && 0 <= x < |g[y]|
  {
    g[y := g[y][x := c]]
  }

  /** The number of bombs in a row. */
  function RowBombs(r: seq<Cell>): (n: nat)
    ensures n <= |r|
  {
    if r == [] then 0 else RowBombs(r[..|r| - 1]) + Bit(r[|r| - 1].isBomb)
  }

  /** The number of bombs in the grid: the value the bomb counter must hold. */
  function BombTotal(g: Grid): nat
  {
    if g == [] then 0 else BombTotal(g[..|g| - 1]) + RowBombs(g[|g| - 1])
  }

  /** The grid that the reset builds: `rows` rows of `cols` empty, bomb-free cells. */
  function EmptyGrid(cols: nat, rows: nat): (g: Grid)
    ensures WellFormed(g, cols, rows)
    ensures forall y, x :: 0 <= y < rows && 0 <= x < cols ==> g[y][x] == EmptyCell
    ensures BombsHidden(g) && BombTotal(g) == 0
  {
    var g := seq(rows, _ => seq(cols, _ => EmptyCell));
    NoBombsIffZero(g);
    g
  }

  /** Replacing one cell changes the row's bomb count by the difference of the two bomb flags. */
  lemma {:induction false} RowBombsSet(r: seq<Cell>, x: int, c: Cell)
    requires 0 <= x < |r|
    ensures RowBombs(r[x := c]) == RowBombs(r) - Bit(r[x].isBomb) + Bit(c.isBomb)
  {
    var n := |r| - 1;
    if x == n {
      assert r[x := c][..n] == r[..n];
    } else {
      assert r[x := c][..n] == r[..n][x := c];
      RowBombsSet(r[..n], x, c);
    }
  }

  /** Replacing one cell changes the grid's bomb total by the difference of the two bomb flags. */
  lemma {:induction false} BombTotalSet(g: Grid, x: int, y: int, c: Cell)
    requires 0 <= y < |g| && 0 <= x < |g[y]|
    ensures BombTotal(SetCell(g, x, y, c)) == BombTotal(g) - Bit(g[y][x].isBomb) + Bit(c.isBomb)
  {
    var n := |g| - 1;
    var h := SetCell(g, x, y, c);
    if y == n {
      assert h[..n] == g[..n];
      RowBombsSet(g[y], x, c);
    } else {
      assert h[..n] == SetCell(g[..n], x, y, c);
      BombTotalSet(g[..n], x, y, c);
    }
  }

  /** A row holds no bomb exactly when its bomb count is zero. */
  lemma {:induction false} RowNoBombsIffZero(r: seq<Cell>)
    ensures (forall x :: 0 <= x < |r| ==> !r[x].isBomb) <==> RowBombs(r) == 0
  {
    if r != [] {
      var n := |r| - 1;
      RowNoBombsIffZero(r[..n]);
      assert forall x :: 0 <= x < n ==> r[..n][x] == r[x];
    }
  }

  /** The grid holds no bomb exactly when its bomb total is zero. */
  lemma {:induction false} NoBombsIffZero(g: Grid)
    ensures NoBombs(g) <==> BombTotal(g) == 0
  {
    if g != [] {
      var n := |g| - 1;
      NoBombsIffZero(g[..n]);
      RowNoBombsIffZero(g[n]);
      assert forall y :: 0 <= y < n ==> g[..n][y] == g[y];
      if BombTotal(g) == 0 {
        forall y, x | 0 <= y < |g| && 0 <= x < |g[y]|
          ensures !g[y][x].isBomb
        {
          if y < n {
            assert g[..n][y][x] == g[y][x];
          }
        }
      }
    }
  }

  /** The bomb total of the first `y + 1` rows adds row `y` to that of the first `y` rows. */
  lemma BombTotalPrefix(g: Grid, y: nat)
    requires y < |g|
    ensures BombTotal(g[..y + 1]) == BombTotal(g[..y]) + RowBombs(g[y])
  {
    assert g[..y + 1][..y] == g[..y];
  }

  /** The bomb count of the first `x + 1` cells adds cell `x` to that of the first `x` cells. */
  lemma RowBombsPrefix(r: seq<Cell>, x: nat)
    requires x < |r|
    ensures RowBombs(r[..x + 1]) == RowBombs(r[..x]) + Bit(r[x].isBomb)
  {
    assert r[..x + 1][..x] == r[..x];
  }
}
