/** The choice `drawGrid` makes for each cell: which of four tiles it draws. */
module Tiles {
  import opened Cells
  import opened Grids
  import opened Neighbours

  /** The bomb glyph, the face-down tile, an outlined square with its number, or a bare outline. */
  datatype Tile = BombGlyph | FaceDown | Numbered(n: int) | Outline

  /** The tile for cell `c` with neighbour number `n` when bombs are (or are not) `revealed`:
      a face-down cell shows the bomb glyph exactly when it is a bomb and bombs are revealed,
      and the face-down tile otherwise; a face-up cell shows its number when it is positive. */
  function TileFor(c: Cell, revealed: bool, n: int): (t: Tile)
    ensures t == BombGlyph <==> c.state == Hidden && revealed && c.isBomb
    ensures t == FaceDown <==> c.state == Hidden && !(revealed && c.isBomb)
    ensures t.Numbered? <==> c.state.Empty? && n > 0
    ensures t.Numbered? ==> t.n == n
  {
    if c.state == Hidden then
      if revealed then
        if c.isBomb then BombGlyph else FaceDown
      else
        FaceDown
    else if n > 0 then
      Numbered(n)
    else
      Outline
  }

  /** On a grid whose bombs are face-down, the tile drawn for a cell with its computed number:
      a number tile shows 1 to 8 on a cell that is no bomb, a bomb is drawn as the glyph when
      bombs are revealed and as a face-down tile when they are not, and with bombs not revealed
      no glyph appears at all. */
  lemma GridTile(g: Grid, cols: nat, rows: nat, revealed: bool, x: int, y: int)
    requires WellFormed(g, cols, rows) && BombsHidden(g) && InBounds(cols, rows, x, y)
    ensures var t := TileFor(g[y][x], revealed, CellNumber(g, cols, rows, x, y));
      && (t.Numbered? ==> 1 <= t.n <= 8 && !g[y][x].isBomb)
      && (g[y][x].isBomb ==> t == if revealed then BombGlyph else FaceDown)
      && (!revealed ==> t != BombGlyph)
  {
  }
}
