/** One tile of the drawing and the effect of one brush stroke on it. */
module Cells {

  /** The two values of a cell's `state`: `'empty'` (face-up) and `'hidden'` (face-down). */
  datatype Visibility = Empty | Hidden

  /** A grid cell. A cell made by the grid reset carries no `isBomb` property at all;
      reading it gives `undefined`, which every condition in the sketch (`if (cell.isBomb)`,
      `!cell.isBomb`) treats as false. */
  datatype Cell = Cell(state: Visibility, isBomb: bool)

  /** The cell the grid reset creates. */
  const EmptyCell := Cell(Empty, false)

  /** 1 for a bomb, 0 otherwise: what a cell adds to the bomb counter. */
  function Bit(b: bool): nat
  {
    if b then 1 else 0
  }

  /** The new value of a cell touched once by a drag.
      The bomb brush flips `isBomb` and makes the cell face-down exactly when it becomes a bomb;
      the normal brush flips `state`, a revealed cell loses its bomb, and a cell turned face-down
      becomes a bomb when it already was one or when the random draw `draw` succeeds. */
  function Brush(c: Cell, bombBrush: bool, draw: bool): (r: Cell)
    ensures r.isBomb ==> r.state == Hidden
    ensures bombBrush ==> r.isBomb == !c.isBomb && (r.state == Hidden <==> r.isBomb)
    ensures !bombBrush ==> r.state != c.state
    ensures !bombBrush ==> (r.isBomb <==> c.state.Empty? && (c.isBomb || draw))
  {
    if bombBrush then
      if c.isBomb then Cell(Empty, false) else Cell(Hidden, true)
    else if c.state == Hidden then
      Cell(Empty, false)
    else
      Cell(Hidden, c.isBomb || draw)
  }
}
