/** The editor's mutable state and the operations that change it: the grid reset, the brushes
    applied while dragging, the bomb reroll, saving and loading, and the key commands. */
module Editor {
  import opened Cells
  import opened Grids
  import opened Neighbours
  import opened Documents
  import opened Gestures

  datatype Option<T> = None | Some(value: T)

  /** `after` is `before` with every face-down cell's bomb flag redrawn from `coin` and every
      face-up cell made bomb-free; no cell's `state` changes. */
  ghost predicate Rerolled(before: Grid, after: Grid, cols: nat, rows: nat, coin: (int, int) -> bool)
  {
    && WellFormed(before, cols, rows) && WellFormed(after, cols, rows)
    && forall y, x :: 0 <= y < rows && 0 <= x < cols ==>
         after[y][x].state == before[y][x].state &&
         after[y][x].isBomb == (before[y][x].state == Hidden && coin(x, y))
  }

  /** Row `y` of a grid after the reroll. */
  function RerolledRow(r: seq<Cell>, y: int, coin: (int, int) -> bool): (r': seq<Cell>)
    ensures |r'| == |r|
  {
    seq(|r|, i requires 0 <= i < |r| => Cell(r[i].state, r[i].state == Hidden && coin(i, y)))
  }

  /** One step of the reroll's inner loop: rerolling cell `x` extends the rerolled prefix of
      the row by one and shortens the untouched suffix by one. */
  lemma RerollStep(before: seq<Cell>, after: seq<Cell>, r0: seq<Cell>, y: int, x: int, coin: (int, int) -> bool)
    requires 0 <= x < |before| == |r0|
    requires before[..x] == RerolledRow(r0, y, coin)[..x] && before[x..] == r0[x..]
    requires after == before[x := Cell(before[x].state, before[x].state == Hidden && coin(x, y))]
    ensures after[..x + 1] == RerolledRow(r0, y, coin)[..x + 1] && after[x + 1..] == r0[x + 1..]
    ensures after[..x] == before[..x]
  {
    assert before[x] == r0[x] by {
      assert before[x..][0] == r0[x..][0];
    }
    assert forall i :: x + 1 <= i < |r0| ==> after[i] == before[i] == before[x..][i - x] == r0[i];
  }

  /** A grid whose every row is the rerolled row of the original is rerolled, and all its
      bombs are face-down. */
  lemma RerolledRows(g0: Grid, g: Grid, cols: nat, rows: nat, coin: (int, int) -> bool)
    requires WellFormed(g0, cols, rows) && WellFormed(g, cols, rows)
    requires forall j :: 0 <= j < rows ==> g[j] == RerolledRow(g0[j], j, coin)
    ensures Rerolled(g0, g, cols, rows, coin) && BombsHidden(g)
  {
  }

  /** The drawing tool's global state. */
  class Sketch {
    var cols: nat
    var rows: nat
    /** The cached number of bombs shown in the counter box. */
    var bombCount: int
    /** Whether face-down bombs are drawn as bombs. */
    var revealed: bool
    /** Whether the bomb brush (rather than the normal brush) is active. */
    var bombBrush: bool
    var grid: Grid
    /** The cells already toggled during the current drag gesture. */
    var toggledDuringDrag: set<(int, int)>

    /** The grid has the declared dimensions. */
    ghost predicate Shaped()
      reads this
    {
      WellFormed(grid, cols, rows)
    }

    /** The editor's invariant: every bomb is face-down and the counter equals the number of bombs. */
    ghost predicate Valid()
      reads this
    {
      Shaped() && BombsHidden(grid) && bombCount == BombTotal(grid)
    }

    /** The part of the state a drag gesture acts on. */
    ghost function DragView(): DragState
      reads this
    {
      DragState(grid, bombCount, toggledDuringDrag)
    }

    /** The state after the script loads: a 20 by 40 empty grid, bombs revealed, normal brush. */
    constructor ()
      ensures Valid()
      ensures cols == 20 && rows == 40 && grid == EmptyGrid(20, 40) && bombCount == 0
      ensures revealed && !bombBrush && toggledDuringDrag == {}
    {
      cols, rows := 20, 40;
      revealed, bombBrush := true, false;
      grid := [];
      toggledDuringDrag := {};
      new;
      CalculateLayout(cols, rows);
    }

    /** Replaces the grid by `rows` rows of `cols` empty cells. The counter is left alone. */
    method InitGrid()
      modifies this`grid
      ensures grid == EmptyGrid(cols, rows)
    {
      grid := [];
      for y := 0 to rows
        invariant WellFormed(grid, cols, y)
        invariant forall j, i :: 0 <= j < y && 0 <= i < cols ==> grid[j][i] == EmptyCell
      {
        var row: seq<Cell> := [];
        for x := 0 to cols
          invariant |row| == x
          invariant forall i :: 0 <= i < x ==> row[i] == EmptyCell
        {
          row := row + [Cell(Empty, false)];
        }
        grid := grid + [row];
      }
      ghost var e := EmptyGrid(cols, rows);
      assert forall j :: 0 <= j < rows ==> grid[j] == e[j];
    }

    /** Sets the dimensions, zeroes the counter and resets the grid. The pixel layout that the
        same routine derives from the dimensions is not part of this model. */
    method CalculateLayout(newCols: nat, newRows: nat)
      modifies this`cols, this`rows, this`bombCount, this`grid
      ensures cols == newCols && rows == newRows
      ensures grid == EmptyGrid(newCols, newRows) && bombCount == 0
      ensures Valid()
    {
      cols := newCols;
      rows := newRows;
      bombCount := 0;
      InitGrid();
    }

    /** The `'c'` command: an empty grid of the current size and a zero counter. */
    method Clear()
      modifies this`grid, this`bombCount
      ensures grid == EmptyGrid(cols, rows) && bombCount == 0
      ensures Valid()
    {
      grid := [];
      InitGrid();
      bombCount := 0;
    }

    /** The number matrix: `rows` rows of `cols` entries, each the number of its cell. */
    method ComputeNumbers() returns (numbers: seq<seq<int>>)
      requires Shaped()
      ensures |numbers| == rows
      ensures forall y :: 0 <= y < rows ==>
        |numbers[y]| == cols &&
        forall x :: 0 <= x < cols ==> numbers[y][x] == CellNumber(grid, cols, rows, x, y)
    {
      numbers := [];
      for y := 0 to rows
        invariant |numbers| == y
        invariant forall j :: 0 <= j < y ==>
          |numbers[j]| == cols &&
          forall i :: 0 <= i < cols ==> numbers[j][i] == CellNumber(grid, cols, rows, i, j)
      {
        var row: seq<int> := [];
        for x := 0 to cols
          invariant |row| == x
          invariant forall i :: 0 <= i < x ==> row[i] == CellNumber(grid, cols, rows, i, y)
        {
          var n := 0;
          if grid[y][x].state != Hidden {
            n := CountAround(x, y);
          }
          row := row + [n];
        }
        numbers := numbers + [row];
      }
    }

    /** The inner loops of the number computation: the bombs among the on-grid Moore
        neighbours of `(x, y)`, visited row by row. */
    method CountAround(x: int, y: int) returns (n: int)
      requires Shaped()
      ensures n == CountOver(grid, cols, rows, x, y, Offsets)
    {
      var g, w, h := grid, cols, rows;
      n := 0;
      for dy := -1 to 2
        invariant n == CountOver(g, w, h, x, y, Offsets[..Visited(dy, -1)])
      {
        for dx := -1 to 2
          invariant n == CountOver(g, w, h, x, y, Offsets[..Visited(dy, dx)])
        {
          if dx == 0 && dy == 0 {
            continue;
          }
          OffsetVisited(dy, dx);
          CountOverStep(g, w, h, x, y, Visited(dy, dx));
          var nx := x + dx;
          var ny := y + dy;
          if nx >= 0 && nx < w && ny >= 0 && ny < h {
            if g[ny][nx].isBomb {
              n := n + 1;
            }
          }
        }
      }
      assert Offsets[..8] == Offsets;
    }

    /** How many Moore offsets the counting loops have visited when they reach `(dx, dy)`. */
    static function Visited(dy: int, dx: int): nat
      requires -1 <= dy <= 2 && -1 <= dx <= 2
    {
      (dy + 1) + (dy + 1) + (dy + 1) + (dx + 1) - if dy > 0 || (dy == 0 && dx > 0) then 1 else 0
    }

    /** The offset the loops reach at `(dx, dy)` is the next one of `Offsets`. */
    static lemma OffsetVisited(dy: int, dx: int)
      requires -1 <= dy <= 1 && -1 <= dx <= 1 && !(dx == 0 && dy == 0)
      ensures Visited(dy, dx) < |Offsets| && Offsets[Visited(dy, dx)] == (dx, dy)
      ensures Visited(dy, dx + 1) == Visited(dy, dx) + 1
    {
    }

    /** A pointer press starts a new gesture and draws at the pressed cell. */
    method MousePressed(x: int, y: int, draw: bool)
      requires Shaped()
      modifies this`grid, this`bombCount, this`toggledDuringDrag
      ensures Shaped()
      ensures DragView() == Draw(old(DragView()).(toggled := {}), cols, rows, bombBrush, Event(x, y, draw))
      ensures old(Valid()) ==> Valid()
    {
      toggledDuringDrag := {};
      HandleDraw(x, y, draw);
    }

    /** A pointer move with the button down draws at the cell under the pointer. */
    method MouseDragged(x: int, y: int, draw: bool)
      requires Shaped()
      modifies this`grid, this`bombCount, this`toggledDuringDrag
      ensures Shaped()
      ensures DragView() == Draw(old(DragView()), cols, rows, bombBrush, Event(x, y, draw))
      ensures old(Valid()) ==> Valid()
    {
      HandleDraw(x, y, draw);
    }

    /** Releasing the pointer ends the gesture. */
    method MouseReleased()
      modifies this`toggledDuringDrag
      ensures toggledDuringDrag == {}
    {
      toggledDuringDrag := {};
    }

    /** Applies the active brush to cell `(x, y)` unless it is off the grid or was already
        toggled in this gesture; `draw` is the outcome of the random draw the normal brush
        makes when it turns a bomb-free cell face-down. */
    method HandleDraw(x: int, y: int, draw: bool)
      requires Shaped()
      modifies this`grid, this`bombCount, this`toggledDuringDrag
      ensures Shaped()
      ensures DragView() == Draw(old(DragView()), cols, rows, bombBrush, Event(x, y, draw))
      ensures !InBounds(cols, rows, x, y) || (x, y) in old(toggledDuringDrag) ==>
        grid == old(grid) && bombCount == old(bombCount) && toggledDuringDrag == old(toggledDuringDrag)
      ensures InBounds(cols, rows, x, y) && (x, y) !in old(toggledDuringDrag) ==>
        && toggledDuringDrag == old(toggledDuringDrag) + {(x, y)}
        && grid == SetCell(old(grid), x, y, Brush(old(grid)[y][x], bombBrush, draw))
        && bombCount == old(bombCount) + Bit(grid[y][x].isBomb) - Bit(old(grid)[y][x].isBomb)
      ensures old(Valid()) ==> Valid()
    {
      ghost var before := DragView();
      if x >= 0 && x < cols && y >= 0 && y < rows {
        var key := (x, y);
        if key !in toggledDuringDrag {
          toggledDuringDrag := toggledDuringDrag + {key};
          var cell, delta := Stroke(grid[y][x], draw);
          bombCount := bombCount + delta;
          grid := SetCell(grid, x, y, cell);
        }
      }
      assert DragView() == Draw(before, cols, rows, bombBrush, Event(x, y, draw));
    }

    /** The brush branches of `handleDraw` applied to `cell`, with the change they make to the
        bomb counter: the stroke's new cell and the counter's step agree with its bomb flag. */
    method Stroke(cell: Cell, draw: bool) returns (r: Cell, delta: int)
      ensures r == Brush(cell, bombBrush, draw)
      ensures delta == Bit(r.isBomb) - Bit(cell.isBomb)
      ensures r.isBomb ==> r.state == Hidden
    {
      r := cell;
      delta := 0;
      if bombBrush {
        if r.isBomb {
          r := r.(isBomb := false, state := Empty);
          delta := -1;
        } else {
          r := r.(state := Hidden, isBomb := true);
          delta := 1;
        }
      } else {
        if r.state == Hidden {
          r := r.(state := Empty);
          if r.isBomb {
            r := r.(isBomb := false);
            delta := -1;
          }
        } else {
          r := r.(state := Hidden);
          if !r.isBomb && draw {
            r := r.(isBomb := true);
            delta := 1;
          }
        }
      }
    }

    /** Redraws every face-down cell's bomb flag from `coin`, clears it on every face-up cell
        and recounts the bombs. */
    method RerollBombs(coin: (int, int) -> bool)
      requires Shaped()
      modifies this`grid, this`bombCount
      ensures Rerolled(old(grid), grid, cols, rows, coin)
      ensures Valid()
    {
      ghost var g0 := grid;
      bombCount := 0;
      for y := 0 to rows
        invariant WellFormed(grid, cols, rows)
        invariant forall j :: 0 <= j < y ==> grid[j] == RerolledRow(g0[j], j, coin)
        invariant forall j :: y <= j < rows ==> grid[j] == g0[j]
        invariant bombCount == BombTotal(grid[..y])
      {
        ghost var before := grid;
        RerollRow(y, coin);
        assert grid[..y] == before[..y];
        BombTotalPrefix(grid, y);
      }
      assert grid[..rows] == grid;
      RerolledRows(g0, grid, cols, rows, coin);
    }

    /** The inner loop of the reroll over row `y`: rerolls its cells left to right and adds
        the bombs it draws to the counter. */
    method RerollRow(y: int, coin: (int, int) -> bool)
      requires Shaped() && 0 <= y < rows
      modifies this`grid, this`bombCount
      ensures grid == old(grid)[y := RerolledRow(old(grid)[y], y, coin)]
      ensures bombCount == old(bombCount) + RowBombs(grid[y])
    {
      ghost var r0 := grid[y];
      ghost var count0 := bombCount;
      for x := 0 to cols
        invariant |grid| == |old(grid)| && grid == old(grid)[y := grid[y]] && |grid[y]| == cols
        invariant grid[y][..x] == RerolledRow(r0, y, coin)[..x]
        invariant grid[y][x..] == r0[x..]
        invariant bombCount == count0 + RowBombs(grid[y][..x])
      {
        ghost var before := grid[y];
        var cell := grid[y][x];
        if cell.state == Hidden {
          cell := cell.(isBomb := coin(x, y));
          if cell.isBomb {
            bombCount := bombCount + 1;
          }
        } else {
          cell := cell.(isBomb := false);
        }
        grid := SetCell(grid, x, y, cell);
        RerollStep(before, grid[y], r0, y, x, coin);
        RowBombsPrefix(grid[y], x);
      }
      assert grid[y][..cols] == grid[y];
      assert RerolledRow(r0, y, coin)[..cols] == RerolledRow(r0, y, coin);
    }

    /** The document that saving writes: the dimensions, the bomb cells and the face-down
        cells that are not bombs, scanned row by row. */
    method SaveDrawing() returns (doc: Document)
      requires Shaped()
      ensures doc == SavedDocument(grid, cols, rows)
    {
      var bombs: seq<Coord> := [];
      var hidden: seq<Coord> := [];
      for y := 0 to rows
        invariant bombs == CollectRows(grid, y, SavedAsBomb)
        invariant hidden == CollectRows(grid, y, SavedAsHidden)
      {
        for x := 0 to cols
          invariant bombs == CollectRows(grid, y, SavedAsBomb) + CollectRow(grid[y], y, x, SavedAsBomb)
          invariant hidden == CollectRows(grid, y, SavedAsHidden) + CollectRow(grid[y], y, x, SavedAsHidden)
        {
          var cell := grid[y][x];
          if cell.isBomb {
            bombs := bombs + [Coord(x, y)];
          } else if cell.state == Hidden {
            hidden := hidden + [Coord(x, y)];
          }
        }
      }
      doc := Document(cols, rows, bombs, hidden);
    }

    /** Rebuilds the grid from a document: the declared dimensions, then every `bombs` entry as
        a face-down bomb counted once per entry, then every `hidden` entry that is not a bomb as
        face-down. The counter matches the grid exactly when no bomb entry repeats. */
    method LoadDrawing(doc: Document)
      requires Loadable(doc)
      modifies this`cols, this`rows, this`bombCount, this`grid
      ensures cols == doc.cols && rows == doc.rows
      ensures grid == LoadedGrid(doc)
      ensures bombCount == |doc.bombs|
      ensures Shaped() && BombsHidden(grid)
      ensures Valid() <==> Distinct(doc.bombs)
    {
      CalculateLayout(doc.cols, doc.rows);
      ghost var reset := grid;
      bombCount := 0;
      for i := 0 to |doc.bombs|
        invariant cols == doc.cols && rows == doc.rows
        invariant grid == PlaceBombs(reset, cols, rows, doc.bombs[..i])
        invariant bombCount == i
      {
        var c := doc.bombs[i];
        var cell := grid[c.y][c.x];
        cell := cell.(isBomb := true, state := Hidden);
        bombCount := bombCount + 1;
        grid := SetCell(grid, c.x, c.y, cell);
        assert doc.bombs[..i + 1][..i] == doc.bombs[..i];
      }
      assert doc.bombs[..|doc.bombs|] == doc.bombs;
      ghost var placed := grid;
      for i := 0 to |doc.hidden|
        invariant cols == doc.cols && rows == doc.rows
        invariant grid == HideCells(placed, cols, rows, doc.hidden[..i])
        invariant bombCount == |doc.bombs|
      {
        var c := doc.hidden[i];
        var cell := grid[c.y][c.x];
        if !cell.isBomb {
          cell := cell.(state := Hidden);
          grid := SetCell(grid, c.x, c.y, cell);
        }
        assert doc.hidden[..i + 1][..i] == doc.hidden[..i];
      }
      assert doc.hidden[..|doc.hidden|] == doc.hidden;
      LoadedBombsHidden(doc);
      LoadedBombTotal(doc);
    }

    /** Saving and then loading the saved document restores every cell and the counter of
        an editor whose invariant holds. This is a client of the two operations, not a command
        of the tool. */
    method ReloadSaved()
      requires Valid()
      modifies this`cols, this`rows, this`bombCount, this`grid
      ensures cols == old(cols) && rows == old(rows)
      ensures grid == old(grid) && bombCount == old(bombCount)
      ensures Valid()
    {
      var doc := SaveDrawing();
      RoundTrip(grid, cols, rows);
      LoadDrawing(doc);
    }

    /** The key commands: `'s'` hands over the saved document (the image exports are not
        modelled), `'+'`, `'='` and `'-'` reroll the bombs, `'r'` toggles whether bombs are
        revealed, `'b'` toggles the bomb brush, `'c'` clears the drawing; any other key does
        nothing. */
    method KeyPressed(key: string, coin: (int, int) -> bool) returns (saved: Option<Document>)
      requires Shaped()
      modifies this`grid, this`bombCount, this`revealed, this`bombBrush
      ensures Shaped()
      ensures saved == if key == "s" then Some(SavedDocument(grid, cols, rows)) else None
      ensures key in {"+", "=", "-"} ==>
        Rerolled(old(grid), grid, cols, rows, coin) && Valid()
      ensures key == "c" ==> grid == EmptyGrid(cols, rows) && bombCount == 0 && Valid()
      ensures key !in {"+", "=", "-", "c"} ==> grid == old(grid) && bombCount == old(bombCount)
      ensures revealed == (if key == "r" then !old(revealed) else old(revealed))
      ensures bombBrush == (if key == "b" then !old(bombBrush) else old(bombBrush))
      ensures old(Valid()) ==> Valid()
    {
      saved := None;
      if key == "s" {
        var doc := SaveDrawing();
        saved := Some(doc);
      } else if key == "+" || key == "=" {
        RerollBombs(coin);
      } else if key == "-" {
        RerollBombs(coin);
      } else if key == "r" {
        revealed := !revealed;
      } else if key == "b" {
        bombBrush := !bombBrush;
      } else if key == "c" {
        Clear();
      }
    }
  }
}
