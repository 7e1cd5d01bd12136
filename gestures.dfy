/** What a drag gesture does to the grid, the bomb counter and the set of cells already
    toggled during the gesture: one brush stroke per cell, however often the pointer passes. */
module Gestures {
  import opened Cells
  import opened Grids

  /** One pointer event that reaches the drawing code: the integer cell coordinates under the
      pointer and the outcome `draw` of the random draw the normal brush may make. */
  datatype Event = Event(x: int, y: int, draw: bool)

  /** The part of the editor's state a drag changes. */
  datatype DragState = DragState(grid: Grid, bombCount: int, toggled: set<(int, int)>)

  /** One event: a cell on the grid that has not been toggled in this gesture is recorded and
      brushed, and the counter moves by the change in its bomb flag; anything else is ignored. */
  function Draw(s: DragState, cols: nat, rows: nat, bombBrush: bool, e: Event): (r: DragState)
    requires WellFormed(s.grid, cols, rows)
    ensures WellFormed(r.grid, cols, rows)
    ensures r.bombCount - BombTotal(r.grid) == s.bombCount - BombTotal(s.grid)
    ensures BombsHidden(s.grid) ==> BombsHidden(r.grid)
    ensures s.toggled <= r.toggled
  {
    if InBounds(cols, rows, e.x, e.y) && (e.x, e.y) !in s.toggled then
      var c := s.grid[e.y][e.x];
      var c' := Brush(c, bombBrush, e.draw);
      BombTotalSet(s.grid, e.x, e.y, c');
      DragState(SetCell(s.grid, e.x, e.y, c'), s.bombCount + Bit(c'.isBomb) - Bit(c.isBomb), s.toggled + {(e.x, e.y)})
    else
      s
  }

  /** A sequence of events applied in order. */
  function Gesture(s: DragState, cols: nat, rows: nat, bombBrush: bool, es: seq<Event>): (r: DragState)
    requires WellFormed(s.grid, cols, rows)
    ensures WellFormed(r.grid, cols, rows)
    ensures r.bombCount - BombTotal(r.grid) == s.bombCount - BombTotal(s.grid)
    ensures BombsHidden(s.grid) ==> BombsHidden(r.grid)
    ensures s.toggled <= r.toggled
    decreases |es|
  {
    if es == [] then s
    else Gesture(Draw(s, cols, rows, bombBrush, es[0]), cols, rows, bombBrush, es[1..])
  }

  /** Some event of `es` falls on `(x, y)`. */
  predicate Touches(es: seq<Event>, x: int, y: int)
  {
    es != [] && ((es[0].x == x && es[0].y == y) || Touches(es[1..], x, y))
  }

  /** The random draw of the first event of `es` that falls on `(x, y)`. */
  function FirstDraw(es: seq<Event>, x: int, y: int): bool
    requires Touches(es, x, y)
  {
    if es[0].x == x && es[0].y == y then es[0].draw else FirstDraw(es[1..], x, y)
  }

  /** A second event on the same cell in the same gesture changes nothing. */
  lemma DrawTwice(s: DragState, cols: nat, rows: nat, bombBrush: bool, e1: Event, e2: Event)
    requires WellFormed(s.grid, cols, rows)
    requires e1.x == e2.x && e1.y == e2.y
    ensures var s1 := Draw(s, cols, rows, bombBrush, e1);
      Draw(s1, cols, rows, bombBrush, e2) == s1
  {
  }

  /** Each cell is brushed at most once per gesture: a cell already toggled before the events,
      or touched by none of them, keeps its value; any other cell is brushed exactly once, with
      the draw of the first event that falls on it. The cell is recorded as toggled exactly
      when it was already or some event touches it. */
  lemma {:induction false} GestureAtMostOnce(s: DragState, cols: nat, rows: nat, bombBrush: bool, es: seq<Event>, x: int, y: int)
    requires WellFormed(s.grid, cols, rows) && InBounds(cols, rows, x, y)
    ensures var r := Gesture(s, cols, rows, bombBrush, es);
      && r.grid[y][x] == (if (x, y) in s.toggled || !Touches(es, x, y) then s.grid[y][x]
                          else Brush(s.grid[y][x], bombBrush, FirstDraw(es, x, y)))
      && ((x, y) in r.toggled <==> (x, y) in s.toggled || Touches(es, x, y))
    decreases |es|
  {
    if es != [] {
      var s1 := Draw(s, cols, rows, bombBrush, es[0]);
      GestureAtMostOnce(s1, cols, rows, bombBrush, es[1..], x, y);
    }
  }

  /** A gesture started by a press begins with an empty toggled set, so every cell it touches
      is brushed exactly once and every other cell is left alone. */
  lemma PressedGesture(s: DragState, cols: nat, rows: nat, bombBrush: bool, es: seq<Event>, x: int, y: int)
    requires WellFormed(s.grid, cols, rows) && InBounds(cols, rows, x, y)
    ensures var r := Gesture(s.(toggled := {}), cols, rows, bombBrush, es);
      && r.grid[y][x] == (if Touches(es, x, y) then Brush(s.grid[y][x], bombBrush, FirstDraw(es, x, y))
                          else s.grid[y][x])
      && ((x, y) in r.toggled <==> Touches(es, x, y))
  {
    GestureAtMostOnce(s.(toggled := {}), cols, rows, bombBrush, es, x, y);
  }
}
