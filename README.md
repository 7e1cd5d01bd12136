# Minesweeper drawing tool: grid editor model

This project models the grid editor in `sketch.js` of the minesweeper drawing tool and proves properties about it. The tool is a p5.js sketch that draws a minesweeper-style picture. The user paints cells face-down ("hidden") or face-up ("empty") by dragging the pointer. Face-down cells may carry a bomb. Face-up cells show how many bombs touch them, and the drawing can be saved to and loaded from a `{cols, rows, bombs, hidden}` JSON document.

The model covers the state the sketch keeps in module-level variables:

- the `rows × cols` grid of `{state, isBomb}` cells;
- the cached bomb counter;
- the set of cells already toggled during the current drag;
- the bomb-brush and reveal flags.

It also covers every operation that changes or reads that state. These are the reset in `initGrid`/`calculateLayout`, the brush logic of `handleDraw` with the gesture bookkeeping of the mouse handlers, `rerollBombs`, `computeNumbers`, `saveDrawing`, `loadDrawing`, the key commands, and the per-cell tile choice in `drawGrid`.

Layout of the Dafny files:

- `cells.dfy` (module `Cells`): a cell, and the effect of one brush stroke on it (`Brush`).
- `grids.dfy` (module `Grids`): the grid as a value, the reset grid, and the number of bombs (`BombTotal`) with its update lemmas.
- `neighbours.dfy` (module `Neighbours`): the minesweeper numbers. They are specified twice: as a count over the eight Moore offsets in loop order, and as the size of the set of neighbouring bomb cells. A lemma shows the two agree.
- `documents.dfy` (module `Documents`): the saved document, what saving writes, how loading rebuilds the grid, and the save/load round trip.
- `gestures.dfy` (module `Gestures`): what one pointer event and a whole drag do. This module proves that each cell is brushed at most once per gesture.
- `tiles.dfy` (module `Tiles`): the four-way tile choice made when drawing a cell.
- `editor.dfy` (module `Editor`): class `Sketch`. It holds the tool's global state as fields, and its methods follow the source's loops and branches. Each method is proved against the specification functions above.

The class invariant `Sketch.Valid()` has three parts:

- the grid has the declared `rows × cols` shape;
- every bomb is face-down;
- the counter equals the number of bomb cells.

Every operation that changes the grid either re-establishes the invariant or preserves it. The one exception is loading: it re-establishes the invariant exactly when the document lists no bomb coordinate twice.

Randomness is replaced by oracle arguments:

- `HandleDraw` takes `draw: bool`, the outcome of `random() < bombChance`.
- `RerollBombs` takes `coin: (int, int) -> bool`, which gives the outcome of the draw for cell `(x, y)`.

## Model

| member | source | states |
|---|---|---|
| `Cells.Brush` | sketch.js:226-252 | The bomb brush flips `isBomb`, and the cell ends face-down exactly when it ends a bomb. The normal brush flips `state`. After a normal stroke the cell is a bomb exactly when it was face-up and was already a bomb or the draw succeeded. After either brush, a bomb is face-down. |
| `Grids.EmptyGrid` | sketch.js:50-59 | The reset grid has `rows` rows of `cols` cells, every cell is empty and bomb-free, and its bomb total is 0. |
| `Grids.BombTotalSet` | sketch.js:229-250 | Replacing one cell changes the bomb total by the new bomb flag minus the old one. This is the bookkeeping behind each `++`/`--` of the counter. |
| `Grids.NoBombsIffZero` | sketch.js:71 | A bomb total of 0 holds exactly when no cell is a bomb. So a zeroed counter is consistent only with a bomb-free grid. |
| `Neighbours.CellNumber` | sketch.js:180-202 | A cell's number is between 0 and 8. It is 0 on a face-down cell. On a face-up cell it is the size of the set of on-grid bomb cells among the eight neighbours, the cell itself excluded. |
| `Neighbours.CountIsNeighbourBombs` | sketch.js:187-197 | Counting bombs over the eight Moore offsets, in the loop's order and with the bounds test, gives the size of the neighbouring bomb set. |
| `Neighbours.CornerBombExample` | sketch.js:180-202 | On a 3×3 grid with one bomb at (0,0), cells (1,1) and (0,1) show 1 and cell (2,2) shows 0. |
| `Documents.SavedDocumentSpec` | sketch.js:276-290 | The saved `bombs` list is exactly the bomb cells. The `hidden` list is exactly the face-down cells that are not bombs. Both are in strict row-major order, so neither repeats a coordinate, the two are disjoint, and every entry is in range. |
| `Documents.SavedBombCount` | sketch.js:284-290 | The saved `bombs` list has as many entries as the grid has bombs. |
| `Documents.LoadedGridAt` | sketch.js:297-315 | In the loaded grid, a cell is a face-down bomb if `bombs` names it. Otherwise it is a face-down non-bomb if `hidden` names it. Otherwise it is empty and bomb-free. |
| `Documents.LoadedBombsHidden` | sketch.js:302-315 | Every bomb of a loaded grid is face-down. |
| `Documents.LoadedBombTotal` | sketch.js:301-307 | A loaded grid has at most one bomb per `bombs` entry. It has exactly one per entry if and only if no entry repeats, so a repeated entry makes the counter larger than the number of bombs. |
| `Documents.RoundTrip` | sketch.js:276-315 | For a grid whose bombs are all face-down, the saved document is loadable and has no repeated bomb entry. Loading it gives back the same grid, and its bomb list is as long as the grid has bombs. |
| `Gestures.Draw` | sketch.js:217-257 | One event keeps the grid's shape. It keeps the difference between the counter and the bomb total, and it keeps "bombs are face-down". The toggled set only grows. |
| `Gestures.Gesture` | sketch.js:204-215 | A whole drag keeps the grid's shape, the difference between the counter and the bomb total, and "bombs are face-down". The toggled set only grows. |
| `Gestures.DrawTwice` | sketch.js:220-223 | A second event on the same cell within a gesture changes nothing. |
| `Gestures.GestureAtMostOnce` | sketch.js:204-257 | A cell that was already toggled, or that no event touches, keeps its value. Any other cell is brushed exactly once, with the draw of the first event on it. A cell ends up in the toggled set exactly when it was toggled already or some event touches it. |
| `Gestures.PressedGesture` | sketch.js:208-215 | A gesture that starts with a press (empty toggled set) brushes exactly the touched cells, each once, and leaves the others alone. |
| `Tiles.TileFor` | sketch.js:112-137 | A face-down cell gets the bomb glyph exactly when it is a bomb and bombs are revealed, and the face-down tile otherwise. A face-up cell shows its number exactly when the number is positive. |
| `Tiles.GridTile` | sketch.js:106-137 | On a grid whose bombs are face-down, a number tile shows 1 to 8 and is never a bomb. A bomb is drawn as the glyph when bombs are revealed and face-down otherwise. With bombs not revealed, no glyph is drawn. |
| `Editor.Sketch.constructor` | sketch.js:1-31 | Initial state: a 20×40 empty grid, counter 0, bombs revealed, normal brush, no toggled cells. The invariant holds. |
| `Editor.Sketch.InitGrid` | sketch.js:50-59 | The grid becomes the `rows × cols` empty grid. |
| `Editor.Sketch.CalculateLayout` | sketch.js:61-73 | Sets the dimensions, zeroes the counter, resets the grid, and establishes the invariant. |
| `Editor.Sketch.Clear` | sketch.js:346-351 | The `'c'` command: an empty grid of the current size, counter 0, and the invariant holds. |
| `Editor.Sketch.ComputeNumbers` | sketch.js:180-202 | Returns a `rows × cols` matrix whose entries are the cells' numbers (`CellNumber`). |
| `Editor.Sketch.CountAround` | sketch.js:187-198 | The dy/dx loops with the self-skip and bounds test count the bombs over the eight Moore offsets. |
| `Editor.Sketch.MousePressed` | sketch.js:208-211 | Empties the toggled set, then applies one event. The invariant is preserved. |
| `Editor.Sketch.MouseDragged` | sketch.js:204-206 | Applies one event. The invariant is preserved. |
| `Editor.Sketch.MouseReleased` | sketch.js:213-215 | Empties the toggled set. |
| `Editor.Sketch.Stroke` | sketch.js:226-252 | The brush branches give the cell `Brush` describes, and the counter step they make is the change in the cell's bomb flag. A bomb that results is face-down. |
| `Editor.Sketch.HandleDraw` | sketch.js:217-258 | For an off-grid or already-toggled cell, nothing changes. Otherwise the key is added, only that cell changes (to its `Brush` value), and the counter moves by the change in its bomb flag. The result equals `Gestures.Draw`, and the invariant is preserved. |
| `Editor.Sketch.RerollBombs` | sketch.js:260-274 | No cell's `state` changes. A face-down cell's bomb flag becomes its draw, and a face-up cell becomes bomb-free. Afterwards the invariant holds: the counter equals the bomb total. |
| `Editor.Sketch.RerollRow` | sketch.js:263-271 | One row of the reroll: the row is replaced by its rerolled value, and the counter grows by that row's bombs. |
| `Editor.Sketch.SaveDrawing` | sketch.js:276-290 | Returns exactly `SavedDocument` of the current grid. Its properties are those of `Documents.SavedDocumentSpec`. |
| `Editor.Sketch.LoadDrawing` | sketch.js:297-315 | Sets the declared dimensions and makes the grid `LoadedGrid(doc)`. The counter becomes the number of `bombs` entries, and every bomb is face-down. The invariant holds if and only if no bomb entry repeats. |
| `Editor.Sketch.ReloadSaved` | sketch.js:276-315 | Saving and then loading leaves grid, counter and dimensions as they were, and the invariant holds. |
| `Editor.Sketch.KeyPressed` | sketch.js:321-353 | `'s'` returns the saved document. `'+'`, `'='` and `'-'` reroll and establish the invariant. `'r'` and `'b'` flip their flags. `'c'` clears. Every other key changes nothing, and the invariant is preserved. |

## Left out

- Drawing is not modelled. This covers every p5 call, `drawHiddenCell`, `drawBomb`, the top bar and the counter box. Only the per-cell tile choice is modelled (`Tiles.TileFor`).
- `preload` (fonts) and the canvas set-up in `setup` are not modelled. Neither are `redraw` and `resizeCanvas`.
- The drag-and-drop `FileReader`/`JSON.parse` wiring is not modelled. The file exports of the `'s'` key (SVG, PNG and `saveJSON`) are not modelled either: `KeyPressed` returns the document instead of writing it.
- The floating-point layout in `calculateLayout` is not modelled. This includes `gridWidth`, which the source computes from `rows`. The pixel-to-cell `floor` mapping in `handleDraw` is also left out: `HandleDraw` takes integer cell coordinates and keeps the source's bounds test.
- `bombChance`, its ±0.1 steps and `random()` are not modelled. The draws are oracle arguments.
- `Editor.Sketch.RerollBombs`: the draws come from a per-cell oracle, not from a stream consumed only at face-down cells in scan order. The draws are independent, so the set of reachable outcomes is the same.
- `Editor.Sketch.LoadDrawing`: requires every coordinate to be in range. On an out-of-range entry the source throws part-way through the load, and that partial state is not modelled. Repeated bomb entries are modelled as the source handles them: the counter counts each entry.
- JSON typing is not modelled. `cols` and `rows` are natural numbers and coordinates are integers; non-numeric or fractional values are outside the model.
- The drag keys are the source's `"x,y"` strings. They are modelled as integer pairs, which keeps them distinct for distinct cells.
- The unused `number: null` property of a reset cell is not modelled. The missing `isBomb` of a reset cell reads as `false`.
- `Gestures.Gesture`: the brush mode is fixed for the whole gesture, so a `'b'` press in the middle of a drag is not covered there. `HandleDraw` itself always reads the current mode.
