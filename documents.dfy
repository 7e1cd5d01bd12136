/** The saved drawing: a `{cols, rows, bombs, hidden}` document, how the grid is written to it
    and how a grid is rebuilt from it. */
module Documents {
  import opened Cells
  import opened Grids

  /** An `{x, y}` entry of the document's lists. */
  datatype Coord = Coord(x: int, y: int)

  /** The saved drawing: the dimensions, the bomb cells and the face-down cells that are not bombs. */
  datatype Document = Document(cols: nat, rows: nat, bombs: seq<Coord>, hidden: seq<Coord>)

  /** A cell written to the `bombs` list. */
  predicate SavedAsBomb(c: Cell)
  {
    c.isBomb
  }

  /** A cell written to the `hidden` list: face-down and not a bomb. */
  predicate SavedAsHidden(c: Cell)
  {
    !c.isBomb && c.state == Hidden
  }

  /** The coordinates, left to right, of the first `n` cells of row `y` that satisfy `p`. */
  function CollectRow(row: seq<Cell>, y: int, n: nat, p: Cell -> bool): seq<Coord>
    requires n <= |row|
  {
    if n == 0 then []
    else CollectRow(row, y, n - 1, p) + if p(row[n - 1]) then [Coord(n - 1, y)] else []
  }

  /** The coordinates, in row-major order, of the cells of the first `n` rows that satisfy `p`. */
  function CollectRows(g: Grid, n: nat, p: Cell -> bool): seq<Coord>
    requires n <= |g|
  {
    if n == 0 then []
    else CollectRows(g, n - 1, p) + CollectRow(g[n - 1], n - 1, |g[n - 1]|, p)
  }

  /** The document the editor saves for a grid. */
  function SavedDocument(g: Grid, cols: nat, rows: nat): Document
    requires WellFormed(g, cols, rows)
  {
    Document(cols, rows, CollectRows(g, rows, SavedAsBomb), CollectRows(g, rows, SavedAsHidden))
  }

  /** `a` comes before `b` in row-major order. */
  predicate Before(a: Coord, b: Coord)
  {
    a.y < b.y || (a.y == b.y && a.x < b.x)
  }

  /** Strictly increasing in row-major order, so no coordinate repeats. */
  predicate RowMajor(s: seq<Coord>)
  {
    forall i, j :: 0 <= i < j < |s| ==> Before(s[i], s[j])
  }

  /** No coordinate appears twice. */
  predicate Distinct(s: seq<Coord>)
  {
    forall i, j :: 0 <= i < j < |s| ==> s[i] != s[j]
  }

  /** Every entry names a cell of a `cols` by `rows` grid. */
  predicate CoordsInRange(s: seq<Coord>, cols: nat, rows: nat)
  {
    forall i :: 0 <= i < |s| ==> InBounds(cols, rows, s[i].x, s[i].y)
  }

  /** A document every entry of which names a cell of the grid it declares. */
  predicate Loadable(doc: Document)
  {
    CoordsInRange(doc.bombs, doc.cols, doc.rows) && CoordsInRange(doc.hidden, doc.cols, doc.rows)
  }

  /** The grid after the `bombs` entries, applied in order: each named cell becomes a face-down bomb. */
  function PlaceBombs(g: Grid, cols: nat, rows: nat, bs: seq<Coord>): (r: Grid)
    requires WellFormed(g, cols, rows) && CoordsInRange(bs, cols, rows)
    ensures WellFormed(r, cols, rows)
  {
    if bs == [] then g
    else
      var c := bs[|bs| - 1];
      SetCell(PlaceBombs(g, cols, rows, bs[..|bs| - 1]), c.x, c.y, Cell(Hidden, true))
  }

  /** The grid after the `hidden` entries, applied in order: each named cell that is not a
      bomb becomes face-down. */
  function HideCells(g: Grid, cols: nat, rows: nat, hs: seq<Coord>): (r: Grid)
    requires WellFormed(g, cols, rows) && CoordsInRange(hs, cols, rows)
    ensures WellFormed(r, cols, rows)
  {
    if hs == [] then g
    else
      var c := hs[|hs| - 1];
      var prev := HideCells(g, cols, rows, hs[..|hs| - 1]);
      if !prev[c.y][c.x].isBomb then SetCell(prev, c.x, c.y, prev[c.y][c.x].(state := Hidden)) else prev
  }

  /** The grid the editor rebuilds from a document: a fresh grid of the declared size, then
      the bombs, then the hidden cells. */
  function LoadedGrid(doc: Document): (r: Grid)
    requires Loadable(doc)
    ensures WellFormed(r, doc.cols, doc.rows)
  {
    HideCells(PlaceBombs(EmptyGrid(doc.cols, doc.rows), doc.cols, doc.rows, doc.bombs), doc.cols, doc.rows, doc.hidden)
  }

  // ---------------------------------------------------------------------------------------
  // Saving

  /** A row contributes exactly its cells that satisfy `p`, in increasing column order. */
  lemma {:induction false} CollectRowSpec(row: seq<Cell>, y: int, n: nat, p: Cell -> bool)
    requires n <= |row|
    ensures forall c :: c in CollectRow(row, y, n, p) <==> c.y == y && 0 <= c.x < n && p(row[c.x])
    ensures RowMajor(CollectRow(row, y, n, p))
  {
    if n > 0 {
      CollectRowSpec(row, y, n - 1, p);
      var prev := CollectRow(row, y, n - 1, p);
      var s := CollectRow(row, y, n, p);
      if p(row[n - 1]) {
        assert s == prev + [Coord(n - 1, y)];
        forall i, j | 0 <= i < j < |s| ensures Before(s[i], s[j]) {
          if j < |prev| {
            assert s[i] == prev[i] && s[j] == prev[j];
          } else {
            assert s[i] in prev;
          }
        }
      } else {
        assert s == prev;
      }
    }
  }

  /** Concatenating two row-major lists, every entry of the first before every entry of the
      second, gives a row-major list. */
  lemma RowMajorAppend(a: seq<Coord>, b: seq<Coord>)
    requires RowMajor(a) && RowMajor(b)
    requires forall u, v :: u in a && v in b ==> Before(u, v)
    ensures RowMajor(a + b)
  {
    var s := a + b;
    forall i, j | 0 <= i < j < |s| ensures Before(s[i], s[j]) {
      if j < |a| {
        assert s[i] == a[i] && s[j] == a[j];
      } else if i >= |a| {
        assert s[i] == b[i - |a|] && s[j] == b[j - |a|];
      } else {
        assert s[i] in a && s[j] in b;
      }
    }
  }

  /** The first `n` rows contribute exactly their cells that satisfy `p`, in row-major order. */
  lemma {:induction false} CollectRowsSpec(g: Grid, n: nat, p: Cell -> bool)
    requires n <= |g|
    ensures forall c :: c in CollectRows(g, n, p) <==> 0 <= c.y < n && 0 <= c.x < |g[c.y]| && p(g[c.y][c.x])
    ensures RowMajor(CollectRows(g, n, p))
  {
    if n > 0 {
      CollectRowsSpec(g, n - 1, p);
      CollectRowSpec(g[n - 1], n - 1, |g[n - 1]|, p);
      RowMajorAppend(CollectRows(g, n - 1, p), CollectRow(g[n - 1], n - 1, |g[n - 1]|, p));
    }
  }

  /** A row-major list has no repeated entry. */
  lemma RowMajorDistinct(s: seq<Coord>)
    requires RowMajor(s)
    ensures Distinct(s)
  {
    forall i, j | 0 <= i < j < |s| ensures s[i] != s[j] {
      assert Before(s[i], s[j]);
    }
  }

  /** Every entry of a list whose members are on the grid is in range. */
  lemma MembersInRange(s: seq<Coord>, cols: nat, rows: nat)
    requires forall c :: c in s ==> InBounds(cols, rows, c.x, c.y)
    ensures CoordsInRange(s, cols, rows)
  {
    forall i | 0 <= i < |s| ensures InBounds(cols, rows, s[i].x, s[i].y) {
      assert s[i] in s;
    }
  }

  /** What saving writes: `bombs` lists exactly the bomb cells and `hidden` exactly the face-down
      cells that are not bombs, each once, in row-major order, so the two lists are disjoint and
      the document can be loaded. */
  lemma SavedDocumentSpec(g: Grid, cols: nat, rows: nat)
    requires WellFormed(g, cols, rows)
    ensures var doc := SavedDocument(g, cols, rows);
      && doc.cols == cols && doc.rows == rows
      && (forall c :: c in doc.bombs <==> InBounds(cols, rows, c.x, c.y) && g[c.y][c.x].isBomb)
      && (forall c :: c in doc.hidden <==>
            InBounds(cols, rows, c.x, c.y) && !g[c.y][c.x].isBomb && g[c.y][c.x].state == Hidden)
      && (forall c :: !(c in doc.bombs && c in doc.hidden))
      && RowMajor(doc.bombs) && RowMajor(doc.hidden)
      && Distinct(doc.bombs) && Distinct(doc.hidden)
      && Loadable(doc)
  {
    var doc := SavedDocument(g, cols, rows);
    CollectRowsSpec(g, rows, SavedAsBomb);
    CollectRowsSpec(g, rows, SavedAsHidden);
    RowMajorDistinct(doc.bombs);
    RowMajorDistinct(doc.hidden);
    MembersInRange(doc.bombs, cols, rows);
    MembersInRange(doc.hidden, cols, rows);
  }

  /** The `bombs` list of the first `n` rows is as long as those rows hold bombs. */
  lemma {:induction false} CollectRowBombCount(row: seq<Cell>, y: int, n: nat)
    requires n <= |row|
    ensures |CollectRow(row, y, n, SavedAsBomb)| == RowBombs(row[..n])
  {
    if n > 0 {
      CollectRowBombCount(row, y, n - 1);
      RowBombsPrefix(row, n - 1);
    }
  }

  /** The `bombs` list of the first `n` rows has one entry per bomb in those rows. */
  lemma {:induction false} CollectRowsBombCount(g: Grid, n: nat)
    requires n <= |g|
    ensures |CollectRows(g, n, SavedAsBomb)| == BombTotal(g[..n])
  {
    if n > 0 {
      CollectRowsBombCount(g, n - 1);
      CollectRowBombCount(g[n - 1], n - 1, |g[n - 1]|);
      assert g[n - 1][..|g[n - 1]|] == g[n - 1];
      BombTotalPrefix(g, n - 1);
    }
  }

  /** The saved `bombs` list has exactly as many entries as the grid has bombs. */
  lemma SavedBombCount(g: Grid, cols: nat, rows: nat)
    requires WellFormed(g, cols, rows)
    ensures |SavedDocument(g, cols, rows).bombs| == BombTotal(g)
  {
    CollectRowsBombCount(g, rows);
    assert g[..rows] == g;
  }

  // ---------------------------------------------------------------------------------------
  // Loading

  /** After the bomb entries, a cell is a face-down bomb exactly when some entry names it;
      every other cell is as it was. */
  lemma {:induction false} PlaceBombsAt(g: Grid, cols: nat, rows: nat, bs: seq<Coord>, x: int, y: int)
    requires WellFormed(g, cols, rows) && CoordsInRange(bs, cols, rows) && InBounds(cols, rows, x, y)
    ensures PlaceBombs(g, cols, rows, bs)[y][x] == if Coord(x, y) in bs then Cell(Hidden, true) else g[y][x]
  {
    if bs != [] {
      var n := |bs| - 1;
      PlaceBombsAt(g, cols, rows, bs[..n], x, y);
      assert bs == bs[..n] + [bs[n]];
    }
  }

  /** After the hidden entries, a cell named by some entry that is not a bomb is face-down;
      every other cell is as it was. */
  lemma {:induction false} HideCellsAt(g: Grid, cols: nat, rows: nat, hs: seq<Coord>, x: int, y: int)
    requires WellFormed(g, cols, rows) && CoordsInRange(hs, cols, rows) && InBounds(cols, rows, x, y)
    ensures HideCells(g, cols, rows, hs)[y][x]
         == if Coord(x, y) in hs && !g[y][x].isBomb then g[y][x].(state := Hidden) else g[y][x]
  {
    if hs != [] {
      var n := |hs| - 1;
      HideCellsAt(g, cols, rows, hs[..n], x, y);
      assert hs == hs[..n] + [hs[n]];
      var c := hs[n];
      HideCellsAt(g, cols, rows, hs[..n], c.x, c.y);
    }
  }

  /** Each cell of a loaded grid: a face-down bomb when `bombs` names it, otherwise face-down
      when `hidden` names it, otherwise empty. */
  lemma LoadedGridAt(doc: Document, x: int, y: int)
    requires Loadable(doc) && InBounds(doc.cols, doc.rows, x, y)
    ensures LoadedGrid(doc)[y][x] ==
      if Coord(x, y) in doc.bombs then Cell(Hidden, true)
      else if Coord(x, y) in doc.hidden then Cell(Hidden, false)
      else EmptyCell
  {
    var e := EmptyGrid(doc.cols, doc.rows);
    PlaceBombsAt(e, doc.cols, doc.rows, doc.bombs, x, y);
    HideCellsAt(PlaceBombs(e, doc.cols, doc.rows, doc.bombs), doc.cols, doc.rows, doc.hidden, x, y);
  }

  /** In a loaded grid every bomb is face-down. */
  lemma LoadedBombsHidden(doc: Document)
    requires Loadable(doc)
    ensures BombsHidden(LoadedGrid(doc))
  {
    var g: Grid := LoadedGrid(doc);
    forall y, x | 0 <= y < |g| && 0 <= x < |g[y]| && g[y][x].isBomb ensures g[y][x].state == Hidden {
      LoadedGridAt(doc, x, y);
    }
  }

  /** Hiding cells never changes the bomb total. */
  lemma {:induction false} HideCellsTotal(g: Grid, cols: nat, rows: nat, hs: seq<Coord>)
    requires WellFormed(g, cols, rows) && CoordsInRange(hs, cols, rows)
    ensures BombTotal(HideCells(g, cols, rows, hs)) == BombTotal(g)
  {
    if hs != [] {
      var n := |hs| - 1;
      var c := hs[n];
      HideCellsTotal(g, cols, rows, hs[..n]);
      var prev: Grid := HideCells(g, cols, rows, hs[..n]);
      BombTotalSet(prev, c.x, c.y, prev[c.y][c.x].(state := Hidden));
    }
  }

  /** Appending an entry keeps a list free of repeats exactly when the entry is new. */
  lemma DistinctSnoc(init: seq<Coord>, c: Coord)
    ensures Distinct(init + [c]) <==> Distinct(init) && c !in init
  {
    var s := init + [c];
    if c in init {
      var i :| 0 <= i < |init| && init[i] == c;
      assert s[i] == s[|init|];
    } else if Distinct(init) {
      forall i, j | 0 <= i < j < |s| ensures s[i] != s[j] {
        if j < |init| {
          assert s[i] == init[i] && s[j] == init[j];
        } else {
          assert s[i] in init;
        }
      }
    }
    if Distinct(s) {
      forall i, j | 0 <= i < j < |init| ensures init[i] != init[j] {
        assert init[i] == s[i] && init[j] == s[j];
      }
    }
  }

  /** Starting from a bomb-free grid, the bomb entries produce at most one bomb per entry, and
      exactly one per entry when no coordinate repeats. */
  lemma {:induction false} PlaceBombsTotal(g: Grid, cols: nat, rows: nat, bs: seq<Coord>)
    requires WellFormed(g, cols, rows) && CoordsInRange(bs, cols, rows) && NoBombs(g)
    ensures BombTotal(PlaceBombs(g, cols, rows, bs)) <= |bs|
    ensures BombTotal(PlaceBombs(g, cols, rows, bs)) == |bs| <==> Distinct(bs)
  {
    if bs != [] {
      var n := |bs| - 1;
      var init, c := bs[..n], bs[n];
      PlaceBombsTotal(g, cols, rows, init);
      var prev := PlaceBombs(g, cols, rows, init);
      BombTotalSet(prev, c.x, c.y, Cell(Hidden, true));
      PlaceBombsAt(g, cols, rows, init, c.x, c.y);
      assert Coord(c.x, c.y) == c;
      assert !g[c.y][c.x].isBomb;
      assert bs == init + [c];
      DistinctSnoc(init, c);
      assert PlaceBombs(g, cols, rows, bs) == SetCell(prev, c.x, c.y, Cell(Hidden, true));
      if c in init {
        assert prev[c.y][c.x].isBomb;
      } else {
        assert !prev[c.y][c.x].isBomb;
      }
    } else {
      NoBombsIffZero(g);
    }
  }

  /** A loaded grid holds one bomb per `bombs` entry exactly when no entry repeats; a repeated
      entry leaves fewer bombs than entries. */
  lemma LoadedBombTotal(doc: Document)
    requires Loadable(doc)
    ensures BombTotal(LoadedGrid(doc)) <= |doc.bombs|
    ensures BombTotal(LoadedGrid(doc)) == |doc.bombs| <==> Distinct(doc.bombs)
  {
    var e := EmptyGrid(doc.cols, doc.rows);
    NoBombsIffZero(e);
    PlaceBombsTotal(e, doc.cols, doc.rows, doc.bombs);
    HideCellsTotal(PlaceBombs(e, doc.cols, doc.rows, doc.bombs), doc.cols, doc.rows, doc.hidden);
  }

  // ---------------------------------------------------------------------------------------
  // Round trip

  /** Loading the saved document of a grid whose bombs are all face-down gives back the same
      grid, and the saved bomb list is as long as the grid has bombs. */
  lemma RoundTrip(g: Grid, cols: nat, rows: nat)
    requires WellFormed(g, cols, rows) && BombsHidden(g)
    ensures var doc := SavedDocument(g, cols, rows);
      && Loadable(doc) && Distinct(doc.bombs)
      && LoadedGrid(doc) == g
      && |doc.bombs| == BombTotal(g)
  {
    var doc := SavedDocument(g, cols, rows);
    SavedDocumentSpec(g, cols, rows);
    SavedBombCount(g, cols, rows);
    var h := LoadedGrid(doc);
    forall y | 0 <= y < rows ensures h[y] == g[y] {
      forall x | 0 <= x < cols ensures h[y][x] == g[y][x] {
        LoadedGridAt(doc, x, y);
      }
    }
  }
}
