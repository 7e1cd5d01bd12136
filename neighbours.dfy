/** The minesweeper numbers: for each face-up cell, how many of its eight neighbours are bombs. */
module Neighbours {
  import opened Cells
  import opened Grids

  /** The eight Moore offsets `(dx, dy)`, in the order the counting loop visits them:
      `dy` outer from -1 to 1, `dx` inner from -1 to 1, the cell itself skipped. */
  const Offsets: seq<(int, int)> := [(-1, -1), (0, -1), (1, -1), (-1, 0), (1, 0), (-1, 1), (0, 1), (1, 1)]

  /** `(x, y)` lies on the grid and holds a bomb; off-grid positions hold none. */
  predicate BombAt(g: Grid, cols: nat, rows: nat, x: int, y: int)
    requires WellFormed(g, cols, rows)
  {
    InBounds(cols, rows, x, y) && g[y][x].isBomb
  }

  /** The number of offsets in `offs` that lead from `(x, y)` to a bomb. */
  function CountOver(g: Grid, cols: nat, rows: nat, x: int, y: int, offs: seq<(int, int)>): (n: nat)
    requires WellFormed(g, cols, rows)
    ensures n <= |offs|
  {
    if offs == [] then 0
    else
      var d := offs[|offs| - 1];
      CountOver(g, cols, rows, x, y, offs[..|offs| - 1]) + Bit(BombAt(g, cols, rows, x + d.0, y + d.1))
  }

  /** Counting over one more offset of `Offsets` adds that offset's bomb, if any. */
  lemma CountOverStep(g: Grid, cols: nat, rows: nat, x: int, y: int, k: nat)
    requires WellFormed(g, cols, rows) && k < |Offsets|
    ensures CountOver(g, cols, rows, x, y, Offsets[..k + 1])
         == CountOver(g, cols, rows, x, y, Offsets[..k]) + Bit(BombAt(g, cols, rows, x + Offsets[k].0, y + Offsets[k].1))
  {
    assert Offsets[..k + 1][..k] == Offsets[..k];
  }

  /** The on-grid bomb cells among the eight neighbours of `(x, y)`. */
  ghost function NeighbourBombs(g: Grid, cols: nat, rows: nat, x: int, y: int): set<(int, int)>
    requires WellFormed(g, cols, rows)
  {
    set nx, ny | x - 1 <= nx <= x + 1 && y - 1 <= ny <= y + 1 && (nx, ny) != (x, y) && BombAt(g, cols, rows, nx, ny)
      :: (nx, ny)
  }

  /** The number shown on cell `(x, y)`: 0 on a face-down cell, otherwise the count of bomb
      cells among its on-grid Moore neighbours, itself excluded. */
  function CellNumber(g: Grid, cols: nat, rows: nat, x: int, y: int): (n: nat)
    requires WellFormed(g, cols, rows) && InBounds(cols, rows, x, y)
    ensures n <= 8
    ensures g[y][x].state == Hidden ==> n == 0
    ensures g[y][x].state == Empty ==> n == |NeighbourBombs(g, cols, rows, x, y)|
  {
    if g[y][x].state == Hidden then 0
    else
      CountIsNeighbourBombs(g, cols, rows, x, y);
      CountOver(g, cols, rows, x, y, Offsets)
  }

  /** The cell reached from `(x, y)` by offset `d`. */
  function Shift(x: int, y: int, d: (int, int)): (int, int)
  {
    (x + d.0, y + d.1)
  }

  /** The bomb cells reached from `(x, y)` by the offsets in `offs`. */
  ghost function Hits(g: Grid, cols: nat, rows: nat, x: int, y: int, offs: seq<(int, int)>): set<(int, int)>
    requires WellFormed(g, cols, rows)
  {
    set d | d in offs && BombAt(g, cols, rows, x + d.0, y + d.1) :: Shift(x, y, d)
  }

  /** The last offset adds at most its own cell to the hits of the others. */
  lemma HitsSnoc(g: Grid, cols: nat, rows: nat, x: int, y: int, offs: seq<(int, int)>)
    requires WellFormed(g, cols, rows) && offs != []
    ensures var d := offs[|offs| - 1];
      Hits(g, cols, rows, x, y, offs)
      == Hits(g, cols, rows, x, y, offs[..|offs| - 1]) + if BombAt(g, cols, rows, x + d.0, y + d.1) then {Shift(x, y, d)} else {}
  {
    var init, d := offs[..|offs| - 1], offs[|offs| - 1];
    assert offs == init + [d];
    var lhs := Hits(g, cols, rows, x, y, offs);
    var rhs := Hits(g, cols, rows, x, y, init) + if BombAt(g, cols, rows, x + d.0, y + d.1) then {Shift(x, y, d)} else {};
    forall c | c in lhs ensures c in rhs {
      var e :| e in offs && BombAt(g, cols, rows, x + e.0, y + e.1) && Shift(x, y, e) == c;
      if e != d {
        assert e in init;
      }
    }
    forall c | c in rhs ensures c in lhs {
      if c in Hits(g, cols, rows, x, y, init) {
        var e :| e in init && BombAt(g, cols, rows, x + e.0, y + e.1) && Shift(x, y, e) == c;
        assert e in offs;
      } else {
        assert d in offs;
      }
    }
  }

  /** Offsets without repetition. */
  predicate DistinctOffsets(offs: seq<(int, int)>)
  {
    forall i, j :: 0 <= i < j < |offs| ==> offs[i] != offs[j]
  }

  /** Dropping the last of distinct offsets leaves distinct offsets that do not contain it. */
  lemma DistinctOffsetsSnoc(offs: seq<(int, int)>)
    requires offs != [] && DistinctOffsets(offs)
    ensures DistinctOffsets(offs[..|offs| - 1])
    ensures offs[|offs| - 1] !in offs[..|offs| - 1]
  {
    var n := |offs| - 1;
    forall i | 0 <= i < n ensures offs[..n][i] != offs[n] {
      assert offs[i] != offs[n];
    }
  }

  /** A new offset reaches a cell no earlier offset reaches. */
  lemma ShiftNotHit(g: Grid, cols: nat, rows: nat, x: int, y: int, init: seq<(int, int)>, d: (int, int))
    requires WellFormed(g, cols, rows)
    requires d !in init
    ensures Shift(x, y, d) !in Hits(g, cols, rows, x, y, init)
  {
    forall e | e in init ensures Shift(x, y, e) != Shift(x, y, d) {
      assert e != d;
    }
  }

  /** Adding a cell that may or may not be new grows a set by one exactly when it is added. */
  lemma AddFresh(before: set<(int, int)>, c: (int, int), b: bool)
    requires c !in before
    ensures |before + if b then {c} else {}| == |before| + Bit(b)
  {
    if !b {
      assert before + {} == before;
    }
  }

  /** Counting over distinct offsets counts distinct bomb cells. */
  lemma {:induction false} CountOverIsHits(g: Grid, cols: nat, rows: nat, x: int, y: int, offs: seq<(int, int)>)
    requires WellFormed(g, cols, rows)
    requires DistinctOffsets(offs)
    ensures CountOver(g, cols, rows, x, y, offs) == |Hits(g, cols, rows, x, y, offs)|
  {
    if offs != [] {
      var n := |offs| - 1;
      var init, d := offs[..n], offs[n];
      DistinctOffsetsSnoc(offs);
      CountOverIsHits(g, cols, rows, x, y, init);
      HitsSnoc(g, cols, rows, x, y, offs);
      ShiftNotHit(g, cols, rows, x, y, init, d);
      AddFresh(Hits(g, cols, rows, x, y, init), Shift(x, y, d), BombAt(g, cols, rows, x + d.0, y + d.1));
    }
  }

  /** The eight Moore offsets are distinct. */
  lemma OffsetsDistinct()
    ensures DistinctOffsets(Offsets)
  {
  }

  /** The neighbouring bomb cells are the cells the Moore offsets lead to. */
  lemma NeighbourBombsAreHits(g: Grid, cols: nat, rows: nat, x: int, y: int)
    requires WellFormed(g, cols, rows)
    ensures NeighbourBombs(g, cols, rows, x, y) == Hits(g, cols, rows, x, y, Offsets)
  {
    var hits := Hits(g, cols, rows, x, y, Offsets);
    var near := NeighbourBombs(g, cols, rows, x, y);
    forall c | c in near ensures c in hits {
      var d := (c.0 - x, c.1 - y);
      assert d in Offsets;
      assert Shift(x, y, d) == c;
    }
    forall c | c in hits ensures c in near {
      var d :| d in Offsets && BombAt(g, cols, rows, x + d.0, y + d.1) && Shift(x, y, d) == c;
    }
  }

  /** Counting over the eight Moore offsets counts exactly the neighbouring bomb cells. */
  lemma CountIsNeighbourBombs(g: Grid, cols: nat, rows: nat, x: int, y: int)
    requires WellFormed(g, cols, rows)
    ensures CountOver(g, cols, rows, x, y, Offsets) == |NeighbourBombs(g, cols, rows, x, y)|
  {
    OffsetsDistinct();
    CountOverIsHits(g, cols, rows, x, y, Offsets);
    NeighbourBombsAreHits(g, cols, rows, x, y);
  }

  /** A 3 by 3 grid with a single bomb in the top-left corner: the centre and the cell below
      the bomb show 1, the far corner shows 0. */
  lemma CornerBombExample()
    ensures var g := [[Cell(Hidden, true), EmptyCell, EmptyCell], [EmptyCell, EmptyCell, EmptyCell],
                      [EmptyCell, EmptyCell, EmptyCell]];
      && WellFormed(g, 3, 3)
      && CellNumber(g, 3, 3, 1, 1) == 1
      && CellNumber(g, 3, 3, 2, 2) == 0
      && CellNumber(g, 3, 3, 0, 1) == 1
  {
    var g := [[Cell(Hidden, true), EmptyCell, EmptyCell], [EmptyCell, EmptyCell, EmptyCell],
              [EmptyCell, EmptyCell, EmptyCell]];
    assert forall nx, ny :: BombAt(g, 3, 3, nx, ny) <==> (nx, ny) == (0, 0);
    assert (0, 0) in NeighbourBombs(g, 3, 3, 1, 1);
    assert NeighbourBombs(g, 3, 3, 1, 1) == {(0, 0)};
    assert (0, 0) in NeighbourBombs(g, 3, 3, 0, 1);
    assert NeighbourBombs(g, 3, 3, 0, 1) == {(0, 0)};
  }
}
