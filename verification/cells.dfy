/**
 The board of the Game of Life: a fixed rows x cols rectangle of boolean
 cells with finite (non-wrapping) borders, and the cell record that names one
 position together with its state.
 */
module Cells {

  /** A position and its state. The engine's change list is a sequence of
      these: each entry is a changed cell paired with its new state. */
  datatype Cell = Cell(row: int, col: int, alive: bool)

  /** The authoritative grid. `cells[r][c]` is true when (r, c) is alive. */
  datatype Grid = Grid(rows: int, cols: int, cells: seq<seq<bool>>) {

    /** A proper rows x cols rectangle with both dimensions positive. */
    predicate Valid() {
      && rows > 0
      && cols > 0
      && |cells| == rows
      && forall r :: 0 <= r < rows ==> |cells[r]| == cols
    }

    predicate InBounds(r: int, c: int) {
      0 <= r < rows && 0 <= c < cols
    }

    /** Total lookup: a position off the board does not exist, so it is never alive. */
    predicate IsLive(r: int, c: int)
      requires Valid()
    {
      InBounds(r, c) && cells[r][c]
    }
  }

  /** The rows x cols grid with every cell dead. */
  function Empty(rows: int, cols: int): (g: Grid)
    requires rows > 0 && cols > 0
    ensures g.Valid() && g.rows == rows && g.cols == cols
    ensures forall r, c :: !g.IsLive(r, c)
  {
    Grid(rows, cols, seq(rows, _ => seq(cols, _ => false)))
  }

  /** Overwrites one in-bounds cell and nothing else. */
  function SetCell(g: Grid, r: int, c: int, v: bool): (h: Grid)
    requires g.Valid() && g.InBounds(r, c)
    ensures h.Valid() && h.rows == g.rows && h.cols == g.cols
    ensures h.cells[r][c] == v
    ensures forall i, j :: g.InBounds(i, j) && (i, j) != (r, c) ==> h.cells[i][j] == g.cells[i][j]
  {
    g.(cells := g.cells[r := g.cells[r][c := v]])
  }

  /** The positions of the live cells. */
  function LiveSet(g: Grid): set<(int, int)>
    requires g.Valid()
  {
    set r, c | 0 <= r < g.rows && 0 <= c < g.cols && g.cells[r][c] :: (r, c)
  }

  predicate SameShape(g: Grid, h: Grid) {
    g.Valid() && h.Valid() && g.rows == h.rows && g.cols == h.cols
  }

  /** Two grids of the same shape that agree on every cell are the same grid. */
  lemma Extensionality(g: Grid, h: Grid)
    requires SameShape(g, h)
    requires forall r, c :: g.InBounds(r, c) ==> g.cells[r][c] == h.cells[r][c]
    ensures g == h
  {
    forall r | 0 <= r < g.rows
      ensures g.cells[r] == h.cells[r]
    {
      assert forall c :: 0 <= c < g.cols ==> g.cells[r][c] == h.cells[r][c] by {
        forall c | 0 <= c < g.cols
          ensures g.cells[r][c] == h.cells[r][c]
        {
          assert g.InBounds(r, c);
        }
      }
    }
  }

  /** A cell is in the live set exactly when it is alive. */
  lemma LiveSetMembership(g: Grid, r: int, c: int)
    requires g.Valid()
    ensures (r, c) in LiveSet(g) <==> g.IsLive(r, c)
  {
  }
}
