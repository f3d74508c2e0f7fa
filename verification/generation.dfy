/**
 One generation of the Game of Life under the B3/S23 rule, and the change
 list that tells the renderer exactly which cells flipped.
 */
module Generation {
  import opened Cells
  import opened Neighborhood

  /** Conway's rule for one cell, given its state and its live-neighbour count. */
  function Rule(alive: bool, n: nat): (next: bool)
    ensures next <==> n == 3 || (alive && n == 2)
  {
    if alive then n == 2 || n == 3 else n == 3
  }

  /** The next state of cell (r, c), counted against the old grid g only. */
  function NextState(g: Grid, r: int, c: int): bool
    requires g.Valid() && g.InBounds(r, c)
  {
    Rule(g.cells[r][c], NeighborCount(g, r, c))
  }

  /** The reference generation step: the rule applied to every cell of the
      old grid at once. */
  function Step(g: Grid): (h: Grid)
    requires g.Valid()
    ensures SameShape(g, h)
    ensures forall r, c :: g.InBounds(r, c) ==> h.cells[r][c] == NextState(g, r, c)
  {
    Grid(g.rows, g.cols,
         seq(g.rows, r requires 0 <= r < g.rows =>
           seq(g.cols, c requires 0 <= c < g.cols => NextState(g, r, c))))
  }

  /** n generations in a row. */
  function Steps(g: Grid, n: nat): (h: Grid)
    requires g.Valid()
    ensures SameShape(g, h)
    decreases n
  {
    if n == 0 then g else Steps(Step(g), n - 1)
  }

  /** Strict row-major order on positions (the state is not compared). */
  predicate Before(a: Cell, b: Cell) {
    a.row < b.row || (a.row == b.row && a.col < b.col)
  }

  predicate StrictlySorted(cs: seq<Cell>) {
    forall i, j :: 0 <= i < j < |cs| ==> Before(cs[i], cs[j])
  }

  function Positions(cs: seq<Cell>): set<(int, int)> {
    set ch | ch in cs :: (ch.row, ch.col)
  }

  /** The positions whose state differs between g and h. */
  function Changed(g: Grid, h: Grid): set<(int, int)>
    requires SameShape(g, h)
  {
    set r, c | 0 <= r < g.rows && 0 <= c < g.cols && g.cells[r][c] != h.cells[r][c] :: (r, c)
  }

  /** An entry a renderer may trust: an on-board cell that really changed
      from g to h, carrying its state in h. */
  predicate Flipped(g: Grid, h: Grid, ch: Cell)
    requires SameShape(g, h)
  {
    g.InBounds(ch.row, ch.col)
    && g.cells[ch.row][ch.col] != h.cells[ch.row][ch.col]
    && ch.alive == h.cells[ch.row][ch.col]
  }

  /** The change-list contract: every entry really flipped and carries its
      new state, every flipped cell is listed, and the entries are in strictly
      increasing row-major order (so no position is listed twice). */
  predicate IsChangeList(g: Grid, h: Grid, cs: seq<Cell>)
    requires SameShape(g, h)
  {
    && (forall ch :: ch in cs ==> Flipped(g, h, ch))
    && Positions(cs) == Changed(g, h)
    && StrictlySorted(cs)
  }

  /** The changes in row r among columns [0, k), left to right. */
  function RowDiff(g: Grid, h: Grid, r: int, k: int): seq<Cell>
    requires SameShape(g, h) && 0 <= r < g.rows && 0 <= k <= g.cols
  {
    if k == 0 then []
    else
      var c := k - 1;
      if g.cells[r][c] != h.cells[r][c] then RowDiff(g, h, r, c) + [Cell(r, c, h.cells[r][c])]
      else RowDiff(g, h, r, c)
  }

  /** The changes in rows [0, k), in row-major order. */
  function DiffRows(g: Grid, h: Grid, k: int): seq<Cell>
    requires SameShape(g, h) && 0 <= k <= g.rows
  {
    if k == 0 then [] else DiffRows(g, h, k - 1) + RowDiff(g, h, k - 1, g.cols)
  }

  /** One more column of a row adds that column's entry when it flipped. */
  lemma RowDiffNext(g: Grid, h: Grid, r: int, c: int)
    requires SameShape(g, h) && 0 <= r < g.rows && 0 <= c < g.cols
    ensures RowDiff(g, h, r, c + 1)
         == if g.cells[r][c] != h.cells[r][c] then RowDiff(g, h, r, c) + [Cell(r, c, h.cells[r][c])]
            else RowDiff(g, h, r, c)
  {
  }

  /** One more row appends that row's changes. */
  lemma DiffRowsNext(g: Grid, h: Grid, k: int)
    requires SameShape(g, h) && 0 <= k < g.rows
    ensures DiffRows(g, h, k + 1) == DiffRows(g, h, k) + RowDiff(g, h, k, g.cols)
  {
  }

  /** The row-major change list between g and h. */
  function Diff(g: Grid, h: Grid): (cs: seq<Cell>)
    requires SameShape(g, h)
    ensures IsChangeList(g, h, cs)
  {
    DiffRowsIsChangeList(g, h, g.rows);
    PositionsAreChanged(g, h, DiffRows(g, h, g.rows));
    DiffRows(g, h, g.rows)
  }

  /** Every entry of a row's changes lies in that row, left of k, and really flipped. */
  lemma {:induction false} RowDiffEntries(g: Grid, h: Grid, r: int, k: int)
    requires SameShape(g, h) && 0 <= r < g.rows && 0 <= k <= g.cols
    ensures forall ch :: ch in RowDiff(g, h, r, k) ==> ch.row == r && ch.col < k && Flipped(g, h, ch)
  {
    if k > 0 {
      RowDiffEntries(g, h, r, k - 1);
    }
  }

  /** A row's changes list exactly the flipped columns left of k. */
  lemma {:induction false} RowDiffPositions(g: Grid, h: Grid, r: int, k: int)
    requires SameShape(g, h) && 0 <= r < g.rows && 0 <= k <= g.cols
    ensures forall i, j :: (i, j) in Positions(RowDiff(g, h, r, k))
              <==> i == r && 0 <= j < k && g.cells[r][j] != h.cells[r][j]
  {
    if k > 0 {
      var c := k - 1;
      RowDiffPositions(g, h, r, c);
      if g.cells[r][c] != h.cells[r][c] {
        var extra := [Cell(r, c, h.cells[r][c])];
        ConcatPositions(RowDiff(g, h, r, c), extra);
        assert Positions(extra) == {(r, c)};
      }
    }
  }

  /** A row's changes run strictly left to right. */
  lemma {:induction false} RowDiffSorted(g: Grid, h: Grid, r: int, k: int)
    requires SameShape(g, h) && 0 <= r < g.rows && 0 <= k <= g.cols
    ensures StrictlySorted(RowDiff(g, h, r, k))
  {
    if k > 0 {
      RowDiffSorted(g, h, r, k - 1);
      RowDiffEntries(g, h, r, k - 1);
      var c := k - 1;
      if g.cells[r][c] != h.cells[r][c] {
        ConcatSorted(RowDiff(g, h, r, c), [Cell(r, c, h.cells[r][c])]);
      }
    }
  }

  /** Every entry of the first k rows' changes lies above row k and really flipped. */
  lemma {:induction false} DiffRowsEntries(g: Grid, h: Grid, k: int)
    requires SameShape(g, h) && 0 <= k <= g.rows
    ensures forall ch :: ch in DiffRows(g, h, k) ==> ch.row < k && Flipped(g, h, ch)
  {
    if k > 0 {
      DiffRowsEntries(g, h, k - 1);
      RowDiffEntries(g, h, k - 1, g.cols);
    }
  }

  /** The first k rows' changes list exactly the flipped cells of those rows. */
  lemma {:induction false} DiffRowsPositions(g: Grid, h: Grid, k: int)
    requires SameShape(g, h) && 0 <= k <= g.rows
    ensures forall i, j :: (i, j) in Positions(DiffRows(g, h, k))
              <==> 0 <= i < k && 0 <= j < g.cols && g.cells[i][j] != h.cells[i][j]
  {
    if k > 0 {
      DiffRowsPositions(g, h, k - 1);
      RowDiffPositions(g, h, k - 1, g.cols);
      ConcatPositions(DiffRows(g, h, k - 1), RowDiff(g, h, k - 1, g.cols));
    }
  }

  /** The first k rows' changes are in strictly increasing row-major order. */
  lemma {:induction false} DiffRowsSorted(g: Grid, h: Grid, k: int)
    requires SameShape(g, h) && 0 <= k <= g.rows
    ensures StrictlySorted(DiffRows(g, h, k))
  {
    if k > 0 {
      DiffRowsSorted(g, h, k - 1);
      DiffRowsEntries(g, h, k - 1);
      RowDiffSorted(g, h, k - 1, g.cols);
      RowDiffEntries(g, h, k - 1, g.cols);
      ConcatSorted(DiffRows(g, h, k - 1), RowDiff(g, h, k - 1, g.cols));
    }
  }

  /** The changes of the first k rows meet the change-list contract for those rows. */
  lemma DiffRowsIsChangeList(g: Grid, h: Grid, k: int)
    requires SameShape(g, h) && 0 <= k <= g.rows
    ensures forall ch :: ch in DiffRows(g, h, k) ==> ch.row < k && Flipped(g, h, ch)
    ensures forall i, j :: (i, j) in Positions(DiffRows(g, h, k))
              <==> 0 <= i < k && 0 <= j < g.cols && g.cells[i][j] != h.cells[i][j]
    ensures StrictlySorted(DiffRows(g, h, k))
  {
    DiffRowsEntries(g, h, k);
    DiffRowsPositions(g, h, k);
    DiffRowsSorted(g, h, k);
  }

  /** Membership of every position settles the position set. */
  lemma PositionsAreChanged(g: Grid, h: Grid, cs: seq<Cell>)
    requires SameShape(g, h)
    requires forall i, j :: (i, j) in Positions(cs)
               <==> 0 <= i < g.rows && 0 <= j < g.cols && g.cells[i][j] != h.cells[i][j]
    ensures Positions(cs) == Changed(g, h)
  {
    forall p | p in Positions(cs)
      ensures p in Changed(g, h)
    {
      assert (p.0, p.1) in Positions(cs);
    }
  }

  /** Concatenating two sorted lists, every element of the first before every
      element of the second, gives a sorted list. */
  lemma ConcatSorted(a: seq<Cell>, b: seq<Cell>)
    requires StrictlySorted(a) && StrictlySorted(b)
    requires forall x, y :: x in a && y in b ==> Before(x, y)
    ensures StrictlySorted(a + b)
  {
    forall i, j | 0 <= i < j < |a + b|
      ensures Before((a + b)[i], (a + b)[j])
    {
      if i < |a| && j >= |a| {
        assert (a + b)[i] in a;
        assert (a + b)[j] in b;
      }
    }
  }

  lemma ConcatPositions(a: seq<Cell>, b: seq<Cell>)
    ensures Positions(a + b) == Positions(a) + Positions(b)
  {
    assert forall ch :: ch in a + b <==> ch in a || ch in b;
  }

  /** Applies a change list to a grid, entry by entry. */
  function Apply(g: Grid, cs: seq<Cell>): (h: Grid)
    requires g.Valid()
    requires forall ch :: ch in cs ==> g.InBounds(ch.row, ch.col)
    ensures SameShape(g, h)
  {
    if cs == [] then g
    else
      var last := cs[|cs| - 1];
      var prev := Apply(g, cs[..|cs| - 1]);
      assert last in cs;
      assert g.InBounds(last.row, last.col);
      assert prev.rows == g.rows && prev.cols == g.cols;
      assert prev.InBounds(last.row, last.col);
      SetCell(prev, last.row, last.col, last.alive)
  }

  /** When every entry agrees with h, applying the list to g gives h on the
      listed positions and g everywhere else. */
  lemma {:induction false} ApplyPointwise(g: Grid, h: Grid, cs: seq<Cell>)
    requires SameShape(g, h)
    requires forall ch :: ch in cs ==> g.InBounds(ch.row, ch.col) && ch.alive == h.cells[ch.row][ch.col]
    ensures forall r, c :: g.InBounds(r, c) ==>
              Apply(g, cs).cells[r][c] == if (r, c) in Positions(cs) then h.cells[r][c] else g.cells[r][c]
  {
    if cs != [] {
      var init := cs[..|cs| - 1];
      assert forall ch :: ch in init ==> ch in cs;
      ApplyPointwise(g, h, init);
      assert cs == init + [cs[|cs| - 1]];
      ConcatPositions(init, [cs[|cs| - 1]]);
    }
  }

  /** Round trip: the old grid plus its change list is the new grid. */
  lemma ApplyChangeList(g: Grid, h: Grid, cs: seq<Cell>)
    requires SameShape(g, h) && IsChangeList(g, h, cs)
    ensures Apply(g, cs) == h
  {
    ApplyPointwise(g, h, cs);
    Extensionality(Apply(g, cs), h);
  }

  lemma HeadIsMember(s: seq<Cell>)
    ensures s != [] ==> s[0] in s
  {
  }

  /** A list is empty exactly when it lists no position. */
  lemma NoPositionsIsEmpty(cs: seq<Cell>)
    ensures Positions(cs) == {} <==> cs == []
  {
    if cs != [] {
      assert (cs[0].row, cs[0].col) in Positions(cs);
    }
  }

  /** Two strictly sorted lists with the same elements are the same list. */
  lemma {:induction false} SortedUnique(a: seq<Cell>, b: seq<Cell>)
    requires StrictlySorted(a) && StrictlySorted(b)
    requires forall x :: x in a <==> x in b
    ensures a == b
  {
    HeadIsMember(a);
    HeadIsMember(b);
    if a != [] {
      var j :| 0 <= j < |b| && b[j] == a[0];
      var i :| 0 <= i < |a| && a[i] == b[0];
      if a[0] != b[0] {
        assert false;
      }
      forall x
        ensures x in a[1..] <==> x in b[1..]
      {
        if x in a[1..] {
          var k :| 1 <= k < |a| && a[k] == x;
          assert Before(a[0], a[k]);
          assert x in a;
          var m :| 0 <= m < |b| && b[m] == x;
          assert m != 0;
          assert b[1..][m - 1] == x;
        }
        if x in b[1..] {
          var k :| 1 <= k < |b| && b[k] == x;
          assert Before(b[0], b[k]);
          assert x in b;
          var m :| 0 <= m < |a| && a[m] == x;
          assert m != 0;
          assert a[1..][m - 1] == x;
        }
      }
      SortedUnique(a[1..], b[1..]);
    }
  }

  /** The contract determines the list: any change list that meets it is
      exactly the row-major diff. */
  lemma ChangeListIsUnique(g: Grid, h: Grid, cs: seq<Cell>)
    requires SameShape(g, h) && IsChangeList(g, h, cs)
    ensures cs == Diff(g, h)
  {
    var d := Diff(g, h);
    forall x
      ensures x in cs <==> x in d
    {
      if x in cs {
        assert (x.row, x.col) in Positions(d);
        var y :| y in d && (y.row, y.col) == (x.row, x.col);
      }
      if x in d {
        assert (x.row, x.col) in Positions(cs);
        var y :| y in cs && (y.row, y.col) == (x.row, x.col);
      }
    }
    SortedUnique(cs, d);
  }

  /** An all-dead grid steps to an all-dead grid of the same size, with an
      empty change list. */
  lemma AllDeadIsStable(rows: int, cols: int)
    requires rows > 0 && cols > 0
    ensures Step(Empty(rows, cols)) == Empty(rows, cols)
    ensures Diff(Empty(rows, cols), Step(Empty(rows, cols))) == []
  {
    var g := Empty(rows, cols);
    forall r, c | g.InBounds(r, c)
      ensures Step(g).cells[r][c] == g.cells[r][c]
    {
      CountUnfolded(g, r, c);
    }
    Extensionality(Step(g), g);
    var d := Diff(g, Step(g));
    assert Changed(g, Step(g)) == {};
    NoPositionsIsEmpty(d);

  }

  /** Conway's rule stated on the reference neighbourhood: a cell is alive in
      the next generation exactly when it has three live neighbours, or is
      alive and has two. */
  lemma NextStateByNeighbors(g: Grid, r: int, c: int)
    requires g.Valid() && g.InBounds(r, c)
    ensures NextState(g, r, c) <==>
              |LiveNeighbors(g, r, c)| == 3 || (g.cells[r][c] && |LiveNeighbors(g, r, c)| == 2)
  {
    CountMatchesReference(g, r, c);
  }

  /** The state `next_generation` in game.py writes into the fresh grid for cell (row, col):
      the neighbours are counted on the old grid, a live cell survives with 2
      or 3 of them, and a dead cell is born with exactly 3. */
  method NextCell(g: Grid, row: int, col: int) returns (alive: bool)
    requires g.Valid() && g.InBounds(row, col)
    ensures alive == NextState(g, row, col)
  {
    var neighbors := CountNeighbors(g, row, col);
    CountMatchesReference(g, row, col);
    alive := false;
    if g.cells[row][col] {
      if neighbors == 2 || neighbors == 3 {
        alive := true;
      }
    } else {
      if neighbors == 3 {
        alive := true;
      }
    }
  }

  /** One row of `next_generation`'s traversal: left to right, each cell's next
      state is written into the row buffer (which starts all dead) and each
      cell that flipped is appended to the row's changes. */
  method NextRow(g: Grid, row: int) returns (newRow: seq<bool>, changes: seq<Cell>)
    requires g.Valid() && 0 <= row < g.rows
    ensures newRow == Step(g).cells[row]
    ensures changes == RowDiff(g, Step(g), row, g.cols)
  {
    ghost var target := Step(g);
    newRow := seq(g.cols, _ => false);
    changes := [];
    var col := 0;
    while col < g.cols
      invariant 0 <= col <= g.cols
      invariant |newRow| == g.cols
      invariant forall c :: 0 <= c < col ==> newRow[c] == target.cells[row][c]
      invariant forall c :: col <= c < g.cols ==> !newRow[c]
      invariant changes == RowDiff(g, target, row, col)
    {
      var oldState := g.cells[row][col];
      var alive := NextCell(g, row, col);
      assert alive == target.cells[row][col];
      if alive {
        newRow := newRow[col := true];
      }
      assert newRow[col] == target.cells[row][col];
      RowDiffNext(g, target, row, col);
      if oldState != newRow[col] {
        changes := changes + [Cell(row, col, newRow[col])];
      }
      col := col + 1;
    }
  }

  /** `next_generation`'s row-major traversal: every row of the fresh grid (which
      starts all dead) is filled from neighbourhoods counted on the old grid
      only, and the changes are collected row after row. */
  method NextRows(g: Grid) returns (newCells: seq<seq<bool>>, changes: seq<Cell>)
    requires g.Valid()
    ensures |newCells| == g.rows
    ensures newCells == Step(g).cells
    ensures changes == DiffRows(g, Step(g), g.rows)
  {
    ghost var target := Step(g);
    newCells := seq(g.rows, _ => seq(g.cols, _ => false));
    changes := [];
    var row := 0;
    while row < g.rows
      invariant 0 <= row <= g.rows
      invariant |newCells| == g.rows
      invariant newCells[..row] == target.cells[..row]
      invariant changes == DiffRows(g, target, row)
    {
      var newRow, rowChanges := NextRow(g, row);
      newCells := newCells[row := newRow];
      assert newCells[..row + 1] == target.cells[..row + 1];
      DiffRowsNext(g, target, row);
      changes := changes + rowChanges;
      row := row + 1;
    }
    assert newCells == newCells[..g.rows];
  }

  /** game.py's `next_generation`: the traversal above, after which the old
      grid is replaced by the fresh one as a whole. The result is the next
      generation, and the changes form its change list. */
  method NextGeneration(g: Grid) returns (h: Grid, changes: seq<Cell>)
    requires g.Valid()
    ensures h == Step(g)
    ensures IsChangeList(g, h, changes)
  {
    var newCells;
    newCells, changes := NextRows(g);
    h := Grid(g.rows, g.cols, newCells);
    assert changes == Diff(g, h);
  }
}
