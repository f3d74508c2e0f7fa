/**
 Promises of the pattern library, proved for every board size large enough
 to hold the pattern: `block` is a still life, `blinker` is an oscillator of
 period 2, and `glider` moves one cell diagonally every four generations.
 Each pattern is loaded on an otherwise dead board.
 */
module KnownPatterns {
  import opened Cells
  import opened Neighborhood
  import opened Generation
  import opened Patterns

  /** The block at (sr, sc): the 2 x 2 square with that top-left corner. */
  predicate InBlock(sr: int, sc: int, r: int, c: int) {
    sr <= r <= sr + 1 && sc <= c <= sc + 1
  }

  /** The horizontal blinker phase: three cells of row sr from column sc. */
  predicate InRow(sr: int, sc: int, r: int, c: int) {
    r == sr && sc <= c <= sc + 2
  }

  /** The vertical blinker phase: three cells of column sc + 1 around row sr. */
  predicate InColumn(sr: int, sc: int, r: int, c: int) {
    sr - 1 <= r <= sr + 1 && c == sc + 1
  }

  /** The glider's five phases relative to the anchor: phase 0 is the
      library's glider, and phase 4 is phase 0 moved by (+1, +1). */
  predicate GliderPhase(k: nat, i: int, j: int) {
    if k == 0 then
      (i == 0 && j == 1) || (i == 1 && j == 2) || (i == 2 && 0 <= j <= 2)
    else if k == 1 then
      (i == 1 && (j == 0 || j == 2)) || (i == 2 && 1 <= j <= 2) || (i == 3 && j == 1)
    else if k == 2 then
      (i == 1 && j == 2) || (i == 2 && (j == 0 || j == 2)) || (i == 3 && 1 <= j <= 2)
    else if k == 3 then
      (i == 1 && j == 1) || (i == 2 && 2 <= j <= 3) || (i == 3 && 1 <= j <= 2)
    else
      GliderPhase(0, i - 1, j - 1)
  }

  /** Phase k of the glider anchored at (sr, sc) is exactly the live cells of g. */
  ghost predicate IsGliderPhase(g: Grid, k: nat, sr: int, sc: int)
    requires g.Valid()
  {
    forall r, c :: g.IsLive(r, c) <==> GliderPhase(k, r - sr, c - sc)
  }

  /** Every glider phase lies in the 4 x 4 box at its anchor. */
  lemma GliderPhaseInBox(k: nat, i: int, j: int)
    requires k <= 4 && GliderPhase(k, i, j)
    ensures 0 <= i <= 3 && 0 <= j <= 3
  {
  }

  /** The cells of glider phase k anchored at (sr, sc). */
  ghost function GliderSet(k: nat, sr: int, sc: int): set<(int, int)>
    requires k <= 4
  {
    set i, j | sr <= i <= sr + 3 && sc <= j <= sc + 3 && GliderPhase(k, i - sr, j - sc) :: (i, j)
  }

  /** A grid is in glider phase k exactly when its live set is that phase's cells. */
  lemma PhaseAsSet(g: Grid, k: nat, sr: int, sc: int)
    requires g.Valid() && k <= 4
    ensures IsGliderPhase(g, k, sr, sc) <==> LiveSet(g) == GliderSet(k, sr, sc)
  {
    if IsGliderPhase(g, k, sr, sc) {
      forall p | p in GliderSet(k, sr, sc)
        ensures p in LiveSet(g)
      {
        LiveSetMembership(g, p.0, p.1);
      }
      forall p | p in LiveSet(g)
        ensures p in GliderSet(k, sr, sc)
      {
        LiveSetMembership(g, p.0, p.1);
        GliderPhaseInBox(k, p.0 - sr, p.1 - sc);
      }
    }
    if LiveSet(g) == GliderSet(k, sr, sc) {
      forall r, c
        ensures g.IsLive(r, c) <==> GliderPhase(k, r - sr, c - sc)
      {
        LiveSetMembership(g, r, c);
        if GliderPhase(k, r - sr, c - sc) {
          GliderPhaseInBox(k, r - sr, c - sc);
          assert (r, c) in GliderSet(k, sr, sc);
        }
      }
    }
  }

  // ---- Reading the library ----

  lemma LibraryEntries()
    ensures "block" in Library && Library["block"] == Block
    ensures "blinker" in Library && Library["blinker"] == Blinker
    ensures "glider" in Library && Library["glider"] == Glider
  {
  }

  lemma BlockOffsets(i: int, j: int)
    ensures (i, j) in Block <==> InBlock(0, 0, i, j)
  {
    if InBlock(0, 0, i, j) {
      assert (i, j) == Block[0] || (i, j) == Block[1] || (i, j) == Block[2] || (i, j) == Block[3];
    }
  }

  lemma BlinkerOffsets(i: int, j: int)
    ensures (i, j) in Blinker <==> InRow(0, 0, i, j)
  {
    if InRow(0, 0, i, j) {
      assert (i, j) == Blinker[0] || (i, j) == Blinker[1] || (i, j) == Blinker[2];
    }
  }

  lemma GliderOffsets(i: int, j: int)
    ensures (i, j) in Glider <==> GliderPhase(0, i, j)
  {
    if GliderPhase(0, i, j) {
      assert (i, j) == Glider[0] || (i, j) == Glider[1] || (i, j) == Glider[2]
          || (i, j) == Glider[3] || (i, j) == Glider[4];
    }
  }

  /** On a dead board the live cells after a stamp are the anchored offsets
      that land on the board. */
  lemma StampOnEmpty(rows: int, cols: int, offsets: Offsets, sr: int, sc: int)
    requires rows > 0 && cols > 0
    ensures forall r, c :: Stamp(Empty(rows, cols), offsets, sr, sc).IsLive(r, c)
              <==> Empty(rows, cols).InBounds(r, c) && (r - sr, c - sc) in offsets
  {
    var e := Empty(rows, cols);
    var g := Stamp(e, offsets, sr, sc);
    forall r, c | e.InBounds(r, c)
      ensures g.cells[r][c] <==> (r - sr, c - sc) in offsets
    {
      assert !e.IsLive(r, c);
    }
  }

  /** A grid whose live cells are the on-board anchored offsets of a pattern
      holds the block, the horizontal blinker or glider phase 0 when the
      pattern is that one and fits on the board. */
  lemma BlockLiveCells(g: Grid, sr: int, sc: int)
    requires g.Valid() && 0 <= sr && sr + 1 < g.rows && 0 <= sc && sc + 1 < g.cols
    requires forall r, c :: g.IsLive(r, c) <==> g.InBounds(r, c) && (r - sr, c - sc) in Block
    ensures forall r, c :: g.IsLive(r, c) <==> InBlock(sr, sc, r, c)
  {
    forall r, c
      ensures g.IsLive(r, c) <==> InBlock(sr, sc, r, c)
    {
      BlockOffsets(r - sr, c - sc);
    }
  }

  lemma BlinkerLiveCells(g: Grid, sr: int, sc: int)
    requires g.Valid() && 0 <= sr < g.rows && 0 <= sc && sc + 2 < g.cols
    requires forall r, c :: g.IsLive(r, c) <==> g.InBounds(r, c) && (r - sr, c - sc) in Blinker
    ensures forall r, c :: g.IsLive(r, c) <==> InRow(sr, sc, r, c)
  {
    forall r, c
      ensures g.IsLive(r, c) <==> InRow(sr, sc, r, c)
    {
      BlinkerOffsets(r - sr, c - sc);
    }
  }

  lemma GliderLiveCells(g: Grid, sr: int, sc: int)
    requires g.Valid() && 0 <= sr && sr + 2 < g.rows && 0 <= sc && sc + 2 < g.cols
    requires forall r, c :: g.IsLive(r, c) <==> g.InBounds(r, c) && (r - sr, c - sc) in Glider
    ensures IsGliderPhase(g, 0, sr, sc)
  {
    forall r, c
      ensures g.IsLive(r, c) <==> GliderPhase(0, r - sr, c - sc)
    {
      GliderOffsets(r - sr, c - sc);
    }
  }

  lemma BlockCells(rows: int, cols: int, sr: int, sc: int)
    requires 0 <= sr && sr + 1 < rows && 0 <= sc && sc + 1 < cols
    ensures forall r, c :: LoadPattern(Empty(rows, cols), "block", sr, sc).IsLive(r, c) <==> InBlock(sr, sc, r, c)
  {
    LibraryEntries();
    var g := Stamp(Empty(rows, cols), Block, sr, sc);
    assert LoadPattern(Empty(rows, cols), "block", sr, sc) == g;
    StampOnEmpty(rows, cols, Block, sr, sc);
    BlockLiveCells(g, sr, sc);
  }

  lemma BlinkerCells(rows: int, cols: int, sr: int, sc: int)
    requires 0 <= sr < rows && 0 <= sc && sc + 2 < cols
    ensures forall r, c :: LoadPattern(Empty(rows, cols), "blinker", sr, sc).IsLive(r, c) <==> InRow(sr, sc, r, c)
  {
    LibraryEntries();
    var g := Stamp(Empty(rows, cols), Blinker, sr, sc);
    assert LoadPattern(Empty(rows, cols), "blinker", sr, sc) == g;
    StampOnEmpty(rows, cols, Blinker, sr, sc);
    BlinkerLiveCells(g, sr, sc);
  }

  lemma GliderCells(rows: int, cols: int, sr: int, sc: int)
    requires 0 <= sr && sr + 2 < rows && 0 <= sc && sc + 2 < cols
    ensures LiveSet(LoadPattern(Empty(rows, cols), "glider", sr, sc)) == GliderSet(0, sr, sc)
  {
    LibraryEntries();
    var g := Stamp(Empty(rows, cols), Glider, sr, sc);
    assert LoadPattern(Empty(rows, cols), "glider", sr, sc) == g;
    StampOnEmpty(rows, cols, Glider, sr, sc);
    GliderLiveCells(g, sr, sc);
    PhaseAsSet(g, 0, sr, sc);
  }

  /** Grids of the same shape with the same live cells are equal. */
  lemma SameLiveCells(g: Grid, h: Grid)
    requires SameShape(g, h)
    requires forall r, c :: g.IsLive(r, c) <==> h.IsLive(r, c)
    ensures g == h
  {
    forall r, c | g.InBounds(r, c)
      ensures g.cells[r][c] == h.cells[r][c]
    {
      assert g.IsLive(r, c) <==> h.IsLive(r, c);
    }
    Extensionality(g, h);
  }

  // ---- One generation of each phase ----

  /** A block lying wholly on the board steps to itself. */
  lemma BlockSteps(g: Grid, sr: int, sc: int)
    requires g.Valid() && 0 <= sr && sr + 1 < g.rows && 0 <= sc && sc + 1 < g.cols
    requires forall r, c :: g.IsLive(r, c) <==> InBlock(sr, sc, r, c)
    ensures Step(g) == g
  {
    forall r, c | g.InBounds(r, c)
      ensures Step(g).cells[r][c] == g.cells[r][c]
    {
      CountUnfolded(g, r, c);
      assert g.cells[r][c] == g.IsLive(r, c);
    }
    Extensionality(Step(g), g);
  }

  /** The horizontal phase steps to the vertical phase. */
  lemma RowStepsToColumn(g: Grid, sr: int, sc: int)
    requires g.Valid() && 1 <= sr && sr + 1 < g.rows && 0 <= sc && sc + 2 < g.cols
    requires forall r, c :: g.IsLive(r, c) <==> InRow(sr, sc, r, c)
    ensures forall r, c :: Step(g).IsLive(r, c) <==> InColumn(sr, sc, r, c)
  {
    forall r, c | g.InBounds(r, c)
      ensures Step(g).cells[r][c] <==> InColumn(sr, sc, r, c)
    {
      CountUnfolded(g, r, c);
      assert g.cells[r][c] == g.IsLive(r, c);
    }
  }

  /** The vertical phase steps back to the horizontal phase. */
  lemma ColumnStepsToRow(g: Grid, sr: int, sc: int)
    requires g.Valid() && 1 <= sr && sr + 1 < g.rows && 0 <= sc && sc + 2 < g.cols
    requires forall r, c :: g.IsLive(r, c) <==> InColumn(sr, sc, r, c)
    ensures forall r, c :: Step(g).IsLive(r, c) <==> InRow(sr, sc, r, c)
  {
    forall r, c | g.InBounds(r, c)
      ensures Step(g).cells[r][c] <==> InRow(sr, sc, r, c)
    {
      CountUnfolded(g, r, c);
      assert g.cells[r][c] == g.IsLive(r, c);
    }
  }

  /** A horizontal blinker with a free row above and below is an oscillator
      of period 2: one step changes the grid and two steps restore it. */
  lemma BlinkerOscillates(g: Grid, sr: int, sc: int)
    requires g.Valid() && 1 <= sr && sr + 1 < g.rows && 0 <= sc && sc + 2 < g.cols
    requires forall r, c :: g.IsLive(r, c) <==> InRow(sr, sc, r, c)
    ensures Step(g) != g
    ensures Steps(g, 2) == g
  {
    RowStepsToColumn(g, sr, sc);
    var g1 := Step(g);
    ColumnStepsToRow(g1, sr, sc);
    assert g1.IsLive(sr - 1, sc + 1) && !g.IsLive(sr - 1, sc + 1);
    assert Steps(g, 2) == Step(g1);
    SameLiveCells(Step(g1), g);
  }

  /** One step takes glider phase k to phase k + 1, provided the 4 x 4 box
      the phases occupy lies on the board. */
  lemma GliderStep(g: Grid, k: nat, sr: int, sc: int)
    requires g.Valid() && 0 <= sr && sr + 3 < g.rows && 0 <= sc && sc + 3 < g.cols
    requires k < 4
    requires IsGliderPhase(g, k, sr, sc)
    ensures IsGliderPhase(Step(g), k + 1, sr, sc)
  {
    forall r, c | g.InBounds(r, c)
      ensures Step(g).cells[r][c] <==> GliderPhase(k + 1, r - sr, c - sc)
    {
      CountUnfolded(g, r, c);
      assert g.cells[r][c] == g.IsLive(r, c);
    }
  }

  /** From phase k, the remaining n = 4 - k steps give phase 0 again, one
      cell further down and right. */
  lemma {:induction false} GliderRun(g: Grid, k: nat, n: nat, sr: int, sc: int)
    requires g.Valid() && 0 <= sr && sr + 3 < g.rows && 0 <= sc && sc + 3 < g.cols
    requires k + n == 4
    requires IsGliderPhase(g, k, sr, sc)
    ensures IsGliderPhase(Steps(g, n), 0, sr + 1, sc + 1)
    decreases n
  {
    if n > 0 {
      GliderStep(g, k, sr, sc);
      GliderRun(Step(g), k + 1, n - 1, sr, sc);
    } else {
      PhaseFourIsMovedPhaseZero(g, sr, sc);
    }
  }

  /** Phase 4 anchored at (sr, sc) is phase 0 anchored one cell further down and right. */
  lemma PhaseFourIsMovedPhaseZero(g: Grid, sr: int, sc: int)
    requires g.Valid() && IsGliderPhase(g, 4, sr, sc)
    ensures IsGliderPhase(g, 0, sr + 1, sc + 1)
  {
    forall r, c
      ensures g.IsLive(r, c) <==> GliderPhase(0, r - (sr + 1), c - (sc + 1))
    {
      assert g.IsLive(r, c) <==> GliderPhase(4, r - sr, c - sc);
    }
  }

  lemma SamePhaseSameGrid(g: Grid, h: Grid, sr: int, sc: int)
    requires SameShape(g, h) && IsGliderPhase(g, 0, sr, sc) && IsGliderPhase(h, 0, sr, sc)
    ensures g == h
  {
    SameLiveCells(g, h);
  }

  /** Four steps from glider phase 0 give phase 0 one cell further down and right. */
  lemma GliderFourSteps(g: Grid, h: Grid, sr: int, sc: int)
    requires SameShape(g, h) && 0 <= sr && sr + 3 < g.rows && 0 <= sc && sc + 3 < g.cols
    requires LiveSet(g) == GliderSet(0, sr, sc) && LiveSet(h) == GliderSet(0, sr + 1, sc + 1)
    ensures Steps(g, 4) == h
  {
    var g4 := Steps(g, 4);
    PhaseAsSet(g, 0, sr, sc);
    PhaseAsSet(h, 0, sr + 1, sc + 1);
    GliderRun(g, 0, 4, sr, sc);
    SamePhaseSameGrid(g4, h, sr + 1, sc + 1);
  }

  // ---- The promises ----

  /** A block loaded anywhere wholly on a dead board is a still life: a step
      leaves the board as it is and reports no change. */
  lemma BlockIsStillLife(rows: int, cols: int, sr: int, sc: int)
    requires 0 <= sr && sr + 1 < rows && 0 <= sc && sc + 1 < cols
    ensures Step(LoadPattern(Empty(rows, cols), "block", sr, sc)) == LoadPattern(Empty(rows, cols), "block", sr, sc)
    ensures Diff(LoadPattern(Empty(rows, cols), "block", sr, sc), Step(LoadPattern(Empty(rows, cols), "block", sr, sc))) == []
  {
    var g := LoadPattern(Empty(rows, cols), "block", sr, sc);
    BlockCells(rows, cols, sr, sc);
    BlockSteps(g, sr, sc);
    NoChangeNoList(g);
  }

  /** Diffing a grid against itself gives the empty list. */
  lemma NoChangeNoList(g: Grid)
    requires g.Valid()
    ensures Diff(g, g) == []
  {
    NoPositionsIsEmpty(Diff(g, g));
  }

  /** A blinker loaded with a one-row margin above and below on a dead board
      is an oscillator of period 2: one step changes the board, two steps
      restore it. */
  lemma BlinkerHasPeriodTwo(rows: int, cols: int, sr: int, sc: int)
    requires 1 <= sr && sr + 1 < rows && 0 <= sc && sc + 2 < cols
    ensures Step(LoadPattern(Empty(rows, cols), "blinker", sr, sc)) != LoadPattern(Empty(rows, cols), "blinker", sr, sc)
    ensures Steps(LoadPattern(Empty(rows, cols), "blinker", sr, sc), 2) == LoadPattern(Empty(rows, cols), "blinker", sr, sc)
  {
    BlinkerCells(rows, cols, sr, sc);
    BlinkerOscillates(LoadPattern(Empty(rows, cols), "blinker", sr, sc), sr, sc);
  }

  /** The glider loaded on a dead board, named together with the facts about
      it that the four-step proof needs. */
  lemma GliderLoaded(rows: int, cols: int, sr: int, sc: int) returns (g: Grid)
    requires 0 <= sr && sr + 2 < rows && 0 <= sc && sc + 2 < cols
    ensures g == LoadPattern(Empty(rows, cols), "glider", sr, sc)
    ensures g.Valid() && g.rows == rows && g.cols == cols
    ensures LiveSet(g) == GliderSet(0, sr, sc)
  {
    g := LoadPattern(Empty(rows, cols), "glider", sr, sc);
    GliderCells(rows, cols, sr, sc);
  }

  /** A glider loaded on a dead board, with its 4 x 4 box on the board, is
      after four steps the same glider loaded one row lower and one column
      further right. */
  lemma GliderMovesDiagonally(rows: int, cols: int, sr: int, sc: int)
    requires 0 <= sr && sr + 3 < rows && 0 <= sc && sc + 3 < cols
    ensures Steps(LoadPattern(Empty(rows, cols), "glider", sr, sc), 4)
         == LoadPattern(Empty(rows, cols), "glider", sr + 1, sc + 1)
  {
    var g0 := GliderLoaded(rows, cols, sr, sc);
    var moved := GliderLoaded(rows, cols, sr + 1, sc + 1);
    GliderFourSteps(g0, moved, sr, sc);
  }

}
