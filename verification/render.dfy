/**
 The renderer's side of a generation. The renderer keeps one rectangle per
 live cell in a map keyed by position; only the key set matters here, so it is
 modelled as a set of positions. Its invariant is that the keys are exactly the
 live cells, and the change list is what lets it keep that invariant while
 touching only the cells that flipped.
 */
module Render {
  import opened Cells
  import opened Generation

  /** The renderer's reaction to one change-list entry: a birth adds the key
      (a rectangle is created only when none is there), a death removes it
      (a rectangle is deleted only when one is there). */
  function Update(ids: set<(int, int)>, ch: Cell): (keys: set<(int, int)>)
    ensures (ch.row, ch.col) in keys <==> ch.alive
    ensures forall p :: p != (ch.row, ch.col) ==> (p in keys <==> p in ids)
  {
    if ch.alive then ids + {(ch.row, ch.col)} else ids - {(ch.row, ch.col)}
  }

  /** The key set after the renderer has processed a change list in order. */
  function ProcessChanges(ids: set<(int, int)>, cs: seq<Cell>): set<(int, int)> {
    if cs == [] then ids else Update(ProcessChanges(ids, cs[..|cs| - 1]), cs[|cs| - 1])
  }

  /** When every entry carries the state the cell has in h, the keys after the
      list are h's state on the listed positions and the old keys elsewhere. */
  lemma {:induction false} RenderPointwise(ids: set<(int, int)>, cs: seq<Cell>, h: Grid)
    requires h.Valid()
    requires forall ch :: ch in cs ==> ch.alive == h.IsLive(ch.row, ch.col)
    ensures forall p :: p in ProcessChanges(ids, cs) <==>
              if p in Positions(cs) then h.IsLive(p.0, p.1) else p in ids
  {
    if cs != [] {
      var init := cs[..|cs| - 1];
      var last := cs[|cs| - 1];
      assert forall ch :: ch in init ==> ch in cs;
      assert last in cs;
      RenderPointwise(ids, init, h);
      assert cs == init + [last];
      ConcatPositions(init, [last]);
      assert Positions([last]) == {(last.row, last.col)};
    }
  }

  /** If the keys were the live cells of the old grid, then after the change
      list they are the live cells of the new grid. */
  lemma RenderTracksLiveSet(g: Grid, h: Grid, cs: seq<Cell>, ids: set<(int, int)>)
    requires SameShape(g, h) && IsChangeList(g, h, cs)
    requires ids == LiveSet(g)
    ensures ProcessChanges(ids, cs) == LiveSet(h)
  {
    RenderPointwise(ids, cs, h);
    forall p
      ensures p in ProcessChanges(ids, cs) <==> p in LiveSet(h)
    {
      LiveSetMembership(g, p.0, p.1);
      LiveSetMembership(h, p.0, p.1);
      if p !in Positions(cs) {
        assert p !in Changed(g, h);
      }
    }
  }

  /** The renderer's first pass: one key for every live cell, visited in
      row-major order. */
  method InitialCellIds(g: Grid) returns (ids: set<(int, int)>)
    requires g.Valid()
    ensures ids == LiveSet(g)
  {
    ids := {};
    var row := 0;
    while row < g.rows
      invariant 0 <= row <= g.rows
      invariant ids == set r, c | 0 <= r < row && 0 <= c < g.cols && g.cells[r][c] :: (r, c)
    {
      var col := 0;
      while col < g.cols
        invariant 0 <= col <= g.cols
        invariant ids == (set r, c | 0 <= r < row && 0 <= c < g.cols && g.cells[r][c] :: (r, c))
                       + (set c | 0 <= c < col && g.cells[row][c] :: (row, c))
      {
        if g.cells[row][col] {
          ids := ids + {(row, col)};
        }
        col := col + 1;
      }
      row := row + 1;
    }
  }

  /** A whole tick of game.py's `next_generation`: the generation step, then the renderer
      walking the change list and adding or removing one key per entry. */
  method NextGenerationTracked(g: Grid, ids: set<(int, int)>) returns (h: Grid, changes: seq<Cell>, keys: set<(int, int)>)
    requires g.Valid() && ids == LiveSet(g)
    ensures h == Step(g)
    ensures IsChangeList(g, h, changes)
    ensures keys == LiveSet(h)
  {
    h, changes := NextGeneration(g);
    keys := ids;
    var i := 0;
    while i < |changes|
      invariant 0 <= i <= |changes|
      invariant keys == ProcessChanges(ids, changes[..i])
    {
      var ch := changes[i];
      if ch.alive {
        if (ch.row, ch.col) !in keys {
          keys := keys + {(ch.row, ch.col)};
        }
      } else {
        if (ch.row, ch.col) in keys {
          keys := keys - {(ch.row, ch.col)};
        }
      }
      assert changes[..i + 1][..i] == changes[..i];
      i := i + 1;
    }
    assert changes[..|changes|] == changes;
    RenderTracksLiveSet(g, h, changes, ids);
  }
}
