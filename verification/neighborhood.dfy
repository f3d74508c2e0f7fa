/**
 Bounded Moore-neighbourhood counting. The count looks at the 3 x 3 window
 around a cell, skips the centre and every position that falls off the board,
 and adds one for each live cell it finds.
 */
module Neighborhood {
  import opened Cells

  /** The 3 x 3 window around (r, c) in the order game.py's `count_neighbors` nested
      `dr`/`dc` loops visit it: `dr` outer, `dc` inner, each over -1, 0, 1.
      The centre is element 4. */
  function Window(r: int, c: int): seq<(int, int)> {
    [(r - 1, c - 1), (r - 1, c), (r - 1, c + 1),
     (r, c - 1), (r, c), (r, c + 1),
     (r + 1, c - 1), (r + 1, c), (r + 1, c + 1)]
  }

  /** Whether the count for centre (r, c) adds one for position p: p is not
      the centre, lies on the board and is alive. */
  predicate Counts(g: Grid, r: int, c: int, p: (int, int))
    requires g.Valid()
  {
    p != (r, c) && g.IsLive(p.0, p.1)
  }

  /** How many positions of ps the count for centre (r, c) adds one for. */
  function CountIn(g: Grid, r: int, c: int, ps: seq<(int, int)>): nat
    requires g.Valid()
  {
    if ps == [] then 0
    else CountIn(g, r, c, ps[..|ps| - 1]) + (if Counts(g, r, c, ps[|ps| - 1]) then 1 else 0)
  }

  /** The number of live neighbours of (r, c), as game.py's `count_neighbors` loops compute it. */
  function NeighborCount(g: Grid, r: int, c: int): (n: nat)
    requires g.Valid()
    ensures n <= 8
  {
    CountInBound(g, r, c, Window(r, c));
    CountIn(g, r, c, Window(r, c))
  }

  /** Reference definition: the set of live cells at Chebyshev distance exactly
      one from (r, c) that exist on the board. */
  function LiveNeighbors(g: Grid, r: int, c: int): set<(int, int)>
    requires g.Valid()
  {
    set nr, nc | r - 1 <= nr <= r + 1 && c - 1 <= nc <= c + 1
      && (nr, nc) != (r, c) && g.IsLive(nr, nc) :: (nr, nc)
  }

  /** 1 when (r, c) is a live cell of the board, 0 otherwise (including off the board). */
  function Bit(g: Grid, r: int, c: int): nat
    requires g.Valid()
  {
    if g.IsLive(r, c) then 1 else 0
  }

  /** The centre never counts, so a window holding it once counts at most
      one fewer than its length. */
  lemma {:induction false} CountInBound(g: Grid, r: int, c: int, ps: seq<(int, int)>)
    requires g.Valid()
    ensures CountIn(g, r, c, ps) <= |ps| - (if (r, c) in ps then 1 else 0)
  {
    if ps != [] {
      var init := ps[..|ps| - 1];
      CountInBound(g, r, c, init);
      assert ps == init + [ps[|ps| - 1]];
    }
  }

  /** Over positions without repetition, the count is the size of the set of
      positions it adds one for. */
  lemma {:induction false} CountInIsCardinality(g: Grid, r: int, c: int, ps: seq<(int, int)>)
    requires g.Valid()
    requires forall i, j :: 0 <= i < j < |ps| ==> ps[i] != ps[j]
    ensures CountIn(g, r, c, ps) == |set p | p in ps && Counts(g, r, c, p)|
  {
    if ps != [] {
      var init := ps[..|ps| - 1];
      var last := ps[|ps| - 1];
      CountInIsCardinality(g, r, c, init);
      assert ps == init + [last];
      assert last !in init;
      CountedSetGrows(g, r, c, init, last);
    }
  }

  /** The positions counted along ps + [last] are those counted along ps,
      plus last when it counts. */
  lemma CountedSetGrows(g: Grid, r: int, c: int, ps: seq<(int, int)>, last: (int, int))
    requires g.Valid()
    ensures (set p | p in ps + [last] && Counts(g, r, c, p))
         == (set p | p in ps && Counts(g, r, c, p)) + (if Counts(g, r, c, last) then {last} else {})
  {
  }

  /** The count equals the number of live on-board neighbours: it never counts
      the cell itself and never counts a position off the board. */
  lemma CountMatchesReference(g: Grid, r: int, c: int)
    requires g.Valid()
    ensures NeighborCount(g, r, c) == |LiveNeighbors(g, r, c)|
  {
    var w := Window(r, c);
    CountInIsCardinality(g, r, c, w);
    assert (set p | p in w && Counts(g, r, c, p)) == LiveNeighbors(g, r, c);
  }

  /** The count written out as eight terms, one per neighbour position. */
  lemma CountUnfolded(g: Grid, r: int, c: int)
    requires g.Valid()
    ensures NeighborCount(g, r, c)
         == Bit(g, r - 1, c - 1) + Bit(g, r - 1, c) + Bit(g, r - 1, c + 1)
          + Bit(g, r, c - 1) + Bit(g, r, c + 1)
          + Bit(g, r + 1, c - 1) + Bit(g, r + 1, c) + Bit(g, r + 1, c + 1)
  {
    var w := Window(r, c);
    WindowStep(g, r, c, 0);
    WindowStep(g, r, c, 1);
    WindowStep(g, r, c, 2);
    WindowStep(g, r, c, 3);
    WindowStep(g, r, c, 4);
    WindowStep(g, r, c, 5);
    WindowStep(g, r, c, 6);
    WindowStep(g, r, c, 7);
    WindowStep(g, r, c, 8);
    assert w[..9] == w;
  }

  /** Walking one more window position adds that neighbour's bit; the centre,
      position 4, adds nothing. */
  lemma WindowStep(g: Grid, r: int, c: int, k: nat)
    requires g.Valid() && k < 9
    ensures CountIn(g, r, c, Window(r, c)[..k + 1])
         == CountIn(g, r, c, Window(r, c)[..k])
          + (if k == 4 then 0 else Bit(g, Window(r, c)[k].0, Window(r, c)[k].1))
  {
    CountInStep(g, r, c, Window(r, c), k);
  }

  /** Extending a prefix by one position adds that position's contribution. */
  lemma CountInStep(g: Grid, r: int, c: int, ps: seq<(int, int)>, k: nat)
    requires g.Valid() && k < |ps|
    ensures CountIn(g, r, c, ps[..k + 1])
         == CountIn(g, r, c, ps[..k]) + (if Counts(g, r, c, ps[k]) then 1 else 0)
  {
    assert ps[..k + 1][..k] == ps[..k];
  }

  /** The count reads nothing but the eight on-board neighbour cells: two
      grids of the same shape that agree there give the same count, whatever
      the centre and the rest of the board hold. */
  lemma CountIsLocal(g: Grid, h: Grid, r: int, c: int)
    requires SameShape(g, h)
    requires forall nr, nc ::
               (r - 1 <= nr <= r + 1 && c - 1 <= nc <= c + 1 && (nr, nc) != (r, c) && g.InBounds(nr, nc))
               ==> g.cells[nr][nc] == h.cells[nr][nc]
    ensures NeighborCount(g, r, c) == NeighborCount(h, r, c)
  {
    CountUnfolded(g, r, c);
    CountUnfolded(h, r, c);
  }

  /** The imperative count of game.py's `count_neighbors`: two nested loops over -1, 0, 1,
      skipping the centre and guarding every read with a bounds test. */
  method CountNeighbors(g: Grid, row: int, col: int) returns (count: nat)
    requires g.Valid()
    ensures count == |LiveNeighbors(g, row, col)|
    ensures count <= 8
  {
    var deltas := [-1, 0, 1];
    ghost var w := Window(row, col);
    count := 0;
    var i := 0;
    while i < 3
      invariant 0 <= i <= 3
      invariant count == CountIn(g, row, col, w[..3 * i])
    {
      var j := 0;
      while j < 3
        invariant 0 <= j <= 3
        invariant count == CountIn(g, row, col, w[..3 * i + j])
      {
        var dr, dc := deltas[i], deltas[j];
        assert w[3 * i + j] == (row + dr, col + dc);
        CountInStep(g, row, col, w, 3 * i + j);
        if !(dr == 0 && dc == 0) {
          var nr, nc := row + dr, col + dc;
          if 0 <= nr < g.rows && 0 <= nc < g.cols {
            if g.cells[nr][nc] {
              count := count + 1;
            }
          }
        }
        j := j + 1;
      }
      i := i + 1;
    }
    assert w[..9] == w;
    CountMatchesReference(g, row, col);
  }
}
