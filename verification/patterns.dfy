/**
 The pattern library and pattern stamping. A pattern is a list of
 (row offset, column offset) pairs; stamping it at an anchor sets alive every
 anchored offset that lands on the board and silently drops the others.
 */
module Patterns {
  import opened Cells

  type Offsets = seq<(int, int)>

  const Glider: Offsets := [(0, 1), (1, 2), (2, 0), (2, 1), (2, 2)]
  const Blinker: Offsets := [(0, 0), (0, 1), (0, 2)]
  const Block: Offsets := [(0, 0), (0, 1), (1, 0), (1, 1)]
  const Toad: Offsets := [(0, 1), (0, 2), (0, 3), (1, 0), (1, 1), (1, 2)]
  const Spaceship: Offsets :=
    [(0, 1), (0, 4), (1, 0), (2, 0), (2, 4), (3, 0), (3, 1), (3, 2), (3, 3)]
  const Beacon: Offsets := [(0, 0), (0, 1), (1, 0), (2, 3), (3, 2), (3, 3)]
  const Pulsar: Offsets := [
    (0, 2), (0, 3), (0, 4), (0, 8), (0, 9), (0, 10),
    (2, 0), (2, 5), (2, 7), (2, 12),
    (3, 0), (3, 5), (3, 7), (3, 12),
    (4, 0), (4, 5), (4, 7), (4, 12),
    (5, 2), (5, 3), (5, 4), (5, 8), (5, 9), (5, 10),
    (7, 2), (7, 3), (7, 4), (7, 8), (7, 9), (7, 10),
    (8, 0), (8, 5), (8, 7), (8, 12),
    (9, 0), (9, 5), (9, 7), (9, 12),
    (10, 0), (10, 5), (10, 7), (10, 12),
    (12, 2), (12, 3), (12, 4), (12, 8), (12, 9), (12, 10)]
  const Pentadecathlon: Offsets :=
    [(0, 2), (1, 2), (2, 1), (2, 3), (3, 2), (4, 2), (5, 2), (6, 2), (7, 1), (7, 3), (8, 2), (9, 2)]
  const GliderGun: Offsets := [
    (0, 24), (1, 22), (1, 24), (2, 12), (2, 13), (2, 20), (2, 21), (2, 34), (2, 35),
    (3, 11), (3, 15), (3, 20), (3, 21), (3, 34), (3, 35), (4, 0), (4, 1), (4, 10),
    (4, 16), (4, 20), (4, 21), (5, 0), (5, 1), (5, 10), (5, 14), (5, 16), (5, 17),
    (5, 22), (5, 24), (6, 10), (6, 16), (6, 24), (7, 11), (7, 15), (8, 12), (8, 13)]

  /** The named patterns the loader knows. */
  const Library: map<string, Offsets> := map[
    "glider" := Glider,
    "blinker" := Blinker,
    "block" := Block,
    "toad" := Toad,
    "spaceship" := Spaceship,
    "beacon" := Beacon,
    "pulsar" := Pulsar,
    "pentadecathlon" := Pentadecathlon,
    "glider_gun" := GliderGun]

  /** Stamps the offsets in order at anchor (sr, sc). An in-bounds cell ends
      up alive exactly when it was alive before or an offset lands on it. */
  function Stamp(g: Grid, offsets: Offsets, sr: int, sc: int): (h: Grid)
    requires g.Valid()
    ensures SameShape(g, h)
    ensures forall r, c :: g.InBounds(r, c) ==>
              h.cells[r][c] == (g.cells[r][c] || (r - sr, c - sc) in offsets)
  {
    if offsets == [] then g
    else
      var prev := Stamp(g, offsets[..|offsets| - 1], sr, sc);
      var d := offsets[|offsets| - 1];
      assert offsets == offsets[..|offsets| - 1] + [d];
      var r, c := sr + d.0, sc + d.1;
      if 0 <= r < g.rows && 0 <= c < g.cols then SetCell(prev, r, c, true) else prev
  }

  /** Loads a named pattern at anchor (sr, sc). A known name sets alive
      exactly its in-bounds anchored offsets and leaves every other cell as it
      was; an unknown name leaves the grid as it was. Loading never kills a
      cell. */
  function LoadPattern(g: Grid, name: string, sr: int, sc: int): (h: Grid)
    requires g.Valid()
    ensures SameShape(g, h)
    ensures name !in Library ==> h == g
    ensures name in Library ==> forall r, c :: g.InBounds(r, c) ==>
              h.cells[r][c] == (g.cells[r][c] || (r - sr, c - sc) in Library[name])
    ensures forall r, c :: g.IsLive(r, c) ==> h.IsLive(r, c)
  {
    if name in Library then Stamp(g, Library[name], sr, sc) else g
  }

  /** A pattern whose anchored offsets all fall off the board changes nothing. */
  lemma {:induction false} StampClipped(g: Grid, offsets: Offsets, sr: int, sc: int)
    requires g.Valid()
    requires forall d :: d in offsets ==> !g.InBounds(sr + d.0, sc + d.1)
    ensures Stamp(g, offsets, sr, sc) == g
  {
    var h := Stamp(g, offsets, sr, sc);
    forall r, c | g.InBounds(r, c)
      ensures h.cells[r][c] == g.cells[r][c]
    {
      if (r - sr, c - sc) in offsets {
        assert false;
      }
    }
    Extensionality(h, g);
  }

  /** Stamping twice is stamping once. */
  lemma StampIdempotent(g: Grid, offsets: Offsets, sr: int, sc: int)
    requires g.Valid()
    ensures Stamp(Stamp(g, offsets, sr, sc), offsets, sr, sc) == Stamp(g, offsets, sr, sc)
  {
    var h := Stamp(g, offsets, sr, sc);
    Extensionality(Stamp(h, offsets, sr, sc), h);
  }
}
