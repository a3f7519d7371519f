/** The Moore neighbourhood shared by both engines: the eight offsets around a
    cell, in the order both engines visit them (dx outer, dy inner, the centre
    skipped). */
module Moore {

  /** A cell coordinate (x, y); x is the column and y the row. */
  type Cell = (int, int)

  /** The eight neighbour offsets, in visiting order. */
  const Directions: seq<Cell> :=
    [(-1, -1), (-1, 0), (-1, 1),
     (0, -1),           (0, 1),
     (1, -1),  (1, 0),  (1, 1)]

  /** The cell `c` moved by offset `d`. */
  function Shift(c: Cell, d: Cell): Cell {
    (c.0 + d.0, c.1 + d.1)
  }

  /** How many offsets the nested dx/dy loops (dx outer, dy inner, each over
      -1, 0, 1) have visited before reaching (dx, dy): the position in the 3x3
      block minus the skipped centre. (dx, dy + 1) with dy == 1 is the end of
      row dx, and (2, -1) is the end of the block. */
  function Visited(dx: int, dy: int): (k: nat)
    requires -1 <= dy <= 2 && 0 <= 3 * (dx + 1) + (dy + 1) <= 9
    ensures k <= 8
    ensures -1 <= dx <= 1 && dy <= 1 && (dx, dy) != (0, 0) ==> k < 8 && Directions[k] == (dx, dy)
  {
    var p := 3 * (dx + 1) + (dy + 1);
    if p <= 4 then p else p - 1
  }

  /** Every offset is a non-zero unit step, and `Visited` inverts `Directions`,
      so the eight offsets are pairwise distinct. */
  lemma DirectionFacts(k: nat)
    requires k < 8
    ensures -1 <= Directions[k].0 <= 1 && -1 <= Directions[k].1 <= 1
    ensures Directions[k] != (0, 0)
    ensures Visited(Directions[k].0, Directions[k].1) == k
  {
  }

  lemma DirectionsDistinct(i: nat, j: nat)
    requires i < 8 && j < 8 && Directions[i] == Directions[j]
    ensures i == j
  {
    DirectionFacts(i);
    DirectionFacts(j);
  }
}
