/** Merging a landed piece into the board. */
module Lock {
  import opened Grid
  import opened Shapes
  import opened Collision

  /** Board cell (row, col) lies under an occupied cell of `s` placed at (x, y). */
  predicate Covers(s: Shape, x: int, y: int, row: int, col: int)
  {
    && 0 <= row - y < |s|
    && 0 <= col - x < |s[row - y]|
    && s[row - y][col - x]
  }

  /** The board after the piece's cells are written in, as one whole-board definition:
      covered cells take `id`, every other cell keeps its value. Cells above row 0
      have no board cell and are dropped. */
  function Stamp(b: Board, s: Shape, x: int, y: int, id: Cell): (r: Board)
    requires WellFormed(b)
    ensures WellFormed(r)
  {
    seq(Height, row requires 0 <= row < Height =>
      seq(Width, col requires 0 <= col < Width =>
        if Covers(s, x, y, row, col) then id else b[row][col]))
  }

  /** Cell (row, col) is covered by one of the shape cells the scan has already visited,
      the scan being at shape row `i`, column `j`. */
  predicate Visited(s: Shape, x: int, y: int, row: int, col: int, i: int, j: int)
  {
    Covers(s, x, y, row, col) && (row - y < i || (row - y == i && col - x < j))
  }

  /** The lock scan: every occupied shape cell at a row >= 0 is written into the board.
      The placement must fit, which the game guarantees for the active piece. */
  method LockCells(b: Board, s: Shape, x: int, y: int, id: Cell) returns (r: Board)
    requires WellFormed(b)
    requires Fits(s, x, y)
    ensures WellFormed(r)
    ensures forall row, col | 0 <= row < Height && 0 <= col < Width ::
      r[row][col] == if Covers(s, x, y, row, col) then id else b[row][col]
    ensures r == Stamp(b, s, x, y, id)
  {
    r := b;
    var i := 0;
    while i < |s|
      invariant 0 <= i <= |s|
      invariant WellFormed(r)
      invariant forall row, col | 0 <= row < Height && 0 <= col < Width ::
        r[row][col] == if Visited(s, x, y, row, col, i, 0) then id else b[row][col]
    {
      var j := 0;
      while j < |s[i]|
        invariant 0 <= j <= |s[i]|
        invariant WellFormed(r)
        invariant forall row, col | 0 <= row < Height && 0 <= col < Width ::
          r[row][col] == if Visited(s, x, y, row, col, i, j) then id else b[row][col]
      {
        if s[i][j] {
          var row := y + i;
          var col := x + j;
          if row >= 0 {
            r := r[row := r[row][col := id]];
          }
        }
        j := j + 1;
      }
      i := i + 1;
    }
    var stamped := Stamp(b, s, x, y, id);
    assert forall row | 0 <= row < Height :: r[row] == stamped[row];
  }
}
