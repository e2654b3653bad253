/** The board: a fixed-size grid of cells, row 0 at the top. */
module Grid {

  const Width: nat := 10
  const Height: nat := 20

  /** 0 is an empty cell; any other value identifies the piece that settled there
      (the source stores the piece's colour string, which is always truthy). */
  type Cell = int
  type Row = seq<Cell>
  type Board = seq<Row>

  /** The dimensions never change after initialisation. */
  predicate WellFormed(b: Board)
  {
    |b| == Height && forall r | 0 <= r < |b| :: |b[r]| == Width
  }

  function EmptyRow(): (row: Row)
    ensures |row| == Width
    ensures forall c | 0 <= c < |row| :: row[c] == 0
  {
    seq(Width, _ => 0)
  }

  /** A row is complete when none of its cells is empty. */
  predicate IsFull(row: Row)
  {
    forall c | 0 <= c < |row| :: row[c] != 0
  }

  /** No complete row is left on the board. */
  predicate Settled(b: Board)
  {
    forall r | 0 <= r < |b| :: !IsFull(b[r])
  }

  lemma EmptyRowNotFull()
    ensures !IsFull(EmptyRow())
  {
    assert EmptyRow()[0] == 0;
  }

  /** `n` fresh empty rows. */
  function Empties(n: nat): (rows: Board)
    ensures |rows| == n
    ensures forall r | 0 <= r < n :: rows[r] == EmptyRow()
  {
    seq(n, _ => EmptyRow())
  }

  /** The board created at start-up and by a reset. */
  function EmptyBoard(): (b: Board)
    ensures WellFormed(b)
    ensures Settled(b)
    ensures forall r, c | 0 <= r < Height && 0 <= c < Width :: b[r][c] == 0
  {
    EmptyRowNotFull();
    Empties(Height)
  }
}
