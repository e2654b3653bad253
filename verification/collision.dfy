/** The collision test consulted before every committed move, rotation and spawn. */
module Collision {
  import opened Grid
  import opened Shapes

  /** Absolute cell (col, row) is out of bounds or taken. Rows above the board
      (row < 0) are exempt from the occupancy test but not from the side walls. */
  predicate Blocked(b: Board, col: int, row: int)
    requires WellFormed(b)
  {
    || col < 0
    || col >= Width
    || row >= Height
    || (row >= 0 && b[row][col] != 0)
  }

  /** Some occupied cell of `s`, placed with its top-left corner at (x, y), is blocked. */
  predicate Collides(s: Shape, x: int, y: int, b: Board)
    requires WellFormed(b)
  {
    exists i, j | 0 <= i < |s| && 0 <= j < |s[i]| :: s[i][j] && Blocked(b, x + j, y + i)
  }

  /** Every occupied cell of `s` at (x, y) lies between the side walls and above the floor. */
  predicate Fits(s: Shape, x: int, y: int)
  {
    forall i, j | 0 <= i < |s| && 0 <= j < |s[i]| && s[i][j] ::
      0 <= x + j < Width && y + i < Height
  }

  /** The collision scan: row by row, cell by cell, returning at the first blocked cell. */
  method CheckCollision(s: Shape, x: int, y: int, b: Board) returns (hit: bool)
    requires WellFormed(b)
    ensures hit <==> Collides(s, x, y, b)
  {
    var i := 0;
    while i < |s|
      invariant 0 <= i <= |s|
      invariant forall i', j' | 0 <= i' < i && 0 <= j' < |s[i']| :: !(s[i'][j'] && Blocked(b, x + j', y + i'))
    {
      var j := 0;
      while j < |s[i]|
        invariant 0 <= j <= |s[i]|
        invariant forall j' | 0 <= j' < j :: !(s[i][j'] && Blocked(b, x + j', y + i))
      {
        if s[i][j] {
          var col := x + j;
          var row := y + i;
          if col < 0 || col >= Width || row >= Height {
            return true;
          }
          if row >= 0 && b[row][col] != 0 {
            return true;
          }
        }
        j := j + 1;
      }
      i := i + 1;
    }
    return false;
  }

  /** A collision-free placement is inside the walls and above the floor. */
  lemma FreeFits(s: Shape, x: int, y: int, b: Board)
    requires WellFormed(b)
    requires !Collides(s, x, y, b)
    ensures Fits(s, x, y)
  {
  }

  /** A tight shape that fits has its whole bounding box inside the walls and above the floor. */
  lemma FitsBox(s: Shape, x: int, y: int)
    requires ShapeOk(s)
    requires Fits(s, x, y)
    ensures 0 <= x && x + |s[0]| <= Width
    ensures y + |s| <= Height
  {
    var first, last := Column(s, 0), Column(s, |s[0]| - 1);
    assert true in first;
    var i0 :| 0 <= i0 < |s| && first[i0];
    assert s[i0][0];
    assert true in last;
    var i1 :| 0 <= i1 < |s| && last[i1];
    assert s[i1][|s[0]| - 1];
    assert true in s[|s| - 1];
    var j :| 0 <= j < |s[|s| - 1]| && s[|s| - 1][j];
  }

  /** On a board with no settled cells only the walls and the floor can stop a piece. */
  lemma CollidesOnEmpty(s: Shape, x: int, y: int, b: Board)
    requires ShapeOk(s)
    requires WellFormed(b)
    requires forall r, c | 0 <= r < Height && 0 <= c < Width :: b[r][c] == 0
    requires 0 <= x && x + |s[0]| <= Width
    ensures Collides(s, x, y, b) <==> y + |s| > Height
  {
    if y + |s| > Height {
      assert true in s[|s| - 1];
      var j :| 0 <= j < |s[|s| - 1]| && s[|s| - 1][j];
      assert Blocked(b, x + j, y + |s| - 1);
    }
  }
}
