/** The piece catalog and the clockwise rotation of a shape matrix. */
module Shapes {

  /** A piece's occupancy matrix; rows need not equal columns (the I piece is 1x4). */
  type Shape = seq<seq<bool>>

  /** Index into the catalog, the value the random draw produces (0..6). */
  type ShapeIndex = k: nat | k < 7

  /** At least one row, at least one column, and every row as long as the first. */
  predicate Rectangular(s: Shape)
  {
    && |s| > 0
    && |s[0]| > 0
    && forall i | 0 <= i < |s| :: |s[i]| == |s[0]|
  }

  /** Column `j` of `s`, top to bottom. */
  function Column(s: Shape, j: nat): (col: seq<bool>)
    requires Rectangular(s) && j < |s[0]|
    ensures |col| == |s|
    ensures forall i | 0 <= i < |s| :: col[i] == s[i][j]
  {
    seq(|s|, i requires 0 <= i < |s| => s[i][j])
  }

  /** Every row and every column of the matrix holds an occupied cell: the matrix is
      the piece's bounding box and nothing more. */
  predicate Tight(s: Shape)
    requires Rectangular(s)
  {
    && (forall i | 0 <= i < |s| :: true in s[i])
    && (forall j | 0 <= j < |s[0]| :: true in Column(s, j))
  }

  /** What every shape in play satisfies: a tight bounding box of at most 4x4. */
  predicate ShapeOk(s: Shape)
  {
    Rectangular(s) && |s| <= 4 && |s[0]| <= 4 && Tight(s)
  }

  /** The seven tetrominoes in the source's order I, O, T, S, Z, J, L. */
  const Catalog: seq<Shape> := [
    [[true, true, true, true]],
    [[true, true],
     [true, true]],
    [[false, true, false],
     [true, true, true]],
    [[false, true, true],
     [true, true, false]],
    [[true, true, false],
     [false, true, true]],
    [[true, false, false],
     [true, true, true]],
    [[false, false, true],
     [true, true, true]]
  ]

  lemma CatalogOk(k: ShapeIndex)
    ensures ShapeOk(Catalog[k])
  {
    var s := Catalog[k];
    assert Rectangular(s);
    forall j | 0 <= j < |s[0]|
      ensures true in Column(s, j)
    {
      var col := Column(s, j);
      assert col[|s| - 1] == s[|s| - 1][j];
      if |s| == 2 && !s[1][j] {
        assert col[0] == s[0][j];
      }
    }
  }

  /** Clockwise quarter turn: an r x c matrix becomes a c x r matrix. */
  function Rotate(m: Shape): (r: Shape)
    requires Rectangular(m)
    ensures Rectangular(r)
    ensures |r| == |m[0]| && |r[0]| == |m|
    ensures forall j, k | 0 <= j < |r| && 0 <= k < |r[j]| :: r[j][k] == m[|m| - 1 - k][j]
  {
    seq(|m[0]|, j requires 0 <= j < |m[0]| =>
      seq(|m|, k requires 0 <= k < |m| => m[|m| - 1 - k][j]))
  }

  /** The coordinates of the occupied cells. */
  function Cells(m: Shape): set<(int, int)>
  {
    set i, j | 0 <= i < |m| && 0 <= j < |m[i]| && m[i][j] :: (i, j)
  }

  /** Where a rotation of an n-row matrix sends cell p. */
  function Turn(p: (int, int), n: int): (int, int)
  {
    (p.1, n - 1 - p.0)
  }

  lemma {:induction false} TurnImageSize(cells: set<(int, int)>, n: int)
    ensures |set p | p in cells :: Turn(p, n)| == |cells|
    decreases cells
  {
    if cells != {} {
      var p :| p in cells;
      var rest := cells - {p};
      TurnImageSize(rest, n);
      var image := set q | q in cells :: Turn(q, n);
      var restImage := set q | q in rest :: Turn(q, n);
      assert image == restImage + {Turn(p, n)};
      assert Turn(p, n) !in restImage by {
        forall q | q in rest
          ensures Turn(q, n) != Turn(p, n)
        {
          assert q != p;
        }
      }
    }
  }

  /** Rotation moves every occupied cell and loses none. */
  lemma RotateCells(m: Shape)
    requires Rectangular(m)
    ensures Cells(Rotate(m)) == set p | p in Cells(m) :: Turn(p, |m|)
    ensures |Cells(Rotate(m))| == |Cells(m)|
  {
    var r := Rotate(m);
    var image := set p | p in Cells(m) :: Turn(p, |m|);
    forall q | q in Cells(r)
      ensures q in image
    {
      var p := (|m| - 1 - q.1, q.0);
      assert r[q.0][|m| - 1 - p.0] == m[p.0][p.1];
      assert p in Cells(m);
    }
    TurnImageSize(Cells(m), |m|);
  }

  /** Two quarter turns turn the matrix upside down and mirror it. */
  lemma RotateTwice(m: Shape)
    requires Rectangular(m)
    ensures |Rotate(Rotate(m))| == |m| && |Rotate(Rotate(m))[0]| == |m[0]|
    ensures forall i, j | 0 <= i < |m| && 0 <= j < |m[0]| ::
      Rotate(Rotate(m))[i][j] == m[|m| - 1 - i][|m[0]| - 1 - j]
  {
  }

  /** The matrix turned upside down and mirrored: the half turn written out directly. */
  function Flip(m: Shape): (f: Shape)
    requires Rectangular(m)
    ensures Rectangular(f) && |f| == |m| && |f[0]| == |m[0]|
  {
    seq(|m|, i requires 0 <= i < |m| => seq(|m[0]|, j requires 0 <= j < |m[0]| => m[|m| - 1 - i][|m[0]| - 1 - j]))
  }

  /** Two quarter turns are the half turn. */
  lemma RotateTwiceFlip(m: Shape)
    requires Rectangular(m)
    ensures Rotate(Rotate(m)) == Flip(m)
  {
    RotateTwice(m);
    var rr, f := Rotate(Rotate(m)), Flip(m);
    forall i | 0 <= i < |m|
      ensures rr[i] == f[i]
    {
      forall j | 0 <= j < |m[0]|
        ensures rr[i][j] == f[i][j]
      {
      }
    }
  }

  /** Two half turns give the matrix back. */
  lemma FlipFlip(m: Shape)
    requires Rectangular(m)
    ensures Flip(Flip(m)) == m
  {
    var ff := Flip(Flip(m));
    forall i | 0 <= i < |m|
      ensures ff[i] == m[i]
    {
      forall j | 0 <= j < |m[0]|
        ensures ff[i][j] == m[i][j]
      {
      }
    }
  }

  /** Four quarter turns give the original matrix back. */
  lemma RotateFour(m: Shape)
    requires Rectangular(m)
    ensures Rotate(Rotate(Rotate(Rotate(m)))) == m
  {
    RotateTwiceFlip(m);
    RotateTwiceFlip(Flip(m));
    FlipFlip(m);
  }

  /** A rotated tight box is still a tight box, with the sides swapped. */
  lemma RotateShapeOk(m: Shape)
    requires ShapeOk(m)
    ensures ShapeOk(Rotate(m))
  {
    var r := Rotate(m);
    forall j | 0 <= j < |r|
      ensures true in r[j]
    {
      var col := Column(m, j);
      assert true in col;
      var i :| 0 <= i < |col| && col[i];
      assert r[j][|m| - 1 - i] == m[i][j];
    }
    forall k | 0 <= k < |r[0]|
      ensures true in Column(r, k)
    {
      var i := |m| - 1 - k;
      assert true in m[i];
      var j :| 0 <= j < |m[i]| && m[i][j];
      assert Column(r, k)[j] == r[j][|m| - 1 - i];
    }
  }

  /** `s` after `n` clockwise quarter turns; every turn keeps it a tight box. */
  function Turns(s: Shape, n: nat): (t: Shape)
    requires ShapeOk(s)
    ensures ShapeOk(t)
  {
    if n == 0 then s
    else
      RotateShapeOk(Turns(s, n - 1));
      Rotate(Turns(s, n - 1))
  }

  /** One more turn of a shape turned `n < 4` times is the shape turned `n + 1` times, or
      the shape itself after the fourth turn: a piece's four orientations are closed under
      rotation. */
  lemma {:induction false} TurnsCycle(s: Shape, n: nat)
    requires ShapeOk(s)
    requires n < 4
    ensures Rotate(Turns(s, n)) == Turns(s, if n == 3 then 0 else n + 1)
  {
    if n < 3 {
      TurnsStep(s, n);
    } else {
      TurnsFour(s);
    }
  }

  /** Unfolds one turn. */
  lemma TurnsStep(s: Shape, n: nat)
    requires ShapeOk(s)
    ensures Turns(s, n + 1) == Rotate(Turns(s, n))
  {
  }

  /** The fourth turn gives the shape back. */
  lemma TurnsFour(s: Shape)
    requires ShapeOk(s)
    ensures Rotate(Turns(s, 3)) == s
  {
    var t0 := Turns(s, 0);
    var t1 := Turns(s, 1);
    var t2 := Turns(s, 2);
    assert t0 == s;
    assert t1 == Rotate(t0);
    assert t2 == Rotate(t1);
    assert Turns(s, 3) == Rotate(t2);
    RotateFour(s);
  }
}
