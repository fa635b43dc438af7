/** Tetromino shapes: occupancy matrices, the seven-shape catalog and the
    clockwise quarter-turn used by the rotate command. */
module Shapes {

  /** A jagged occupancy matrix, as the game's `int[][]`: row `i`, column `j`,
      1 for a filled cell. */
  type Matrix = seq<seq<int>>

  /** What the rotation loop needs in order not to index out of bounds: at least
      one row, and no row shorter than the first (whose length gives the column count). */
  predicate Rotatable(m: Matrix)
  {
    |m| > 0 && forall i :: 0 <= i < |m| ==> |m[i]| >= |m[0]|
  }

  /** A non-empty rectangle: at least one row and one column, all rows equally long. */
  predicate IsRectangle(m: Matrix)
  {
    |m| > 0 && |m[0]| > 0 && forall i :: 0 <= i < |m| ==> |m[i]| == |m[0]|
  }

  /** A proper shape: a non-empty rectangle of 0/1 cells. */
  predicate IsShape(m: Matrix)
  {
    |m| > 0 && |m[0]| > 0 &&
    forall i :: 0 <= i < |m| ==>
      |m[i]| == |m[0]| && forall j :: 0 <= j < |m[i]| ==> m[i][j] == 0 || m[i][j] == 1
  }

  /** The clockwise quarter-turn in closed form: an R x C matrix becomes a C x R
      matrix whose cell (i, j) is the original's cell (R-1-j, i). */
  function Rotated(m: Matrix): Matrix
    requires Rotatable(m)
  {
    seq(|m[0]|, i requires 0 <= i < |m[0]| =>
      seq(|m|, j requires 0 <= j < |m| => m[|m| - 1 - j][i]))
  }

  /** Number of filled cells of a row. */
  function RowCells(row: seq<int>): nat
  {
    if row == [] then 0 else (if row[0] == 1 then 1 else 0) + RowCells(row[1..])
  }

  /** Number of filled cells of a matrix. */
  function Cells(m: Matrix): nat
  {
    if m == [] then 0 else RowCells(m[0]) + Cells(m[1..])
  }

  /** The seven tetrominoes I, O, T, L, J, S, Z, in the game's order. Each is a
      rectangle of at most 2 rows and 4 columns holding exactly four cells. */
  function Catalog(): (shapes: seq<Matrix>)
    ensures |shapes| == 7
    ensures forall k :: 0 <= k < |shapes| ==>
      IsShape(shapes[k]) && Cells(shapes[k]) == 4 &&
      |shapes[k]| <= 2 && |shapes[k][0]| <= 4
  {
    [ [[1, 1, 1, 1]],             // I
      [[1, 1], [1, 1]],           // O
      [[0, 1, 0], [1, 1, 1]],     // T
      [[1, 0, 0], [1, 1, 1]],     // L
      [[0, 0, 1], [1, 1, 1]],     // J
      [[0, 1, 1], [1, 1, 0]],     // S
      [[1, 1, 0], [0, 1, 1]] ]    // Z
  }

  /** RotateMatrix: fills a fresh C x R array, row by row, from an R x C matrix. */
  method RotateMatrix(matrix: Matrix) returns (rotated: Matrix)
    requires Rotatable(matrix)
    ensures |rotated| == |matrix[0]|
    ensures forall i :: 0 <= i < |rotated| ==> |rotated[i]| == |matrix|
    ensures forall i, j :: 0 <= i < |rotated| && 0 <= j < |matrix| ==>
      rotated[i][j] == matrix[|matrix| - 1 - j][i]
    ensures rotated == Rotated(matrix)
  {
    var rows := |matrix|;
    var cols := |matrix[0]|;
    var out := new seq<int>[cols];
    for i := 0 to cols
      invariant forall i' :: 0 <= i' < i ==> |out[i']| == rows
      invariant forall i', j :: 0 <= i' < i && 0 <= j < rows ==> out[i'][j] == matrix[rows - 1 - j][i']
    {
      var row := new int[rows];
      for j := 0 to rows
        modifies row
        invariant forall j' :: 0 <= j' < j ==> row[j'] == matrix[rows - 1 - j'][i]
      {
        row[j] := matrix[rows - 1 - j][i];
      }
      out[i] := row[..];
    }
    rotated := out[..];
    assert |rotated| == |Rotated(matrix)|;
    forall i | 0 <= i < cols
      ensures rotated[i] == Rotated(matrix)[i]
    {
      assert |rotated[i]| == |Rotated(matrix)[i]|;
    }
  }

  /** A quarter-turn of a shape is a shape, with the dimensions swapped. */
  lemma RotatedIsShape(m: Matrix)
    requires IsShape(m)
    ensures Rotatable(m)
    ensures IsShape(Rotated(m))
    ensures |Rotated(m)| == |m[0]| && |Rotated(m)[0]| == |m|
  {
    var r := Rotated(m);
    forall i | 0 <= i < |r|
      ensures |r[i]| == |r[0]|
      ensures forall j :: 0 <= j < |r[i]| ==> r[i][j] == 0 || r[i][j] == 1
    {
      forall j | 0 <= j < |r[i]|
        ensures r[i][j] == 0 || r[i][j] == 1
      {
        assert r[i][j] == m[|m| - 1 - j][i];
      }
    }
  }

  /** A quarter-turn of a rectangle is a rectangle with the dimensions swapped,
      whatever its cell values. */
  lemma RotatedIsRectangle(m: Matrix)
    requires IsRectangle(m)
    ensures Rotatable(m)
    ensures IsRectangle(Rotated(m))
    ensures |Rotated(m)| == |m[0]| && |Rotated(m)[0]| == |m|
  {
    var r := Rotated(m);
    assert forall i :: 0 <= i < |r| ==> |r[i]| == |m|;
  }

  /** Two quarter-turns are a half-turn: cell (i, j) comes from (R-1-i, C-1-j). */
  lemma RotatedTwice(m: Matrix)
    requires IsRectangle(m)
    ensures IsRectangle(Rotated(m))
    ensures |Rotated(Rotated(m))| == |m| && |Rotated(Rotated(m))[0]| == |m[0]|
    ensures forall i, j :: 0 <= i < |m| && 0 <= j < |m[0]| ==>
      Rotated(Rotated(m))[i][j] == m[|m| - 1 - i][|m[0]| - 1 - j]
  {
    RotatedIsRectangle(m);
    RotatedIsRectangle(Rotated(m));
  }

  /** Four quarter-turns give back the original matrix, for any non-empty
      rectangle whatever its cell values. */
  lemma RotatedFourTimes(m: Matrix)
    requires IsRectangle(m)
    ensures IsRectangle(Rotated(m)) && IsRectangle(Rotated(Rotated(m))) && IsRectangle(Rotated(Rotated(Rotated(m))))
    ensures Rotated(Rotated(Rotated(Rotated(m)))) == m
  {
    RotatedTwice(m);
    var h := Rotated(Rotated(m));
    RotatedIsRectangle(Rotated(m));
    RotatedIsRectangle(h);
    RotatedTwice(h);
    var f := Rotated(Rotated(h));
    assert |f| == |m|;
    forall i | 0 <= i < |m|
      ensures f[i] == m[i]
    {
      assert |f[i]| == |m[i]|;
      forall j | 0 <= j < |m[i]|
        ensures f[i][j] == m[i][j]
      {
        assert f[i][j] == h[|h| - 1 - i][|h[0]| - 1 - j];
      }
    }
  }
}
