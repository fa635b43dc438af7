/** The 20 x 12 playing field as a value, and the three board algorithms of the
    game stated in closed form: the collision test, locking a piece into the
    board, and the bottom-up line-clearing sweep. */
module Board {
  import opened Shapes

  const Width: int := 12
  const Height: int := 20

  type Row = seq<int>
  /** Row-major: `g[r][c]` is the cell in row `r` (0 at the top) and column `c`. */
  type Grid = seq<Row>

  /** A board: Height rows of Width cells, each 0 (empty) or 1 (filled). */
  predicate IsBoard(g: Grid)
  {
    |g| == Height &&
    forall r :: 0 <= r < |g| ==>
      |g[r]| == Width && forall c :: 0 <= c < |g[r]| ==> g[r][c] == 0 || g[r][c] == 1
  }

  /** The freshly allocated board: every cell 0. */
  function EmptyBoard(): Grid
  {
    seq(Height, r => seq(Width, c => 0))
  }

  // ---------------------------------------------------------------- collision

  /** A filled shape cell landing on board column `boardX`, row `boardY` is blocked by the
      side walls, by the floor, or by a filled cell; a row above the top of the
      board (negative `boardY`) is only subject to the wall and floor tests. */
  predicate Blocked(g: Grid, boardX: int, boardY: int)
    requires IsBoard(g)
  {
    boardX < 0 || boardX >= Width || boardY >= Height || (boardY >= 0 && g[boardY][boardX] == 1)
  }

  /** The shape with its top-left cell at column `x`, row `y` collides when some
      filled cell of it is blocked. */
  predicate Collides(g: Grid, x: int, y: int, shape: Matrix)
    requires IsBoard(g)
  {
    exists i, j :: 0 <= i < |shape| && 0 <= j < |shape[i]| && shape[i][j] == 1 && Blocked(g, x + j, y + i)
  }

  /** The walls and the floor reject a placement whatever the board holds. */
  lemma OutOfBoundsCollides(g: Grid, x: int, y: int, shape: Matrix, i: int, j: int)
    requires IsBoard(g)
    requires 0 <= i < |shape| && 0 <= j < |shape[i]| && shape[i][j] == 1
    requires x + j < 0 || x + j >= Width || y + i >= Height
    ensures Collides(g, x, y, shape)
  {
  }

  /** A placement whose filled cells all lie in bounds and on empty cells is free,
      and conversely: Collides is exactly the negation of this cell-wise test. */
  lemma {:induction false} FreeIffAllCellsFree(g: Grid, x: int, y: int, shape: Matrix)
    requires IsBoard(g)
    ensures !Collides(g, x, y, shape) <==>
      forall i, j :: 0 <= i < |shape| && 0 <= j < |shape[i]| && shape[i][j] == 1 ==>
        0 <= x + j < Width && y + i < Height && (y + i < 0 || g[y + i][x + j] == 0)
  {
    if !Collides(g, x, y, shape) {
      forall i, j | 0 <= i < |shape| && 0 <= j < |shape[i]| && shape[i][j] == 1
        ensures 0 <= x + j < Width && y + i < Height && (y + i < 0 || g[y + i][x + j] == 0)
      {
        assert !Blocked(g, x + j, y + i);
      }
    }
  }

  // ---------------------------------------------------------------------- lock

  /** Board cell (r, c) lies under a filled cell of the shape placed at (x, y). */
  predicate Covers(shape: Matrix, x: int, y: int, r: int, c: int)
  {
    0 <= r - y < |shape| && 0 <= c - x < |shape[r - y]| && shape[r - y][c - x] == 1
  }

  /** The board after locking the shape placed at (x, y): every board cell under a
      filled shape cell becomes 1; shape cells outside the board are dropped. */
  function Locked(g: Grid, x: int, y: int, shape: Matrix): Grid
    requires IsBoard(g)
  {
    seq(Height, r requires 0 <= r < Height =>
      seq(Width, c requires 0 <= c < Width => if Covers(shape, x, y, r, c) then 1 else g[r][c]))
  }

  /** Locking, stated the way the lock loop works (from the shape's cells to the
      board): it yields a board, a cell is 1 afterwards iff it was 1 before or some
      filled shape cell maps onto it, and every other cell keeps its value. */
  lemma LockedCells(g: Grid, x: int, y: int, shape: Matrix)
    requires IsBoard(g)
    ensures IsBoard(Locked(g, x, y, shape))
    ensures forall r, c :: 0 <= r < Height && 0 <= c < Width ==>
      (Locked(g, x, y, shape)[r][c] == 1 <==>
        g[r][c] == 1 ||
        exists i, j :: 0 <= i < |shape| && 0 <= j < |shape[i]| && shape[i][j] == 1 && y + i == r && x + j == c)
    ensures forall r, c :: 0 <= r < Height && 0 <= c < Width && !Covers(shape, x, y, r, c) ==>
      Locked(g, x, y, shape)[r][c] == g[r][c]
  {
    var l := Locked(g, x, y, shape);
    forall r, c | 0 <= r < Height && 0 <= c < Width
      ensures l[r][c] == 1 <==>
        g[r][c] == 1 ||
        exists i, j :: 0 <= i < |shape| && 0 <= j < |shape[i]| && shape[i][j] == 1 && y + i == r && x + j == c
    {
      if Covers(shape, x, y, r, c) {
        var i, j := r - y, c - x;
        assert shape[i][j] == 1 && y + i == r && x + j == c;
      }
    }
  }

  /** Locking a piece that does not collide fills only cells that were empty, so
      it adds exactly the piece's in-bounds cells to the board. */
  lemma LockFillsOnlyEmptyCells(g: Grid, x: int, y: int, shape: Matrix)
    requires IsBoard(g)
    requires !Collides(g, x, y, shape)
    ensures forall r, c :: 0 <= r < Height && 0 <= c < Width && Covers(shape, x, y, r, c) ==> g[r][c] == 0
  {
    forall r, c | 0 <= r < Height && 0 <= c < Width && Covers(shape, x, y, r, c)
      ensures g[r][c] == 0
    {
      var i, j := r - y, c - x;
      assert !Blocked(g, x + j, y + i);
    }
  }

  // --------------------------------------------------------------- line clear

  /** A full row: no cell is 0. */
  predicate Full(row: Row)
  {
    forall c :: 0 <= c < |row| ==> row[c] != 0
  }

  /** Number of full rows. */
  function CountFull(rows: seq<Row>): nat
  {
    if rows == [] then 0 else (if Full(rows[0]) then 1 else 0) + CountFull(rows[1..])
  }

  /** The rows that are not full, in their original order. */
  function NonFull(rows: seq<Row>): (kept: seq<Row>)
    ensures |kept| + CountFull(rows) == |rows|
    ensures forall k :: 0 <= k < |kept| ==> !Full(kept[k])
    ensures CountFull(rows) == 0 ==> kept == rows
  {
    if rows == [] then [] else (if Full(rows[0]) then [] else [rows[0]]) + NonFull(rows[1..])
  }

  /** Every row NonFull keeps is a row of its input. */
  lemma {:induction false} NonFullKeepsRows(rows: seq<Row>)
    ensures forall k :: 0 <= k < |NonFull(rows)| ==> NonFull(rows)[k] in rows
  {
    if rows != [] {
      NonFullKeepsRows(rows[1..]);
    }
  }

  /** `n` copies of a row. */
  function Repeat(row: Row, n: nat): (rows: seq<Row>)
  {
    seq(n, _ => row)
  }

  /** What the line-clearing sweep leaves behind. Each full row below the top is
      deleted and the rows above it move down one; the top row is never rewritten,
      so it is copied into the row beneath it once per deletion. The rows that
      were not full end up packed at the bottom in their original order, under
      copies of the top row. */
  function Cleared(g: Grid): (h: Grid)
    requires |g| > 0
    ensures |h| == |g| && h[0] == g[0]
    ensures forall r :: 0 <= r < |h| - |NonFull(g[1..])| ==> h[r] == g[0]
    ensures h[|h| - |NonFull(g[1..])|..] == NonFull(g[1..])
    ensures !Full(g[0]) ==> forall r :: 0 <= r < |h| ==> !Full(h[r])
    ensures CountFull(g[1..]) == 0 ==> h == g
  {
    Repeat(g[0], 1 + CountFull(g[1..])) + NonFull(g[1..])
  }

  /** A sequence of rows with no full row counts 0 full rows. */
  lemma {:induction false} NoFullCountsZero(rows: seq<Row>)
    requires forall k :: 0 <= k < |rows| ==> !Full(rows[k])
    ensures CountFull(rows) == 0
  {
    if rows != [] {
      NoFullCountsZero(rows[1..]);
    }
  }

  /** Clearing a board yields a board. */
  lemma ClearedIsBoard(g: Grid)
    requires IsBoard(g)
    ensures IsBoard(Cleared(g))
  {
    var h := Cleared(g);
    forall r | 0 <= r < |h|
      ensures |h[r]| == Width && forall c :: 0 <= c < |h[r]| ==> h[r][c] == 0 || h[r][c] == 1
    {
      var k := 1 + CountFull(g[1..]);
      if r >= k {
        NonFullKeepsRows(g[1..]);
        assert h[r] == NonFull(g[1..])[r - k];
        assert h[r] in g[1..];
      }
    }
  }

  /** With the top row not full, the rows removed are exactly the full rows of the
      board; clearing again changes nothing. */
  lemma ClearedIdempotent(g: Grid)
    requires |g| > 0 && !Full(g[0])
    ensures CountFull(g) == CountFull(g[1..])
    ensures CountFull(Cleared(g)[1..]) == 0
    ensures Cleared(Cleared(g)) == Cleared(g)
  {
    var h := Cleared(g);
    NoFullCountsZero(h[1..]);
  }

  /** The shift of the sweep at index y: rows 1..y take the rows above them and
      row 0 stays, so the row at index y is gone and row 0 is now twice on top. */
  function ShiftedDown(b: Grid, y: int): (s: Grid)
    requires 0 <= y < |b|
    ensures |s| == |b| && s[0] == b[0]
  {
    [b[0]] + b[..y] + b[y + 1..]
  }

  /** Counting full rows after appending one. */
  lemma {:induction false} CountFullSnoc(rows: seq<Row>, row: Row)
    ensures CountFull(rows + [row]) == CountFull(rows) + (if Full(row) then 1 else 0)
  {
    if rows != [] {
      assert (rows + [row])[1..] == rows[1..] + [row];
      CountFullSnoc(rows[1..], row);
    }
  }

  /** What the sweep has left to do at index y: the full rows at or above y, plus
      the rows still to be examined. */
  ghost function SweepMeasure(b: Grid, y: int): nat
    requires -1 <= y < |b|
  {
    CountFull(b[..y + 1]) + y + 1
  }

  /** While row 0 is not full, every iteration of the sweep makes progress:
      deleting the full row at y (y is then not 0) or moving on to y - 1. */
  lemma SweepMeasureDrops(b: Grid, y: int)
    requires 0 <= y < |b| && !Full(b[0])
    ensures Full(b[y]) ==> y > 0 && SweepMeasure(ShiftedDown(b, y), y) < SweepMeasure(b, y)
    ensures !Full(b[y]) ==> SweepMeasure(b, y - 1) < SweepMeasure(b, y)
  {
    assert b[..y + 1] == b[..y] + [b[y]];
    CountFullSnoc(b[..y], b[y]);
    if Full(b[y]) {
      var s := ShiftedDown(b, y);
      assert s[..y + 1] == [b[0]] + b[..y];
      assert ([b[0]] + b[..y])[1..] == b[..y];
    }
  }

  /** The sweep as the loop runs it, from index y upwards: the board it leaves and
      the number of rows it deletes. A full row is deleted and the same index
      examined again; otherwise the sweep moves up one row. */
  ghost function Sweep(b: Grid, y: int): (Grid, nat)
    requires -1 <= y < |b| && |b| > 0 && !Full(b[0])
    decreases SweepMeasure(b, y)
  {
    if y < 0 then (b, 0)
    else if Full(b[y]) then
      SweepMeasureDrops(b, y);
      var r := Sweep(ShiftedDown(b, y), y);
      (r.0, r.1 + 1)
    else
      SweepMeasureDrops(b, y);
      Sweep(b, y - 1)
  }

  /** Appending a row to the rows NonFull is taken of. */
  lemma {:induction false} NonFullSnoc(rows: seq<Row>, row: Row)
    ensures NonFull(rows + [row]) == NonFull(rows) + (if Full(row) then [] else [row])
  {
    if rows != [] {
      assert (rows + [row])[1..] == rows[1..] + [row];
      NonFullSnoc(rows[1..], row);
    }
  }

  /** The board the sweep leaves when started at index y: below y nothing
      changes; rows 0..y hold the rows of 1..y that were not full, in order, under
      copies of row 0. */
  ghost function SweepResult(b: Grid, y: int): Grid
    requires 0 <= y < |b|
  {
    Repeat(b[0], 1 + CountFull(b[1..y + 1])) + NonFull(b[1..y + 1]) + b[y + 1..]
  }

  /** A row that is not full, put in front, is kept and not counted. */
  lemma NotFullCons(row: Row, rows: seq<Row>)
    requires !Full(row)
    ensures CountFull([row] + rows) == CountFull(rows)
    ensures NonFull([row] + rows) == [row] + NonFull(rows)
  {
    assert ([row] + rows)[1..] == rows;
  }

  /** Deleting the full row y (not the top row) leaves the sweep with one full
      row fewer to delete and the same final board. */
  lemma SweepResultFull(b: Grid, y: int)
    requires 0 < y < |b| && !Full(b[0]) && Full(b[y])
    ensures SweepResult(ShiftedDown(b, y), y) == SweepResult(b, y)
    ensures CountFull(ShiftedDown(b, y)[1..y + 1]) + 1 == CountFull(b[1..y + 1])
  {
    var s := ShiftedDown(b, y);
    var t := b[1..y];
    var n := CountFull(t);
    assert b[1..y + 1] == t + [b[y]];
    CountFullSnoc(t, b[y]);
    NonFullSnoc(t, b[y]);
    assert s[1..y + 1] == [b[0]] + t;
    NotFullCons(b[0], t);
    assert s[y + 1..] == b[y + 1..];
    assert Repeat(b[0], 1 + n) + [b[0]] == Repeat(b[0], 2 + n);
  }

  /** Passing over a row y that is not full leaves the final board as it is. */
  lemma SweepResultKeep(b: Grid, y: int)
    requires 0 < y < |b| && !Full(b[y])
    ensures SweepResult(b, y - 1) == SweepResult(b, y)
    ensures CountFull(b[1..y]) == CountFull(b[1..y + 1])
  {
    var t := b[1..y];
    assert b[1..y + 1] == t + [b[y]];
    CountFullSnoc(t, b[y]);
    NonFullSnoc(t, b[y]);
    assert b[y..] == [b[y]] + b[y + 1..];
  }

  /** One iteration of the sweep. */
  lemma SweepUnfold(b: Grid, y: int)
    requires 0 <= y < |b| && !Full(b[0])
    ensures Full(b[y]) ==> y > 0
    ensures Full(b[y]) ==>
      Sweep(b, y) == (Sweep(ShiftedDown(b, y), y).0, Sweep(ShiftedDown(b, y), y).1 + 1)
    ensures !Full(b[y]) ==> Sweep(b, y) == Sweep(b, y - 1)
    ensures Sweep(b, -1) == (b, 0)
  {
  }

  /** The sweep from index y leaves SweepResult and deletes the full rows among
      rows 1..y. */
  lemma {:induction false} SweepIsResult(b: Grid, y: int)
    requires 0 <= y < |b| && !Full(b[0])
    ensures Sweep(b, y) == (SweepResult(b, y), CountFull(b[1..y + 1]))
    decreases SweepMeasure(b, y)
  {
    SweepMeasureDrops(b, y);
    SweepUnfold(b, y);
    if y == 0 {
      assert b[1..1] == [];
      assert Repeat(b[0], 1) == [b[0]];
      assert SweepResult(b, 0) == [b[0]] + b[1..] == b;
    } else if Full(b[y]) {
      SweepIsResult(ShiftedDown(b, y), y);
      SweepResultFull(b, y);
    } else {
      SweepIsResult(b, y - 1);
      SweepResultKeep(b, y);
    }
  }

  /** The sweep over a whole board whose top row is not full leaves Cleared(g)
      and deletes exactly the full rows below the top. */
  lemma SweepClears(g: Grid)
    requires |g| == Height && !Full(g[0])
    ensures Sweep(g, Height - 1) == (Cleared(g), CountFull(g[1..]))
  {
    SweepIsResult(g, Height - 1);
    var t := g[1..];
    assert g[1..Height] == t;
    assert g[Height..] == [];
    assert SweepResult(g, Height - 1) == Repeat(g[0], 1 + CountFull(t)) + NonFull(t);
  }
}
