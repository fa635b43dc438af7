/** The game engine as the program runs it: static state held in one object,
    a 2-D integer board updated in place, and a piece object whose position and
    shape are updated by the key handlers. The board methods are proved against
    the closed forms of module Board on the ghost mirror `cells`; MovePieceDown,
    RotatePiece, HandleKeyPress and Step are proved to perform Rules.MoveDown,
    Rules.Rotate, Rules.Handle and Rules.Apply on Abs(), and InitializeGame to
    yield Rules.Initial. */
module TetrisGame {
  import opened Shapes
  import opened Board
  import opened Rules

  /** The falling piece, whose three properties the engine assigns in place. */
  class Tetromino {
    var Shape: Matrix
    var X: int
    var Y: int

    constructor (shape: Matrix, x: int, y: int)
      ensures Shape == shape && X == x && Y == y
    {
      Shape := shape;
      X := x;
      Y := y;
    }
  }

  /** The program's static game state: board, score, game-over flag and the
      current piece (none until the first spawn). */
  class Program {
    var board: array2<int>
    /** The board's contents as a value, kept equal to `board`. */
    ghost var cells: Grid
    var score: int
    var gameOver: bool
    var currentPiece: Tetromino?

    /** The board is Height x Width and its contents are 0/1 and mirrored in `cells`. */
    ghost predicate BoardValid()
      reads this, board
    {
      board.Length0 == Height && board.Length1 == Width && IsBoard(cells) &&
      (forall r, c :: 0 <= r < Height && 0 <= c < Width ==> board[r, c] == cells[r][c])
    }

    /** The score is a non-negative multiple of 100. */
    ghost predicate ScoreValid()
      reads this`score
    {
      score >= 0 && score % 100 == 0
    }

    /** BoardValid and ScoreValid, and a piece with a proper shape exists. */
    ghost predicate Valid()
      reads this, board, currentPiece
    {
      BoardValid() && ScoreValid() && currentPiece != null && IsShape(currentPiece.Shape)
    }

    /** The current state as a value. */
    ghost function Abs(): State
      reads this, board, currentPiece
      requires Valid()
    {
      State(cells, Piece(currentPiece.Shape, currentPiece.X, currentPiece.Y), score, gameOver)
    }

    /** InitializeGame: an all-zero 20 x 12 board, score 0, game running, then the
        first spawn with catalog shape `k`, which always fits. */
    constructor InitializeGame(k: nat)
      requires k < |Catalog()|
      ensures Valid() && Abs() == Initial(k)
      ensures cells == EmptyBoard() && score == 0 && !gameOver && Fits(Abs())
    {
      board := new int[Height, Width]((r, c) => 0);
      cells := EmptyBoard();
      score := 0;
      gameOver := false;
      currentPiece := null;
      new;
      SpawnNewPiece(k);
      InitialRunning(k);
    }

    /** SpawnNewPiece, with the random catalog index passed in as `k`. */
    method SpawnNewPiece(k: nat)
      requires BoardValid() && k < |Catalog()|
      modifies this`currentPiece, this`gameOver
      ensures BoardValid() && currentPiece != null && IsShape(currentPiece.Shape) && fresh(currentPiece)
      ensures currentPiece.Shape == Catalog()[k] && currentPiece.X == SpawnX && currentPiece.Y == 0
      ensures gameOver == (old(gameOver) || Collides(cells, SpawnX, 0, Catalog()[k]))
    {
      var shapes := Catalog();
      var shape := shapes[k];
      currentPiece := new Tetromino(shape, Width / 2 - 2, 0);
      var hit := CheckCollision(currentPiece.X, currentPiece.Y, currentPiece.Shape);
      if hit {
        gameOver := true;
      }
    }

    /** CheckCollision: the nested scan over the shape's cells, returning at the
        first blocked filled cell. */
    method CheckCollision(x: int, y: int, shape: Matrix) returns (hit: bool)
      requires BoardValid()
      ensures hit == Collides(cells, x, y, shape)
    {
      for i := 0 to |shape|
        invariant forall i', j :: 0 <= i' < i && 0 <= j < |shape[i']| && shape[i'][j] == 1 ==>
          !Blocked(cells, x + j, y + i')
      {
        for j := 0 to |shape[i]|
          invariant forall i', j' :: 0 <= i' < i && 0 <= j' < |shape[i']| && shape[i'][j'] == 1 ==>
            !Blocked(cells, x + j', y + i')
          invariant forall j' :: 0 <= j' < j && shape[i][j'] == 1 ==> !Blocked(cells, x + j', y + i)
        {
          if shape[i][j] == 1 {
            var boardX := x + j;
            var boardY := y + i;
            if boardX < 0 || boardX >= Width || boardY >= Height {
              assert Blocked(cells, x + j, y + i);
              return true;
            }
            if boardY >= 0 && board[boardY, boardX] == 1 {
              assert Blocked(cells, x + j, y + i);
              return true;
            }
          }
        }
      }
      return false;
    }

    /** LockPiece: writes 1 under every filled cell of the current piece that
        lies on the board. */
    method LockPiece()
      requires Valid()
      modifies board, this`cells
      ensures Valid()
      ensures cells == Locked(old(cells), currentPiece.X, currentPiece.Y, currentPiece.Shape)
    {
      ghost var g := cells;
      var shape := currentPiece.Shape;
      var px, py := currentPiece.X, currentPiece.Y;
      for i := 0 to |shape|
        invariant forall r, c :: 0 <= r < Height && 0 <= c < Width ==>
          board[r, c] == if Covers(shape, px, py, r, c) && r - py < i then 1 else g[r][c]
      {
        for j := 0 to |shape[i]|
          invariant forall r, c :: 0 <= r < Height && 0 <= c < Width ==>
            board[r, c] == if Covers(shape, px, py, r, c) && (r - py < i || (r - py == i && c - px < j)) then 1 else g[r][c]
        {
          if shape[i][j] == 1 {
            var boardX := px + j;
            var boardY := py + i;
            if boardY >= 0 && boardY < Height && boardX >= 0 && boardX < Width {
              board[boardY, boardX] := 1;
            }
          }
        }
      }
      cells := Locked(g, px, py, shape);
      LockedCells(g, px, py, shape);
    }

    /** The full-row test of ClearLines: stops at the first empty cell of row y. */
    method IsFullLine(y: int) returns (fullLine: bool)
      requires BoardValid() && 0 <= y < Height
      ensures fullLine == Full(cells[y])
    {
      fullLine := true;
      for x := 0 to Width
        invariant forall c :: 0 <= c < x ==> cells[y][c] != 0
      {
        if board[y, x] == 0 {
          fullLine := false;
          break;
        }
      }
    }

    /** The shift of ClearLines: rows y, y-1, ..., 1 each take the row above them;
        row 0 is left as it is. */
    method ShiftRowsDown(y: int)
      requires BoardValid() && 0 <= y < Height
      modifies board, this`cells
      ensures BoardValid()
      ensures cells == ShiftedDown(old(cells), y)
    {
      ghost var g := cells;
      var yy := y;
      while yy > 0
        invariant 0 <= yy <= y
        invariant forall r, c :: 0 <= r < Height && 0 <= c < Width ==>
          board[r, c] == if yy < r <= y then g[r - 1][c] else g[r][c]
      {
        for x := 0 to Width
          invariant forall r, c :: 0 <= r < Height && 0 <= c < Width ==>
            board[r, c] == if yy < r <= y || (r == yy && c < x) then g[r - 1][c] else g[r][c]
        {
          board[yy, x] := board[yy - 1, x];
        }
        yy := yy - 1;
      }
      cells := ShiftedDown(g, y);
      assert forall r :: 0 <= r < Height ==> cells[r] == if 0 < r <= y then g[r - 1] else g[r];
    }

    /** ClearLines: the bottom-up sweep that deletes each full row, shifting the
        rows above it down and examining the same index again. It returns only
        when row 0 is not full, which is therefore required. The board becomes
        Cleared(board) -- no full row is left, row 0 is unchanged, the other rows
        that were not full keep their order at the bottom -- and the score grows
        by 100 per deleted row. */
    method ClearLines()
      requires BoardValid() && !Full(cells[0])
      modifies board, this`cells, this`score
      ensures BoardValid()
      ensures cells == Cleared(old(cells))
      ensures score == old(score) + 100 * CountFull(old(cells)[1..])
    {
      var linesCleared := 0;
      ghost var g := cells;
      SweepClears(g);
      var y := Height - 1;
      while y >= 0
        invariant BoardValid() && score == old(score) && !Full(cells[0])
        invariant -1 <= y < Height
        invariant Sweep(cells, y).0 == Cleared(g)
        invariant linesCleared + Sweep(cells, y).1 == CountFull(g[1..])
        decreases SweepMeasure(cells, y)
      {
        SweepMeasureDrops(cells, y);
        var fullLine := IsFullLine(y);
        if fullLine {
          linesCleared := linesCleared + 1;
          ShiftRowsDown(y);
          y := y + 1;
        }
        y := y - 1;
      }
      if linesCleared > 0 {
        score := score + linesCleared * 100;
      }
    }

    /** MovePieceDown: shared by the gravity tick and the down key. `k` is the
        catalog index for the piece spawned if this one locks. */
    method MovePieceDown(k: nat)
      requires Valid() && k < |Catalog()| && CanSettle(Abs())
      modifies this, board, currentPiece
      ensures Valid() && Abs() == MoveDown(old(Abs()), k)
    {
      var hit := CheckCollision(currentPiece.X, currentPiece.Y + 1, currentPiece.Shape);
      if !hit {
        currentPiece.Y := currentPiece.Y + 1;
      } else {
        ghost var s := Abs();
        LockPiece();
        ClearLines();
        assert Abs() == Settle(s);
        SpawnNewPiece(k);
      }
    }

    /** RotatePiece: commits the quarter-turn only if it does not collide. */
    method RotatePiece()
      requires Valid()
      modifies currentPiece
      ensures Valid() && Abs() == Rotate(old(Abs()))
    {
      RotatedIsShape(currentPiece.Shape);
      var rotated := RotateMatrix(currentPiece.Shape);
      var hit := CheckCollision(currentPiece.X, currentPiece.Y, rotated);
      if !hit {
        currentPiece.Shape := rotated;
      }
    }

    /** HandleKeyPress, without the drawing. */
    method HandleKeyPress(key: Key, k: nat)
      requires Valid() && k < |Catalog()| && (key == DownArrow ==> CanSettle(Abs()))
      modifies this, board, currentPiece
      ensures Valid() && Abs() == Handle(old(Abs()), key, k)
    {
      match key {
        case LeftArrow =>
          var hit := CheckCollision(currentPiece.X - 1, currentPiece.Y, currentPiece.Shape);
          if !hit {
            currentPiece.X := currentPiece.X - 1;
          }
        case RightArrow =>
          var hit := CheckCollision(currentPiece.X + 1, currentPiece.Y, currentPiece.Shape);
          if !hit {
            currentPiece.X := currentPiece.X + 1;
          }
        case DownArrow =>
          MovePieceDown(k);
        case UpArrow =>
          RotatePiece();
        case Escape =>
          gameOver := true;
        case OtherKey =>
      }
    }

    /** One critical section under the game lock: a gravity tick of the game loop
        or one key handled by the input thread. The piece keeps fitting and the
        score never decreases, whatever order the threads take their turns in. */
    method Step(e: Event)
      requires Valid() && e.next < |Catalog()| && Returns(Abs(), e)
      modifies this, board, currentPiece
      ensures Valid() && Abs() == Apply(old(Abs()), e)
      ensures old(Fits(Abs())) ==> Fits(Abs())
      ensures score >= old(score)
    {
      ghost var s := Abs();
      match e {
        case Tick(k) => MovePieceDown(k);
        case Press(key, k) => HandleKeyPress(key, k);
      }
      StepPreserves(s, e);
    }
  }
}
