/** The game's transitions on an immutable snapshot of its state: spawning a
    piece, the gravity tick / down key, the four other keys, and the atomic steps
    the gravity and input threads take. The engine's methods are proved to
    perform exactly these transitions; the game's invariants are proved here. */
module Rules {
  import opened Shapes
  import opened Board

  /** The falling piece: its shape and the board column and row of its top-left cell. */
  datatype Piece = Piece(shape: Matrix, x: int, y: int)

  datatype State = State(board: Grid, piece: Piece, score: int, gameOver: bool)

  /** The keys the game reacts to; every other key is OtherKey. */
  datatype Key = LeftArrow | RightArrow | DownArrow | UpArrow | Escape | OtherKey

  /** One critical section: a gravity tick or one key press. `next` is the catalog
      index the random generator would pick if the step spawns a piece. */
  datatype Event = Tick(next: nat) | Press(key: Key, next: nat)

  /** Column where every new piece starts. */
  const SpawnX: int := Width / 2 - 2

  /** The structural invariant: a 0/1 board of fixed size, a proper shape, and a
      score that is a non-negative multiple of 100. */
  predicate Inv(s: State)
  {
    IsBoard(s.board) && IsShape(s.piece.shape) && s.score >= 0 && s.score % 100 == 0
  }

  /** While the game is running the piece never overlaps a wall, the floor or a
      filled cell. */
  predicate Fits(s: State)
    requires IsBoard(s.board)
  {
    !s.gameOver ==> !Collides(s.board, s.piece.x, s.piece.y, s.piece.shape)
  }

  /** The piece could not move down one row. */
  predicate Landed(s: State)
    requires IsBoard(s.board)
  {
    Collides(s.board, s.piece.x, s.piece.y + 1, s.piece.shape)
  }

  /** Board after the landed piece is locked in place, before lines are cleared. */
  function LockedBoard(s: State): Grid
    requires IsBoard(s.board)
  {
    Locked(s.board, s.piece.x, s.piece.y, s.piece.shape)
  }

  /** The line-clearing sweep returns only when the top row is not full, so a
      drop that locks the piece returns only when locking leaves row 0 open. */
  predicate CanSettle(s: State)
    requires IsBoard(s.board)
  {
    Landed(s) ==> !Full(LockedBoard(s)[0])
  }

  /** The steps that return: all except a drop whose lock fills row 0. */
  predicate Returns(s: State, e: Event)
    requires IsBoard(s.board)
  {
    (e.Tick? || e.key == DownArrow) ==> CanSettle(s)
  }

  /** SpawnNewPiece: catalog shape `k` at (SpawnX, 0); the game ends if it collides. */
  function Spawn(s: State, k: nat): State
    requires IsBoard(s.board) && k < |Catalog()|
  {
    var shape := Catalog()[k];
    s.(piece := Piece(shape, SpawnX, 0), gameOver := s.gameOver || Collides(s.board, SpawnX, 0, shape))
  }

  /** LockPiece followed by ClearLines: 100 points per deleted row. */
  function Settle(s: State): State
    requires IsBoard(s.board) && !Full(LockedBoard(s)[0])
  {
    var locked := LockedBoard(s);
    s.(board := Cleared(locked), score := s.score + 100 * CountFull(locked[1..]))
  }

  /** MovePieceDown: move down a row if free, otherwise lock, clear and spawn. */
  function MoveDown(s: State, k: nat): State
    requires IsBoard(s.board) && k < |Catalog()| && CanSettle(s)
  {
    if !Landed(s) then s.(piece := s.piece.(y := s.piece.y + 1))
    else
      LockedCells(s.board, s.piece.x, s.piece.y, s.piece.shape);
      ClearedIsBoard(LockedBoard(s));
      Spawn(Settle(s), k)
  }

  /** Sideways move by `dx`, applied only when the new placement is free. */
  function Shift(s: State, dx: int): State
    requires IsBoard(s.board)
  {
    if !Collides(s.board, s.piece.x + dx, s.piece.y, s.piece.shape) then s.(piece := s.piece.(x := s.piece.x + dx)) else s
  }

  /** RotatePiece: the quarter-turn at the same origin, applied only when free. */
  function Rotate(s: State): State
    requires IsBoard(s.board) && IsShape(s.piece.shape)
  {
    RotatedIsShape(s.piece.shape);
    var rotated := Rotated(s.piece.shape);
    if !Collides(s.board, s.piece.x, s.piece.y, rotated) then s.(piece := s.piece.(shape := rotated)) else s
  }

  /** HandleKeyPress. */
  function Handle(s: State, key: Key, k: nat): State
    requires IsBoard(s.board) && IsShape(s.piece.shape) && k < |Catalog()|
    requires key == DownArrow ==> CanSettle(s)
  {
    match key
    case LeftArrow => Shift(s, -1)
    case RightArrow => Shift(s, 1)
    case DownArrow => MoveDown(s, k)
    case UpArrow => Rotate(s)
    case Escape => s.(gameOver := true)
    case OtherKey => s
  }

  /** One critical section of the gravity thread or of the input thread. */
  function Apply(s: State, e: Event): State
    requires IsBoard(s.board) && IsShape(s.piece.shape) && e.next < |Catalog()| && Returns(s, e)
  {
    match e
    case Tick(k) => MoveDown(s, k)
    case Press(key, k) => Handle(s, key, k)
  }

  /** The new game: an empty board, score 0, then the first spawn. */
  function Initial(k: nat): State
    requires k < |Catalog()|
  {
    Spawn(State(EmptyBoard(), Piece([], 0, 0), 0, false), k)
  }

  // ------------------------------------------------------------------ lemmas

  /** Every catalog shape fits at the spawn position of an empty board, so a new
      game starts running. */
  lemma InitialRunning(k: nat)
    requires k < |Catalog()|
    ensures Inv(Initial(k)) && Fits(Initial(k)) && !Initial(k).gameOver
    ensures Initial(k).board == EmptyBoard() && Initial(k).score == 0
    ensures Initial(k).piece == Piece(Catalog()[k], SpawnX, 0)
  {
    var shape := Catalog()[k];
    var g := EmptyBoard();
    FreeIffAllCellsFree(g, SpawnX, 0, shape);
    assert forall i :: 0 <= i < |shape| ==> |shape[i]| == |shape[0]|;
  }

  /** A spawn changes neither board nor score; it ends the game exactly when the
      new piece collides, and leaves the new piece fitting. */
  lemma SpawnOutcome(s: State, k: nat)
    requires Inv(s) && k < |Catalog()|
    ensures var t := Spawn(s, k);
      Inv(t) && Fits(t) && t.board == s.board && t.score == s.score &&
      t.piece == Piece(Catalog()[k], SpawnX, 0) &&
      (t.gameOver <==> s.gameOver || Collides(s.board, SpawnX, 0, Catalog()[k]))
  {
  }

  /** Settling keeps a board, keeps row 0, leaves no full row, and adds 100 per
      full row of the locked board. */
  lemma SettleOutcome(s: State)
    requires Inv(s) && !Full(LockedBoard(s)[0])
    ensures var t := Settle(s);
      Inv(t) && t.board[0] == LockedBoard(s)[0] &&
      (forall r :: 0 <= r < Height ==> !Full(t.board[r])) &&
      t.score == s.score + 100 * CountFull(LockedBoard(s)) &&
      t.piece == s.piece && t.gameOver == s.gameOver
  {
    var locked := LockedBoard(s);
    LockedCells(s.board, s.piece.x, s.piece.y, s.piece.shape);
    ClearedIsBoard(locked);
    ClearedIdempotent(locked);
  }

  /** MovePieceDown: with the row below free only Y changes (by one); otherwise
      the board is settled and a new piece spawned. Both keep the invariants, the
      piece always fits afterwards, and the score grows by a multiple of 100. */
  lemma MoveDownOutcome(s: State, k: nat)
    requires Inv(s) && k < |Catalog()| && CanSettle(s)
    ensures var t := MoveDown(s, k);
      Inv(t) && Fits(t) && t.score >= s.score && (t.score - s.score) % 100 == 0
    ensures !Landed(s) ==> MoveDown(s, k) == s.(piece := Piece(s.piece.shape, s.piece.x, s.piece.y + 1))
    ensures Landed(s) ==> MoveDown(s, k) == Spawn(Settle(s), k)
  {
    if Landed(s) {
      SettleOutcome(s);
      SpawnOutcome(Settle(s), k);
    } else {
      assert Fits(MoveDown(s, k));
    }
  }

  /** A sideways move or rotation that would collide leaves the whole state
      unchanged; one that is applied changes only the piece, and it fits. */
  lemma RejectedMovesChangeNothing(s: State, k: nat)
    requires Inv(s) && k < |Catalog()|
    ensures Collides(s.board, s.piece.x - 1, s.piece.y, s.piece.shape) ==> Handle(s, LeftArrow, k) == s
    ensures Collides(s.board, s.piece.x + 1, s.piece.y, s.piece.shape) ==> Handle(s, RightArrow, k) == s
    ensures Rotatable(s.piece.shape) &&
      (Collides(s.board, s.piece.x, s.piece.y, Rotated(s.piece.shape)) ==> Handle(s, UpArrow, k) == s)
    ensures !Collides(s.board, s.piece.x - 1, s.piece.y, s.piece.shape) ==>
      Handle(s, LeftArrow, k) == s.(piece := Piece(s.piece.shape, s.piece.x - 1, s.piece.y))
    ensures !Collides(s.board, s.piece.x + 1, s.piece.y, s.piece.shape) ==>
      Handle(s, RightArrow, k) == s.(piece := Piece(s.piece.shape, s.piece.x + 1, s.piece.y))
    ensures !Collides(s.board, s.piece.x, s.piece.y, Rotated(s.piece.shape)) ==>
      Handle(s, UpArrow, k) == s.(piece := Piece(Rotated(s.piece.shape), s.piece.x, s.piece.y))
  {
    RotatedIsShape(s.piece.shape);
  }

  /** A piece touching the left wall cannot move left: the key changes nothing. */
  lemma LeftAtWallIsNoOp(s: State, k: nat, i: int, j: int)
    requires Inv(s) && k < |Catalog()|
    requires 0 <= i < |s.piece.shape| && 0 <= j < |s.piece.shape[i]| && s.piece.shape[i][j] == 1
    requires s.piece.x + j == 0
    ensures Handle(s, LeftArrow, k) == s
  {
    OutOfBoundsCollides(s.board, s.piece.x - 1, s.piece.y, s.piece.shape, i, j);
  }

  /** Escape ends the game whatever the state, and changes nothing else. */
  lemma EscapeEndsGame(s: State, k: nat)
    requires Inv(s) && k < |Catalog()|
    ensures Handle(s, Escape, k) == State(s.board, s.piece, s.score, true)
  {
  }

  /** Every step that returns keeps the invariants and keeps the piece fitting,
      whichever thread takes it and in whichever order: the score never
      decreases and only grows in multiples of 100. */
  lemma {:induction false} StepPreserves(s: State, e: Event)
    requires Inv(s) && e.next < |Catalog()| && Returns(s, e)
    ensures var t := Apply(s, e);
      Inv(t) && (Fits(s) ==> Fits(t)) && t.score >= s.score && (t.score - s.score) % 100 == 0
  {
    var k := e.next;
    match e {
      case Tick(_) =>
        MoveDownOutcome(s, k);
      case Press(key, _) =>
        match key {
          case DownArrow => MoveDownOutcome(s, k);
          case UpArrow => RejectedMovesChangeNothing(s, k);
          case _ =>
        }
    }
  }
}
