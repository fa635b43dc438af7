# Console Tetris engine in Dafny

This project models the game-state engine of a console falling-block game (Tetris) and proves properties of that model.

The engine keeps four pieces of state:
- a 20 x 12 integer board (0 empty, 1 filled), updated in place;
- a score;
- a game-over flag;
- the falling piece: a `Tetromino` with a shape matrix and an X, Y origin.

It offers these operations:
- spawning a random catalog shape at the top;
- the gravity tick and the down key: move down one row, or lock the piece, clear full lines and spawn the next piece;
- moving left and right;
- rotating a quarter turn clockwise, with no wall kick;
- Escape, which ends the game.

The project has four modules:
- `Shapes` (`shapes.dfy`): the shape matrix type and the seven-shape catalog. Also the closed form `Rotated` of the clockwise quarter-turn and the `RotateMatrix` method, which fills a fresh array as the game does.
- `Board` (`board.dfy`): the board as a value. It states the three board algorithms in closed form:
  - `Collides`: the collision test;
  - `Locked`: writing a piece into the board;
  - `Cleared`: the result of the bottom-up line-clearing sweep.

  `Sweep` is a ghost recursive mirror of the sweep loop. It links the loop to `Cleared`.
- `Rules` (`rules.dfy`): the game's transitions on an immutable `State` snapshot, and the invariants they keep:
  - `Spawn`, `Settle` (lock, then clear), `MoveDown`, `Shift`, `Rotate`, `Handle` (one key) and `Apply` (one step of either thread);
  - the invariants: a 0/1 board of fixed size, a piece that never overlaps anything while the game runs, and a score that only grows, in steps of 100.
- `TetrisGame` (`game.dfy`): the engine as the program runs it.
  - `Tetromino` is a class whose fields are assigned in place.
  - `Program` holds the state in an `array2<int>` board, with a ghost value mirror `cells` kept equal to it.
  - The methods use nested loops with early returns, and `ClearLines` moves its own loop index.
  - The board methods are proved against the `Board` closed forms on the ghost mirror `cells`:
    - `CheckCollision` answers `Collides`;
    - `LockPiece` leaves `Locked`;
    - `IsFullLine` answers `Full`;
    - `ShiftRowsDown` leaves `ShiftedDown`;
    - `ClearLines` leaves `Cleared`.
  - Four methods are proved against `Rules` functions: after the call, `Abs()` equals that function applied to `old(Abs())`.
    - `MovePieceDown` performs `Rules.MoveDown`.
    - `RotatePiece` performs `Rules.Rotate`.
    - `HandleKeyPress` performs `Rules.Handle`.
    - `Step` performs `Rules.Apply`.
  - The constructor `InitializeGame` yields `Rules.Initial`.
  - `SpawnNewPiece` states the new piece and the new game-over flag directly. `Rules.Spawn` describes the same change on a snapshot.

Two behaviours of the code are worth knowing:
- **Rows above a cleared line** are copies of the old row 0, not empty rows. Each deletion copies row 0 into row 1, and row 0 is never rewritten (`Board.Cleared`). They are empty only when row 0 was empty.
- **Every shape spawns at the same column**, X = Width/2 − 2 = 4, whatever its width (`Rules.SpawnX`).

The sweep in `ClearLines` never ends when row 0 is full:
- at y = 0 the shift does nothing, and `y++` tests row 0 again;
- a full row 0 also keeps row 1 full.

`ClearLines` therefore requires row 0 not to be full. The callers carry this as `Rules.CanSettle`: if the piece has landed, locking it leaves row 0 open.

## Model

| member | source | states |
|---|---|---|
| Shapes.Catalog | Program.cs:48-57 | the seven shapes I, O, T, L, J, S, Z in the game's order; each is a 0/1 rectangle of at most 2 x 4 cells with exactly four filled cells |
| Shapes.RotateMatrix | Program.cs:161-176 | an R x C matrix becomes a C x R matrix with `rotated[i][j] == matrix[R-1-j][i]`, equal to the closed form `Rotated` |
| Shapes.RotatedIsShape | Program.cs:161-176 | a quarter-turn of a 0/1 rectangle is a 0/1 rectangle with rows and columns swapped |
| Shapes.RotatedIsRectangle | Program.cs:161-176 | a quarter-turn of any non-empty rectangle is a rectangle with rows and columns swapped, whatever the cell values |
| Shapes.RotatedTwice | Program.cs:161-176 | for any non-empty rectangle, two quarter-turns are the half-turn: cell (i, j) comes from (R-1-i, C-1-j) |
| Shapes.RotatedFourTimes | Program.cs:161-176 | four quarter-turns give back any non-empty rectangle, whatever its cell values |
| TetrisGame.Program.CheckCollision | Program.cs:178-198 | the early-return scan answers exactly `Collides`: some filled cell lies outside the side walls, below the floor, or on a filled board cell |
| Board.FreeIffAllCellsFree | Program.cs:178-198 | a placement is free iff every filled cell is within the columns, above the floor, and either above row 0 or on an empty cell; above row 0 only the wall and floor tests apply |
| Board.OutOfBoundsCollides | Program.cs:189-190 | a filled cell beyond a wall or the floor makes the placement collide whatever the board holds |
| TetrisGame.Program.LockPiece | Program.cs:200-217 | the board afterwards is `Locked(old board, X, Y, Shape)`; the piece is unchanged |
| Board.LockedCells | Program.cs:200-217 | locking yields a 0/1 board; a cell is 1 afterwards iff it was 1 before or a filled shape cell maps onto it; every other cell keeps its value; cells above row 0 are dropped |
| Board.LockFillsOnlyEmptyCells | Program.cs:200-217 | a piece that does not collide covers only empty cells |
| TetrisGame.Program.IsFullLine | Program.cs:225-233 | the scan with early exit reports exactly whether every cell of row y is nonzero |
| TetrisGame.Program.ShiftRowsDown | Program.cs:238-244 | rows 1..y each take the row above them; row 0 and the rows below y are unchanged |
| TetrisGame.Program.ClearLines | Program.cs:219-254 | with row 0 not full: the board becomes `Cleared(old board)` and the score grows by exactly 100 per full row deleted |
| Board.Cleared | Program.cs:219-247 | clearing keeps the size and row 0; the rows that were not full stay packed at the bottom in their original order; above them are copies of row 0; no full row is left when row 0 was not full; a board without full rows is unchanged |
| Board.NonFull | Program.cs:235-246 | the rows kept are the rows that were not full: their number is the length minus the full-row count, none of them is full, and nothing is dropped when no row is full |
| Board.NonFullKeepsRows | Program.cs:235-246 | every row kept is a row of the input |
| Board.ClearedIsBoard | Program.cs:219-247 | clearing a 0/1 board gives a 0/1 board |
| Board.ClearedIdempotent | Program.cs:219-247 | with row 0 not full, the rows deleted are all the full rows of the board, none is left, and clearing again changes nothing |
| Board.SweepClears | Program.cs:223-247 | the bottom-up sweep, which tests the same index again after each deletion, ends in `Cleared` and deletes the full rows below the top |
| Board.SweepMeasureDrops | Program.cs:223-247 | while row 0 is not full, every pass either deletes a row below the top or moves one row up, so the sweep ends |
| TetrisGame.Tetromino.constructor | Program.cs:382-394 | the new piece has the given shape and origin |
| TetrisGame.Program.SpawnNewPiece | Program.cs:46-66 | a fresh piece with catalog shape k at (Width/2 − 2, 0); the game ends iff it was over already or that placement collides; the board and score are not modified |
| Rules.SpawnOutcome | Program.cs:46-66 | a spawn keeps board and score, places the catalog shape at (SpawnX, 0), and sets game-over exactly when that placement collides; the new piece then fits or the game is over |
| TetrisGame.Program.InitializeGame | Program.cs:38-44 | an all-zero 20 x 12 board, score 0, game running, then the first spawn |
| Rules.InitialRunning | Program.cs:38-44 | every catalog shape fits at the spawn point of an empty board, so a new game starts running with score 0 and the chosen shape at (SpawnX, 0) |
| TetrisGame.Program.MovePieceDown | Program.cs:86-101 | the state afterwards is `MoveDown` of the state before: one row down if free, otherwise lock, clear lines, then spawn |
| Rules.MoveDownOutcome | Program.cs:86-101 | with the row below free only Y changes, by one; otherwise the state is `Spawn(Settle(s))`; both keep the invariants and a fitting piece, and the score grows by a multiple of 100 |
| Rules.SettleOutcome | Program.cs:96-97 | locking and clearing keep a 0/1 board and row 0, leave no full row, add 100 per full row of the locked board, and do not touch the piece or the flag |
| TetrisGame.Program.RotatePiece | Program.cs:150-159 | the state afterwards is `Rotate` of the state before: the quarter-turn at the same origin if it does not collide, otherwise nothing changes |
| TetrisGame.Program.HandleKeyPress | Program.cs:118-148 | the state afterwards is `Handle` of the state before, for each key |
| Rules.RejectedMovesChangeNothing | Program.cs:122-143 | a left, right or rotate that would collide leaves the whole state unchanged; one that is applied changes only X (by one), or only the shape |
| Rules.LeftAtWallIsNoOp | Program.cs:122-129 | a piece with a filled cell in column 0 does not move left |
| Rules.EscapeEndsGame | Program.cs:144-146 | Escape ends the game from any state and changes nothing else |
| TetrisGame.Program.Step | Program.cs:68-116 | one critical section under the game lock, either a gravity tick or one key: it performs `Apply`, keeps a fitting piece fitting, and never lowers the score |
| Rules.StepPreserves | Program.cs:68-116 | every step of either thread, in any order, keeps the 0/1 fixed-size board and the shape invariant, keeps the piece fitting, and grows the score only in steps of 100 |

## Left out

- Drawing and console output are not modelled: `DrawBorders`, `DrawBoard`, `DrawPiece`, `ErasePiece`, `DrawPieceInternal`, `DrawScore` and `ShowGameOver`. The Erase/Draw calls inside the transitions are pure output.
- Console input is not modelled: `Console.KeyAvailable` and `Console.ReadKey`. Keys become the `Rules.Key` datatype, and every key other than the four arrows and Escape becomes `OtherKey`.
- Threads, the lock and timing are not modelled: `ReadInput`, `RunGameLoop`, `Thread.Sleep` and `DateTime.Now`.
  - Each section under `_lock` is one atomic `TetrisGame.Program.Step`.
  - `Rules.StepPreserves` holds for any interleaving of such steps.
  - Both loops stop once the game is over, but the model does not capture that.
- Randomness is not modelled: `_random.Next` becomes the catalog index parameter `k` of each operation that may spawn.
- The restart at the end of `Main` is not modelled. It is process orchestration.
- Shape matrices are modelled as values (`seq<seq<int>>`). The game never writes into a shape after building it: rotation builds a new one, and the catalog is rebuilt on every spawn. So no aliasing is lost.
- TetrisGame.Program.ClearLines: requires that row 0 not be full. In that case the source loops forever, and the model does not capture the non-terminating run.
- TetrisGame.Program.MovePieceDown: requires `CanSettle`, i.e. a landing piece must leave row 0 open, because the `ClearLines` call it makes does not return otherwise. `HandleKeyPress` (down key), `Step`, `Rules.MoveDown`, `Rules.Handle` and `Rules.Apply` carry the same condition.
- Shapes.RotateMatrix: requires a non-empty matrix whose rows are no shorter than the first. The source throws an index exception otherwise, and the model does not capture that. Every matrix the game rotates is a catalog shape or a rotation of one.
- The score is an unbounded integer. It does not model the 32-bit overflow of `_score`, which would take more than 21 million cleared lines.
- Piece coordinates are unbounded integers. The 32-bit X and Y of the source cannot overflow, since pieces stay within a few cells of the board.
