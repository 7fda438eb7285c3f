# Tetris game-state core in Dafny

This project models the rules of a small Tetris clone written in Python
(`main.py`), leaving out drawing and input handling. The parts modelled are:

- **Pieces.** A `Tetromino` is built from one of seven 0/1 template matrices. It
  precomputes its four orientations with `rotate_matrix`, the Python idiom
  `zip(*m[::-1])`. It cycles through them with `rotate` and shows the current
  one with `get_image`.
- **The board.** `TetrisGame` holds:
  - a 30 x 40 grid of colours, where black means empty;
  - the falling piece and the next piece;
  - the score;
  - the game-over flag.
- **The rules.**
  - `check_collision`: a row-major scan of the occupied cells of the shown
    image that stops at the first cell that collides.
  - `lock_piece`: writes the piece into the grid, clears full rows, promotes
    the next piece and may end the game.
  - `clear_filled_lines`: deletes each full row and inserts a blank one on top,
    then adds a flat 100 points.
  - `move_piece`, `drop_piece` and `rotate_piece`: move, drop and turn the
    falling piece.
  - The running branch of `update_game_status`: one gravity step per frame.

The model reproduces the program as written, including three quirks:

- The right-wall test of `check_collision` ignores the column offset. So a
  test one column to the right of a piece touching the right wall indexes
  past the end of a grid row, and Python raises `IndexError`. The model
  returns `IndexError` in that case (`Collisions.Outcome`) and proves exactly
  when it happens.
- `move_piece` tests the requested offset but always moves one column right.
- `clear_filled_lines` adds 100 points on every call, even when no row is full.

Modules, one per file:

| file | module | contents |
|---|---|---|
| `matrices.dfy` | `Matrices` | `zip`, row reversal, the quarter turn, and the facts that make four turns a cycle |
| `config.dfy` | `Config` | window and board constants, colours, palette, the seven templates |
| `board.dfy` | `Board` | the grid; the reference definitions of clearing rows and stamping a piece, with their lemmas |
| `collision.dfy` | `Collisions` | the collision scan as a function, and what it means |
| `tetromino.dfy` | `Pieces` | class `Tetromino` |
| `game.dfy` | `Game` | class `TetrisGame`: the rule methods, proved against the `Board` and `Collisions` definitions |

How the source maps into Dafny:

- The grid is a `seq<seq<Color>>` field. The methods reassign it the way the
  Python code deletes, inserts and writes list elements.
- The piece position and rotation state are mutable fields. The orientations
  and colour are `const`, because the source never reassigns them.
- Calls to `random.choice` become index parameters (`shapeIndex`,
  `colorIndex`, ...).

## Model

| member | source | states |
|---|---|---|
| Matrices.Rotate90 | main.py:64-66 | defines `rotate_matrix`: `zip` over the rows in reverse order, cut to the shortest row; `RotateRectangle` proves it is the clockwise quarter turn |
| Matrices.ZipWidth | main.py:66 | the number of tuples `zip(*m)` yields is at most every row length, equals some row length, and is 0 for no rows |
| Matrices.RotateRectangle | main.py:64-66 | turning an r x c matrix gives a c x r matrix whose cell (i, j) is cell (r-1-j, i) of the original: a clockwise quarter turn |
| Matrices.HalfTurn | main.py:64-66 | two turns of an r x c matrix give cell (i, j) = original cell (r-1-i, c-1-j) |
| Matrices.FourTurnsIdentity | main.py:45-50 | four quarter turns of a rectangular template give the template back |
| Matrices.OrientationsAreTurns | main.py:45-50 | the k-th precomputed orientation is the template turned k times |
| Matrices.ChainIsOrientations | main.py:45-50 | four matrices are each the turn of the one before exactly when they are the four orientations of the first |
| Matrices.OrientationsCycle | main.py:45-57 | turning orientation k gives orientation (k+1) mod 4, including the wrap from the last back to the first |
| Config.BoardSize | main.py:7-11 | the board is 40 columns by 30 rows, so pieces spawn at column 40 // 2 - 2 = 18 |
| Config.PaletteHasNoBlack | main.py:15-27 | no piece colour is the empty-cell colour |
| Config.TemplatesAreRectangular | main.py:30-38 | every template is a non-empty rectangle |
| Board.EmptyGrid | main.py:72 | the initial grid is Rows x Columns |
| Board.Kept | main.py:112-115 | defines the rows that survive clearing, the non-full rows in their old order; never more rows than the grid (`KeptRows`, `NotFullIsKept` and `KeptCount` characterise it) |
| Board.Cleared | main.py:111-115 | defines the grid after clearing: one blank row per removed row on top of the survivors, with as many rows as before (`ClearedRows` and `ClearedShape` characterise it) |
| Board.FullRowsFrom | main.py:112 | `lines_to_clear` holds exactly the indices of full rows, in strictly increasing order |
| Board.KeptRows | main.py:111-115 | every row that survives clearing comes from the grid and is not full |
| Board.NotFullIsKept | main.py:111-115 | every row that is not full survives clearing |
| Board.KeptCount | main.py:112-115 | full rows plus surviving rows account for every row |
| Board.KeptConcat | main.py:111-115 | the surviving rows of two stacked grids are those of each, stacked |
| Board.KeptOfNoFull | main.py:111-115 | a grid with no full row keeps every row |
| Board.ClearStep | main.py:113-115 | one delete-and-insert step keeps the loop invariant: blanks on top, surviving rows so far, then the untouched rest |
| Board.ClearDone | main.py:113-115 | after the last step the grid is the reference result of clearing |
| Board.ClearedRows | main.py:111-115 | clearing keeps the grid Rows x Columns and leaves no full row |
| Board.ClearedShape | main.py:111-115 | clearing twice equals clearing once; survivors sit at the bottom in their old order under one blank row per full row |
| Board.Stamped | main.py:98-104 | defines the grid after the lock writes: each cell that an occupied piece cell covers on the board takes the piece colour (`StampedCells` characterises it) |
| Board.PartlyStampedStep | main.py:98-104 | one cell step of the lock loop writes the colour exactly when the cell is occupied and on the board |
| Board.PartlyStampedEnd | main.py:98-104 | when the loop ends, every occupied on-board cell has been written |
| Board.StampedCells | main.py:98-104 | after locking, every occupied on-board cell holds the piece colour and every other cell is unchanged |
| Collisions.CellProbe | main.py:89-92 | defines the test of one occupied cell: left wall with the offset, right wall without it, floor, then a grid lookup that may raise (`FaultIff` characterises the raise) |
| Collisions.Collision | main.py:85-95 | defines `check_collision` as a value: the row-major scan that stops at the first cell whose test does not pass (`CollisionMeaning` and `CollisionWithoutFault` characterise it) |
| Collisions.PyLookup | main.py:92 | Python list indexing: succeeds exactly for -len <= i < len, and an index in range gives that element |
| Collisions.ScanRowMeaning | main.py:87-93 | the scan of one image row passes exactly when every occupied cell passes, and otherwise returns the verdict of the first one that does not |
| Collisions.ScanRowsMeaning | main.py:86-95 | the same for the rows from cy on, in row-major order |
| Collisions.CollisionMeaning | main.py:85-95 | `check_collision` returns False exactly when every occupied cell passes, and otherwise returns the outcome of the first failing cell in row-major order |
| Collisions.CollisionWithoutFault | main.py:85-95 | when no lookup can raise, the result is True exactly when some occupied cell is off the board or over a filled cell |
| Collisions.FaultIff | main.py:89-92 | on a well-formed grid the lookup raises exactly when the unshifted column is on the board and the shifted one is past the right edge |
| Collisions.NoFaultWithoutShift | main.py:89-92 | with no column offset no lookup can raise |
| Collisions.RightEdgeShiftRaises | main.py:89-92 | an I piece flat against the right wall of an empty board, tested one column right, raises IndexError |
| Pieces.Tetromino.constructor | main.py:41-53 | a new piece has the given position, orientation 0, a palette colour, and four orientations that are the template turned 0-3 times |
| Pieces.Tetromino.GetImage | main.py:60-61 | defines `get_image`: the orientation the rotation state selects (`ImageIsTurnedTemplate` characterises it) |
| Pieces.Tetromino.ImageIsTurnedTemplate | main.py:60-61 | the shown image is the template turned rotationState times |
| Pieces.Tetromino.NextOrientation | main.py:45-57 | the next orientation is the shown image turned a quarter turn clockwise |
| Pieces.Tetromino.Rotate | main.py:56-57 | the rotation state advances by one modulo 4 |
| Game.TetrisGame.constructor | main.py:70-77 | empty grid, score 0, not over, and two freshly spawned pieces |
| Game.TetrisGame.GenerateNewPiece | main.py:81-83 | a fresh piece at column 18, row 0, orientation 0, from the chosen template and colour |
| Game.TetrisGame.CheckCollision | main.py:85-95 | the nested loop with early returns computes exactly the scan's result, including IndexError |
| Game.TetrisGame.StillTestsNeverRaise | main.py:85-95 | tests with no column offset and a downward or zero row offset never raise |
| Game.TetrisGame.ClearFilledLines | main.py:111-116 | the grid becomes the reference result of clearing, the score grows by exactly 100, and the game invariant is kept |
| Game.TetrisGame.StampPiece | main.py:98-104 | the grid becomes the old grid with the piece's occupied on-board cells set to its colour |
| Game.TetrisGame.LockPiece | main.py:97-109 | the grid becomes the stamped grid with full rows cleared; score +100; the next piece becomes current; a new next piece spawns; the game is over exactly when it already was or the promoted piece collides; the invariant is kept |
| Game.TetrisGame.MovePiece | main.py:118-120 | whatever the requested offset, the piece moves one column right exactly when the test at that offset reports no collision; a raising test is propagated and leaves the piece in place |
| Game.TetrisGame.DropPiece | main.py:122-126 | the gravity test never raises; no collision moves the piece down one row and changes nothing else, and a collision locks the piece as LockPiece states |
| Game.TetrisGame.RotatePiece | main.py:128-133 | the piece shows its image turned a quarter turn unless that turned image collides, in which case three more turns restore the original orientation |
| Game.TetrisGame.UpdateGameStatus | main.py:184-186 | once the game is over nothing changes and the session ends; otherwise one gravity step: with no collision the piece moves down one row and both pieces, grid and score are unchanged; on a collision the piece locks, the next piece is promoted, a fresh next piece spawns from the given choices, and the game is over exactly when the promoted piece collides |

## Left out

- Rendering (`draw_grid`, `draw_piece`, the score text, the window): drawing has no effect on the game state.
- The `main` loop and keyboard handling: input and timing are I/O. The rule methods they call are modelled individually.
- The game-over branch of `update_game_status`, which shows a message and waits: only its effect, ending the session, is modelled, as `running == false`.
- `random.choice`: every choice of template or colour is a parameter, an index into the template list or palette.
- Pixel geometry, `MOVEMENT_SPEED`, `move_dx` and `move_dy`: these only affect display and the unused movement state.
- The colours WHITE, GRAY and BEZHEVIY: they are only used when drawing.
- `int(WINDOW_WIDTH / BLOCK_DIMENSION)` is modelled with integer division. The two agree here because both divisions are exact.
- Game.TetrisGame.StampPiece: `lock_piece` does this writing inline. It is a separate method here so the rest of `lock_piece` can be proved on its own; its behaviour is unchanged.
- Pieces.Tetromino.Rotate: the quarter-turn fact about the image is stated in `NextOrientation` instead of in `Rotate`'s contract. This keeps the proofs of the callers small; `RotatePiece` states the image-level result.
- Game.TetrisGame.Valid: it records that each held piece is the four turns of a rectangular matrix, rather than that it is one of the seven templates. This is enough for every rule; `SpawnedAs` gives the exact template at spawn time.
