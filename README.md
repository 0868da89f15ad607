# Tetris game-state engine in Dafny

This project models the game logic of a console Tetris written in C++
(`tetris-game.cpp`). That logic is the class `TetrisGame` and the piece
catalogue `Tetromino`. The model covers:

- the seven tetromino kinds with their occupancy matrices and colour tags;
- the legality test `canMove`;
- the moves `moveLeft`, `moveRight` and `rotate`;
- `lockPiece`, and `clearLines` with `updateScore`;
- the gravity tick `update`, `softDrop`, `hardDrop` and `spawnNewPiece`;
- the top-row test `isGameOver`;
- the pause menu (`togglePause`, `handlePauseMenuSelection`, the cursor arithmetic of `handleInput`);
- the state reset at the start of `run`.

Modules:

- `Tetromino` (`tetromino.dfy`): the kinds, the shape table, and the quarter-turn transform. The transform is a function, `Rotated`, plus the nested loop of `rotate` as a method, `RotateShape`.
- `Field` (`field.dfy`): the 20 x 10 grid as `seq<seq<int>>`, in these parts:
  - `canMove`, written as recursive functions that follow its two loops, together with a declarative reading, `Placeable`;
  - `Locked`, which specifies `lockPiece`;
  - `Compacted`, which specifies `clearLines`: as many empty rows on top as there were full rows, then the non-full rows in their original order;
  - the lemmas about these.
- `Scoring` (`scoring.dfy`): the points table, the level formula and the gravity threshold.
- `Controls` (`controls.dfy`): the two key switches of `handleInput`, and the pause-menu index arithmetic.
- `Game` (`game.dfy`): the class `TetrisGame`. Its fields are those of the C++ class. It adds a random stream `rand` and a counter `draws` of the values used so far.
  - Each command-level method is proved to perform one pure transition on a snapshot `Play()` of the play fields: `Shifted`, `Turned`, `Dropped`, `HardDropped`, `AfterSettle`, `Initial`, `PlayAfter` or `PausedPlayAfter`. The menu methods do the same on `Menu()`, with `Toggled` and `MenuAfter`.
  - The steps below them are stated against the field functions or as field equations: `LockPiece` against `Locked`, `ClearLines` against `Compacted`, and `UpdateScore`, `SpawnNewPiece` and `Fall` by the new value of each field they change.
  - Lemmas prove that every transition keeps the invariant `PlayOk`. `PlayOk` means the field is 20 x 10, the piece is well formed with a colour from 1 to 7, the piece lies within the columns and above the floor at a row >= 0, the piece is legal unless the game is finished, and the level is `1 + score / 1000`.
  - This invariant is what makes the unguarded writes of `lockPiece` land inside the field.

The model follows the code as written; in particular:

- The drop threshold is the literal `dropTimer >= 20 - level`, with no clamping. From level 19 on, gravity acts on every tick (`GravityEveryTickFromLevel19`).
- In `canMove`, a cell above the field (row < 0) skips only the collision test. It is still rejected when it is outside the columns (`CanMoveAboveField`).
- Choosing Exit in the pause menu sets `isGameFinished` and clears `shouldRestart`, nothing more. The game stays paused, and `run` keeps looping, because `run` tests only the top row.
- A spawn that `canMove` rejects calls `gameOver()`. Of that call, the model keeps only its assignment `isGameFinished = true`, and play continues as in the code.
- Escape while paused is ignored, because the paused switch handles only up, down and Enter.

## Model

| member | source | states |
|---|---|---|
| Tetromino.KindOfIndex | tetris-game.cpp:80-82 | the enum cast of `rand() % 7`: the kind whose position in the enum is n |
| Tetromino.KindOfIndexOf | tetris-game.cpp:10-12 | casting a kind's enum position back gives the same kind |
| Tetromino.Catalogue | tetris-game.cpp:27-58 | every kind gets a matrix that is a rectangle of at most 2 x 4 cells, holds only 0 and 1 and has an occupied cell, with colour tag 1..7 equal to the enum position plus one |
| Tetromino.ColorsDistinct | tetris-game.cpp:27-58 | two kinds with the same colour tag are the same kind |
| Tetromino.Rotated | tetris-game.cpp:276-279 | the quarter turn of an R x C rectangle is a C x R rectangle |
| Tetromino.RotatedCells | tetris-game.cpp:281-285 | cell (i, j) of the shape is cell (j, R - 1 - i) of the turned matrix |
| Tetromino.RotatedCell | tetris-game.cpp:283 | the same cell law for one cell |
| Tetromino.RotatedWellFormed | tetris-game.cpp:273-292 | turning a shape in play keeps it a 0/1 rectangle of at most 4 x 4 with an occupied cell |
| Tetromino.HalfTurn | tetris-game.cpp:276-285 | two quarter turns move cell (i, j) to (R - 1 - i, C - 1 - j) |
| Tetromino.RotateFourTimes | tetris-game.cpp:276-285 | four quarter turns give back the original matrix |
| Tetromino.SameCells | tetris-game.cpp:276-285 | two rectangles with the same dimensions and the same cells are equal |
| Tetromino.RotateShape | tetris-game.cpp:276-285 | rotate's nested loop, which fills a C x R matrix by `new[j][R-1-i] = old[i][j]`, yields exactly the quarter turn |
| Field.EmptyRow | tetris-game.cpp:354 | a row of WIDTH zero cells |
| Field.EmptyGrid | tetris-game.cpp:109 | HEIGHT rows of WIDTH cells, all zero, so every cell is in range |
| Field.CellsFrom | tetris-game.cpp:86-101 | the inner loop of canMove succeeds exactly when every occupied cell of the row from column j on is free |
| Field.RowsFrom | tetris-game.cpp:85-104 | the outer loop of canMove succeeds exactly when every occupied cell of the rows from row i on is free |
| Field.CanMove | tetris-game.cpp:84-105 | canMove is true exactly when every occupied cell lands inside the columns and above the floor, and on an empty cell if its row is visible |
| Field.Placeable | tetris-game.cpp:84-105 | the declarative reading of canMove: every occupied cell of the shape at the anchor passes the column, floor and visible-collision tests; `CanMove` is proved equal to it |
| Field.CanMoveRejectsOutOfBounds | tetris-game.cpp:92-95 | an occupied cell at a column < 0, a column >= WIDTH or a row >= HEIGHT makes canMove false, whatever the grid holds |
| Field.CanMoveCollision | tetris-game.cpp:98-100 | an occupied cell on a filled cell of a visible row makes canMove false |
| Field.CanMoveAboveField | tetris-game.cpp:91-100 | for a shape entirely above the field, canMove is exactly the column and floor test |
| Field.PlaceableInBounds | tetris-game.cpp:84-105 | a placement canMove accepts lies within the columns and above the floor |
| Field.InBoundsBelowHeight | tetris-game.cpp:92-93 | a well-formed shape in bounds has its anchor row below HEIGHT (y < HEIGHT) |
| Field.FitsEmptyGrid | tetris-game.cpp:84-105 | on the empty field, any shape in play fits at row 0 for an anchor column from 0 to WIDTH - 4 |
| Field.Locked | tetris-game.cpp:329-337 | the field after locking keeps its dimensions |
| Field.LockedCell | tetris-game.cpp:329-337 | after locking, a covered cell holds the colour tag and every other cell is unchanged |
| Field.LockedWellFormed | tetris-game.cpp:329-337 | locking a tag 1..7 keeps the field 20 x 10 with cells in 0..7 |
| Field.LockOnLegalPlacement | tetris-game.cpp:329-337 | at a legal placement, a cell goes from empty to filled exactly where the piece covers it, and every covered cell holds the colour |
| Field.NumFull | tetris-game.cpp:342-357 | the number of full rows is at most the number of rows |
| Field.IsFull | tetris-game.cpp:343-349 | a row is full when none of its cells is empty; `TetrisGame.RowIsFull` is proved to compute it |
| Field.KeepNonFull | tetris-game.cpp:350-357 | the kept rows and the full rows together account for every row |
| Field.KeepNonFullNoFull | tetris-game.cpp:350-357 | no kept row is full |
| Field.KeepNonFullRowsOf | tetris-game.cpp:350-357 | every kept row is a row of the input |
| Field.Compacted | tetris-game.cpp:339-358 | the field after clearLines has as many rows as before, stays 20 x 10 with cells in 0..7, and has no full row |
| Field.KeepNonFullAppend | tetris-game.cpp:339-358 | removing full rows distributes over concatenation: order is preserved and the counts add |
| Field.KeepNoFullRows | tetris-game.cpp:339-358 | a field with no full row is its own filter, with a count of 0 |
| Field.CompactedIdempotent | tetris-game.cpp:339-358 | clearing twice is clearing once, and clearing a field with no full row changes nothing |
| Field.RemoveFullRow | tetris-game.cpp:350-357 | a full row disappears and the rows on either side stay in order |
| Field.FullRowAlone | tetris-game.cpp:342-350 | a single full row is counted and removed |
| Field.KeepAroundTwoFullRows | tetris-game.cpp:339-358 | with two full rows between non-full runs, the filter keeps the three runs in order and counts 2 |
| Field.CompactedOf | tetris-game.cpp:339-358 | a known filter and count determine the cleared field |
| Field.ClearTwoFullRows | tetris-game.cpp:339-358 | with two full rows between non-full runs, clearLines reports 2 lines and gives two empty rows on top of the non-full rows in order |
| Field.NumFullWithin | tetris-game.cpp:342-357 | if no row outside [lo, hi) is full, at most hi - lo rows are full |
| Field.LinesPerLockAtMost | tetris-game.cpp:329-358 | on a field with no full row, one lock fills at most as many rows as the shape is tall |
| Field.TopRowOccupied | tetris-game.cpp:389-394 | the game-over test: some cell of row 0 is filled; `TetrisGame.IsGameOver` is proved to compute it |
| Scoring.Points | tetris-game.cpp:364-370 | the points for a lock are positive exactly for 1..4 lines, come in multiples of 100, and never exceed 200 per line |
| Scoring.PointsIncreasing | tetris-game.cpp:364-370 | clearing more lines at once is worth strictly more |
| Scoring.LevelFor | tetris-game.cpp:373 | the level is at least 1, and the score lies in that level's band of 1000 points |
| Scoring.LevelMonotonic | tetris-game.cpp:373 | the level never drops while the score grows |
| Scoring.LevelExamples | tetris-game.cpp:373 | scores 0, 999, 1000 and 2500 give levels 1, 1, 2 and 3 |
| Scoring.GravityEveryTickFromLevel19 | tetris-game.cpp:295-298 | from level 19 on, the unclamped threshold fires on every tick |
| Scoring.GravityDue | tetris-game.cpp:298 | update's gravity test, the timer at least `20 - level`, with no clamping; `TetrisGame.Update` takes the gravity branch exactly when it holds |
| Controls.Decode | tetris-game.cpp:181-237 | while paused only menu commands happen, while playing none do; Escape pauses only while playing, Enter selects only while paused, space hard-drops only while playing |
| Controls.ArrowsInBothModes | tetris-game.cpp:186-222 | the up and down arrows rotate and soft-drop while playing, and move the cursor while paused |
| Controls.PreviousItem | tetris-game.cpp:188 | the item above stays in 0..2, wrapping from Continue to Exit |
| Controls.NextItem | tetris-game.cpp:192 | the item below stays in 0..2, wrapping from Exit to Continue |
| Controls.MenuSteps | tetris-game.cpp:187-194 | up and down undo each other, and three steps either way come back |
| Game.DrawnPiece | tetris-game.cpp:377 | the piece built from a draw is a catalogue entry whose enum position is the draw modulo 7, and it is a piece in play (well formed, colour 1..7) |
| Game.LandingRow | tetris-game.cpp:320-323 | hardDrop's loop stops at a row no higher than the start from which the piece cannot fall one more row; the landing row itself is legal when the piece moved |
| Game.LandingRowLegal | tetris-game.cpp:320-323 | every row from one below the start down to the landing row is legal, so the landing row is the first row from which the piece cannot fall |
| Game.RestsOnFloor | tetris-game.cpp:320-323 | on the empty field, a shape whose bottom row is occupied falls to row HEIGHT - height |
| Game.FallsToFloor | tetris-game.cpp:320-323 | every kind dropped from row 0 onto the empty field rests with its bottom row on the floor |
| Game.SpawnInBounds | tetris-game.cpp:376-379 | a spawned piece lies within the columns and above the floor |
| Game.SpawnFitsEmptyField | tetris-game.cpp:376-385 | every kind fits at the spawn anchor of the empty field |
| Game.PlayOk | tetris-game.cpp:62-69 | the invariant over the play fields: a 20 x 10 field, a well-formed piece with colour 1..7 inside the columns, above the floor and at a row >= 0, legal unless the game is finished, and level `1 + score / 1000`; the `...Ok` lemmas prove every transition keeps it |
| Game.Initial | tetris-game.cpp:149-160 | the play state after a reset: the empty field, the piece of the next draw at (5, 0), score 0, level 1, not finished; `InitialOk` proves it meets the invariant |
| Game.Shifted | tetris-game.cpp:261-271 | moveLeft and moveRight: the anchor moves by dx when canMove accepts the target, otherwise nothing changes; `ShiftedOk` states both directions |
| Game.Turned | tetris-game.cpp:273-292 | rotate: the quarter-turned shape replaces the current one at the same anchor when canMove accepts it, otherwise nothing changes; `TurnedOk` states both directions |
| Game.AfterSettle | tetris-game.cpp:300-302 | lockPiece, clearLines with updateScore, then spawnNewPiece: the compacted locked field, the score plus the table entry for its full rows, the level derived from it, the next draw at (5, 0), and the finished flag set when that spawn is rejected; `AfterSettleOk` states its properties |
| Game.Dropped | tetris-game.cpp:294-318 | softDrop and update's gravity step: one row down when canMove accepts it, otherwise settle; `DroppedOk` states its properties |
| Game.HardDropped | tetris-game.cpp:320-327 | hardDrop: fall to the landing row, then settle; `HardDroppedOk` states its properties |
| Game.PlayAfter | tetris-game.cpp:202-234 | the play-state effect of each command decoded while playing: shift, turn, soft drop, hard drop, or nothing; `PlayAfterOk` proves each keeps the invariant |
| Game.Toggled | tetris-game.cpp:255-259 | togglePause: the pause flag flips and the cursor goes back to Continue |
| Game.MenuAfter | tetris-game.cpp:186-198 | the menu effect of each command decoded while paused: the cursor steps up or down with wrap-around, and Enter acts on Continue, Restart or Exit; `MenuAfterInRange` states its properties |
| Game.PausedPlayAfter | tetris-game.cpp:248-251 | while paused, the only play-state effect is Enter on Exit setting the finished flag |
| Game.InitialOk | tetris-game.cpp:149-160 | the reset state satisfies the invariant and its field has no full row, with cells in range |
| Game.ShiftedOk | tetris-game.cpp:261-271 | moveLeft and moveRight keep the invariant, and move by exactly one column if and only if canMove accepts the target, and change nothing when it rejects it |
| Game.TurnedOk | tetris-game.cpp:273-292 | rotate keeps the invariant, takes the turned shape when canMove accepts it, and otherwise changes nothing |
| Game.AfterSettleOk | tetris-game.cpp:329-385 | lock, clear and spawn keep the invariant; the score grows by 0, 100, 300, 500 or 800; the level never drops; the new piece is at the spawn anchor; the game is finished exactly when it already was or the new piece does not fit |
| Game.AfterSettleKeeps | tetris-game.cpp:329-385 | lock, clear and spawn keep the invariant and never lower the level |
| Game.SettleField | tetris-game.cpp:329-385 | on a field with no full row and cells in range, one lock fills at most 4 rows, and the field after settling again has no full row and cells in range |
| Game.DroppedOk | tetris-game.cpp:294-318 | softDrop and gravity keep the invariant: one row down when canMove allows it, otherwise one new draw; the level never drops |
| Game.HardDroppedOk | tetris-game.cpp:320-327 | hardDrop keeps the invariant and never lowers the level |
| Game.LandedOk | tetris-game.cpp:320-323 | the piece at its landing row still satisfies the invariant |
| Game.PlayAfterOk | tetris-game.cpp:202-234 | every command while playing keeps the invariant and never lowers the level |
| Game.PlayAfterClean | tetris-game.cpp:202-234 | every play command keeps the field free of full rows with cells in 0..7, so every lock clears at most four rows |
| Game.PausedPlayAfterGrid | tetris-game.cpp:186-198 | while paused no command changes the field |
| Game.MenuAfterInRange | tetris-game.cpp:186-198 | the cursor stays on one of the three items; Enter on Exit leaves the pause flag alone; Enter on Restart requests a restart and unpauses |
| Game.TetrisGame.constructor | tetris-game.cpp:108-119 | the initial state: an empty field, the first draw at the spawn anchor, score 0, level 1, not paused; the invariant holds |
| Game.TetrisGame.GetRandomTetromino | tetris-game.cpp:80-82 | consumes one draw and returns its kind |
| Game.TetrisGame.Reset | tetris-game.cpp:149-160 | run's reset gives the initial play state with the next draw, a zero timer and a closed menu with the cursor on Continue; the invariant holds |
| Game.TetrisGame.ResetPlay | tetris-game.cpp:150-158 | the play fields of the reset form the initial play state |
| Game.TetrisGame.MoveLeft | tetris-game.cpp:261-265 | performs the shift by -1 and keeps the invariant |
| Game.TetrisGame.MoveRight | tetris-game.cpp:267-271 | performs the shift by +1 and keeps the invariant |
| Game.TetrisGame.Rotate | tetris-game.cpp:273-292 | performs the guarded quarter turn and keeps the invariant |
| Game.TetrisGame.LockPiece | tetris-game.cpp:329-337 | the field becomes exactly the locked field: the colour on covered cells, others unchanged |
| Game.TetrisGame.ClearLines | tetris-game.cpp:339-362 | the in-place erase/insert loop leaves exactly the compacted field, and the score gains the points for the number of full rows of the input |
| Game.TetrisGame.RowIsFull | tetris-game.cpp:342-348 | the inner scan reports a full line exactly when no cell of the row is 0 |
| Game.TetrisGame.EraseRow | tetris-game.cpp:352-354 | erasing row y and inserting an empty row on top keeps the field 20 x 10 |
| Game.TetrisGame.UpdateScore | tetris-game.cpp:364-374 | the score gains the table entry for the line count, and the level follows the new score |
| Game.TetrisGame.SpawnNewPiece | tetris-game.cpp:376-385 | the next draw's piece is placed at (WIDTH / 2, 0), inside the field; the game becomes finished exactly when canMove rejects it there |
| Game.TetrisGame.LockAndClear | tetris-game.cpp:300-301 | lock then clear: the compacted locked field, with the score for its full rows |
| Game.TetrisGame.Settle | tetris-game.cpp:300-302 | lock, clear and spawn perform the settle transition and keep the invariant |
| Game.TetrisGame.Fall | tetris-game.cpp:311-312 | one row down where canMove allows it, keeping the invariant |
| Game.TetrisGame.SoftDrop | tetris-game.cpp:310-318 | performs the drop transition and keeps the invariant |
| Game.TetrisGame.HardDrop | tetris-game.cpp:320-327 | falls to the landing row, then settles, and keeps the invariant |
| Game.TetrisGame.Update | tetris-game.cpp:294-308 | when the incremented timer reaches 20 - level, drops one row or settles and resets the timer to 0; otherwise only the timer grows by one |
| Game.TetrisGame.TogglePause | tetris-game.cpp:255-259 | flips the pause flag and puts the cursor on Continue |
| Game.TetrisGame.HandlePauseMenuSelection | tetris-game.cpp:239-253 | Enter performs the menu transition of the selected item; only Exit touches the play state, by finishing the game |
| Game.TetrisGame.HandleInput | tetris-game.cpp:181-237 | no key changes nothing; while paused a key performs its menu transition; while playing it performs its play transition, and Escape also toggles the pause; the timer is untouched |
| Game.TetrisGame.HandleMenuCommand | tetris-game.cpp:186-198 | the paused switch performs the menu transition of the command |
| Game.TetrisGame.HandlePlayCommand | tetris-game.cpp:202-234 | the playing switch performs the play transition of the command, and toggles the pause on Escape only |
| Game.TetrisGame.HandleDropCommand | tetris-game.cpp:219-228 | the drop keys perform the soft and hard drop transitions |
| Game.TetrisGame.IsGameOver | tetris-game.cpp:387-395 | true exactly when some cell of the top row is filled |
| Game.TetrisGame.Tick | tetris-game.cpp:162-168 | one pass of run's loop keeps the invariant; a tick that starts and ends paused leaves the field, piece, score and timer unchanged |
| Game.TetrisGame.Run | tetris-game.cpp:148-179 | run keeps the invariant; it returns on a restart request, or when the top row is filled with the game finished, or when the keys run out with the top row empty |

## Left out

- Rendering (`render`, `writeStringToBuffer`, the console buffer), console set-up in the constructor, and the destructor: display I/O only. The `render()` calls inside `handleInput` and `togglePause` are dropped for the same reason.
- `gameOver()`: only its assignment `isGameFinished = true` is modelled. Its screen output, its blocking wait for R or Escape, and its return value are I/O.
- Game.TetrisGame.Run: returns `GameOverReached` where the code returns `gameOver()`'s replay answer. Run reads a finite sequence of keys, one per tick, with the extra outcome `InputExhausted`. `Sleep(50)` is not modelled.
- Key polling (`_kbhit`, `_getch`): each tick receives an `Option<int>` key, `None` when no key is pending.
- `rand()` and `srand(time)`: the random source is a parameter. Draw number d of the stream `rand: nat -> nat` stands for the d-th result of `rand()`, with a non-negative value as in C.
- The replay loop of `main`: process-level control flow.
- 32-bit overflow of `score`: integers are unbounded. A 32-bit score would overflow only after more than two million four-line clears.
- The default constructor `Tetromino()` (kind I, colour 0): no code in the file calls it. Every piece is built through `Tetromino(TetrominoType)`.
- Game.TetrisGame.Update: the gravity branch calls `SoftDrop`, because the branch is the same test and the same two outcomes as `softDrop`, with the if written the other way round.
- Game.TetrisGame.HardDrop: the loop runs on local copies of the fields it reads, so `currentY` is written once with the final row. The values are the same as the code's.
- Game.TetrisGame.Tick: the contract states the invariant and the paused case only. The full effect of each half is given by the contracts of `HandleInput` and `Update`, which Tick calls in turn. Their composition is not stated, because a single contract over both would cost the solver more than the proof is worth.
- Game.PlayOk: the invariant leaves out "no full row" and "cells in 0..7", and so `Valid()` does too. Instead, lemmas prove that these facts hold after a reset (`InitialOk`), are kept by every play command (`PlayAfterClean`, built on `SettleField`) and are not touched while paused (`PausedPlayAfterGrid`). From them, each lock clears at most four rows (`SettleField`, `LinesPerLockAtMost`). No contract of a `TetrisGame` method carries them.
