# Tetris game engine, modelled and verified in Dafny

This project models the game-state engine of a browser Tetris game (`script.js`). The engine covers:

- the 20 x 10 playfield;
- the seven pieces and their rotation states;
- the collision test, the ghost row and the hard drop;
- locking a piece, finding full rows and the delayed line clear;
- scoring with its combo factor and Tetris bonus, and levels with their drop intervals;
- the gravity step of the frame loop;
- starting a game, pausing it and ending it;
- the keyboard commands.

The model has two layers.

- **Values.** Five modules hold the rules as values:
  - `Pieces`: the piece table, `createPiece` and rotation.
  - `Board`: the grid, `isValidMove`, the landing row, stamping a piece, the full-row scan and row removal.
  - `Scoring`: the points of a clear and the drop interval of a level.
  - `Game`: a record `State` with one field per global of the script, and one function per engine operation.
  - `GameFacts`: what the operations promise. This includes the invariant `ValidState`, which every operation keeps:
    - the grid has 20 rows of 10 cells, each cell 0..7;
    - the pieces are table pieces, both pieces exist while a game runs or a clear is pending, and the current piece fits while a game runs with no clear pending;
    - the pending rows are in decreasing order;
    - `level == lines / 10 + 1`, with the interval of that level;
    - the combo is never negative and the drop counter is at most 1000.
- **The object.** Module `GameEngine` holds class `Engine`. The globals are its fields and the grid is an array of rows. Its methods update those fields in place with the loops of the script. The contract of each method that models a function of the script says that the object's new state (`Snapshot()`) is what the matching `Game` function computes from the old one, so everything proved in `GameFacts` and `Board` holds for the object too. Five helper methods work differently. `GhostPosition` and `FindFullRows` change nothing and return values tied to `Board.GhostRow` and `Board.FullRows`. `StampPiece`, `SpliceRow` and `RemoveRows` change only the grid array, and their contracts tie its new content to `Board.Stamp`, `Board.RemoveRow` and `Board.ClearRows` of the old content.

Inputs the script takes from the browser are parameters:

- The piece kinds drawn by `Math.random` are arguments (`kind < 7`).
- The clock readings of `performance.now` and `requestAnimationFrame` are integer arguments.
- The 150 ms `setTimeout` continuation of the line clear is its own operation, `FinishClear`.

Two behaviours of the script are kept as written:

1. **Row removal** (script.js:205) takes the full rows bottom-up and removes each one from a grid that earlier removals have already shifted. With two or more full rows it removes the wrong rows; see "## Findings".
2. **Soft drop** (script.js:333) adds 1 point on every press, including a press where the piece cannot move down, and it never locks the piece.

In both places the intended behaviour is different: a clear should remove every listed row, and soft drop should pay only for a step actually taken. The model follows the code.

A third place where the intended behaviour and the code disagree: the record is meant to satisfy `highScore >= score` at all times. The code only raises the record inside `updateScore`. A hard drop adds `2 * d` points without calling it, so when the hard drop ends without a clear the score can pass the record. If that drop also ends the game, the record never sees those points. The model follows the code. `GameFacts.HardDropEffect` states that a hard drop leaves the record unchanged, and `highScore >= score` is proved only right after `updateScore` (`GameFacts.UpdateScoreEffect`).

`startGame` can be called while a clear is pending, through the reset button. It keeps `clearingLines` as it is, so the pending timer still fires on the new grid. The model keeps this as well: `Game.Reset` leaves `clearingLines` and the drop counter unchanged. `backToMenu` likewise only stops the game and clears the pause flag, so a pending clear also survives it.

## Model

| member | source | states |
|---|---|---|
| `Pieces.TableShapes` | script.js:77-85 | There are 7 kinds, with 2, 1, 4, 2, 2, 4 and 4 rotation states. Every shape has 1..4 rows of 1..4 cells, each cell 0 or 1, with a block in its top row, so no shape is empty. |
| `Pieces.Spawn` | script.js:250-253 | createPiece for a given kind: a table piece of that kind in rotation 0, coloured by its kind, at column 3, row 0. |
| `Pieces.Rotated` | script.js:336-337 | The rotate candidate has rotation `(r + 1) % count` with the matching table shape. Position, colour and kind are unchanged, and the rotation index stays below the kind's state count. |
| `Pieces.RotatedTimesIndex` | script.js:336 | After k rotations the rotation index is `(r + k) % count`. |
| `Pieces.AdvanceIndex` | script.js:336 | Repeating the `(r + 1) % n` step k times from an index r < n gives `(r + k) % n`, for every n > 0. |
| `Pieces.RotationCycle` | script.js:335-339 | Rotating a piece as many times as its kind has states gives back exactly the same piece. |
| `Board.CreateGrid` | script.js:249 | createGrid gives 20 rows of 10 cells, and every row is the empty row. |
| `Board.CreateGridFacts` | script.js:249 | Every cell of a new grid is 0, so the cells are in range and the grid has no full row. |
| `Board.ValidMoveIff` | script.js:254-260 | isValidMove holds iff every cell covered by the moved shape is free. A free cell is in columns 0..9 and above the floor, and either above the top edge or empty. |
| `Board.ValidMoveAboveFloor` | script.js:254-260 | A valid placement of a table shape has its top row inside the grid's height. |
| `Board.SpawnFitsEmptyGrid` | script.js:252 | Every kind, spawned at (3, 0), is a valid placement on an empty grid. |
| `Board.LandingStops` | script.js:121-123 | The loop of getGhostPosition stops at or below its start row, at a row where one more row down is not valid. |
| `Board.LandingMaximal` | script.js:121-123 | Every downward offset from the start row to the landing row is valid, so the landing row is the deepest one the piece can reach. |
| `Board.LandingFits` | script.js:119-124 | A piece in a valid position is still in a valid position when moved to its landing row. |
| `Board.MovedPlacement` | script.js:165 | A piece whose move down by d rows is valid is in a valid position once its row is set to y + d, which is what hardDrop does. |
| `Board.IsValidMove` | script.js:254-260 | No ensures of its own: isValidMove as a predicate, every block of the shape moved by (dx, dy) on a `Free` cell. Stated in words by `Board.ValidMoveIff`. |
| `Board.Landing` | script.js:121-123 | No ensures of its own: the row at which the ghost loop stops. Its properties are `Board.LandingStops` and `Board.LandingMaximal`. |
| `Board.GhostRow` | script.js:119-124 | No ensures of its own: getGhostPosition for a current piece. Its properties are `Board.LandingStops`, `Board.LandingMaximal` and `GameEngine.Engine.GhostPosition`. |
| `Board.Stamp` | script.js:171-173 | Ensures a 20 x 10 grid. Its cell-by-cell content is `Board.StampCells`. |
| `Board.IsFull` | script.js:176 | No ensures of its own: the `every(cell => cell !== 0)` test of a row. |
| `Board.FullRows` | script.js:175-176 | No ensures of its own: the scan from row 0, whose properties are those of `Board.FullRowsFrom`. |
| `Board.EmptyRow` | script.js:205 | `Array(COLS).fill(0)`: ten cells, all 0. |
| `Board.RemoveRow` | script.js:205 | No ensures of its own: one splice/unshift. Its properties are `Board.RemoveRowMovesRowsDown`. |
| `Board.ClearRows` | script.js:205 | The as-written removal that the engine runs. It keeps the height. Its other properties are `Board.ClearRowsKeepsGrid`, `Board.TwoFullRowsClearWrongRow` and `Board.SingleRowClearAgrees`. |
| `Board.StampCells` | script.js:171-173 | After locking, each block of the piece on a row >= 0 sits on a cell that was empty and now holds colour + 1. Every other cell is unchanged, so all cells stay within 0..7. |
| `Board.FullRowsFrom` | script.js:175-176 | The scan lists row indices in strictly decreasing order, and it lists a row iff every cell of that row is non-zero. |
| `Board.RemoveRowMovesRowsDown` | script.js:205 | One splice/unshift keeps the height and puts an empty row on top. Rows above r move down by one and rows below r stay put. Grid shape and cell range are kept. |
| `Board.ClearRowsKeepsGrid` | script.js:205 | The whole forEach of removals leaves 20 rows of 10 cells, each within 0..7. |
| `Board.TwoFullRowsClearWrongRow` | script.js:205 | With rows 18 and 19 full, the removal of `[19, 18]` leaves two empty rows, then rows 0..16, then the old full row 18, which stays at the bottom. |
| `Board.ClearRowsIntended` | script.js:205 | The intended removal: the listed rows go, the other rows keep their order, and as many empty rows as were removed enter on top. The height is kept. |
| `Board.IntendedClearsEveryFullRow` | script.js:205 | The intended removal of all full rows leaves a proper grid with no full row. |
| `Board.SingleRowClearAgrees` | script.js:205 | For a single listed row, the script's removal and the intended removal give the same grid. |
| `Scoring.ScoreDelta` | script.js:220-222 | No ensures of its own: the points of a clear. Its values are `Scoring.ScoreExamples` and its use is `GameFacts.UpdateScoreEffect`. |
| `Scoring.DropInterval` | script.js:226 | No ensures of its own: the interval of a level, on reals. Its properties are `Scoring.DropIntervalMonotone`. |
| `Scoring.ScoreExamples` | script.js:220-222 | 4 lines at level 1 with combo 1 are worth 800, 1 line at level 1 with combo 2 is worth 200, and 0 lines are worth nothing. |
| `Scoring.DropIntervalMonotone` | script.js:226 | The interval is 1000 ms at level 1 and stays within 50..1000. It never grows as the level rises, and it strictly shrinks at each new level until it reaches the 50 ms floor. |
| `Game.Initial` | script.js:10-30 | No ensures of its own: the globals on load. See `GameFacts.InitialValid`. |
| `Game.UpdateScore` | script.js:217-233 | No ensures of its own: updateScore(n) as `Credit`, then `LevelUp`, then `KeepRecord`. See `GameFacts.UpdateScoreEffect` and `GameFacts.UpdateScoreFrame`. |
| `Game.Credit` | script.js:218-222 | No ensures of its own: lines + n and the points of n lines. See `GameFacts.UpdateScoreEffect`. |
| `Game.LevelUp` | script.js:224-227 | No ensures of its own: the level rise and its interval. See `GameFacts.UpdateScoreEffect`. |
| `Game.KeepRecord` | script.js:231 | No ensures of its own: a score above the record becomes the record. See `GameFacts.UpdateScoreEffect`. |
| `Game.GameOver` | script.js:293 | No ensures of its own: the game stops. See `GameFacts.NextTurnEffect`. |
| `Game.NextTurn` | script.js:212-215 | No ensures of its own. See `GameFacts.NextTurnEffect`. |
| `Game.BeginClear` | script.js:188 | No ensures of its own: the rows become pending. See `GameFacts.LockEffect`. |
| `Game.Lock` | script.js:170-185 | No ensures of its own. See `GameFacts.LockEffect`. |
| `Game.FinishClear` | script.js:204-209 | No ensures of its own. See `GameFacts.FinishClearEffect`. |
| `Game.Moved` | script.js:241 | No ensures of its own: the current piece moved by (dx, dy). See `GameFacts.MovedValid`. |
| `Game.Tick` | script.js:237-239 | No ensures of its own: the clock step of update. See `GameFacts.UpdateEffect` and `GameFacts.UpdateQuiet`. |
| `Game.ResetCounter` | script.js:242 | No ensures of its own: `dropCounter = 0`. See `GameFacts.UpdateEffect`. |
| `Game.Gravity` | script.js:240-243 | No ensures of its own: fall one row or lock, then reset the counter. See `GameFacts.UpdateEffect` and `GameFacts.GravityValid`. |
| `Game.Update` | script.js:235-244 | No ensures of its own. See `GameFacts.UpdateEffect` and `GameFacts.UpdateValid`. |
| `Game.DropTo` | script.js:164-165 | No ensures of its own: the piece set to row y with 2 points per row. See `GameFacts.HardDropEffect`. |
| `Game.HardDrop` | script.js:161-168 | No ensures of its own. See `GameFacts.HardDropIdle`, `GameFacts.HardDropEffect` and `GameFacts.HardDropValid`. |
| `Game.AddPoints` | script.js:333 | No ensures of its own: the `score += 1` of soft drop. See `GameFacts.SoftDropAlwaysScores`. |
| `Game.Shift` | script.js:331-332 | No ensures of its own. See `GameFacts.SideMoveEffect` and `GameFacts.ShiftValid`. |
| `Game.SoftDrop` | script.js:333 | No ensures of its own. See `GameFacts.SoftDropAlwaysScores` and `GameFacts.SoftDropValid`. |
| `Game.Rotate` | script.js:335-342 | No ensures of its own. See `GameFacts.RotateEffect` and `GameFacts.RotateValid`. |
| `Game.KeyDown` | script.js:329-343 | No ensures of its own. See `GameFacts.KeyDownGuard`, `GameFacts.KeyDownValid` and the effect lemmas of each key. |
| `Game.Reset` | script.js:276-279 | No ensures of its own: the assignments of startGame. See `GameFacts.RestartFacts`. |
| `Game.Restart` | script.js:276-279 | No ensures of its own: `Reset` followed by updateScore(0). See `GameFacts.RestartFacts`. |
| `Game.StartGame` | script.js:274-280 | No ensures of its own. See `GameFacts.StartGameIsUpdate` and `GameFacts.StartGameEffect`. |
| `Game.TogglePause` | script.js:286-291 | No ensures of its own. See `GameFacts.TogglePauseEffect`. |
| `Game.Pause` | script.js:288-289 | No ensures of its own: the pause flag is set. See `GameFacts.TogglePauseEffect`. |
| `Game.Resume` | script.js:288-290 | No ensures of its own: the flag is cleared and the clock restarts at `now`. See `GameFacts.TogglePauseEffect`. |
| `Game.BackToMenu` | script.js:294-295 | No ensures of its own: the game stops and is unpaused. See `GameFacts.BackToMenuEffect`. |
| `GameFacts.InitialValid` | script.js:10-30 | The globals as the script loads them satisfy the invariant. |
| `GameFacts.UpdateScoreEffect` | script.js:217-233 | updateScore(n) adds n lines, and adds the combo-scaled points of n lines at the level in force before the call. The level never drops and becomes `lines / 10 + 1`, and the interval never grows. Afterwards the record is at least the score and at least the old record. |
| `GameFacts.UpdateScoreFrame` | script.js:217-233 | updateScore(0) leaves score, lines and level unchanged. No call changes any global other than score, record, level, lines and interval. |
| `GameFacts.NextTurnEffect` | script.js:212-215 | nextTurn promotes the next piece and spawns a new next piece of the given kind. It stops the game exactly when the promoted piece does not fit, and it keeps the grid, score, combo and counter. |
| `GameFacts.LockEffect` | script.js:170-185 | Locking writes the piece into the grid. With full rows, it increments the combo, marks those rows pending and keeps both pieces. Without full rows, it resets the combo to 0 and starts the next turn. Score and lines are unchanged and the invariant is kept. |
| `GameFacts.FinishClearEffect` | script.js:204-209 | The clear continuation applies the script's removal to the pending rows and adds that many lines and their points. It empties the pending list, makes the next piece current, keeps the combo and keeps the invariant. |
| `GameFacts.UpdateEffect` | script.js:235-244 | A frame does nothing while the game is stopped or paused. With a clear pending, only the clock moves. Otherwise the elapsed time adds to the counter. Once the counter passes the interval, the piece falls one row if it can and is locked if it cannot, and the counter restarts at 0. |
| `GameFacts.UpdateValid` | script.js:235-244 | Every frame keeps the invariant. |
| `GameFacts.GravityValid` | script.js:240-243 | Falling one row or locking keeps the invariant with the counter back at 0. |
| `GameFacts.UpdateQuiet` | script.js:237-240 | A frame whose counter does not pass the interval only advances the clock and the counter. |
| `GameFacts.HardDropIdle` | script.js:162 | hardDrop does nothing while the game is stopped or paused, while there is no current piece, or while a clear is pending. |
| `GameFacts.HardDropEffect` | script.js:161-168 | Otherwise it moves the piece down `d >= 0` rows to its ghost row, adds `2 * d` points, locks the piece there, and leaves the record unchanged. |
| `GameFacts.HardDropLocks` | script.js:163-167 | A hard drop that acts is a lock of the piece moved to its ghost row, and that moved piece still fits. |
| `GameFacts.HardDropValid` | script.js:161-168 | A hard drop keeps the invariant. |
| `GameFacts.KeyDownGuard` | script.js:330 | No key does anything while the game is stopped or paused, while there is no current piece, or while a clear is pending. |
| `GameFacts.SideMoveEffect` | script.js:331-332 | Left and right change the state iff the piece moved one column is valid. When they do, the only change is x - 1 or x + 1. |
| `GameFacts.SoftDropAlwaysScores` | script.js:333 | Down adds exactly 1 point whether or not the piece moves, and moves it one row only when that is valid. It never locks: grid, next piece, lines and pending rows are unchanged. The record ends at least at the score. |
| `GameFacts.SpaceIsHardDrop` | script.js:334 | The space key is exactly a hard drop. |
| `GameFacts.RotateEffect` | script.js:335-342 | Up commits the next rotation state only if its shape is valid at the same position, and otherwise changes nothing. The rotation index stays below the state count. |
| `GameFacts.ReplacePieceValid` | script.js:338-339 | Replacing the current piece with a table piece that fits keeps the invariant. |
| `GameFacts.MovedValid` | script.js:331-333 | Moving the current piece to a valid position keeps the invariant. |
| `GameFacts.ShiftValid` | script.js:331-332 | Left and right keep the invariant. |
| `GameFacts.SoftDropValid` | script.js:333 | Soft drop keeps the invariant. |
| `GameFacts.RotateValid` | script.js:335-342 | Rotation keeps the invariant. |
| `GameFacts.KeyDownValid` | script.js:329-343 | Every key keeps the invariant. |
| `GameFacts.RestartFacts` | script.js:276-279 | The assignments of startGame and its updateScore(0) give a running, unpaused game with a new empty grid and the two given pieces. Score, lines and combo are 0, the level is 1 and the interval is 1000 ms. The clock reads `now`. The invariant holds. |
| `GameFacts.StartGameIsUpdate` | script.js:279-280 | Because `now >= 0` and the counter is at most 1000, the `update()` at the end of startGame can neither move nor lock the piece, whatever kind it would draw. |
| `GameFacts.StartGameEffect` | script.js:274-284 | startGame leaves a running, unpaused game on an empty grid with the two given pieces, score 0, level 1, no lines and no combo, and the invariant holds. |
| `GameFacts.TogglePauseEffect` | script.js:286-291 | togglePause does nothing unless a game runs. Pausing only sets the flag. Resuming restarts the clock at `now` and runs update with time 0. The invariant is kept. |
| `GameFacts.BackToMenuEffect` | script.js:294-295 | backToMenu stops the game and clears the pause flag and changes nothing else, so a pending clear stays. The invariant is kept. |
| `GameFacts.Apply` | script.js:322-329 | Any single event (a start button, a frame, a key, the pause button, a menu button or the clear timer) keeps the invariant. |
| `GameFacts.Run` | script.js:322-329 | Any sequence of events keeps the invariant. |
| `GameFacts.SessionsStayValid` | script.js:10-30 | From the globals on load, every session ends with `level == lines / 10 + 1` and a 20 x 10 grid whose cells are within 0..7. |
| `GameEngine.Engine.constructor` | script.js:10-30 | The new object holds the globals as the script declares them: an empty grid, no pieces, level 1, a 1000 ms interval and the stored record. It satisfies the invariant. |
| `GameEngine.Engine.UpdateScore` | script.js:217-233 | Updates lines, score, level, interval and record in place, ending in `Game.UpdateScore` of the old state. Its properties are `GameFacts.UpdateScoreEffect` and `UpdateScoreFrame`. |
| `GameEngine.Engine.LevelUp` | script.js:224-227 | The level follows the line count when that raises it, and the interval follows the new level. |
| `GameEngine.Engine.GameOver` | script.js:293 | Only the running flag changes, to false. |
| `GameEngine.Engine.NextTurn` | script.js:212-215 | The pieces advance in place as `GameFacts.NextTurnEffect` describes. |
| `GameEngine.Engine.BeginClear` | script.js:188 | Only the pending rows change. |
| `GameEngine.Engine.StampPiece` | script.js:171-173 | The nested loops leave the grid array equal to `Stamp` of the old grid, whose cell-by-cell content is `Board.StampCells`. |
| `GameEngine.Engine.FindFullRows` | script.js:175-176 | The bottom-up loop returns exactly `FullRows` of the grid: decreasing, and containing every full row and nothing else. |
| `GameEngine.Engine.LockPiece` | script.js:170-185 | Locks in place with the result of `Game.Lock` (see `GameFacts.LockEffect`), keeping the same grid array. |
| `GameEngine.Engine.SpliceRow` | script.js:205 | One splice/unshift, done by shifting rows 0..r-1 down one slot of the array and writing an empty row 0, gives `RemoveRow` of the old grid. |
| `GameEngine.Engine.RemoveRows` | script.js:205 | The forEach of removals, row by row in the given order, leaves `ClearRows` of the old grid. That is the script's removal, including its multi-row behaviour. |
| `GameEngine.Engine.FinishClear` | script.js:204-209 | The timer continuation in place: the new state is `Game.FinishClear` of the old one, and the invariant holds. |
| `GameEngine.Engine.GhostPosition` | script.js:119-124 | With no current piece it returns 0. Otherwise it returns a row at or below the piece. Every offset down to that row is a valid move and the next one is not. Nothing changes. |
| `GameEngine.Engine.HardDrop` | script.js:161-168 | Moves the piece to the ghost row, scores 2 points per row, and locks it. The new state is `Game.HardDrop` of the old one, and the invariant holds. |
| `GameEngine.Engine.Update` | script.js:235-244 | The gravity step in place: the new state is `Game.Update` of the old one, and the invariant holds. |
| `GameEngine.Engine.KeyDown` | script.js:329-343 | The key handler in place: the new state is `Game.KeyDown` of the old one, and the invariant holds. |
| `GameEngine.Engine.Reset` | script.js:276-279 | The assignments of startGame give a fresh grid array, and the new state is `Game.Reset` of the old one. |
| `GameEngine.Engine.StartGame` | script.js:274-284 | startGame in place: the new state is `Game.StartGame` of the old one, and the invariant holds. |
| `GameEngine.Engine.BackToMenu` | script.js:294-295 | In place: the new state is `Game.BackToMenu` of the old one, and the invariant holds. |
| `GameEngine.Engine.TogglePause` | script.js:286-291 | Flips the pause flag. On resume it sets the clock and runs `Update(0)`. The new state is `Game.TogglePause` of the old one, and the invariant holds. |

## Left out

- Drawing (`draw`, `drawBlock`, `drawNextPiece`, screen shake), the particle and floating-text effects, and the `draw()` call at the end of each frame. They are presentation only and change no engine state.
- The Web Audio notes and the music loops. They are a foreign API driven by their own timers.
- `localStorage` and the DOM writes of `updateScore`, `startGame`, `togglePause` and `gameOver`. They are I/O. The record is a plain integer given to the constructor; the script reads the stored string and compares it by number.
- `requestAnimationFrame`, `cancelAnimationFrame` and the `requestId` they keep. They schedule frames and change no game rule. A frame is the `Update` operation, called with the time as an argument.
- `setTimeout`. The 150 ms continuation is the explicit `FinishClear` operation, which a session may apply whenever a clear is pending.
- `Math.random`. The kind of each new piece is an argument.
- `performance.now`. It is the `now` argument.
- `Scoring.DropInterval` computes `max(50, 1000 * 0.85^(level - 1))` exactly on reals, not in floating point.
- Score, lines and level are unbounded integers. JavaScript numbers lose precision above 2^53, which no game reaches.
- `backToMenu` (script.js:294-299) is modelled by its two assignments to engine globals (`gameRunning` and `isPaused` become false). Its `cancelAnimationFrame`, music calls and DOM and canvas writes are left out with the rest of the I/O.
- Pieces are values. The script mutates the `currentPiece` object in place, but the current and next pieces never share an object, so a value per slot carries the same information.
- `GameEngine.Engine.StartGame` requires `now >= 0`. `performance.now()` never returns a negative value, and with that fact the `update()` inside startGame is reduced to its clock step (`GameFacts.StartGameIsUpdate`).
- Engine methods other than the constructor require `Valid()`, the invariant that the constructor establishes and every method keeps. The small helper methods instead require only the facts they use, such as an in-bounds row index or a 20 x 10 grid.

## Findings

| source | as written | input that shows it | evidently intended | confidence | as-written member | corrected member |
|---|---|---|---|---|---|---|
| script.js:205 | The full rows are listed bottom-up, then each listed index is spliced out of a grid that the earlier splices have already shifted down by one. | Rows 18 and 19 full: splicing 19 moves old row 18 to index 19 and old row 17 to index 18. The second splice then deletes old row 17, a row that is not full, and the full row stays at the bottom. | Every listed row disappears, the remaining rows keep their order, and as many empty rows enter on top, so no full row remains. | not executed | `Board.TwoFullRowsClearWrongRow` | `Board.ClearRowsIntended` |

For the row above, the corrected removal `Board.ClearRowsIntended` is proved to leave no full row (`Board.IntendedClearsEveryFullRow`). The two removals agree whenever exactly one row is full (`Board.SingleRowClearAgrees`). The engine itself (`GameEngine.Engine.RemoveRows`, `Game.FinishClear`) keeps the script's removal, because that is how the game behaves.
