# Falling-block game core in Dafny

This project models the deterministic simulation core of `game.js`, a
browser falling-block game. The model covers:

- the 10 × 20 arena of colour indices;
- the seven-piece catalog;
- the collision test;
- the in-place quarter turn of a piece and the wall-kick search that follows it;
- the player operations: move, rotate, soft drop, hard drop, lock and spawn;
- the row sweep with its scoring;
- the stage arithmetic and the stage change;
- the drop-counter part of the frame loop `update`.

Modules, one file each:

- `Arena` (`arena.dfy`): the grid, `isColliding`, `merge`, and the sweep loop of `arenaSweep`.
- `Pieces` (`pieces.dfy`): `PIECES` and `createPiece`.
- `Rotation` (`rotation.dfy`): `rotate` on a two-dimensional array, proved against a value-level quarter turn.
- `WallKick` (`wallkick.dfy`): the kick loop of `playerRotate`.
- `Stage` (`stage.dfy`): `calculateDropInterval`, the lines per stage and the points table.
- `Simulation` (`simulation.dfy`): the game state.
  - `Session` is the state as a value.
  - A step function per operation says what that operation does to a `Session`.
  - Class `Game` holds the same state in mutable fields. Each of its methods is proved to have exactly the effect of its step function.
  - `ValidSession` is the invariant every operation keeps.
- `Properties` (`properties.dfy`): what each operation promises, stated over the step functions.

## How the source's behaviour is represented

- **Randomness, time and keys.** The piece kind `playerReset` draws with `Math.random` is a parameter (`next`). So are the time elapsed between two frames (`delta`, whole milliseconds) and whether Down is held.
- **The frame loop.** `animationFrameId` being set is the boolean `loopRunning`.
- **The stage-clear timers.** The two `setTimeout` callbacks that a qualifying sweep schedules (game.js:249-260) are explicit transitions.
  - A qualifying sweep only counts one more pending first callback (`scheduledWaits`).
  - `Game.BeginWait` runs that first callback. It counts one more pending second callback (`scheduledAdvances`).
  - `Game.Advance` runs the second callback.
  - Any interleaving of these calls with the player operations is allowed, as it is in the browser.
- **`isStageClearing`.** It is not part of the state. `advanceStage` sets it and clears it again within the same synchronous call (game.js:107, 126), so no other code ever sees it set.
- **Lock order.** A blocked drop runs merge, then `playerReset`, then `arenaSweep` (game.js:319-321, 331-333). The model follows that order. So the next piece is spawned, and game over is decided, against the arena before its full rows are removed (`Properties.LockSpawnsBeforeSweep`).
- **Wall kicks.** The kick loop moves the piece by 1, −2, 3, −4, … and stops once the next offset would exceed ⌈w/2⌉ + 1 (game.js:300-310). As a result:
  - a 3- or 4-wide shape is tried at net shifts 0, +1 and −1 only;
  - the 2-wide O piece is tried at 0 and +1 only;
  - the position reached by the last move is never tested.

  `WallKick.KickShiftsForPieces` states this.

## Model

| member | source | states |
|---|---|---|
| `Arena.CreateMatrix` | game.js:91-97 | the result has h rows of w zeros |
| `Arena.ClearRows` | game.js:135 | every arena cell becomes 0; the arena keeps its 20 × 10 dimensions |
| `Arena.CollidingIff` | game.js:181-201 | the scan reports a collision iff some non-zero shape cell is left of column 0, right of column 9, below row 19, or on a non-zero arena cell |
| `Arena.AboveTopNeverCollides` | game.js:193-197 | a block above the top edge, in an arena column, never collides |
| `Arena.BelowFloorCollides` | game.js:195 | a shape with a block collides once its top row is at or below the floor |
| `Arena.FirstBlockedRow` | game.js:328-330 | the row where the hard-drop loop stops: it collides there, and at no row between the start and it |
| `Arena.LandingRow` | game.js:327-331 | the loop of `playerDropHard` ends one row above the first row where the piece collides |
| `Arena.Merged` | game.js:205-218 | `merge` keeps the arena at 20 rows of 10 cells |
| `Arena.MergedInRange` | game.js:205-218 | merging a piece with colour indices 0..7 keeps every arena cell in 0..7 |
| `Arena.MergeFillsOnlyEmptyCells` | game.js:205-218 | from a position that does not collide, merge writes only into empty cells and every existing block survives |
| `Arena.MergedPieceCollides` | game.js:205-218 | once merged, a piece with a block inside the arena collides with itself at that position |
| `Arena.SweepRows` | game.js:222-233 | the bottom-up splice/unshift loop yields the full rows removed, the others in order under one empty row per removed row, and counts the removed rows |
| `Arena.NonFullRowsMembers` | game.js:224-230 | a row is kept iff it was in the arena and is not full |
| `Arena.NonFullRowsAppend` | game.js:222-233 | the kept rows keep their relative order |
| `Arena.SweptIsArena` | game.js:231-232 | a swept arena still has 20 rows of 10 cells, with cell values in range |
| `Arena.SweptHasNoFullRow` | game.js:222-233 | no full row is left after a sweep |
| `Arena.SweepWithoutFullRows` | game.js:222-233 | an arena without full rows is left unchanged and no row is counted |
| `Arena.NothingClearedUnchanged` | game.js:222-233 | a sweep that removes no row leaves the arena as it was |
| `Arena.SweepIdempotent` | game.js:220-233 | sweeping twice is the same as sweeping once |
| `Pieces.TemplateWellFormed` | game.js:35-71 | every catalog shape is a square of its size (2, 3 or 4) with a block, using only its own colour index |
| `Pieces.CreatePiece` | game.js:170-177 | `createPiece` returns the catalog shape of the kind, square and with a block |
| `Pieces.ColorsDistinct` | game.js:24-33 | each kind has its own colour index in 1..7 |
| `Rotation.Rotated` | game.js:264-279 | transpose-then-reverse keeps a square shape square |
| `Rotation.RotatedIsQuarterTurn` | game.js:264-279 | the turn is a quarter turn: clockwise for dir > 0, counter-clockwise otherwise |
| `Rotation.RotateUndo` | game.js:264-279 | a turn with dir = 1 and one with dir = -1, in either order, give back the shape |
| `Rotation.HalfTurn` | game.js:264-279 | two turns in one direction are a half turn |
| `Rotation.RotateFourTimes` | game.js:264-279 | four turns in one direction give back the shape |
| `Rotation.RotatedIsShape` | game.js:264-279 | a turn keeps a well-formed shape well-formed |
| `Rotation.RotatePreservesValues` | game.js:264-279 | a turn keeps the multiset of cell values |
| `Rotation.Transpose` | game.js:266-270 | the swap loop leaves the array holding the transpose of what it held |
| `Rotation.ReverseEachRow` | game.js:274 | every row of the array is reversed in place |
| `Rotation.ReverseRowOrder` | game.js:276 | the order of the rows of the array is reversed in place |
| `Rotation.Rotate` | game.js:264-279 | `rotate` leaves the array holding the quarter turn of what it held |
| `Rotation.RotatedCopy` | game.js:292-294 | the copy that `playerRotate` turns is the quarter turn of the current shape |
| `WallKick.ProbeStep` | game.js:298-301 | adding the offsets 1, -2, 3, ... one after another visits the shifts 0, +1, -1, +2, ... |
| `WallKick.KickSearch` | game.js:290-312 | the search returns the first probe below the bound at which the shape fits; with none, the shape collides at every probe |
| `WallKick.Kick` | game.js:290-312 | a shift is found only where the turned shape fits; no shift is found iff it collides at every probe below ⌈w/2⌉ + 1 |
| `WallKick.KickFrom` | game.js:298-311 | the kick loop gives exactly the shift of the kick search |
| `WallKick.KickShiftsForPieces` | game.js:300-310 | catalog shapes are tried at shifts 0, +1, -1 (3 or 4 wide) or 0, +1 (2 wide) only |
| `Stage.CalculateDropInterval` | game.js:100-103 | `max(100, 1000 - (stage - 1) * 50)`: never below 100, and 100 from stage 19 on |
| `Stage.DropIntervalNonIncreasing` | game.js:100-103 | a later stage is never slower |
| `Stage.DropIntervalSamples` | game.js:100-103 | 1000, 950, 900 ms at stages 1 to 3, and 100 ms at stages 19 and 40 |
| `Stage.LinesGrowByTwo` | game.js:131 | each stage needs two more lines than the one before; stage 1 needs 2 lines |
| `Stage.LinePoints` | game.js:237-238 | 10, 30, 50 for 1 to 3 rows; 100 for four rows or more |
| `Stage.AwardSamples` | game.js:237-238 | the points are multiplied by the stage |
| `Simulation.Game.constructor` | game.js:585-629 | `initGame` gives an empty arena, stage 1, score 0, the first piece spawned and the loop running |
| `Simulation.Game.PlayerMove` | game.js:283-288 | `playerMove` has the effect of `MoveStep` and keeps the invariant |
| `Simulation.Game.PlayerRotate` | game.js:290-312 | `playerRotate` has the effect of `RotateStep` and keeps the invariant |
| `Simulation.Game.Merge` | game.js:205-218 | the merge loops write the piece into the arena |
| `Simulation.Game.ArenaSweep` | game.js:220-262 | `arenaSweep` has the effect of `SweepStep`: rows removed, score and line count updated, stage clear scheduled |
| `Simulation.Game.PlayerReset` | game.js:339-368 | `playerReset` has the effect of `ResetStep`; it returns false exactly when the new piece collides |
| `Simulation.Game.PlayerDrop` | game.js:315-325 | `playerDrop` has the effect of `DropStep` |
| `Simulation.Game.Lock` | game.js:319-321 | merge, then `playerReset`, then `arenaSweep` |
| `Simulation.Game.PlayerDropHard` | game.js:327-337 | `playerDropHard` has the effect of `HardDropStep` |
| `Simulation.Game.EnterNextStage` | game.js:129-135 | next stage, its line target and its speed; the arena is emptied in place |
| `Simulation.Game.AdvanceStage` | game.js:105-150 | `advanceStage` has the effect of `AdvanceStep` |
| `Simulation.Game.BeginWait` | game.js:249-255 | the first callback sets the waiting flag, stops the loop and schedules the second |
| `Simulation.Game.Advance` | game.js:256-259 | the second callback clears the waiting flag and advances the stage |
| `Simulation.Game.ApplyGravity` | game.js:410-416 | the drop-counter part of `update` |
| `Simulation.Game.Tick` | game.js:402-427 | `update`, as written, has the effect of `TickStep` |
| `Simulation.Game.HaltingTick` | game.js:402-427 | `update`, with the frame request corrected, has the effect of `HaltingTickStep` |
| `Simulation.InitialSessionValid` | game.js:585-629 | the initial session satisfies the invariant |
| `Simulation.MoveKeepsValid` | game.js:283-288 | a move keeps the invariant |
| `Simulation.RotateKeepsValid` | game.js:290-312 | a rotation keeps the invariant |
| `Simulation.ResetKeepsValid` | game.js:339-368 | a spawn keeps the invariant |
| `Simulation.SweepKeepsValid` | game.js:220-262 | a sweep keeps the invariant |
| `Simulation.LockKeepsValid` | game.js:319-321 | a lock keeps the invariant |
| `Simulation.DropKeepsValid` | game.js:315-325 | a soft drop keeps the invariant |
| `Simulation.HardDropKeepsValid` | game.js:327-337 | a hard drop keeps the invariant |
| `Simulation.NextStageKeepsValid` | game.js:129-135 | the new stage's counters agree with the stage number |
| `Simulation.AdvanceKeepsValid` | game.js:105-150 | a stage change keeps the invariant |
| `Simulation.BeginWaitKeepsValid` | game.js:249-255 | the first callback keeps the invariant |
| `Simulation.AdvanceCallbackKeepsValid` | game.js:256-259 | the second callback keeps the invariant |
| `Simulation.CountKeepsValid` | game.js:412 | adding the elapsed time keeps the invariant |
| `Simulation.GravityKeepsValid` | game.js:410-416 | the gravity step keeps the invariant |
| `Simulation.TickKeepsValid` | game.js:402-427 | a frame keeps the invariant |
| `Simulation.SpawnFitsEmptyArena` | game.js:349-353 | every piece fits at its spawn position in an empty arena |
| `Properties.MoveOutcome` | game.js:283-288 | the piece moves by d iff the shifted piece fits; otherwise nothing changes |
| `Properties.MoveKeepsFit` | game.js:283-288 | a piece that fits still fits after a move |
| `Properties.MoveThenBack` | game.js:283-288 | from a fitting position, a move that was made is undone by the opposite move |
| `Properties.RotateOutcome` | game.js:290-312 | either the turned shape fits at its kicked column, or shape and column are as before; the row never changes |
| `Properties.ResetOutcome` | game.js:339-368 | while waiting nothing happens; otherwise the new piece is at row 0, column 5 - floor(w/2), and the game is over iff it collides; score and stage are unchanged |
| `Properties.LockSpawnsBeforeSweep` | game.js:319-321 | after a lock the arena is the swept merged arena, and game over is decided against the merged arena before the sweep |
| `Properties.LockWhileWaiting` | game.js:341-343 | while waiting, a lock keeps the current piece |
| `Properties.DropOutcome` | game.js:315-325 | one row down when that row is free, otherwise a lock where it is; the drop counter is 0 afterwards |
| `Properties.HardDropLanding` | game.js:327-337 | from a fitting position, the piece is locked, column and shape unchanged, at the lowest row it reaches; the drop counter is 0 |
| `Properties.SweepNothingCleared` | game.js:235-246 | a sweep that removes no row changes nothing |
| `Properties.SweepScoring` | game.js:235-240 | k > 0 removed rows add points[k] (100 from four on) times the stage to the score, and k to the stage's lines |
| `Properties.SweepSchedulesStageClear` | game.js:246-261 | a stage clear is scheduled iff rows were removed, the target is met and no stage change is waiting |
| `Properties.AdvanceOutcome` | game.js:129-150 | the stage goes up by one with two more lines needed; lines and every arena cell are zeroed; a new piece always fits, so the loop runs again |
| `Properties.StageClearCycle` | game.js:249-260 | the first callback freezes the game (a frame does nothing); the second advances the stage by one and restarts the loop |
| `Properties.DoubleStageClear` | game.js:246-260 | two qualifying sweeps before the first callback runs advance the stage twice |
| `Properties.TickIdle` | game.js:404 | a frame does nothing while the loop is stopped or a stage change is waiting |
| `Properties.TickDropsWhenDue` | game.js:410-416 | the piece drops, and the counter returns to 0, iff counter + delta strictly exceeds the interval (50 ms with Down held) |
| `Properties.TickRestartsLoopAfterGameOver` | game.js:414-426 | a concrete running session in which the frame's drop ends the game, and the frame still leaves the loop running |
| `Properties.HaltingTickStopsAtGameOver` | game.js:414-426 | with the corrected frame request, the loop keeps running iff it was running and the frame's drop did not end the game |

## Left out

- Drawing is left out: `draw`, `drawMatrix`, `colors` and the stage-clear text (game.js:114-122) only produce pixels.
- The DOM is left out: `updateDisplay`, element lookup, listener wiring in `initGame`, `alert` and `console` only do input and output.
- Key handlers and their repeat timers (game.js:431-556) are left out. They only call `playerMove`, `playerRotate`, `playerDrop` and `playerDropHard`, which the `Game` methods model. Any order of calls is allowed.
- The real-time delays of `setTimeout` (0 ms and 2000 ms) are left out. The two callbacks are explicit transitions that may run at any later point.
- `requestAnimationFrame`, `cancelAnimationFrame`, `performance.now` and `lastTime` are left out. The frame loop is the flag `loopRunning`, and the time between frames is a parameter.
- `Simulation.Game.Tick`: the time between frames is a whole, non-negative number of milliseconds. The browser's timestamps are fractional.
- `Math.random` in `playerReset` is left out. The kind of the next piece is a parameter.
- The `dropInterval` variable is left out. `update` never reads it.
- The `null` result of `createPiece` for an unknown type is left out. Kinds are a seven-valued datatype, so that case cannot arise.
- `isStageClearing` is left out. It is never observable outside `advanceStage`.

## Findings

| source | as written | input that shows it | evidently intended | confidence | as-written member | corrected member |
|---|---|---|---|---|---|---|
| game.js:425 | `update` requests the next frame whenever `isStageClearing` is false. This happens even after the frame's `playerDrop` ended the game, when `playerReset` has just cancelled the frame (game.js:355-359). The loop therefore keeps running after a game over. | An O piece at column 0, row 0, with a block under it at row 2, column 0, and a block at row 1, column 4. Stage 1, a frame of 2000 ms, Down not held, next piece O. The drop locks the piece, the new O collides at its spawn position and `playerReset` stops the loop, yet the frame requests the next one. | A game over stops the frame loop: the next frame is requested only while the loop is still running. | high; not executed | `Properties.TickRestartsLoopAfterGameOver` | `Properties.HaltingTickStopsAtGameOver` |
