# Block Blitz game engine in Dafny

This project models the engine of Block Blitz, a falling-block puzzle game, and proves
properties of the model. The engine is written in TypeScript. The model covers:

- the game reducer of `hooks/use-game-state.ts`:
  - moves and rotation without wall kick;
  - the hard drop's search loop;
  - the lock path: merge the piece, clear full rows, score, detect top-out, promote the next piece;
  - the time budget, pause and reset;
  - the driver's gravity interval.
- the board helpers the reducer imports from `lib/collision.ts`;
- the power-ups of `lib/power-ups.ts`:
  - the colour bomb;
  - the line blast, with its per-column gravity pass;
  - the column shuffle;
  - activation, and the refresh of timed power-ups;
- the piece catalog and the clockwise rotation of `lib/pieces.ts`;
- the score plausibility check and the leaderboard read-out of `actions/leaderboard.ts`;
- the GET loop and the POST guard of `app/api/leaderboard/route.ts`.

Every call to `Date.now()` becomes an integer millisecond parameter. Every `Math.random()`
becomes a draw in basis points, `0 <= d < 10000`. The shuffle's random sort becomes a
column permutation `perm`. The Redis replies become inputs, and so does `JSON.parse`,
which is a parser parameter returning `None` where it would throw.

The power-up fields (`activePowerUps`, `isTimeFrozen`, `isGhostMode`, `powerUpStates`) are
missing from `types/game.ts`. The model's `GameState` adds them at the end of the record.

The in-game help (`components/help-dialog.tsx:176-193` and `:257`) promises 1 point per
cell for a soft drop, 2 per cell for a hard drop, points multiplied by the level, and a
time freeze that stops the piece's descent. The model follows the reducer instead:

- TICK only spends the time budget. It does not skip while time is frozen, it does not
  expire power-ups, and it does not move the piece down.
- SOFT_DROP has no case and pays nothing.
- A hard drop earns one point per row fallen, and no score is multiplied by the level.
- The combo fields are never updated.
- A lock always deals a catalog piece as the next piece (`nextPiece: getRandomPiece()`,
  `hooks/use-game-state.ts:125` and `:170`), so no power-up piece is ever spawned.

Two power-ups do not do what their code evidently intends (see Findings). For each, the
model has both the code as written and the corrected version, and states which it proves
what about:

- The refresh of timed power-ups keeps an expired ghost block, against the comment
  "Clear effects when power-up expires" (`lib/power-ups.ts:173`).
  `PowerUps.SurvivorsAsWritten` and `PowerUps.UpdatePowerUpsAsWritten` follow the code.
  `PowerUps.Survivors` and `PowerUps.UpdatePowerUps` use the corrected filter.
- The line blast, with the piece left of the board, counts every row as a cleared block.
  `PowerUps.LineBlastEffect` and `PowerUps.HandleLineBlast` follow the code.
  `PowerUps.LineBlastIntended` pays only for the blocks removed.

Layout, one module per file:

| file | module |
|---|---|
| `wrappers.dfy` | `Wrappers` |
| `grid.dfy` | `Grid`: board cells, block counts, columns, settling |
| `power_up_types.dfy` | `PowerUpTypes` |
| `game_types.dfy` | `GameTypes` |
| `pieces.dfy` | `Pieces` |
| `collision.dfy` | `Collision` |
| `power_ups.dfy` | `PowerUps` |
| `game_engine.dfy` | `GameEngine` |
| `leaderboard_types.dfy` | `LeaderboardTypes` |
| `leaderboard_action.dfy` | `LeaderboardAction` |
| `leaderboard_route.dfy` | `LeaderboardRoute` |

`lib/collision.ts` is not part of this model: its body is not available. `Collision` gives
reference definitions of the documented behaviour of these helpers:

- a collision is a cell outside the board, or a cell on a block unless ghost mode is on;
- merging writes the piece's cells in its colour;
- a full row is one whose every cell is non-null;
- clearing removes those rows and pads empty rows on top;
- top-out means a block in row 0.

The contracts in `Collision` state that behaviour, not the hidden code.

## Model

| member | source | states |
|---|---|---|
| GameEngine.InitialState | hooks/use-game-state.ts:18-33 | The initial record is an empty 20-by-10 board with two catalog pieces drawn by the two boot draws. It has score 0, level 1, 0 lines, not over, not paused, and 180 s on the clock. |
| GameEngine.CalculateScore | hooks/use-game-state.ts:44-47 | 0, 1, 2, 3 and 4 cleared rows pay 0, 100, 300, 500 and 800 points. Every other count, negative or above 4, pays 0. |
| GameEngine.ClearingTogetherPaysMore | hooks/use-game-state.ts:44-47 | Clearing a + b rows at once (at most 4) pays strictly more than clearing a rows and then b rows. |
| GameEngine.IsValidMove | hooks/use-game-state.ts:35-42 | A move is valid when the piece at the new position has no collision outside ghost mode; `Collision.NoCollisionInside` states what that means. |
| GameEngine.Lock | hooks/use-game-state.ts:107-129 | The lock path: merge, clear, top-out check, promotion and credit; `GameEngine.LockOutcome` states its result. |
| GameEngine.LockedBoardCleared | hooks/use-game-state.ts:108-110 | After a lock on a 10-wide board, the board keeps its size and width. No row is full. The top n rows are fresh empty rows, where n is the number of rows cleared. |
| GameEngine.LockOutcome | hooks/use-game-state.ts:107-129 | On top-out, only the board and the game-over flag change. Otherwise the next piece becomes current and a new next piece is drawn. Score gains the line points plus the bonus, lines grow by the rows cleared, and level is floor(lines / 10) + 1. |
| GameEngine.MoveHorizontalShifts | hooks/use-game-state.ts:55-89 | MOVE_LEFT or MOVE_RIGHT moves the piece by exactly dx columns when the shifted piece fits. Otherwise the state is returned unchanged. |
| GameEngine.MoveHorizontal | hooks/use-game-state.ts:55-89 | MOVE_LEFT and MOVE_RIGHT; `GameEngine.MoveHorizontalShifts` states their result. |
| GameEngine.LeftThenRight | hooks/use-game-state.ts:55-89 | From a position that fits, a successful move left followed by a move right gives back the original state. |
| GameEngine.MoveDownResult | hooks/use-game-state.ts:91-131 | MOVE_DOWN; `GameEngine.MoveDownShifts` states its result. |
| GameEngine.MoveDownShifts | hooks/use-game-state.ts:91-131 | When the piece fits one row lower, MOVE_DOWN moves it exactly one row down and changes nothing else. Otherwise the piece locks where it is, with no bonus. |
| GameEngine.RotateCurrent | hooks/use-game-state.ts:177-192 | ROTATE; `GameEngine.RotateReplacesShapeOnly` states its result. |
| GameEngine.RotateReplacesShapeOnly | hooks/use-game-state.ts:177-192 | ROTATE either leaves the state unchanged or replaces only the shape with its clockwise rotation. It keeps the position (no wall kick), and the new shape fits there. |
| GameEngine.RotateFourTimesState | hooks/use-game-state.ts:177-192 | Four accepted rotations of a square piece give back the state. |
| GameEngine.DropFrom | hooks/use-game-state.ts:139-147 | The result d is at least the start k. Every step from k + 1 to d fits, and step d + 1 does not. |
| GameEngine.DropDistance | hooks/use-game-state.ts:139-147 | The drop distance d is such that every row offset 1..d fits and offset d + 1 does not. |
| GameEngine.DropDistanceUnique | hooks/use-game-state.ts:139-147 | Any distance e with those two properties equals the drop distance. |
| GameEngine.HardDropResult | hooks/use-game-state.ts:133-175 | HARD_DROP: the piece moved down by its drop distance and locked, with that distance as bonus; `GameEngine.HardDropScores` states its result. |
| GameEngine.DropSearch | hooks/use-game-state.ts:135-147 | The search loop stops after exactly the drop distance, with the piece that many rows lower in the same column. |
| GameEngine.HardDropSearch | hooks/use-game-state.ts:133-175 | HARD_DROP (the search, then the lock) computes the hard-drop result. With no piece the state is unchanged. |
| GameEngine.HardDropScores | hooks/use-game-state.ts:139-174 | The piece lands at (x, y + d) and the board becomes the locked board there. Without top-out, the score gains calculateScore(rows cleared) + d. |
| GameEngine.HardDropKeepsConsistent | hooks/use-game-state.ts:133-175 | A hard drop keeps the state consistent: 20-by-10 board, level from lines, score and lines non-negative, current and next pieces ready (square, with a cell, on the board). It never lowers score or lines. |
| GameEngine.TickResult | hooks/use-game-state.ts:194-213 | TICK; `GameEngine.TickBudget` states its result. |
| GameEngine.TickBudget | hooks/use-game-state.ts:194-213 | TICK leaves timeLeft = max(0, timeLeft - elapsed), which is never negative. It sets isGameOver exactly when that reaches 0 (or the game was already over). Only timeLeft, lastTick and isGameOver change. |
| GameEngine.TicksAdd | hooks/use-game-state.ts:194-213 | Two ticks, the first leaving time on the clock, have the effect of a single tick at the later time. |
| GameEngine.TogglePauseResult | hooks/use-game-state.ts:215-220 | TOGGLE_PAUSE flips the pause flag and restarts the tick clock; `GameEngine.PauseTwice` states that two toggles undo each other. |
| GameEngine.ResetTimeLeft | hooks/use-game-state.ts:222-227 | RESET's budget is the given limit when it is present and non-zero. Otherwise (absent or 0) it is 180 s. |
| GameEngine.ResetResult | hooks/use-game-state.ts:222-227 | RESET: the initial record with the reset budget and a fresh tick clock; `GameEngine.ResetForgetsState` states its properties. |
| GameEngine.Reduce | hooks/use-game-state.ts:49-232 | The reducer's case analysis; `GameEngine.GameOverFreezes`, `GameEngine.PauseFreezes` and `GameEngine.ReduceKeepsConsistent` state its properties. |
| GameEngine.GameReducer | hooks/use-game-state.ts:49-232 | The reducer, with its rotation fill and hard-drop search loop, computes exactly the case analysis `Reduce`. Actions without a case return the state. |
| GameEngine.GameOverFreezes | hooks/use-game-state.ts:50 | Once the game is over, every action but RESET returns the state unchanged. |
| GameEngine.PauseFreezes | hooks/use-game-state.ts:51-52 | While paused, every action but TOGGLE_PAUSE and RESET returns the state unchanged. |
| GameEngine.ResetForgetsState | hooks/use-game-state.ts:222-227 | RESET gives the same state whatever state it replaces, even a finished or paused game. Its budget is the reset budget, and the game is not over. |
| GameEngine.PauseTwice | hooks/use-game-state.ts:215-220 | Toggling pause twice restores everything but lastTick. |
| GameEngine.OnBoardIsGhostFree | hooks/use-game-state.ts:35-42 | On a 20-by-10 board, a piece lies on the board exactly when it has no collision in ghost mode. |
| GameEngine.CatalogPieceReady | lib/pieces.ts:46-56 | Every freshly created catalog piece is square, occupies a cell, stands on row 0 and lies on the board. |
| GameEngine.RandomPieceReady | lib/pieces.ts:58-62 | Every drawn piece is ready in that sense. |
| GameEngine.MovedPieceReady | hooks/use-game-state.ts:55-105 | A ready piece moved to a valid position on or below row 0 stays ready. |
| GameEngine.RotatedPieceReady | hooks/use-game-state.ts:177-192 | A ready piece whose rotation is valid in place stays ready rotated. |
| GameEngine.InitialConsistent | hooks/use-game-state.ts:18-33 | The initial state is consistent: a 20-by-10 board, level from lines, score and lines non-negative, and current and next pieces that are ready. |
| GameEngine.ConsistentCanReduce | hooks/use-game-state.ts:133-147 | In a consistent state the current piece occupies a cell, so the hard drop's search loop ends and the reducer accepts every action. |
| GameEngine.ConsistentBlastAnchor | lib/power-ups.ts:87-101 | In a consistent state the piece's row lies on the board and its column is not right of it, which is what the line blast needs. |
| GameEngine.UprightIFits | hooks/use-game-state.ts:55-89 | The upright I piece (occupied cells in its third column only) fits an empty board at x = -2 from any of the top 17 rows. |
| GameEngine.UprightIPassesLeftEdge | hooks/use-game-state.ts:55-89 | From a consistent state holding the upright I at x = -1 on an empty board, MOVE_LEFT reaches the consistent state with the piece at x = -2. There the line blast as written pays 1000 points for a board without a block. |
| GameEngine.ReduceKeepsConsistent | hooks/use-game-state.ts:49-232 | Every action keeps the state consistent. Only RESET may lower the score or the line count. |
| GameEngine.PieceMovesKeepConsistent | hooks/use-game-state.ts:55-89 | Sideways moves and rotation keep the state consistent. |
| GameEngine.PieceMovesKeepRecord | hooks/use-game-state.ts:55-89 | Sideways moves and rotation change at most the current piece. |
| GameEngine.ClockActionsKeepBoard | hooks/use-game-state.ts:194-220 | TICK and TOGGLE_PAUSE never change the board, the piece, the score, the lines or the level. |
| GameEngine.DropsKeepConsistent | hooks/use-game-state.ts:91-175 | MOVE_DOWN and HARD_DROP keep the state consistent and never lower score or lines. |
| GameEngine.MoveDownKeepsConsistent | hooks/use-game-state.ts:91-131 | MOVE_DOWN, whether it steps or locks, keeps the state consistent and never lowers score or lines. |
| GameEngine.LockKeepsConsistent | hooks/use-game-state.ts:107-129 | A lock with a non-negative bonus keeps the state consistent and never lowers score or lines. |
| GameEngine.GravityInterval | hooks/use-game-state.ts:250 | The gravity period for a level; `GameEngine.GravityIntervalBounds` states its bounds. |
| GameEngine.GravityIntervalBounds | hooks/use-game-state.ts:250 | The interval max(100, 800 - (level - 1) * 50) is at least 100 ms and at most 800 ms from level 1 on. It is non-increasing in the level and is 100 ms from level 15 on. |
| Collision.NoCollisionInside | hooks/use-game-state.ts:35-42 | A placement without collision puts every occupied cell inside the board, on an empty cell. |
| Collision.GhostCollisionIsBoundsOnly | hooks/use-game-state.ts:35-42 | A collision in ghost mode is also a collision outside it. In ghost mode a collision means some occupied cell is off the board. |
| Collision.MergePieceToBoard | hooks/use-game-state.ts:108 | The merged board keeps every row's size. A cell covered by the piece holds its colour, and every other cell is unchanged. |
| Collision.MergeKeepsBlocks | hooks/use-game-state.ts:108 | Merging a piece that does not collide keeps every existing block, and each of its cells gets its colour. |
| Collision.FindFullRows | hooks/use-game-state.ts:109 | The result lists exactly the indices of the full rows, in ascending order. |
| Collision.ClearRows | hooks/use-game-state.ts:110 | Clearing keeps the row count. The rows not listed come last, in order, below one empty row per removed row. |
| Collision.KeptRowsInOrder | hooks/use-game-state.ts:110 | The rows clearing keeps are the board's rows at the unlisted indices: every unlisted row, each once, in ascending order. |
| Collision.KeptPlusFull | hooks/use-game-state.ts:109-110 | Kept rows plus full rows account for every row. |
| Collision.ClearFullRows | hooks/use-game-state.ts:109-110 | Clearing the full rows keeps the dimensions and pads one empty row per row cleared. On a board of positive width, no row is full afterwards. |
| Pieces.CreatePiece | lib/pieces.ts:46-56 | A new piece has the catalog shape and colour, rotation 0, no power-up, row 0, and column 5 - floor(width / 2). That is 3 for I and 4 for the others. |
| Pieces.GetRandomPiece | lib/pieces.ts:58-62 | The index floor(draw * 5 / 10000) is within the catalog. The result is a fresh piece of the catalog type whose fifth of the draw range holds the draw. |
| Pieces.RandomPieceCoversCatalog | lib/pieces.ts:58-62 | Every catalog type is dealt, by exactly the draws in its fifth of the range. |
| Pieces.CatalogOccupied | lib/pieces.ts:3-44 | Every catalog shape is square and occupies exactly its listed cells. |
| Pieces.CatalogShapesHaveFourCells | lib/pieces.ts:3-44 | Every catalog shape is square and occupies exactly four cells. |
| Pieces.Rotated | lib/pieces.ts:64-78 | The rotation of an N-row shape is an N-by-N matrix. |
| Pieces.RotatePiece | lib/pieces.ts:64-78 | The nested fill returns an N-by-N matrix with rotated[j][N-1-i] = shape[i][j] for all i, j < N. A cell beyond a short row reads as false. |
| Pieces.RotatedTwice | lib/pieces.ts:71-75 | Two rotations turn the shape through a half turn: (i, j) reads (N-1-i, N-1-j). |
| Pieces.RotateFourTimes | lib/pieces.ts:64-78 | Four rotations give back a square shape. |
| Pieces.RotationKeepsCellCount | lib/pieces.ts:71-75 | Rotating a square shape keeps the number of occupied cells. |
| Pieces.RotationKeepsBlock | lib/pieces.ts:71-75 | A square shape with an occupied cell still has one after rotation. |
| PowerUpTypes.Catalog | constants/power-ups.ts:4-40 | Each catalog entry has its own kind. Only time freeze and ghost block have a positive duration. |
| PowerUps.CreatePowerUpPiece | lib/power-ups.ts:5-20 | A power-up piece is a fully filled 2-by-2 square at (4, 0) with rotation 0. It carries the kind's catalog entry and colour. |
| PowerUps.PowerUpPieceSquare | lib/power-ups.ts:8-11 | A power-up piece occupies four cells and is unchanged by rotation. |
| PowerUps.PowerUpPieceFits | lib/power-ups.ts:5-20 | A power-up piece fits an empty 20-by-10 board at its spawn position. |
| PowerUps.ShouldGeneratePowerUp | lib/power-ups.ts:22-27 | A draw under the score's threshold yields a power-up; `PowerUps.PowerUpChanceGrows` and `PowerUps.PowerUpChanceBounds` state what that threshold does. |
| PowerUps.PowerUpChanceGrows | lib/power-ups.ts:22-27 | The threshold 500 + 100 * floor(score / 1000) basis points never falls as the score rises. A draw that succeeds at a lower score succeeds at a higher one. |
| PowerUps.PowerUpChanceBounds | lib/power-ups.ts:22-27 | Below 1000 points a power-up appears exactly for draws under 5%. From 95000 points on, every draw succeeds: there is no cap. |
| PowerUps.GetRandomPowerUpType | lib/power-ups.ts:29-32 | The index floor(draw * 5 / 10000) is always within the five kinds. The result is the kind whose fifth of the draw range holds the draw. |
| PowerUps.RandomPowerUpCoversKinds | lib/power-ups.ts:29-32 | Each kind is drawn by exactly the draws in its fifth of the range. |
| PowerUps.ColorBombEffect | lib/power-ups.ts:59-79 | The colour bomb's patch; `PowerUps.ColorBombEmptiesBoard` states its result. |
| PowerUps.HandleColorBomb | lib/power-ups.ts:59-79 | The nested map gives no change when the piece is absent or its colour is empty. Otherwise it empties every cell and adds 100 points per block counted. |
| PowerUps.ColorBombEmptiesBoard | lib/power-ups.ts:59-79 | After a colour bomb, the board has its old row count and row lengths and holds no block. The score rose by 100 times the number of blocks removed. |
| PowerUps.LineBlastEffect | lib/power-ups.ts:81-121 | The line blast as written; `PowerUps.LineBlastPays` states its result. |
| PowerUps.BlastIsCross | lib/power-ups.ts:91-101 | With the piece on the board, the row pass then the column pass empty exactly row y and column x, and count the cross's blocks with the crossing cell once. |
| PowerUps.BlastRemovesCross | lib/power-ups.ts:91-101 | Emptying row y and column x removes exactly the blocks of that row and column, with the crossing cell counted once. |
| PowerUps.LineBlastPays | lib/power-ups.ts:81-121 | A line blast keeps the board's dimensions and leaves every column settled. With the piece on the board the score rises by 50 per block that left the board. With the piece left of the board it rises by 50 more per row. |
| PowerUps.LineBlastIntendedPaysPerBlock | lib/power-ups.ts:81-121 | The corrected line blast leaves the same board and pays exactly 50 per removed block wherever the piece stands. With the piece on the board it is the blast as written. |
| PowerUps.LineBlastOffBoardOverpays | lib/power-ups.ts:96-101 | On an empty 20-by-10 board with the piece left of the board, no block is removed, yet the blast as written pays 1000 points. The corrected blast pays nothing. |
| PowerUps.FallBlock | lib/power-ups.ts:107-113 | Moving a block down to `writePos` keeps the pass invariant: rows above untouched, blocks seen so far stacked at the bottom in order. |
| PowerUps.FallDone | lib/power-ups.ts:104-115 | When the upward pass ends, the column is the settled original column. |
| PowerUps.FallColumn | lib/power-ups.ts:105-114 | The `writePos` pass over one column leaves that column settled and every other cell unchanged. |
| PowerUps.FallBlocks | lib/power-ups.ts:104-115 | The column-by-column pass computes per-column gravity over the whole board. |
| PowerUps.EmptyColumn | lib/power-ups.ts:95-101 | On the board, the column loop empties column x and counts exactly the blocks it held. Left of the board it changes no cell and counts every row. |
| PowerUps.BlastCross | lib/power-ups.ts:87-101 | Row y is emptied, then the column pass runs. The count is the blocks of the row plus what the column pass counts. |
| PowerUps.HandleLineBlast | lib/power-ups.ts:81-121 | The handler computes the line blast as written: no change without a piece; otherwise the row and column passes, then compaction, and 50 points per cell counted. |
| PowerUps.CollectColumns | lib/power-ups.ts:125-139 | For each column, the blocks are listed from the bottom row upwards. |
| PowerUps.StackedIsSettled | lib/power-ups.ts:153-161 | Stacking a column's blocks upwards from the bottom into an empty column leaves the settled column. |
| PowerUps.HandleShuffle | lib/power-ups.ts:123-167 | Column c's blocks end up in column perm[c], stacked from the bottom in their bottom-to-top order. The board keeps its dimensions. Only the board and the score change, and the score gains exactly 100. |
| PowerUps.ShuffleKeepsBlocks | lib/power-ups.ts:123-167 | A shuffle keeps the total number of blocks and each column's bottom-to-top order, and leaves every column settled. |
| PowerUps.Survivors | lib/power-ups.ts:171-187 | The corrected filter keeps exactly the entries still running (endTime > now), in order. |
| PowerUps.SurvivorsAsWritten | lib/power-ups.ts:171-187 | The filter as written keeps exactly the entries still running plus every ghost-block entry. |
| PowerUps.ExpiredGhostStaysAsWritten | lib/power-ups.ts:171-187 | A ghost block that ended at 15000 ms is still kept by the filter as written at 20000 ms, and ghost mode is still reported. The corrected filter drops it. |
| PowerUps.SurvivorsLater | lib/power-ups.ts:171-172 | A refresh at a later time, after an earlier one, keeps the same entries as the later refresh alone. |
| PowerUps.SurvivorsAllExpired | lib/power-ups.ts:171-187 | Once every entry has ended, the corrected filter keeps nothing and no kind is in effect. The filter as written still has the ghost-block kind exactly when some entry had it, and no other kind. |
| PowerUps.ExpiredKindAsWritten | lib/power-ups.ts:171-187 | Once every entry has ended, a kind is present after the filter as written iff it is the ghost block and some entry had it. |
| PowerUps.RefreshStatuses | lib/power-ups.ts:189-196 | The status loop gives each kept kind the status of its last entry (active, with its time left) and keeps every other status. |
| PowerUps.UpdatePowerUpsAsWritten | lib/power-ups.ts:169-207 | The refresh as written changes neither board, score nor piece. It keeps the running entries and every ghost-block entry, refreshes their statuses, and derives both flags from what it kept. |
| PowerUps.ExpiredGhostStatusNegative | lib/power-ups.ts:189-196 | After the refresh as written, a ghost block that ended at 15000 ms shows at 20000 ms an active status with -5000 ms left. |
| PowerUps.UpdatePowerUps | lib/power-ups.ts:169-207 | With the corrected filter, the refresh changes neither board nor score and keeps the running entries. Each kept kind gets the status of its last entry. The time-freeze and ghost-mode flags are true iff a kept entry has that kind. An ended ghost block removes the piece's power-up. |
| PowerUps.ActivatePowerUp | lib/power-ups.ts:34-57 | Colour bomb, line blast and shuffle give their handlers' results. A timed kind appends exactly one entry at the end, with endTime = now + duration * 1000, and touches nothing else. |
| PowerUps.TimedPowerUpLifetime | lib/power-ups.ts:39-43 | An activated time freeze ends 10 s later and a ghost block 15 s later. The appended entry survives the corrected refresh exactly until its end time. The refresh as written drops a time freeze then, but keeps a ghost block for ever. |
| Grid.BottomUpFacts | lib/power-ups.ts:132-139 | A column's bottom-up list has one entry per block, and only blocks. |
| Grid.SettleIsBottomRun | lib/power-ups.ts:104-115 | A settled column holds one run of blocks ending at the bottom row, as long as the column's block count; the count is kept. |
| Grid.SettleKeepsOrder | lib/power-ups.ts:104-115 | Settling keeps the bottom-to-top order of the blocks. |
| Grid.SettleIdempotent | lib/power-ups.ts:104-115 | Settling a settled column changes nothing. |
| Grid.GravityColumns | lib/power-ups.ts:104-115 | Each column of the compacted board is the settled original column. |
| Grid.GravityKeepsCount | lib/power-ups.ts:104-115 | Compaction keeps the number of blocks on the board. |
| Grid.SumPermuted | lib/power-ups.ts:142-161 | Moving per-column counts to the columns a permutation names keeps their total. |
| LeaderboardTypes.MembersFromIndex | app/api/leaderboard/route.ts:42-43 | The k-th member visited from member m on is the reply item at index 2(m + k): the i += 2 loop sees exactly the even indices. |
| LeaderboardTypes.MembersFromCovers | app/api/leaderboard/route.ts:42-43 | The members from m on reach the end of the reply; from past the end there are none. |
| LeaderboardAction.VerifyScore | actions/leaderboard.ts:59-92 | The check accepts iff all of these hold: gameTime > 0 and moves > 0; lines >= (level - 1) * 10; score <= 1000 * max(lines, 1) (the average per line over the reals); gameTime >= 2 * lines; moves >= 4 * lines. |
| LeaderboardAction.AverageAbove | actions/leaderboard.ts:72-75 | An average (total / divisor) above a limit is exactly a total above limit * divisor. |
| LeaderboardAction.VerifyScoreMonotone | actions/leaderboard.ts:59-92 | More game time, more moves or a lower score never turns an accepted submission down. |
| LeaderboardAction.SchemaMakesFirstGuardRedundant | actions/leaderboard.ts:9-20 | After the schema's positivity checks, the check reduces to the last four guards. |
| LeaderboardAction.ConsistentStatePassesLevelGuard | actions/leaderboard.ts:66-69 | A consistent game state's level and lines always pass the lines-per-level guard. |
| LeaderboardAction.ActionRanksIncrease | actions/leaderboard.ts:203-223 | Entries collected from member m on have ranks above m and within the number of members, strictly increasing. |
| LeaderboardAction.ActionEntryOrigin | actions/leaderboard.ts:203-223 | Each entry comes from the accepted member at index 2 * (rank - 1), with that member's fields. |
| LeaderboardAction.ActionEntryComplete | actions/leaderboard.ts:203-223 | Every accepted member at index 2n yields an entry of rank n + 1. |
| LeaderboardAction.ActionEntries | actions/leaderboard.ts:196-223 | The read-out of a reply; `LeaderboardAction.GetLeaderboard` and the rank lemmas state its properties. |
| LeaderboardAction.GetLeaderboard | actions/leaderboard.ts:196-223 | The i += 2 loop returns exactly the accepted members, ranked floor(i / 2) + 1. A missing or empty reply gives no entries. |
| LeaderboardAction.ActionRanksHaveGaps | actions/leaderboard.ts:203-223 | With a null first member, the only entry has rank 2: ranks may have gaps. |
| LeaderboardRoute.RouteFrom | app/api/leaderboard/route.ts:42-66 | The only failure is status 500. On success, entry k has rank base + k + 1 (dense) and carries all six required properties. |
| LeaderboardRoute.RouteGet | app/api/leaderboard/route.ts:22-76 | GET's read-out of a reply; `LeaderboardRoute.RouteFrom` and the route lemmas state its properties. |
| LeaderboardRoute.Get | app/api/leaderboard/route.ts:22-76 | GET's loop answers exactly the route read-out of the reply. A missing or empty reply gives an empty list. |
| LeaderboardRoute.RouteSucceedsIff | app/api/leaderboard/route.ts:42-58 | GET succeeds iff no member makes the `in` test throw, a thrower being a truthy non-number primitive. |
| LeaderboardRoute.RouteKeepsExactlyComplete | app/api/leaderboard/route.ts:42-62 | A successful GET keeps exactly the object members with all of id, name, score, level, lines and timestamp, in reply order. |
| LeaderboardRoute.RouteAgreesWithAction | app/api/leaderboard/route.ts:42-62 | When every member carries the six properties, GET and the server action return the same ranked entries. |
| LeaderboardRoute.RouteRanksAreDense | app/api/leaderboard/route.ts:59-62 | With a null first member, the only entry has rank 1: GET numbers densely. |
| LeaderboardRoute.Post | app/api/leaderboard/route.ts:78-110 | An unreadable or null body answers 500. A falsy or missing name, or a score that is not a number, answers 400. Otherwise the stored entry holds the id, name, score and timestamp given, plus level and lines exactly when the body had them. |
| LeaderboardRoute.PostThenGetKeepsIffComplete | app/api/leaderboard/route.ts:81-99 | A stored POST entry is shown by GET iff the body had both level and lines. |
| LeaderboardRoute.PostThenActionKeeps | app/api/leaderboard/route.ts:87-99 | The server action always shows an entry that POST stored. |

## Left out

- Redis I/O is not modelled: the `zrange`, `zadd` and `zremrangebyrank` calls and their failures (which reach the 500 path or the rethrow). The reply is an input, and trimming to 100 entries is not modelled.
- Other server-side steps are not modelled: `checkRateLimit`, `headers()`, the SHA-256 `generateScoreHash`, `crypto.randomUUID` (a parameter), and the `submitScore` orchestration.
- The zod schema is reduced to its numeric checks and the name length (`SchemaAccepts`). The name's `trim` is not modelled.
- LeaderboardAction.VerifyScore: JSON and JavaScript numbers are integers here, so fractional values, NaN and infinities are not modelled.
- LeaderboardRoute.RouteFrom: reply items are JSON values as the Redis client returns them. A stored string the client did not decode is a primitive, which makes the route's `in` test throw.
- GameEngine.TickResult: `timeLeft` is integer milliseconds rather than floating-point seconds. `timeLeft - deltaTime / 1000` becomes `timeLeft - deltaTime`.
- PowerUps.UpdatePowerUps: uses the corrected filter; the code as written is `PowerUps.UpdatePowerUpsAsWritten` (see Findings).
- PowerUps.RefreshStatuses: `remainingDuration` is kept in milliseconds rather than divided by 1000 into floating-point seconds.
- PowerUps.Survivors: the corrected filter. `PowerUps.SurvivorsAllExpired` and `PowerUps.TimedPowerUpLifetime` state the corrected and the as-written behaviour side by side.
- GameEngine.HardDropSearch: requires a current piece that occupies at least one cell. For an empty shape the source's loop never ends; every consistent state's piece has a cell (`GameEngine.ConsistentCanReduce`).
- PowerUps.HandleLineBlast: requires a non-empty rectangular board, the piece's row on it and its column not right of it. A row off the board makes the source throw, and a column right of it would lengthen every row; no consistent state has either (`GameEngine.ConsistentBlastAnchor`). A column left of the board is modelled.
- PowerUps.HandleShuffle: requires a non-empty rectangular board and a permutation of the column indices. The random comparator sort is modelled by that permutation, and its bias is not modelled.
- Collision: `lib/collision.ts` is not part of this model. Its five helpers are reference definitions of their documented behaviour.
- The initial record that `useGameState` builds (INITIAL_STATE with `config.timeLimit`) is not modelled, and neither are the hook's dispatch wrappers, the `setInterval`/`useEffect` driver and keyboard/touch input. Only the gravity interval formula is modelled.
- The UI components, canvas drawing, confetti animation (floating point) and sound (Web Audio) are not modelled.
- The `typeof` checks of `types/game.ts` (`isValidPosition`, `isValidGamePiece`) are discharged by Dafny's types.
- The combos, level multipliers, soft-drop points and power-up chance caps described in the help dialog (`components/help-dialog.tsx:176-193`, `:296-301`) are not modelled: the code does not implement them.

## Findings

| source | as written | input that shows it | evidently intended | confidence | as-written member | corrected member |
|---|---|---|---|---|---|---|
| lib/power-ups.ts:171-187 | The `filter` callback returns an object, which is truthy, for an expired ghost-block entry. The entry stays in `activePowerUps`, ghost mode stays on, and the clean-up object (ghost mode off, the piece's power-up removed) is discarded. | A ghost-block entry ending at 15000 ms, refreshed at 20000 ms. | Expired entries are dropped. An expired ghost block turns ghost mode off and takes the power-up off the current piece. | not executed | PowerUps.UpdatePowerUpsAsWritten, PowerUps.ExpiredGhostStaysAsWritten, PowerUps.ExpiredGhostStatusNegative | PowerUps.UpdatePowerUps, PowerUps.SurvivorsAllExpired |
| lib/power-ups.ts:96-101 | The column loop reads `newBoard[row][x]` in every row. With the piece left of the board that read is `undefined`, and `undefined !== null`, so every row adds a block to the count while no cell changes. | The upright I piece at x = -2 (reached by MOVE_LEFT from x = -1) on an empty 20-by-10 board: no block is removed, yet the score rises by 1000. | Only cells on the board count: the blast pays for the blocks it removes. | not executed | PowerUps.LineBlastOffBoardOverpays, GameEngine.UprightIPassesLeftEdge | PowerUps.LineBlastIntendedPaysPerBlock |
