# ntetris game engine in Dafny

This project models the game-state engine of ntetris, a terminal Tetris written in C++ (`main.cpp`, class `Game`), and proves properties of that engine. The model covers:

- the seven-piece catalogue;
- the in-place rotation of the active piece;
- the three collision tests;
- locking a piece into the 20×10 playfield;
- clearing full rows;
- the gravity clock;
- the game-over menu's two branches;
- one pass of the main loop, and the loop as a whole.

Modules:

- **Catalogue** (`catalogue.dfy`): the 4×4 patterns of the kinds I, J, L, O, S, T and Z. A cell code is `kind + 1`, and 0 is an empty cell. The source stores each code as the character `'0' + code`.
- **Rotation** (`rotation.dfy`):
  - quarter turns, transposition and row reversal of a pattern, as values;
  - their algebra: which one undoes which, and that four turns restore the pattern;
  - that a turn keeps codes and cell counts.
- **Collision** (`collision.dfy`): `collideGrid`, `collideShape` and `collideAll` as read-only scans. Lemmas state exactly which cells make each one fire, including `collideShape`'s exemption of row 0.
- **Playfield** (`playfield.dfy`): the grid as a value. It contains:
  - the scan of `placeShape`, as `Place` with the outcomes `Locked`/`Overflow`;
  - the full-row search and the erase and insert steps of `clearLines`, as `FullRows`, `NonFull` and `Cleared`;
  - the proofs that these functions mean what the game relies on.
- **Tetris** (`tetris.dfy`), with two classes:
  - `Player` holds the piece's `x`, `y` and `shape`. `Rotate` runs the source's swap-and-reverse loops on the pattern in place and is proved to compute `RotateCW`/`RotateCCW`.
  - `Game` holds the grid, the shape counters `aggr`, `nextShape`, `dropSpeed`, the drop clock, `runTime` and `lineCount`. Each method mirrors one member of the source, or one part of `loop`, and states its whole new state.

`Tick` is one pass of `loop`. The key, the elapsed milliseconds, the random kinds and the menu choice are its inputs. A pass is specified on values:

- `Snapshot` holds the game's fields and the piece's pose, and `Game.Snap()` reads it off the objects.
- Spec functions follow the parts of a pass:
  - `Elapsed`: the time bookkeeping;
  - `KeySpec`: the key switch, through `Key`;
  - `MoveSpec`: `moveShape`;
  - `LandSpec`: the collision test and `placeShape`, through `Settle` and `Lock`;
  - `ClearSpec`: `lineCount += clearLines()`;
  - `SlamSpec`: the up arrow;
  - `FallSpec`, `PassSpec`, `StepSpec` and `TickSpec`: combinations of the parts above.
- Each method of a pass ends in the state its spec function gives for the old state.
- The lemmas about `Key`, `DropRow`, `Lock` and `Settle`, together with `TickSpecFacts`, state what these functions promise.

## Model

| member | source | states |
|---|---|---|
| Catalogue.Shape | main.cpp:33-41 | every catalogue entry is a 4×4 pattern with codes in 0..7 and at least one non-empty cell |
| Catalogue.ShapeCells | main.cpp:33-41 | pattern k has exactly four cells of code k+1 and twelve empty ones; its first and last rows are empty and cell [1][1] is filled |
| Rotation.CWIsTransposeThenReverse | main.cpp:377-383 | the clockwise quarter turn equals "transpose, then reverse every row" |
| Rotation.CCWIsReverseThenTranspose | main.cpp:384-391 | the counter-clockwise quarter turn equals "reverse every row, then transpose" |
| Rotation.CCWUndoesCW | main.cpp:328-332 | a counter-clockwise turn restores the pattern a clockwise turn changed, which is what the space key's undo relies on |
| Rotation.CWUndoesCCW | main.cpp:323-327 | a clockwise turn restores the pattern a counter-clockwise turn changed, which is what the 'r' key's undo relies on |
| Rotation.TwoTurnsAreHalfTurn | main.cpp:375-394 | two turns in the same direction give the half turn |
| Rotation.FourTurnsRestore | main.cpp:375-394 | four turns in either direction give back the original pattern |
| Rotation.TurnsKeepCodes | main.cpp:375-394 | a turn keeps all codes in 0..7 and keeps a non-empty cell |
| Rotation.TurnsKeepCounts | main.cpp:375-394 | a turn changes no code's number of occurrences |
| Tetris.Player.constructor | main.cpp:372-374 | the piece before the first spawn has an empty shape; the source leaves x and y unset, the model picks (0, 0), and nothing reads them before the first spawn |
| Tetris.Player.Load | main.cpp:122-124 | after clearing and pushing back each catalogue row, the shape equals the catalogue pattern |
| Tetris.Player.Swap | main.cpp:21 | the two distinct cells exchange their values, and every other cell keeps its value |
| Tetris.Player.ReverseRow | main.cpp:381 | one row is reversed in place, and the other rows are unchanged |
| Tetris.Player.Rotate | main.cpp:375-394 | the in-place loops leave exactly RotateCW (clockwise) or RotateCCW (counter-clockwise) of the old pattern |
| Collision.OffFieldInRow | main.cpp:158-162 | the inner scan of one pattern row finds a hit iff some non-empty cell from the given column on lies below row 19 or outside columns 0..9 |
| Collision.OffFieldFrom | main.cpp:157-163 | the nested scan finds a hit iff some non-empty cell from the given row on lies below row 19 or outside columns 0..9 |
| Collision.CollideGrid | main.cpp:156-165 | false exactly when every non-empty cell lies in columns 0..9 and rows ≤ 19 |
| Collision.CollideGridCells | main.cpp:156-165 | true iff some non-empty cell lands with row > 19, column < 0 or column > 9 |
| Collision.HitsLockedInRowCells | main.cpp:148-152 | the inner scan of one pattern row finds a hit iff some non-empty cell from the given column on is below the floor or on a locked cell in a row > 0 |
| Collision.HitsLockedFromCells | main.cpp:147-153 | the nested scan finds a hit iff some non-empty cell from the given row on is below the floor or on a locked cell in a row > 0 |
| Collision.CollideShape | main.cpp:146-155 | a piece it lets pass lies above the floor |
| Collision.CollideShapeCells | main.cpp:146-155 | true iff some non-empty cell lands in a row > 19, or in a row > 0 on a non-empty grid cell |
| Collision.CollideAll | main.cpp:166-168 | equals collideShape or collideGrid wherever that is defined; when false the piece fits the walls and the floor and overlaps nothing |
| Collision.RowZeroExempt | main.cpp:151 | replacing grid row 0 never changes collideShape's verdict |
| Collision.HighPieceNeverCollides | main.cpp:146-155 | a piece whose cells all lie in rows ≤ 0 never collides with locked cells |
| Playfield.EmptyGrid | main.cpp:92-96 | initGrid's grid has 20 rows of 10 cells, and every cell is empty |
| Playfield.ZerosGrow | main.cpp:253-254 | inserting an empty row on top of k empty rows gives k+1 empty rows |
| Playfield.PlaceFromPartial | main.cpp:202-211 | resuming the scan on the partly written grid ends in game over with the original grid when a non-empty cell lies above the field, and otherwise with every non-empty cell written |
| Playfield.PlaceSpec | main.cpp:201-212 | placeShape ends in game over iff some non-empty cell is above row 0, and then the grid is untouched; otherwise exactly the covered cells take the piece's codes and all others keep theirs |
| Playfield.PlaceKeepsCodes | main.cpp:201-212 | locking keeps all grid codes in 0..7 |
| Playfield.FullRowsUpTo | main.cpp:216-220 | `cleared` after n steps holds each full row index below n, exactly once, in ascending order |
| Playfield.FullRows | main.cpp:216-220 | `cleared` holds all full row indices, in ascending order |
| Playfield.RowsSplit | main.cpp:214-256 | the full rows and the non-full rows together count all rows; every kept row is a non-full row of the grid |
| Playfield.EraseFull | main.cpp:240-251 | erasing one full row leaves the sequence of non-full rows unchanged |
| Playfield.NoFullIsFixed | main.cpp:240-251 | a grid without full rows is left as it is |
| Playfield.NonFullIsOrderedSelection | main.cpp:240-251 | the kept rows are the grid's non-full rows, each taken once, in their original order |
| Playfield.ClearedSpec | main.cpp:214-256 | after clearLines the grid is 20×10 with no full row; the first k rows are empty (k = number of full rows) and the rest are the non-full rows in order |
| Playfield.ClearedEmpty | main.cpp:214-256 | an empty grid has no full rows and clearLines leaves it unchanged |
| Playfield.ClearedKeepsCodes | main.cpp:214-256 | clearLines keeps the grid 20×10 with codes in 0..7 |
| Tetris.Gravity | main.cpp:126-132 | the piece falls exactly one row when the drop clock strictly exceeds 600 − 2·lineCount, and otherwise stays |
| Tetris.SpawnIsFree | main.cpp:114-118 | a piece spawned at (4, −3) fits the walls and floor and collides with nothing whatever the grid holds; locking it at once would be game over |
| Tetris.Key | main.cpp:295-336 | every key but the up arrow keeps the grid, a piece inside the walls and above the floor, and seven counters; it asks to end the loop iff the key is 'q' |
| Tetris.DropRow | main.cpp:307-313 | the up arrow's drop loop stops at or below the start row, still above the floor, with collideShape firing one row further down |
| Tetris.DropRowPassesFreeRows | main.cpp:307-313 | every row below the start that the drop loop moves through, up to its stopping row, is free for collideShape |
| Tetris.Lock | main.cpp:169-212 | locking leaves a 20×10 grid, a piece inside the walls and above the floor, and seven counters; it ends the game only on the menu's quit |
| Tetris.LockOutcome | main.cpp:169-212 | the game ends iff a cell is above row 0 and the choice is quit. Then the grid stays on quit and is emptied on retry. Otherwise exactly the piece's cells are written, the next kind spawns and is counted, and the roll becomes the next kind |
| Tetris.Settle | main.cpp:343-346 | the collision test after moveShape leaves a 20×10 grid, a piece inside the walls and above the floor, and seven counters; it ends the game only on the menu's quit |
| Tetris.SettleLeavesPieceFree | main.cpp:343-346 | unless the game ends, the piece left after the collision test collides with nothing: the falling piece at a free row, or a fresh spawn |
| Tetris.MoveLands | main.cpp:126-132 | gravity takes a piece that fits at most one row down, so one row higher up it still lies above the floor |
| Tetris.TickSpecFacts | main.cpp:284-349 | run time grows by the elapsed time; 'q' ends the loop, which otherwise ends only by the menu's quit; a hard drop keeps lineCount and dropSpeed; any other pass sets dropSpeed from the old lineCount, never lowers lineCount, and leaves a 20×10 grid without full rows and a piece inside the walls |
| Tetris.Game.constructor | main.cpp:50-85 | an empty grid, zero clocks and line count; the first kind is spawned and counted once; the second is the next kind; the call of `loop()` at main.cpp:83 is not part of the constructor and is modelled by `Run`, which the caller invokes next |
| Tetris.Game.InitGrid | main.cpp:92-96 | the grid becomes 20 empty rows |
| Tetris.Game.InitShape | main.cpp:119-125 | the kind's counter grows by one; the piece is at (x, y) with the catalogue pattern |
| Tetris.Game.GetNextShape | main.cpp:114-118 | the pre-rolled kind is spawned at (4, −3) and counted; the roll becomes the next kind; a sound grid keeps the game valid |
| Tetris.Game.MoveShape | main.cpp:126-132 | dropSpeed becomes 600 − 2·lineCount; the piece's row follows Gravity; the clock restarts exactly when it fell; nothing else changes (MoveSpec) |
| Tetris.Game.OnGameOver | main.cpp:169-199 | quit ends the game and changes nothing; retry clears the counters and the grid and spawns the next piece without ending the game |
| Tetris.Game.PlaceShape | main.cpp:201-212 | the new grid, piece, counters and next kind and the verdict are Lock's for the old state: the piece is locked as Place says and the next one spawns, or, when a cell is above the field, the menu's choice decides as in OnGameOver |
| Tetris.Game.WritePiece | main.cpp:202-209 | the in-place loops leave the grid of Place, and report game over exactly when Place does |
| Tetris.Game.FindFullRows | main.cpp:216-220 | the collected indices are FullRows of the grid |
| Tetris.Game.EraseFullRows | main.cpp:240-251 | repeated erasing of the first full row leaves exactly the non-full rows, in order |
| Tetris.Game.InsertEmptyRows | main.cpp:253-254 | k empty rows go in above the old rows |
| Tetris.Game.ClearLines | main.cpp:214-256 | the grid becomes Cleared(old grid), and the count returned is the number of full rows |
| Tetris.Game.Shift | main.cpp:296-305 | for the left, right and down arrows (the down arrow at main.cpp:318-322), the piece moves by one column or row when the moved piece is free, and otherwise stays where it was |
| Tetris.Game.Turn | main.cpp:323-332 | the piece turns when the turned piece is free, and otherwise keeps its old pattern |
| Tetris.Game.Steer | main.cpp:295-332 | for the left, right and down arrows and the 'r' and space keys, the piece takes the candidate pose when it is free, and otherwise keeps its pose |
| Tetris.Game.HardDrop | main.cpp:306-313 | the piece ends exactly at DropRow of its start row: every row it passed is free, and it would collide one row further down |
| Tetris.Game.React | main.cpp:295-336 | the piece, the counters and the next kind become Key's and nothing else changes (KeySpec); quit is flagged iff the key is 'q' |
| Tetris.Game.Fall | main.cpp:341-346 | the whole new state and the verdict are FallSpec's: moveShape's speed, clock and row, then the collision test |
| Tetris.Game.Land | main.cpp:343-346 | the whole new state and the verdict are LandSpec's: a free piece stays, a touching one goes one row back up and is locked as Lock says |
| Tetris.Game.ClearAndCount | main.cpp:348 | the grid becomes Cleared and lineCount grows by the number of full rows; nothing else changes (ClearSpec) |
| Tetris.Game.Slam | main.cpp:306-315 | the whole new state and the verdict are SlamSpec's: the piece is locked as Lock says at DropRow of its row; the clocks and lineCount stay |
| Tetris.Game.Pass | main.cpp:295-348 | the whole new state and the verdict are PassSpec's: the key, then gravity and locking, then the line clear; the loop ends on 'q' or on the menu's quit |
| Tetris.Game.AddElapsed | main.cpp:290-291 | the elapsed time is added to the drop clock and to the run time; nothing else changes |
| Tetris.Game.Step | main.cpp:295-348 | the up arrow runs Slam's pass, and every other key runs Pass's (StepSpec) |
| Tetris.Game.Tick | main.cpp:284-349 | the whole new state and the verdict are TickSpec's; 'q' ends the game, which otherwise ends only by the menu's quit |
| Tetris.Game.Run | main.cpp:278-359 | the whole run is a Trace of the inputs consumed: the ghost `states` start at the old state, each is TickSpec of the one before and the last is the new state; the loop ends early only on a tick whose key was 'q' or whose menu choice was quit; no tick runs after the first 'q' |
| Tetris.Game.Advance | main.cpp:284-349 | one pass of the loop extends the trace of the passes before it by exactly the new state and its verdict |
| Tetris.TraceEnds | main.cpp:284-359 | only the last tick of a trace can end the loop, and only by 'q' or the menu's quit; no earlier tick had 'q', and no tick at all when the loop did not end |
| Tetris.TraceAt | main.cpp:284-349 | tick i of a trace starts from a playable state, yields the next state, and ends the loop exactly when it is the last tick and the run ended |
| Tetris.TraceSteps | main.cpp:284-349 | every tick of a trace, read at once: each state is playable, its tick gives the next, and only the last tick can end the loop |

## Left out

- Drawing, colours, the stats panel and the ncurses setup: `drawGrid`, `drawShape`, `showStats`, `Background` and the constructor's terminal setup are output only and change no game state.
- The clearLines blink animation (main.cpp:224-238): it draws and sleeps, and changes no state.
- Time: the clock readings and `sleep_for` are left out. The elapsed milliseconds of each pass are an input of `Tick`, taken to be non-negative (a `nat`). `high_resolution_clock` need not be steady, so after a wall-clock change the source's `delta` can be negative; the model does not cover that case.
- Randomness: the kinds drawn by `distribution(generator)` are inputs: `first` and `second` for the constructor, `forceRoll` and `lockRoll` for a tick.
- Keys: `getch()` is decoded into `Intent`. The game-over menu's key loop, which ignores every key but r/R and q/Q, is reduced to its outcome, `MenuChoice`.
- Integer widths: the model uses unbounded integers. The `unsigned int` counters in `aggr` and `lineCount` and the `unsigned short` in `clearLines` do not wrap.
- Tetris.Game.OnGameOver: `fill_n(aggr.begin(), 8, 0)` writes eight entries into a seven-entry vector. The model resets only the seven counters and does not model the write past the end.
- Tetris.Player.Swap: the XOR swap is modelled as an ordinary exchange. The source calls it only on distinct cells (`row != col`), where the two coincide.
- Collision.CollideShape: requires the piece's columns to fit the field, because the source indexes `grid[r][c]` without a column check. `CollideAll` runs the bounds test first to stay in that domain; every call of collideShape alone happens on a piece that already fits.
- Collision.CollideAll: the source's `collideAll` ignores its argument and always tests `player.shape`. Every call site passes `player.shape`, so the model takes the pattern as a parameter.
- The gravity interval `600 - 2 * lineCount` has no lower bound. The model follows the code, so after 300 lines the piece falls on every pass.
- The drop clock is a local variable of `loop` (main.cpp:282). The model keeps it as a field of `Game`, beside `dropSpeed`, so that the state of a pass is one value. Its arithmetic is unchanged.
- A retry keeps lineCount, runTime and the drop clock, as the code does.
- A quit key still runs gravity, locking and the line clear in the same pass, as the code does.
- A hard drop's `continue` skips gravity and `clearLines` for that pass, so the full rows it makes stay until the next pass whose key is not the up arrow; that pass's clearLines removes and counts them. Tick says nothing about full rows after a hard drop.
- The piece's pattern is a sequence of rows of integer codes rather than a `vector<string>` of digits. `Load` builds it row by row as `push_back` does.
