# Tetris core in Dafny

A verified model of the core of a terminal Tetris game written in Rust. It covers:

- the seven tetrominoes and their rotation tables;
- the cells a piece occupies and the "is this cell mine" test;
- the playfield coordinates and their row-major index;
- the falling piece and the game state, with their in-place updates;
- the collision candidates a piece has when it moves left, right or down;
- the engine's action dispatch and its per-frame tick (clock, gravity cadence, line-check cadence);
- the projection of pieces onto the screen;
- the frame-buffer writers (decimal counters, erasing the piece cells, stamping a piece cell).

Modules, in dependency order:

| file | module | models |
|---|---|---|
| `ints.dfy` | `Ints` | usize, u32, u8 and i32, the `as` casts between them, and the division facts the proofs use |
| `options.dfy` | `Options` | `Option` |
| `grid.dfy` | `Grid` | `src/game/mod.rs` constants; `GridCoords` from `src/game/state.rs`; the `(x as i32 + d) as usize` step |
| `tetromino.dfy` | `Tetrominoes` | `src/game/tetromino.rs` |
| `state.dfy` | `GameState` | `src/game/state.rs` (`CurrentTetromino` and `State` as classes) |
| `tetromino_collision.dfy` | `TetrominoCollision` | `src/game/tetromino_collision.rs` |
| `core.dfy` | `Core` | `src/game/core/mod.rs` |
| `view.dfy` | `View` | screen constants of `src/game/view/mod.rs` |
| `tetromino_sprite.dfy` | `Sprites` | `src/game/view/tetromino_sprite.rs` |
| `vram.dfy` | `Vram` | `src/game/view/vram.rs` |

How the source's features are modelled:

- **Machine integers.** usize, u32 and u8 are subset types of `int`. `as i32` keeps the low 32 bits (`AsI32`), and `i32 as usize` sign-extends, i.e. reduces modulo 2^64 (`AsUsize`). A grid coordinate computed from a negative value therefore holds that value plus 2^64. The lemmas relate this to plain integer arithmetic (`Wrap`, `Moved`, `TranslateWrapped`).
- **Panics.** Arithmetic that overflows panics in a debug build, and so do the explicit `panic!`s and out-of-bounds indexing. Each becomes a precondition of the operation.
- **Pure methods.** Methods of `CurrentTetromino` in `tetromino.rs` only read the piece, so they are functions of its kind, position and rotation. Those in `tetromino_collision.rs` are methods that take the piece object.
- **Classes.** `CurrentTetromino` and `State` are classes whose mutating methods change their fields in place.
- **Routines without bodies.** Some state routines the engine calls are defined in the `core` submodule that `src/game/core/mod.rs:1` declares, which is not part of this model: moving, rotating, swapping, clock increment and line clearing. They record their call in the ghost field `State.Calls`. `IncrementClock` also advances `State.clock` by one.
- **Frame buffer.** The view's frame buffer is an `array<Byte>` that the writers update in place.

Three facts about the code that a reader might not expect:

- The initial state is a fixed placeholder: level 3, score 1500, 17 lines, and the queue J, O, empty.
- The downward direction is coded as (0, 1), not (1, 0). See Findings.
- The gravity divisor is `80 - 5 * level` and is not clamped.

## Model

| member | source | states |
|---|---|---|
| Ints.AsI32 | src/game/tetromino.rs:81-82 | `x as i32` is an i32, and it is `x` itself when `x` fits |
| Ints.AsUsize | src/game/tetromino.rs:84-87 | `i32 as usize` is the value itself when non-negative and the value plus 2^64 when negative |
| Ints.AsI32OfAsUsize | src/game/tetromino_collision.rs:21-24 | casting a widened i32 back with `as i32` gives the original i32, so moving a cell twice composes |
| Ints.WrappedIsLarge | src/game/tetromino_collision.rs:57-60 | a widened i32 below a bound is at least that bound exactly when it was negative: the unsigned bound test also rejects negative coordinates |
| Grid.GridCoords.Equals | src/game/state.rs:12-14 | holds exactly when the two coordinates are the same |
| Grid.GridCoords.ToGridIndex | src/game/state.rs:16-18 | for a playfield cell the index is below 200 and gives back row (index / 10) and column (index % 10) |
| Grid.CoordsOfIndexRoundTrip | src/game/state.rs:16-18 | decoding the index of a playfield cell gives the cell back |
| Grid.ToGridIndexInjective | src/game/state.rs:16-18 | distinct playfield cells have distinct indices |
| Grid.Translate | src/game/tetromino_collision.rs:21-24 | `(c as i32 + d) as usize` is plain addition per component, with a negative result wrapped modulo 2^64 |
| Grid.TranslateSmall | src/game/tetromino_collision.rs:57-60 | a cell near the playfield moved by a small offset does not overflow, and it lands on the playfield exactly when the signed sums are in range |
| Grid.TranslateBack | src/game/tetromino_collision.rs:21-24 | moving a cell near the playfield by a unit offset and back returns the same cell |
| Grid.TranslateWrapped | src/game/tetromino_collision.rs:21-43 | moving a cell whose coordinates were already wrapped adds the offset to the signed coordinates |
| Tetrominoes.FromIndex | src/game/tetromino.rs:63-74 | the kind's ordinal is `index % 7`; the panic arm is unreachable |
| Tetrominoes.FromIndexOfOrdinal | src/game/tetromino.rs:63-74 | every index congruent to a kind's ordinal modulo 7 gives that kind |
| Tetrominoes.GetShape | src/game/tetromino.rs:112-122 | each table entry is three pairwise-distinct offsets, none the centre, components in [-1, 2]; T, J and L need rotation < 4 |
| Tetrominoes.ShapeDependsOnRotationModulo | src/game/tetromino.rs:112-122 | the shape depends on the rotation only modulo 2 for I, S and Z, not at all for O, and directly for T, J and L |
| Tetrominoes.RotationsAreDistinct | src/game/tetromino.rs:10-47 | the entries of each kind's table are pairwise distinct shapes |
| Tetrominoes.GetDisplayShape | src/game/tetromino.rs:51-61 | the preview shape of each kind is its shape at a fixed rotation: I 0, O, T 2, J 3, L 1, S 0, Z 0 |
| Tetrominoes.CellsDefinedInGrid | src/game/tetromino.rs:81-97 | for a centre on the playfield the i32 cell arithmetic cannot overflow |
| Tetrominoes.GetCellsCoords | src/game/tetromino.rs:78-100 | the centre comes first, then the centre moved by each offset in order; on the playfield the four cells are pairwise distinct |
| Tetrominoes.TranslatedCellsDistinct | src/game/tetromino.rs:84-99 | a playfield centre moved by three distinct non-zero offsets gives four distinct cells |
| Tetrominoes.CellsDiffer | src/game/tetromino.rs:84-97 | two distinct small offsets move a playfield cell to two distinct cells |
| Tetrominoes.IsCellPartOfMe | src/game/tetromino.rs:103-110 | holds exactly when the cell is one of the four cells of the piece; the centre always is |
| GameState.NextRotation | src/game/state.rs:142-144 | the next rotation is in 0..3 and is the cyclic successor of a rotation in 0..3 |
| GameState.FourRotationsRestore | src/game/state.rs:142-144 | four quarter turns give the original rotation back |
| GameState.CurrentTetromino.constructor | src/game/state.rs:77-81 | the piece holds the given kind, position and rotation |
| GameState.CurrentTetromino.MoveLeft | src/game/state.rs:45-50 | panics at column 0; otherwise the column decreases by one and nothing else changes |
| GameState.CurrentTetromino.MoveRight | src/game/state.rs:55-60 | panics at the last column; otherwise the column increases by one and nothing else changes |
| GameState.MoveRightThenLeft | src/game/state.rs:45-60 | a move right followed by a move left restores the position |
| GameState.State.constructor | src/game/state.rs:74-89 | empty playfield, J at (1, 4) in rotation 0, no hold, queue J, O, none, score 1500, level 3, lines 17 |
| GameState.State.GetInNextTetrominoQueue | src/game/state.rs:115-117 | panics past the third entry; otherwise returns an entry of the queue |
| GameState.State.IncrementLevel | src/game/state.rs:133-135 | the level increases by exactly one (panicking on u32 overflow) and nothing else changes |
| GameState.State.DecrementLevel | src/game/state.rs:137-140 | the level decreases by one, saturating at 0, and nothing else changes |
| GameState.State.IncrementRotation | src/game/state.rs:142-144 | the rotation becomes its cyclic successor; kind and position are unchanged |
| GameState.State.SetStoredTetromino | src/game/state.rs:146-148 | reading the hold slot afterwards gives the stored value; nothing else changes |
| GameState.RotateFullTurn | src/game/state.rs:142-144 | four rotation increments leave the piece's rotation and position as they were |
| GameState.State.MoveCurrentTetrominoLeft | src/game/core/mod.rs:11 | records one call of the routine; the clock is unchanged and the playfield and queue keep their sizes |
| GameState.State.MoveCurrentTetrominoRight | src/game/core/mod.rs:12 | records one call of the routine; the clock is unchanged and the playfield and queue keep their sizes |
| GameState.State.MoveCurrentTetrominoDown | src/game/core/mod.rs:13 | records one call of the routine; the clock is unchanged and the playfield and queue keep their sizes |
| GameState.State.RotateCurrentTetromino | src/game/core/mod.rs:14 | records one call of the routine; the clock is unchanged and the playfield and queue keep their sizes |
| GameState.State.SwapCurrentStoredTetrominos | src/game/core/mod.rs:15 | records one call of the routine; the clock is unchanged and the playfield and queue keep their sizes |
| GameState.State.IncrementClock | src/game/core/mod.rs:21 | records one call and advances the clock by exactly one; the counters, the stored piece, the queue, the piece and the playfield are unchanged |
| GameState.State.ClearGridLinesFull | src/game/core/mod.rs:30 | records one call of the routine; the clock is unchanged and the playfield and queue keep their sizes |
| TetrominoCollision.CandidateEntry | src/game/tetromino_collision.rs:48-64 | a candidate that is a cell of the piece adds nothing; one off the playfield adds None; any other adds its index, which is below 200 |
| TetrominoCollision.EntriesAreForeign | src/game/tetromino_collision.rs:53-62 | every index in the list is a playfield cell that is not a cell of the piece |
| TetrominoCollision.CollisionsBounded | src/game/tetromino_collision.rs:17-46 | the list has at most four entries, and each index is a playfield cell that is not the piece's |
| TetrominoCollision.EntriesComeFromCandidates | src/game/tetromino_collision.rs:57-62 | every index in the list is the index of one of the candidates, and that candidate is on the playfield |
| TetrominoCollision.CellOfInGridPiece | src/game/tetromino.rs:78-100 | cell k of a piece centred on the playfield is the centre plus its offset in plain integers, wrapped when negative |
| TetrominoCollision.CellTranslated | src/game/tetromino_collision.rs:21-43 | moving a cell one step adds the direction to its plain coordinates, and it lands on the playfield exactly when those sums are in range |
| TetrominoCollision.CellTranslatedBack | src/game/tetromino_collision.rs:21-43 | moving a cell one step and back against the direction gives the cell again, without overflow |
| TetrominoCollision.CandidateOfInGridPiece | src/game/tetromino_collision.rs:21-43 | candidate k is cell k moved by the direction in plain integers; it is on the playfield exactly when those sums are in range |
| TetrominoCollision.CandidateAt | src/game/tetromino_collision.rs:21-43 | when the plain sums of candidate k are non-negative, candidate k is exactly the cell at those coordinates |
| TetrominoCollision.CandidateMovesBack | src/game/tetromino_collision.rs:21-43 | moving candidate k back against the direction gives cell k of the piece |
| TetrominoCollision.CandidatesDefinedInGrid | src/game/tetromino_collision.rs:21-43 | for a piece centred on the playfield no candidate computation overflows |
| TetrominoCollision.EntriesAreNeighbours | src/game/tetromino_collision.rs:17-64 | moving any listed index back against the direction lands on a cell of the piece |
| TetrominoCollision.AllEntriesAreNeighbours | src/game/tetromino_collision.rs:17-64 | every index in the list lies next to a cell of the piece in the given direction |
| TetrominoCollision.AddToCollisionsIfValid | src/game/tetromino_collision.rs:48-64 | the list grows by the candidate's entry: nothing for a cell of the piece, None off the playfield, the index otherwise |
| TetrominoCollision.CollisionsByCell | src/game/tetromino_collision.rs:17-46 | the collision list is the entries of the four moved cells, in the order the source visits them |
| TetrominoCollision.GetCollisionsCellIndexes | src/game/tetromino_collision.rs:17-46 | the result is the entries of the four candidates in the order centre, cell 0, cell 1, cell 2, with at most four entries |
| TetrominoCollision.GetLeftCollisionsCellIndexes | src/game/tetromino_collision.rs:5-7 | the collision list for direction (0, -1) |
| TetrominoCollision.GetRightCollisionsCellIndexes | src/game/tetromino_collision.rs:9-11 | the collision list for direction (0, 1) |
| TetrominoCollision.GetDownCollisionsCellIndexes | src/game/tetromino_collision.rs:13-15 | as written the downward list is the right-hand list |
| TetrominoCollision.GetDownCollisionsCellIndexesIntended | src/game/tetromino_collision.rs:13-15 | the list for direction (1, 0), and every index it holds lies directly below a cell of the piece |
| TetrominoCollision.SpawnedJCells | src/game/state.rs:77-81 | the spawned J in rotation 0 occupies (1, 4), (0, 4), (2, 3) and (2, 4) |
| TetrominoCollision.SpawnedJRightCandidates | src/game/tetromino_collision.rs:13-15 | the candidates of the spawned J for the direction coded as down are its cells moved one column right |
| TetrominoCollision.DownAsWrittenLooksRight | src/game/tetromino_collision.rs:13-15 | as written the downward list of the spawned J is [15, 5, 25], the cells on its right |
| TetrominoCollision.SpawnedJDownCandidates | src/game/tetromino_collision.rs:21-43 | the candidates of the spawned J for direction (1, 0) are its cells moved one row down |
| TetrominoCollision.SpawnedJDownEntries | src/game/tetromino_collision.rs:48-64 | of those candidates, the two inside the piece add nothing and the two below it add 33 and 34 |
| TetrominoCollision.DownIntendedLooksDown | src/game/tetromino_collision.rs:13-15 | with direction (1, 0) the downward list of the spawned J is [33, 34], the cells under its bottom row |
| Core.ActionCalls | src/game/core/mod.rs:9-18 | each of Left, Right, Down, Rotate and Store runs exactly one routine, Pause and Quit none, and no action runs the clock or the line check |
| Core.ActionCallsInjective | src/game/core/mod.rs:9-18 | distinct game moves run distinct routines |
| Core.PerformAction | src/game/core/mod.rs:9-18 | the routine of the action is called once and the clock is unchanged; Pause and Quit leave the state, the piece and the playfield unchanged |
| Core.FallingPeriod | src/game/core/mod.rs:23-24 | the gravity divisor is between 5 and 80 and a multiple of 5; the source panics from level 16 on |
| Core.FallingPeriodShrinks | src/game/core/mod.rs:23-24 | each level up shortens the falling period by 5 ticks |
| Core.TickCalls | src/game/core/mod.rs:20-32 | the clock increment comes first; gravity fires exactly when the clock is a multiple of the period; the line check fires exactly when it is a multiple of 10, and comes last; no routine runs twice in one tick |
| Core.IncrementClockAndTriggerEvents | src/game/core/mod.rs:20-32 | the clock advances by one, and the routines run are those of the tick for the new clock and the level; a tick that runs only the clock increment leaves the piece, the playfield, the counters, the stored piece and the queue unchanged |
| Core.TicksRunning | src/game/core/mod.rs:20-32 | counts the ticks among n that run the routine, so at most n |
| Core.TickLists | src/game/core/mod.rs:20-32 | the calls of n consecutive ticks, one list per tick, and no list repeats a routine |
| Core.ContainingCountsOccurrences | src/game/core/mod.rs:20-32 | when no tick repeats a routine, the number of ticks that run it is the number of its calls in their concatenation |
| Core.TicksRunningCountsCalls | src/game/core/mod.rs:20-32 | the ticks that run a routine number exactly its calls over the same ticks |
| Core.TicksRunningAreMultiples | src/game/core/mod.rs:23-31 | over a run of ticks, gravity and the line check run exactly on the multiples of their periods |
| Core.GravityCadence | src/game/core/mod.rs:23-27 | any k falling periods of consecutive ticks hold exactly k gravity steps |
| Core.LineCheckCadence | src/game/core/mod.rs:29-31 | any 10 k consecutive ticks hold exactly k line checks |
| Core.ClockRunsEveryTick | src/game/core/mod.rs:21 | every tick increments the clock exactly once |
| Core.GravityCalls | src/game/core/mod.rs:23-27 | the calls recorded over any k falling periods of consecutive ticks hold exactly k gravity steps |
| Core.LineCheckCalls | src/game/core/mod.rs:29-31 | the calls recorded over any 10 k consecutive ticks hold exactly k line checks |
| Sprites.ToScreenIndex | src/game/view/tetromino_sprite.rs:78-82 | the screen index of a cell lies at or after the start of its row on screen |
| Sprites.ToScreenIndexRoundTrip | src/game/view/tetromino_sprite.rs:78-82 | when a playfield row fits on a screen line, the screen index gives the row and the column back |
| Sprites.ToScreenIndexInjective | src/game/view/tetromino_sprite.rs:78-82 | under the same condition, distinct playfield cells have distinct screen indices |
| Sprites.ScreenCell | src/game/view/tetromino_sprite.rs:61-72 | a cell's screen index is the centre plus offset-row times 69 plus offset-column times the cell width, or None when negative |
| Sprites.GetScreenCellsFromShape | src/game/view/tetromino_sprite.rs:56-74 | the centre comes first; each other cell is its offset projected, or None when the projection is negative |
| Sprites.DisplaySprite | src/game/view/tetromino_sprite.rs:15-25 | the sprite of the kind's display shape, centred on the given screen index |
| Sprites.OfCurrentTetromino | src/game/view/tetromino_sprite.rs:27-38 | the sprite of the piece's shape, centred on the screen index of its position |
| Sprites.SpriteDefinedInGrid | src/game/view/tetromino_sprite.rs:27-38 | a piece centred on the playfield can be projected without overflow when the screen fits in i32 |
| Sprites.ScreenCellCommutes | src/game/view/tetromino_sprite.rs:61-72 | projecting an offset from a playfield cell gives the screen index of the cell it reaches |
| Sprites.SpriteCellsAreScreenIndexes | src/game/view/tetromino_sprite.rs:27-38 | each cell of the piece that is on the playfield is shown at its own screen index |
| Sprites.DisplaySpriteIsDisplayRotation | src/game/view/tetromino_sprite.rs:15-38 | the preview sprite of a kind is the sprite of a piece of that kind in its display rotation |
| Vram.DigitToUtf8 | src/game/view/vram.rs:42-45 | the byte decodes back to the digit, and for a digit up to 9 it is an ASCII digit |
| Vram.DecimalDigits | src/game/view/vram.rs:47-59 | the five digits written are ASCII digits |
| Vram.DecimalRoundTrip | src/game/view/vram.rs:47-59 | reading the digits back gives n modulo 10^width |
| Vram.FiveDigits | src/game/view/vram.rs:48-52 | each digit taken from the quotient by its power of ten is the matching digit of n |
| Vram.LoadUint | src/game/view/vram.rs:47-59 | the five bytes ending at `position` spell n modulo 100000, most significant first; every other byte is unchanged |
| Vram.ClearedGrid | src/game/view/vram.rs:34-40 | every 'H' in [origin, end) becomes a space; bytes outside that range and bytes other than 'H' are kept |
| Vram.ClearedGridIdempotent | src/game/view/vram.rs:34-40 | clearing twice is clearing once |
| Vram.ClearGrid | src/game/view/vram.rs:34-40 | the buffer becomes its cleared version |
| Vram.StampedCell | src/game/view/vram.rs:74-83 | unchanged when the position is before the origin or after the end; otherwise 'H' at p and p + 1 and nothing else changes |
| Vram.LoadHoldedTetrominoCell | src/game/view/vram.rs:74-83 | the buffer becomes its stamped version |
| Vram.StampAtGridEndSurvivesClear | src/game/view/vram.rs:76-77 | a cell accepted at the end position is never erased by the next clearing |
| Vram.StampedCellIntended | src/game/view/vram.rs:74-83 | only a cell whose two bytes lie in the erased range is stamped |
| Vram.LoadHoldedTetrominoCellIntended | src/game/view/vram.rs:74-83 | the buffer becomes its stamped version under the intended guard |
| Vram.ClearErasesIntendedStamp | src/game/view/vram.rs:34-40 | with the intended guard, clearing erases whatever one stamp drew |

## Left out

- `start_game` in `src/game/mod.rs` is not modelled. Its frame loop mixes terminal I/O and sleeping with the pause flag, and that flag's routines are defined outside the files this model covers.
- Terminal set-up, drawing and tear-down in `src/game/view/mod.rs`, and key reading in `src/game/view/input.rs`, are I/O and are not modelled. `src/main.rs` is not part of this model.
- `vram::initialize` is not modelled: it reads a file and copies it with an unsafe pointer copy.
- `load_state_data` and `load_holded_tetromino` are not modelled. They call a sprite constructor and read a field that `tetromino_sprite.rs` does not define. Only the per-cell writer they rely on is modelled.
- `get_current_tetromino_ref` and `get_current_tetromino_mutref` return references. The model reaches the piece through the `currentTetromino` field instead.
- The State getters, apart from GetInNextTetrominoQueue, are plain field reads with no contract of their own. They have no row above.
- GameState.State.MoveCurrentTetrominoLeft: its body is in the `core` submodule that `src/game/core/mod.rs:1` declares, which is not part of this model. It records its call and may change the piece, the playfield, the queue and the counters in any way; which changes it makes is not modelled. The assumptions made are that it does not advance the clock and that the playfield and the queue keep their sizes.
- GameState.State.MoveCurrentTetrominoRight: its body is in the `core` submodule that `src/game/core/mod.rs:1` declares, which is not part of this model. It records its call and may change the piece, the playfield, the queue and the counters in any way; which changes it makes is not modelled. The assumptions made are that it does not advance the clock and that the playfield and the queue keep their sizes.
- GameState.State.MoveCurrentTetrominoDown: its body is in the `core` submodule that `src/game/core/mod.rs:1` declares, which is not part of this model. It records its call and may change the piece, the playfield, the queue and the counters in any way; which changes it makes is not modelled. The assumptions made are that it does not advance the clock and that the playfield and the queue keep their sizes.
- GameState.State.RotateCurrentTetromino: its body is in the `core` submodule that `src/game/core/mod.rs:1` declares, which is not part of this model. It records its call and may change the piece, the playfield, the queue and the counters in any way; which changes it makes is not modelled. The assumptions made are that it does not advance the clock and that the playfield and the queue keep their sizes.
- GameState.State.SwapCurrentStoredTetrominos: its body is in the `core` submodule that `src/game/core/mod.rs:1` declares, which is not part of this model. It records its call and may change the piece, the playfield, the queue and the counters in any way; which changes it makes is not modelled. The assumptions made are that it does not advance the clock and that the playfield and the queue keep their sizes.
- GameState.State.ClearGridLinesFull: its body is in the `core` submodule that `src/game/core/mod.rs:1` declares, which is not part of this model. It records its call and may change the piece, the playfield, the queue and the counters in any way; which changes it makes is not modelled. The assumptions made are that it does not advance the clock and that the playfield and the queue keep their sizes.
- GameState.State.IncrementClock: the clock's routines are in the `core` submodule that `src/game/core/mod.rs:1` declares, which is not part of this model. The clock is an unbounded counter that this routine advances by one, and its 128-bit overflow is not modelled. The contract assumes that it changes nothing but the clock; the gravity test at `src/game/core/mod.rs:23-24` reads the level after the increment, so the model depends on that.
- The contents of `cell.rs`, `game_action.rs` and `cursor_positions.rs`, and the cell width, are not part of this model:
  - `Cell` is `Empty | Filled`.
  - `GameAction` lists the seven actions the input layer produces.
  - `GRID_ORIGIN`, `GRID_END` and `CELL_WIDTH` are parameters.
- `GRID_ORIGIN_I32` is declared but never used, so it is not modelled. The commented-out `get_grid_cells_from_shape` is not modelled either.
- Wrap-around in release builds is not modelled. Overflow is a precondition, as it panics in a debug build.
- Core.FallingPeriod: requires a level below 16. From level 17 on, the release build's unsigned subtraction wraps and the divisor becomes huge. Level 16 divides by zero in both builds.
- Sprites.ToScreenIndex: the round trip from a screen index back to a cell is proved only when a playfield row fits on one screen line (`10 * CELL_WIDTH <= 69`), because the cell width is not known.

## Findings

| source | as written | input that shows it | evidently intended | confidence | as-written member | corrected member |
|---|---|---|---|---|---|---|
| src/game/tetromino_collision.rs:13-15 | the downward candidates use direction (0, 1), the same as the right-hand ones | the spawned J at (1, 4) in rotation 0 gets downward list [Some(15), Some(5), Some(25)], the cells to its right | direction (1, 0); for the spawned J the list is then [Some(33), Some(34)], and every listed index lies below a cell of the piece | high, not executed | TetrominoCollision.DownAsWrittenLooksRight | TetrominoCollision.GetDownCollisionsCellIndexesIntended |
| src/game/view/vram.rs:76-77 | the cell stamp accepts positions up to and including `GRID_END`, but `clear_grid` erases only `[GRID_ORIGIN, GRID_END)` | a cell stamped at `GRID_END` writes 'H' at `GRID_END` and `GRID_END + 1`, and both survive the next clearing | accept only cells whose two bytes lie in the erased range, so that each frame's clearing removes the previous frame's stamps (proved as `Vram.ClearErasesIntendedStamp`) | medium, not executed | Vram.StampAtGridEndSurvivesClear | Vram.LoadHoldedTetrominoCellIntended |
