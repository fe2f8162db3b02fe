# anatris core in Dafny

A model of the engine of anatris, a terminal falling-block game, with the
properties of the engine proved about it. It has three parts.

- **The piece catalogue and the active piece** are in `tetronimo.dfy`, module `Pieces`.
  - It has the seven kinds and the four rotations, which cycle clockwise.
  - The constant table maps each (kind, rotation) pair to a row-major cell mask and a bounding width.
  - It has the sampler that maps a random value to a kind.
  - The active piece is a class with a constant kind and a rotation that turns in place.
- **The arena as a value** is in `arena.dfy`, module `Arena`. It is a flat, row-major sequence of `width * height` cells, each empty or holding a kind. It defines the specification functions that the game loop's arena methods are proved against:
  - clearing a row;
  - one gravity pass (`PassTo`/`Pass`);
  - repeated passes until nothing moves (`Settle`);
  - the top-to-bottom row scan (`ScanRows`).
- **The game loop** is in `game_loop.dfy`, module `Game`. It is a class whose fields are updated in place:
  - the arena;
  - the next piece;
  - the active piece, its position and its old position;
  - the state;
  - the score, the line count and the per-kind statistics.

  `HandleInput` and `FallTick` only move the machine out of its idle states. Each `DoStateMachine` call makes one transition by calling one `Handle*` step. Every step is proved against a specification:
  - `NextState` is the transition table;
  - `Step` is one whole `DoStateMachine` call on a snapshot, notifications included;
  - `Placed` describes locking a piece into the arena;
  - `ClearRow` and `Settle` describe clearing a row and letting blocks fall;
  - `ScanRows` describes the row scan;
  - `Incremented` describes the statistics update.

  The loop's `View()` is a snapshot value of all the fields. It lets each step state its whole new state, so it also says that nothing else changes. The snapshot holds the piece's kind and rotation, not the piece object, so every step that does not spawn also promises to keep the same piece object (`piece == old(piece)`).

The random source comes in as a parameter. Every step that spawns a piece takes `pieceRoll` and `nextRoll`, values below `RollCount`. The loop reports through callbacks; here that is the returned list of `Notification` values, in the order the callbacks are called.

Wherever the Rust code would index the arena out of range and panic, the model has a precondition instead:
- `StepSafe` states this for each step.
- `InsideInBounds`, `FallStaysInside`, `MoveLeftStaysInside`, `MoveRightStaysInside` and `SpawnInBounds` show that these preconditions hold while the piece stays inside the arena.
- `RotateCanLeaveArena` shows that an unchecked rotation can break them.

The two source files disagree on the piece interface. The model uses the one the game loop calls:
- the lookup returns (mask, width), without the colour;
- a piece is built from a given kind and points North;
- a random piece is drawn by the sampler; the loop draws with the seven-value `Draw` (see Findings and Left out).

The model follows the code in these places:
- `GameOver` is absorbing. Its step only prints.
- No operation enters `Paused`.
- `Start` does not reset the shape statistics. It adds one to the spawned kind's counter.
- `Drop` changes nothing.
- When a step clears rows, it stays in `CheckRows`, so the next step scans again.

## Model

| member | source | states |
|---|---|---|
| Pieces.Clockwise | src/core/tetronimo.rs:50-58 | the turn advances North, East, South, West cyclically (index + 1 mod 4) and never returns the rotation it was given |
| Pieces.ClockwiseCycle | src/core/tetronimo.rs:50-58 | four quarter turns return every rotation to itself; two or three turns do not |
| Pieces.Cells | src/core/tetronimo.rs:109-154 | the lookup is total over the 28 (kind, rotation) pairs; every mask is non-empty, its length is a multiple of its positive width, and it has exactly four present cells |
| Pieces.CellsWidths | src/core/tetronimo.rs:111-152 | O is 2 wide in every rotation; I is 1 wide for North/South and 4 wide for East/West; J, L, S, T and Z are 3 wide for North/South and 2 wide for East/West |
| Pieces.CellsSymmetry | src/core/tetronimo.rs:111-152 | I, S and Z give the same mask for South as for North and for West as for East; O gives O_UP in every rotation |
| Pieces.CellsEdgeColumns | src/core/tetronimo.rs:67-99 | every mask has a present cell in its leftmost and in its rightmost column |
| Pieces.Sample | src/core/tetronimo.rs:28-40 | values 0 to 5 give I, J, L, O, S, T in declaration order; every other value gives Z |
| Pieces.DrawAsWritten | src/core/tetronimo.rs:28-40 | a kind drawn from the range 0..=5 the source uses is never Z |
| Pieces.DrawAsWrittenMissesZ | src/core/tetronimo.rs:30-37 | no value of the range as written reaches Z, so the `_` arm is dead |
| Pieces.Draw | src/core/tetronimo.rs:28-40 | over the seven values 0..7, value r draws the kind with index r |
| Pieces.DrawIsUniform | src/core/tetronimo.rs:28-40 | the seven values and the seven kinds are in one-to-one correspondence, so each kind has one chance in seven |
| Pieces.Tetronimo.constructor | src/core/tetronimo.rs:101-107 | a new piece has the given kind and points North |
| Pieces.Tetronimo.Rotate | src/core/tetronimo.rs:156-158 | the rotation turns one quarter clockwise; the kind is a constant field and cannot change |
| Arena.EmptyArena | src/core/game_loop.rs:339-341 | a new arena has n cells, all empty |
| Arena.PassTo | src/core/game_loop.rs:387-399 | a gravity pass keeps the arena's length |
| Arena.DropCellEffect | src/core/game_loop.rs:388-398 | a block moves only into the empty cell directly below it, with the same multiset of cells, lowering the termination measure by width; a cell that cannot drop changes nothing |
| Arena.PassToProgress | src/core/game_loop.rs:385-400 | a pass either leaves the arena unchanged or strictly lowers the measure |
| Arena.PassToBlocks | src/core/game_loop.rs:387-399 | a pass keeps the multiset of cells, so it never loses or gains a block |
| Arena.PassFixedIsSettled | src/core/game_loop.rs:401-405 | a pass that moved nothing means no block has an empty cell below it |
| Arena.SettledPassFixed | src/core/game_loop.rs:385-400 | a pass over a settled arena moves nothing |
| Arena.Settle | src/core/game_loop.rs:384-407 | repeating passes until one changes nothing terminates and keeps the arena's length |
| Arena.SettleIsFixed | src/core/game_loop.rs:401-405 | the settled arena is a fixed point of a pass |
| Arena.SettleSettles | src/core/game_loop.rs:384-407 | after settling, no block above the bottom row has an empty cell below it; an already settled arena is left as it was |
| Arena.SettlePreserves | src/core/game_loop.rs:384-407 | settling keeps the multiset of cells and the block count, and each column keeps the same kinds in the same top-to-bottom order, so no block changes column |
| Arena.DropCellKinds | src/core/game_loop.rs:394-397 | a drop changes the walk down a column only for a walk that starts at the landing cell |
| Arena.PassToKinds | src/core/game_loop.rs:387-399 | a pass keeps every column's top-to-bottom kinds |
| Arena.ClearRowCount | src/core/game_loop.rs:376-382 | clearing a complete row keeps the length and removes exactly width blocks |
| Arena.ScanRows | src/core/game_loop.rs:253-270 | the scan keeps the arena's length |
| Arena.ScanRowsStep | src/core/game_loop.rs:255-267 | one row of the scan unfolded, the step the loop body of remove_complete_rows takes: a complete row is cleared, the arena settled and the count raised by one; any other row is passed over |
| Arena.ScanRowsBound | src/core/game_loop.rs:253-270 | the scan clears at most one row per row it visits, so at most height rows |
| Arena.ScanRowsNone | src/core/game_loop.rs:253-270 | the scan clears nothing exactly when no row is complete, and then it leaves the arena as it was |
| Arena.ScanRowsBlocks | src/core/game_loop.rs:253-270 | each cleared row takes exactly width blocks with it; no other block is lost or gained |
| Arena.ScanRowsSettled | src/core/game_loop.rs:253-270 | when the scan clears a row, the arena it leaves is settled |
| Arena.DropSingleBlock | src/core/game_loop.rs:464-475 | a block at index 0 of a 2x2 arena ends at index 2, and every other cell is empty |
| Arena.ScanEmptyArena | src/core/game_loop.rs:434-439 | the scan of an empty 2x2 arena clears 0 rows |
| Arena.ScanSingleRowAtBottom | src/core/game_loop.rs:441-449 | the scan of a 3x2 arena whose bottom row alone is full clears 1 row and leaves it empty |
| Arena.ScanAllRows | src/core/game_loop.rs:451-462 | the scan of a full 3x2 arena clears 2 rows and leaves it empty |
| Game.Incremented | src/core/game_loop.rs:320-328 | the spawned kind's counter goes up by one and no other counter moves |
| Game.NextState | src/core/game_loop.rs:112-130 | a step stays in, and never enters, Paused; GameOver is reached exactly from GameOver or from CheckGameOver with an overlap; Start and Moving go to Running; PieceBlocked exactly from Falling when blocked; CheckRows exactly from PieceBlocked or from CheckRows with rows cleared; CheckGameOver exactly from CheckRows with none cleared |
| Game.PlacedWritesPiece | src/core/game_loop.rs:299-308 | locking keeps the length, writes the kind under every present mask cell and leaves every other cell as it was |
| Game.MoveLeftNeverUnderflows | src/core/game_loop.rs:191-206 | the left guard passes only when the column is positive, so the decrement cannot underflow |
| Game.MoveLeftStaysInside | src/core/game_loop.rs:191-206 | a piece inside the arena that passes the left guard is still inside after moving left |
| Game.MoveRightStaysInside | src/core/game_loop.rs:208-223 | a piece inside the arena that passes the right guard is still inside after moving right |
| Game.FallStaysInside | src/core/game_loop.rs:153-172 | a piece inside the arena that can fall is still inside one row lower |
| Game.InsideInBounds | src/core/game_loop.rs:158-163 | for a piece inside the arena, locking it and testing it for falling index the arena in range |
| Game.SpawnInside | src/core/game_loop.rs:332 | a new piece (North, at column width/2 of row 0) is inside any arena at least 5 wide and 4 tall |
| Game.SpawnInBounds | src/core/game_loop.rs:277-286 | the overlap test on a new piece indexes in range in any arena at least 5 wide and 4 tall |
| Game.RotateCanLeaveArena | src/core/game_loop.rs:185-187 | an unchecked rotation can move a piece that is inside the arena to outside it, after which locking it would index past the arena |
| Game.GameLoop.constructor | src/core/game_loop.rs:62-77 | a new loop has an empty arena of width*height cells, a drawn piece pointing North, no next piece, both positions (0, 0), state Start, and zero score, lines and statistics |
| Game.GameLoop.HandleInput | src/core/game_loop.rs:79-92 | Pause moves only Paused to Running; Move(a) moves only Running to Moving(a); any other combination changes nothing; only the state ever changes |
| Game.GameLoop.FallTick | src/core/game_loop.rs:94-98 | moves only Running to Falling; only the state ever changes |
| Game.GameLoop.DoStateMachine | src/core/game_loop.rs:100-130 | the new snapshot and the notifications are exactly those of `Step` on the old snapshot: the old position is set to the position; Paused, Running and GameOver change nothing else and report nothing; Falling moves the piece down a row into Running when it can fall, else goes to PieceBlocked; Moving applies the move and goes to Running; PieceBlocked locks the piece and goes to CheckRows; these three report nothing; CheckRows changes only the arena, score, lines and state as the row scan says and reports score then lines exactly when rows were cleared; Start and CheckGameOver spawn a piece and report statistics then next piece (Start also empties the arena and reports score 0 and lines 0); a new piece is also fresh |
| Game.StepFollowsNextState | src/core/game_loop.rs:100-130 | every step moves the state as the transition table says, sets the old position, and keeps the arena's size |
| Game.StepReports | src/core/game_loop.rs:100-130 | a step reports something exactly when it starts, checks for game over, or clears at least one row |
| Game.StepNeverLowersCounters | src/core/game_loop.rs:100-130 | no step, Start included, lowers any kind's counter; outside Start, which zeroes them, no step lowers the score or the line count |
| Game.GameLoop.HandleStart | src/core/game_loop.rs:132-151 | spawns a piece, empties the arena, zeroes score and lines, goes to Running; reports statistics, next piece, score 0 and lines 0 in that order |
| Game.GameLoop.HandleFalling | src/core/game_loop.rs:153-172 | if no present cell would land past the floor or on a block, the piece moves one row down and the state is Running; otherwise only the state changes, to PieceBlocked |
| Game.GameLoop.HandleMovementState | src/core/game_loop.rs:174-183 | every move ends in Running; Rotate changes only the rotation; Drop and None change nothing else; left and right move one column exactly when their guard passes |
| Game.GameLoop.HandleRotate | src/core/game_loop.rs:185-187 | only the rotation changes, one quarter clockwise |
| Game.GameLoop.HandleDrop | src/core/game_loop.rs:189 | nothing changes |
| Game.GameLoop.HandleMoveLeft | src/core/game_loop.rs:191-206 | the column goes down by one exactly when no present cell is in column 0; nothing else changes |
| Game.GameLoop.HandleMoveRight | src/core/game_loop.rs:208-223 | the column goes up by one exactly when no present cell is in the last column; nothing else changes |
| Game.GameLoop.HandlePieceBlocked | src/core/game_loop.rs:225-228 | the piece is locked into the arena and the state becomes CheckRows; nothing else changes |
| Game.GameLoop.HandleCheckRows | src/core/game_loop.rs:230-251 | the arena is the scanned one; k > 0 cleared rows add k*k to the score and k to the lines, keep the state, and report score then lines; k = 0 changes only the state, to CheckGameOver |
| Game.GameLoop.IsRowComplete | src/core/game_loop.rs:256-261 | the flag is set exactly when no cell of row y is empty |
| Game.GameLoop.RemoveCompleteRows | src/core/game_loop.rs:253-270 | the new arena and the count returned are those of the row scan from row 0; nothing but the arena changes |
| Game.FindOverlap | src/core/game_loop.rs:279-286 | the flag ends set exactly when some present cell of the mask at the position lies on a block |
| Game.GameLoop.HandleCheckGameOver | src/core/game_loop.rs:272-293 | spawns a piece; the state becomes GameOver exactly when a present cell of the new piece lies on a block, else Running; reports statistics then next piece |
| Game.GameLoop.HandleGameOver | src/core/game_loop.rs:295-297 | nothing changes |
| Game.GameLoop.AddPieceToArena | src/core/game_loop.rs:299-308 | the arena becomes Placed of the old arena: the kind is written under every present mask cell at the position; nothing else changes |
| Game.GameLoop.CreateNewPiece | src/core/game_loop.rs:310-337 | the new piece is the waiting next piece if any, else a drawn one, pointing North at (width/2, 0); its counter goes up by one; a new next piece is drawn; reports statistics then next piece |
| Game.GameLoop.CreateNewArena | src/core/game_loop.rs:339-341 | the arena becomes width*height empty cells; nothing else changes |
| Game.GameLoop.DropRows | src/core/game_loop.rs:376-382 | exactly the width cells of the row become empty; nothing else changes |
| Game.GameLoop.DropBlocks | src/core/game_loop.rs:384-407 | the arena becomes Settle of the old one (see Settle's lemmas); nothing else changes |

## Left out

- Colours and the colour lookup (`From<&TetronimoShape> for char`) are left out; they only matter for drawing.
- `draw_piece` and `draw_arena` are left out; they are rendering callbacks.
- The `println!` in the game-over step is left out: it is output only.
- Game.GameLoop.CreateNewPiece, Game.GameLoop.constructor, Game.GameLoop.HandleStart, Game.GameLoop.HandleCheckGameOver and Game.GameLoop.DoStateMachine: these draw with the corrected seven-value `Draw`, not with the six-value sampler the source calls (`DrawAsWritten`), so the model can spawn Z and raise `zCount`, which the source as written never does.
- The random number generator is left out. Each random draw is a `roll` parameter below `RollCount`, mapped by `Draw`.
- The callbacks are not modelled as closures. They are the returned `Notification` lists, in call order.
- Score, lines and the statistics counters are `u16` in the source and `nat` here. Arithmetic overflow, which panics in a debug build and wraps in a release build, is not modelled.
- Rust panics on an out-of-range arena index. The model states the absence of such indexing as preconditions instead (`StepSafe`, `PieceFallInBounds`, `PiecePlaceable`, `SpawnPlaceable`).
- Rotation is not checked against the arena, as in the source (see `RotateCanLeaveArena`). Neither wall kicks nor a corrected rotation are modelled.
- The screen, menu, widget and timer code around the engine is not part of this model.

## Findings

| source | as written | input that shows it | evidently intended | confidence | as-written member | corrected member |
|---|---|---|---|---|---|---|
| src/core/tetronimo.rs:30 | the sampler draws from `0..=5`, six values, so the `_ => ZShape` arm is never reached and Z is never drawn | any value the range can produce: 0 to 5 give I, J, L, O, S, T | each of the seven kinds drawn with chance 1/7, from a range of seven values | not executed | Pieces.DrawAsWrittenMissesZ | Pieces.DrawIsUniform |
