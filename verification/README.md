# Tetris game-state core in Dafny

A model of the deterministic core of the `Tetris` class in `tetris.js`. The model covers:

- the board, a 20-row by 10-column grid of cells;
- the seven tetromino shapes;
- the collision test;
- moving, rotating and hard-dropping the active piece;
- locking a landed piece into the board;
- the bottom-up sweep that clears complete rows;
- the score, level, line and drop-interval counters;
- the spawner with its one-piece lookahead;
- reset, start and pause (each start and each resume runs one frame of the game loop at
  once), the key guard and one frame of the game loop.

Everything is a pure function over an immutable `Game` record. Three loops of the source are also written as methods with loop invariants. Each method is proved equal to the whole-board definition that the state machine uses:

- `Collision.CheckCollision` is the source's collision loop;
- `Lock.LockCells` is the lock loop;
- `Sweep.ClearLines` is the row-sweep loop.

Modules:

- `grid.dfy` (`Grid`): board dimensions, cells (0 empty, any other value a settled piece's id), complete rows.
- `shapes.dfy` (`Shapes`): the shape catalog, rectangular and tight bounding boxes, the clockwise rotation.
- `collision.dfy` (`Collision`): the collision predicate and the scan that computes it.
- `lock.dfy` (`Lock`): writing a piece into the board.
- `sweep.dfy` (`Sweep`): the row sweep, and the score/level/speed bookkeeping.
- `game.dfy` (`Tetris`): the session state, its invariant `Valid`, and the operations.
- `options.dfy` (`Options`): `Option` for the nullable piece slots.

`Tetris.Valid` is the session invariant, and every operation preserves it:

- the board keeps its size;
- no complete row is left on the board;
- the buffered piece is a catalog shape exactly as drawn, with its id;
- the active piece is a drawn piece turned fewer than four times, so a tight box of at most 4x4;
- the active piece lies inside the walls and above the floor;
- while the game runs, the active piece overlaps no settled cell;
- `level == lines / 10 + 1`;
- the drop interval is the one the level prescribes.

The level invariant holds because a lock can complete at most as many rows as the piece is tall (`Sweep.ClearedAtMostPieceHeight`). Pieces are at most 4 rows tall, so fewer than ten lines are ever credited at once. The source raises the level by at most one per lock, so it never falls behind.

Some behaviour of the code worth knowing:

- There is no wall-kick search. A rotation that collides is dropped.
- Shapes are rectangular matrices (I is 1x4; O is 2x2; T, S, Z, J and L are 2x3).
- There is only the clockwise rotation.
- The score is `lines cleared * 100 * level`, using the level from before any increment.
- On game over the board and counters are kept. Only a reset clears them.
- Starting again after a game over does not clear the board either.
- Starting and resuming run one frame of the game loop straight away. After a reset the drop time is 0, so the first start moves the new piece down one row at once.

## Model

| member | source | states |
|---|---|---|
| Grid.EmptyBoard | tetris.js:12 | the initial board is 20 rows of 10 empty cells and has no complete row |
| Shapes.CatalogOk | tetris.js:37-72 | every catalog shape is a rectangular box of at most 4x4 whose every row and column holds an occupied cell |
| Shapes.Rotate | tetris.js:212-224 | rotating an r x c matrix gives a c x r rectangular matrix with `rotated[j][k] == m[r-1-k][j]`, i.e. the source's `rotated[j][r-1-i] = m[i][j]` |
| Shapes.RotateCells | tetris.js:212-224 | rotation sends each occupied cell (i, j) to (j, r-1-i), so the number of occupied cells is preserved |
| Shapes.RotateTwice | tetris.js:212-224 | two rotations turn the matrix upside down and mirror it |
| Shapes.RotateFour | tetris.js:212-224 | four rotations give back the original matrix |
| Shapes.RotateShapeOk | tetris.js:202-224 | rotating a piece's shape keeps it a tight box of at most 4x4, with the sides swapped |
| Shapes.TurnsCycle | tetris.js:202-224 | turning a shape that has been turned n < 4 times gives the shape turned n + 1 times, and the fourth turn gives the shape back |
| Collision.CheckCollision | tetris.js:230-249 | returns true exactly when some occupied cell lands left of column 0, right of the last column, at or below the floor, or (at a row >= 0) on a taken board cell |
| Collision.FitsBox | tetris.js:237-240 | a tight shape that passes the wall and floor tests has its whole bounding box between the walls and above the floor (rows above the top are allowed) |
| Collision.CollidesOnEmpty | tetris.js:230-249 | on a board without settled cells, a piece between the walls collides exactly when its bottom row is below the floor |
| Lock.LockCells | tetris.js:251-263 | writes the piece id into exactly the board cells under occupied shape cells at rows >= 0; every other cell is unchanged |
| Sweep.Kept | tetris.js:272-279 | the incomplete rows plus the complete-row count make up the whole board |
| Sweep.ClearLines | tetris.js:269-279 | the board stays 20x10 with no complete row left; the number cleared equals the number of complete rows before the call; the result is that many empty rows on top of the incomplete rows in their original order |
| Sweep.SweptShape | tetris.js:272-279 | the swept board keeps the board's dimensions and has no complete row |
| Sweep.IntervalFor | tetris.js:287 | the drop interval is between 100 and 1000 ms, and exactly 100 ms from level 10 on |
| Sweep.IntervalMonotone | tetris.js:287 | a higher level never has a longer drop interval |
| Sweep.Credit | tetris.js:281-289 | with nothing cleared the counters are unchanged; otherwise lines grow by n, score by n * 100 * old level, level by at most one and only when lines reach level * 10, and the interval is recomputed only on a level change |
| Sweep.CreditKeepsStats | tetris.js:281-289 | clearing fewer than ten rows keeps level == lines / 10 + 1 and the interval matching the level |
| Sweep.ClearedAtMostPieceHeight | tetris.js:251-279 | locking a piece onto a board with no complete row completes at most as many rows as the piece is tall |
| Tetris.NewPiece | tetris.js:175-181 | draw k yields catalog shape k with a non-zero id |
| Tetris.DrawnTurned | tetris.js:175-181 | a drawn piece is a tight box of at most 4x4 and counts as turned zero times |
| Tetris.RotateTurned | tetris.js:202-224 | rotating the active piece keeps it one of the four orientations of the catalog shape it was drawn with, with the same id |
| Tetris.Reset | tetris.js:137-147 | after a reset the board is empty, the counters are 0 / level 1 / 0 lines / 1000 ms, the drop time is 0, nothing runs or is paused, both piece slots are empty, the piece position is kept, and the invariant holds |
| Tetris.Spawn | tetris.js:158-173 | the promoted piece is the old buffered one (or a fresh draw if none); a new draw is buffered; the position is column `floor(10/2) - floor(width/2)`, row 0, always inside the walls; the game stops exactly when that position collides; board and counters are unchanged |
| Tetris.SpawnRunning | tetris.js:158-173 | a spawn leaves the game running exactly when it was running and the promoted piece does not collide at the centred column of row 0 |
| Tetris.SpawnOntoFilledTopEndsGame | tetris.js:165-172 | when the top row is taken across the spawned piece's columns, the spawn ends the game and leaves board and counters as they were |
| Tetris.LockPiece | tetris.js:251-289 | the new board is the stamped board after the sweep and the counters are credited with the number of rows the stamp completed, at most the piece's height; then the spawn: the buffered piece (or a fresh draw) becomes active at the centred column of row 0, a new draw is buffered, pause flag and drop time are kept, and the game keeps running exactly when it was running and the promoted piece fits the swept board there; the invariant is kept |
| Tetris.Move | tetris.js:183-200 | the move is committed and reported exactly when the piece exists and the target does not collide; otherwise the state is unchanged, except that a refused move with dy > 0 locks the piece; the invariant is kept |
| Tetris.RotatePiece | tetris.js:202-210 | the shape becomes its rotation exactly when the rotation does not collide at the unchanged position; nothing but the active shape ever changes |
| Tetris.Landing | tetris.js:226-228 | every row the piece passes through is free and the row below the landing row is not |
| Tetris.DropToBottom | tetris.js:226-228 | a hard drop keeps the invariant and does nothing without an active piece |
| Tetris.DropAfterCommittedMove | tetris.js:226-228 | when the downward move is committed, the hard drop continues from the moved state |
| Tetris.DropEndsWithRefusedMove | tetris.js:226-228 | when the downward move is refused, the hard drop is exactly that refused move, which locked the piece |
| Tetris.HardDropOnEmptyBoard | tetris.js:226-228 | on an empty board the dropped piece's bottom row lands on the last board row |
| Tetris.Tick | tetris.js:294-305 | a frame changes nothing unless running, unpaused and more than the drop interval has passed; then it is one downward move with the drop time set to now |
| Tetris.Launch | tetris.js:113-119 | the spawns of a start fill both piece slots (the active one with the second draw, at its centred column and row 0) and unpause, keeping board, counters and drop time; the game runs afterwards exactly when neither spawned piece collides at its spawn position, so a first spawn that ends the game keeps it over |
| Tetris.Start | tetris.js:113-124 | start is a no-op while running; otherwise, after the spawns, one frame runs at once: it leaves the launched state alone when the game ended on spawning or the interval has not passed, and otherwise moves the piece down (or locks it) and sets the drop time to now |
| Tetris.StartAfterResetDropsAtOnce | tetris.js:113-124 | the first start after a reset, at any time past 1000 ms, leaves the second draw running one row below the top of the empty board, with the drop time set to now |
| Tetris.TogglePause | tetris.js:126-135 | a no-op unless running; pausing only sets the pause flag; resuming clears it and runs one frame, which moves the piece down (or locks it) when the interval has passed |
| Tetris.PauseResume | tetris.js:126-135 | pausing and resuming within the drop interval gives the state back unchanged |
| Tetris.HandleKey | tetris.js:86-111 | keys are ignored unless the game runs unpaused, unrecognised keys always; the invariant is kept |

## Left out

- Canvas rendering (`drawBoard`, `drawBlock`, `drawNextPiece`, tetris.js:314-416): presentation only.
- DOM wiring, button states and `updateDisplay` (tetris.js:78-84, 122-123, 130, 149-155, 418-422), and the `alert` in `gameOver` (tetris.js:309): I/O. `gameOver` is modelled only as clearing the running flag.
- Colour strings (tetris.js:27-35): a settled cell holds the piece's id, 1 to 7, in place of its colour. Only "empty or not" matters to the core.
- `Math.random` in `createRandomPiece` (tetris.js:176): the draws are `ShapeIndex` parameters of `Spawn`, `Move`, `LockPiece`, `DropToBottom`, `Tick`, `Launch`, `Start`, `TogglePause` and `HandleKey`.
- `Date.now` and `requestAnimationFrame` (tetris.js:294-305): `Tick`, `Start` and `TogglePause` take the time as a parameter, and each frame is one call of `Tick`. The self-rescheduling chain of frames, and with it any double scheduling after a quick pause and resume, is not modelled.
- The constructor (tetris.js:2-25): it creates the same state as `Reset`, with the position set to 0.
- A reset keeps the previous piece position, as the source does. The constructor's position 0 is not a separate member.
- JavaScript numbers are doubles. The counters are unbounded integers here, so precision loss past 2^53 is not modelled.
- The hard drop is defined as locking at the landing row rather than as a literal loop of moves. `Tetris.DropAfterCommittedMove` and `Tetris.DropEndsWithRefusedMove` prove that it follows the loop step by step.
