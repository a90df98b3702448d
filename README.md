# Tetris engine, modelled and verified in Dafny

This project models the game engine of a small Tetris game, the class `TetrisGame`.
The engine owns four things:

- a board of 20 rows by 10 columns, each cell empty or holding the colour of a locked piece;
- a score;
- the falling piece: its kind, a rotation index and an anchor position;
- a fixed catalogue of the seven tetrominoes I, O, T, L, J, S and Z.

The player moves the piece left or right, rotates it, drops it one row or hard-drops it.
A periodic timer also drops it one row. When the piece cannot fall any further, it is locked
into the board. Then full rows are cleared for 100 points each and a new piece is spawned at
row 0, column 3. If the new piece collides at once, the game is over. The board is wiped and
the score reset, and play goes on.

Modules:

- `Pieces` (`pieces.dfy`): colours, the catalogue, and `Blocks`, the board cells a piece
  covers at an anchor and rotation index.
- `Grid` (`grid.dfy`): the board, the collision scan, locking (`Locked`) and line clearing
  (`NonFullRows`, `FullRowCount`, `Cleared`).
- `Rules` (`rules.dfy`): the engine state as a value (`GameState`) and each operation as a
  function of it (`Spawned`, `Dropped`, `MovedLeft`, `MovedRight`, `Rotated`, `HardDropped`,
  `Settled`). `Inv` is the invariant every operation keeps: a 20 x 10 board, a score that is a
  non-negative multiple of 100, and a falling piece that lies on the board and overlaps no
  locked cell. The lemmas prove that the operations keep it.
- `Engine` (`engine.dfy`): the class `TetrisGame`. Its fields are updated in place, as the
  source does. The public operations (the constructor, `Drop`, `MoveLeft`, `MoveRight`,
  `Rotate`, `HardDrop`) are proved to perform the matching transition of `Rules` and to keep
  `Valid()`, which is `Inv` of the fields. The helpers used inside a drop are proved equal to
  their definitions under weaker preconditions: `LockPiece` to `Grid.Locked` and `ClearLines`
  to `Grid.Cleared` (they require and keep only `Sound`, or a
  well-formed board and a sound score, not `Valid()`, since a locked piece overlaps its own
  cells), and `SpawnPiece` to `Rules.Spawned`, after which `Valid()`
  holds. `LockPiece` writes the board cell by cell in a loop. `ClearLines` builds the new
  board in a loop and pads it in a second loop. `HardDrop` has its falling loop.
- `Scenarios` (`scenarios.dfy`): two concrete games. In the first, an O piece is hard-dropped
  on an empty board. In the second, a blocked spawn position turns every spawn into a game over.

The random pick of the next piece is a parameter: a kind index below 7, given to the
constructor, `SpawnPiece`, `Drop` and `HardDrop`. Colours are an enumeration with one value
per kind.

Two details of the code shape the model:

- A cell in a negative row counts as a collision (`github/TetrisGame.swift:117`). So the
  vertical I piece cannot be placed with its anchor in row 0 (`VerticalIRejectedAtTop`).
- `rotate` stores `rotationIndex + 1` without reducing it. Only `blocks` reduces it modulo the
  number of rotation states. The model's rotation index is therefore an unbounded `nat`, and
  `BlocksPeriodic` shows that the reduction makes the stored value harmless.

## Model

| member | source | states |
|---|---|---|
| Pieces.TetrominoesWellShaped | github/TetrisGame.swift:158-220 | every rotation state of every kind in the catalogue has exactly four offsets |
| Pieces.Blocks | github/TetrisGame.swift:109-113 | for a kind whose rotation states have four offsets, the placement gives four cells, one per offset, whatever the rotation index |
| Pieces.BlocksPeriodic | github/TetrisGame.swift:109-113 | because the rotation index is reduced modulo the number of rotation states, adding that number places the piece on the same cells |
| Pieces.BlocksTranslate | github/TetrisGame.swift:112 | moving the anchor by (dr, dc) moves every covered cell by (dr, dc) |
| Pieces.SpawnShapeInBox | github/TetrisGame.swift:158-220 | every rotation-0 shape lies in offset rows 0..1 and columns 0..3 |
| Grid.EmptyBoard | github/TetrisGame.swift:27-30 | the initial board has 20 rows of 10 cells, all empty |
| Grid.Blocked | github/TetrisGame.swift:117-118 | the per-cell test of the scan: a row outside [0, 20), a column outside [0, 10), or a filled cell; its meaning is stated through `Collision` |
| Rules.CollidesAt | github/TetrisGame.swift:115-121 | the source's collision test with its own parameters (anchor row, column and rotation index): `Collision` of the board against the piece's `Blocks` there; its meaning is stated by `Grid.Collision` |
| Grid.Collision | github/TetrisGame.swift:115-121 | the scan reports a collision iff some cell has a row outside [0, 20), a column outside [0, 10), or lands on a filled cell |
| Grid.Locked | github/TetrisGame.swift:123-130 | locking keeps the board at 20 rows of 10 cells |
| Grid.LockedCells | github/TetrisGame.swift:123-130 | locking gives exactly the in-bounds cells of the piece the piece's colour; out-of-bounds cells are skipped and every other cell is unchanged |
| Grid.NonFullRows | github/TetrisGame.swift:134-139 | the filter keeps no more rows than the board has; which rows it keeps and in what order is stated by `NonFullRowsMembers`, `FilterStep` and `NonFullRowsAppend` |
| Grid.NonFullRowsMembers | github/TetrisGame.swift:133-140 | a row is kept exactly when it is a row of the board and not full |
| Grid.FilterStep | github/TetrisGame.swift:134-139 | one more row of the board is appended to the kept rows when it is not full, and counted as a full row otherwise |
| Grid.NonFullRowsAppend | github/TetrisGame.swift:134-139 | filtering distributes over concatenation, so kept rows keep their relative order |
| Grid.NonFullRowsAllKept | github/TetrisGame.swift:134-139 | a board without full rows is kept whole |
| Grid.Full | github/TetrisGame.swift:135 | the test that every cell of a row is filled; `ClearedRows` states that none of the rows left after a clear passes it |
| Grid.FullRowCount | github/TetrisGame.swift:135-136 | the number of full rows plus the number of kept rows is the number of rows |
| Grid.Cleared | github/TetrisGame.swift:141-144 | after padding, the board again has exactly 20 rows of 10 cells |
| Grid.ClearedRows | github/TetrisGame.swift:132-145 | after a clear no row is full, the kept rows sit at the bottom in their original order, and the rows above them are empty |
| Grid.ClearedWithoutFullRows | github/TetrisGame.swift:132-145 | a board without full rows is unchanged by a clear and earns no points |
| Rules.LockedAndCleared | github/TetrisGame.swift:43-44 | lock then clear keeps the board 20 x 10 and the score a non-negative multiple of 100 that does not decrease, and leaves the piece's kind, rotation and position alone |
| Rules.Spawned | github/TetrisGame.swift:95-107 | the spawn transition: the picked kind at (0, 3) in rotation 0, with the board wiped and the score reset when it collides; its properties are stated by `SpawnedInv` |
| Rules.Settled | github/TetrisGame.swift:42-46 | the lock branch of a drop: lock, clear and spawn in that order; its properties are stated by `LockedAndCleared` and `SettledInv` |
| Rules.Dropped | github/TetrisGame.swift:39-47 | one drop: down one row when the row below is free, otherwise `Settled`; its properties are stated by `DroppedInv` and `FloorStops` |
| Rules.MovedLeft | github/TetrisGame.swift:50-54 | a move left: column minus 1 when that placement is free, otherwise no change; its properties are stated by `MovesKeepInv`, `MovesAreInverse` and `LeftWallStops` |
| Rules.MovedRight | github/TetrisGame.swift:57-61 | a move right: column plus 1 when that placement is free, otherwise no change; its properties are stated by `MovesKeepInv`, `MovesAreInverse` and `RightWallStops` |
| Rules.Rotated | github/TetrisGame.swift:64-69 | a rotation: the unreduced index plus 1 when that placement is free, otherwise no change; its properties are stated by `MovesKeepInv` |
| Rules.HardDropped | github/TetrisGame.swift:72-77 | a hard drop: fall to the `Landing` row, then one drop; its properties are stated by `HardDropSettles` |
| Rules.Landing | github/TetrisGame.swift:73-75 | the falling loop stops at a row from which the piece cannot descend, with every row passed on the way free; it terminates because a row of 20 or more always collides |
| Rules.SpawnFitsOnEmptyBoard | github/TetrisGame.swift:95-100 | every rotation-0 shape fits at the spawn position (0, 3) of an empty board |
| Rules.SpawnedInv | github/TetrisGame.swift:95-107 | spawn sets rotation 0 and position (0, 3); on a collision the board becomes empty and the score 0; the new piece is always collision-free |
| Rules.SettledInv | github/TetrisGame.swift:42-46 | lock, clear and spawn, in that order, always leave a state satisfying the invariant |
| Rules.ScoreStep | github/TetrisGame.swift:136 | adding 100 per cleared row keeps the score a non-negative multiple of 100 |
| Rules.DroppedInv | github/TetrisGame.swift:39-47 | a drop keeps the invariant, whether the piece moves down or settles |
| Rules.HardDropSettles | github/TetrisGame.swift:72-77 | after the falling loop the piece cannot descend, so the drop that follows always takes the lock branch; the invariant holds afterwards |
| Rules.MovesKeepInv | github/TetrisGame.swift:50-69 | moves and rotation keep the invariant and never change the board, the score or the kind |
| Rules.MovesAreInverse | github/TetrisGame.swift:50-61 | a successful move left is undone by a move right, and vice versa |
| Rules.LeftWallStops | github/TetrisGame.swift:50-54 | with a cell in column 0, a move left changes nothing |
| Rules.RightWallStops | github/TetrisGame.swift:57-61 | with a cell in column 9, a move right changes nothing |
| Rules.FloorStops | github/TetrisGame.swift:39-46 | with a cell in row 19, a drop takes the lock branch |
| Rules.VerticalIRejectedAtTop | github/TetrisGame.swift:115-118 | the vertical I rotation collides with its anchor in row 0, because its top cell is in row -1 |
| Engine.TetrisGame.constructor | github/TetrisGame.swift:26-33 | a new game has an empty board, score 0 and a piece of the picked kind at (0, 3) in rotation 0, and satisfies the invariant |
| Engine.TetrisGame.Drop | github/TetrisGame.swift:39-47 | the fields afterwards are those of one drop of the old state, and the invariant is kept |
| Engine.TetrisGame.MoveLeft | github/TetrisGame.swift:50-54 | only the position changes: its column goes down by 1 exactly when the target placement is collision-free |
| Engine.TetrisGame.MoveRight | github/TetrisGame.swift:57-61 | only the position changes: its column goes up by 1 exactly when the target placement is collision-free |
| Engine.TetrisGame.Rotate | github/TetrisGame.swift:64-69 | only the rotation index changes: it goes up by 1 exactly when the next rotation is collision-free at the same anchor |
| Engine.TetrisGame.HardDrop | github/TetrisGame.swift:72-77 | the loop takes the piece to its landing row, and the following drop settles it |
| Engine.TetrisGame.ActiveBlocks | github/TetrisGame.swift:81-85 | the falling piece shows as four blocks of its colour, one per offset, each on the board and over an empty cell |
| Engine.TetrisGame.SpawnPiece | github/TetrisGame.swift:95-107 | the fields afterwards are those of a spawn of the picked kind, game-over reset included, and the invariant holds |
| Engine.TetrisGame.LockPiece | github/TetrisGame.swift:123-130 | the loop writes the piece's colour into its in-bounds cells and changes nothing but the board |
| Engine.TetrisGame.ClearLines | github/TetrisGame.swift:132-145 | the first loop keeps the rows that are not full and adds 100 points per full row; the second pads the kept rows with empty rows at the top; the board ends as `Cleared` of the old board and the score stays a non-negative multiple of 100 |
| Scenarios.OPieceFitsEmptyBoard | github/TetrisGame.swift:115-121 | on an empty board the O piece in column 3 fits exactly for anchor rows 0 to 18 |
| Scenarios.OPieceLandsAtRow18 | github/TetrisGame.swift:72-75 | from the spawn row the O piece falls to anchor row 18 |
| Scenarios.BottomOCells | github/TetrisGame.swift:123-130 | the locked O piece fills rows 18 and 19, columns 3 and 4, and nothing else; no row is full |
| Scenarios.SpawnAboveBottomO | github/TetrisGame.swift:95-100 | every kind fits at the spawn position above that locked O piece |
| Scenarios.LockLandedO | github/TetrisGame.swift:43-44 | locking the landed O piece and clearing lines earns no points |
| Scenarios.HardDropOnEmptyBoard | github/TetrisGame.swift:72-77 | a first O piece hard-dropped on an empty board locks in rows 18-19, columns 3-4, the score stays 0, and the next piece is at (0, 3) |
| Scenarios.BlockedSpawnResets | github/TetrisGame.swift:99-106 | with cells (0, 4) and (1, 4) filled, every spawn wipes the board and resets the score to 0 |

## Left out

- The timer in `startTimer` (`github/TetrisGame.swift:89-93`) is not modelled. The host calls `Drop` for each tick.
- The random pick `randomElement()` (`github/TetrisGame.swift:96`) is replaced by a caller-supplied kind index below 7.
- SwiftUI types are replaced: `Color` by an enumeration, and `@Published` / `ObservableObject` are dropped. The `Block` struct loses its `UUID` id.
- `github/TetrisView.swift` and `github/ContentView.swift` are rendering and app entry code. They are not part of this model.
- `current` is optional in the source, but it is set by the first spawn inside `init` before anything reads it. The model keeps a plain piece, so the `nil` branches of `blocks`, `lockPiece` and `activeBlocks` are not modelled.
- Swift's `Int` traps on overflow, for the score and for the rotation index. The model's integers are unbounded, so a game long enough to overflow is not modelled.
- Rules.Sound: states that the falling piece is well shaped, not that it is an entry of the catalogue. Every spawn does set it to a catalogue entry, as `Spawned` and `SpawnPiece` state.
- Engine.TetrisGame.ActiveBlocks: requires the class invariant `Valid()`, which the constructor and the public operations (`Drop`, `MoveLeft`, `MoveRight`, `Rotate`, `HardDrop`) keep; `LockPiece` and `ClearLines` do not, because a locked piece overlaps its own cells. The source reads the fields without a precondition.
- Grid.Collision takes the cells of the placement. The source's `collision(row:col:rotation:)` computes them with `blocks` first, and the model's callers pass `Blocks(...)` to match.
