/** The engine's transitions as functions of the game state, and what they preserve. */
module Rules {
  import opened Pieces
  import opened Grid

  /** The anchor of the falling piece. Unlike a cell offset (Pieces.Cell, an unlabelled pair),
      the anchor is read and updated field by field, so its components are named. */
  datatype Position = Position(row: int, col: int)

  /** Everything the engine owns: locked cells, score and the falling piece. */
  datatype GameState = GameState(board: Board, score: int, current: Tetromino, rotationIndex: nat, position: Position)

  /** Where every new piece appears, in rotation 0. */
  const SpawnPosition := Position(0, 3)

  /** Holds between operations and while a piece is being locked: a 20 x 10 board, a falling
      piece whose rotation states have four cells each, and a score that is a non-negative
      multiple of the line bonus. */
  predicate Sound(g: GameState)
  {
    WellFormed(g.board) && WellShaped(g.current) &&
    g.score >= 0 && g.score % 100 == 0
  }

  /** The cells the falling piece covers. */
  function ActiveCells(g: GameState): seq<Cell>
    requires |g.current.rotations| > 0
  {
    Blocks(g.current, g.position.row, g.position.col, g.rotationIndex)
  }

  /** Holds between operations: also, the falling piece is on the board and overlaps no locked cell. */
  predicate Inv(g: GameState)
  {
    Sound(g) && !Collision(g.board, ActiveCells(g))
  }

  /** Whether the falling piece would collide with its anchor at (row, col) in the given rotation. */
  function CollidesAt(g: GameState, row: int, col: int, rotation: nat): bool
    requires Sound(g)
  {
    Collision(g.board, Blocks(g.current, row, col, rotation))
  }

  /** A new piece of the given kind at the spawn position; if it collides there, the board is
      wiped and the score reset. */
  function Spawned(g: GameState, kind: nat): GameState
    requires WellFormed(g.board) && kind < |Tetrominoes|
  {
    TetrominoesWellShaped();
    var s := g.(current := Tetrominoes[kind], rotationIndex := 0, position := SpawnPosition);
    if Collision(s.board, ActiveCells(s)) then s.(board := EmptyBoard(), score := 0) else s
  }

  /** The falling piece is written into the board and full rows are cleared for 100 points each.
      The board stays 20 x 10 and the score a non-negative multiple of 100. */
  function LockedAndCleared(g: GameState): (r: GameState)
    requires Sound(g)
    ensures Sound(r)
    ensures r.current == g.current && r.rotationIndex == g.rotationIndex && r.position == g.position
    ensures r.score >= g.score
  {
    var locked := Locked(g.board, ActiveCells(g), g.current.color);
    var lines := FullRowCount(locked);
    ScoreStep(g.score, lines, g.score + 100 * lines);
    g.(board := Cleared(locked), score := g.score + 100 * lines)
  }

  /** The falling piece is locked, full rows are cleared, and a piece of kind `next` is spawned. */
  function Settled(g: GameState, next: nat): GameState
    requires Sound(g) && next < |Tetrominoes|
  {
    Spawned(LockedAndCleared(g), next)
  }

  function Dropped(g: GameState, next: nat): GameState
    requires Sound(g) && next < |Tetrominoes|
  {
    if !CollidesAt(g, g.position.row + 1, g.position.col, g.rotationIndex) then
      g.(position := g.position.(row := g.position.row + 1))
    else
      Settled(g, next)
  }

  function MovedLeft(g: GameState): GameState
    requires Sound(g)
  {
    if !CollidesAt(g, g.position.row, g.position.col - 1, g.rotationIndex) then
      g.(position := g.position.(col := g.position.col - 1))
    else
      g
  }

  function MovedRight(g: GameState): GameState
    requires Sound(g)
  {
    if !CollidesAt(g, g.position.row, g.position.col + 1, g.rotationIndex) then
      g.(position := g.position.(col := g.position.col + 1))
    else
      g
  }

  function Rotated(g: GameState): GameState
    requires Sound(g)
  {
    if !CollidesAt(g, g.position.row, g.position.col, g.rotationIndex + 1) then
      g.(rotationIndex := g.rotationIndex + 1)
    else
      g
  }

  /** The row at which a piece falling straight down from `row` comes to rest: every row from
      `row` to it is free, and the row below it is not. */
  function Landing(b: Board, p: Tetromino, row: int, col: int, rotation: nat): (land: int)
    requires WellFormed(b) && WellShaped(p)
    requires !Collision(b, Blocks(p, row, col, rotation))
    ensures row <= land
    ensures forall r :: row <= r <= land ==> !Collision(b, Blocks(p, r, col, rotation))
    ensures Collision(b, Blocks(p, land + 1, col, rotation))
    decreases Rows - Blocks(p, row, col, rotation)[0].0
  {
    if Collision(b, Blocks(p, row + 1, col, rotation)) then row
    else Landing(b, p, row + 1, col, rotation)
  }

  /** The piece falls to its landing row, and then one more drop is made. */
  function HardDropped(g: GameState, next: nat): GameState
    requires Inv(g) && next < |Tetrominoes|
  {
    var land := Landing(g.board, g.current, g.position.row, g.position.col, g.rotationIndex);
    Dropped(g.(position := g.position.(row := land)), next)
  }

  // ---------------------------------------------------------------------------------------
  // Properties

  /** Every rotation-0 shape fits at the spawn position of an empty board. */
  lemma SpawnFitsOnEmptyBoard(kind: nat)
    requires kind < |Tetrominoes|
    ensures |Tetrominoes[kind].rotations| > 0
    ensures !Collision(EmptyBoard(), Blocks(Tetrominoes[kind], SpawnPosition.row, SpawnPosition.col, 0))
  {
    SpawnShapeInBox(kind);
    var cells := Blocks(Tetrominoes[kind], SpawnPosition.row, SpawnPosition.col, 0);
    forall i | 0 <= i < |cells| ensures !Blocked(EmptyBoard(), cells[i]) {
      assert InBounds(cells[i]);
    }
  }

  /** Spawning re-establishes the invariant from any well-formed board and sound score:
      the new piece is always collision-free, after a game-over reset if need be. */
  lemma SpawnedInv(g: GameState, kind: nat)
    requires WellFormed(g.board) && g.score >= 0 && g.score % 100 == 0 && kind < |Tetrominoes|
    ensures Inv(Spawned(g, kind))
    ensures var s := Spawned(g, kind);
      s.current == Tetrominoes[kind] && s.rotationIndex == 0 && s.position == SpawnPosition
    ensures var s := Spawned(g, kind);
      if Collision(g.board, Blocks(Tetrominoes[kind], SpawnPosition.row, SpawnPosition.col, 0))
      then s.board == EmptyBoard() && s.score == 0
      else s.board == g.board && s.score == g.score
  {
    TetrominoesWellShaped();
    SpawnFitsOnEmptyBoard(kind);
  }

  /** Locking, clearing and respawning leave a state satisfying the invariant. */
  lemma SettledInv(g: GameState, next: nat)
    requires Sound(g) && next < |Tetrominoes|
    ensures Inv(Settled(g, next))
  {
    SpawnedInv(LockedAndCleared(g), next);
  }

  /** Adding 100 points per cleared row keeps the score a non-negative multiple of 100. */
  lemma ScoreStep(score: int, lines: nat, after: int)
    requires score >= 0 && score % 100 == 0 && after == score + 100 * lines
    ensures after >= 0 && after % 100 == 0
  {
    ModUnique(after, 100, score / 100 + lines, 0);
  }

  /** A drop keeps the invariant: the piece only moves down onto free cells, and a settled
      piece is replaced by a collision-free new one. */
  lemma DroppedInv(g: GameState, next: nat)
    requires Inv(g) && next < |Tetrominoes|
    ensures Inv(Dropped(g, next))
  {
    if CollidesAt(g, g.position.row + 1, g.position.col, g.rotationIndex) {
      SettledInv(g, next);
      assert Dropped(g, next) == Settled(g, next);
    } else {
      assert Dropped(g, next) == g.(position := g.position.(row := g.position.row + 1));
    }
  }

  /** After falling to its landing row the piece cannot descend, so the drop that follows
      always settles it. */
  lemma HardDropSettles(g: GameState, next: nat)
    requires Inv(g) && next < |Tetrominoes|
    ensures var land := Landing(g.board, g.current, g.position.row, g.position.col, g.rotationIndex);
      HardDropped(g, next) == Settled(g.(position := g.position.(row := land)), next)
    ensures Inv(HardDropped(g, next))
  {
    var land := Landing(g.board, g.current, g.position.row, g.position.col, g.rotationIndex);
    SettledInv(g.(position := g.position.(row := land)), next);
  }

  /** Moves and rotations change only the position or the rotation index, and keep the invariant. */
  lemma MovesKeepInv(g: GameState)
    requires Inv(g)
    ensures Inv(MovedLeft(g)) && Inv(MovedRight(g)) && Inv(Rotated(g))
    ensures forall m :: m in [MovedLeft(g), MovedRight(g), Rotated(g)] ==>
      m.board == g.board && m.score == g.score && m.current == g.current
  {
  }

  /** A successful move left is undone by a move right, and vice versa. */
  lemma MovesAreInverse(g: GameState)
    requires Inv(g)
    ensures MovedLeft(g) != g ==> MovedRight(MovedLeft(g)) == g
    ensures MovedRight(g) != g ==> MovedLeft(MovedRight(g)) == g
  {
  }

  /** Against the left wall a move left changes nothing. */
  lemma LeftWallStops(g: GameState, i: nat)
    requires Inv(g) && i < |ActiveCells(g)| && ActiveCells(g)[i].1 == 0
    ensures MovedLeft(g) == g
  {
    BlocksTranslate(g.current, g.position.row, g.position.col, g.rotationIndex, 0, -1);
    var moved := Blocks(g.current, g.position.row, g.position.col - 1, g.rotationIndex);
    assert Blocked(g.board, moved[i]);
  }

  /** Against the right wall a move right changes nothing. */
  lemma RightWallStops(g: GameState, i: nat)
    requires Inv(g) && i < |ActiveCells(g)| && ActiveCells(g)[i].1 == Columns - 1
    ensures MovedRight(g) == g
  {
    BlocksTranslate(g.current, g.position.row, g.position.col, g.rotationIndex, 0, 1);
    var moved := Blocks(g.current, g.position.row, g.position.col + 1, g.rotationIndex);
    assert Blocked(g.board, moved[i]);
  }

  /** A cell in row 19 or below means the piece cannot move down, so a drop settles it. */
  lemma FloorStops(g: GameState, i: nat, next: nat)
    requires Inv(g) && next < |Tetrominoes| && i < |ActiveCells(g)| && ActiveCells(g)[i].0 == Rows - 1
    ensures Dropped(g, next) == Settled(g, next)
  {
    BlocksTranslate(g.current, g.position.row, g.position.col, g.rotationIndex, 1, 0);
    var moved := Blocks(g.current, g.position.row + 1, g.position.col, g.rotationIndex);
    assert Blocked(g.board, moved[i]);
    assert CollidesAt(g, g.position.row + 1, g.position.col, g.rotationIndex);
  }

  /** Cells in negative rows count as collisions: the vertical I cannot be placed with its anchor
      in row 0, whatever the board holds. */
  lemma VerticalIRejectedAtTop(b: Board, col: int)
    requires WellFormed(b)
    ensures Collision(b, Blocks(Tetrominoes[0], 0, col, 1))
  {
    assert Blocked(b, Blocks(Tetrominoes[0], 0, col, 1)[0]);
  }
}
