/** Whole-game consequences of the rules, on concrete boards. */
module Scenarios {
  import opened Pieces
  import opened Grid
  import opened Rules

  /** The O piece in rotation 0 with its anchor in column 3 fits on an empty board exactly
      when its anchor row is between 0 and 18. */
  lemma OPieceFitsEmptyBoard(row: int)
    ensures Collision(EmptyBoard(), Blocks(Tetrominoes[1], row, 3, 0)) <==> row < 0 || row >= Rows - 1
  {
    var cells := Blocks(Tetrominoes[1], row, 3, 0);
    assert cells == [(row, 3), (row, 4), (row + 1, 3), (row + 1, 4)];
    if row < 0 {
      assert Blocked(EmptyBoard(), cells[0]);
    } else if row >= Rows - 1 {
      assert Blocked(EmptyBoard(), cells[2]);
    } else {
      forall i | 0 <= i < 4 ensures !Blocked(EmptyBoard(), cells[i]) {
        assert InBounds(cells[i]);
      }
    }
  }

  /** Falling from the spawn row, the O piece comes to rest with its anchor in row 18. */
  lemma OPieceLandsAtRow18()
    ensures WellShaped(Tetrominoes[1]) && !Collision(EmptyBoard(), Blocks(Tetrominoes[1], 0, 3, 0))
    ensures Landing(EmptyBoard(), Tetrominoes[1], 0, 3, 0) == Rows - 2
  {
    TetrominoesWellShaped();
    OPieceFitsEmptyBoard(0);
    var land := Landing(EmptyBoard(), Tetrominoes[1], 0, 3, 0);
    OPieceFitsEmptyBoard(land);
    OPieceFitsEmptyBoard(land + 1);
  }

  /** The board with the O piece locked in rows 18 and 19, columns 3 and 4. */
  function BottomO(): Board
  {
    Locked(EmptyBoard(), [(18, 3), (18, 4), (19, 3), (19, 4)], Yellow)
  }

  lemma BottomOCells()
    ensures forall r, c :: 0 <= r < Rows && 0 <= c < Columns ==>
      BottomO()[r][c] == if r in {18, 19} && c in {3, 4} then Some(Yellow) else None
    ensures forall i :: 0 <= i < Rows ==> !Full(BottomO()[i])
  {
    LockedCells(EmptyBoard(), [(18, 3), (18, 4), (19, 3), (19, 4)], Yellow);
    forall i | 0 <= i < Rows ensures !Full(BottomO()[i]) {
      assert BottomO()[i][0] == None;
    }
  }

  /** Every new piece fits at the spawn position above the locked O piece. */
  lemma SpawnAboveBottomO(next: nat)
    requires next < |Tetrominoes|
    ensures |Tetrominoes[next].rotations| > 0
    ensures !Collision(BottomO(), Blocks(Tetrominoes[next], 0, 3, 0))
  {
    BottomOCells();
    SpawnShapeInBox(next);
    var spawned := Blocks(Tetrominoes[next], 0, 3, 0);
    forall i | 0 <= i < |spawned| ensures !Blocked(BottomO(), spawned[i]) {
      assert InBounds(spawned[i]) && spawned[i].0 <= 1;
    }
  }

  /** Locking the O piece at anchor (18, 3) on an empty board clears no line. */
  lemma LockLandedO(g: GameState)
    requires g == GameState(EmptyBoard(), 0, Tetrominoes[1], 0, Position(18, 3))
    ensures Sound(g) && LockedAndCleared(g) == g.(board := BottomO())
  {
    TetrominoesWellShaped();
    assert ActiveCells(g) == [(18, 3), (18, 4), (19, 3), (19, 4)];
    BottomOCells();
    ClearedWithoutFullRows(BottomO());
  }

  /** A new game's first O piece, hard-dropped, comes to rest in rows 18 and 19, columns 3 and 4
      (see BottomOCells), no line is cleared, and the next piece appears at the spawn position. */
  lemma HardDropOnEmptyBoard(next: nat)
    requires next < |Tetrominoes|
    ensures var g := GameState(EmptyBoard(), 0, Tetrominoes[1], 0, SpawnPosition);
      Inv(g) && HardDropped(g, next) == GameState(BottomO(), 0, Tetrominoes[next], 0, SpawnPosition)
  {
    var g := GameState(EmptyBoard(), 0, Tetrominoes[1], 0, SpawnPosition);
    OPieceLandsAtRow18();
    var landed := g.(position := Position(18, 3));
    HardDropSettles(g, next);
    assert HardDropped(g, next) == Settled(landed, next);
    LockLandedO(landed);
    SpawnAboveBottomO(next);
    assert Settled(landed, next) == Spawned(landed.(board := BottomO()), next);
  }

  /** With cells (0, 4) and (1, 4) filled, every kind collides at the spawn position, so every
      spawn is a game over: the board is wiped and the score reset to 0. */
  lemma BlockedSpawnResets(g: GameState, kind: nat)
    requires WellFormed(g.board) && g.board[0][4] != None && g.board[1][4] != None
    requires kind < |Tetrominoes|
    ensures Spawned(g, kind).board == EmptyBoard() && Spawned(g, kind).score == 0
  {
    TetrominoesWellShaped();
    var cells := Blocks(Tetrominoes[kind], SpawnPosition.row, SpawnPosition.col, 0);
    var i := if kind in {0, 1, 6} then 1 else if kind in {3, 4} then 2 else 0;
    assert Blocked(g.board, cells[i]);
  }
}
