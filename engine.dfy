/** The game engine object: its fields are updated in place by the player's moves and by the
    periodic drop. Each public operation is proved to perform the matching transition of module
    Rules and to keep Valid(); the helpers used inside a drop are proved equal to Grid.Locked,
    Grid.Cleared and Rules.Spawned. */
module Engine {
  import opened Pieces
  import opened Grid
  import opened Rules

  /** A cell of the falling piece, as handed to the renderer. */
  datatype Block = Block(row: int, column: int, color: Color)

  class TetrisGame {
    var board: Board
    var score: int
    var current: Tetromino
    var rotationIndex: nat
    var position: Position

    /** The engine's state as a value. */
    function Snapshot(): GameState
      reads this
    {
      GameState(board, score, current, rotationIndex, position)
    }

    ghost predicate Valid()
      reads this
    {
      Inv(Snapshot())
    }

    /** A new game on an empty board with score 0; `kind` stands for the random first pick. */
    constructor (kind: nat)
      requires kind < |Tetrominoes|
      ensures Valid()
      ensures board == EmptyBoard() && score == 0
      ensures current == Tetrominoes[kind] && rotationIndex == 0 && position == SpawnPosition
    {
      board := EmptyBoard();
      score := 0;
      current := Tetrominoes[kind];
      rotationIndex := 0;
      position := SpawnPosition;
      new;
      SpawnPiece(kind);
      SpawnFitsOnEmptyBoard(kind);
    }

    /** One row of gravity: move down if the cells below are free, otherwise lock the piece,
        clear full rows and spawn a piece of kind `next`. */
    method Drop(next: nat)
      requires Valid() && next < |Tetrominoes|
      modifies this
      ensures Valid()
      ensures Snapshot() == Dropped(old(Snapshot()), next)
    {
      if !Collision(board, Blocks(current, position.row + 1, position.col, rotationIndex)) {
        position := position.(row := position.row + 1);
      } else {
        LockPiece();
        ClearLines();
        SpawnPiece(next);
      }
      DroppedInv(old(Snapshot()), next);
    }

    method MoveLeft()
      requires Valid()
      modifies this`position
      ensures Valid()
      ensures Snapshot() == MovedLeft(old(Snapshot()))
    {
      if !Collision(board, Blocks(current, position.row, position.col - 1, rotationIndex)) {
        position := position.(col := position.col - 1);
      }
    }

    method MoveRight()
      requires Valid()
      modifies this`position
      ensures Valid()
      ensures Snapshot() == MovedRight(old(Snapshot()))
    {
      if !Collision(board, Blocks(current, position.row, position.col + 1, rotationIndex)) {
        position := position.(col := position.col + 1);
      }
    }

    /** The next rotation index is stored unreduced; Blocks reduces it. */
    method Rotate()
      requires Valid()
      modifies this`rotationIndex
      ensures Valid()
      ensures Snapshot() == Rotated(old(Snapshot()))
    {
      var next := rotationIndex + 1;
      if !Collision(board, Blocks(current, position.row, position.col, next)) {
        rotationIndex := next;
      }
    }

    /** Let the piece fall while the row below is free, then drop once more, which settles it. */
    method HardDrop(next: nat)
      requires Valid() && next < |Tetrominoes|
      modifies this
      ensures Valid()
      ensures Snapshot() == HardDropped(old(Snapshot()), next)
    {
      ghost var land := Landing(board, current, position.row, position.col, rotationIndex);
      while !Collision(board, Blocks(current, position.row + 1, position.col, rotationIndex))
        invariant Valid()
        invariant board == old(board) && score == old(score) && current == old(current)
        invariant rotationIndex == old(rotationIndex) && position.col == old(position.col)
        invariant old(position.row) <= position.row <= land
        decreases land - position.row
      {
        assert position.row != land;
        position := position.(row := position.row + 1);
      }
      assert position.row == land;
      ghost var landed := Snapshot();
      assert landed == old(Snapshot()).(position := old(position).(row := land));
      Drop(next);
    }

    /** The cells of the falling piece in board coordinates, with its colour. */
    function ActiveBlocks(): (blocks: seq<Block>)
      reads this
      requires Valid()
      ensures |blocks| == 4
      ensures forall i :: 0 <= i < |blocks| ==>
        InBounds((blocks[i].row, blocks[i].column)) && board[blocks[i].row][blocks[i].column] == None &&
        blocks[i].color == current.color
    {
      var cells, color := Blocks(current, position.row, position.col, rotationIndex), current.color;
      assert forall i :: 0 <= i < |cells| ==> !Blocked(board, cells[i]);
      seq(|cells|, i requires 0 <= i < |cells| => Block(cells[i].0, cells[i].1, color))
    }

    /** A piece of kind `kind` (the random pick) at the spawn position in rotation 0; if it
        collides there, the game is over and restarts on an empty board with score 0. */
    method SpawnPiece(kind: nat)
      requires WellFormed(board) && score >= 0 && score % 100 == 0 && kind < |Tetrominoes|
      modifies this
      ensures Valid()
      ensures Snapshot() == Spawned(old(Snapshot()), kind)
    {
      current := Tetrominoes[kind];
      rotationIndex := 0;
      position := SpawnPosition;
      TetrominoesWellShaped();
      if Collision(board, Blocks(current, position.row, position.col, rotationIndex)) {
        board := EmptyBoard();
        score := 0;
      }
      SpawnedInv(old(Snapshot()), kind);
    }

    /** Write the colour of the piece into each of its cells that lies on the board. */
    method LockPiece()
      requires Sound(Snapshot())
      modifies this`board
      ensures Sound(Snapshot())
      ensures board == Locked(old(board), ActiveCells(Snapshot()), current.color)
    {
      var cells := Blocks(current, position.row, position.col, rotationIndex);
      for i := 0 to |cells|
        invariant WellFormed(board)
        invariant board == Locked(old(board), cells[..i], current.color)
      {
        var (r, c) := cells[i];
        assert cells[..i + 1][..i] == cells[..i];
        if 0 <= r < Rows && 0 <= c < Columns {
          board := board[r := board[r][c := Some(current.color)]];
        }
      }
      assert cells[..|cells|] == cells;
    }

    /** Keep the rows that are not full, 100 points for each full one, then pad the kept rows
        with empty rows at the top. */
    method ClearLines()
      requires WellFormed(board) && score >= 0 && score % 100 == 0
      modifies this`board, this`score
      ensures WellFormed(board) && score >= 0 && score % 100 == 0
      ensures board == Cleared(old(board))
      ensures score == old(score) + 100 * FullRowCount(old(board))
    {
      var newBoard: seq<Row> := [];
      for i := 0 to |board|
        invariant newBoard == NonFullRows(board[..i])
        invariant score == old(score) + 100 * FullRowCount(board[..i])
        modifies this`score
      {
        FilterStep(board, i);
        if Full(board[i]) {
          score := score + 100;
        } else {
          newBoard := newBoard + [board[i]];
        }
      }
      assert board[..|board|] == board;
      ghost var kept := newBoard;
      ghost var lines := FullRowCount(old(board));
      ScoreStep(old(score), lines, score);
      assert WellFormed(old(board)) && kept == NonFullRows(old(board)) && |kept| <= Rows;
      ghost var pad := 0;
      while |newBoard| < Rows
        invariant |newBoard| == pad + |kept| <= Rows
        invariant newBoard == EmptyRows(pad) + kept
        modifies {}
      {
        PadStep(pad, kept);
        newBoard := [EmptyRow()] + newBoard;
        pad := pad + 1;
      }
      assert newBoard == Cleared(old(board));
      board := newBoard;
    }
  }
}
