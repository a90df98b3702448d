/** The 20 x 10 board of locked cells: collision test, locking and line clearing. */
module Grid {
  import opened Pieces

  datatype Option<T> = None | Some(value: T)

  const Rows := 20
  const Columns := 10

  /** A board row: each cell is empty (None) or holds the colour of the piece locked there. */
  type Row = seq<Option<Color>>
  type Board = seq<Row>

  /** The board has exactly Rows rows of exactly Columns cells. */
  predicate WellFormed(b: Board)
  {
    |b| == Rows && forall r :: 0 <= r < |b| ==> |b[r]| == Columns
  }

  function EmptyRow(): Row
  {
    seq(Columns, _ => None)
  }

  function EmptyRows(n: nat): seq<Row>
  {
    seq(n, _ => EmptyRow())
  }

  /** The board a new game starts with, and the one a game over leaves behind. */
  function EmptyBoard(): (b: Board)
    ensures WellFormed(b)
    ensures forall r, c :: 0 <= r < Rows && 0 <= c < Columns ==> b[r][c] == None
  {
    EmptyRows(Rows)
  }

  predicate InBounds(cell: Cell)
  {
    0 <= cell.0 < Rows && 0 <= cell.1 < Columns
  }

  /** A cell a piece may not occupy: outside the board (a negative row included) or already filled. */
  predicate Blocked(b: Board, cell: Cell)
    requires WellFormed(b)
  {
    var (r, c) := cell;
    r < 0 || r >= Rows || c < 0 || c >= Columns || b[r][c] != None
  }

  /** The scan of the piece's cells, stopping at the first blocked one. */
  function Collision(b: Board, cells: seq<Cell>): (hit: bool)
    requires WellFormed(b)
    ensures hit <==> exists i :: 0 <= i < |cells| && Blocked(b, cells[i])
  {
    if cells == [] then false
    else if Blocked(b, cells[0]) then true
    else
      assert forall i :: 1 <= i < |cells| ==> cells[i] == cells[1..][i - 1];
      Collision(b, cells[1..])
  }

  /** The board after writing the colour into the given cells one after the other,
      skipping any cell outside the board. */
  function Locked(b: Board, cells: seq<Cell>, color: Color): (r: Board)
    requires WellFormed(b)
    ensures WellFormed(r)
    decreases |cells|
  {
    if cells == [] then b
    else
      var rest := Locked(b, cells[..|cells| - 1], color);
      var (row, col) := cells[|cells| - 1];
      if 0 <= row < Rows && 0 <= col < Columns then rest[row := rest[row][col := Some(color)]]
      else rest
  }

  /** Locking paints exactly the in-bounds cells of the piece and leaves every other cell as it was. */
  lemma {:induction false} LockedCells(b: Board, cells: seq<Cell>, color: Color)
    requires WellFormed(b)
    ensures var r := Locked(b, cells, color);
      forall row, col :: 0 <= row < Rows && 0 <= col < Columns ==>
        r[row][col] == if (row, col) in cells then Some(color) else b[row][col]
    decreases |cells|
  {
    if cells != [] {
      var init := cells[..|cells| - 1];
      LockedCells(b, init, color);
      assert forall cell :: cell in cells <==> cell in init || cell == cells[|cells| - 1];
    }
  }

  /** Every cell of the row is filled. */
  predicate Full(row: Row)
  {
    forall c :: 0 <= c < |row| ==> row[c] != None
  }

  /** The rows that are not full, in their original order. */
  function NonFullRows(b: seq<Row>): (kept: seq<Row>)
    ensures |kept| <= |b|
  {
    if b == [] then []
    else
      var last := b[|b| - 1];
      if Full(last) then NonFullRows(b[..|b| - 1]) else NonFullRows(b[..|b| - 1]) + [last]
  }

  /** A row is kept exactly when it is a row of the board and not full. */
  lemma {:induction false} NonFullRowsMembers(b: seq<Row>)
    ensures forall row :: row in NonFullRows(b) <==> row in b && !Full(row)
    decreases |b|
  {
    if b != [] {
      NonFullRowsMembers(b[..|b| - 1]);
      assert forall row :: row in b <==> row in b[..|b| - 1] || row == b[|b| - 1];
    }
  }

  /** The number of full rows. */
  function FullRowCount(b: seq<Row>): (n: nat)
    ensures n + |NonFullRows(b)| == |b|
  {
    if b == [] then 0
    else (if Full(b[|b| - 1]) then 1 else 0) + FullRowCount(b[..|b| - 1])
  }

  /** One more row of the board: kept if it is not full, counted if it is. */
  lemma FilterStep(b: seq<Row>, i: nat)
    requires i < |b|
    ensures NonFullRows(b[..i + 1]) == NonFullRows(b[..i]) + if Full(b[i]) then [] else [b[i]]
    ensures FullRowCount(b[..i + 1]) == FullRowCount(b[..i]) + if Full(b[i]) then 1 else 0
  {
    assert b[..i + 1][..i] == b[..i];
  }

  /** One more empty row on top of n empty rows and the kept rows. */
  lemma PadStep(n: nat, kept: seq<Row>)
    ensures [EmptyRow()] + (EmptyRows(n) + kept) == EmptyRows(n + 1) + kept
  {
    assert [EmptyRow()] + EmptyRows(n) == EmptyRows(n + 1);
  }

  /** The board after removing every full row and padding with empty rows at the top. */
  function Cleared(b: Board): (r: Board)
    requires WellFormed(b)
    ensures WellFormed(r)
  {
    var kept := NonFullRows(b);
    NonFullRowsMembers(b);
    assert forall i :: 0 <= i < |kept| ==> kept[i] in b;
    EmptyRows(Rows - |kept|) + kept
  }

  /** After a line clear no row is full; the kept rows sit at the bottom in their original
      order, and the rows above them are empty. */
  lemma ClearedRows(b: Board)
    requires WellFormed(b)
    ensures var r, kept := Cleared(b), NonFullRows(b);
      (forall i :: 0 <= i < Rows ==> !Full(r[i])) &&
      r[Rows - |kept|..] == kept &&
      forall i :: 0 <= i < Rows - |kept| ==> r[i] == EmptyRow()
  {
    var r, kept := Cleared(b), NonFullRows(b);
    NonFullRowsMembers(b);
    assert forall i :: Rows - |kept| <= i < Rows ==> r[i] == kept[i - (Rows - |kept|)];
    assert !Full(EmptyRow()) by { assert EmptyRow()[0] == None; }
  }

  /** Filtering distributes over concatenation: the kept rows keep their relative order. */
  lemma {:induction false} NonFullRowsAppend(b1: seq<Row>, b2: seq<Row>)
    ensures NonFullRows(b1 + b2) == NonFullRows(b1) + NonFullRows(b2)
    decreases |b2|
  {
    if b2 == [] {
      assert b1 + b2 == b1;
    } else {
      var init := b2[..|b2| - 1];
      assert (b1 + b2)[..|b1 + b2| - 1] == b1 + init;
      NonFullRowsAppend(b1, init);
    }
  }

  /** A board without full rows is left as it is by a line clear. */
  lemma {:induction false} NonFullRowsAllKept(b: seq<Row>)
    requires forall i :: 0 <= i < |b| ==> !Full(b[i])
    ensures NonFullRows(b) == b
    decreases |b|
  {
    if b != [] {
      NonFullRowsAllKept(b[..|b| - 1]);
    }
  }

  lemma ClearedWithoutFullRows(b: Board)
    requires WellFormed(b)
    requires forall i :: 0 <= i < Rows ==> !Full(b[i])
    ensures Cleared(b) == b
    ensures FullRowCount(b) == 0
  {
    NonFullRowsAllKept(b);
  }
}
