/** The seven tetrominoes and the placement of a piece on the grid. */
module Pieces {

  /** The colour a kind paints onto the board (one per kind). */
  datatype Color = Cyan | Yellow | Purple | Orange | Blue | Green | Red

  /** A (row, column) pair: an offset inside a rotation state, or a cell of the board. */
  type Cell = (int, int)

  /** A piece kind: its rotation states, each the offsets of its cells from the anchor, and its colour. */
  datatype Tetromino = Tetromino(rotations: seq<seq<Cell>>, color: Color)

  /** A kind has at least one rotation state, and every rotation state has exactly four offsets. */
  predicate WellShaped(p: Tetromino)
  {
    |p.rotations| > 0 && forall i :: 0 <= i < |p.rotations| ==> |p.rotations[i]| == 4
  }

  /** The catalogue, in the order I, O, T, L, J, S, Z. */
  const Tetrominoes: seq<Tetromino> := [
    Tetromino([[(0, 0), (0, 1), (0, 2), (0, 3)],
               [(-1, 1), (0, 1), (1, 1), (2, 1)]], Cyan),
    Tetromino([[(0, 0), (0, 1), (1, 0), (1, 1)]], Yellow),
    Tetromino([[(0, 1), (1, 0), (1, 1), (1, 2)],
               [(0, 1), (1, 1), (1, 2), (2, 1)],
               [(1, 0), (1, 1), (1, 2), (2, 1)],
               [(0, 1), (1, 0), (1, 1), (2, 1)]], Purple),
    Tetromino([[(0, 2), (1, 0), (1, 1), (1, 2)],
               [(0, 1), (0, 2), (1, 1), (2, 1)],
               [(1, 0), (1, 1), (1, 2), (2, 0)],
               [(0, 1), (1, 1), (2, 1), (2, 2)]], Orange),
    Tetromino([[(0, 0), (1, 0), (1, 1), (1, 2)],
               [(0, 1), (0, 2), (1, 1), (2, 1)],
               [(1, 0), (1, 1), (1, 2), (2, 2)],
               [(0, 1), (1, 1), (2, 0), (2, 1)]], Blue),
    Tetromino([[(0, 1), (0, 2), (1, 0), (1, 1)],
               [(0, 0), (1, 0), (1, 1), (2, 1)]], Green),
    Tetromino([[(0, 0), (0, 1), (1, 1), (1, 2)],
               [(0, 1), (1, 0), (1, 1), (2, 0)]], Red)
  ]

  /** The board cells a piece covers when its anchor is at (row, col) in the given rotation.
      The rotation index is reduced modulo the number of rotation states, so it may grow without bound. */
  function Blocks(p: Tetromino, row: int, col: int, rotation: nat): (cells: seq<Cell>)
    requires |p.rotations| > 0
    ensures WellShaped(p) ==> |cells| == 4
  {
    var shape := p.rotations[rotation % |p.rotations|];
    seq(|shape|, i requires 0 <= i < |shape| => (shape[i].0 + row, shape[i].1 + col))
  }

  /** Every rotation state of every kind in the catalogue has exactly four offsets. */
  lemma TetrominoesWellShaped()
    ensures forall k :: 0 <= k < |Tetrominoes| ==> WellShaped(Tetrominoes[k])
  {
  }

  /** The rotation-0 state of every kind lies in rows 0..1 and columns 0..3 of its anchor. */
  lemma SpawnShapeInBox(k: nat)
    requires k < |Tetrominoes|
    ensures |Tetrominoes[k].rotations| > 0
    ensures forall i :: 0 <= i < |Tetrominoes[k].rotations[0]| ==>
      0 <= Tetrominoes[k].rotations[0][i].0 <= 1 && 0 <= Tetrominoes[k].rotations[0][i].1 <= 3
  {
  }

  /** Adding the number of rotation states to the rotation index places the piece on the same cells. */
  lemma BlocksPeriodic(p: Tetromino, row: int, col: int, rotation: nat)
    requires |p.rotations| > 0
    ensures Blocks(p, row, col, rotation + |p.rotations|) == Blocks(p, row, col, rotation)
  {
    ModShift(rotation, |p.rotations|);
  }

  /** Euclidean remainder is periodic with its modulus. */
  lemma ModShift(a: nat, n: nat)
    requires n > 0
    ensures (a + n) % n == a % n
  {
    ModUnique(a + n, n, a / n + 1, a % n);
  }

  /** The remainder is the only r in [0, n) with a == q * n + r. */
  lemma ModUnique(a: int, n: int, q: int, r: int)
    requires n > 0 && 0 <= r < n && a == q * n + r
    ensures a % n == r
  {
    var q0, r0 := a / n, a % n;
    assert (q - q0) * n == r0 - r by {
      assert q * n - q0 * n == (q - q0) * n;
    }
    if q - q0 >= 1 {
      MulAtLeast(q - q0, n);
    } else if q0 - q >= 1 {
      MulAtLeast(q0 - q, n);
    }
  }

  lemma MulAtLeast(x: int, n: int)
    requires x >= 1 && n > 0
    ensures x * n >= n
  {
  }

  /** Moving the anchor by (dr, dc) moves every covered cell by (dr, dc). */
  lemma BlocksTranslate(p: Tetromino, row: int, col: int, rotation: nat, dr: int, dc: int)
    requires |p.rotations| > 0
    ensures var before, after := Blocks(p, row, col, rotation), Blocks(p, row + dr, col + dc, rotation);
      |after| == |before| &&
      forall i :: 0 <= i < |after| ==> after[i] == (before[i].0 + dr, before[i].1 + dc)
  {
  }
}
