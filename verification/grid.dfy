/**
  The game board: a fixed-size rectangular grid of cell states, indexed
  zero-based by (row, col) with row in [0, height) and col in [0, width).
  The board's own container class is not part of this model; it is
  described here only by what the game relies on: construction with a fill
  value, a lookup that fails off the board, and a single-cell update.
 */
module Grid {
  import opened Wrappers

  /** The state of one cell. The game stores the string "O" for a live cell
      and " " for a dead one; any string other than "O" reads as dead. */
  datatype Cell = Alive | Dead

  /** The string the game stores on the board for a cell state. */
  function Marker(c: Cell): string
  {
    if c == Alive then "O" else " "
  }

  /** How the game reads a stored string: only "O" is alive. */
  function FromMarker(s: string): Cell
  {
    if s == "O" then Alive else Dead
  }

  /** Reading back a stored marker gives the state that was stored, and a
      string survives the trip through a cell state exactly when it is one
      of the two markers the game writes. */
  lemma MarkerRoundTrip(c: Cell, s: string)
    ensures FromMarker(Marker(c)) == c
    ensures FromMarker(s) == Alive <==> s == "O"
    ensures Marker(FromMarker(s)) == s <==> s == "O" || s == " "
  {
  }

  /** A height × width grid, stored row by row. */
  datatype Matrix = Matrix(width: nat, height: nat, cells: seq<seq<Cell>>)
  {
    /** Rectangular: `height` rows, each of `width` cells. */
    predicate Valid()
    {
      && |cells| == height
      && forall r :: 0 <= r < |cells| ==> |cells[r]| == width
    }

    /** True when (row, col) names a cell of the grid. */
    predicate InBounds(row: int, col: int)
    {
      0 <= row < height && 0 <= col < width
    }
  }

  /** Every board the game handles is rectangular. */
  type Board = m: Matrix | m.Valid() witness Matrix(0, 0, [])

  /** The state of an in-bounds cell. */
  function At(b: Board, row: int, col: int): Cell
    requires b.InBounds(row, col)
  {
    b.cells[row][col]
  }

  /** A new board with every cell set to `fill`. */
  function Create(width: nat, height: nat, fill: Cell): (b: Board)
    ensures b.width == width && b.height == height
    ensures forall row, col | b.InBounds(row, col) :: At(b, row, col) == fill
  {
    Matrix(width, height, seq(height, _ => seq(width, _ => fill)))
  }

  /** Bounds-checked lookup: `None` exactly for a position off the board,
      where the game's container raises an out-of-bounds error. */
  function Get(b: Board, row: int, col: int): (r: Option<Cell>)
    ensures r.None? <==> !b.InBounds(row, col)
    ensures r.Some? ==> r.value == b.cells[row][col]
  {
    if b.InBounds(row, col) then Some(b.cells[row][col]) else None
  }

  /** The board with one in-bounds cell replaced; nothing else changes. */
  function Set(b: Board, row: int, col: int, x: Cell): (r: Board)
    requires b.InBounds(row, col)
    ensures r.width == b.width && r.height == b.height
    ensures At(r, row, col) == x
    ensures forall i, j | b.InBounds(i, j) && (i, j) != (row, col) :: At(r, i, j) == At(b, i, j)
  {
    Matrix(b.width, b.height, b.cells[row := b.cells[row][col := x]])
  }

  /** Two boards of the same size that agree on every cell are equal. */
  lemma BoardsEqual(a: Board, b: Board)
    requires a.width == b.width && a.height == b.height
    requires forall row, col | a.InBounds(row, col) :: At(a, row, col) == At(b, row, col)
    ensures a == b
  {
    forall row | 0 <= row < a.height ensures a.cells[row] == b.cells[row] {
      forall col | 0 <= col < a.width ensures a.cells[row][col] == b.cells[row][col] {
        assert At(a, row, col) == At(b, row, col);
      }
    }
  }
}
