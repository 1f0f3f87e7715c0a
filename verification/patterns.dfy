/** Concrete boards: the blinker, the period-2 oscillator of the game. */
module Patterns {
  import opened Grid
  import opened Neighbours
  import opened Generation

  /** A width × height board whose live cells are exactly `live`. */
  function WithLive(width: nat, height: nat, live: set<(int, int)>): (b: Board)
    ensures b.width == width && b.height == height
    ensures forall row, col | b.InBounds(row, col) :: At(b, row, col) == Alive <==> (row, col) in live
  {
    Matrix(width, height,
      seq(height, row => seq(width, col => if (row, col) in live then Alive else Dead)))
  }

  const Horizontal: set<(int, int)> := {(2, 1), (2, 2), (2, 3)}
  const Vertical: set<(int, int)> := {(1, 2), (2, 2), (3, 2)}

  /** A probe of a `WithLive` board hits exactly the on-board live set. */
  lemma AliveAtWithLive(width: nat, height: nat, live: set<(int, int)>, row: int, col: int)
    ensures AliveAt(WithLive(width, height, live), row, col) ==
      if 0 <= row < height && 0 <= col < width && (row, col) in live then 1 else 0
  {
  }

  /** The neighbour count of (row, col) on a 5 × 5 board with live set `live`. */
  lemma CountOnFive(live: set<(int, int)>, row: int, col: int)
    ensures NeighbourCount(WithLive(5, 5, live), row, col) ==
      Probe(live, row - 1, col - 1) + Probe(live, row - 1, col) + Probe(live, row - 1, col + 1) +
      Probe(live, row, col - 1) + Probe(live, row, col + 1) +
      Probe(live, row + 1, col - 1) + Probe(live, row + 1, col) + Probe(live, row + 1, col + 1)
  {
    var b := WithLive(5, 5, live);
    NeighbourCountUnfolded(b, row, col);
    AliveAtWithLive(5, 5, live, row - 1, col - 1);
    AliveAtWithLive(5, 5, live, row - 1, col);
    AliveAtWithLive(5, 5, live, row - 1, col + 1);
    AliveAtWithLive(5, 5, live, row, col - 1);
    AliveAtWithLive(5, 5, live, row, col + 1);
    AliveAtWithLive(5, 5, live, row + 1, col - 1);
    AliveAtWithLive(5, 5, live, row + 1, col);
    AliveAtWithLive(5, 5, live, row + 1, col + 1);
  }

  function Probe(live: set<(int, int)>, row: int, col: int): nat
  {
    if 0 <= row < 5 && 0 <= col < 5 && (row, col) in live then 1 else 0
  }

  lemma BlinkerShapes()
    ensures forall r, c :: (r, c) in Horizontal <==> r == 2 && 1 <= c <= 3
    ensures forall r, c :: (r, c) in Vertical <==> c == 2 && 1 <= r <= 3
  {
  }

  /** Each cell of the turned blinker, one row of the board at a time. */
  lemma HorizontalBlinkerCell(row: int, col: int)
    requires 0 <= row < 5 && 0 <= col < 5
    ensures NextState(WithLive(5, 5, Horizontal), row, col) == At(WithLive(5, 5, Vertical), row, col)
  {
    CountOnFive(Horizontal, row, col);
    BlinkerShapes();
    assert col == 0 || col == 1 || col == 2 || col == 3 || col == 4;
    if row == 0 {
    } else if row == 1 {
    } else if row == 2 {
    } else if row == 3 {
    } else {
    }
  }

  /** A horizontal blinker becomes vertical after one generation. */
  lemma HorizontalBlinkerTurns()
    ensures Successor(WithLive(5, 5, Horizontal)) == WithLive(5, 5, Vertical)
  {
    var b := WithLive(5, 5, Horizontal);
    var v := WithLive(5, 5, Vertical);
    forall row, col | b.InBounds(row, col)
      ensures At(Successor(b), row, col) == At(v, row, col)
    {
      HorizontalBlinkerCell(row, col);
    }
    BoardsEqual(Successor(b), v);
  }

  lemma VerticalBlinkerCell(row: int, col: int)
    requires 0 <= row < 5 && 0 <= col < 5
    ensures NextState(WithLive(5, 5, Vertical), row, col) == At(WithLive(5, 5, Horizontal), row, col)
  {
    CountOnFive(Vertical, row, col);
    BlinkerShapes();
    assert col == 0 || col == 1 || col == 2 || col == 3 || col == 4;
    if row == 0 {
    } else if row == 1 {
    } else if row == 2 {
    } else if row == 3 {
    } else {
    }
  }

  /** A vertical blinker becomes horizontal after one generation. */
  lemma VerticalBlinkerTurns()
    ensures Successor(WithLive(5, 5, Vertical)) == WithLive(5, 5, Horizontal)
  {
    var b := WithLive(5, 5, Vertical);
    var h := WithLive(5, 5, Horizontal);
    forall row, col | b.InBounds(row, col)
      ensures At(Successor(b), row, col) == At(h, row, col)
    {
      VerticalBlinkerCell(row, col);
    }
    BoardsEqual(Successor(b), h);
  }

  /** The blinker is an oscillator of period two. */
  lemma BlinkerHasPeriodTwo()
    ensures Successor(WithLive(5, 5, Horizontal)) != WithLive(5, 5, Horizontal)
    ensures Successor(Successor(WithLive(5, 5, Horizontal))) == WithLive(5, 5, Horizontal)
  {
    HorizontalBlinkerTurns();
    VerticalBlinkerTurns();
    BlinkerShapes();
    assert At(WithLive(5, 5, Vertical), 1, 2) == Alive;
    assert At(WithLive(5, 5, Horizontal), 1, 2) == Dead;
  }
}
