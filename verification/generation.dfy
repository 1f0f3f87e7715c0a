/**
  One step of the automaton (GameOfLife.nextGeneration): every cell of a
  fresh board of the same size is computed from the old board's state of
  that cell and its live-neighbour count.
 */
module Generation {
  import opened Wrappers
  import opened Grid
  import opened Neighbours

  /** The fate of one cell, as the game's branches decide it. */
  function Rule(c: Cell, n: nat): Cell
  {
    if c == Alive then
      if n < 2 || n > 3 then Dead else Alive
    else
      if n == 3 then Alive else Dead
  }

  /** The four rules of the game as its instructions state them, plus the
      unstated default that any other dead cell stays dead. */
  lemma ConwayRules(c: Cell, n: nat)
    ensures c == Alive && n < 2 ==> Rule(c, n) == Dead             // underpopulation
    ensures c == Alive && (n == 2 || n == 3) ==> Rule(c, n) == Alive // survival
    ensures c == Alive && n > 3 ==> Rule(c, n) == Dead             // overpopulation
    ensures c == Dead && n == 3 ==> Rule(c, n) == Alive            // reproduction
    ensures c == Dead && n != 3 ==> Rule(c, n) == Dead
  {
  }

  /** The next state of an in-bounds cell, read entirely from the old board. */
  function NextState(b: Board, row: int, col: int): Cell
    requires b.InBounds(row, col)
  {
    Rule(At(b, row, col), NeighbourCount(b, row, col))
  }

  /** The successor board: same size, every cell given by `NextState`. */
  function Successor(b: Board): (r: Board)
    ensures r.width == b.width && r.height == b.height
    ensures forall row, col | b.InBounds(row, col) :: At(r, row, col) == NextState(b, row, col)
  {
    Matrix(b.width, b.height,
      seq(b.height, row requires 0 <= row < b.height =>
        seq(b.width, col requires 0 <= col < b.width => NextState(b, row, col))))
  }

  /** The game's nested loops: start from an all-dead board of the same size
      and set each cell from the old board's state and neighbour count. */
  method NextGeneration(b: Board) returns (r: Board)
    ensures r.width == b.width && r.height == b.height
    ensures forall row, col | b.InBounds(row, col) ::
      At(r, row, col) == Alive <==>
        if At(b, row, col) == Alive
        then NeighbourCount(b, row, col) == 2 || NeighbourCount(b, row, col) == 3
        else NeighbourCount(b, row, col) == 3
    ensures r == Successor(b)
  {
    r := Create(b.width, b.height, Dead);
    var row := 0;
    while row < b.height
      invariant 0 <= row <= b.height
      invariant r.width == b.width && r.height == b.height
      invariant forall i, j | 0 <= i < row && 0 <= j < b.width :: At(r, i, j) == NextState(b, i, j)
    {
      var col := 0;
      while col < b.width
        invariant 0 <= col <= b.width
        invariant r.width == b.width && r.height == b.height
        invariant forall i, j | 0 <= i < row && 0 <= j < b.width :: At(r, i, j) == NextState(b, i, j)
        invariant forall j | 0 <= j < col :: At(r, row, j) == NextState(b, row, j)
      {
        var aliveNeighbors := CountAliveNeighbors(b, row, col);
        var currentCell := At(b, row, col);
        if currentCell == Alive {
          if aliveNeighbors < 2 || aliveNeighbors > 3 {
            r := Set(r, row, col, Dead);
          } else {
            r := Set(r, row, col, Alive);
          }
        } else {
          if aliveNeighbors == 3 {
            r := Set(r, row, col, Alive);
          } else {
            r := Set(r, row, col, Dead);
          }
        }
        col := col + 1;
      }
      row := row + 1;
    }
    BoardsEqual(r, Successor(b));
  }

  /** A live cell survives exactly when it has two or three live neighbours. */
  lemma LiveCellFate(b: Board, row: int, col: int)
    requires b.InBounds(row, col) && At(b, row, col) == Alive
    ensures At(Successor(b), row, col) == Alive <==>
      NeighbourCount(b, row, col) == 2 || NeighbourCount(b, row, col) == 3
  {
  }

  /** A dead cell comes alive exactly when it has three live neighbours. */
  lemma DeadCellFate(b: Board, row: int, col: int)
    requires b.InBounds(row, col) && At(b, row, col) == Dead
    ensures At(Successor(b), row, col) == Alive <==> NeighbourCount(b, row, col) == 3
  {
  }

  /** Each new cell depends only on the old 3×3 window around it: boards
      that agree there (including on which positions are off the board)
      give the same new state. */
  lemma SuccessorIsLocal(b1: Board, b2: Board, row: int, col: int)
    requires b1.InBounds(row, col) && b2.InBounds(row, col)
    requires forall r, c | row - 1 <= r <= row + 1 && col - 1 <= c <= col + 1 ::
      Get(b1, r, c) == Get(b2, r, c)
    ensures At(Successor(b1), row, col) == At(Successor(b2), row, col)
  {
    NeighbourCountIsLocal(b1, b2, row, col);
    assert Get(b1, row, col) == Get(b2, row, col);
  }

  /** An all-dead board of any size is a fixed point. */
  lemma AllDeadIsFixedPoint(width: nat, height: nat)
    ensures Successor(Create(width, height, Dead)) == Create(width, height, Dead)
  {
    var b := Create(width, height, Dead);
    forall row, col | b.InBounds(row, col)
      ensures At(Successor(b), row, col) == At(b, row, col)
    {
      NeighbourCountUnfolded(b, row, col);
    }
    BoardsEqual(Successor(b), b);
  }

  /** The whole transition stated without the probe sum: a cell is alive in
      the next generation iff it is alive with two or three live cells
      around it, or dead with exactly three. */
  lemma SuccessorByLiveNeighbours(b: Board, row: int, col: int)
    requires b.InBounds(row, col)
    ensures At(Successor(b), row, col) == Alive <==>
      || (At(b, row, col) == Alive && |LiveNeighbours(b, row, col)| in {2, 3})
      || (At(b, row, col) == Dead && |LiveNeighbours(b, row, col)| == 3)
  {
    NeighbourCountIsLiveNeighbours(b, row, col);
  }
}
