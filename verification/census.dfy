/** The number of live cells on a board (GameOfLife.countTotalAlive). */
module Census {
  import opened Grid

  /** Live cells in one row, counted from the last cell backwards. */
  function RowCensus(cells: seq<Cell>): (n: nat)
    ensures n <= |cells|
  {
    if |cells| == 0 then 0
    else RowCensus(cells[..|cells| - 1]) + (if cells[|cells| - 1] == Alive then 1 else 0)
  }

  /** Live cells in a sequence of rows, counted from the last row backwards. */
  function RowsCensus(rows: seq<seq<Cell>>): nat
  {
    if |rows| == 0 then 0
    else RowsCensus(rows[..|rows| - 1]) + RowCensus(rows[|rows| - 1])
  }

  /** The number of live cells on the board. */
  function Census(b: Board): nat
  {
    RowsCensus(b.cells)
  }

  /** The game's nested loops over rows and columns. */
  method CountTotalAlive(b: Board) returns (total: nat)
    ensures total == Census(b)
    ensures total == |AliveCells(b)|
    ensures total <= b.width * b.height
  {
    total := 0;
    var row := 0;
    while row < b.height
      invariant 0 <= row <= b.height
      invariant total == RowsCensus(b.cells[..row])
    {
      var col := 0;
      while col < b.width
        invariant 0 <= col <= b.width
        invariant total == RowsCensus(b.cells[..row]) + RowCensus(b.cells[row][..col])
      {
        assert b.cells[row][..col + 1][..col] == b.cells[row][..col];
        if At(b, row, col) == Alive {
          total := total + 1;
        }
        col := col + 1;
      }
      assert b.cells[row][..col] == b.cells[row];
      assert b.cells[..row + 1][..row] == b.cells[..row];
      row := row + 1;
    }
    assert b.cells[..row] == b.cells;
    CensusCountsAliveCells(b);
    CensusBound(b);
  }

  /** The positions of the live cells. */
  ghost function AliveCells(b: Board): set<(int, int)>
  {
    set r, c | 0 <= r < b.height && 0 <= c < b.width && At(b, r, c) == Alive :: (r, c)
  }

  /** Live positions of row `k` among its first `j` columns. */
  ghost function RowAliveCells(b: Board, k: int, j: int): set<(int, int)>
    requires 0 <= k < b.height && 0 <= j <= b.width
  {
    set c | 0 <= c < j && At(b, k, c) == Alive :: (k, c)
  }

  /** Live positions of the first `k` rows. */
  ghost function RowsAliveCells(b: Board, k: int): set<(int, int)>
    requires 0 <= k <= b.height
  {
    set r, c | 0 <= r < k && 0 <= c < b.width && At(b, r, c) == Alive :: (r, c)
  }

  lemma {:induction false} RowCensusCounts(b: Board, k: int, j: int)
    requires 0 <= k < b.height && 0 <= j <= b.width
    ensures RowCensus(b.cells[k][..j]) == |RowAliveCells(b, k, j)|
  {
    if j > 0 {
      RowCensusCounts(b, k, j - 1);
      assert b.cells[k][..j][..j - 1] == b.cells[k][..j - 1];
      if At(b, k, j - 1) == Alive {
        assert RowAliveCells(b, k, j) == RowAliveCells(b, k, j - 1) + {(k, j - 1)};
      } else {
        assert RowAliveCells(b, k, j) == RowAliveCells(b, k, j - 1);
      }
    } else {
      assert RowAliveCells(b, k, j) == {};
    }
  }

  lemma {:induction false} RowsCensusCounts(b: Board, k: int)
    requires 0 <= k <= b.height
    ensures RowsCensus(b.cells[..k]) == |RowsAliveCells(b, k)|
  {
    if k > 0 {
      RowsCensusCounts(b, k - 1);
      RowCensusCounts(b, k - 1, b.width);
      assert b.cells[..k][..k - 1] == b.cells[..k - 1];
      assert b.cells[k - 1][..b.width] == b.cells[k - 1];
      var front := RowsAliveCells(b, k - 1);
      var last := RowAliveCells(b, k - 1, b.width);
      assert RowsAliveCells(b, k) == front + last;
      assert front * last == {};
    } else {
      assert RowsAliveCells(b, k) == {};
    }
  }

  /** The census is the number of live positions on the board. */
  lemma CensusCountsAliveCells(b: Board)
    ensures Census(b) == |AliveCells(b)|
  {
    RowsCensusCounts(b, b.height);
    assert b.cells[..b.height] == b.cells;
    assert RowsAliveCells(b, b.height) == AliveCells(b);
  }

  lemma {:induction false} RowsCensusBound(rows: seq<seq<Cell>>, width: nat)
    requires forall r | 0 <= r < |rows| :: |rows[r]| == width
    ensures RowsCensus(rows) <= |rows| * width
  {
    if |rows| > 0 {
      RowsCensusBound(rows[..|rows| - 1], width);
      assert |rows[|rows| - 1]| == width;
    }
  }

  /** The census never exceeds the number of cells. */
  lemma CensusBound(b: Board)
    ensures Census(b) <= b.width * b.height
  {
    RowsCensusBound(b.cells, b.width);
  }

  /** Bringing one cell to life adds one to the census if it was dead, and
      nothing if it was already alive. */
  lemma CensusAfterBirth(b: Board, row: int, col: int)
    requires b.InBounds(row, col)
    ensures Census(Set(b, row, col, Alive)) == Census(b) + (if At(b, row, col) == Dead then 1 else 0)
  {
    var b' := Set(b, row, col, Alive);
    CensusCountsAliveCells(b);
    CensusCountsAliveCells(b');
    assert AliveCells(b') == AliveCells(b) + {(row, col)};
  }

  /** An all-dead board has no live cells; one birth on it makes one. */
  lemma AllDeadCensus(width: nat, height: nat, row: int, col: int)
    ensures Census(Create(width, height, Dead)) == 0
    ensures 0 <= row < height && 0 <= col < width ==>
      Census(Set(Create(width, height, Dead), row, col, Alive)) == 1
  {
    var b := Create(width, height, Dead);
    CensusCountsAliveCells(b);
    assert AliveCells(b) == {};
    if 0 <= row < height && 0 <= col < width {
      CensusAfterBirth(b, row, col);
    }
  }
}
