# Conway's Game of Life engine, in Dafny

This project models the simulation engine of a terminal Game of Life
(`GameOfLife.java`). The engine runs on a finite rectangular board whose
cells are alive or dead, and it has three parts:

- the **neighbour counter** (`countAliveNeighbors`). It counts the live
  cells among the eight Moore-neighbourhood positions of a cell. A
  position off the board counts as dead, and the board does not wrap
  around.
- the **generation transition** (`nextGeneration`). It builds a fresh
  board of the same size. Each new cell comes from the old cell's state
  and its live-neighbour count, under the four rules of the game:
  underpopulation, survival, overpopulation and reproduction.
- the **census** (`countTotalAlive`). It counts the live cells on the
  board.

Modules:

- `Wrappers` (`wrappers.dfy`): the `Option` type.
- `Grid` (`grid.dfy`): cell states and the board. The board is an
  immutable `height × width` grid (`Board`, a rectangular `Matrix`). It
  has construction with a fill value, a bounds-checked lookup that returns
  `None` off the board, and a single-cell update.
- `Neighbours` (`neighbours.dfy`): the count as a pure function, plus the
  game's nested `dr`/`dc` loops as a method proved equal to it. It also
  proves an independent characterisation: the count is the size of the
  set of live on-board positions within one step, other than the cell
  itself.
- `Generation` (`generation.dfy`): the rule, the successor board, and the
  game's nested row/column loops as a method proved equal to it. It also
  proves the cell-fate, locality and all-dead lemmas.
- `Census` (`census.dfy`): the census, the loop method, and a proof that
  it equals the number of live positions.
- `Patterns` (`patterns.dfy`): the 5 × 5 blinker, which oscillates with
  period two.

The game stores the string `"O"` for a live cell and `" "` for a dead one,
and reads any string other than `"O"` as dead. The model keeps cell states
as the `Cell` datatype. `Grid.Marker` and `Grid.FromMarker` give the
translation to and from those strings.

The Java counter finds off-board positions by catching
`IndexOutOfBoundsException` from the board's lookup. The model replaces
this with `Grid.Get`, which returns `None` off the board, and that probe
contributes 0. The game's board is a mutable container that
`nextGeneration` fills in place. The model threads an immutable `Board`
value through the same loops. The input board is a value, so the
transition cannot change it. Every count is read from that input.

## Model

| member | source | states |
|---|---|---|
| Grid.MarkerRoundTrip | src/main/java/edu/grinnell/csc207/sample/GameOfLife.java:136-147 | Reading back a stored marker gives the stored state. Only `"O"` reads as alive. A string survives the round trip through a cell state iff it is `"O"` or `" "`. |
| Grid.Create | src/main/java/edu/grinnell/csc207/sample/GameOfLife.java:131 | A new board has the requested width and height, and every cell holds the fill value. |
| Grid.Get | src/main/java/edu/grinnell/csc207/sample/GameOfLife.java:111-117 | A lookup fails (`None`) exactly when the position is off the board. Otherwise it returns that cell's state. |
| Grid.Set | src/main/java/edu/grinnell/csc207/sample/GameOfLife.java:138-146 | Setting an in-bounds cell keeps the dimensions and gives that cell the new state. Every other cell is unchanged. |
| Neighbours.AliveAt | src/main/java/edu/grinnell/csc207/sample/GameOfLife.java:111-117 | One probe contributes at most 1. It contributes 1 exactly when the position is on the board and alive, so an off-board position contributes 0. |
| Neighbours.NeighbourCount | src/main/java/edu/grinnell/csc207/sample/GameOfLife.java:104-121 | The count is defined for every position, on the board or not, and is at most 8. |
| Neighbours.CountAliveNeighbors | src/main/java/edu/grinnell/csc207/sample/GameOfLife.java:104-121 | The nested `dr`/`dc` loops, which skip (0, 0) and check bounds, return exactly the neighbour count, which is at most 8. |
| Neighbours.OffsetsAreTheNeighbourhood | src/main/java/edu/grinnell/csc207/sample/GameOfLife.java:106-108 | The visited offsets are exactly the pairs in {-1, 0, 1}² other than (0, 0). |
| Neighbours.NeighbourCountIsLiveNeighbours | src/main/java/edu/grinnell/csc207/sample/GameOfLife.java:106-117 | The count equals the number of live on-board positions at most one step away in each direction, excluding the cell itself. |
| Neighbours.NeighbourCountUnfolded | src/main/java/edu/grinnell/csc207/sample/GameOfLife.java:106-117 | The count is the sum of the eight probes (row ± 1, col ± 1) other than the cell itself. |
| Neighbours.NeighbourCountIsLocal | src/main/java/edu/grinnell/csc207/sample/GameOfLife.java:109-117 | Two boards that agree on the eight surrounding positions (both off the board, or both on it with the same state) give the same count. |
| Neighbours.SelfNotCounted | src/main/java/edu/grinnell/csc207/sample/GameOfLife.java:108 | Changing the cell itself never changes its own neighbour count. |
| Neighbours.CornerCount | src/main/java/edu/grinnell/csc207/sample/GameOfLife.java:109-117 | No wrap-around: the count of corner (0, 0) is the sum of its three on-board neighbours (0, 1), (1, 0) and (1, 1), so it is at most 3. |
| Generation.ConwayRules | src/main/java/edu/grinnell/csc207/sample/GameOfLife.java:60-65 | The rule the branches implement meets the four documented rules: underpopulation, survival with two or three neighbours, overpopulation, and reproduction with exactly three. Any other dead cell stays dead. |
| Generation.Successor | src/main/java/edu/grinnell/csc207/sample/GameOfLife.java:131-135 | The next board has the same width and height. Each cell is the rule applied to the old state and the count, both taken from the old board. |
| Generation.NextGeneration | src/main/java/edu/grinnell/csc207/sample/GameOfLife.java:130-152 | The loops over a fresh all-dead board keep the dimensions and equal the successor board. A live cell is alive next iff its count is 2 or 3. A dead cell is alive next iff its count is 3. |
| Generation.LiveCellFate | src/main/java/edu/grinnell/csc207/sample/GameOfLife.java:136-141 | A live cell is alive in the next generation iff it has two or three live neighbours. |
| Generation.DeadCellFate | src/main/java/edu/grinnell/csc207/sample/GameOfLife.java:142-147 | A dead cell is alive in the next generation iff it has exactly three live neighbours. |
| Generation.SuccessorIsLocal | src/main/java/edu/grinnell/csc207/sample/GameOfLife.java:131-135 | Each new cell depends only on the old board's 3 × 3 window around it. |
| Generation.SuccessorByLiveNeighbours | src/main/java/edu/grinnell/csc207/sample/GameOfLife.java:130-152 | End to end, in terms of the set of live on-board positions around a cell: a cell is alive next iff it is alive with two or three such neighbours, or dead with exactly three. |
| Generation.AllDeadIsFixedPoint | src/main/java/edu/grinnell/csc207/sample/GameOfLife.java:142-147 | An all-dead board of any size maps to the all-dead board of the same size. |
| Patterns.HorizontalBlinkerTurns | src/main/java/edu/grinnell/csc207/sample/GameOfLife.java:130-152 | On a 5 × 5 board, live cells (2,1), (2,2), (2,3) become exactly (1,2), (2,2), (3,2). |
| Patterns.VerticalBlinkerTurns | src/main/java/edu/grinnell/csc207/sample/GameOfLife.java:130-152 | On a 5 × 5 board, live cells (1,2), (2,2), (3,2) become exactly (2,1), (2,2), (2,3). |
| Patterns.BlinkerHasPeriodTwo | src/main/java/edu/grinnell/csc207/sample/GameOfLife.java:130-152 | The blinker changes after one generation and returns after two. |
| Census.CountTotalAlive | src/main/java/edu/grinnell/csc207/sample/GameOfLife.java:188-198 | The nested loops return the census. This equals the number of live positions and is at most width × height. |
| Census.CensusCountsAliveCells | src/main/java/edu/grinnell/csc207/sample/GameOfLife.java:188-198 | The row-by-row census equals the size of the set of live positions. |
| Census.CensusBound | src/main/java/edu/grinnell/csc207/sample/GameOfLife.java:190-191 | The census is at most width × height. |
| Census.CensusAfterBirth | src/main/java/edu/grinnell/csc207/sample/GameOfLife.java:192-194 | Making one cell alive adds 1 to the census if it was dead, and nothing if it was already alive. |
| Census.AllDeadCensus | src/main/java/edu/grinnell/csc207/sample/GameOfLife.java:188-198 | An all-dead board has census 0. After one cell of it is made alive, the census is 1. |

## Left out

- `setupBoard`: not modelled. It seeds the board with `java.util.Random` and compares a floating-point `nextDouble()` draw against 0.3; both are foreign numerics. Any board can be handed to the engine.
- `printBoard` and `printInstructions`: output rendering through a `PrintWriter` only.
- `main`: command-line flag parsing (`-w`, `-h`, `-s` with `Integer.parseInt`, and the width/height minimum of 4), terminal input, and the NEXT/QUIT session loop. All of this is I/O glue around the engine.
- The board container (`Matrix`, `MatrixV0`) and `ArrayUtils`/`IOUtils` are not part of this model. The board is an abstract rectangular grid. Construction takes natural-number dimensions, so whatever the container does with negative dimensions is not modelled.
- Grid.Set: requires an in-bounds position. The container's out-of-bounds error on `set` is not modelled, because the engine only sets cells it is iterating over.
- Exceptions: the counter's caught `IndexOutOfBoundsException` is an explicit bounds test (`Grid.Get` returning `None`). The escape of any failure from the counter has no counterpart, because every function here is total.
- Neighbours.CountAliveNeighbors: row and column are unbounded integers rather than 32-bit `int`. `row + dr` could only overflow for a position at the extremes of `int`, which the engine never passes.
- Census.CountTotalAlive: counts with an unbounded integer. The Java `int` total could only wrap with more than 2^31 − 1 live cells.
