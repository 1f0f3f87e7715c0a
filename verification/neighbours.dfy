/**
  Counting the live cells in the Moore neighbourhood of a position
  (GameOfLife.countAliveNeighbors). A position off the board counts as
  dead; the board does not wrap around.
 */
module Neighbours {
  import opened Wrappers
  import opened Grid

  /** The eight offsets (dr, dc) in {-1, 0, 1}² other than (0, 0), in the
      order the game visits them: dr in the outer loop, dc in the inner. */
  const Offsets: seq<(int, int)> :=
    [(-1, -1), (-1, 0), (-1, 1), (0, -1), (0, 1), (1, -1), (1, 0), (1, 1)]

  /** What one probed position contributes: 1 for a live in-bounds cell, 0
      for a dead cell and 0 for a position off the board. */
  function AliveAt(b: Board, row: int, col: int): (n: nat)
    ensures n <= 1
    ensures n == 1 <==> b.InBounds(row, col) && At(b, row, col) == Alive
  {
    match Get(b, row, col)
    case Some(Alive) => 1
    case _ => 0
  }

  /** The contributions of the positions (row + dr, col + dc) for the
      offsets in `offs`, summed from the last offset backwards. */
  function CountOver(b: Board, row: int, col: int, offs: seq<(int, int)>): (n: nat)
    ensures n <= |offs|
  {
    if |offs| == 0 then 0
    else
      var o := offs[|offs| - 1];
      CountOver(b, row, col, offs[..|offs| - 1]) + AliveAt(b, row + o.0, col + o.1)
  }

  /** The number of live neighbours of (row, col): defined for every
      position, on the board or not, and never more than eight. */
  function NeighbourCount(b: Board, row: int, col: int): (n: nat)
    ensures n <= 8
  {
    CountOver(b, row, col, Offsets)
  }

  /** The number of offsets the game has visited when it is about to look
      at (dr, dc), for dr, dc in [-1, 2) (dc == 2 marks the end of a row). */
  function Visited(dr: int, dc: int): nat
    requires -1 <= dr <= 2 && -1 <= dc <= 2
  {
    var k := (dr + 1) * 3 + (dc + 1);
    if k <= 4 then k else k - 1
  }

  /** The nested loops of the game's counter, with the out-of-bounds
      exception replaced by an explicit bounds check that contributes 0. */
  method CountAliveNeighbors(b: Board, row: int, col: int) returns (count: nat)
    ensures count == NeighbourCount(b, row, col)
    ensures count <= 8
  {
    count := 0;
    var dr := -1;
    while dr <= 1
      invariant -1 <= dr <= 2
      invariant count == CountOver(b, row, col, Offsets[..Visited(dr, -1)])
    {
      var dc := -1;
      while dc <= 1
        invariant -1 <= dc <= 2
        invariant count == CountOver(b, row, col, Offsets[..Visited(dr, dc)])
      {
        if !(dr == 0 && dc == 0) {
          var k := Visited(dr, dc);
          assert Offsets[k] == (dr, dc);
          assert Offsets[..k + 1][..k] == Offsets[..k];
          var r := row + dr;
          var c := col + dc;
          match Get(b, r, c)
          case Some(s) =>
            if s == Alive {
              count := count + 1;
            }
          case None =>
        }
        dc := dc + 1;
      }
      dr := dr + 1;
    }
    assert Offsets[..8] == Offsets;
  }

  /** The live neighbours of (row, col), as a set of on-board positions:
      within one step in each direction, not the cell itself, and alive. */
  ghost function LiveNeighbours(b: Board, row: int, col: int): set<(int, int)>
  {
    set r, c | row - 1 <= r <= row + 1 && col - 1 <= c <= col + 1
               && (r, c) != (row, col) && b.InBounds(r, c) && At(b, r, c) == Alive
      :: (r, c)
  }

  /** The positions hit by the offsets in `offs` that hold a live cell. */
  ghost function Hits(b: Board, row: int, col: int, offs: seq<(int, int)>): set<(int, int)>
  {
    set o | o in offs && AliveAt(b, row + o.0, col + o.1) == 1 :: (row + o.0, col + o.1)
  }

  lemma {:induction false} CountOverIsHits(b: Board, row: int, col: int, offs: seq<(int, int)>)
    requires forall i, j | 0 <= i < j < |offs| :: offs[i] != offs[j]
    ensures CountOver(b, row, col, offs) == |Hits(b, row, col, offs)|
  {
    if |offs| > 0 {
      var front := offs[..|offs| - 1];
      var o := offs[|offs| - 1];
      var p := (row + o.0, col + o.1);
      CountOverIsHits(b, row, col, front);
      assert o !in front by {
        forall i | 0 <= i < |front| ensures front[i] != o {
          assert front[i] == offs[i];
        }
      }
      assert p !in Hits(b, row, col, front);
      if AliveAt(b, p.0, p.1) == 1 {
        assert Hits(b, row, col, offs) == Hits(b, row, col, front) + {p};
      } else {
        assert Hits(b, row, col, offs) == Hits(b, row, col, front);
      }
    }
  }

  /** The count equals the number of live cells around (row, col): exactly
      the eight surrounding positions are examined, the cell itself is not
      one of them, and positions off the board contribute nothing. */
  lemma NeighbourCountIsLiveNeighbours(b: Board, row: int, col: int)
    ensures NeighbourCount(b, row, col) == |LiveNeighbours(b, row, col)|
  {
    OffsetsDistinct();
    CountOverIsHits(b, row, col, Offsets);
    LiveNeighboursAreHits(b, row, col);
    HitsAreLiveNeighbours(b, row, col);
    assert Hits(b, row, col, Offsets) == LiveNeighbours(b, row, col);
  }

  lemma LiveNeighboursAreHits(b: Board, row: int, col: int)
    ensures LiveNeighbours(b, row, col) <= Hits(b, row, col, Offsets)
  {
    forall p | p in LiveNeighbours(b, row, col) ensures p in Hits(b, row, col, Offsets) {
      var (r, c) := p;
      assert b.InBounds(r, c) && At(b, r, c) == Alive;
      var o := (r - row, c - col);
      OffsetsAreTheNeighbourhood(o.0, o.1);
      assert o in Offsets;
      assert AliveAt(b, row + o.0, col + o.1) == 1;
    }
  }

  lemma HitsAreLiveNeighbours(b: Board, row: int, col: int)
    ensures Hits(b, row, col, Offsets) <= LiveNeighbours(b, row, col)
  {
    forall p | p in Hits(b, row, col, Offsets) ensures p in LiveNeighbours(b, row, col) {
      var o :| o in Offsets && AliveAt(b, row + o.0, col + o.1) == 1 && p == (row + o.0, col + o.1);
      OffsetsAreTheNeighbourhood(o.0, o.1);
    }
  }

  lemma OffsetsDistinct()
    ensures forall i, j | 0 <= i < j < |Offsets| :: Offsets[i] != Offsets[j]
  {
  }

  /** The offsets are exactly the steps of at most one in each direction
      other than standing still. */
  lemma OffsetsAreTheNeighbourhood(dr: int, dc: int)
    ensures (dr, dc) in Offsets <==> -1 <= dr <= 1 && -1 <= dc <= 1 && (dr, dc) != (0, 0)
  {
  }

  /** Two boards that look the same at every probed position give the same
      count. */
  lemma {:induction false} CountOverAgree(b1: Board, b2: Board, row: int, col: int, offs: seq<(int, int)>)
    requires forall o | o in offs :: Get(b1, row + o.0, col + o.1) == Get(b2, row + o.0, col + o.1)
    ensures CountOver(b1, row, col, offs) == CountOver(b2, row, col, offs)
  {
    if |offs| > 0 {
      var front := offs[..|offs| - 1];
      assert forall o | o in front :: o in offs;
      CountOverAgree(b1, b2, row, col, front);
      var o := offs[|offs| - 1];
      assert Get(b1, row + o.0, col + o.1) == Get(b2, row + o.0, col + o.1);
    }
  }

  /** The count of (row, col) depends only on the eight positions around it,
      each compared as the lookup sees it: both off the board, or both on it
      with the same state. */
  lemma NeighbourCountIsLocal(b1: Board, b2: Board, row: int, col: int)
    requires forall r, c | row - 1 <= r <= row + 1 && col - 1 <= c <= col + 1 && (r, c) != (row, col) ::
      Get(b1, r, c) == Get(b2, r, c)
    ensures NeighbourCount(b1, row, col) == NeighbourCount(b2, row, col)
  {
    forall o | o in Offsets
      ensures Get(b1, row + o.0, col + o.1) == Get(b2, row + o.0, col + o.1)
    {
      OffsetsAreTheNeighbourhood(o.0, o.1);
      var r, c := row + o.0, col + o.1;
      assert Get(b1, r, c) == Get(b2, r, c);
    }
    CountOverAgree(b1, b2, row, col, Offsets);
  }

  /** The cell itself is never its own neighbour: whatever it holds, its
      count does not change. */
  lemma SelfNotCounted(b: Board, row: int, col: int, x: Cell)
    requires b.InBounds(row, col)
    ensures NeighbourCount(Set(b, row, col, x), row, col) == NeighbourCount(b, row, col)
  {
    var b' := Set(b, row, col, x);
    forall r, c | (r, c) != (row, col)
      ensures Get(b', r, c) == Get(b, r, c)
    {
      if b.InBounds(r, c) {
        assert At(b', r, c) == At(b, r, c);
      }
    }
    NeighbourCountIsLocal(b', b, row, col);
  }

  /** The count written out as the sum of the eight probes. */
  lemma NeighbourCountUnfolded(b: Board, row: int, col: int)
    ensures NeighbourCount(b, row, col) ==
      AliveAt(b, row - 1, col - 1) + AliveAt(b, row - 1, col) + AliveAt(b, row - 1, col + 1) +
      AliveAt(b, row, col - 1) + AliveAt(b, row, col + 1) +
      AliveAt(b, row + 1, col - 1) + AliveAt(b, row + 1, col) + AliveAt(b, row + 1, col + 1)
  {
    var s := Offsets;
    assert s[..8] == s;
    assert s[..0] == [];
    PrefixStep(b, row, col, s, 0);
    PrefixStep(b, row, col, s, 1);
    PrefixStep(b, row, col, s, 2);
    PrefixStep(b, row, col, s, 3);
    PrefixStep(b, row, col, s, 4);
    PrefixStep(b, row, col, s, 5);
    PrefixStep(b, row, col, s, 6);
    PrefixStep(b, row, col, s, 7);
  }

  /** Extending the visited prefix by one offset adds that offset's probe. */
  lemma PrefixStep(b: Board, row: int, col: int, offs: seq<(int, int)>, k: nat)
    requires k < |offs|
    ensures CountOver(b, row, col, offs[..k + 1])
         == CountOver(b, row, col, offs[..k]) + AliveAt(b, row + offs[k].0, col + offs[k].1)
  {
    assert offs[..k + 1][..k] == offs[..k];
  }

  /** No wrap-around: the top-left corner has only three positions on the
      board around it, and only those are counted. */
  lemma CornerCount(b: Board)
    ensures NeighbourCount(b, 0, 0) == AliveAt(b, 0, 1) + AliveAt(b, 1, 0) + AliveAt(b, 1, 1)
    ensures NeighbourCount(b, 0, 0) <= 3
  {
    NeighbourCountUnfolded(b, 0, 0);
  }
}
