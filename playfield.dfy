/**
 * The playfield: a 10 x 20 grid of integers, indexed grid[x, y] with x the
 * column and y the row (row 0 at the top). 0 is an empty square, 1..7 a settled
 * square of the kind with that tag. This module gives the value view of the
 * grid (a Board, a sequence of columns) and the specification of the
 * row-clearing sweep that the session runs in place.
 */
module Playfield {

  import Shapes

  const Width := 10
  const Height := 20

  /** A board is a sequence of columns: b[x][y]. */
  type Board = seq<seq<int>>

  predicate WellSized(b: Board)
  {
    |b| == Width && forall x :: 0 <= x < Width ==> |b[x]| == Height
  }

  /** The value currently held by a grid array. */
  ghost function Snap(g: array2<int>): (b: Board)
    reads g
    requires g.Length0 == Width && g.Length1 == Height
    ensures WellSized(b)
    ensures forall x, y :: 0 <= x < Width && 0 <= y < Height ==> b[x][y] == g[x, y]
  {
    seq(Width, x requires 0 <= x < Width reads g =>
      seq(Height, y requires 0 <= y < Height reads g => g[x, y]))
  }

  /** Two boards that agree square by square are equal. */
  lemma BoardExt(b1: Board, b2: Board)
    requires WellSized(b1) && WellSized(b2)
    requires forall x, y :: 0 <= x < Width && 0 <= y < Height ==> b1[x][y] == b2[x][y]
    ensures b1 == b2
  {
    forall x | 0 <= x < Width
      ensures b1[x] == b2[x]
    {
      assert forall y :: 0 <= y < Height ==> b1[x][y] == b2[x][y];
    }
  }

  /** Every column of row y is filled. */
  predicate RowFull(b: Board, y: int)
    requires WellSized(b) && 0 <= y < Height
  {
    forall x :: 0 <= x < Width ==> b[x][y] != 0
  }

  /** One column after its square in row y is removed: everything above drops by one and an empty square enters at the top. */
  function ShiftColumn(col: seq<int>, y: int): (r: seq<int>)
    requires 0 <= y < |col|
    ensures |r| == |col|
  {
    [0] + col[..y] + col[y + 1..]
  }

  /** The board after row y is cleared. */
  function ClearRow(b: Board, y: int): (r: Board)
    requires WellSized(b) && 0 <= y < Height
    ensures WellSized(r)
  {
    seq(Width, x requires 0 <= x < Width => ShiftColumn(b[x], y))
  }

  /** Where square (x, r) of the cleared board comes from. */
  function Dropped(b: Board, y: int, x: int, r: int): int
    requires WellSized(b) && 0 <= y < Height && 0 <= x < Width && 0 <= r < Height
  {
    if r == 0 then 0 else if r <= y then b[x][r - 1] else b[x][r]
  }

  /**
   * Clearing row y moves every square of rows 0..y-1 down by exactly one row,
   * empty squares included, empties row 0 and leaves the rows below y alone.
   */
  lemma ClearRowCells(b: Board, y: int)
    requires WellSized(b) && 0 <= y < Height
    ensures forall x, r :: 0 <= x < Width && 0 <= r < Height ==> ClearRow(b, y)[x][r] == Dropped(b, y, x, r)
  {
  }

  /** Number of non-zero squares of a board. */
  function FilledCells(b: Board): nat
  {
    if b == [] then 0 else Shapes.Occupied(b[0]) + FilledCells(b[1..])
  }

  lemma {:induction false} OccupiedAppend(a: seq<int>, c: seq<int>)
    ensures Shapes.Occupied(a + c) == Shapes.Occupied(a) + Shapes.Occupied(c)
  {
    if a == [] {
      assert a + c == c;
    } else {
      assert (a + c)[1..] == a[1..] + c;
      OccupiedAppend(a[1..], c);
    }
  }

  /**
   * Within one column, removing the square at row y loses exactly that value:
   * no other value is duplicated, lost or changed, and one empty square is
   * added at the top.
   */
  lemma ShiftColumnKeepsValues(col: seq<int>, y: int)
    requires 0 <= y < |col|
    ensures multiset(ShiftColumn(col, y)) == multiset(col) - multiset{col[y]} + multiset{0}
  {
    var above, below := col[..y], col[y + 1..];
    assert col == above + [col[y]] + below;
    assert multiset(col) == multiset(above) + multiset{col[y]} + multiset(below);
    assert multiset(ShiftColumn(col, y)) == multiset{0} + multiset(above) + multiset(below);
  }

  /** Removing a filled square from a column lowers its count of filled squares by one. */
  lemma ShiftColumnFilled(col: seq<int>, y: int)
    requires 0 <= y < |col| && col[y] != 0
    ensures Shapes.Occupied(ShiftColumn(col, y)) + 1 == Shapes.Occupied(col)
  {
    var above, below := col[..y], col[y + 1..];
    assert col == above + [col[y]] + below;
    OccupiedAppend(above, [col[y]]);
    OccupiedAppend(above + [col[y]], below);
    OccupiedAppend([0], above);
    OccupiedAppend([0] + above, below);
  }

  lemma {:induction false} FilledCellsDrop(b1: Board, b2: Board)
    requires |b1| == |b2|
    requires forall x :: 0 <= x < |b1| ==> Shapes.Occupied(b2[x]) + 1 == Shapes.Occupied(b1[x])
    ensures FilledCells(b2) + |b1| == FilledCells(b1)
  {
    if b1 != [] {
      FilledCellsDrop(b1[1..], b2[1..]);
    }
  }

  /** Clearing a full row removes exactly Width filled squares from the board. */
  lemma ClearRowRemovesOneRow(b: Board, y: int)
    requires WellSized(b) && 0 <= y < Height
    requires RowFull(b, y)
    ensures FilledCells(ClearRow(b, y)) + Width == FilledCells(b)
  {
    var c := ClearRow(b, y);
    forall x | 0 <= x < Width
      ensures Shapes.Occupied(c[x]) + 1 == Shapes.Occupied(b[x])
    {
      ShiftColumnFilled(b[x], y);
    }
    FilledCellsDrop(b, c);
  }

  /** What a sweep produces: the compacted board and the number of rows it cleared. */
  datatype Sweep = Sweep(board: Board, lines: nat)

  /**
   * The sweep over rows y..Height-1, top to bottom: a row that is full when it
   * is reached is cleared, and the scan continues with the next row.
   */
  function SweepFrom(b: Board, y: int): (s: Sweep)
    requires WellSized(b) && 0 <= y <= Height
    ensures WellSized(s.board)
    ensures s.lines <= Height - y
    decreases Height - y
  {
    if y == Height then Sweep(b, 0)
    else if RowFull(b, y) then
      var rest := SweepFrom(ClearRow(b, y), y + 1);
      Sweep(rest.board, rest.lines + 1)
    else SweepFrom(b, y + 1)
  }

  /** One step of the sweep, unfolded. */
  lemma SweepStep(b: Board, y: int)
    requires WellSized(b) && 0 <= y < Height
    ensures RowFull(b, y) ==>
      SweepFrom(b, y) == Sweep(SweepFrom(ClearRow(b, y), y + 1).board, SweepFrom(ClearRow(b, y), y + 1).lines + 1)
    ensures !RowFull(b, y) ==> SweepFrom(b, y) == SweepFrom(b, y + 1)
  {
  }

  /** The number of full rows among rows y..Height-1. */
  function FullRows(b: Board, y: int): nat
    requires WellSized(b) && 0 <= y <= Height
    decreases Height - y
  {
    if y == Height then 0 else (if RowFull(b, y) then 1 else 0) + FullRows(b, y + 1)
  }

  lemma {:induction false} FullRowsSameBelow(b1: Board, b2: Board, y: int)
    requires WellSized(b1) && WellSized(b2) && 0 <= y <= Height
    requires forall x, r :: 0 <= x < Width && y <= r < Height ==> b1[x][r] == b2[x][r]
    ensures FullRows(b1, y) == FullRows(b2, y)
    decreases Height - y
  {
    if y < Height {
      assert RowFull(b1, y) == RowFull(b2, y);
      FullRowsSameBelow(b1, b2, y + 1);
    }
  }

  /**
   * The sweep clears exactly the rows that were full when it started: clearing a
   * row only changes the rows at or above it, which the scan has already passed.
   */
  lemma {:induction false} SweepCountsFullRows(b: Board, y: int)
    requires WellSized(b) && 0 <= y <= Height
    ensures SweepFrom(b, y).lines == FullRows(b, y)
    decreases Height - y
  {
    if y < Height {
      if RowFull(b, y) {
        ClearRowCells(b, y);
        FullRowsSameBelow(ClearRow(b, y), b, y + 1);
        SweepCountsFullRows(ClearRow(b, y), y + 1);
      } else {
        SweepCountsFullRows(b, y + 1);
      }
    }
  }

  /** Clearing row y cannot make any row 0..y full when none of them was. */
  lemma ClearRowKeepsUpperRowsNotFull(b: Board, y: int)
    requires WellSized(b) && 0 <= y < Height
    requires forall r :: 0 <= r < y ==> !RowFull(b, r)
    ensures forall r :: 0 <= r <= y ==> !RowFull(ClearRow(b, y), r)
  {
    var c := ClearRow(b, y);
    ClearRowCells(b, y);
    forall r | 0 <= r <= y
      ensures !RowFull(c, r)
    {
      if r == 0 {
        assert c[0][0] == 0;
      } else {
        assert !RowFull(b, r - 1);
        var x :| 0 <= x < Width && b[x][r - 1] == 0;
        assert c[x][r] == 0;
      }
    }
  }

  /** After a sweep from row y, with no full row above y, no row of the board is full. */
  lemma {:induction false} SweepLeavesNoFullRow(b: Board, y: int)
    requires WellSized(b) && 0 <= y <= Height
    requires forall r :: 0 <= r < y ==> !RowFull(b, r)
    ensures forall r :: 0 <= r < Height ==> !RowFull(SweepFrom(b, y).board, r)
    decreases Height - y
  {
    if y < Height {
      if RowFull(b, y) {
        ClearRowKeepsUpperRowsNotFull(b, y);
        SweepLeavesNoFullRow(ClearRow(b, y), y + 1);
      } else {
        SweepLeavesNoFullRow(b, y + 1);
      }
    }
  }

  /** A sweep over rows none of which is full changes nothing and clears nothing. */
  lemma {:induction false} SweepWithoutFullRows(b: Board, y: int)
    requires WellSized(b) && 0 <= y <= Height
    requires forall r :: y <= r < Height ==> !RowFull(b, r)
    ensures SweepFrom(b, y) == Sweep(b, 0)
    decreases Height - y
  {
    if y < Height {
      SweepWithoutFullRows(b, y + 1);
    }
  }

  /** The board with no settled square. */
  function EmptyBoard(): (b: Board)
    ensures WellSized(b)
    ensures forall x, y :: 0 <= x < Width && 0 <= y < Height ==> b[x][y] == 0
  {
    seq(Width, x => seq(Height, y => 0))
  }

  /** Sweeping the empty board clears nothing and leaves it empty. */
  lemma SweepEmptyBoard()
    ensures SweepFrom(EmptyBoard(), 0) == Sweep(EmptyBoard(), 0)
  {
    var e := EmptyBoard();
    forall r | 0 <= r < Height
      ensures !RowFull(e, r)
    {
      assert e[0][r] == 0;
    }
    SweepWithoutFullRows(e, 0);
  }
}
