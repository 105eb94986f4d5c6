/**
 * The falling piece: a kind, a position (x, y) of the top-left corner of its
 * 4x4 mask on the playfield, and the index of its current rotation state.
 * Moves, rotations and drops are tried tentatively and undone on collision;
 * a piece that cannot drop is stamped into the grid.
 */
module Pieces {
  import opened Shapes
  import opened Playfield

  /** Where a new piece appears: column 3, one row above the field, first rotation state. */
  const SpawnX := 3
  const SpawnY := -1

  predicate InMask(i: int, j: int)
  {
    0 <= i < 4 && 0 <= j < 4
  }

  /** Every occupied square of mask m placed at (x, y) lies inside the field. */
  ghost predicate InField(m: Mask, x: int, y: int)
    requires WellFormed(m)
  {
    forall i, j :: InMask(i, j) && m[j][i] != 0 ==> 0 <= x + i < Width && 0 <= y + j < Height
  }

  /** Square (cx, cy) cannot take a block: it is off either side, above the top, below the bottom, or filled. */
  predicate Blocked(b: Board, cx: int, cy: int)
    requires WellSized(b)
  {
    cx < 0 || cx > Width - 1 || cy < 0 || cy > Height - 1 || b[cx][cy] != 0
  }

  /** Mask entry (column i, row j) is occupied and lands on a blocked square. */
  predicate HitAt(m: Mask, x: int, y: int, b: Board, i: int, j: int)
    requires WellFormed(m) && WellSized(b) && InMask(i, j)
  {
    m[j][i] != 0 && Blocked(b, x + i, y + j)
  }

  /** The mask placed with its corner at (x, y) collides with the board or its bounds. */
  ghost predicate Collides(m: Mask, x: int, y: int, b: Board)
    requires WellFormed(m) && WellSized(b)
  {
    exists i, j :: InMask(i, j) && HitAt(m, x, y, b, i, j)
  }

  /** A placement that does not collide lies inside the field, on empty squares only. */
  lemma NoCollisionInField(m: Mask, x: int, y: int, b: Board)
    requires WellFormed(m) && WellSized(b)
    requires !Collides(m, x, y, b)
    ensures forall i, j :: InMask(i, j) && m[j][i] != 0 ==>
      0 <= x + i < Width && 0 <= y + j < Height && b[x + i][y + j] == 0
  {
  }

  /**
   * The stamping loop has an upper-bound guard only; every occupied square that
   * passes it must have non-negative coordinates, or the grid is indexed out of range.
   */
  ghost predicate ProjectSafe(m: Mask, x: int, y: int)
    requires WellFormed(m)
  {
    forall i, j :: InMask(i, j) && m[j][i] != 0 && x + i < Width && y + j < Height ==> 0 <= x + i && 0 <= y + j
  }

  lemma NoCollisionProjectSafe(m: Mask, x: int, y: int, b: Board)
    requires WellFormed(m) && WellSized(b)
    requires !Collides(m, x, y, b)
    ensures ProjectSafe(m, x, y)
  {
  }

  /** A newly spawned piece never reaches outside the grid's index range when stamped. */
  lemma SpawnProjectSafe(k: Kind)
    ensures ProjectSafe(Rotations(k)[0], SpawnX, SpawnY)
  {
  }

  /** A placement inside the field meets the stamping loop's non-negative-index requirement. */
  lemma InFieldProjectSafe(m: Mask, x: int, y: int)
    requires WellFormed(m) && InField(m, x, y)
    ensures ProjectSafe(m, x, y)
  {
  }

  /** The first rotation state of every kind, placed at the spawn point, lies inside the field. */
  lemma SpawnInField(k: Kind)
    ensures forall i, j :: InMask(i, j) && Rotations(k)[0][j][i] != 0 ==>
      0 <= SpawnX + i < Width && 0 <= SpawnY + j < Height
  {
  }

  /** The mask placed at (x, y) has an occupied entry over square (cx, cy). */
  predicate Covers(m: Mask, x: int, y: int, cx: int, cy: int)
    requires WellFormed(m)
  {
    InMask(cx - x, cy - y) && m[cy - y][cx - x] != 0
  }

  /** The value square (cx, cy) holds after stamping: t if the mask covers it and it was empty. */
  function StampAt(b: Board, m: Mask, x: int, y: int, t: int, cx: int, cy: int): int
    requires WellSized(b) && WellFormed(m) && 0 <= cx < Width && 0 <= cy < Height
  {
    if Covers(m, x, y, cx, cy) && b[cx][cy] == 0 then t else b[cx][cy]
  }

  /**
   * The board after the piece is stamped into it: every empty square under an
   * occupied mask entry takes the value t; a filled square is never overwritten.
   */
  function Stamp(b: Board, m: Mask, x: int, y: int, t: int): (r: Board)
    requires WellSized(b) && WellFormed(m)
    ensures WellSized(r)
    ensures forall cx, cy :: 0 <= cx < Width && 0 <= cy < Height ==> r[cx][cy] == StampAt(b, m, x, y, t, cx, cy)
    ensures forall cx, cy :: 0 <= cx < Width && 0 <= cy < Height && b[cx][cy] != 0 ==> r[cx][cy] == b[cx][cy]
    ensures forall cx, cy :: 0 <= cx < Width && 0 <= cy < Height && r[cx][cy] != b[cx][cy] ==>
      Covers(m, x, y, cx, cy) && b[cx][cy] == 0 && r[cx][cy] == t
  {
    seq(Width, cx requires 0 <= cx < Width =>
      seq(Height, cy requires 0 <= cy < Height => StampAt(b, m, x, y, t, cx, cy)))
  }

  /**
   * Stamping a piece that does not collide writes t into exactly the squares
   * its mask covers, each of which was empty, and changes nothing else.
   */
  lemma StampNoCollision(b: Board, m: Mask, x: int, y: int, t: int)
    requires WellSized(b) && WellFormed(m)
    requires !Collides(m, x, y, b)
    ensures forall cx, cy :: 0 <= cx < Width && 0 <= cy < Height ==>
      Stamp(b, m, x, y, t)[cx][cy] == if Covers(m, x, y, cx, cy) then t else b[cx][cy]
    ensures forall cx, cy :: 0 <= cx < Width && 0 <= cy < Height && Covers(m, x, y, cx, cy) ==> b[cx][cy] == 0
  {
  }

  /** The rotation index before i, wrapping from 0 to the last of n states. */
  function PrevIndex(i: int, n: int): (r: int)
    requires 0 <= i < n
    ensures 0 <= r < n
    ensures r == (i - 1) % n
  {
    if i - 1 < 0 then n - 1 else i - 1
  }

  /** The rotation index after k successive rotations from i. */
  function PrevIndexIter(i: int, n: int, k: nat): (r: int)
    requires 0 <= i < n
    ensures 0 <= r < n
    decreases k
  {
    if k == 0 then i else PrevIndexIter(PrevIndex(i, n), n, k - 1)
  }

  lemma {:induction false} PrevIndexIterBelow(i: int, n: int, k: nat)
    requires 0 <= i < n && k <= i
    ensures PrevIndexIter(i, n, k) == i - k
  {
    if k > 0 {
      PrevIndexIterBelow(i - 1, n, k - 1);
    }
  }

  lemma {:induction false} PrevIndexIterSplit(i: int, n: int, a: nat, c: nat)
    requires 0 <= i < n
    ensures PrevIndexIter(i, n, a + c) == PrevIndexIter(PrevIndexIter(i, n, a), n, c)
    decreases a
  {
    if a > 0 {
      PrevIndexIterSplit(PrevIndex(i, n), n, a - 1, c);
    }
  }

  /** n successful rotations of a piece with n rotation states bring it back to where it started. */
  lemma RotationCycle(i: int, n: int)
    requires 0 <= i < n
    ensures PrevIndexIter(i, n, n) == i
  {
    PrevIndexIterSplit(i, n, i, n - i);
    PrevIndexIterBelow(i, n, i);
    assert PrevIndexIter(0, n, n - i) == PrevIndexIter(n - 1, n, n - i - 1);
    PrevIndexIterBelow(n - 1, n, n - i - 1);
  }

  class Piece {
    const kind: Kind
    var x: int
    var y: int
    var index: int

    ghost predicate Valid()
      reads this
    {
      0 <= index < |Rotations(kind)|
    }

    /** The current rotation state. */
    function Shape(): (m: Mask)
      reads this
      requires Valid()
      ensures WellFormed(m)
    {
      Rotations(kind)[index]
    }

    constructor (k: Kind)
      ensures Valid()
      ensures kind == k && x == SpawnX && y == SpawnY && index == 0
    {
      kind := k;
      x, y, index := SpawnX, SpawnY, 0;
    }

    /** Scan the mask column by column and report the first occupied entry on a blocked square. */
    method CollidesWith(grid: array2<int>) returns (hit: bool)
      requires Valid()
      requires grid.Length0 == Width && grid.Length1 == Height
      ensures hit == Collides(Shape(), x, y, Snap(grid))
    {
      var sub := Rotations(kind)[index];
      ghost var b := Snap(grid);
      for i := 0 to 4
        invariant forall i', j' :: 0 <= i' < i && 0 <= j' < 4 ==> !HitAt(sub, x, y, b, i', j')
      {
        for j := 0 to 4
          invariant forall i', j' :: (0 <= i' < i && 0 <= j' < 4) || (i' == i && 0 <= j' < j) ==> !HitAt(sub, x, y, b, i', j')
        {
          if sub[j][i] != 0 && (x + i < 0 || x + i > 9 || y + j < 0 || y + j > 19 || grid[x + i, y + j] != 0) {
            assert HitAt(sub, x, y, b, i, j);
            return true;
          }
        }
      }
      return false;
    }

    /** Shift the piece dir columns; undo the shift if the piece then collides. */
    method Move(grid: array2<int>, dir: int)
      requires Valid()
      requires grid.Length0 == Width && grid.Length1 == Height
      modifies this`x
      ensures Valid()
      ensures x == if Collides(Shape(), old(x) + dir, y, Snap(grid)) then old(x) else old(x) + dir
    {
      x := x + dir;
      var hit := CollidesWith(grid);
      if hit {
        x := x - dir;
      }
    }

    /** Step to the previous rotation state; undo the step and report false if the piece then collides. */
    method Rotate(grid: array2<int>) returns (ok: bool)
      requires Valid()
      requires grid.Length0 == Width && grid.Length1 == Height
      modifies this`index
      ensures Valid()
      ensures ok == !Collides(Rotations(kind)[PrevIndex(old(index), |Rotations(kind)|)], x, y, Snap(grid))
      ensures index == if ok then PrevIndex(old(index), |Rotations(kind)|) else old(index)
    {
      var saved := index;
      index := index - 1;
      if index < 0 {
        index := |Rotations(kind)| - 1;
      }
      var hit := CollidesWith(grid);
      if !hit {
        return true;
      }
      index := saved;
      return false;
    }

    /** Write the piece's kind tag into every empty in-range square under its mask. */
    method Project(grid: array2<int>)
      requires Valid()
      requires grid.Length0 == Width && grid.Length1 == Height
      requires ProjectSafe(Shape(), x, y)
      modifies grid
      ensures Snap(grid) == Stamp(old(Snap(grid)), Shape(), x, y, Tag(kind))
    {
      var sub := Rotations(kind)[index];
      var t := Tag(kind);
      ghost var b := Snap(grid);
      for i := 0 to 4
        invariant forall cx, cy :: 0 <= cx < Width && 0 <= cy < Height ==>
          grid[cx, cy] == if cx - x < i then StampAt(b, sub, x, y, t, cx, cy) else b[cx][cy]
      {
        for j := 0 to 4
          invariant forall cx, cy :: 0 <= cx < Width && 0 <= cy < Height ==>
            grid[cx, cy] == if cx - x < i || (cx - x == i && cy - y < j) then StampAt(b, sub, x, y, t, cx, cy) else b[cx][cy]
        {
          if sub[j][i] != 0 && (x + i < 10 && y + j < 20 && grid[x + i, y + j] == 0) {
            grid[x + i, y + j] := t;
          }
        }
      }
      BoardExt(Snap(grid), Stamp(b, sub, x, y, t));
    }

    /**
     * Drop the piece one row. If it then collides it goes back up, is stamped
     * into the grid, and false reports that it has landed.
     */
    method MoveDown(grid: array2<int>) returns (falling: bool)
      requires Valid()
      requires grid.Length0 == Width && grid.Length1 == Height
      requires ProjectSafe(Shape(), x, y)
      modifies this`y, grid
      ensures Valid()
      ensures falling == !Collides(Shape(), x, old(y) + 1, old(Snap(grid)))
      ensures falling ==> y == old(y) + 1 && Snap(grid) == old(Snap(grid))
      ensures !falling ==> y == old(y) && Snap(grid) == Stamp(old(Snap(grid)), Shape(), x, y, Tag(kind))
    {
      y := y + 1;
      var hit := CollidesWith(grid);
      if hit {
        y := y - 1;
        Project(grid);
        return false;
      }
      return true;
    }
  }
}
