/**
 * The shape catalog: the seven piece kinds, the type tag each one writes into
 * the playfield, and each kind's ordered list of 4x4 rotation masks.
 * A mask is indexed m[row][col]; a non-zero entry is an occupied square.
 */
module Shapes {

  datatype Kind = O | I | S | Z | L | J | T

  type Mask = seq<seq<int>>

  /** Four rows of four entries each. */
  predicate WellFormed(m: Mask)
  {
    |m| == 4 && forall r :: 0 <= r < 4 ==> |m[r]| == 4
  }

  /** Every entry of the mask is 0 or 1. */
  predicate Binary(m: Mask)
  {
    forall r, c :: 0 <= r < |m| && 0 <= c < |m[r]| ==> m[r][c] == 0 || m[r][c] == 1
  }

  /** 1 for an occupied (non-zero) entry, 0 for an empty one. */
  function Occ(v: int): nat { if v != 0 then 1 else 0 }

  /** Number of non-zero entries of a mask row or of a playfield column. */
  function Occupied(s: seq<int>): nat
  {
    if s == [] then 0 else Occ(s[0]) + Occupied(s[1..])
  }

  /** Number of occupied squares of a mask. */
  function MaskCells(m: Mask): nat
  {
    if m == [] then 0 else Occupied(m[0]) + MaskCells(m[1..])
  }

  /** The top row of the mask is empty. */
  predicate TopRowEmpty(m: Mask)
    requires WellFormed(m)
  {
    forall c :: 0 <= c < 4 ==> m[0][c] == 0
  }

  /** The value a settled square of this kind holds in the playfield. */
  function Tag(k: Kind): (t: int)
    ensures 1 <= t <= 7
  {
    match k
    case O => 4
    case I => 1
    case S => 5
    case Z => 7
    case L => 3
    case J => 2
    case T => 6
  }

  /** Number of rotation states of a kind. */
  function RotationCount(k: Kind): nat
  {
    match k
    case O => 1
    case I | S | Z => 2
    case L | J | T => 4
  }

  /** The rotation states of a kind, in the order the rotate operation steps through them backwards. */
  function Rotations(k: Kind): (rs: seq<Mask>)
    ensures |rs| == RotationCount(k)
    ensures forall n :: 0 <= n < |rs| ==> WellFormed(rs[n]) && Binary(rs[n])
  {
    match k
    case O => [
      [[0, 0, 0, 0],
       [0, 1, 1, 0],
       [0, 1, 1, 0],
       [0, 0, 0, 0]]]
    case I => [
      [[0, 0, 0, 0],
       [1, 1, 1, 1],
       [0, 0, 0, 0],
       [0, 0, 0, 0]],
      [[0, 0, 1, 0],
       [0, 0, 1, 0],
       [0, 0, 1, 0],
       [0, 0, 1, 0]]]
    case S => [
      [[0, 0, 0, 0],
       [0, 0, 1, 1],
       [0, 1, 1, 0],
       [0, 0, 0, 0]],
      [[0, 0, 1, 0],
       [0, 0, 1, 1],
       [0, 0, 0, 1],
       [0, 0, 0, 0]]]
    case Z => [
      [[0, 0, 0, 0],
       [0, 1, 1, 0],
       [0, 0, 1, 1],
       [0, 0, 0, 0]],
      [[0, 0, 0, 1],
       [0, 0, 1, 1],
       [0, 0, 1, 0],
       [0, 0, 0, 0]]]
    case L => [
      [[0, 0, 0, 0],
       [0, 1, 1, 1],
       [0, 1, 0, 0],
       [0, 0, 0, 0]],
      [[0, 0, 1, 0],
       [0, 0, 1, 0],
       [0, 0, 1, 1],
       [0, 0, 0, 0]],
      [[0, 0, 0, 1],
       [0, 1, 1, 1],
       [0, 0, 0, 0],
       [0, 0, 0, 0]],
      [[0, 1, 1, 0],
       [0, 0, 1, 0],
       [0, 0, 1, 0],
       [0, 0, 0, 0]]]
    case J => [
      [[0, 0, 0, 0],
       [0, 1, 1, 1],
       [0, 0, 0, 1],
       [0, 0, 0, 0]],
      [[0, 0, 1, 1],
       [0, 0, 1, 0],
       [0, 0, 1, 0],
       [0, 0, 0, 0]],
      [[0, 1, 0, 0],
       [0, 1, 1, 1],
       [0, 0, 0, 0],
       [0, 0, 0, 0]],
      [[0, 0, 1, 0],
       [0, 0, 1, 0],
       [0, 1, 1, 0],
       [0, 0, 0, 0]]]
    case T => [
      [[0, 0, 0, 0],
       [0, 1, 1, 1],
       [0, 0, 1, 0],
       [0, 0, 0, 0]],
      [[0, 0, 1, 0],
       [0, 0, 1, 1],
       [0, 0, 1, 0],
       [0, 0, 0, 0]],
      [[0, 0, 1, 0],
       [0, 1, 1, 1],
       [0, 0, 0, 0],
       [0, 0, 0, 0]],
      [[0, 0, 1, 0],
       [0, 1, 1, 0],
       [0, 0, 1, 0],
       [0, 0, 0, 0]]]
  }

  lemma RowCellsOfFour(row: seq<int>)
    requires |row| == 4
    ensures Occupied(row) == Occ(row[0]) + Occ(row[1]) + Occ(row[2]) + Occ(row[3])
  {
    var r1, r2, r3 := row[1..], row[2..], row[3..];
    assert r1[1..] == r2 && r2[1..] == r3 && r3[1..] == [];
    assert Occupied(r3) == Occ(row[3]);
    assert Occupied(r2) == Occ(row[2]) + Occupied(r3);
    assert Occupied(r1) == Occ(row[1]) + Occupied(r2);
  }

  lemma MaskCellsOfFour(m: Mask)
    requires WellFormed(m)
    ensures MaskCells(m) == Occupied(m[0]) + Occupied(m[1]) + Occupied(m[2]) + Occupied(m[3])
  {
    var m1, m2, m3 := m[1..], m[2..], m[3..];
    assert m1[1..] == m2 && m2[1..] == m3 && m3[1..] == [];
    assert MaskCells(m3) == Occupied(m[3]);
    assert MaskCells(m2) == Occupied(m[2]) + MaskCells(m3);
    assert MaskCells(m1) == Occupied(m[1]) + MaskCells(m2);
  }

  /** Occupied squares of a 4x4 mask, counted entry by entry. */
  function SquareSum(m: Mask): nat
    requires WellFormed(m)
  {
    Occ(m[0][0]) + Occ(m[0][1]) + Occ(m[0][2]) + Occ(m[0][3]) +
    Occ(m[1][0]) + Occ(m[1][1]) + Occ(m[1][2]) + Occ(m[1][3]) +
    Occ(m[2][0]) + Occ(m[2][1]) + Occ(m[2][2]) + Occ(m[2][3]) +
    Occ(m[3][0]) + Occ(m[3][1]) + Occ(m[3][2]) + Occ(m[3][3])
  }

  lemma CatalogSums(k: Kind, n: int)
    requires 0 <= n < |Rotations(k)|
    ensures SquareSum(Rotations(k)[n]) == 4
  {
    // one case per mask keeps each proof obligation small
    match k
    case O =>
    case I => if n == 0 { } else { }
    case S => if n == 0 { } else { }
    case Z => if n == 0 { } else { }
    case L => if n == 0 { } else if n == 1 { } else if n == 2 { } else { }
    case J => if n == 0 { } else if n == 1 { } else if n == 2 { } else { }
    case T => if n == 0 { } else if n == 1 { } else if n == 2 { } else { }
  }

  /** Every rotation state of every kind occupies exactly four squares. */
  lemma FourSquares(k: Kind, n: int)
    requires 0 <= n < |Rotations(k)|
    ensures MaskCells(Rotations(k)[n]) == 4
  {
    var m := Rotations(k)[n];
    MaskCellsOfFour(m);
    RowCellsOfFour(m[0]);
    RowCellsOfFour(m[1]);
    RowCellsOfFour(m[2]);
    RowCellsOfFour(m[3]);
    CatalogSums(k, n);
  }

  /** The first rotation state of every kind leaves its top row empty. */
  lemma SpawnMaskTopRowEmpty(k: Kind)
    ensures TopRowEmpty(Rotations(k)[0])
  {
  }

  /** Distinct kinds settle as distinct non-zero values. */
  lemma TagInjective(k1: Kind, k2: Kind)
    ensures Tag(k1) == Tag(k2) ==> k1 == k2
  {
  }
}
