/**
 * The game session: the playfield grid, the active piece, the score, the pause
 * and game-over flags and the tick counter, with the gravity step, the key
 * dispatch and one tick of the game loop.
 */
module Game {
  import opened Shapes
  import opened Playfield
  import opened Pieces

  /** The keys the session reacts to; every other key is passed on unhandled. */
  datatype Key = Escape | Right | Left | Up | Down | Other

  /** The kind spawned for each outcome 0..6 of the random roll. */
  function KindOfRoll(roll: int): Kind
    requires 0 <= roll < 7
  {
    match roll
    case 0 => O
    case 1 => I
    case 2 => S
    case 3 => Z
    case 4 => L
    case 5 => J
    case _ => T
  }

  /** The roll outcome that spawns a kind. */
  function RollOf(k: Kind): (roll: int)
    ensures 0 <= roll < 7
  {
    match k
    case O => 0
    case I => 1
    case S => 2
    case Z => 3
    case L => 4
    case J => 5
    case T => 6
  }

  /** Each kind is spawned by exactly one roll outcome, so a uniform roll spawns every kind equally often. */
  lemma RollBijection()
    ensures forall roll :: 0 <= roll < 7 ==> RollOf(KindOfRoll(roll)) == roll
    ensures forall k :: KindOfRoll(RollOf(k)) == k
  {
  }

  /** The game-loop counter after one tick: it counts 0, 1, 2, 3 and wraps to 0. */
  function NextTick(t: int): (r: int)
    requires 0 <= t <= 3
    ensures 0 <= r <= 3
    ensures r == (t + 1) % 4
  {
    if t + 1 > 3 then 0 else t + 1
  }

  class Session {
    var score: int
    var paused: bool
    var gameOver: bool
    const grid: array2<int>
    var ticks: int
    var piece: Piece?
    /** Rows cleared so far; the score is ten points per row. */
    ghost var lines: nat

    /**
     * The session invariant. The active piece lies inside the field, so it can
     * always be stamped without indexing outside the grid, and while the game
     * is running it does not collide. The score counts cleared rows in steps of 10.
     */
    ghost predicate Valid()
      reads this, grid, piece
    {
      grid.Length0 == Width && grid.Length1 == Height &&
      0 <= ticks <= 3 &&
      score == 10 * lines &&
      (gameOver ==> piece != null) &&
      (piece != null ==>
        piece.Valid() &&
        InField(piece.Shape(), piece.x, piece.y) &&
        (!gameOver ==> !Collides(piece.Shape(), piece.x, piece.y, Snap(grid))))
    }

    constructor ()
      ensures Valid()
      ensures score == 0 && !paused && !gameOver && ticks == 0 && piece == null
      ensures fresh(grid)
      ensures Snap(grid) == EmptyBoard()
    {
      score, lines := 0, 0;
      paused := false;
      gameOver := false;
      grid := new int[Width, Height]((x, y) => 0);
      ticks := 0;
      piece := null;
      new;
      BoardExt(Snap(grid), EmptyBoard());
    }

    /** Scan row y left to right, stopping at the first empty square. */
    method RowIsFull(y: int) returns (full: bool)
      requires grid.Length0 == Width && grid.Length1 == Height
      requires 0 <= y < Height
      ensures full == RowFull(Snap(grid), y)
    {
      full := true;
      var x := 0;
      while x < 10
        invariant 0 <= x <= Width
        invariant full
        invariant forall x' :: 0 <= x' < x ==> grid[x', y] != 0
      {
        if grid[x, y] == 0 {
          full := false;
          break;
        }
        x := x + 1;
      }
    }

    /**
     * Empty square (x, y), then walk upwards from row y moving every filled
     * square of column x into the empty square below it.
     */
    method ShiftColumnDown(x: int, y: int)
      requires grid.Length0 == Width && grid.Length1 == Height
      requires 0 <= x < Width && 0 <= y < Height
      modifies grid
      ensures forall r :: 0 <= r < Height ==>
        grid[x, r] == if r == 0 then 0 else if r <= y then old(grid[x, r - 1]) else old(grid[x, r])
      ensures forall c, r :: 0 <= c < Width && 0 <= r < Height && c != x ==> grid[c, r] == old(grid[c, r])
    {
      grid[x, y] := 0;
      var y2 := y;
      while y2 >= 0
        invariant -1 <= y2 <= y
        invariant forall c, r :: 0 <= c < Width && 0 <= r < Height && c != x ==> grid[c, r] == old(grid[c, r])
        invariant forall r :: y < r < Height ==> grid[x, r] == old(grid[x, r])
        invariant forall r :: 0 <= r <= y2 ==> grid[x, r] == if r == y then 0 else old(grid[x, r])
        invariant forall r :: y2 + 1 < r <= y ==> grid[x, r] == old(grid[x, r - 1])
        invariant y2 < y ==> grid[x, y2 + 1] == 0
      {
        if grid[x, y2] != 0 && grid[x, y2 + 1] == 0 {
          grid[x, y2 + 1] := grid[x, y2];
          grid[x, y2] := 0;
        }
        y2 := y2 - 1;
      }
    }

    /** Clear row y column by column, shifting the squares above it down. */
    method ClearRow(y: int)
      requires grid.Length0 == Width && grid.Length1 == Height
      requires 0 <= y < Height
      modifies grid
      ensures Snap(grid) == Playfield.ClearRow(old(Snap(grid)), y)
    {
      ghost var b := Snap(grid);
      for x := 0 to 10
        invariant forall c, r :: 0 <= c < Width && 0 <= r < Height ==>
          grid[c, r] == if c < x then Dropped(b, y, c, r) else b[c][r]
      {
        ShiftColumnDown(x, y);
      }
      ClearRowCells(b, y);
      BoardExt(Snap(grid), Playfield.ClearRow(b, y));
    }

    /**
     * The row sweep at the start of a gravity step: rows are scanned top to
     * bottom, each full one is cleared and earns 10 points.
     */
    method SweepRows()
      requires grid.Length0 == Width && grid.Length1 == Height
      modifies this`score, this`lines, grid
      ensures Snap(grid) == SweepFrom(old(Snap(grid)), 0).board
      ensures lines == old(lines) + SweepFrom(old(Snap(grid)), 0).lines
      ensures score == old(score) + 10 * SweepFrom(old(Snap(grid)), 0).lines
    {
      ghost var b := Snap(grid);
      ghost var total := SweepFrom(b, 0);
      ghost var cur := b;
      ghost var cleared := 0;
      for y := 0 to 20
        invariant cur == Snap(grid)
        invariant score == old(score) + 10 * cleared && lines == old(lines) + cleared
        invariant SweepFrom(cur, y).board == total.board
        invariant cleared + SweepFrom(cur, y).lines == total.lines
      {
        var full := RowIsFull(y);
        SweepStep(cur, y);
        if full {
          ClearRow(y);
          cur := Playfield.ClearRow(cur, y);
          score := score + 10;
          lines := lines + 1;
          cleared := cleared + 1;
        }
      }
    }

    /**
     * One gravity step: sweep full rows, drop the active piece one row, and when
     * there is no piece or it has landed spawn a piece of the rolled kind at the
     * spawn point; the game is over if that new piece collides at once.
     */
    method GameAction(roll: int)
      requires Valid()
      requires 0 <= roll < 7
      modifies this, grid, piece
      ensures Valid()
      ensures paused == old(paused) && ticks == old(ticks)
      ensures score == old(score) + 10 * SweepFrom(old(Snap(grid)), 0).lines
      ensures old(gameOver) ==> gameOver
      ensures old(piece) != null && !Collides(old(piece.Shape()), old(piece.x), old(piece.y) + 1, SweepFrom(old(Snap(grid)), 0).board) ==>
        piece == old(piece) && piece.x == old(piece.x) && piece.y == old(piece.y) + 1 && piece.index == old(piece.index) &&
        Snap(grid) == SweepFrom(old(Snap(grid)), 0).board && gameOver == old(gameOver)
      ensures old(piece) != null && Collides(old(piece.Shape()), old(piece.x), old(piece.y) + 1, SweepFrom(old(Snap(grid)), 0).board) ==>
        Snap(grid) == Stamp(SweepFrom(old(Snap(grid)), 0).board, old(piece.Shape()), old(piece.x), old(piece.y), Tag(old(piece.kind)))
      ensures old(piece) == null ==> Snap(grid) == SweepFrom(old(Snap(grid)), 0).board
      ensures old(piece) == null || Collides(old(piece.Shape()), old(piece.x), old(piece.y) + 1, SweepFrom(old(Snap(grid)), 0).board) ==>
        fresh(piece) && piece.kind == KindOfRoll(roll) && piece.x == SpawnX && piece.y == SpawnY && piece.index == 0 &&
        gameOver == (old(gameOver) || Collides(piece.Shape(), SpawnX, SpawnY, Snap(grid)))
    {
      ghost var before := Snap(grid);
      SweepRows();
      // naming the swept board here keeps the rest of the proof small
      assert Snap(grid) == SweepFrom(before, 0).board;
      var falling := false;
      if piece != null {
        InFieldProjectSafe(piece.Shape(), piece.x, piece.y);
        falling := piece.MoveDown(grid);
        if falling {
          NoCollisionInField(piece.Shape(), piece.x, piece.y, Snap(grid));
          return;
        }
      }
      piece := new Piece(KindOfRoll(roll));
      SpawnInField(piece.kind);
      var hit := piece.CollidesWith(grid);
      if hit {
        gameOver := true;
      }
    }

    /**
     * Key dispatch. Nothing happens once the game is over. Escape toggles the
     * pause flag; with an active piece, Right and Left try to shift it, Up tries
     * to rotate it and Down makes the next tick a gravity step. The arrow keys
     * work while paused. The result says whether the key was consumed.
     */
    method HandleKey(key: Key) returns (handled: bool)
      requires Valid()
      modifies this`paused, this`ticks, piece
      ensures Valid()
      ensures handled == (!old(gameOver) && (key == Escape || (key != Other && piece != null)))
      ensures paused == if !old(gameOver) && key == Escape then !old(paused) else old(paused)
      ensures ticks == if !old(gameOver) && key == Down && piece != null then 3 else old(ticks)
      ensures piece != null ==> piece.y == old(piece.y)
      ensures piece != null ==> (piece.x ==
        if !old(gameOver) && (key == Right || key == Left) then
          var dir := if key == Right then 1 else -1;
          if Collides(old(piece.Shape()), old(piece.x) + dir, piece.y, Snap(grid)) then old(piece.x) else old(piece.x) + dir
        else old(piece.x))
      ensures piece != null ==> (piece.index ==
        if !old(gameOver) && key == Up && !Collides(Rotations(piece.kind)[PrevIndex(old(piece.index), |Rotations(piece.kind)|)], piece.x, piece.y, Snap(grid))
        then PrevIndex(old(piece.index), |Rotations(piece.kind)|)
        else old(piece.index))
    {
      handled := false;
      if !gameOver {
        if key == Escape {
          paused := !paused;
          return true;
        }
        if key == Right && piece != null {
          piece.Move(grid, 1);
          NoCollisionInField(piece.Shape(), piece.x, piece.y, Snap(grid));
          return true;
        }
        if key == Left && piece != null {
          piece.Move(grid, -1);
          NoCollisionInField(piece.Shape(), piece.x, piece.y, Snap(grid));
          return true;
        }
        if key == Up && piece != null {
          var rotated := piece.Rotate(grid);
          NoCollisionInField(piece.Shape(), piece.x, piece.y, Snap(grid));
          return true;
        }
        if key == Down && piece != null {
          ticks := 3;
          return true;
        }
      }
    }

    /**
     * One tick of the game loop: advance the counter and run a gravity step
     * exactly when it wraps to 0 while the game is neither paused nor over.
     */
    method Tick(roll: int) returns (gravity: bool)
      requires Valid()
      requires 0 <= roll < 7
      modifies this, grid, piece
      ensures Valid()
      ensures ticks == NextTick(old(ticks))
      ensures gravity == (!old(paused) && !old(gameOver) && old(ticks) == 3)
      ensures paused == old(paused)
      ensures old(gameOver) ==> gameOver
      ensures !gravity ==>
        score == old(score) && gameOver == old(gameOver) && piece == old(piece) &&
        Snap(grid) == old(Snap(grid)) && (piece != null ==> unchanged(piece))
      ensures gravity ==> score == old(score) + 10 * SweepFrom(old(Snap(grid)), 0).lines
      ensures gravity && old(piece) != null && !Collides(old(piece.Shape()), old(piece.x), old(piece.y) + 1, SweepFrom(old(Snap(grid)), 0).board) ==>
        piece == old(piece) && piece.x == old(piece.x) && piece.y == old(piece.y) + 1 && piece.index == old(piece.index) &&
        Snap(grid) == SweepFrom(old(Snap(grid)), 0).board && !gameOver
      ensures gravity && old(piece) != null && Collides(old(piece.Shape()), old(piece.x), old(piece.y) + 1, SweepFrom(old(Snap(grid)), 0).board) ==>
        Snap(grid) == Stamp(SweepFrom(old(Snap(grid)), 0).board, old(piece.Shape()), old(piece.x), old(piece.y), Tag(old(piece.kind)))
      ensures gravity && old(piece) == null ==> Snap(grid) == SweepFrom(old(Snap(grid)), 0).board
      ensures gravity && (old(piece) == null || Collides(old(piece.Shape()), old(piece.x), old(piece.y) + 1, SweepFrom(old(Snap(grid)), 0).board)) ==>
        fresh(piece) && piece.kind == KindOfRoll(roll) && piece.x == SpawnX && piece.y == SpawnY && piece.index == 0 &&
        gameOver == Collides(piece.Shape(), SpawnX, SpawnY, Snap(grid))
    {
      ticks := ticks + 1;
      if ticks > 3 {
        ticks := 0;
      }
      gravity := !paused && !gameOver && ticks == 0;
      if gravity {
        GameAction(roll);
      }
    }
  }
}
