# Falling-block game engine, modelled in Dafny

This project models the game-state engine of a small falling-block puzzle game
written in C#. The playfield is a 10 x 20 integer grid `grid[x, y]`: column `x`,
row `y`, with row 0 at the top. A square holds 0 when it is empty and a kind's
tag (1..7) once a piece has settled there. One piece falls at a time. It has a
kind, a position `(x, y)` for the top-left corner of its 4x4 mask, and an index
into its kind's list of rotation masks. The session holds the score, the pause
and game-over flags and a tick counter. The counter counts 0..3 and wraps; a
gravity step runs on the tick where it wraps to 0, if the game is neither paused
nor over. The Down key sets the counter to 3, so that the very next tick runs
gravity if, at that tick, the game is neither paused nor over.

Modules, one per component:

- `Shapes` (`shapes.dfy`): the seven kinds `O I S Z L J T`, their type tags and
  their rotation masks (`m[row][col]`), with the catalog facts.
- `Playfield` (`playfield.dfy`): the value view of the grid. `Snap` turns the
  `array2<int>` into a `Board` (a sequence of columns). The file also holds the
  specification of a row clear (`ClearRow`) and of the top-to-bottom sweep
  (`SweepFrom`), with lemmas about both.
- `Pieces` (`piece.dfy`): the collision predicate `Collides`, the stamping
  function `Stamp`, and the rotation-index arithmetic. It also holds the class
  `Piece`, whose methods change `x`, `y` and `index` in place by a tentative
  update followed by a revert, and write the grid array in place.
- `Game` (`session.dfy`): the class `Session`. It covers the gravity step
  (`GameAction`), the key dispatch (`HandleKey`) and one tick of the game loop
  (`Tick`), over the grid array and a nullable active piece.

Each imperative method is proved against a specification function. Examples:
`Snap(grid) == Stamp(old(Snap(grid)), ...)` and `Snap(grid) ==
SweepFrom(old(Snap(grid)), 0).board`. What the game promises is then proved
about those functions as lemmas.

`Session.Valid()` is the invariant kept between operations:

- the grid is 10 x 20;
- the counter is in 0..3;
- the score is ten times the number of cleared rows;
- a finished game has a piece;
- every occupied square of the active piece lies inside the 10 x 20 field, also
  once the game is over, so the piece can be stamped without indexing outside
  the grid;
- while the game runs, the active piece does not collide.

Inside `GameAction` the last point can be broken for a moment. The sweep
shifts settled squares down, and it can move one into a square of the falling
piece when the piece sits under an overhang. The drop that follows restores the
invariant in both outcomes: either the piece moves to a free position, or a new
piece spawns. A stamp never overwrites a filled square, so a square taken in
this way is skipped when the piece lands.

Some behaviours of the code are worth stating outright, because the model
keeps them as they are:

- An occupied mask square above the top row (`y + j < 0`) counts as a
  collision (Piece.cs:44), so no part of a piece may stick out above the field.
- Full rows are swept at the start of each gravity step, before the drop
  (Main.cs:114-149). A row completed by a landing piece is therefore cleared on
  the next gravity step.
- Right, Left and Up act while the game is paused (Main.cs:60-80); only
  gravity stops.
- The stamping loop guards only the upper bounds `x + i < 10` and `y + j < 20`
  (Piece.cs:81). `Project` and `MoveDown` therefore require `ProjectSafe`:
  every occupied square that passes the guard has non-negative coordinates.
  The session invariant keeps the piece inside the field, which implies this
  (`InFieldProjectSafe`).

## Model

| member | source | states |
|---|---|---|
| `Shapes.Rotations` | Piece.cs:90-293 | O has 1 rotation state, I, S and Z have 2, L, J and T have 4; every state is a 4x4 mask of 0s and 1s |
| `Shapes.Tag` | Piece.cs:94-262 | the tag a kind writes into the grid is in 1..7, so never the empty value 0 |
| `Shapes.TagInjective` | Piece.cs:94-262 | distinct kinds have distinct tags (O=4, I=1, S=5, Z=7, L=3, J=2, T=6) |
| `Shapes.FourSquares` | Piece.cs:96-290 | every rotation state of every kind has exactly four occupied squares |
| `Shapes.SpawnMaskTopRowEmpty` | Piece.cs:96-271 | the first rotation state of every kind has an empty top row |
| `Pieces.SpawnInField` | Piece.cs:7 | at the default position x=3, y=-1, index 0, every occupied square of every kind lies inside the 10 x 20 field |
| `Pieces.SpawnProjectSafe` | Piece.cs:7 | a piece at the default position can be stamped without a negative grid index |
| `Pieces.Piece.constructor` | Piece.cs:7 | a new piece starts at x=3, y=-1 with rotation index 0 |
| `Pieces.Piece.CollidesWith` | Piece.cs:36-52 | the result is true exactly when some occupied mask square `(x+i, y+j)` is left of column 0, right of column 9, above row 0, below row 19, or on a non-zero square; nothing changes |
| `Pieces.NoCollisionInField` | Piece.cs:44 | a placement that does not collide has every occupied square inside the field and on an empty square |
| `Pieces.Piece.Move` | Piece.cs:27-33 | x moves by exactly `dir` if the shifted piece does not collide, and is restored otherwise; y, index and the grid never change |
| `Pieces.PrevIndex` | Piece.cs:59-62 | the decremented rotation index wraps from 0 to the last state: it stays in range and equals `(i - 1) mod n` |
| `Pieces.Piece.Rotate` | Piece.cs:55-70 | the result is true exactly when the piece at the previous rotation index does not collide; on success the index takes that value and on failure it is restored; x, y and the grid never change |
| `Pieces.RotationCycle` | Piece.cs:57-62 | n successive successful rotations of a kind with n states bring the index back to where it started |
| `Pieces.Stamp` | Piece.cs:73-87 | stamping never overwrites a filled square; a square that changes was empty, lies under an occupied mask square and takes the piece's tag |
| `Pieces.Piece.Project` | Piece.cs:73-87 | the grid after the nested loops equals `Stamp` of the grid before |
| `Pieces.StampNoCollision` | Piece.cs:73-87 | for a piece that does not collide, stamping fills exactly the squares its mask covers, each of them empty before, and changes nothing else |
| `Pieces.NoCollisionProjectSafe` | Piece.cs:81 | a piece that does not collide satisfies the non-negative-index requirement of the stamping loop |
| `Pieces.InFieldProjectSafe` | Piece.cs:81 | a piece whose occupied squares lie inside the field satisfies the non-negative-index requirement of the stamping loop |
| `Pieces.Piece.MoveDown` | Piece.cs:12-24 | true means y grew by exactly 1 and the grid is unchanged; false means y is back at its old value and the grid was stamped with the piece |
| `Game.Session.constructor` | Main.cs:21-28 | a new session owns a newly allocated grid that no other object shares; it has score 0, is neither paused nor over, has counter 0, has no piece and has an empty grid |
| `Game.Session.RowIsFull` | Main.cs:117-125 | the scan with early exit reports true exactly when all ten squares of the row are non-zero |
| `Game.Session.ShiftColumnDown` | Main.cs:130-139 | in the column, row 0 becomes 0, each square of rows 0..y-1 moves down exactly one row (empty squares included), rows below y are unchanged, other columns are untouched; row 20 is never read |
| `Game.Session.ClearRow` | Main.cs:128-140 | the grid after clearing row y equals `Playfield.ClearRow` of the grid before |
| `Playfield.ClearRowCells` | Main.cs:128-140 | clearing row y moves every square of rows 0..y-1 down by one, empties row 0 and keeps the rows below y |
| `Playfield.ShiftColumnKeepsValues` | Main.cs:128-140 | in each column the values after the clear are the values before, minus the cleared square, plus one 0: nothing is duplicated, lost or changed |
| `Playfield.ShiftColumnFilled` | Main.cs:128-140 | clearing a filled square lowers the column's count of filled squares by exactly one |
| `Playfield.ClearRowRemovesOneRow` | Main.cs:128-140 | clearing a full row removes exactly ten filled squares from the board |
| `Playfield.SweepFrom` | Main.cs:115-146 | a sweep from row y clears at most `20 - y` rows |
| `Game.Session.SweepRows` | Main.cs:115-146 | the grid after the row loop equals the sweep of the grid before, and the score grows by 10 for each row cleared |
| `Playfield.SweepCountsFullRows` | Main.cs:115-146 | a sweep clears exactly as many rows as were full when it started, so two rows full together are both cleared in one call (+20) |
| `Playfield.SweepLeavesNoFullRow` | Main.cs:115-146 | after the sweep no row of the board has all ten squares filled |
| `Playfield.SweepWithoutFullRows` | Main.cs:115-146 | a sweep over rows none of which is full changes nothing and clears nothing |
| `Playfield.SweepEmptyBoard` | Main.cs:115-146 | sweeping the empty grid clears nothing and leaves it empty |
| `Playfield.EmptyBoard` | Main.cs:24 | the initial grid has 0 in every square |
| `Game.RollBijection` | Main.cs:151-160 | each of the seven roll outcomes spawns a different kind and every kind has one outcome |
| `Game.Session.GameAction` | Main.cs:110-167 | the rows are swept first and the score grows by 10 per swept row; then the piece drops one row if it can, keeping its column and rotation; if it landed, it is stamped into the swept grid; if it landed or there was none, a new piece of the rolled kind appears at x=3, y=-1, index 0 and the game is over exactly when that piece collides; game over is never reset; the invariant is kept |
| `Game.Session.HandleKey` | Main.cs:49-88 | once the game is over no key changes anything; Escape toggles pause; with a piece, Right and Left move it by +1 and -1, Up rotates it and Down sets the counter to 3, none gated by pause; the grid never changes; other keys are not handled |
| `Game.NextTick` | Main.cs:92-96 | the counter advances by one and wraps from 3 to 0, so it stays in 0..3 and equals `(t + 1) mod 4` |
| `Game.Session.Tick` | Main.cs:90-100 | the counter advances with `NextTick`; gravity runs exactly on the tick where the counter wraps to 0, if the game is neither paused nor over at that tick, so after Down the very next tick runs gravity if the game is then neither paused nor over; a gravity tick has the full effect of `GameAction` (sweep and score, drop keeping column and rotation, or stamp and spawn of the rolled kind at x=3, y=-1, index 0, with game over exactly when the new piece collides); otherwise nothing else changes |

## Left out

- Drawing (`Draw`, `getColor`, the grid size and padding, the picture box and its refresh) is left out. It reads the state and has no game logic.
- Sound playback (`SoundPlayer`) is left out. Of the rotation sound choice, only the boolean result of `Rotate` is kept.
- The self-recursive async game loop and its 50 ms `Task.Delay` are left out. `Tick` models one iteration, and the caller supplies the sequence of ticks. The source's constructor starts the loop itself, and its first iteration runs before the constructor returns; here that `GameLoop()` call is the caller's first `Tick`, so the modelled constructor leaves the counter at 0.
- `rng.Next(7)` is not modelled as randomness. The roll in 0..6 is a parameter of `GameAction` and `Tick`, mapped to a kind by `KindOfRoll` in the order of the source's `switch`.
- WinForms `Keys`, `Message` and `base.ProcessCmdKey` are replaced by the `Key` datatype. An unhandled key returns false, meaning it is passed on; the framework's own result for such keys is not modelled.
- The subclasses `O` to `T` and the per-instance `rotations` list and `type` field are replaced by the `Kind` datatype. Each piece looks up its masks with `Rotations` and its tag with `Tag`.
- Game.Session.SweepRows: the score is an unbounded integer; the source's 32-bit `int` would wrap after about 214 million cleared rows, which the model does not represent.
- Pieces.Piece.Move: `dir` is any integer. The source only ever passes +1 and -1.
