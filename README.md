# termbreaker simulation core in Dafny

A model of the simulation core of termbreaker, a breakout game for the terminal. The model covers the
geometry and entities of `src/phys.rs` and the game state machine of `src/breaker.rs`:
- the block layout generator;
- building a game;
- one tick of `update`;
- the draw calls a frame makes.

The model is in two files:
- `phys.dfy` (module `Phys`): `Square`, `Vec2d`, `Size`, `Direction` and the three entity kinds;
- `breaker.dfy` (module `Breaker`): `generate_blocks` and the `Game` class.

How the source is mapped:
- Rust `u16` and `i16` become the subset types `U16` and `I16`.
- In a debug build, every unchecked `+`, `-` or `*= -1` in the source panics on overflow. Each one becomes a
  precondition of the member that performs it. `CollidesWithDefined` states exactly when the
  short-circuiting additions of `collides_with` stay in range.
- The `checked_add` and `checked_sub` of `move_x` and `move_y` saturate, as in the source.
- The value structs are Dafny datatypes: `Square` (which is `Copy`), `Vec2d`, `Size` and the entities.
  A `&mut self` method on one of them is the function that gives the new value. The game stores
  that value back into its field.
- `Game` is a class with the fields `ball`, `paddle` and `blocks`. `GenerateBlocks`, `Update` and
  `Draw` are methods with loops, proved against recursive specification functions:
  - `GenerateBlocks` against `Layout`;
  - the block loop of `Update` against `Collide`;
  - `Draw` against `AliveCalls`.

  The properties of the layout, of the block loop and of the draw list are lemmas about those
  functions.
- `Game.Valid` is the invariant that `Game::new` establishes and every tick keeps:
  - the paddle is on the field and moves at most one cell a tick;
  - one more step of the ball cannot overflow a `u16`;
  - both components of the ball's speed are -1 or 1;
  - every block's edges are representable.

Some facts the proofs bring out:
- Touching edges never collide (`TouchingDoNotCollide`). A rectangle of zero width or zero height
  still collides with a rectangle that strictly contains it, because the test only compares edges
  (`EmptyInsideCollides`, `EmptyCollidesOnlyStrictlyInside`). Two rectangles that are both empty on
  the same axis never collide (`Square.CollidesWith`). Only for rectangles of positive size
  does the test mean "some cell is covered by both" (`CollidesIffSharedCell`).
- The paddle rule sends the ball left (speed.x = -1) when the ball's left edge is right of the
  paddle's midpoint `x + w / 2`, and right otherwise, so a ball striking the right half of the
  paddle is sent back to the left (`PaddleBounce`).
- `row % BLOCK_HEIGHT * 2 == 0` parses as `(row % 2) * 2 == 0`, so even rows start at column 0 and
  odd rows at column 2 (`ColOffset`).
- `Game::new` subtracts without checks. It needs a terminal at least 7 columns wide (for
  `w / 2 - 3`) and 4 rows high (for `h - 3`). With a terminal 4 or 5 rows high, the ball starts
  below the field. So `Valid` asks only that the ball fits, not that it is inside. After the
  first tick it is inside (`Game.Update`).

## Model

| member | source | states |
|---|---|---|
| Phys.AsI16 | src/phys.rs:80-81 | `as i16` keeps the value modulo 2^16, and leaves values up to 32767 unchanged |
| Phys.Square.GetCenter | src/phys.rs:78-83 | the centre as written: x + w/2 and y + y/2 (each exact when below 32768), defined only when both sums fit in `u16` |
| Phys.Square.CenterIntended | src/phys.rs:78-83 | the corrected centre agrees with `get_center` on x, and lies inside every non-empty rectangle |
| Phys.GetCenterLeavesSquare | src/phys.rs:81 | the centre as written of the 2x2 square at (0, 10) is (1, 15), a cell outside the square |
| Phys.Square.CollidesWithDefined | src/phys.rs:71-76 | the exact condition under which the short-circuited `u16` edge sums of `collides_with` do not panic; it holds whenever both rectangles' right and bottom edges fit in `u16` |
| Phys.Square.CollidesWith | src/phys.rs:71-76 | strict overlap on both axes, defined exactly where `CollidesWithDefined` holds; a collision needs at least one of the two rectangles to have positive width, and at least one to have positive height |
| Phys.CollidesIffSharedCell | src/phys.rs:71-76 | for rectangles of positive size, `collides_with` holds exactly when some cell is covered by both |
| Phys.CollidesSymmetric | src/phys.rs:71-76 | `a.collides_with(b) == b.collides_with(a)` wherever both are defined |
| Phys.TouchingDoNotCollide | src/phys.rs:72-75 | rectangles sharing only an edge line do not collide |
| Phys.EmptyInsideCollides | src/phys.rs:72-75 | a 0x0 rectangle and a 0x10 rectangle inside a 10x10 one each collide with it both ways, while covering no cell |
| Phys.EmptyCollidesOnlyStrictlyInside | src/phys.rs:72-75 | a rectangle of zero width (zero height) collides exactly when it lies strictly between the other's left and right (top and bottom) edges and overlaps it on the other axis |
| Phys.Square.MoveX | src/phys.rs:120-134 | a zero delta changes nothing; a negative delta gives max(0, x + d); a positive delta gives min(65535, x + d); only x changes; `i16::MIN` is excluded, because `x * -1` overflows |
| Phys.Square.MoveY | src/phys.rs:104-118 | the same as MoveX, on y |
| Phys.Square.KeepInside | src/phys.rs:137-145 | the result is inside the bounds, has the same size, and is at min(x, bounds.w - w), min(y, bounds.h - h); the edge sums and the subtractions must not overflow |
| Phys.KeepInsideIdempotent | src/phys.rs:137-145 | clamping twice equals clamping once, and a rectangle already inside is left unchanged |
| Phys.PlayerEntity.ApplySpeed | src/phys.rs:10-14 | the collider moves to the saturated position clamped into the bounds, keeps its size and ends inside; speed and alive are unchanged |
| Phys.PhysicsEntity.ApplySpeed | src/phys.rs:33-37 | the same as PlayerEntity.ApplySpeed, for the ball |
| Breaker.ColOffset | src/breaker.rs:44-48 | the column offset is 0 on even rows and 2 on odd rows |
| Breaker.ToggleColor | src/breaker.rs:64-68 | within a row the colour index stays below 4 and in its pair (0/1 or 2/3), and always changes |
| Breaker.NextRowColor | src/breaker.rs:70 | at a row's end the index moves to the first colour of the other pair |
| Breaker.RowEndColor | src/breaker.rs:50-69 | a row ends on its starting colour index or on that index's partner |
| Breaker.Layout | src/breaker.rs:31-74 | the blocks `generate_blocks` returns, row by row from row 2; a field at most 5 rows high gets no blocks |
| Breaker.GenerateBlocks | src/breaker.rs:31-74 | the nested loops produce exactly `Layout(screen_size)`; they need the screen to be 4 wide once a row is started |
| Breaker.RowBlocksAt | src/breaker.rs:49-69 | a row has a k-th block exactly when col + 5k < w - 4, and that block is at col + 5k with the start colour when k is even and its partner when k is odd |
| Breaker.RowWellPlaced | src/breaker.rs:44-69 | every block of a row is well placed (alive, 4x2, on the grid, coloured by its position) and on that row; the row runs left to right |
| Breaker.NextRowPair | src/breaker.rs:64-70 | each row starts on the colour pair that alternates row by row, starting with (Magenta, Grey) |
| Breaker.RowsWellPlaced | src/breaker.rs:40-72 | every block from a row on is well placed and at or below that row, and the blocks come row by row, left to right |
| Breaker.RowsComplete | src/breaker.rs:40-72 | every grid position at or below a row holds a block |
| Breaker.LayoutWellPlaced | src/breaker.rs:31-74 | every generated block is alive and 4x2, with y in [2, h/2) on rows 3 apart and x < w - 4 on columns 5 apart from the row's offset, coloured by its position; the blocks are ordered |
| Breaker.LayoutComplete | src/breaker.rs:31-74 | every grid position holds a generated block |
| Breaker.OrderedNoOverlap | src/breaker.rs:50-71 | 4x2 blocks ordered on the 5-column and 3-row pitch are pairwise apart: `collides_with` is defined on every pair and false |
| Breaker.LayoutNoOverlap | src/breaker.rs:31-74 | no two generated blocks collide |
| Breaker.PaddleSpeedX | src/breaker.rs:112-131 | the paddle speed is -1 exactly for Left and 1 exactly for Right; every other key or none gives 0 |
| Breaker.WallBounce | src/breaker.rs:136-146 | speed.x is inverted when the ball is on a side wall and speed.y when it is on the top or bottom wall, tested by equality; position and alive are unchanged |
| Breaker.WallBounceTurnsAway | src/breaker.rs:137-146 | a ball on any of the four walls and moving towards it leaves the bounce moving away from that wall |
| Breaker.PaddleBounce | src/breaker.rs:148-158 | without contact nothing changes; on contact speed.y is inverted, and speed.x becomes -1 when the ball's left edge is right of the paddle's midpoint, 1 otherwise |
| Breaker.BlockBounce | src/breaker.rs:167-180 | a hit on side UP or DOWN inverts speed.y only; a hit on side LEFT or RIGHT inverts speed.x only |
| Breaker.Collide | src/breaker.rs:160-182 | the block loop never produces an `i16::MIN` speed component |
| Breaker.CollideBlocks | src/breaker.rs:160-166 | the loop keeps the block count, each block's place, collider and colour; a block ends dead exactly when it was dead or was alive and overlapped the ball |
| Breaker.CollideKeepsUnitSpeed | src/breaker.rs:160-182 | speed components of -1 or 1 stay -1 or 1 through the block loop |
| Breaker.DeadBlockInert | src/breaker.rs:161-163 | replacing a dead block by any other dead block does not change the ball's resulting speed |
| Breaker.CollideMissChangesNothing | src/breaker.rs:160-182 | when no alive block overlaps the ball, the loop changes neither the blocks nor the speed |
| Breaker.AliveCalls | src/breaker.rs:191-196 | the draw calls of the alive blocks in collection order; never more calls than blocks |
| Breaker.AliveCallsExact | src/breaker.rs:191-196 | there is one draw call per alive block; the i-th alive block is drawn at the position given by the count of alive blocks before it; every call belongs to an alive block |
| Breaker.AdvancePlayable | src/breaker.rs:132-158 | moving the paddle and the ball and bouncing off walls and paddle keeps the state playable: both entities inside the field, and the ball's speed components still -1 or 1 |
| Breaker.CollidePlayable | src/breaker.rs:159-182 | from a playable state, the overlap test is defined for every block the loop reaches, and the state stays playable |
| Breaker.Game.constructor | src/breaker.rs:77-106 | the field is the terminal less one cell each way; the ball is 1x1 at (w/2, h/2 + 2) with speed (1, 1); the paddle is 6x1 at (w/2 - 3, h - 3) at rest; the blocks are the layout, all well placed; the invariant holds; the terminal must be at least 7x4 |
| Breaker.Game.Update | src/breaker.rs:110-185 | Quit returns false and changes nothing; any other input returns true. The paddle takes the key's speed and moves. The ball moves, bounces off walls and paddle, and then runs the block loop, all in source order. Both entities end inside the field, with no arrow key the paddle stays where it was, and the invariant (unit ball speed) is kept |
| Breaker.Game.Advance | src/breaker.rs:132-158 | moves the paddle, then the ball, then bounces off walls and paddle, in place; blocks are unchanged and the invariant is kept |
| Breaker.Game.BounceOffWalls | src/breaker.rs:136-146 | the in-place wall bounce produces `WallBounce` of the old ball; paddle and blocks are unchanged |
| Breaker.Game.BounceOffPaddle | src/breaker.rs:148-158 | the in-place paddle bounce produces `PaddleBounce` of the old ball; paddle and blocks are unchanged |
| Breaker.Game.BreakBlocks | src/breaker.rs:159-182 | the in-place loop over the blocks yields exactly the blocks and ball speed of `Collide`; the ball's position and the paddle are unchanged |
| Breaker.Game.HitBlock | src/breaker.rs:160-181 | one block: a dead block or a miss changes nothing; an alive block that overlaps is tombstoned and the speed bounces by the struck side |
| Breaker.Game.Draw | src/breaker.rs:187-199 | the draw calls are those of the alive blocks in order, then the paddle in cyan, then the ball in red |

## Left out

- `get_collision_direction` (src/phys.rs:85-102) buckets an `f64::atan2` angle. Floating point is not modelled. The classifier is a parameter `collisionDirection` of `Update`, `BreakBlocks` and `Collide`, and every property holds for any classifier. Its `i16` subtraction of the two centres, which can overflow, is therefore not modelled either.
- Phys.Square.CenterIntended: nothing else in the model calls it, or `GetCenter`, because the only caller in the source is the classifier above.
- `src/drawer.rs` and `src/screen_handler.rs` are terminal I/O and are not part of this model. `Draw` returns the sequence of draw calls instead of queueing escape sequences.
- The input loop of `src/main.rs` is not part of this model. `Update` receives at most one key per tick as a parameter. The running program handles `q` in that loop before `update` sees it, but the model keeps `update`'s own Quit branch.
- crossterm's `KeyCode` and `style::Color` are replaced by the datatypes `Key` (Left, Right, `q`, any other) and `Color`.
- The `&mut self` methods of `Square` and of the entities are functions returning the new value. `Square` is `Copy` and no entity is shared, so no aliasing is lost. The in-place update is the field assignment in `Game`.
- `Game::update` is one function in the source. The model runs the same steps in the same order through the methods `Advance`, `BounceOffWalls`, `BounceOffPaddle`, `BreakBlocks` and `HitBlock`.
- Breaker.Game.Update: its contract ties the new blocks to `Collide`. The per-block facts (same count, colliders and colours; alive only goes from true to false) are stated by `CollideBlocks` about `Collide`, not repeated in `Update`'s own contract.

## Findings

| source | as written | input that shows it | evidently intended | confidence | as-written member | corrected member |
|---|---|---|---|---|---|---|
| src/phys.rs:81 | the centre's y is `y + y / 2` | the 2x2 square at (0, 10) gets centre (1, 15), which is outside it (its rows are 10 and 11) | `y + h / 2` | high, not executed | Phys.GetCenterLeavesSquare | Phys.Square.CenterIntended |
