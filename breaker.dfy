/** The breakout game state machine (src/breaker.rs): the block layout generator,
    construction of a game, one simulation tick, and the list of draw calls. */
module Breaker {
  import opened Phys

  const BLOCK_HEIGHT: nat := 2
  const BLOCK_WIDTH: nat := 4
  const BLOCK_ROW_START: nat := 2
  const BLOCK_COLORS: seq<Color> := [Magenta, Grey, Yellow, Green]

  /** The keys the game reacts to (the arrow keys and `q`); every other key code is `Other`. */
  datatype Key = MoveLeft | MoveRight | Quit | Other

  datatype Option<T> = None | Some(value: T)

  /** One request to the drawing surface: fill `square` with `color`. */
  datatype DrawCall = DrawCall(square: Square, color: Color)

  // ----- Block layout -----

  /** The column offset of a row. `%` and `*` bind equally tightly and associate to the
      left, so the test is `(row % BLOCK_HEIGHT) * 2 == 0`: even rows start at 0, odd ones at 2. */
  function ColOffset(row: int): (off: int)
    ensures off == if row % 2 == 0 then 0 else 2
  {
    if row % BLOCK_HEIGHT * 2 == 0 then 0 else BLOCK_WIDTH / 2
  }

  /** Within a row the colour index toggles inside its pair: 0 and 1, or 2 and 3. */
  function ToggleColor(ci: nat): (r: nat)
    requires ci < |BLOCK_COLORS|
    ensures r < |BLOCK_COLORS| && r / 2 == ci / 2 && r != ci
  {
    if ci % 2 == 0 then ci + 1 else ci - 1
  }

  /** At the end of a row the colour index moves to the other pair. */
  function NextRowColor(ci: nat): (r: nat)
    ensures r < |BLOCK_COLORS| && r % 2 == 0
    ensures ci < |BLOCK_COLORS| ==> r / 2 != ci / 2
  {
    if ci < 2 then 2 else 0
  }

  function NewBlock(col: U16, row: U16, ci: nat): StaticEntity
    requires ci < |BLOCK_COLORS|
  {
    StaticEntity(Square(col, row, BLOCK_WIDTH, BLOCK_HEIGHT), true, BLOCK_COLORS[ci])
  }

  /** The blocks the inner loop places in `row`, from column `col` on, with the colour
      index at `ci`. */
  function RowBlocks(row: U16, col: nat, ci: nat, w: U16): seq<StaticEntity>
    requires BLOCK_WIDTH <= w && ci < |BLOCK_COLORS|
    decreases w - col
  {
    if col < w - BLOCK_WIDTH then
      [NewBlock(col, row, ci)] + RowBlocks(row, col + BLOCK_WIDTH + 1, ToggleColor(ci), w)
    else
      []
  }

  /** The colour index the inner loop ends with. */
  function RowEndColor(col: nat, ci: nat, w: U16): (r: nat)
    requires BLOCK_WIDTH <= w && ci < |BLOCK_COLORS|
    ensures r == ci || r == ToggleColor(ci)
    decreases w - col
  {
    if col < w - BLOCK_WIDTH then RowEndColor(col + BLOCK_WIDTH + 1, ToggleColor(ci), w) else ci
  }

  /** The inner loop runs only when a row is started, and `screen_size.w - BLOCK_WIDTH`
      underflows unless the screen is at least one block wide. */
  predicate LayoutDefined(size: Size) {
    BLOCK_WIDTH <= size.w || size.h / 2 <= BLOCK_ROW_START
  }

  /** The blocks the outer loop places from `row` on, with the colour index at `ci`. */
  function Rows(row: nat, ci: nat, size: Size): seq<StaticEntity>
    requires BLOCK_WIDTH <= size.w || size.h / 2 <= row
    requires ci < |BLOCK_COLORS|
    decreases size.h / 2 - row
  {
    if row < size.h / 2 then
      RowBlocks(row, ColOffset(row), ci, size.w)
      + Rows(row + BLOCK_HEIGHT + 1, NextRowColor(RowEndColor(ColOffset(row), ci, size.w)), size)
    else
      []
  }

  /** The blocks `generate_blocks` returns. */
  function Layout(size: Size): (r: seq<StaticEntity>)
    requires LayoutDefined(size)
    ensures size.h / 2 <= BLOCK_ROW_START ==> r == []
  {
    Rows(BLOCK_ROW_START, 0, size)
  }

  /** `generate_blocks`: rows of 4x2 blocks from row 2 while `row < h / 2`, three rows
      apart, columns five apart from the row's offset while `col < w - 4`. */
  method GenerateBlocks(screenSize: Size) returns (blocks: seq<StaticEntity>)
    requires LayoutDefined(screenSize)
    ensures blocks == Layout(screenSize)
  {
    blocks := [];
    var row: nat := BLOCK_ROW_START;
    var blockRowEnd := screenSize.h / 2;
    var colorIndex: nat := 0;
    while row < blockRowEnd
      invariant colorIndex < |BLOCK_COLORS|
      invariant BLOCK_WIDTH <= screenSize.w || blockRowEnd <= row
      invariant blocks + Rows(row, colorIndex, screenSize) == Layout(screenSize)
      decreases blockRowEnd - row
    {
      var colOffset: nat := if row % BLOCK_HEIGHT * 2 == 0 then 0 else BLOCK_WIDTH / 2;
      var col := colOffset;
      ghost var rowStart, startColor := blocks, colorIndex;
      while col < screenSize.w - BLOCK_WIDTH
        invariant colorIndex < |BLOCK_COLORS|
        invariant blocks + RowBlocks(row, col, colorIndex, screenSize.w)
          == rowStart + RowBlocks(row, colOffset, startColor, screenSize.w)
        invariant RowEndColor(col, colorIndex, screenSize.w) == RowEndColor(colOffset, startColor, screenSize.w)
        decreases screenSize.w - col
      {
        var newBlock := StaticEntity(Square(col, row, BLOCK_WIDTH, BLOCK_HEIGHT), true, BLOCK_COLORS[colorIndex]);
        RowBlocksUnfold(blocks, row, col, colorIndex, screenSize.w);
        blocks := blocks + [newBlock];
        col := col + BLOCK_WIDTH + 1;
        colorIndex := if colorIndex % 2 == 0 then colorIndex + 1 else colorIndex - 1;
      }
      RowDone(blocks, rowStart, row, col, colorIndex, startColor, screenSize);
      colorIndex := if colorIndex < 2 then 2 else 0;
      row := row + BLOCK_HEIGHT + 1;
    }
  }

  /** One block of the inner loop. */
  lemma RowBlocksUnfold(acc: seq<StaticEntity>, row: U16, col: nat, ci: nat, w: U16)
    requires BLOCK_WIDTH <= w && ci < |BLOCK_COLORS| && col < w - BLOCK_WIDTH
    ensures acc + RowBlocks(row, col, ci, w)
      == (acc + [NewBlock(col, row, ci)]) + RowBlocks(row, col + BLOCK_WIDTH + 1, ToggleColor(ci), w)
  {
  }

  /** When the inner loop has finished a row, what the outer loop has left to place
      is the rows below it, starting on the other colour pair. */
  lemma RowDone(acc: seq<StaticEntity>, rowStart: seq<StaticEntity>, row: nat, col: nat, ci: nat, startColor: nat, size: Size)
    requires BLOCK_WIDTH <= size.w && row < size.h / 2
    requires ci < |BLOCK_COLORS| && startColor < |BLOCK_COLORS| && size.w - BLOCK_WIDTH <= col
    requires acc + RowBlocks(row, col, ci, size.w) == rowStart + RowBlocks(row, ColOffset(row), startColor, size.w)
    requires RowEndColor(col, ci, size.w) == RowEndColor(ColOffset(row), startColor, size.w)
    requires rowStart + Rows(row, startColor, size) == Layout(size)
    ensures acc + Rows(row + BLOCK_HEIGHT + 1, NextRowColor(ci), size) == Layout(size)
  {
    var next := Rows(row + BLOCK_HEIGHT + 1, NextRowColor(ci), size);
    var full := RowBlocks(row, ColOffset(row), startColor, size.w);
    assert RowBlocks(row, col, ci, size.w) == [] && RowEndColor(col, ci, size.w) == ci;
    assert acc == rowStart + full;
    assert Rows(row, startColor, size) == full + next;
    assert rowStart + (full + next) == acc + next;
  }

  // ----- What the layout looks like -----

  /** The colour pair of the block row at `y`: rows alternate between (Magenta, Grey)
      and (Yellow, Green), starting with the first. */
  function RowPair(y: int): nat {
    if (y - BLOCK_ROW_START) / (BLOCK_HEIGHT + 1) % 2 == 0 then 0 else 2
  }

  /** The colour index of the block at (x, y): its row's pair, then the entry of the
      pair given by the parity of its column number. */
  function ColorIndexAt(x: int, y: int): (ci: nat)
    ensures ci < |BLOCK_COLORS|
  {
    RowPair(y) + (x - ColOffset(y)) / (BLOCK_WIDTH + 1) % 2
  }

  /** (x, y) is a grid position of the layout: a row start 2, 5, 8, ... below half the
      screen height, and a column start offset, offset + 5, ... left of `w - 4`. */
  predicate OnGrid(x: int, y: int, size: Size) {
    BLOCK_ROW_START <= y < size.h / 2 && (y - BLOCK_ROW_START) % (BLOCK_HEIGHT + 1) == 0 &&
    ColOffset(y) <= x < size.w - BLOCK_WIDTH && (x - ColOffset(y)) % (BLOCK_WIDTH + 1) == 0
  }

  /** A generated block: alive, 4 wide and 2 high, on the grid, with its colour. */
  predicate WellPlaced(b: StaticEntity, size: Size) {
    b.alive && b.collider.w == BLOCK_WIDTH && b.collider.h == BLOCK_HEIGHT &&
    OnGrid(b.collider.x, b.collider.y, size) &&
    b.color == BLOCK_COLORS[ColorIndexAt(b.collider.x, b.collider.y)]
  }

  /** Block a comes before block b: on an earlier row, or further left on the same row. */
  predicate Before(a: Square, b: Square) {
    a.y + BLOCK_HEIGHT + 1 <= b.y || (a.y == b.y && a.x + BLOCK_WIDTH + 1 <= b.x)
  }

  /** No two blocks of `bs` overlap (and the overlap test is defined on every pair). */
  predicate PairwiseApart(bs: seq<StaticEntity>) {
    forall i, j :: 0 <= i < |bs| && 0 <= j < |bs| && i != j ==>
      bs[i].collider.CollidesWithDefined(bs[j].collider) && !bs[i].collider.CollidesWith(bs[j].collider)
  }

  predicate Ordered(bs: seq<StaticEntity>) {
    forall i, j :: 0 <= i < j < |bs| ==> Before(bs[i].collider, bs[j].collider)
  }

  /** The k-th block of a row is at column `col + 5 k` and takes the colour index
      `ci` or its partner by the parity of k; there is one exactly when that column is
      left of `w - 4`. */
  lemma {:induction false} RowBlocksAt(row: U16, col: nat, ci: nat, w: U16, k: nat)
    requires BLOCK_WIDTH <= w && ci < |BLOCK_COLORS|
    ensures k < |RowBlocks(row, col, ci, w)| <==> col + (BLOCK_WIDTH + 1) * k < w - BLOCK_WIDTH
    ensures k < |RowBlocks(row, col, ci, w)| ==>
      RowBlocks(row, col, ci, w)[k] == NewBlock(col + (BLOCK_WIDTH + 1) * k, row, if k % 2 == 0 then ci else ToggleColor(ci))
    decreases k
  {
    if col < w - BLOCK_WIDTH && k > 0 {
      var next := ToggleColor(ci);
      RowBlocksAt(row, col + BLOCK_WIDTH + 1, next, w, k - 1);
      assert ToggleColor(next) == ci;
    }
  }

  /** The blocks of one row, for a row colour index at the start of its pair. */
  lemma RowWellPlaced(row: nat, ci: nat, size: Size)
    requires BLOCK_ROW_START <= row < size.h / 2 && (row - BLOCK_ROW_START) % (BLOCK_HEIGHT + 1) == 0
    requires BLOCK_WIDTH <= size.w && ci == RowPair(row)
    ensures var r := RowBlocks(row, ColOffset(row), ci, size.w);
      (forall k :: 0 <= k < |r| ==> WellPlaced(r[k], size) && r[k].collider.y == row) && Ordered(r)
  {
    var r := RowBlocks(row, ColOffset(row), ci, size.w);
    forall k | 0 <= k < |r|
      ensures WellPlaced(r[k], size) && r[k].collider.y == row
      ensures r[k].collider.x == ColOffset(row) + (BLOCK_WIDTH + 1) * k
    {
      RowBlocksAt(row, ColOffset(row), ci, size.w, k);
      var x := ColOffset(row) + (BLOCK_WIDTH + 1) * k;
      assert (x - ColOffset(row)) / (BLOCK_WIDTH + 1) == k && (x - ColOffset(row)) % (BLOCK_WIDTH + 1) == 0;
    }
  }

  /** The colour index a row ends with stays in its pair, so the next row starts on
      the other pair. */
  lemma NextRowPair(row: nat, ci: nat, w: U16)
    requires BLOCK_WIDTH <= w && BLOCK_ROW_START <= row && ci == RowPair(row)
    ensures NextRowColor(RowEndColor(ColOffset(row), ci, w)) == RowPair(row + BLOCK_HEIGHT + 1)
  {
  }

  /** Every block from `row` on is well placed at or below `row`, and the blocks come
      row by row, left to right. */
  lemma {:induction false} RowsWellPlaced(row: nat, ci: nat, size: Size)
    requires BLOCK_ROW_START <= row && (row - BLOCK_ROW_START) % (BLOCK_HEIGHT + 1) == 0
    requires BLOCK_WIDTH <= size.w || size.h / 2 <= row
    requires ci == RowPair(row)
    ensures var rs := Rows(row, ci, size);
      (forall i :: 0 <= i < |rs| ==> WellPlaced(rs[i], size) && row <= rs[i].collider.y) && Ordered(rs)
    decreases size.h / 2 - row
  {
    if row < size.h / 2 {
      var next := row + BLOCK_HEIGHT + 1;
      var r := RowBlocks(row, ColOffset(row), ci, size.w);
      var nextColor := NextRowColor(RowEndColor(ColOffset(row), ci, size.w));
      NextRowPair(row, ci, size.w);
      RowsWellPlaced(next, nextColor, size);
      RowWellPlaced(row, ci, size);
      var rest := Rows(next, nextColor, size);
      assert Rows(row, ci, size) == r + rest;
      ConcatRows(r, rest, row, size);
    }
  }

  /** A row followed by the rows below it: placement and order carry over to the
      concatenation. */
  lemma ConcatRows(r: seq<StaticEntity>, rest: seq<StaticEntity>, row: nat, size: Size)
    requires forall k :: 0 <= k < |r| ==> WellPlaced(r[k], size) && r[k].collider.y == row
    requires forall k :: 0 <= k < |rest| ==> WellPlaced(rest[k], size) && row + BLOCK_HEIGHT + 1 <= rest[k].collider.y
    requires Ordered(r) && Ordered(rest)
    ensures forall i :: 0 <= i < |r + rest| ==> WellPlaced((r + rest)[i], size) && row <= (r + rest)[i].collider.y
    ensures Ordered(r + rest)
  {
    var rs := r + rest;
    forall i, j | 0 <= i < j < |rs| ensures Before(rs[i].collider, rs[j].collider) {
      if j < |r| {
        assert rs[i] == r[i] && rs[j] == r[j];
      } else if i >= |r| {
        assert rs[i] == rest[i - |r|] && rs[j] == rest[j - |r|];
      } else {
        assert rs[i] == r[i] && rs[j] == rest[j - |r|];
      }
    }
  }

  /** Every grid column of a row holds a block of that row. */
  lemma RowHasColumn(row: U16, ci: nat, w: U16, x: int)
    requires BLOCK_WIDTH <= w && ci < |BLOCK_COLORS|
    requires ColOffset(row) <= x < w - BLOCK_WIDTH && (x - ColOffset(row)) % (BLOCK_WIDTH + 1) == 0
    ensures var k := (x - ColOffset(row)) / (BLOCK_WIDTH + 1);
      k < |RowBlocks(row, ColOffset(row), ci, w)| &&
      RowBlocks(row, ColOffset(row), ci, w)[k].collider.x == x &&
      RowBlocks(row, ColOffset(row), ci, w)[k].collider.y == row
  {
    var k := (x - ColOffset(row)) / (BLOCK_WIDTH + 1);
    assert ColOffset(row) + (BLOCK_WIDTH + 1) * k == x;
    RowBlocksAt(row, ColOffset(row), ci, w, k);
  }

  /** Every grid position from `row` on holds a block. */
  lemma RowsComplete(row: nat, ci: nat, size: Size, x: int, y: int)
    requires BLOCK_ROW_START <= row && (row - BLOCK_ROW_START) % (BLOCK_HEIGHT + 1) == 0
    requires BLOCK_WIDTH <= size.w || size.h / 2 <= row
    requires ci < |BLOCK_COLORS|
    requires OnGrid(x, y, size) && row <= y
    ensures exists i :: (0 <= i < |Rows(row, ci, size)| &&
      Rows(row, ci, size)[i].collider.x == x && Rows(row, ci, size)[i].collider.y == y)
  {
    var i := RowsIndexOf(row, ci, size, x, y);
  }

  /** The index of the block at grid position (x, y) among the blocks from `row` on. */
  lemma {:induction false} RowsIndexOf(row: nat, ci: nat, size: Size, x: int, y: int) returns (i: nat)
    requires BLOCK_ROW_START <= row && (row - BLOCK_ROW_START) % (BLOCK_HEIGHT + 1) == 0
    requires BLOCK_WIDTH <= size.w || size.h / 2 <= row
    requires ci < |BLOCK_COLORS|
    requires OnGrid(x, y, size) && row <= y
    ensures i < |Rows(row, ci, size)| && Rows(row, ci, size)[i].collider.x == x && Rows(row, ci, size)[i].collider.y == y
    decreases size.h / 2 - row
  {
    var r := RowBlocks(row, ColOffset(row), ci, size.w);
    var next := row + BLOCK_HEIGHT + 1;
    var nextColor := NextRowColor(RowEndColor(ColOffset(row), ci, size.w));
    var rest := Rows(next, nextColor, size);
    assert Rows(row, ci, size) == r + rest;
    if y == row {
      RowHasColumn(row, ci, size.w, x);
      i := (x - ColOffset(row)) / (BLOCK_WIDTH + 1);
    } else {
      assert (y - row) % (BLOCK_HEIGHT + 1) == 0;
      var j := RowsIndexOf(next, nextColor, size, x, y);
      i := |r| + j;
    }
  }

  /** Every generated block is alive, 4x2, on the grid and coloured by its position,
      and the blocks come row by row, left to right. */
  lemma LayoutWellPlaced(size: Size)
    requires LayoutDefined(size)
    ensures forall i :: 0 <= i < |Layout(size)| ==> WellPlaced(Layout(size)[i], size)
    ensures Ordered(Layout(size))
  {
    RowsWellPlaced(BLOCK_ROW_START, 0, size);
  }

  /** Every grid position holds a generated block. */
  lemma LayoutComplete(size: Size, x: int, y: int)
    requires LayoutDefined(size) && OnGrid(x, y, size)
    ensures exists i :: 0 <= i < |Layout(size)| && Layout(size)[i].collider.x == x && Layout(size)[i].collider.y == y
  {
    RowsComplete(BLOCK_ROW_START, 0, size, x, y);
    var i :| 0 <= i < |Rows(BLOCK_ROW_START, 0, size)| &&
      Rows(BLOCK_ROW_START, 0, size)[i].collider.x == x && Rows(BLOCK_ROW_START, 0, size)[i].collider.y == y;
    assert Layout(size)[i] == Rows(BLOCK_ROW_START, 0, size)[i];
  }

  /** Blocks of size 4x2 placed in this order never overlap: a 5-column and 3-row
      pitch leaves a gap on one axis. */
  lemma OrderedNoOverlap(bs: seq<StaticEntity>, size: Size)
    requires Ordered(bs)
    requires forall i :: 0 <= i < |bs| ==> WellPlaced(bs[i], size)
    ensures PairwiseApart(bs)
  {
    forall i, j | 0 <= i < |bs| && 0 <= j < |bs| && i != j
      ensures bs[i].collider.CollidesWithDefined(bs[j].collider) && !bs[i].collider.CollidesWith(bs[j].collider)
    {
      if i < j {
        assert Before(bs[i].collider, bs[j].collider);
      } else {
        assert Before(bs[j].collider, bs[i].collider);
      }
    }
  }

  /** No two generated blocks overlap. */
  lemma LayoutNoOverlap(size: Size)
    requires LayoutDefined(size)
    ensures PairwiseApart(Layout(size))
  {
    LayoutWellPlaced(size);
    OrderedNoOverlap(Layout(size), size);
  }

  // ----- One tick -----

  /** The paddle's horizontal speed for a key other than Quit: -1 for Left, 1 for
      Right, 0 for any other key or none, so it never carries over from the last tick. */
  function PaddleSpeedX(key: Option<Key>): (vx: I16)
    ensures vx == -1 <==> key == Some(MoveLeft)
    ensures vx == 1 <==> key == Some(MoveRight)
    ensures vx == 0 || vx == -1 || vx == 1
  {
    match key
    case Some(MoveLeft) => -1
    case Some(MoveRight) => 1
    case _ => 0
  }

  predicate IsUnit(v: int) { v == -1 || v == 1 }

  /** The ball's left or right edge is on a side wall. */
  predicate AtSideWall(c: Square, size: Size) { c.x + c.w == size.w || c.x == 0 }

  /** The ball's top or bottom edge is on the top or bottom wall. */
  predicate AtEndWall(c: Square, size: Size) { c.y + c.h == size.h || c.y == 0 }

  /** Bounce off the walls: a component of the velocity is inverted when the ball
      sits on a wall across that axis, checked by equality only. `*= -1` overflows for
      `i16::MIN`. */
  function WallBounce(ball: PhysicsEntity, size: Size): (r: PhysicsEntity)
    requires ball.collider.EdgesFit()
    requires ball.speed.x != I16_MIN && ball.speed.y != I16_MIN
    ensures r.collider == ball.collider && r.alive == ball.alive
    ensures r.speed.x == if AtSideWall(ball.collider, size) then -ball.speed.x else ball.speed.x
    ensures r.speed.y == if AtEndWall(ball.collider, size) then -ball.speed.y else ball.speed.y
  {
    var b := if AtSideWall(ball.collider, size) then ball.(speed := ball.speed.(x := -ball.speed.x)) else ball;
    if AtEndWall(b.collider, size) then b.(speed := b.speed.(y := -b.speed.y)) else b
  }

  /** A ball that is on a wall and moving towards it leaves the wall bounce moving
      away from that wall. */
  lemma WallBounceTurnsAway(ball: PhysicsEntity, size: Size)
    requires ball.collider.EdgesFit() && IsUnit(ball.speed.x) && IsUnit(ball.speed.y)
    ensures ball.collider.x == 0 && ball.speed.x == -1 ==> WallBounce(ball, size).speed.x == 1
    ensures ball.collider.x + ball.collider.w == size.w && ball.speed.x == 1 ==> WallBounce(ball, size).speed.x == -1
    ensures ball.collider.y == 0 && ball.speed.y == -1 ==> WallBounce(ball, size).speed.y == 1
    ensures ball.collider.y + ball.collider.h == size.h && ball.speed.y == 1 ==> WallBounce(ball, size).speed.y == -1
  {
  }

  /** Steer off the paddle: on contact the vertical speed is inverted and the
      horizontal speed becomes -1 when the ball's left edge is right of the paddle's
      midpoint, 1 otherwise. Without contact nothing changes. */
  function PaddleBounce(ball: PhysicsEntity, paddle: Square): (r: PhysicsEntity)
    requires ball.collider.CollidesWithDefined(paddle) && paddle.x + paddle.w / 2 <= U16_MAX
    requires ball.speed.y != I16_MIN
    ensures r.collider == ball.collider && r.alive == ball.alive
    ensures !ball.collider.CollidesWith(paddle) ==> r == ball
    ensures ball.collider.CollidesWith(paddle) ==>
      r.speed.y == -ball.speed.y &&
      r.speed.x == (if ball.collider.x > paddle.x + paddle.w / 2 then -1 else 1)
  {
    if ball.collider.CollidesWith(paddle) then
      var flipped := ball.speed.(y := -ball.speed.y);
      ball.(speed := flipped.(x := if ball.collider.x > paddle.x + paddle.w / 2 then -1 else 1))
    else
      ball
  }

  /** The response to striking a block on side `d`: UP and DOWN invert the
      vertical speed, LEFT and RIGHT the horizontal one. */
  function BlockBounce(speed: Vec2d, d: Direction): (r: Vec2d)
    requires speed.x != I16_MIN && speed.y != I16_MIN
    ensures (d == Up || d == Down) ==> r.x == speed.x && r.y == -speed.y
    ensures (d == Left || d == Right) ==> r.x == -speed.x && r.y == speed.y
  {
    match d
    case Up | Down => speed.(y := -speed.y)
    case Left | Right => speed.(x := -speed.x)
  }

  /** The overlap test of every block the loop reaches (the alive ones) is defined. */
  predicate BlocksTestable(ball: Square, blocks: seq<StaticEntity>) {
    forall i :: 0 <= i < |blocks| ==> blocks[i].alive ==> blocks[i].collider.CollidesWithDefined(ball)
  }

  /** The block loop of a tick over `blocks`, in collection order: each alive block
      that overlaps the ball is tombstoned and bounces the ball by the side it was
      struck on, as `collisionDirection` classifies it. Gives the new blocks and the
      new ball speed. */
  function Collide(ball: Square, speed: Vec2d, blocks: seq<StaticEntity>,
                   collisionDirection: (Square, Square) -> Direction): (r: (seq<StaticEntity>, Vec2d))
    requires speed.x != I16_MIN && speed.y != I16_MIN
    requires BlocksTestable(ball, blocks)
    ensures r.1.x != I16_MIN && r.1.y != I16_MIN
    decreases |blocks|
  {
    if blocks == [] then ([], speed)
    else
      var n := |blocks| - 1;
      var (done, s) := Collide(ball, speed, blocks[..n], collisionDirection);
      var b := blocks[n];
      if b.alive && b.collider.CollidesWith(ball) then
        (done + [b.(alive := false)], BlockBounce(s, collisionDirection(b.collider, ball)))
      else
        (done + [b], s)
  }

  /** One more block of the loop: the result on the first i + 1 blocks extends the
      result on the first i by the outcome for block i. */
  lemma CollideStep(ball: Square, speed: Vec2d, blocks: seq<StaticEntity>, i: nat,
                    collisionDirection: (Square, Square) -> Direction)
    requires speed.x != I16_MIN && speed.y != I16_MIN
    requires BlocksTestable(ball, blocks) && i < |blocks|
    ensures BlocksTestable(ball, blocks[..i]) && BlocksTestable(ball, blocks[..i + 1])
    ensures var (done, s) := Collide(ball, speed, blocks[..i], collisionDirection);
      var b := blocks[i];
      Collide(ball, speed, blocks[..i + 1], collisionDirection) ==
        if b.alive && b.collider.CollidesWith(ball) then
          (done + [b.(alive := false)], BlockBounce(s, collisionDirection(b.collider, ball)))
        else
          (done + [b], s)
  {
    assert blocks[..i + 1][..i] == blocks[..i];
  }

  /** The block loop keeps every block's place, collider and colour; a block ends up
      dead exactly when it was dead already or was alive and overlapped the ball. */
  lemma {:induction false} CollideBlocks(ball: Square, speed: Vec2d, blocks: seq<StaticEntity>,
                                         collisionDirection: (Square, Square) -> Direction)
    requires speed.x != I16_MIN && speed.y != I16_MIN
    requires BlocksTestable(ball, blocks)
    ensures var after := Collide(ball, speed, blocks, collisionDirection).0;
      |after| == |blocks| &&
      forall i :: 0 <= i < |blocks| ==>
        after[i] == if blocks[i].alive && blocks[i].collider.CollidesWith(ball) then blocks[i].(alive := false) else blocks[i]
    decreases |blocks|
  {
    if blocks != [] {
      CollideBlocks(ball, speed, blocks[..|blocks| - 1], collisionDirection);
    }
  }

  /** A ball whose speed components are both -1 or 1 keeps them so through the block loop. */
  lemma {:induction false} CollideKeepsUnitSpeed(ball: Square, speed: Vec2d, blocks: seq<StaticEntity>,
                                                 collisionDirection: (Square, Square) -> Direction)
    requires IsUnit(speed.x) && IsUnit(speed.y)
    requires BlocksTestable(ball, blocks)
    ensures var s := Collide(ball, speed, blocks, collisionDirection).1; IsUnit(s.x) && IsUnit(s.y)
    decreases |blocks|
  {
    if blocks != [] {
      CollideKeepsUnitSpeed(ball, speed, blocks[..|blocks| - 1], collisionDirection);
    }
  }

  /** A dead block never affects the ball: replacing it by any other dead block leaves
      the resulting speed as it was. */
  lemma {:induction false} DeadBlockInert(ball: Square, speed: Vec2d, blocks: seq<StaticEntity>, i: nat,
                                          other: StaticEntity, collisionDirection: (Square, Square) -> Direction)
    requires speed.x != I16_MIN && speed.y != I16_MIN
    requires BlocksTestable(ball, blocks)
    requires i < |blocks| && !blocks[i].alive && !other.alive
    ensures BlocksTestable(ball, blocks[i := other])
    ensures Collide(ball, speed, blocks[i := other], collisionDirection).1 == Collide(ball, speed, blocks, collisionDirection).1
    decreases |blocks|
  {
    var n := |blocks| - 1;
    var changed := blocks[i := other];
    assert BlocksTestable(ball, changed) by {
      forall k | 0 <= k < |changed| && changed[k].alive ensures changed[k].collider.CollidesWithDefined(ball) {
        assert k != i && changed[k] == blocks[k];
      }
    }
    if i < n {
      assert changed[..n] == blocks[..n][i := other];
      assert changed[n] == blocks[n];
      DeadBlockInert(ball, speed, blocks[..n], i, other, collisionDirection);
    } else {
      assert changed[..n] == blocks[..n];
    }
  }

  /** If no alive block overlaps the ball, the block loop changes nothing. */
  lemma {:induction false} CollideMissChangesNothing(ball: Square, speed: Vec2d, blocks: seq<StaticEntity>,
                                                     collisionDirection: (Square, Square) -> Direction)
    requires speed.x != I16_MIN && speed.y != I16_MIN
    requires BlocksTestable(ball, blocks)
    requires forall i :: 0 <= i < |blocks| && blocks[i].alive ==> !blocks[i].collider.CollidesWith(ball)
    ensures Collide(ball, speed, blocks, collisionDirection) == (blocks, speed)
    decreases |blocks|
  {
    if blocks != [] {
      var n := |blocks| - 1;
      CollideMissChangesNothing(ball, speed, blocks[..n], collisionDirection);
      assert blocks[..n] + [blocks[n]] == blocks;
    }
  }

  // ----- Draw calls -----

  /** The draw calls for the alive blocks, in collection order. */
  function AliveCalls(blocks: seq<StaticEntity>): (r: seq<DrawCall>)
    ensures |r| <= |blocks|
  {
    if blocks == [] then []
    else
      var b := blocks[|blocks| - 1];
      AliveCalls(blocks[..|blocks| - 1]) + (if b.alive then [DrawCall(b.collider, b.color)] else [])
  }

  function CountAlive(blocks: seq<StaticEntity>): nat {
    if blocks == [] then 0
    else CountAlive(blocks[..|blocks| - 1]) + (if blocks[|blocks| - 1].alive then 1 else 0)
  }

  /** The alive blocks' calls are exactly one per alive block, in collection order: the
      i-th block, when alive, is drawn at the position counting the alive blocks before
      it, and every call belongs to an alive block. */
  lemma {:induction false} AliveCallsExact(blocks: seq<StaticEntity>)
    ensures |AliveCalls(blocks)| == CountAlive(blocks)
    ensures forall i :: 0 <= i < |blocks| && blocks[i].alive ==>
      CountAlive(blocks[..i]) < |AliveCalls(blocks)| &&
      AliveCalls(blocks)[CountAlive(blocks[..i])] == DrawCall(blocks[i].collider, blocks[i].color)
    ensures forall c :: c in AliveCalls(blocks) ==>
      exists i :: 0 <= i < |blocks| && blocks[i].alive && c == DrawCall(blocks[i].collider, blocks[i].color)
    decreases |blocks|
  {
    if blocks != [] {
      var n := |blocks| - 1;
      var pre := blocks[..n];
      AliveCallsExact(pre);
      forall i | 0 <= i < |blocks| && blocks[i].alive
        ensures CountAlive(blocks[..i]) < |AliveCalls(blocks)|
        ensures AliveCalls(blocks)[CountAlive(blocks[..i])] == DrawCall(blocks[i].collider, blocks[i].color)
      {
        if i < n {
          assert pre[..i] == blocks[..i];
          assert pre[i] == blocks[i];
        } else {
          assert blocks[..i] == pre;
        }
      }
      forall c | c in AliveCalls(blocks)
        ensures exists i :: 0 <= i < |blocks| && blocks[i].alive && c == DrawCall(blocks[i].collider, blocks[i].color)
      {
        if c in AliveCalls(pre) {
          var i :| 0 <= i < |pre| && pre[i].alive && c == DrawCall(pre[i].collider, pre[i].color);
          assert blocks[i] == pre[i];
        } else {
          assert blocks[n].alive && c == DrawCall(blocks[n].collider, blocks[n].color);
        }
      }
    }
  }

  /** The state of the ball and the paddle that a tick can start from: the paddle is
      on the field, moves at most one cell a tick and never vertically; the ball is no
      larger than the field, one more step cannot overflow its edges, and both of its
      speed components are -1 or 1. */
  predicate Playable(ball: PhysicsEntity, paddle: PlayerEntity, size: Size) {
    size.w < U16_MAX && size.h < U16_MAX &&
    paddle.collider.Inside(size) && -1 <= paddle.speed.x <= 1 && paddle.speed.y == 0 &&
    ball.collider.x + ball.collider.w < U16_MAX && ball.collider.y + ball.collider.h < U16_MAX &&
    ball.collider.w <= size.w && ball.collider.h <= size.h &&
    IsUnit(ball.speed.x) && IsUnit(ball.speed.y)
  }

  /** Moving the paddle and the ball and bouncing the ball off the walls and the paddle
      keeps them playable: both end inside the field and the ball's speed components
      stay -1 or 1. */
  lemma AdvancePlayable(ball: PhysicsEntity, paddle: PlayerEntity, size: Size)
    requires Playable(ball, paddle, size)
    ensures var p := paddle.ApplySpeed(size);
      var b := PaddleBounce(WallBounce(ball.ApplySpeed(size), size), p.collider);
      Playable(b, p, size) && b.collider.Inside(size)
  {
  }

  /** Every block's right and bottom edges are representable. */
  predicate BlocksFit(blocks: seq<StaticEntity>) {
    forall i :: 0 <= i < |blocks| ==> blocks[i].collider.EdgesFit()
  }

  /** From a playable state the block loop is defined on every block it reaches,
      and it leaves the state playable and the blocks' edges representable. */
  lemma CollidePlayable(ball: PhysicsEntity, paddle: PlayerEntity, blocks: seq<StaticEntity>, size: Size,
                        collisionDirection: (Square, Square) -> Direction)
    requires Playable(ball, paddle, size) && BlocksFit(blocks)
    ensures BlocksTestable(ball.collider, blocks)
    ensures var r := Collide(ball.collider, ball.speed, blocks, collisionDirection);
      Playable(ball.(speed := r.1), paddle, size) && BlocksFit(r.0)
  {
    CollideBlocks(ball.collider, ball.speed, blocks, collisionDirection);
    CollideKeepsUnitSpeed(ball.collider, ball.speed, blocks, collisionDirection);
  }

  // ----- The game -----

  /** The state of one game: the ball, the paddle, the blocks (never resized; a
      destroyed block stays with `alive == false`) and the playfield size. */
  class Game {
    var ball: PhysicsEntity
    var paddle: PlayerEntity
    var blocks: seq<StaticEntity>
    /** Screen size in 0-based coordinates. */
    const screenSize: Size

    /** What `Game::new` establishes and every tick keeps: the ball and the paddle are
        playable and the blocks' edges are representable. */
    ghost predicate Valid()
      reads this
    {
      Playable(ball, paddle, screenSize) && BlocksFit(blocks)
    }

    /** `Game::new`: the playfield is the terminal less one cell on each axis; the
        ball 1x1 at (w/2, h/2 + 2) with speed (1, 1); the paddle 6x1 at
        (w/2 - 3, h - 3) at rest; the generated blocks. The subtractions need a
        terminal at least 7 wide and 4 high. */
    constructor (terminalSize: (U16, U16))
      requires terminalSize.0 >= 7 && terminalSize.1 >= 4
      ensures screenSize == Size(terminalSize.0 - 1, terminalSize.1 - 1)
      ensures ball == PhysicsEntity(Square(screenSize.w / 2, screenSize.h / 2 + 2, 1, 1), Vec2d(1, 1), true)
      ensures paddle == PlayerEntity(Square(screenSize.w / 2 - 3, screenSize.h - 3, 6, 1), Vec2d(0, 0), true)
      ensures blocks == Layout(screenSize)
      ensures forall i :: 0 <= i < |blocks| ==> WellPlaced(blocks[i], screenSize)
      ensures Valid()
    {
      var size := Size(terminalSize.0 - 1, terminalSize.1 - 1);
      ball := PhysicsEntity(Square(size.w / 2, size.h / 2 + 2, 1, 1), Vec2d(1, 1), true);
      paddle := PlayerEntity(Square(size.w / 2 - 3, size.h - 3, 6, 1), Vec2d(0, 0), true);
      var generated := GenerateBlocks(size);
      blocks := generated;
      screenSize := size;
      LayoutWellPlaced(size);
    }

    /** `Game::update`: one tick. Quit returns false at once and changes nothing.
        Any other input returns true after setting the paddle's horizontal speed,
        moving the paddle and then the ball, bouncing the ball off the walls and the
        paddle, and running the block loop. */
    method Update(key: Option<Key>, collisionDirection: (Square, Square) -> Direction) returns (continues: bool)
      requires Valid()
      modifies this
      ensures Valid()
      ensures continues <==> key != Some(Quit)
      ensures !continues ==> ball == old(ball) && paddle == old(paddle) && blocks == old(blocks)
      ensures continues ==>
        paddle == old(paddle).(speed := old(paddle).speed.(x := PaddleSpeedX(key))).ApplySpeed(screenSize)
      ensures continues ==>
        var moved := PaddleBounce(WallBounce(old(ball).ApplySpeed(screenSize), screenSize), paddle.collider);
        ball == moved.(speed := Collide(moved.collider, moved.speed, old(blocks), collisionDirection).1) &&
        blocks == Collide(moved.collider, moved.speed, old(blocks), collisionDirection).0
      ensures continues ==> ball.collider.Inside(screenSize) && paddle.collider.Inside(screenSize)
      ensures (key == None || key == Some(Other)) ==> paddle.collider == old(paddle.collider)
    {
      match key {
        case Some(Quit) =>
          return false;
        case Some(MoveLeft) =>
          paddle := paddle.(speed := paddle.speed.(x := -1));
        case Some(MoveRight) =>
          paddle := paddle.(speed := paddle.speed.(x := 1));
        case _ =>
          paddle := paddle.(speed := paddle.speed.(x := 0));
      }
      assert paddle == old(paddle).(speed := old(paddle).speed.(x := PaddleSpeedX(key)));
      Advance();
      CollidePlayable(ball, paddle, blocks, screenSize, collisionDirection);
      BreakBlocks(collisionDirection);
      return true;
    }

    /** The movement and bounces of a tick: move the paddle, move the ball, bounce
        the ball off the walls and then off the paddle. */
    method Advance()
      requires Valid()
      modifies this
      ensures Valid()
      ensures paddle == old(paddle).ApplySpeed(screenSize) && blocks == old(blocks)
      ensures ball == PaddleBounce(WallBounce(old(ball).ApplySpeed(screenSize), screenSize), paddle.collider)
      ensures ball.collider.Inside(screenSize)
    {
      AdvancePlayable(ball, paddle, screenSize);
      paddle := paddle.ApplySpeed(screenSize);
      ball := ball.ApplySpeed(screenSize);
      BounceOffWalls();
      BounceOffPaddle();
    }

    /** Bounce the ball off the outer walls, in place. */
    method BounceOffWalls()
      requires ball.collider.EdgesFit() && ball.speed.x != I16_MIN && ball.speed.y != I16_MIN
      modifies this
      ensures ball == WallBounce(old(ball), screenSize)
      ensures paddle == old(paddle) && blocks == old(blocks)
    {
      if ball.collider.x + ball.collider.w == screenSize.w || ball.collider.x == 0 {
        ball := ball.(speed := ball.speed.(x := -ball.speed.x));
      }
      if ball.collider.y + ball.collider.h == screenSize.h || ball.collider.y == 0 {
        ball := ball.(speed := ball.speed.(y := -ball.speed.y));
      }
    }

    /** Bounce the ball off the paddle, in place, steering it by the half it hit. */
    method BounceOffPaddle()
      requires ball.collider.CollidesWithDefined(paddle.collider)
      requires paddle.collider.x + paddle.collider.w / 2 <= U16_MAX && ball.speed.y != I16_MIN
      modifies this
      ensures paddle == old(paddle) && blocks == old(blocks)
      ensures ball == PaddleBounce(old(ball), paddle.collider)
    {
      if ball.collider.CollidesWith(paddle.collider) {
        ball := ball.(speed := ball.speed.(y := -ball.speed.y));
        if ball.collider.x > paddle.collider.x + paddle.collider.w / 2 {
          ball := ball.(speed := ball.speed.(x := -1));
        } else {
          ball := ball.(speed := ball.speed.(x := 1));
        }
      }
    }

    /** The block loop of a tick: every alive block that overlaps the ball is
        tombstoned and bounces the ball, in collection order. */
    method BreakBlocks(collisionDirection: (Square, Square) -> Direction)
      requires ball.speed.x != I16_MIN && ball.speed.y != I16_MIN
      requires BlocksTestable(ball.collider, blocks)
      modifies this
      ensures blocks == Collide(old(ball).collider, old(ball).speed, old(blocks), collisionDirection).0
      ensures ball == old(ball).(speed := Collide(old(ball).collider, old(ball).speed, old(blocks), collisionDirection).1)
      ensures paddle == old(paddle)
    {
      ghost var before, startSpeed := blocks, ball.speed;
      var i := 0;
      while i < |blocks|
        invariant 0 <= i <= |blocks| == |before|
        invariant ball == old(ball).(speed := ball.speed) && paddle == old(paddle)
        invariant BlocksTestable(ball.collider, before)
        invariant blocks[..i] == Collide(ball.collider, startSpeed, before[..i], collisionDirection).0
        invariant ball.speed == Collide(ball.collider, startSpeed, before[..i], collisionDirection).1
        invariant forall j :: i <= j < |blocks| ==> blocks[j] == before[j]
      {
        CollideStep(ball.collider, startSpeed, before, i, collisionDirection);
        ghost var done := blocks[..i];
        HitBlock(i, collisionDirection);
        assert blocks[..i + 1] == done + [blocks[i]];
        i := i + 1;
      }
      assert blocks[..i] == blocks && before[..i] == before;
    }

    /** The body of the block loop for block i: a dead block is skipped; an alive
        one that overlaps the ball is tombstoned and bounces the ball by the side it
        was struck on. */
    method HitBlock(i: nat, collisionDirection: (Square, Square) -> Direction)
      requires i < |blocks| && ball.speed.x != I16_MIN && ball.speed.y != I16_MIN
      requires blocks[i].alive ==> blocks[i].collider.CollidesWithDefined(ball.collider)
      modifies this
      ensures paddle == old(paddle) && ball == old(ball).(speed := ball.speed)
      ensures var b := old(blocks[i]);
        if b.alive && b.collider.CollidesWith(ball.collider) then
          blocks == old(blocks)[i := b.(alive := false)] &&
          ball.speed == BlockBounce(old(ball.speed), collisionDirection(b.collider, ball.collider))
        else
          blocks == old(blocks) && ball == old(ball)
    {
      if !blocks[i].alive {
        return;
      }
      if blocks[i].collider.CollidesWith(ball.collider) {
        blocks := blocks[i := blocks[i].(alive := false)];
        match collisionDirection(blocks[i].collider, ball.collider) {
          case Up | Down =>
            ball := ball.(speed := ball.speed.(y := -ball.speed.y));
          case Right | Left =>
            ball := ball.(speed := ball.speed.(x := -ball.speed.x));
        }
      }
    }

    /** `Game::draw`: one call per alive block in collection order, then the paddle in
        cyan, then the ball in red. */
    method Draw() returns (calls: seq<DrawCall>)
      ensures calls == AliveCalls(blocks) + [DrawCall(paddle.collider, Cyan), DrawCall(ball.collider, Red)]
    {
      calls := [];
      var i := 0;
      while i < |blocks|
        invariant 0 <= i <= |blocks|
        invariant calls == AliveCalls(blocks[..i])
      {
        assert blocks[..i + 1][..i] == blocks[..i];
        if blocks[i].alive {
          calls := calls + [DrawCall(blocks[i].collider, blocks[i].color)];
        }
        i := i + 1;
      }
      assert blocks[..i] == blocks;
      calls := calls + [DrawCall(paddle.collider, Cyan), DrawCall(ball.collider, Red)];
    }
  }
}
