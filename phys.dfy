/** Geometry and entities of the breakout simulation (src/phys.rs).

    Every coordinate and size is a Rust `u16` and every velocity component an `i16`.
    Unchecked `+` and `-` on these panic on overflow in a debug build, so each one
    becomes a precondition here; the explicitly checked operations saturate.
    `Square`, `Vec2d` and `Size` are plain value structs (`Square` is `Copy`), so a
    `&mut self` method on one of them is modelled as the function giving the new
    value, which the owner stores back in place of the old one. */
module Phys {

  const U16_MAX: int := 0xFFFF
  const I16_MIN: int := -0x8000
  const I16_MAX: int := 0x7FFF

  type U16 = x: int | 0 <= x <= U16_MAX
  type I16 = x: int | I16_MIN <= x <= I16_MAX

  function Min(a: int, b: int): int { if a <= b then a else b }

  /** Rust's `v as i16` for a `u16` value: the same 16 bits read as two's complement. */
  function AsI16(v: U16): (r: I16)
    ensures (r - v) % 0x1_0000 == 0
    ensures v <= I16_MAX ==> r == v
  {
    if v <= I16_MAX then v else v - 0x1_0000
  }

  /** The value `checked_add`/`checked_sub` followed by the fallback to the type's
      bound produces: `v` clamped to the `u16` range. */
  function Saturate(v: int): U16 {
    if v < 0 then 0 else if v > U16_MAX then U16_MAX else v
  }

  /** A vector in 2D space: a velocity in cells per tick. */
  datatype Vec2d = Vec2d(x: I16, y: I16)

  /** The size of the playfield. */
  datatype Size = Size(w: U16, h: U16)

  /** The side of a block that the ball struck. */
  datatype Direction = Up | Right | Down | Left

  /** The terminal colours the game paints with. */
  datatype Color = Magenta | Grey | Yellow | Green | Cyan | Red

  /** An axis-aligned rectangle with top left corner (x, y), width w and height h. */
  datatype Square = Square(x: U16, y: U16, w: U16, h: U16) {

    /** The right edge `x + w` and the bottom edge `y + h` are representable in `u16`. */
    predicate EdgesFit() {
      x + w <= U16_MAX && y + h <= U16_MAX
    }

    /** The right and bottom edges lie within `bounds`. */
    predicate Inside(bounds: Size) {
      x + w <= bounds.w && y + h <= bounds.h
    }

    /** The cell (px, py) is covered by this rectangle. */
    predicate Contains(px: int, py: int) {
      x <= px < x + w && y <= py < y + h
    }

    /** Exactly the inputs on which `collides_with` does not panic: its four
        additions are evaluated left to right and `&&` stops at the first false test. */
    predicate CollidesWithDefined(other: Square)
      ensures EdgesFit() && other.EdgesFit() ==> CollidesWithDefined(other)
    {
      other.x + other.w <= U16_MAX &&
      (x < other.x + other.w ==>
        x + w <= U16_MAX &&
        (x + w > other.x ==>
          other.y + other.h <= U16_MAX &&
          (y < other.y + other.h ==> y + h <= U16_MAX)))
    }

    /** Strict overlap on both axes: touching edges do not collide. */
    predicate CollidesWith(other: Square)
      requires CollidesWithDefined(other)
      ensures CollidesWith(other) ==> w + other.w > 0 && h + other.h > 0
    {
      x < other.x + other.w &&
      x + w > other.x &&
      y < other.y + other.h &&
      y + h > other.y
    }

    /** `get_center` as written: the y component is `y + y / 2`, not `y + h / 2`,
        and the `as i16` casts wrap. */
    function GetCenter(): (c: Vec2d)
      requires x + w / 2 <= U16_MAX && y + y / 2 <= U16_MAX
      ensures x + w / 2 <= I16_MAX ==> c.x == x + w / 2
      ensures y + y / 2 <= I16_MAX ==> c.y == y + y / 2
    {
      Vec2d(AsI16(x + w / 2), AsI16(y + y / 2))
    }

    /** The centre the formula evidently means: `y + h / 2` on the y axis. */
    function CenterIntended(): (c: Vec2d)
      requires x + w / 2 <= U16_MAX && y + h / 2 <= U16_MAX
      ensures y + y / 2 <= U16_MAX ==> c.x == GetCenter().x
      ensures w > 0 && h > 0 && x + w / 2 <= I16_MAX && y + h / 2 <= I16_MAX ==> Contains(c.x, c.y)
    {
      Vec2d(AsI16(x + w / 2), AsI16(y + h / 2))
    }

    /** `move_x`: add a signed delta to x, saturating at 0 and at `u16::MAX`.
        The source negates a negative delta with `x * -1`, which overflows for `i16::MIN`. */
    function MoveX(d: I16): (r: Square)
      requires d != I16_MIN
      ensures r.y == y && r.w == w && r.h == h
      ensures d < 0 ==> r.x == if x + d < 0 then 0 else x + d
      ensures d > 0 ==> r.x == if x + d > U16_MAX then U16_MAX else x + d
      ensures d == 0 ==> r == this
    {
      if d == 0 then this
      else if d < 0 then
        (if x >= -d then this.(x := x - (-d)) else this.(x := 0))
      else
        (if x + d <= U16_MAX then this.(x := x + d) else this.(x := U16_MAX))
    }

    /** `move_y`: add a signed delta to y, saturating at 0 and at `u16::MAX`. */
    function MoveY(d: I16): (r: Square)
      requires d != I16_MIN
      ensures r.x == x && r.w == w && r.h == h
      ensures d < 0 ==> r.y == if y + d < 0 then 0 else y + d
      ensures d > 0 ==> r.y == if y + d > U16_MAX then U16_MAX else y + d
      ensures d == 0 ==> r == this
    {
      if d == 0 then this
      else if d < 0 then
        (if y >= -d then this.(y := y - (-d)) else this.(y := 0))
      else
        (if y + d <= U16_MAX then this.(y := y + d) else this.(y := U16_MAX))
    }

    /** `keep_inside`: pull the rectangle left and up until its right and bottom
        edges are within `bounds`. The edge sums must not overflow, and the
        subtraction `bounds.w - w` (taken whenever w exceeds bounds.w) must not underflow. */
    function KeepInside(bounds: Size): (r: Square)
      requires EdgesFit() && w <= bounds.w && h <= bounds.h
      ensures r.Inside(bounds)
      ensures r.w == w && r.h == h
      ensures r.x == Min(x, bounds.w - w) && r.y == Min(y, bounds.h - h)
    {
      var moved := if bounds.w < x + w then this.(x := bounds.w - w) else this;
      if bounds.h < moved.y + moved.h then moved.(y := bounds.h - moved.h) else moved
    }

    /** The preconditions of moving by `speed` and then clamping to `bounds`. */
    predicate CanAdvance(speed: Vec2d, bounds: Size) {
      speed.x != I16_MIN && speed.y != I16_MIN &&
      Saturate(x + speed.x) + w <= U16_MAX && Saturate(y + speed.y) + h <= U16_MAX &&
      w <= bounds.w && h <= bounds.h
    }
  }

  /** An entity that can be moved by the player (the paddle). */
  datatype PlayerEntity = PlayerEntity(collider: Square, speed: Vec2d, alive: bool) {

    /** Move by `speed.x`, then by `speed.y`, then clamp into `bounds`. */
    function ApplySpeed(bounds: Size): (r: PlayerEntity)
      requires collider.CanAdvance(speed, bounds)
      ensures r.speed == speed && r.alive == alive
      ensures r.collider.w == collider.w && r.collider.h == collider.h
      ensures r.collider.x == Min(Saturate(collider.x + speed.x), bounds.w - collider.w)
      ensures r.collider.y == Min(Saturate(collider.y + speed.y), bounds.h - collider.h)
      ensures r.collider.Inside(bounds)
    {
      this.(collider := collider.MoveX(speed.x).MoveY(speed.y).KeepInside(bounds))
    }
  }

  /** An entity that never moves (a block). */
  datatype StaticEntity = StaticEntity(collider: Square, alive: bool, color: Color)

  /** An entity that moves on its own accord (the ball). */
  datatype PhysicsEntity = PhysicsEntity(collider: Square, speed: Vec2d, alive: bool) {

    /** Move by `speed.x`, then by `speed.y`, then clamp into `bounds`. */
    function ApplySpeed(bounds: Size): (r: PhysicsEntity)
      requires collider.CanAdvance(speed, bounds)
      ensures r.speed == speed && r.alive == alive
      ensures r.collider.w == collider.w && r.collider.h == collider.h
      ensures r.collider.x == Min(Saturate(collider.x + speed.x), bounds.w - collider.w)
      ensures r.collider.y == Min(Saturate(collider.y + speed.y), bounds.h - collider.h)
      ensures r.collider.Inside(bounds)
    {
      this.(collider := collider.MoveX(speed.x).MoveY(speed.y).KeepInside(bounds))
    }
  }

  // ----- Properties of the geometry -----

  /** For rectangles that cover at least one cell, the overlap test agrees with an
      independent definition: they collide exactly when some cell is covered by both. */
  lemma {:induction false} CollidesIffSharedCell(a: Square, b: Square)
    requires a.CollidesWithDefined(b)
    requires a.w > 0 && a.h > 0 && b.w > 0 && b.h > 0
    ensures a.CollidesWith(b) <==> exists px: int, py: int :: a.Contains(px, py) && b.Contains(px, py)
  {
    if a.CollidesWith(b) {
      var px := if a.x < b.x then b.x else a.x;
      var py := if a.y < b.y then b.y else a.y;
      assert a.Contains(px, py) && b.Contains(px, py);
    }
  }

  /** The overlap test is symmetric wherever it is defined both ways round. */
  lemma CollidesSymmetric(a: Square, b: Square)
    requires a.CollidesWithDefined(b) && b.CollidesWithDefined(a)
    ensures a.CollidesWith(b) == b.CollidesWith(a)
  {
  }

  /** Rectangles that only touch along an edge do not collide. */
  lemma TouchingDoNotCollide(a: Square, b: Square)
    requires a.CollidesWithDefined(b)
    requires a.x + a.w == b.x || b.x + b.w == a.x || a.y + a.h == b.y || b.y + b.h == a.y
    ensures !a.CollidesWith(b)
  {
  }

  /** A rectangle of zero width or height covers no cell, yet the strict tests still
      report a collision when it lies strictly inside another rectangle. */
  lemma EmptyInsideCollides()
    ensures var outer, point := Square(0, 0, 10, 10), Square(5, 5, 0, 0);
      outer.CollidesWith(point) && point.CollidesWith(outer) && !point.Contains(5, 5)
    ensures var outer, line := Square(0, 0, 10, 10), Square(5, 0, 0, 10);
      outer.CollidesWith(line) && line.CollidesWith(outer) && !line.Contains(5, 0)
  {
  }

  /** A rectangle of zero width (or height) collides exactly when it lies strictly
      between the other rectangle's left and right (or top and bottom) edges and
      overlaps it on the other axis. */
  lemma EmptyCollidesOnlyStrictlyInside(a: Square, b: Square)
    requires a.CollidesWithDefined(b)
    requires a.w == 0 || a.h == 0
    ensures a.w == 0 ==>
      (a.CollidesWith(b) <==> b.x < a.x < b.x + b.w && a.y < b.y + b.h && a.y + a.h > b.y)
    ensures a.h == 0 ==>
      (a.CollidesWith(b) <==> b.y < a.y < b.y + b.h && a.x < b.x + b.w && a.x + a.w > b.x)
  {
  }

  /** Clamping twice is clamping once, and an inside rectangle is left alone. */
  lemma KeepInsideIdempotent(s: Square, bounds: Size)
    requires s.EdgesFit() && s.w <= bounds.w && s.h <= bounds.h
    ensures s.KeepInside(bounds).KeepInside(bounds) == s.KeepInside(bounds)
    ensures s.Inside(bounds) ==> s.KeepInside(bounds) == s
  {
  }

  /** The centre as written can lie below the rectangle it is the centre of. */
  lemma GetCenterLeavesSquare()
    ensures var s := Square(0, 10, 2, 2);
      s.GetCenter() == Vec2d(1, 15) && !s.Contains(s.GetCenter().x, s.GetCenter().y)
  {
  }
}
