/** Shapes of the demo: a Balloon owns a circle, a Brick owns a rectangle, and
    each carries a vertical velocity that one simulation tick accumulates and
    applies before clamping the shape at its floor.  Coordinates are canvas
    coordinates (origin bottom-left, y growing upward) and are modelled as
    reals. */
module Entities {

  /** The colour tag a shape is drawn with. */
  datatype Color = Blue | Red

  datatype Circle = Circle(x: real, y: real, radius: real, color: Color)

  datatype Rectangle = Rectangle(x: real, y: real, width: real, height: real, color: Color)

  datatype Balloon = Balloon(circle: Circle, velocityY: real)

  datatype Brick = Brick(rectangle: Rectangle, velocityY: real)

  /** The closed set of entity variants. */
  datatype Entity = BalloonEntity(balloon: Balloon) | BrickEntity(brick: Brick)

  /** Velocity added to a Balloon on each tick. */
  const BalloonGravity: real := 0.10

  /** Velocity added to a Brick on each tick. */
  const BrickGravity: real := 0.75

  // ---------------------------------------------------------------------------
  // Specification of one tick
  // ---------------------------------------------------------------------------

  /** A Balloon after one tick: it moves by its increased velocity, and if that
      takes it below its radius it rests on the floor with zero velocity. */
  function BalloonTicked(b: Balloon): (t: Balloon)
    ensures t.circle == b.circle.(y := t.circle.y)
    ensures t.circle.y >= t.circle.radius
    ensures b.circle.y + b.velocityY + BalloonGravity < b.circle.radius ==>
              t.circle.y == t.circle.radius && t.velocityY == 0.0
    ensures b.circle.y + b.velocityY + BalloonGravity >= b.circle.radius ==>
              t.velocityY == b.velocityY + BalloonGravity && t.circle.y == b.circle.y + t.velocityY
  {
    var v := b.velocityY + BalloonGravity;
    var y := b.circle.y + v;
    if y < b.circle.radius then Balloon(b.circle.(y := b.circle.radius), 0.0)
    else Balloon(b.circle.(y := y), v)
  }

  /** A Brick after one tick: it falls by its increased velocity, and if that
      takes it to or below its height it rests on the floor with zero velocity. */
  function BrickTicked(b: Brick): (t: Brick)
    ensures t.rectangle == b.rectangle.(y := t.rectangle.y)
    ensures t.rectangle.y >= t.rectangle.height
    ensures b.rectangle.y - (b.velocityY + BrickGravity) <= b.rectangle.height <==> BrickSettled(t)
    ensures !BrickSettled(t) ==> t.velocityY == b.velocityY + BrickGravity && t.rectangle.y == b.rectangle.y - t.velocityY
  {
    var v := b.velocityY + BrickGravity;
    var y := b.rectangle.y - v;
    if y <= b.rectangle.height then Brick(b.rectangle.(y := b.rectangle.height), 0.0)
    else Brick(b.rectangle.(y := y), v)
  }

  /** A Brick resting on its floor. */
  predicate BrickSettled(b: Brick) {
    b.rectangle.y == b.rectangle.height && b.velocityY == 0.0
  }

  /** Every entity sits on or above the floor of its own shape. */
  predicate AboveFloor(e: Entity) {
    match e
    case BalloonEntity(b) => b.circle.y >= b.circle.radius
    case BrickEntity(b) => b.rectangle.y >= b.rectangle.height
  }

  /** Two entities of the same variant with the same x, size and colour. */
  predicate SameShape(e: Entity, f: Entity) {
    match (e, f)
    case (BalloonEntity(a), BalloonEntity(b)) =>
      a.circle.x == b.circle.x && a.circle.radius == b.circle.radius && a.circle.color == b.circle.color
    case (BrickEntity(a), BrickEntity(b)) =>
      a.rectangle.x == b.rectangle.x && a.rectangle.width == b.rectangle.width
      && a.rectangle.height == b.rectangle.height && a.rectangle.color == b.rectangle.color
    case _ => false
  }

  /** An entity after one tick: the variant's own tick law applied. */
  function Ticked(e: Entity): (t: Entity)
    ensures t.BalloonEntity? <==> e.BalloonEntity?
    ensures SameShape(t, e)
    ensures AboveFloor(t)
  {
    match e
    case BalloonEntity(b) => BalloonEntity(BalloonTicked(b))
    case BrickEntity(b) => BrickEntity(BrickTicked(b))
  }

  function X(e: Entity): real {
    match e
    case BalloonEntity(b) => b.circle.x
    case BrickEntity(b) => b.rectangle.x
  }

  function Y(e: Entity): real {
    match e
    case BalloonEntity(b) => b.circle.y
    case BrickEntity(b) => b.rectangle.y
  }

  function VelocityY(e: Entity): real {
    match e
    case BalloonEntity(b) => b.velocityY
    case BrickEntity(b) => b.velocityY
  }

  /** The two entities differ at most in their position: same variant, size,
      colour and velocity. */
  predicate DiffersOnlyInPosition(e: Entity, f: Entity) {
    match (e, f)
    case (BalloonEntity(a), BalloonEntity(b)) =>
      a.circle.radius == b.circle.radius && a.circle.color == b.circle.color && a.velocityY == b.velocityY
    case (BrickEntity(a), BrickEntity(b)) =>
      a.rectangle.width == b.rectangle.width && a.rectangle.height == b.rectangle.height
      && a.rectangle.color == b.rectangle.color && a.velocityY == b.velocityY
    case _ => false
  }

  /** The primitive an entity hands to the canvas when it is drawn. */
  datatype Shape = CircleShape(circle: Circle) | RectangleShape(rectangle: Rectangle)

  function Drawn(e: Entity): Shape {
    match e
    case BalloonEntity(b) => CircleShape(b.circle)
    case BrickEntity(b) => RectangleShape(b.rectangle)
  }

  // ---------------------------------------------------------------------------
  // The tick as the source performs it: field by field on the entity
  // ---------------------------------------------------------------------------

  method TickBalloon(b: Balloon) returns (t: Balloon)
    ensures t == BalloonTicked(b)
  {
    t := b;
    t := t.(velocityY := t.velocityY + BalloonGravity);
    t := t.(circle := t.circle.(y := t.circle.y + t.velocityY));
    var bottomY := t.circle.radius;
    if t.circle.y < bottomY {
      t := t.(circle := t.circle.(y := bottomY));
      t := t.(velocityY := 0.0);
    }
  }

  method TickBrick(b: Brick) returns (t: Brick)
    ensures t == BrickTicked(b)
  {
    t := b;
    t := t.(velocityY := t.velocityY + BrickGravity);
    t := t.(rectangle := t.rectangle.(y := t.rectangle.y - t.velocityY));
    var bottomY := t.rectangle.height;
    if t.rectangle.y <= bottomY {
      t := t.(rectangle := t.rectangle.(y := bottomY));
      t := t.(velocityY := 0.0);
    }
  }

  /** Dispatch to the variant's own tick; the variant never changes. */
  method TickEntity(e: Entity) returns (t: Entity)
    ensures t == Ticked(e)
  {
    match e
    case BalloonEntity(b) =>
      var b' := TickBalloon(b);
      t := BalloonEntity(b');
    case BrickEntity(b) =>
      var b' := TickBrick(b);
      t := BrickEntity(b');
  }

  // ---------------------------------------------------------------------------
  // Many ticks
  // ---------------------------------------------------------------------------

  function BalloonTicks(b: Balloon, n: nat): Balloon {
    if n == 0 then b else BalloonTicked(BalloonTicks(b, n - 1))
  }

  function BrickTicks(b: Brick, n: nat): Brick {
    if n == 0 then b else BrickTicked(BrickTicks(b, n - 1))
  }

  function EntityTicks(e: Entity, n: nat): Entity {
    if n == 0 then e else Ticked(EntityTicks(e, n - 1))
  }

  /** A Balloon on or above its floor and not moving down never lands again:
      its velocity grows by the gravity constant on every tick and it rises at
      least that much per tick. */
  lemma {:induction false} BalloonKeepsRising(b: Balloon, n: nat)
    requires b.circle.y >= b.circle.radius && b.velocityY >= 0.0
    ensures BalloonTicks(b, n).velocityY == b.velocityY + (n as real) * BalloonGravity
    ensures BalloonTicks(b, n).circle.y >= b.circle.y + (n as real) * BalloonGravity
    ensures BalloonTicks(b, n).circle == b.circle.(y := BalloonTicks(b, n).circle.y)
  {
    if n > 0 {
      BalloonKeepsRising(b, n - 1);
    }
  }

  /** A settled Brick stays settled, unchanged, for any number of ticks. */
  lemma {:induction false} SettledBrickStaysSettled(b: Brick, n: nat)
    requires BrickSettled(b)
    ensures BrickTicks(b, n) == b
  {
    if n > 0 {
      SettledBrickStaysSettled(b, n - 1);
    }
  }

  /** Once settled, a Brick is still settled after any further ticks. */
  lemma {:induction false} BrickSettledForever(b: Brick, k: nat, n: nat)
    requires BrickSettled(BrickTicks(b, k))
    requires k <= n
    ensures BrickTicks(b, n) == BrickTicks(b, k)
  {
    if n > k {
      BrickSettledForever(b, k, n - 1);
    }
  }

  /** Many ticks of an entity are many ticks of its variant. */
  lemma {:induction false} EntityTicksByVariant(e: Entity, n: nat)
    ensures e.BalloonEntity? ==> EntityTicks(e, n) == BalloonEntity(BalloonTicks(e.balloon, n))
    ensures e.BrickEntity? ==> EntityTicks(e, n) == BrickEntity(BrickTicks(e.brick, n))
  {
    if n > 0 {
      EntityTicksByVariant(e, n - 1);
    }
  }

  /** The falling-brick scenario: a unit Brick dropped from y = 19 with no
      velocity lands on the seventh tick, not earlier, and is still resting
      there after fifty ticks. */
  lemma BrickFromNineteenLandsOnSeventhTick(b: Brick)
    requires b.rectangle.y == 19.0 && b.rectangle.height == 1.0 && b.velocityY == 0.0
    ensures !BrickSettled(BrickTicks(b, 6)) && BrickTicks(b, 6).rectangle.y == 3.25
    ensures BrickSettled(BrickTicks(b, 7))
    ensures BrickTicks(b, 50) == BrickTicks(b, 7)
  {
    assert BrickTicks(b, 1).rectangle.y == 18.25;
    assert BrickTicks(b, 2).rectangle.y == 16.75;
    assert BrickTicks(b, 3).rectangle.y == 14.5;
    assert BrickTicks(b, 4).rectangle.y == 11.5;
    assert BrickTicks(b, 5).rectangle.y == 7.75;
    assert BrickTicks(b, 6).rectangle.y == 3.25 && BrickTicks(b, 6).velocityY == 4.5;
    assert BrickSettled(BrickTicks(b, 7));
    BrickSettledForever(b, 7, 50);
  }

  /** The rising-balloon scenario: a unit Balloon released at y = 19 with no
      velocity is above its floor after every tick, so it never lands. */
  lemma BalloonFromNineteenNeverLands(b: Balloon, n: nat)
    requires b.circle.y == 19.0 && b.circle.radius == 1.0 && b.velocityY == 0.0
    ensures BalloonTicks(b, n).circle.y > BalloonTicks(b, n).circle.radius
  {
    BalloonKeepsRising(b, n);
  }
}
