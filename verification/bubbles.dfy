/** Bubble records, the play-field constants and the geometry of one shot:
    moving a bubble by its velocity, bouncing it off the side walls, and the
    circle-overlap test against the settled field. */
module Bubbles {

  datatype Option<T> = None | Some(value: T)

  // Play-field constants (game.js:4-9, 11)
  const Width: real := 560.0
  const Height: real := 600.0
  const MaxColumns: nat := 7
  /** Uniform radius: the field is MaxColumns bubbles wide. */
  const BubbleRadius: real := Width / (2.0 * (MaxColumns as real))
  /** Launcher position: bottom centre, 50 units above the bottom edge. */
  const ShooterX: real := Width / 2.0
  const ShooterY: real := Height - 50.0
  /** Speed of a shot: its velocity is ShotSpeed * (cos angle, sin angle). */
  const ShotSpeed: real := 5.0
  /** Downward speed of a bubble that did not connect. */
  const FallSpeed: real := 5.0

  /** The fixed five-colour palette. */
  datatype Color = Red | Green | Blue | Yellow | Purple

  datatype Bubble = Bubble(
    x: real, y: real,
    radius: real,
    color: Color,
    dx: real, dy: real,
    connected: bool,
    falling: bool)

  /** A new bubble at rest at (x, y): not connected, not falling. */
  function CreateBubble(x: real, y: real, color: Color): (b: Bubble)
    ensures b.x == x && b.y == y && b.color == color
    ensures b.radius == BubbleRadius == 40.0
    ensures b.dx == 0.0 && b.dy == 0.0
    ensures !b.connected && !b.falling
  {
    Bubble(x, y, BubbleRadius, color, 0.0, 0.0, false, false)
  }

  function SquaredDistance(a: Bubble, b: Bubble): real
  {
    (a.x - b.x) * (a.x - b.x) + (a.y - b.y) * (a.y - b.y)
  }

  /** The circles of a and b overlap: their centres are strictly closer than
      two radii. Compared on squares, since the distance is a square root. */
  predicate Overlaps(a: Bubble, b: Bubble)
  {
    SquaredDistance(a, b) < (2.0 * BubbleRadius) * (2.0 * BubbleRadius)
  }

  /** The square-root-free test decides the same as comparing the
      (non-negative) distance itself with two radii. */
  lemma DistanceComparison(distance: real, squared: real)
    requires distance >= 0.0 && distance * distance == squared
    ensures distance < 2.0 * BubbleRadius <==> squared < (2.0 * BubbleRadius) * (2.0 * BubbleRadius)
  {
    var d := 2.0 * BubbleRadius;
    assert d == 80.0;
    if distance < d {
      assert distance * distance <= distance * d;
      assert distance * d < d * d;
    } else {
      assert distance * distance >= distance * d;
      assert distance * d >= d * d;
    }
  }

  /** Some settled bubble of the field overlaps b. */
  predicate Collides(field: seq<Bubble>, b: Bubble)
  {
    exists i :: 0 <= i < |field| && Overlaps(b, field[i])
  }

  /** An empty field never collides, and neither does a field all of whose
      bubbles are at least two radii away (exact tangency does not count). */
  lemma CollisionBoundary(field: seq<Bubble>, b: Bubble)
    ensures field == [] ==> !Collides(field, b)
    ensures (forall i :: 0 <= i < |field| ==>
               SquaredDistance(b, field[i]) >= (2.0 * BubbleRadius) * (2.0 * BubbleRadius))
            <==> !Collides(field, b)
  {
  }

  /** After the move, the bubble pokes past the left or the right wall. */
  predicate HitsWall(b: Bubble)
  {
    b.x + BubbleRadius > Width || b.x - BubbleRadius < 0.0
  }

  /** One step of flight: move by (dx, dy), then reverse dx at a side wall.
      The position is not clamped back inside the field. */
  function Advance(b: Bubble): Bubble
  {
    var moved := b.(x := b.x + b.dx, y := b.y + b.dy);
    if HitsWall(moved) then moved.(dx := -moved.dx) else moved
  }

  /** The bounce reverses dx exactly when the moved bubble pokes past a side
      wall, keeps the speed |dx|, and changes nothing else. */
  lemma WallBounce(b: Bubble)
    ensures Advance(b).x == b.x + b.dx && Advance(b).y == b.y + b.dy
    ensures HitsWall(Advance(b)) ==> Advance(b).dx == -b.dx
    ensures !HitsWall(Advance(b)) ==> Advance(b).dx == b.dx
    ensures Advance(b).dx * Advance(b).dx == b.dx * b.dx
    ensures Advance(b).dy == b.dy && Advance(b).radius == b.radius && Advance(b).color == b.color
    ensures Advance(b).connected == b.connected && Advance(b).falling == b.falling
  {
  }
}
