/** The game's globals as one object whose methods update them in place, as
    shootBubble, handleCollisions, detectCollisionWithBubbles,
    updateFallingBubble and the update part of gameLoop do. Each method is
    proved to perform the corresponding function of module Simulation. */
module Game {
  import opened Bubbles
  import opened Simulation

  class Game {
    var bubbles: seq<Bubble>
    var currentBubble: Bubble
    var isShooting: bool
    var fallingBubble: Option<Bubble>
    var score: int

    /** The object's fields as a Simulation.State value. */
    function Snapshot(): State
      reads this
    {
      State(bubbles, currentBubble, isShooting, fallingBubble, score)
    }

    ghost predicate Valid()
      reads this
    {
      Inv(Snapshot())
    }

    /** The page load: empty field, a bubble of the given colour at the
        launcher, no shot, no falling bubble, score 0. */
    constructor (color: Color)
      ensures Valid() && Snapshot() == Initial(color)
    {
      bubbles := [];
      currentBubble := CreateBubble(ShooterX, ShooterY, color);
      isShooting := false;
      score := 0;
      fallingBubble := None;
    }

    /** shootBubble, with the aim already turned into a velocity. */
    method ShootBubble(dx: real, dy: real)
      requires Valid()
      modifies this
      ensures Valid() && Snapshot() == Shoot(old(Snapshot()), dx, dy)
    {
      ShootKeepsInv(Snapshot(), dx, dy);
      if !isShooting {
        currentBubble := currentBubble.(dx := dx);
        currentBubble := currentBubble.(dy := dy);
        isShooting := true;
      }
    }

    /** detectCollisionWithBubbles: scan the field in order and stop at the
        first settled bubble that overlaps the shot. */
    method DetectCollisionWithBubbles(shot: Bubble) returns (hit: bool)
      ensures hit <==> Collides(bubbles, shot)
    {
      var i := 0;
      while i < |bubbles|
        invariant 0 <= i <= |bubbles|
        invariant forall j :: 0 <= j < i ==> !Overlaps(shot, bubbles[j])
      {
        var dx := shot.x - bubbles[i].x;
        var dy := shot.y - bubbles[i].y;
        if dx * dx + dy * dy < (2.0 * BubbleRadius) * (2.0 * BubbleRadius) {
          return true;
        }
        i := i + 1;
      }
      return false;
    }

    /** handleCollisions: move the shot, bounce it off the side walls, then
        take the first exit that applies. `next` is the colour of a bubble
        loaded at the launcher when the shot ends. */
    method HandleCollisions(next: Color)
      requires Valid()
      modifies this
      ensures Valid() && Snapshot() == Tick(old(Snapshot()), next)
    {
      TickKeepsInv(Snapshot(), next);
      currentBubble := currentBubble.(x := currentBubble.x + currentBubble.dx);
      currentBubble := currentBubble.(y := currentBubble.y + currentBubble.dy);

      if currentBubble.x + BubbleRadius > Width || currentBubble.x - BubbleRadius < 0.0 {
        currentBubble := currentBubble.(dx := -currentBubble.dx);
      }

      var hit := false;
      if !(currentBubble.y - BubbleRadius < 0.0) {
        hit := DetectCollisionWithBubbles(currentBubble);
      }
      if currentBubble.y - BubbleRadius < 0.0 || hit {
        currentBubble := currentBubble.(connected := true);
        bubbles := bubbles + [currentBubble];
        currentBubble := CreateBubble(ShooterX, ShooterY, next);
        isShooting := false;
      } else if currentBubble.y + BubbleRadius >= Height {
        currentBubble := CreateBubble(ShooterX, ShooterY, next);
        isShooting := false;
      } else if currentBubble.y <= Height / 2.0 {
        var again := DetectCollisionWithBubbles(currentBubble);
        if !again && !currentBubble.connected {
          currentBubble := currentBubble.(dy := FallSpeed);
          currentBubble := currentBubble.(falling := true);
          fallingBubble := Some(currentBubble);
          isShooting := false;
        }
      }
    }

    /** updateFallingBubble: drop the falling bubble by FallSpeed and forget
        it once it is entirely below the bottom edge. */
    method UpdateFallingBubble()
      requires Valid()
      modifies this
      ensures Valid() && Snapshot() == Fall(old(Snapshot()))
    {
      FallKeepsInv(Snapshot());
      if fallingBubble.Some? {
        fallingBubble := Some(fallingBubble.value.(y := fallingBubble.value.y + FallSpeed));
        if fallingBubble.value.y - BubbleRadius > Height {
          fallingBubble := None;
        }
      }
    }

    /** The state updates of one gameLoop frame: the shot advances only while
        shooting, then the falling bubble moves. */
    method Step(next: Color)
      requires Valid()
      modifies this
      ensures Valid() && Snapshot() == Frame(old(Snapshot()), next)
    {
      if isShooting {
        HandleCollisions(next);
      }
      UpdateFallingBubble();
    }
  }
}
