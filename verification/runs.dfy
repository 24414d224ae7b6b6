/** Sequences of player clicks and animation frames, and what holds across
    them: the invariant, the append-only field, the constant score, the
    falling bubble leaving the screen, and where a shot can end. */
module Runs {
  import opened Bubbles
  import opened Simulation

  /** What drives the game from outside: a click fires with the velocity the
      aim gives; a frame carries the colour the palette would hand to a new
      bubble at the launcher during that frame. */
  datatype Event = Click(dx: real, dy: real) | Animate(next: Color)

  function Apply(s: State, e: Event): State
  {
    match e
    case Click(dx, dy) => Shoot(s, dx, dy)
    case Animate(next) => Frame(s, next)
  }

  function Run(s: State, events: seq<Event>): State
    decreases |events|
  {
    if events == [] then s else Run(Apply(s, events[0]), events[1..])
  }

  /** Only frames, no click. */
  predicate Idle(events: seq<Event>)
  {
    forall i :: 0 <= i < |events| ==> events[i].Animate?
  }

  lemma {:induction false} RunAppend(s: State, a: seq<Event>, b: seq<Event>)
    ensures Run(s, a + b) == Run(Run(s, a), b)
    decreases |a|
  {
    if a == [] {
      assert a + b == b;
    } else {
      assert (a + b)[1..] == a[1..] + b;
      RunAppend(Apply(s, a[0]), a[1..], b);
    }
  }

  // ---------------------------------------------------------------------
  // Facts about every run

  /** Every reachable state satisfies the invariant; in particular the score
      stays 0 for ever. */
  lemma {:induction false} RunKeepsInv(s: State, events: seq<Event>)
    requires Inv(s)
    ensures Inv(Run(s, events)) && Run(s, events).score == 0
    decreases |events|
  {
    if events != [] {
      match events[0] {
        case Click(dx, dy) => ShootKeepsInv(s, dx, dy);
        case Animate(next) => FrameKeepsInv(s, next);
      }
      RunKeepsInv(Apply(s, events[0]), events[1..]);
    }
  }

  /** One event adds at most one bubble to the field, at its end. */
  lemma ApplyAppendOnly(s: State, e: Event)
    ensures s.bubbles <= Apply(s, e).bubbles
    ensures |Apply(s, e).bubbles| <= |s.bubbles| + 1
  {
    match e
    case Click(dx, dy) =>
    case Animate(next) =>
      if s.isShooting && ConnectTest(s.bubbles, Advance(s.current)) {
        ConnectExit(s, next);
      }
  }

  /** The field only grows at its end, by at most one bubble per frame, and
      no event changes the score. */
  lemma {:induction false} RunAppendOnly(s: State, events: seq<Event>)
    ensures s.bubbles <= Run(s, events).bubbles
    ensures |Run(s, events).bubbles| <= |s.bubbles| + |events|
    ensures Run(s, events).score == s.score
    decreases |events|
  {
    if events != [] {
      ApplyAppendOnly(s, events[0]);
      RunAppendOnly(Apply(s, events[0]), events[1..]);
    }
  }

  // ---------------------------------------------------------------------
  // The falling bubble

  /** With no shot in flight and no click, frames only move the falling
      bubble: field, current bubble and shooting flag stay as they are. */
  lemma {:induction false} IdleRunOnlyFalls(s: State, events: seq<Event>)
    requires !s.isShooting && Idle(events)
    ensures var t := Run(s, events);
      t.bubbles == s.bubbles && t.current == s.current && !t.isShooting
    ensures s.falling == None ==> Run(s, events).falling == None
    decreases |events|
  {
    if events != [] {
      assert events[0].Animate?;
      assert Idle(events[1..]) by {
        forall i | 0 <= i < |events[1..]| ensures events[1..][i].Animate? {
          assert events[1..][i] == events[i + 1];
        }
      }
      IdleRunOnlyFalls(Apply(s, events[0]), events[1..]);
    }
  }

  /** A falling bubble is gone after any number of idle frames that moves it
      past one radius below the bottom edge. */
  lemma {:induction false} FallingBubbleLeaves(s: State, events: seq<Event>)
    requires !s.isShooting && Idle(events) && s.falling.Some?
    requires s.falling.value.y - BubbleRadius <= Height
    requires (|events| as real) * FallSpeed > Height + BubbleRadius - s.falling.value.y
    ensures Run(s, events).falling == None
    decreases |events|
  {
    assert events != [];
    var t := Apply(s, events[0]);
    assert events[0].Animate?;
    assert Idle(events[1..]) by {
      forall i | 0 <= i < |events[1..]| ensures events[1..][i].Animate? {
        assert events[1..][i] == events[i + 1];
      }
    }
    assert t == Fall(s);
    if t.falling == None {
      IdleRunOnlyFalls(t, events[1..]);
    } else {
      FallingBubbleLeaves(t, events[1..]);
    }
  }

  /** How many frames a falling bubble can stay on screen: it starts no
      higher than the ceiling line and needs to drop below Height + radius. */
  const MaxFallFrames: nat := 121

  /** From any reachable state with no shot in flight, the falling bubble
      has left the screen after MaxFallFrames frames. */
  lemma FallingBubbleGone(s: State, events: seq<Event>)
    requires Inv(s) && !s.isShooting && Idle(events) && |events| >= MaxFallFrames
    ensures Run(s, events).falling == None
  {
    if s.falling == None {
      IdleRunOnlyFalls(s, events);
    } else {
      FallingBubbleLeaves(s, events);
    }
  }

  // ---------------------------------------------------------------------
  // Where a shot launched from the launcher can end

  /** One frame of a shot that is still below the middle line and moves up by
      at most ShotSpeed: the ceiling test is false, a bubble that connects
      lies below the ceiling line, and a shot that flies on is still below the
      middle line with the same vertical velocity. */
  lemma LowShotFrame(s: State, next: Color)
    requires Inv(s) && s.isShooting
    requires s.current.y > Height / 2.0 && s.current.dy >= -ShotSpeed
    ensures Advance(s.current).y - BubbleRadius >= 0.0
    ensures var t := Frame(s, next);
      && s.bubbles <= t.bubbles
      && (forall i :: |s.bubbles| <= i < |t.bubbles| ==> t.bubbles[i].y >= BubbleRadius)
      && (t.isShooting ==> t.current.y > Height / 2.0 && t.current.dy == s.current.dy)
  {
    var m := Advance(s.current);
    if ConnectTest(s.bubbles, m) {
      ConnectExit(s, next);
    } else if !BottomTest(m) {
      FallingExit(s, next);
    }
  }

  /** A shot fired from below the middle line with speed at most ShotSpeed
      never takes the ceiling exit: whatever it joins the field with lies
      below the ceiling line, and while it flies it stays below the middle
      line. With the launcher at y = 550 this covers every shot fired from
      the launcher. */
  lemma {:induction false} LowShotMissesCeiling(s: State, events: seq<Event>)
    requires Inv(s) && s.isShooting
    requires s.current.y > Height / 2.0 && s.current.dy >= -ShotSpeed
    requires Idle(events)
    ensures var t := Run(s, events);
      && s.bubbles <= t.bubbles
      && (forall i :: |s.bubbles| <= i < |t.bubbles| ==> t.bubbles[i].y >= BubbleRadius)
      && (t.isShooting ==> t.current.y > Height / 2.0)
    decreases |events|
  {
    if events != [] {
      assert events[0].Animate?;
      assert Idle(events[1..]) by {
        forall i | 0 <= i < |events[1..]| ensures events[1..][i].Animate? {
          assert events[1..][i] == events[i + 1];
        }
      }
      var u := Apply(s, events[0]);
      LowShotFrame(s, events[0].next);
      FrameKeepsInv(s, events[0].next);
      if u.isShooting {
        LowShotMissesCeiling(u, events[1..]);
      } else {
        IdleRunOnlyFalls(u, events[1..]);
      }
    }
  }

  /** A level shot (dy = 0) from the launcher height into an empty field
      never ends: it stays at y = ShooterY, between the ceiling line, the
      bottom edge and the middle line, bouncing between the side walls, so
      isShooting never clears and every later click is ignored. */
  lemma {:induction false} LevelShotNeverEnds(s: State, events: seq<Event>)
    requires s.bubbles == [] && s.isShooting && !s.current.connected
    requires s.current.y == ShooterY && s.current.dy == 0.0
    ensures var t := Run(s, events);
      && t.isShooting && t.bubbles == []
      && t.current.y == ShooterY && t.current.dy == 0.0
    decreases |events|
  {
    if events != [] {
      CollisionBoundary(s.bubbles, Advance(s.current));
      LevelShotNeverEnds(Apply(s, events[0]), events[1..]);
    }
  }

  // ---------------------------------------------------------------------
  // A straight-up shot

  /** A shot flying straight up through an empty field moves ShotSpeed per
      frame and changes nothing else while it is below the middle line. */
  lemma {:induction false} StraightUpFlight(s: State, events: seq<Event>)
    requires s.bubbles == [] && s.isShooting && s.falling == None
    requires s.current.x == ShooterX && s.current.dx == 0.0 && s.current.dy == -ShotSpeed
    requires !s.current.connected && s.current.y <= ShooterY
    requires Idle(events)
    requires s.current.y - ShotSpeed * (|events| as real) > Height / 2.0
    ensures Run(s, events) == s.(current := s.current.(y := s.current.y - ShotSpeed * (|events| as real)))
    decreases |events|
  {
    if events != [] {
      assert events[0].Animate?;
      assert Idle(events[1..]) by {
        forall i | 0 <= i < |events[1..]| ensures events[1..][i].Animate? {
          assert events[1..][i] == events[i + 1];
        }
      }
      var u := Apply(s, events[0]);
      CollisionBoundary(s.bubbles, Advance(s.current));
      assert u == s.(current := s.current.(y := s.current.y - ShotSpeed));
      StraightUpFlight(u, events[1..]);
    }
  }

  /** Fired straight up from the launcher into an empty field, the shot does
      not reach the ceiling: on the 50th frame it arrives at the middle line
      and takes the falling exit. The current bubble stays at the middle line
      (it is not reloaded at the launcher), and the falling copy has already
      dropped one step in the same frame. */
  lemma StraightUpShotFalls(first: Color, events: seq<Event>)
    requires Idle(events) && |events| == 50
    ensures var t := Run(Shoot(Initial(first), 0.0, -ShotSpeed), events);
      && t.bubbles == [] && !t.isShooting
      && t.current.x == ShooterX && t.current.y == Height / 2.0
      && t.current.falling && !t.current.connected && t.current.dy == FallSpeed
      && t.falling == Some(t.current.(y := Height / 2.0 + FallSpeed))
  {
    var s := Shoot(Initial(first), 0.0, -ShotSpeed);
    RunAppend(s, events[..49], events[49..]);
    assert events[..49] + events[49..] == events;
    assert Idle(events[..49]) by {
      forall i | 0 <= i < 49 ensures events[..49][i].Animate? {
        assert events[..49][i] == events[i];
      }
    }
    StraightUpFlight(s, events[..49]);
    var u := Run(s, events[..49]);
    assert u.current.y == 305.0;
    assert events[49..] == [events[49]];
    assert events[49].Animate?;
    CollisionBoundary(u.bubbles, Advance(u.current));
  }

  // ---------------------------------------------------------------------
  // Relaunching from where the falling exit leaves the current bubble

  /** Fire straight up, then let one frame pass. */
  function Relaunch(next: Color): seq<Event>
  {
    [Click(0.0, -ShotSpeed), Animate(next)]
  }

  function Relaunches(next: Color, k: nat): seq<Event>
  {
    if k == 0 then [] else Relaunch(next) + Relaunches(next, k - 1)
  }

  /** One relaunch from a current bubble at or above the middle line in an
      empty field moves it up by ShotSpeed, where it takes the falling exit
      again, provided it does not cross the ceiling line. */
  lemma RelaunchCreeps(s: State, next: Color)
    requires s.bubbles == [] && !s.isShooting && !s.current.connected
    requires s.current.x == ShooterX
    requires BubbleRadius + ShotSpeed <= s.current.y <= Height / 2.0 + ShotSpeed
    ensures var t := Run(s, Relaunch(next));
      && t.bubbles == [] && !t.isShooting && !t.current.connected
      && t.current.x == ShooterX && t.current.y == s.current.y - ShotSpeed
      && t.current.falling && t.current.dy == FallSpeed
      && t.falling == Some(t.current.(y := t.current.y + FallSpeed))
  {
    var u := Shoot(s, 0.0, -ShotSpeed);
    assert Relaunch(next)[1..] == [Animate(next)];
    assert Run(s, Relaunch(next)) == Run(u, [Animate(next)]);
    assert Run(u, [Animate(next)]) == Run(Frame(u, next), []);
    CollisionBoundary(u.bubbles, Advance(u.current));
  }

  lemma {:induction false} RelaunchesCreep(s: State, next: Color, k: nat)
    requires s.bubbles == [] && !s.isShooting && !s.current.connected
    requires s.current.x == ShooterX
    requires BubbleRadius + ShotSpeed * (k as real) <= s.current.y <= Height / 2.0 + ShotSpeed
    ensures var t := Run(s, Relaunches(next, k));
      && t.bubbles == [] && !t.isShooting && !t.current.connected
      && t.current.x == ShooterX && t.current.y == s.current.y - ShotSpeed * (k as real)
    decreases k
  {
    if k > 0 {
      RunAppend(s, Relaunch(next), Relaunches(next, k - 1));
      RelaunchCreeps(s, next);
      RelaunchesCreep(Run(s, Relaunch(next)), next, k - 1);
    }
  }

  /** The ceiling exit is reachable after all: fire straight up into an empty
      field, and after the shot has started falling at the middle line, keep
      refiring straight up. Each relaunch starts where the last one stopped
      and creeps up by ShotSpeed; the 53rd relaunch crosses the ceiling line
      and the bubble joins the field there. */
  lemma RelaunchesReachCeiling(first: Color, frames: seq<Event>, next: Color)
    requires Idle(frames) && |frames| == 50
    ensures var s := Run(Shoot(Initial(first), 0.0, -ShotSpeed), frames);
      var t := Run(s, Relaunches(next, 53));
      && |t.bubbles| == 1
      && t.bubbles[0].x == ShooterX && t.bubbles[0].y == BubbleRadius - ShotSpeed
      && t.bubbles[0].y - BubbleRadius < 0.0 && t.bubbles[0].connected
  {
    var s := Run(Shoot(Initial(first), 0.0, -ShotSpeed), frames);
    StraightUpShotFalls(first, frames);
    assert Relaunches(next, 53) == Relaunches(next, 52) + Relaunch(next) by {
      RelaunchesSnoc(next, 52);
    }
    RunAppend(s, Relaunches(next, 52), Relaunch(next));
    RelaunchesCreep(s, next, 52);
    var u := Run(s, Relaunches(next, 52));
    assert u.current.y == 40.0;
    var v := Shoot(u, 0.0, -ShotSpeed);
    assert Relaunch(next)[1..] == [Animate(next)];
    assert Run(u, Relaunch(next)) == Run(v, [Animate(next)]);
    assert Run(v, [Animate(next)]) == Run(Frame(v, next), []);
    assert ConnectTest(v.bubbles, Advance(v.current));
    ConnectExit(v, next);
  }

  lemma {:induction false} RelaunchesSnoc(next: Color, k: nat)
    ensures Relaunches(next, k + 1) == Relaunches(next, k) + Relaunch(next)
  {
    if k > 0 {
      RelaunchesSnoc(next, k - 1);
    }
  }
}
