/** The shot simulation as functions on a snapshot of the game's state:
    firing, one tick of the shot in flight, one step of the falling bubble,
    and one animation frame, with the state invariant they preserve. */
module Simulation {
  import opened Bubbles

  /** The game's mutable globals (game.js:10-15). The launcher's aim angle is
      not part of it: a shot receives its velocity directly. */
  datatype State = State(
    bubbles: seq<Bubble>,
    current: Bubble,
    isShooting: bool,
    falling: Option<Bubble>,
    score: int)

  /** The state when the page loads: an empty field and a bubble of the
      given colour waiting at the launcher. */
  function Initial(color: Color): (s: State)
    ensures Inv(s) && s.bubbles == [] && !s.isShooting && s.falling == None
    ensures s.current == CreateBubble(ShooterX, ShooterY, color)
  {
    State([], CreateBubble(ShooterX, ShooterY, color), false, None, 0)
  }

  /** What every reachable state satisfies: settled bubbles are connected,
      the bubble at the launcher or in flight never is, a falling bubble is
      marked falling and lies between the ceiling line and one radius below
      the bottom edge, every bubble has the uniform radius, and the score is
      still 0. */
  ghost predicate Inv(s: State)
  {
    && (forall i :: 0 <= i < |s.bubbles| ==> s.bubbles[i].connected && s.bubbles[i].radius == BubbleRadius)
    && !s.current.connected && s.current.radius == BubbleRadius
    && (s.falling.Some? ==>
          && s.falling.value.falling && !s.falling.value.connected
          && s.falling.value.radius == BubbleRadius
          && BubbleRadius <= s.falling.value.y <= Height + BubbleRadius)
    && s.score == 0
  }

  /** shootBubble: give the current bubble the velocity (dx, dy) and start
      the shot, unless a shot is already in flight. */
  function Shoot(s: State, dx: real, dy: real): State
  {
    if s.isShooting then s
    else s.(current := s.current.(dx := dx, dy := dy), isShooting := true)
  }

  /** The shot joins the field: it reached the ceiling line or touches a
      settled bubble. */
  predicate ConnectTest(field: seq<Bubble>, m: Bubble)
  {
    m.y - BubbleRadius < 0.0 || Collides(field, m)
  }

  /** The shot reached the bottom edge. */
  predicate BottomTest(m: Bubble)
  {
    m.y + BubbleRadius >= Height
  }

  /** The shot starts falling: the guard exactly as the source writes it. */
  predicate FallTest(field: seq<Bubble>, m: Bubble)
  {
    m.y <= Height / 2.0 && !Collides(field, m) && !m.connected
  }

  /** handleCollisions: one tick of the shot in flight. `next` is the colour
      of the bubble that is loaded at the launcher if the shot ends here. */
  function Tick(s: State, next: Color): State
  {
    var m := Advance(s.current);
    if ConnectTest(s.bubbles, m) then
      s.(bubbles := s.bubbles + [m.(connected := true)],
         current := CreateBubble(ShooterX, ShooterY, next),
         isShooting := false)
    else if BottomTest(m) then
      s.(current := CreateBubble(ShooterX, ShooterY, next), isShooting := false)
    else if FallTest(s.bubbles, m) then
      var f := m.(dy := FallSpeed, falling := true);
      s.(current := f, falling := Some(f), isShooting := false)
    else
      s.(current := m)
  }

  /** updateFallingBubble: the falling bubble drops by FallSpeed and is
      removed once it is entirely below the bottom edge. */
  function Fall(s: State): State
  {
    match s.falling
    case None => s
    case Some(b) =>
      var f := b.(y := b.y + FallSpeed);
      s.(falling := if f.y - BubbleRadius > Height then None else Some(f))
  }

  /** The state updates of one gameLoop frame, in their order: the shot
      advances only while shooting, then the falling bubble moves. */
  function Frame(s: State, next: Color): State
  {
    Fall(if s.isShooting then Tick(s, next) else s)
  }

  // ---------------------------------------------------------------------
  // One call at a time

  /** Firing while a shot is in flight changes nothing; otherwise only the
      current bubble's velocity and the shooting flag change. */
  lemma ShootEffect(s: State, dx: real, dy: real)
    ensures s.isShooting ==> Shoot(s, dx, dy) == s
    ensures !s.isShooting ==>
      var t := Shoot(s, dx, dy);
      t == s.(current := s.current.(dx := dx, dy := dy), isShooting := true)
  {
  }

  /** Connect exit: the field grows by exactly the moved shot, marked
      connected, behind the unchanged earlier bubbles; a fresh bubble waits
      at the launcher and the shot is over. */
  lemma ConnectExit(s: State, next: Color)
    requires ConnectTest(s.bubbles, Advance(s.current))
    ensures var t := Tick(s, next);
      && |t.bubbles| == |s.bubbles| + 1
      && t.bubbles[..|s.bubbles|] == s.bubbles
      && t.bubbles[|s.bubbles|] == Advance(s.current).(connected := true)
      && t.current == CreateBubble(ShooterX, ShooterY, next)
      && !t.isShooting && t.falling == s.falling && t.score == s.score
  {
    assert (s.bubbles + [Advance(s.current).(connected := true)])[..|s.bubbles|] == s.bubbles;
  }

  /** Bottom exit: the shot is dropped without touching the field or the
      falling bubble, and a fresh bubble waits at the launcher. */
  lemma BottomExit(s: State, next: Color)
    requires !ConnectTest(s.bubbles, Advance(s.current)) && BottomTest(Advance(s.current))
    ensures var t := Tick(s, next);
      && t.bubbles == s.bubbles && t.falling == s.falling
      && t.current == CreateBubble(ShooterX, ShooterY, next)
      && !t.isShooting && t.score == s.score
  {
  }

  /** Falling exit: once the earlier exits are ruled out, the source's guard
      comes down to "at or above the middle line". The shot then turns into a
      falling bubble, copied into the falling slot (replacing any previous
      one), while the current bubble stays where it is, marked falling with
      dy = FallSpeed. Below the middle line the shot just flies on. */
  lemma FallingExit(s: State, next: Color)
    requires Inv(s)
    requires !ConnectTest(s.bubbles, Advance(s.current)) && !BottomTest(Advance(s.current))
    ensures FallTest(s.bubbles, Advance(s.current)) <==> Advance(s.current).y <= Height / 2.0
    ensures var m, t := Advance(s.current), Tick(s, next);
      if m.y <= Height / 2.0 then
        && t.current == m.(dy := FallSpeed, falling := true)
        && !t.current.connected
        && t.falling == Some(t.current)
        && !t.isShooting && t.bubbles == s.bubbles && t.score == s.score
      else
        t == s.(current := m)
  {
  }

  /** One falling step: y grows by exactly FallSpeed, the bubble is dropped
      exactly when it is entirely below the bottom edge, and nothing else in
      the state changes. */
  lemma FallStep(s: State)
    ensures s.falling == None ==> Fall(s) == s
    ensures s.falling.Some? ==>
      var b, t := s.falling.value, Fall(s);
      && (t.falling == None <==> b.y + FallSpeed - BubbleRadius > Height)
      && (t.falling.Some? ==> t.falling.value == b.(y := b.y + FallSpeed))
      && t.bubbles == s.bubbles && t.current == s.current
      && t.isShooting == s.isShooting && t.score == s.score
  {
  }

  /** A frame without a shot in flight changes only the falling slot, as one
      falling step does: the field, the current bubble, the shooting flag
      (still off) and the score stay as they are. */
  lemma IdleFrame(s: State, next: Color)
    requires !s.isShooting
    ensures var t := Frame(s, next);
      && t.bubbles == s.bubbles && t.current == s.current
      && !t.isShooting && t.score == s.score
      && t.falling == Fall(s).falling
  {
  }

  // ---------------------------------------------------------------------
  // The invariant

  lemma ShootKeepsInv(s: State, dx: real, dy: real)
    requires Inv(s)
    ensures Inv(Shoot(s, dx, dy))
  {
  }

  lemma TickKeepsInv(s: State, next: Color)
    requires Inv(s)
    ensures Inv(Tick(s, next))
  {
    var m := Advance(s.current);
    if ConnectTest(s.bubbles, m) {
      var t := Tick(s, next);
      forall i | 0 <= i < |t.bubbles|
        ensures t.bubbles[i].connected && t.bubbles[i].radius == BubbleRadius
      {
        if i < |s.bubbles| { assert t.bubbles[i] == s.bubbles[i]; }
      }
    }
  }

  lemma FallKeepsInv(s: State)
    requires Inv(s)
    ensures Inv(Fall(s))
  {
  }

  lemma FrameKeepsInv(s: State, next: Color)
    requires Inv(s)
    ensures Inv(Frame(s, next))
  {
    if s.isShooting {
      TickKeepsInv(s, next);
      FallKeepsInv(Tick(s, next));
    } else {
      FallKeepsInv(s);
    }
  }
}
