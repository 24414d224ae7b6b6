# Bubble shooter: the shot simulation

A model, in Dafny, of the per-frame update of a browser bubble-shooter
(`game.js`). The player fires the bubble waiting at the launcher. Each
animation frame then moves the shot, bounces it off the side walls, and
either lets it fly on or takes one of three exits:

- **Connect.** The shot reached the ceiling line or overlaps a settled bubble.
  It joins the field, and a fresh bubble is loaded at the launcher.
- **Bottom.** The shot reached the bottom edge. It is dropped, and a fresh
  bubble is loaded.
- **Falling.** The shot is at or above the middle line. A copy of it becomes
  the falling bubble, which drops 5 units per frame until it is off screen.

The model has four modules:

- `Bubbles` (`bubbles.dfy`) holds the constants, the bubble record,
  `CreateBubble`, the overlap test and the flight step with its wall bounce.
- `Simulation` (`simulation.dfy`) holds the game's globals as a `State` value.
  It also holds the pure transition functions `Shoot`, `Tick`, `Fall` and
  `Frame`, and `Inv`, the invariant they keep.
- `Runs` (`runs.dfy`) holds the facts about sequences of clicks and frames:
  - the field is append-only;
  - the score stays 0;
  - the falling bubble leaves the screen;
  - a shot from the launcher never takes the ceiling exit, while repeated
    relaunches from the falling spot do.
- `Game` (`game.dfy`) is the imperative counterpart: a class whose fields are
  the globals `bubbles`, `currentBubble`, `isShooting`, `fallingBubble` and
  `score`. Its methods update those fields in place as the source does, and
  each mutating method is proved to perform the matching `Simulation`
  function (`Shoot`, `Tick`, `Fall`, `Frame`), while the collision scan is
  proved to decide `Bubbles.Collides`.

Bubble records are values. This matches the source, which only ever stores
copies (`{...currentBubble}`) in the field and in the falling slot.

Behaviour of the code that the model keeps as written:

- After the falling exit, `currentBubble` is not reloaded at the launcher. It
  stays where it stopped, marked falling with `dy = 5`, and the next shot
  starts from there (game.js:103-108).
- A new falling bubble overwrites an existing one.
- The falling copy drops one step in the same frame that creates it, because
  `updateFallingBubble` runs after `handleCollisions` in `gameLoop`.
- A straight-up shot from the launcher never reaches the ceiling. On frame
  50 it reaches y = 300 and takes the falling exit
  (`Runs.StraightUpShotFalls`). Refiring straight up from that spot moves the
  bubble up 5 units each time, and the 53rd relaunch connects at the ceiling
  (`Runs.RelaunchesReachCeiling`).
- A level shot never ends. Aiming exactly level with the launcher gives
  dy = 0. In an empty field the shot then stays at y = 550, bouncing between
  the side walls. It never meets the ceiling line, the bottom edge or the
  middle line, so `isShooting` never clears. Every later click is ignored and
  the game locks up (`Runs.LevelShotNeverEnds`).

## Model

| member | source | states |
|---|---|---|
| `Bubbles.CreateBubble` | game.js:28-30 | the bubble is at the given position and has the given colour; its radius is 560/14 = 40; it is at rest (dx = dy = 0), not connected and not falling |
| `Bubbles.DistanceComparison` | game.js:115-118 | for a non-negative distance, "distance < 2r" holds exactly when "squared distance < (2r)²" holds, so the model's square-root-free test decides as the source's does |
| `Bubbles.CollisionBoundary` | game.js:113-123 | a collision means some settled bubble lies strictly closer than 2r; an empty field never collides; a bubble at exactly 2r (tangent) does not collide |
| `Bubbles.WallBounce` | game.js:81-87 | the move adds (dx, dy) to the position, with no clamping; dx is negated exactly when x + r > W or x − r < 0 after the move, so \|dx\| is kept; nothing else changes |
| `Simulation.Initial` | game.js:10-15 | the starting state: empty field, a fresh bubble at the launcher (280, 550), no shot, no falling bubble; it satisfies the invariant |
| `Simulation.ShootEffect` | game.js:71-77 | firing while a shot is in flight leaves the state unchanged; otherwise the new state is the old one with only the current bubble's dx and dy and isShooting changed; position, colour, radius, field, falling bubble and score are kept |
| `Simulation.ConnectExit` | game.js:90-98 | on the connect exit the field grows by exactly one, and the earlier bubbles are unchanged; the new last bubble is the moved shot marked connected; a fresh bubble waits at the launcher and isShooting is false |
| `Simulation.BottomExit` | game.js:99-102 | on the bottom exit the field and the falling bubble are unchanged; a fresh bubble is loaded at the launcher and isShooting is false |
| `Simulation.FallingExit` | game.js:103-109 | once the other exits fail, the falling guard holds exactly when y ≤ H/2; then the current bubble is the moved shot with only dy = 5 and falling = true changed (position, dx, colour and radius kept); it is copied into the falling slot, and the field is unchanged; otherwise the shot only moves on |
| `Simulation.FallStep` | game.js:169-178 | y grows by exactly 5; the falling bubble is removed exactly when y − r > H; no other state changes |
| `Simulation.IdleFrame` | game.js:151-163 | a frame with no shot in flight keeps the field, the current bubble, the score and the flag (still off), and changes the falling slot exactly as one falling step does |
| `Simulation.ShootKeepsInv` | game.js:71-77 | firing keeps the state invariant |
| `Simulation.TickKeepsInv` | game.js:80-110 | a shot tick keeps the invariant: settled bubbles are connected and have radius r; the current bubble is never connected; a falling bubble is marked falling and lies between y = r and y = H + r; the score is 0 |
| `Simulation.FallKeepsInv` | game.js:169-178 | a falling step keeps the invariant |
| `Simulation.FrameKeepsInv` | game.js:151-163 | a whole frame (the shot tick when shooting, then the falling step) keeps the invariant |
| `Runs.RunKeepsInv` | game.js:14 | every state reachable by clicks and frames satisfies the invariant, so the score stays 0 |
| `Runs.ApplyAppendOnly` | game.js:94 | one click or frame keeps the field as a prefix of the new field and adds at most one bubble |
| `Runs.RunAppendOnly` | game.js:94 | over any run the old field is a prefix of the new one, at most \|events\| bubbles are added, and the score never changes |
| `Runs.IdleRunOnlyFalls` | game.js:151-153 | with no shot in flight and no click, frames leave the field, the current bubble and the flag unchanged; an absent falling bubble stays absent |
| `Runs.FallingBubbleLeaves` | game.js:169-178 | a falling bubble is gone after any number n of idle frames with 5n > H + r − y |
| `Runs.FallingBubbleGone` | game.js:169-178 | from any reachable state with no shot in flight, the falling bubble is gone after 121 frames |
| `Runs.LowShotFrame` | game.js:80-110 | for a shot below the middle line moving up at most 5 per tick: the ceiling test is false; a bubble that connects lies at y ≥ r; a shot that flies on stays below the middle line with the same dy |
| `Runs.LowShotMissesCeiling` | game.js:90-98 | a shot fired from below the middle line with speed at most 5 never takes the ceiling exit, over any number of frames; this includes every shot from the launcher |
| `Runs.LevelShotNeverEnds` | game.js:90-108 | a level shot (dy = 0) at the launcher height in an empty field stays in flight at y = 550 after any sequence of clicks and frames; no exit is ever taken, so the flag never clears and clicks are ignored |
| `Runs.StraightUpFlight` | game.js:80-110 | a straight-up shot through an empty field moves up exactly 5 per frame while it stays below the middle line; nothing else changes |
| `Runs.StraightUpShotFalls` | game.js:103-108 | fired straight up from the launcher into an empty field, the shot takes the falling exit at y = 300 on frame 50; the current bubble stays there, and the falling copy is at y = 305 |
| `Runs.RelaunchCreeps` | game.js:103-108 | refiring straight up from a falling spot at or above the middle line moves the current bubble up by 5 and takes the falling exit again there: the current bubble is marked falling with dy = 5 and its copy, already one step lower, fills the falling slot; this holds until it would cross the ceiling line |
| `Runs.RelaunchesCreep` | game.js:103-108 | k such relaunches move the current bubble up by 5k and leave the field empty |
| `Runs.RelaunchesReachCeiling` | game.js:90-98 | after the straight-up shot has started falling, 53 straight-up relaunches bring the bubble over the ceiling line; it joins the field there, at y = 35 |
| `Game.Game.constructor` | game.js:10-15 | the object starts in the initial state and satisfies the invariant |
| `Game.Game.ShootBubble` | game.js:71-77 | the in-place update performs `Shoot` and keeps the invariant |
| `Game.Game.DetectCollisionWithBubbles` | game.js:113-123 | the scan with early return answers true exactly when some settled bubble overlaps the shot |
| `Game.Game.HandleCollisions` | game.js:80-110 | the in-place update, with its two collision scans, performs `Tick` and keeps the invariant |
| `Game.Game.UpdateFallingBubble` | game.js:169-178 | the in-place update performs `Fall` and keeps the invariant |
| `Game.Game.Step` | game.js:151-163 | one frame's updates happen in the source's order and perform `Frame` |

## Left out

- Canvas drawing is not modelled: `drawShooter`, `drawBubbles`, `drawFallingBubble`, `clearCanvas`, `drawBackground`, `drawScore` and the inline draw of the current bubble in `gameLoop`. They only render and change no game state.
- Loading the background image is I/O.
- The mouse handlers and the `Math.atan2` aim are not modelled. A shot receives its velocity (dx, dy) directly; in the source this is 5·(cos θ, sin θ). Lemmas that need the speed bound state it as dy ≥ −5.
- `getRandomColor` uses `Math.random`. The colour of each new bubble is a parameter drawn from the five-colour palette.
- The self-rescheduling `requestAnimationFrame` loop is replaced by an external driver. That driver calls `Game.Game.Step` once per frame; `Runs.Run` applies a whole sequence of clicks and frames.
- Coordinates are exact reals, so IEEE floating-point rounding is not modelled. The distance test compares squared distances, and `Bubbles.DistanceComparison` shows that this equals the source's square-root test.
- `maxRows` and the launcher's drawn radius are not modelled. No update logic uses them.
