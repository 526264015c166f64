# Alien swarm shooter: gameplay state machine in Dafny

This project models the gameplay core of a small space-invaders game written in Rust on
the Bevy engine, and proves what its two components promise.

- **Alien swarm coordinator** (`src/alien.rs`, module `AlienSwarm` in `alien.dfy`). A
  10 x 5 grid of aliens moves sideways in lockstep. One shared `AlienManager` register
  holds the direction, a shift flag, the distance from the boundary and a reset flag.
  - The detect pass `update_aliens` (`UpdateAliens`) moves every alien without the `Dead`
    marker. It raises the shift flag and records the exact overflow distance when an alien
    crosses a side; the last such alien wins. It raises the reset flag when an alien is
    below the bottom edge. It marks and hides dead aliens.
  - The resolve pass `manage_alien_logic` (`ManageAlienLogic`) applies a pending shift
    first: direction flipped, every alien moved by the distance and 32 down. It then
    applies a pending reset: every alien back in its slot, revived, direction 1.
  - The aliens are an `array<Alien>` of records; the index is the alien's identity. The
    register is the class `AlienManager`. Pure functions (`Moved`, `DetectState`,
    `Managed`, `ManagedState`) specify the passes. The methods are proved against them.
- **Player controller** (`src/player.rs`, module `PlayerControl` in `player.dfy`). The
  class `Player` holds the ship's position and shoot timer. `Update` moves by the A/D
  intent, clamps to the screen half-width, runs the timer down by `dt` with no floor,
  and returns at most one bullet spawn request. `Run` and `Elapsed` describe many frames
  in a row; the cooldown-gating lemmas are about them.

Coordinates and times are `real`. Screen width `w`, height `h`, the pixel ratio and the
frame time `dt` are parameters. The keys are three booleans.

Behaviour of the code worth knowing; the model follows it:
- The code skips only aliens that already carry the `Dead` marker. An alien whose `dead`
  flag was set since the last pass is still moved and checked once, then marked.
- The reset pass clears the marker only of aliens whose `dead` flag is set. "Every marker
  is gone after a reset" therefore needs the invariant `MarkersSound` (marked implies
  dead), which every operation keeps.
- A reset does not make revived aliens visible again; the next detect pass does.
- Bad screen sizes are not rejected. The player clamp is stated for `w >= 0`.
- The two passes are registered without an ordering constraint (`src/alien.rs:8`).
  `Tick` runs detect then resolve. This is the intended order; the code does not
  enforce it.

## Model

| member | source | states |
|---|---|---|
| `AlienSwarm.AlienManager.constructor` | src/alien.rs:40-45 | the register starts with direction 1, both flags down and distance 0 |
| `AlienSwarm.Formation` | src/alien.rs:49-67 | startup spawns exactly WIDTH x HEIGHT = 50 aliens, each alive, unmarked, and in its original slot |
| `AlienSwarm.FormationSlotsDistinct` | src/alien.rs:49-54 | no two aliens of the formation share an original position |
| `AlienSwarm.SetupAliens` | src/alien.rs:35-72 | the nested column/row loops fill the array with exactly the formation and create the register in its initial state |
| `AlienSwarm.Moved` | src/alien.rs:81-96 | a marked alien is untouched; an unmarked one moves by dt * direction * SPEED in x only, keeps its dead flag, and is marked and hidden iff dead, shown otherwise |
| `AlienSwarm.DetectState` | src/alien.rs:81-101 | the detect pass keeps the direction and never lowers the shift or reset flag |
| `AlienSwarm.ShiftRaisedIffOverflow` | src/alien.rs:84-89 | after the detect pass the shift flag is up iff it was up before or some unmarked alien's new x is beyond w/2 in absolute value |
| `AlienSwarm.DistIsLastOverflow` | src/alien.rs:84-89 | the recorded distance is w * direction / 2 minus the new x of the last overflowing alien in iteration order |
| `AlienSwarm.NoOverflowKeepsShift` | src/alien.rs:84-89 | without an overflow the pass leaves the shift flag and the distance as they were |
| `AlienSwarm.ResetRaisedIffBelowBottom` | src/alien.rs:98-100 | after the detect pass the reset flag is up iff it was up before or some unmarked alien is below -h/2 |
| `AlienSwarm.UpdateAliens` | src/alien.rs:74-102 | the loop leaves every alien as `Moved` gives it and the register as `DetectState` gives it |
| `AlienSwarm.Managed` | src/alien.rs:109-128 | a reset puts every alien, dead or marked or not, in its original slot and alive, with no marker under `MarkersSound`, even after a shift; a shift alone moves every alien, dead ones included, by the distance and 32 down; no flag changes nothing |
| `AlienSwarm.ManagedState` | src/alien.rs:109-120 | the resolve pass lowers both flags, keeps the distance, flips the direction on a shift, then sets it to 1 on a reset, and keeps it in {1, -1} |
| `AlienSwarm.ManageAlienLogic` | src/alien.rs:104-129 | the shift loop then the reset loop leave every alien as `Managed` gives it and the register as `ManagedState` gives it |
| `AlienSwarm.Tick` | src/alien.rs:8 | a detect pass followed by a resolve pass keeps the direction in {1, -1} and keeps every marked alien dead |
| `AlienSwarm.LastOverflowLandsOnBoundary` | src/alien.rs:84-116 | without a reset, the last overflowing alien ends the frame exactly on the boundary w * direction / 2 it crossed, not clamped, and the direction is reversed |
| `AlienSwarm.ResetRevivesAll` | src/alien.rs:98-128 | once some unmarked alien is below the bottom edge, the frame ends with every alien in its original slot, alive and unmarked, and direction 1 |
| `PlayerControl.Player.constructor` | src/player.rs:32-38 | the ship starts at x = 0, y = -h/2 + 5 * pixel ratio, with the shoot timer at 0 |
| `PlayerControl.Horizontal` | src/player.rs:56-62 | the intent is -1 for A alone, 1 for D alone and 0 for neither or both |
| `PlayerControl.Clamped` | src/player.rs:66-75 | for w >= 0 the result is within [-w/2, w/2]; a value inside is kept exactly, one outside goes to the nearer bound |
| `PlayerControl.Player.Update` | src/player.rs:46-95 | y is unchanged; x is the clamped moved position; the timer drops by dt with no floor; a bullet at the clamped (x, y) with speed 400 is requested iff Space is held and the dropped timer is <= 0, and then the timer is 0.5 |
| `PlayerControl.FirstShot` | src/player.rs:77-80 | while no shot has been fired the timer has dropped by exactly the elapsed time, and the first shot is at the first frame with Space held by which the elapsed time reaches the starting timer |
| `PlayerControl.NoShotWithinCooldown` | src/player.rs:77-80 | after a shot, no further shot is fired while less than 0.5 s of frame time has passed, whatever keys are held |

## Left out

- Bevy plumbing: plugin registration, `Commands`, entity spawning, sprites, textures and
  asset loading. The `pixel_ratio` scale on transforms is left out; the pixel ratio only
  enters the player's starting y.
- The `Dead` marker is inserted and removed through deferred commands. The model applies
  it at once. Each alien is visited once per pass, so no pass reads a marker it wrote.
  Across the two passes of one frame the model assumes the insertion queued by the detect
  pass is applied before the removal queued by a reset. The code does not fix that order.
  If the removal came first, an alien that died that frame would stay marked though
  revived. `ResetRevivesAll`'s "unmarked" result and `Tick`'s preservation of
  `MarkersSound` rest on this assumption.
- Query iteration order is not specified by the engine. The model visits aliens in array
  order, column by column; "last write wins" refers to that order.
- The z coordinate is always 0 and is dropped.
- f32 arithmetic and rounding: all values are exact reals.
- Projectile motion and collisions live in code that is not part of this model. That code
  sets `dead`; here `dead` is an input field of each alien.
- The screen-size provider is not part of this model; `w` and `h` are parameters.
- `single_mut` panics unless exactly one player exists; the model has one `Player` object.
- `Tick` fixes the detect-then-resolve order; the code does not guarantee it.
