/**
 * The player controller: one ship that moves horizontally from the A and D keys, stays
 * within the screen's half-width, and fires a bullet on Space once its shoot timer has
 * run down.
 */
module PlayerControl {
  import opened Common

  const SPEED: real := 200.0
  const BULLET_SPEED: real := 400.0
  const SHOOT_COOLDOWN: real := 0.5

  /** The three keys the controller reads, pressed or not. */
  datatype Keys = Keys(a: bool, d: bool, space: bool)

  /** A bullet to spawn: where, and its upward speed. */
  datatype SpawnRequest = SpawnRequest(position: Vec2, speed: real)

  /** The shoot timer after one frame and whether that frame fired. */
  datatype Cooldown = Cooldown(timer: real, fired: bool)

  /** The horizontal intent: left for A alone, right for D alone, still for neither or both. */
  function Horizontal(keys: Keys): (r: real)
    ensures r == -1.0 <==> keys.a && !keys.d
    ensures r == 1.0 <==> keys.d && !keys.a
    ensures r == 0.0 <==> keys.a == keys.d
  {
    (if keys.a then -1.0 else 0.0) + (if keys.d then 1.0 else 0.0)
  }

  /**
   * `x` brought back inside [-w/2, w/2]: first lowered to the right bound, then raised to
   * the left bound. A value already inside is kept exactly; one outside goes to the
   * nearer bound.
   */
  function Clamped(x: real, w: real): (r: real)
    ensures w >= 0.0 ==> -w * 0.5 <= r <= w * 0.5
    ensures -w * 0.5 <= x <= w * 0.5 ==> r == x
    ensures w >= 0.0 && x > w * 0.5 ==> r == w * 0.5
    ensures x < -w * 0.5 ==> r == -w * 0.5
  {
    var right := if x > w * 0.5 then w * 0.5 else x;
    if right < -w * 0.5 then -w * 0.5 else right
  }

  /** The shoot timer over one frame of `dt` seconds, with Space held or not. */
  function CooldownStep(timer: real, dt: real, space: bool): Cooldown {
    var t := timer - dt;
    if space && t <= 0.0 then Cooldown(SHOOT_COOLDOWN, true) else Cooldown(t, false)
  }

  /** The outcomes of consecutive frames with durations `dts`, starting from `timer`. */
  function Run(timer: real, dts: seq<real>, space: seq<bool>): (r: seq<Cooldown>)
    requires |dts| == |space|
    ensures |r| == |dts|
    decreases |dts|
  {
    if dts == [] then []
    else
      var c := CooldownStep(timer, dts[0], space[0]);
      [c] + Run(c.timer, dts[1..], space[1..])
  }

  /** The seconds accumulated over the first `n` frames. */
  function Elapsed(dts: seq<real>, n: nat): real
    requires n <= |dts|
  {
    if n == 0 then 0.0 else dts[0] + Elapsed(dts[1..], n - 1)
  }

  /**
   * Cooldown gating: while no shot has been fired, the timer has dropped by exactly the
   * time elapsed, and the first shot comes at the first frame with Space held by which the
   * elapsed time has reached the starting timer.
   */
  lemma {:induction false} FirstShot(timer: real, dts: seq<real>, space: seq<bool>, n: nat)
    requires |dts| == |space| && n < |dts|
    requires forall j :: 0 <= j < n ==> !Run(timer, dts, space)[j].fired
    ensures Run(timer, dts, space)[n].fired <==> space[n] && Elapsed(dts, n + 1) >= timer
    ensures !Run(timer, dts, space)[n].fired ==>
              Run(timer, dts, space)[n].timer == timer - Elapsed(dts, n + 1)
    decreases n
  {
    var c := CooldownStep(timer, dts[0], space[0]);
    var rest := Run(c.timer, dts[1..], space[1..]);
    assert Run(timer, dts, space) == [c] + rest;
    if n > 0 {
      assert !c.fired by {
        assert Run(timer, dts, space)[0] == c;
      }
      forall j | 0 <= j < n - 1
        ensures !rest[j].fired
      {
        assert Run(timer, dts, space)[j + 1] == rest[j];
      }
      FirstShot(c.timer, dts[1..], space[1..], n - 1);
      assert Run(timer, dts, space)[n] == rest[n - 1];
    }
  }

  lemma {:induction false} ElapsedGrows(dts: seq<real>, n: nat)
    requires n <= |dts|
    requires forall j :: 0 <= j < |dts| ==> dts[j] >= 0.0
    ensures Elapsed(dts, n) <= Elapsed(dts, |dts|)
  {
    if n > 0 {
      ElapsedGrows(dts[1..], n - 1);
    } else if |dts| > 0 {
      ElapsedGrows(dts[1..], 0);
    }
  }

  /**
   * After a shot the timer is SHOOT_COOLDOWN: as long as fewer than SHOOT_COOLDOWN
   * seconds of (non-negative) frame time pass, no further shot is fired, whatever keys
   * are held.
   */
  lemma NoShotWithinCooldown(dts: seq<real>, space: seq<bool>)
    requires |dts| == |space|
    requires forall j :: 0 <= j < |dts| ==> dts[j] >= 0.0
    requires Elapsed(dts, |dts|) < SHOOT_COOLDOWN
    ensures forall j :: 0 <= j < |dts| ==> !Run(SHOOT_COOLDOWN, dts, space)[j].fired
  {
    var n := 0;
    while n < |dts|
      invariant 0 <= n <= |dts|
      invariant forall j :: 0 <= j < n ==> !Run(SHOOT_COOLDOWN, dts, space)[j].fired
    {
      FirstShot(SHOOT_COOLDOWN, dts, space, n);
      ElapsedGrows(dts, n + 1);
      n := n + 1;
    }
  }

  /** The player ship: its translation and the `Player` component's shoot timer. */
  class Player {
    var x: real
    var y: real
    var shootTimer: real

    /** `setup_player`: centred, five pixel-ratio units above the bottom edge, ready to fire. */
    constructor (h: real, pixelRatio: real)
      ensures x == 0.0 && y == -(h * 0.5) + pixelRatio * 5.0 && shootTimer == 0.0
    {
      x := 0.0;
      y := -(h * 0.5) + pixelRatio * 5.0;
      shootTimer := 0.0;
    }

    /**
     * `update_player`: move by the key intent, clamp to the screen, run the timer down,
     * and request at most one bullet at the clamped position.
     */
    method Update(dt: real, keys: Keys, w: real) returns (spawn: Option<SpawnRequest>)
      modifies this
      ensures y == old(y)
      ensures x == Clamped(old(x) + Horizontal(keys) * dt * SPEED, w)
      ensures w >= 0.0 ==> -w * 0.5 <= x <= w * 0.5
      ensures CooldownStep(old(shootTimer), dt, keys.space) == Cooldown(shootTimer, spawn.Some?)
      ensures spawn.Some? ==> spawn.value == SpawnRequest(Vec2(x, y), BULLET_SPEED)
    {
      var horizontal := 0.0;
      if keys.a {
        horizontal := horizontal + -1.0;
      }
      if keys.d {
        horizontal := horizontal + 1.0;
      }

      x := x + horizontal * dt * SPEED;

      var leftBound := -w * 0.5;
      var rightBound := w * 0.5;
      if x > rightBound {
        x := rightBound;
      }
      if x < leftBound {
        x := leftBound;
      }

      shootTimer := shootTimer - dt;

      if keys.space && shootTimer <= 0.0 {
        shootTimer := SHOOT_COOLDOWN;
        spawn := Some(SpawnRequest(Vec2(x, y), BULLET_SPEED));
      } else {
        spawn := None;
      }
    }
  }
}
