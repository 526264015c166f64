/**
 * The alien swarm coordinator: a fixed WIDTH x HEIGHT grid of aliens that moves in
 * lockstep, reverses and descends when one of them crosses a side of the screen, and
 * returns to its starting formation, all revived, when one of them falls below the
 * bottom edge.
 *
 * Each alien is a record in an array (its index is its identity, so death is a flag and
 * never a removal); the shared `AlienManager` register is an object whose fields the
 * passes update in place. A frame runs a detect pass (`UpdateAliens`) that moves the
 * aliens and raises flags, then a resolve pass (`ManageAlienLogic`) that consumes them.
 */
module AlienSwarm {
  import opened Common

  const WIDTH: int := 10
  const HEIGHT: int := 5
  const SPACING: real := 24.0
  const SPEED: real := 100.0
  const ALIEN_SHIFT_AMOUNT: real := 32.0

  datatype Visibility = Inherited | Visible | Hidden

  /**
   * One grid member: the `Alien` component (`dead`, `originalPosition`), its current
   * translation, whether the `Dead` marker component is attached, and its visibility.
   */
  datatype Alien = Alien(dead: bool, originalPosition: Vec2, position: Vec2,
                         marked: bool, visibility: Visibility)

  /** A snapshot of the shared `AlienManager` register. */
  datatype ManagerState = ManagerState(direction: real, shiftAlienDown: bool,
                                       distFromBoundary: real, reset: bool)

  predicate IsDirection(d: real) {
    d == 1.0 || d == -1.0
  }

  /** Every alien that carries the `Dead` marker has its `dead` flag set. */
  predicate MarkersSound(s: seq<Alien>) {
    forall i :: 0 <= i < |s| ==> s[i].marked ==> s[i].dead
  }

  class AlienManager {
    var direction: real
    var shiftAlienDown: bool
    var distFromBoundary: real
    var reset: bool

    function State(): ManagerState
      reads this
    {
      ManagerState(direction, shiftAlienDown, distFromBoundary, reset)
    }

    /** The register as inserted at startup. */
    constructor ()
      ensures State() == ManagerState(1.0, false, 0.0, false)
    {
      reset := false;
      distFromBoundary := 0.0;
      shiftAlienDown := false;
      direction := 1.0;
    }
  }

  // ---------------------------------------------------------------------------
  // Startup: the formation
  // ---------------------------------------------------------------------------

  /**
   * The slot of column `col`, row `row`. The slots run from (-120, h/2 - 120) to
   * (96, h/2 - 24): half a spacing left of centre, the top row one spacing below the top edge.
   */
  function GridPosition(col: int, row: int, h: real): Vec2 {
    Vec2(col as real * SPACING - WIDTH as real * SPACING * 0.5,
         row as real * SPACING - HEIGHT as real * SPACING * 1.0 + h * 0.5)
  }

  function NewAlien(p: Vec2): Alien {
    Alien(false, p, p, false, Inherited)
  }

  /** The aliens spawned at startup, in spawn order: the alien at (col, row) has index col * HEIGHT + row. */
  function Formation(h: real): (r: seq<Alien>)
    ensures |r| == WIDTH * HEIGHT == 50
    ensures MarkersSound(r)
    ensures forall i :: 0 <= i < |r| ==>
              !r[i].dead && !r[i].marked && r[i].position == r[i].originalPosition
  {
    seq(WIDTH * HEIGHT, i requires 0 <= i => NewAlien(GridPosition(i / HEIGHT, i % HEIGHT, h)))
  }

  /** No two aliens of the formation share a slot (SPACING is positive). */
  lemma FormationSlotsDistinct(h: real)
    ensures forall i, j :: 0 <= i < j < |Formation(h)| ==>
              Formation(h)[i].originalPosition != Formation(h)[j].originalPosition
  {
  }

  /** `setup_aliens`: inserts the register and spawns the grid column by column. */
  method SetupAliens(h: real) returns (aliens: array<Alien>, manager: AlienManager)
    ensures fresh(aliens) && fresh(manager)
    ensures aliens[..] == Formation(h)
    ensures manager.State() == ManagerState(1.0, false, 0.0, false)
  {
    manager := new AlienManager();
    aliens := new Alien[WIDTH * HEIGHT];
    ghost var f := Formation(h);
    var col := 0;
    while col < WIDTH
      invariant 0 <= col <= WIDTH
      invariant manager.State() == ManagerState(1.0, false, 0.0, false)
      invariant forall k :: 0 <= k < col * HEIGHT ==> aliens[k] == f[k]
    {
      var row := 0;
      while row < HEIGHT
        invariant 0 <= row <= HEIGHT
        invariant manager.State() == ManagerState(1.0, false, 0.0, false)
        invariant forall k :: 0 <= k < col * HEIGHT + row ==> aliens[k] == f[k]
      {
        var k := col * HEIGHT + row;
        assert k / HEIGHT == col && k % HEIGHT == row;
        aliens[k] := NewAlien(GridPosition(col, row, h));
        row := row + 1;
      }
      col := col + 1;
    }
  }

  // ---------------------------------------------------------------------------
  // Detect pass
  // ---------------------------------------------------------------------------

  /** The x an alien moves to in one detect pass. */
  function NextX(a: Alien, direction: real, dt: real): real {
    a.position.x + dt * direction * SPEED
  }

  /** The detect pass visits `a` (no `Dead` marker) and moves it past a side of the screen. */
  predicate Overflows(a: Alien, direction: real, dt: real, w: real) {
    !a.marked && Abs(NextX(a, direction, dt)) > w * 0.5
  }

  /** The detect pass visits `a` and finds it below the bottom edge. */
  predicate BelowBottom(a: Alien, h: real) {
    !a.marked && a.position.y < -h * 0.5
  }

  /** An alien after the detect pass. */
  function Moved(a: Alien, direction: real, dt: real): (r: Alien)
    ensures a.marked ==> r == a
    ensures !a.marked ==> r.position == Vec2(a.position.x + dt * direction * SPEED, a.position.y)
    ensures !a.marked ==> r.marked == a.dead && r.visibility == (if a.dead then Hidden else Visible)
    ensures r.dead == a.dead && r.originalPosition == a.originalPosition
    ensures (a.marked ==> a.dead) ==> (r.marked ==> r.dead)
  {
    if a.marked then a
    else
      var moved := a.(position := a.position.(x := NextX(a, direction, dt)));
      if a.dead then moved.(marked := true, visibility := Hidden)
      else moved.(visibility := Visible)
  }

  /** The register after the detect pass has visited `a`. */
  function DetectStep(st: ManagerState, a: Alien, dt: real, w: real, h: real): ManagerState {
    var st1 :=
      if Overflows(a, st.direction, dt, w)
      then st.(shiftAlienDown := true,
               distFromBoundary := w * st.direction * 0.5 - NextX(a, st.direction, dt))
      else st;
    if BelowBottom(a, h) then st1.(reset := true) else st1
  }

  /**
   * The register after the detect pass has visited `s` in order. The pass keeps the
   * direction and never lowers a flag.
   */
  function DetectState(st: ManagerState, s: seq<Alien>, dt: real, w: real, h: real): (r: ManagerState)
    ensures r.direction == st.direction
    ensures st.shiftAlienDown ==> r.shiftAlienDown
    ensures st.reset ==> r.reset
    decreases |s|
  {
    if s == [] then st
    else DetectStep(DetectState(st, s[..|s| - 1], dt, w, h), s[|s| - 1], dt, w, h)
  }

  /** The shift flag is up after the pass iff it was up before or some visited alien overflowed. */
  lemma {:induction false} ShiftRaisedIffOverflow(st: ManagerState, s: seq<Alien>, dt: real, w: real, h: real)
    ensures DetectState(st, s, dt, w, h).shiftAlienDown <==>
              st.shiftAlienDown || exists i :: 0 <= i < |s| && Overflows(s[i], st.direction, dt, w)
  {
    if s != [] {
      var p := s[..|s| - 1];
      ShiftRaisedIffOverflow(st, p, dt, w, h);
      if exists i :: 0 <= i < |p| && Overflows(p[i], st.direction, dt, w) {
        var i :| 0 <= i < |p| && Overflows(p[i], st.direction, dt, w);
        assert Overflows(s[i], st.direction, dt, w);
      }
      if exists i :: 0 <= i < |s| && Overflows(s[i], st.direction, dt, w) {
        var i :| 0 <= i < |s| && Overflows(s[i], st.direction, dt, w);
        if i < |p| {
          assert Overflows(p[i], st.direction, dt, w);
        }
      }
    }
  }

  /** The reset flag is up after the pass iff it was up before or some visited alien is below the bottom edge. */
  lemma {:induction false} ResetRaisedIffBelowBottom(st: ManagerState, s: seq<Alien>, dt: real, w: real, h: real)
    ensures DetectState(st, s, dt, w, h).reset <==>
              st.reset || exists i :: 0 <= i < |s| && BelowBottom(s[i], h)
  {
    if s != [] {
      var p := s[..|s| - 1];
      ResetRaisedIffBelowBottom(st, p, dt, w, h);
      if exists i :: 0 <= i < |p| && BelowBottom(p[i], h) {
        var i :| 0 <= i < |p| && BelowBottom(p[i], h);
        assert BelowBottom(s[i], h);
      }
      if exists i :: 0 <= i < |s| && BelowBottom(s[i], h) {
        var i :| 0 <= i < |s| && BelowBottom(s[i], h);
        if i < |p| {
          assert BelowBottom(p[i], h);
        }
      }
    }
  }

  /**
   * Last write wins: when `k` is the last alien that overflows, the recorded distance is
   * the one from the boundary on the side of motion to that alien's new x.
   */
  lemma {:induction false} DistIsLastOverflow(st: ManagerState, s: seq<Alien>, dt: real, w: real, h: real, k: int)
    requires 0 <= k < |s| && Overflows(s[k], st.direction, dt, w)
    requires forall j :: k < j < |s| ==> !Overflows(s[j], st.direction, dt, w)
    ensures DetectState(st, s, dt, w, h).distFromBoundary ==
              w * st.direction * 0.5 - NextX(s[k], st.direction, dt)
  {
    var p := s[..|s| - 1];
    if k < |s| - 1 {
      assert p[k] == s[k];
      forall j | k < j < |p|
        ensures !Overflows(p[j], st.direction, dt, w)
      {
        assert p[j] == s[j];
      }
      DistIsLastOverflow(st, p, dt, w, h, k);
    }
  }

  /** Without an overflow the pass leaves the shift flag and the distance as they were. */
  lemma {:induction false} NoOverflowKeepsShift(st: ManagerState, s: seq<Alien>, dt: real, w: real, h: real)
    requires forall j :: 0 <= j < |s| ==> !Overflows(s[j], st.direction, dt, w)
    ensures DetectState(st, s, dt, w, h).distFromBoundary == st.distFromBoundary
    ensures DetectState(st, s, dt, w, h).shiftAlienDown == st.shiftAlienDown
  {
    if s != [] {
      var p := s[..|s| - 1];
      forall j | 0 <= j < |p|
        ensures !Overflows(p[j], st.direction, dt, w)
      {
        assert p[j] == s[j];
      }
      NoOverflowKeepsShift(st, p, dt, w, h);
    }
  }

  /**
   * `update_aliens`: every alien without the `Dead` marker moves along x, may raise the
   * shift flag (recording its distance from the boundary) and the reset flag, and is
   * marked and hidden if dead, shown otherwise. Marked aliens are not visited.
   */
  method UpdateAliens(aliens: array<Alien>, manager: AlienManager, dt: real, w: real, h: real)
    modifies aliens, manager
    ensures forall i :: 0 <= i < aliens.Length ==>
              aliens[i] == Moved(old(aliens[i]), old(manager.direction), dt)
    ensures manager.State() == DetectState(old(manager.State()), old(aliens[..]), dt, w, h)
  {
    ghost var s0 := aliens[..];
    ghost var st0 := manager.State();
    var i := 0;
    while i < aliens.Length
      invariant 0 <= i <= aliens.Length
      invariant forall j :: 0 <= j < i ==> aliens[j] == Moved(s0[j], st0.direction, dt)
      invariant forall j :: i <= j < aliens.Length ==> aliens[j] == s0[j]
      invariant manager.State() == DetectState(st0, s0[..i], dt, w, h)
    {
      var alien := aliens[i];
      if !alien.marked {
        var x := alien.position.x + dt * manager.direction * SPEED;
        alien := alien.(position := alien.position.(x := x));
        if Abs(x) > w * 0.5 {
          manager.shiftAlienDown := true;
          manager.distFromBoundary := w * manager.direction * 0.5 - x;
        }
        if alien.dead {
          alien := alien.(marked := true, visibility := Hidden);
        } else {
          alien := alien.(visibility := Visible);
        }
        if alien.position.y < -h * 0.5 {
          manager.reset := true;
        }
        aliens[i] := alien;
      }
      assert s0[..i + 1][..i] == s0[..i];
      i := i + 1;
    }
    assert s0[..aliens.Length] == s0;
  }

  // ---------------------------------------------------------------------------
  // Resolve pass
  // ---------------------------------------------------------------------------

  function Shifted(a: Alien, dist: real): Alien {
    a.(position := Vec2(a.position.x + dist, a.position.y - ALIEN_SHIFT_AMOUNT))
  }

  function Restored(a: Alien): Alien {
    var back := a.(position := a.originalPosition);
    if a.dead then back.(dead := false, marked := false) else back
  }

  /**
   * An alien after the resolve pass under register `st`: shifted when the shift flag is
   * up, then put back in its slot and revived when the reset flag is up, whether or not
   * it is dead or marked.
   */
  function Managed(a: Alien, st: ManagerState): (r: Alien)
    ensures st.reset ==> r.position == a.originalPosition && !r.dead
    ensures st.reset && (a.marked ==> a.dead) ==> !r.marked
    ensures !st.reset && st.shiftAlienDown ==>
              r.position == Vec2(a.position.x + st.distFromBoundary, a.position.y - 32.0) &&
              r.dead == a.dead && r.marked == a.marked
    ensures !st.reset && !st.shiftAlienDown ==> r == a
    ensures r.originalPosition == a.originalPosition && r.visibility == a.visibility
    ensures (a.marked ==> a.dead) ==> (r.marked ==> r.dead)
  {
    var a1 := if st.shiftAlienDown then Shifted(a, st.distFromBoundary) else a;
    if st.reset then Restored(a1) else a1
  }

  /**
   * The register after the resolve pass: both flags down, the distance kept, the
   * direction flipped by a shift and then forced to 1 by a reset.
   */
  function ManagedState(st: ManagerState): (r: ManagerState)
    ensures !r.shiftAlienDown && !r.reset
    ensures r.distFromBoundary == st.distFromBoundary
    ensures r.direction == if st.reset then 1.0 else if st.shiftAlienDown then -st.direction else st.direction
    ensures IsDirection(st.direction) ==> IsDirection(r.direction)
  {
    var st1 :=
      if st.shiftAlienDown then st.(shiftAlienDown := false, direction := st.direction * -1.0)
      else st;
    if st1.reset then st1.(reset := false, direction := 1.0) else st1
  }

  /** `manage_alien_logic`: consumes the shift flag, then the reset flag, over every alien. */
  method ManageAlienLogic(aliens: array<Alien>, manager: AlienManager)
    modifies aliens, manager
    ensures forall i :: 0 <= i < aliens.Length ==>
              aliens[i] == Managed(old(aliens[i]), old(manager.State()))
    ensures manager.State() == ManagedState(old(manager.State()))
  {
    ghost var s0 := aliens[..];
    if manager.shiftAlienDown {
      manager.shiftAlienDown := false;
      manager.direction := manager.direction * -1.0;
      ghost var st := manager.State();
      var i := 0;
      while i < aliens.Length
        invariant 0 <= i <= aliens.Length
        invariant manager.State() == st
        invariant forall j :: 0 <= j < i ==> aliens[j] == Shifted(s0[j], st.distFromBoundary)
        invariant forall j :: i <= j < aliens.Length ==> aliens[j] == s0[j]
      {
        var p := aliens[i].position;
        aliens[i] := aliens[i].(position := Vec2(p.x + manager.distFromBoundary, p.y - ALIEN_SHIFT_AMOUNT));
        i := i + 1;
      }
    }
    ghost var s1 := aliens[..];
    if manager.reset {
      manager.reset := false;
      manager.direction := 1.0;
      ghost var st := manager.State();
      var i := 0;
      while i < aliens.Length
        invariant 0 <= i <= aliens.Length
        invariant manager.State() == st
        invariant forall j :: 0 <= j < i ==> aliens[j] == Restored(s1[j])
        invariant forall j :: i <= j < aliens.Length ==> aliens[j] == s1[j]
      {
        var alien := aliens[i].(position := aliens[i].originalPosition);
        if alien.dead {
          alien := alien.(dead := false, marked := false);
        }
        aliens[i] := alien;
        i := i + 1;
      }
    }
  }

  /**
   * One frame with the detect pass run before the resolve pass. The source registers the
   * two passes without an ordering constraint; this method fixes the intended order.
   */
  method Tick(aliens: array<Alien>, manager: AlienManager, dt: real, w: real, h: real)
    modifies aliens, manager
    ensures forall i :: 0 <= i < aliens.Length ==>
              aliens[i] == Managed(Moved(old(aliens[i]), old(manager.direction), dt),
                                   DetectState(old(manager.State()), old(aliens[..]), dt, w, h))
    ensures manager.State() == ManagedState(DetectState(old(manager.State()), old(aliens[..]), dt, w, h))
    ensures old(IsDirection(manager.direction)) ==> IsDirection(manager.direction)
    ensures old(MarkersSound(aliens[..])) ==> MarkersSound(aliens[..])
  {
    UpdateAliens(aliens, manager, dt, w, h);
    ManageAlienLogic(aliens, manager);
  }

  // ---------------------------------------------------------------------------
  // Properties of a whole frame
  // ---------------------------------------------------------------------------

  /**
   * Exact snapping: when no reset is pending, the last alien to overflow during the
   * detect pass ends the frame exactly on the boundary it crossed (not clamped), and the
   * direction is reversed.
   */
  lemma LastOverflowLandsOnBoundary(st: ManagerState, s: seq<Alien>, dt: real, w: real, h: real, k: int)
    requires !st.reset && forall j :: 0 <= j < |s| ==> !BelowBottom(s[j], h)
    requires 0 <= k < |s| && Overflows(s[k], st.direction, dt, w)
    requires forall j :: k < j < |s| ==> !Overflows(s[j], st.direction, dt, w)
    ensures Managed(Moved(s[k], st.direction, dt), DetectState(st, s, dt, w, h)).position.x
              == w * st.direction * 0.5
    ensures ManagedState(DetectState(st, s, dt, w, h)).direction == -st.direction
  {
    DistIsLastOverflow(st, s, dt, w, h, k);
    ShiftRaisedIffOverflow(st, s, dt, w, h);
    ResetRaisedIffBelowBottom(st, s, dt, w, h);
  }

  /**
   * Revival: once a visited alien is below the bottom edge, the frame ends with every
   * alien, dead or alive, back in its slot, alive and unmarked, and the direction is 1.
   */
  lemma ResetRevivesAll(st: ManagerState, s: seq<Alien>, dt: real, w: real, h: real, k: int)
    requires MarkersSound(s)
    requires 0 <= k < |s| && BelowBottom(s[k], h)
    ensures forall i :: 0 <= i < |s| ==>
              Managed(Moved(s[i], st.direction, dt), DetectState(st, s, dt, w, h)).position == s[i].originalPosition
    ensures forall i :: 0 <= i < |s| ==>
              !Managed(Moved(s[i], st.direction, dt), DetectState(st, s, dt, w, h)).dead
    ensures forall i :: 0 <= i < |s| ==>
              !Managed(Moved(s[i], st.direction, dt), DetectState(st, s, dt, w, h)).marked
    ensures ManagedState(DetectState(st, s, dt, w, h)).direction == 1.0
  {
    ResetRaisedIffBelowBottom(st, s, dt, w, h);
  }
}
