/**
 * One cell of the hex grid and its visibility animation.
 *
 * The cell keeps a flag saying whether it should be visible and a
 * visibility value in [0, 1] that is animated towards 1.0 (visible) or
 * 0.0 (hidden) over one second. A toggle flips the flag and restarts the
 * animation from whatever value is showing at that moment.
 *
 * The engine's coroutine is made explicit: the running animation is a
 * record of its captured locals (start time, start value, target and the
 * last progress value `lerpVal`), and each frame resumes it once. Time is
 * a real parameter standing for the engine clock.
 *
 * The pure functions `Toggled` and `Stepped` are the specification of
 * the two operations; the class `GridCell` performs them in place and is
 * proved against them.
 */
module GridCells {
  import opened Optional
  import opened Mathf

  /** The animation divides elapsed seconds by this length. */
  const AnimationDuration: real := 1.0

  /** The value the animation heads for: 1.0 when visible, 0.0 when hidden. */
  function TargetFor(isVisible: bool): real {
    if isVisible then 1.0 else 0.0
  }

  /** The locals of a running visibility coroutine. */
  datatype Animation = Animation(startTime: real, startVal: real, target: real, progress: real)

  /** Everything a cell's visibility behaviour depends on. */
  datatype CellState = CellState(visibility: real, isVisible: bool, animation: Option<Animation>)

  /** A cell as it is created: hidden, fully invisible, not animating. */
  function Initial(): CellState {
    CellState(0.0, false, None)
  }

  /**
   * The invariant every reachable state keeps: visibility is in [0, 1];
   * with no animation running it sits exactly on the flag's target; while
   * one runs, its target is the flag's target and the visibility is the
   * interpolation at the last progress value.
   */
  predicate Inv(s: CellState) {
    && 0.0 <= s.visibility <= 1.0
    && match s.animation
       case None => s.visibility == TargetFor(s.isVisible)
       case Some(a) =>
         && a.target == TargetFor(s.isVisible)
         && 0.0 <= a.startVal <= 1.0
         && s.visibility == Lerp(a.startVal, a.target, a.progress)
  }

  /**
   * ToggleVisibility at time `now`. With the primary button up nothing
   * happens. Otherwise the flag flips, the running animation is dropped
   * and a new one starts; starting it runs the coroutine up to its first
   * yield, i.e. one loop iteration at progress 0.
   */
  function Toggled(s: CellState, buttonHeld: bool, now: real): (r: CellState)
    ensures !buttonHeld ==> r == s
    ensures buttonHeld ==> r.isVisible == !s.isVisible
    ensures buttonHeld ==> r.animation == Some(Animation(now, s.visibility, TargetFor(r.isVisible), 0.0))
    ensures r.visibility == s.visibility
    ensures Inv(s) ==> Inv(r)
  {
    if !buttonHeld then s
    else
      var flipped := !s.isVisible;
      var target := TargetFor(flipped);
      var lerpVal := (now - now) / AnimationDuration;
      CellState(Lerp(s.visibility, target, lerpVal), flipped, Some(Animation(now, s.visibility, target, lerpVal)))
  }

  /**
   * One resumption of the coroutine at time `now`. If the progress of the
   * previous iteration is below 1 the loop runs once more and sets the
   * visibility to the interpolation at the new progress; otherwise the loop
   * exits, the visibility snaps to the target and the coroutine ends.
   */
  function Stepped(s: CellState, now: real): (r: CellState)
    ensures r.isVisible == s.isVisible
    ensures s.animation.None? ==> r == s
    ensures s.animation.Some? ==> Between(r.visibility, s.animation.value.startVal, s.animation.value.target)
    ensures s.animation.Some? && s.animation.value.progress >= 1.0 ==>
              r.animation.None? && r.visibility == s.animation.value.target
    ensures s.animation.Some? && now - s.animation.value.startTime >= AnimationDuration ==>
              r.visibility == s.animation.value.target
    ensures Inv(s) ==> Inv(r)
  {
    match s.animation
    case None => s
    case Some(a) =>
      if a.progress < 1.0 then
        var lerpVal := (now - a.startTime) / AnimationDuration;
        CellState(Lerp(a.startVal, a.target, lerpVal), s.isVisible, Some(a.(progress := lerpVal)))
      else
        CellState(a.target, s.isVisible, None)
  }

  /**
   * With time not running backwards, each frame leaves the visibility no
   * further from the target than it was: the animation is monotone.
   */
  lemma StepApproachesTarget(s: CellState, now: real)
    requires Inv(s) && s.animation.Some?
    requires now >= s.animation.value.startTime + s.animation.value.progress
    ensures Dist(Stepped(s, now).visibility, s.animation.value.target) <= Dist(s.visibility, s.animation.value.target)
  {
    var a := s.animation.value;
    if a.progress < 1.0 {
      LerpApproaches(a.startVal, a.target, a.progress, (now - a.startTime) / AnimationDuration);
    }
  }

  /** Toggling twice with the button held restores the flag and the target, without a jump in visibility. */
  lemma ToggleTwiceRestoresFlag(s: CellState, t1: real, t2: real)
    ensures Toggled(Toggled(s, true, t1), true, t2).isVisible == s.isVisible
    ensures Toggled(Toggled(s, true, t1), true, t2).visibility == s.visibility
    ensures Toggled(Toggled(s, true, t1), true, t2).animation.value.target == TargetFor(s.isVisible)
  {
  }

  /** What can happen to a cell: a mouse event over it, or a frame resuming its coroutine. */
  datatype Event = Press(buttonHeld: bool, now: real) | Frame(now: real)

  function Apply(s: CellState, e: Event): CellState {
    match e
    case Press(held, now) => Toggled(s, held, now)
    case Frame(now) => Stepped(s, now)
  }

  /** The state after a sequence of events, in order. */
  function Run(s: CellState, events: seq<Event>): CellState
    decreases |events|
  {
    if events == [] then s else Run(Apply(s, events[0]), events[1..])
  }

  /**
   * Whatever the mouse does and however frames are timed, a cell that
   * starts in a valid state stays in one, so its visibility never leaves
   * [0, 1].
   */
  lemma {:induction false} RunKeepsInv(s: CellState, events: seq<Event>)
    requires Inv(s)
    ensures Inv(Run(s, events))
    ensures 0.0 <= Run(s, events).visibility <= 1.0
    decreases |events|
  {
    if events != [] {
      RunKeepsInv(Apply(s, events[0]), events[1..]);
    }
  }

  /** Every cell, from creation on, has its visibility in [0, 1]. */
  lemma {:induction false} VisibilityInRange(events: seq<Event>)
    ensures 0.0 <= Run(Initial(), events).visibility <= 1.0
  {
    RunKeepsInv(Initial(), events);
  }

  /**
   * No toggle: every event is a frame or a mouse event with the button
   * up (hovering over the cell), which returns before touching anything.
   */
  predicate NoToggles(events: seq<Event>) {
    forall i :: 0 <= i < |events| ==> events[i].Frame? || !events[i].buttonHeld
  }

  /** Some event of the sequence is a frame. */
  predicate HasFrame(events: seq<Event>) {
    exists i :: 0 <= i < |events| && events[i].Frame?
  }

  /** The visibility sits on `target` and the loop will not run again. */
  predicate Settled(s: CellState, target: real) {
    && s.visibility == target
    && (s.animation.None? || (s.animation.value.progress >= 1.0 && s.animation.value.target == target))
  }

  /**
   * Once settled, further frames and button-up mouse events keep the
   * visibility on the target, and the first frame ends the coroutine.
   */
  lemma {:induction false} SettledStays(s: CellState, events: seq<Event>, target: real)
    requires Settled(s, target) && NoToggles(events)
    ensures Settled(Run(s, events), target)
    ensures s.animation.None? || HasFrame(events) ==> Run(s, events).animation.None?
    decreases |events|
  {
    if events != [] {
      var s' := Apply(s, events[0]);
      assert Settled(s', target);
      assert events[0].Frame? ==> s'.animation.None?;
      assert s.animation.None? ==> s'.animation.None?;
      if HasFrame(events) && events[0].Press? {
        var i :| 0 <= i < |events| && events[i].Frame?;
        assert events[1..][i - 1].Frame?;
      }
      SettledStays(s', events[1..], target);
    }
  }

  /**
   * After a toggle and no further toggles (mouse events with the button up
   * may come and go), once a frame comes one second or more after the
   * animation started, the visibility equals the target exactly from then
   * on, and the next frame after that ends the coroutine.
   */
  lemma {:induction false} SettlesAtTarget(s: CellState, events: seq<Event>, k: nat)
    requires s.animation.Some? && NoToggles(events)
    requires k < |events| && events[k].Frame? && events[k].now - s.animation.value.startTime >= AnimationDuration
    ensures Run(s, events).visibility == s.animation.value.target
    ensures HasFrame(events[k + 1..]) ==> Run(s, events).animation.None?
    decreases |events|
  {
    var a := s.animation.value;
    var s' := Apply(s, events[0]);
    if events[0].Press? {
      assert s' == s;
      assert events[1..][k - 1] == events[k];
      assert events[1..][k..] == events[k + 1..];
      SettlesAtTarget(s', events[1..], k - 1);
    } else if a.progress >= 1.0 || k == 0 {
      assert Settled(s', a.target);
      if HasFrame(events[k + 1..]) {
        var i :| 0 <= i < |events[k + 1..]| && events[k + 1..][i].Frame?;
        assert events[1..][k + i].Frame?;
      }
      SettledStays(s', events[1..], a.target);
    } else {
      assert s'.animation == Some(a.(progress := (events[0].now - a.startTime) / AnimationDuration));
      assert events[1..][k - 1] == events[k];
      assert events[1..][k..] == events[k + 1..];
      SettlesAtTarget(s', events[1..], k - 1);
    }
  }

  /**
   * Continuity on restart: toggle a fresh cell on at t0, let a frame come
   * half a second later, toggle it off at that instant. The new animation
   * starts from 0.5, the value the first one was showing, and heads for 0.
   */
  lemma RestartIsContinuous(t0: real)
    ensures Run(Initial(), [Press(true, t0), Frame(t0 + 0.5), Press(true, t0 + 0.5)])
            == CellState(0.5, false, Some(Animation(t0 + 0.5, 0.5, 0.0, 0.0)))
  {
    var evs := [Press(true, t0), Frame(t0 + 0.5), Press(true, t0 + 0.5)];
    var s1 := Toggled(Initial(), true, t0);
    var s2 := Stepped(s1, t0 + 0.5);
    var s3 := Toggled(s2, true, t0 + 0.5);
    assert s2.visibility == Lerp(0.0, 1.0, 0.5) == 0.5;
    assert evs[1..] == [Frame(t0 + 0.5), Press(true, t0 + 0.5)];
    assert evs[1..][1..] == [Press(true, t0 + 0.5)];
    assert Run(s3, []) == s3;
    assert Run(s2, evs[1..][1..]) == s3;
    assert Run(s1, evs[1..]) == s3;
  }

  /**
   * The grid cell component. Position on the ground plane is fixed when
   * the cell is placed; the visibility, its flag and the running
   * animation change in place. In the component, Visibility has a
   * private setter; here the only members that assign `visibility` are
   * ToggleVisibility (which leaves its value as it is) and AnimationStep,
   * and the renderer, which reads cells, may modify only itself.
   */
  class GridCell {
    const x: real
    const z: real
    var visibility: real
    var isVisible: bool
    var animation: Option<Animation>

    function State(): CellState
      reads this
    {
      CellState(visibility, isVisible, animation)
    }

    ghost predicate Valid()
      reads this
    {
      Inv(State())
    }

    constructor(x: real, z: real)
      ensures this.x == x && this.z == z
      ensures visibility == 0.0 && !isVisible && animation == None
      ensures State() == Initial() && Valid()
    {
      this.x := x;
      this.z := z;
      visibility := 0.0;
      isVisible := false;
      animation := None;
    }

    /** ToggleVisibility, reached from a click or a drag over the cell. */
    method ToggleVisibility(buttonHeld: bool, now: real)
      requires Valid()
      modifies this
      ensures Valid()
      ensures State() == Toggled(old(State()), buttonHeld, now)
      ensures !buttonHeld ==> unchanged(this)
      ensures visibility == old(visibility)
      ensures buttonHeld ==> isVisible == !old(isVisible)
      ensures buttonHeld ==> animation == Some(Animation(now, old(visibility), TargetFor(isVisible), 0.0))
    {
      if !buttonHeld {
        return;
      }
      isVisible := !isVisible;
      // StopAllCoroutines
      animation := None;
      // StartCoroutine(AnimateVisibility(target)) runs until the first yield
      var target := TargetFor(isVisible);
      var startingTime := now;
      var startingVal := visibility;
      var lerpVal := (now - startingTime) / AnimationDuration;
      visibility := Lerp(startingVal, target, lerpVal);
      animation := Some(Animation(startingTime, startingVal, target, lerpVal));
    }

    /** One frame of the AnimateVisibility coroutine, if one is running. */
    method AnimationStep(now: real)
      requires Valid()
      modifies this
      ensures Valid()
      ensures State() == Stepped(old(State()), now)
      ensures isVisible == old(isVisible)
      ensures old(animation).None? ==> unchanged(this)
      ensures old(animation).Some? && now - old(animation).value.startTime >= AnimationDuration ==>
                visibility == old(animation).value.target
    {
      match animation
      case None =>
      case Some(a) =>
        if a.progress < 1.0 {
          var lerpVal := (now - a.startTime) / AnimationDuration;
          visibility := Lerp(a.startVal, a.target, lerpVal);
          animation := Some(a.(progress := lerpVal));
        } else {
          visibility := a.target;
          animation := None;
        }
    }
  }
}
