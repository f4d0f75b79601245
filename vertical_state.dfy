/**
 * src/vertical_state.rs: a dropped ball that falls under constant
 * acceleration, bounces off the floor (height 0) keeping 80% of its
 * velocity, and settles once a frame moves it no more than 0.5 while it
 * is within 0.5 of the floor.
 *
 * As in src/horizontal_state.rs, the clock is the field `start` and each
 * reading of it a `now` parameter.
 */
module Vertical {
  import opened Emath
  import opened Stepping
  import Formula

  /** The acceleration `fall` sets, in screen units per second squared. */
  const Gravity: real := 800.0

  /** The share of the velocity a bounce keeps. */
  const Restitution: real := 0.8

  /** A frame settles the ball when its distance and the height are both within this. */
  const SettleThreshold: real := 0.5

  /**
   * The steps `distance` is consumed in: `distance.min(5.0)` takes a
   * negative distance whole, and cuts a positive one into steps of at most 5.0.
   */
  function FrameSteps(distance: real): seq<real>
  {
    if distance < 0.0 then [distance] else StepSizes(distance)
  }

  /** Where a frame leaves the ball, and whether it hit the floor on the way. */
  datatype Landing = Landing(height: real, bounced: bool)

  /**
   * The step loop of `mv`: each step lowers the height by step · direction;
   * the first step that reaches the floor (height <= 0) ends the loop and
   * discards the rest. Gives the final height and whether the ball bounced.
   */
  function Descend(pos: real, direction: real, steps: seq<real>): Landing
    decreases |steps|
  {
    if steps == [] then Landing(pos, false)
    else
      var p := pos - steps[0] * direction;
      if p <= 0.0 then Landing(p, true) else Descend(p, direction, steps[1..])
  }

  /** Every frame distance is consumed exactly, and a positive one in steps of at most 5.0. */
  lemma FrameStepsConsume(distance: real)
    ensures Sum(FrameSteps(distance)) == distance
    ensures distance > 0.0 ==> Paced(FrameSteps(distance))
    ensures distance == 0.0 <==> FrameSteps(distance) == []
  {
    StepSizesConsume(distance);
    if distance < 0.0 {
      assert Sum(FrameSteps(distance)) == distance + Sum([]);
    }
  }

  /** A non-zero frame distance starts with a step of min(distance, 5.0). */
  lemma FrameStepsUnfold(distance: real)
    requires distance != 0.0
    ensures FrameSteps(distance) == [Min(distance, MaxStep)] + FrameSteps(distance - Min(distance, MaxStep))
  {
    if distance > 0.0 {
      StepSizesUnfold(distance);
    }
  }

  lemma DescendHead(pos: real, direction: real, steps: seq<real>, first: real, rest: seq<real>)
    requires steps == [first] + rest
    ensures Descend(pos, direction, steps)
         == if pos - first * direction <= 0.0 then Landing(pos - first * direction, true)
            else Descend(pos - first * direction, direction, rest)
  {
    assert steps[0] == first && steps[1..] == rest;
  }

  /**
   * A frame either ends on or below the floor with a bounce, or consumes
   * its whole distance and stays above the floor.
   */
  lemma {:induction false} DescendOutcome(pos: real, direction: real, steps: seq<real>)
    ensures Descend(pos, direction, steps).bounced ==> Descend(pos, direction, steps).height <= 0.0
    ensures !Descend(pos, direction, steps).bounced ==>
      Descend(pos, direction, steps).height == pos - Sum(steps) * direction &&
      (steps != [] ==> Descend(pos, direction, steps).height > 0.0)
    ensures direction == 0.0 ==> Descend(pos, direction, steps).height == pos
    decreases |steps|
  {
    if steps != [] {
      var p := pos - steps[0] * direction;
      if p > 0.0 {
        DescendOutcome(p, direction, steps[1..]);
        assert Sum(steps) == steps[0] + Sum(steps[1..]);
      }
    }
  }

  /**
   * A ball that falls (direction -1) with a velocity that is not upward
   * under a non-negative acceleration never rises during a frame.
   */
  lemma FallLowers(pos: real, velocity: real, accel: real, time: real)
    requires velocity <= 0.0 && accel >= 0.0 && time >= 0.0
    ensures
      var v := Formula.CalculateVelocity(velocity, accel * -1.0, time);
      var distance := Formula.CalculateDistance(v, accel * -1.0, time);
      distance <= 0.0 && Descend(pos, -1.0, FrameSteps(distance)).height <= pos
  {
    var v := Formula.CalculateVelocity(velocity, accel * -1.0, time);
    var distance := Formula.CalculateDistance(v, accel * -1.0, time);
    Emath.MulNonNeg(accel, time);
    Emath.MulNonNeg(-v, time);
    Emath.MulNonNeg(accel, time * time);
    assert distance <= 0.0;
    if distance < 0.0 {
      DescendHead(pos, -1.0, FrameSteps(distance), distance, []);
    }
  }

  /**
   * The step loop of `mv` up to its `break`: consumes `distance` until it
   * is used up or a step reaches the floor.
   */
  method Descent(pos: real, direction: real, distance: real) returns (newPos: real, bounced: bool)
    ensures Landing(newPos, bounced) == Descend(pos, direction, FrameSteps(distance))
  {
    newPos, bounced := pos, false;
    var rest := distance;
    while rest != 0.0
      invariant Descend(newPos, direction, FrameSteps(rest)) == Descend(pos, direction, FrameSteps(distance))
      invariant !bounced
      decreases if rest < 0.0 then 1 else StepCount(rest)
    {
      var moveBy := Min(rest, MaxStep);
      FrameStepsUnfold(rest);
      DescendHead(newPos, direction, FrameSteps(rest), moveBy, FrameSteps(rest - moveBy));
      if rest > 0.0 {
        StepCountShrinks(rest);
      }
      rest := rest - moveBy;

      newPos := newPos - moveBy * direction;
      if newPos <= 0.0 {
        bounced := true;
        break;
      }
    }
  }

  class VerticalState {
    var play: bool
    /** The instant the clock was last reset. */
    var start: real
    /** -1 while the acceleration pulls downwards, 1 after a bounce. */
    var direction: real
    var accel: real
    var velocity: real

    /** `VerticalState::default()`, whose clock starts at `now`. */
    constructor (now: real)
      ensures !play && start == now && direction == 0.0 && accel == 0.0 && velocity == 0.0
    {
      play := false;
      start := now;
      direction := 0.0;
      accel := 0.0;
      velocity := 0.0;
    }

    /** Drops the ball from rest. */
    method Fall(now: real)
      modifies this
      ensures accel == Gravity && velocity == 0.0 && direction == -1.0 && start == now
      ensures IsPlay() && IsDrop()
    {
      accel := Gravity;
      velocity := 0.0;
      play := true;
      direction := -1.0;
      start := now;
    }

    /** `is_sign_negative`: the acceleration points downwards. */
    function IsDrop(): (r: bool)
      reads this
      ensures direction == -1.0 ==> r
      ensures direction == 1.0 ==> !r
    {
      direction < 0.0
    }

    method Stop()
      modifies this
      ensures !IsPlay()
      ensures start == old(start) && direction == old(direction)
      ensures accel == old(accel) && velocity == old(velocity)
    {
      play := false;
    }

    function IsPlay(): (r: bool)
      reads this
      ensures r == play
    {
      play
    }

    /**
     * One frame: `now1` is the reading used for the elapsed time, `now2`
     * the one the clock is reset to. Returns the new height of the ball.
     */
    method Mv(pos: real, now1: real, now2: real) returns (newPos: real)
      requires start <= now1 <= now2
      modifies this
      ensures accel == old(accel)
      ensures !old(play) ==>
        newPos == pos && !play && start == old(start) &&
        direction == old(direction) && velocity == old(velocity)
      ensures old(play) ==>
        var time := now1 - old(start);
        var a := old(accel) * old(direction);
        // the velocity is updated first and the distance uses the updated velocity
        var v := Formula.CalculateVelocity(old(velocity), a, time);
        var distance := Formula.CalculateDistance(v, a, time);
        var fall := Descend(pos, old(direction), FrameSteps(distance));
        newPos == fall.height && start == now2 &&
        direction == (if fall.bounced then -old(direction) else old(direction)) &&
        velocity == (if fall.bounced then Restitution * v else v) &&
        play == !(Abs(distance) <= SettleThreshold && Abs(newPos) <= SettleThreshold)
      // a bounce leaves the ball on or below the floor
      ensures old(play) && direction != old(direction) ==> newPos <= 0.0
      // a frame that moves the ball without turning it round leaves it above the floor
      ensures old(play) && direction == old(direction) && newPos != pos ==> newPos > 0.0
      ensures (old(direction) == 1.0 || old(direction) == -1.0) ==> (direction == 1.0 || direction == -1.0)
      // a ball that is falling never rises during a frame
      ensures old(play) && old(direction) == -1.0 && old(velocity) <= 0.0 && accel >= 0.0 ==> newPos <= pos
    {
      if play {
        var time := now1 - start;
        var a := accel * direction;
        var v := Formula.CalculateVelocity(velocity, a, time);
        var distance := Formula.CalculateDistance(v, a, time);
        DescendOutcome(pos, direction, FrameSteps(distance));
        if direction == -1.0 && velocity <= 0.0 && accel >= 0.0 {
          FallLowers(pos, velocity, accel, time);
        }

        var bounced;
        newPos, bounced := Descent(pos, direction, distance);
        velocity := v;
        if bounced {
          direction := direction * -1.0;
          velocity := velocity * Restitution;
        }

        start := now2;

        if Abs(distance) <= SettleThreshold && Abs(newPos) <= SettleThreshold {
          play := false;
        }
      } else {
        newPos := pos;
      }
    }
  }
}
