/**
 * src/horizontal_state.rs: horizontal travel that decelerates to a stop,
 * turning round whenever the ball leaves the allowed range.
 *
 * The clock (`Now`, a wrapper over `Instant`) is the field `start`, the
 * instant it was last reset, in seconds; every reading of the clock is a
 * `now` parameter, and the clock being monotonic is the requirement that
 * readings never precede `start` or each other.
 */
module Horizontal {
  import opened Emath
  import opened Stepping
  import Formula

  datatype Option<T> = None | Some(value: T)

  /** Where a frame leaves the ball and the direction it then travels in. */
  datatype Course = Course(pos: real, direction: int)

  /**
   * The step loop of `mv`: every step moves the position by the step size
   * in the current direction, and turns the direction round when the new
   * position lies outside [lo, hi]. Gives the final position and direction.
   */
  function Sweep(pos: real, direction: int, steps: seq<real>, lo: real, hi: real): Course
    decreases |steps|
  {
    if steps == [] then Course(pos, direction)
    else
      var next := StepOnce(pos, direction, steps[0], lo, hi);
      Sweep(next.pos, next.direction, steps[1..], lo, hi)
  }

  /** One step: move, then turn round if the ball is now outside [lo, hi]. */
  function StepOnce(pos: real, direction: int, step: real, lo: real, hi: real): Course
  {
    var p := pos + step * direction as real;
    Course(p, if lo <= p <= hi then direction else -direction)
  }

  ghost predicate IsSign(direction: int) { direction == 1 || direction == -1 }

  ghost predicate NonNegative(steps: seq<real>)
  {
    forall i :: 0 <= i < |steps| ==> steps[i] >= 0.0
  }

  /** Turning round only ever negates the direction, so it stays -1 or 1. */
  lemma {:induction false} SweepKeepsSign(pos: real, direction: int, steps: seq<real>, lo: real, hi: real)
    requires IsSign(direction)
    ensures IsSign(Sweep(pos, direction, steps, lo, hi).direction)
    decreases |steps|
  {
    if steps != [] {
      var next := StepOnce(pos, direction, steps[0], lo, hi);
      SweepKeepsSign(next.pos, next.direction, steps[1..], lo, hi);
    }
  }

  /** The ball ends no further from where it started than the path it ran. */
  lemma {:induction false} SweepTravel(pos: real, direction: int, steps: seq<real>, lo: real, hi: real)
    requires IsSign(direction) && NonNegative(steps)
    ensures Abs(Sweep(pos, direction, steps, lo, hi).pos - pos) <= Sum(steps)
    decreases |steps|
  {
    if steps != [] {
      var s := steps[0];
      var next := StepOnce(pos, direction, s, lo, hi);
      assert next.pos == pos + s || next.pos == pos - s;
      NonNegativeTail(steps);
      SweepTravel(next.pos, next.direction, steps[1..], lo, hi);
      assert Sum(steps) == s + Sum(steps[1..]);
    }
  }

  /**
   * When the whole path fits inside the range, no step turns the ball
   * round and it ends exactly the path's length away in its direction.
   */
  lemma {:induction false} SweepInsideRange(pos: real, direction: int, steps: seq<real>, lo: real, hi: real)
    requires IsSign(direction) && NonNegative(steps)
    requires lo <= pos - Sum(steps) && pos + Sum(steps) <= hi
    ensures Sweep(pos, direction, steps, lo, hi) == Course(pos + Sum(steps) * direction as real, direction)
    decreases |steps|
  {
    if steps != [] {
      var s := steps[0];
      NonNegativeTail(steps);
      SumNonNegative(steps[1..]);
      var next := StepOnce(pos, direction, s, lo, hi);
      var p := next.pos;
      assert p == pos + s || p == pos - s;
      assert lo <= p <= hi;
      assert next == Course(p, direction);
      SweepInsideRange(p, direction, steps[1..], lo, hi);
      assert Sum(steps) == s + Sum(steps[1..]);
      assert p + Sum(steps[1..]) * direction as real == pos + Sum(steps) * direction as real;
    }
  }

  /** Dropping the first step keeps the steps non-negative. */
  lemma NonNegativeTail(steps: seq<real>)
    requires NonNegative(steps) && steps != []
    ensures NonNegative(steps[1..])
  {
    forall i | 0 <= i < |steps[1..]| ensures steps[1..][i] >= 0.0 {
      assert steps[1..][i] == steps[i + 1];
    }
  }

  lemma {:induction false} SumNonNegative(steps: seq<real>)
    requires NonNegative(steps)
    ensures Sum(steps) >= 0.0
    decreases |steps|
  {
    if steps != [] {
      NonNegativeTail(steps);
      SumNonNegative(steps[1..]);
    }
  }

  /**
   * Inside the range, or at most one step outside it and heading back:
   * the situation after every full step of a frame that began inside.
   */
  ghost predicate NearRange(pos: real, direction: int, lo: real, hi: real)
  {
    IsSign(direction) &&
    ((lo <= pos <= hi) ||
     (hi < pos <= hi + MaxStep && direction == -1) ||
     (lo - MaxStep <= pos < lo && direction == 1))
  }

  /**
   * With full steps of 5.0 and at most one shorter last step, a ball that
   * starts near a range at least 5.0 wide ends within 5.0 of it.
   */
  lemma {:induction false} SweepStaysNear(pos: real, direction: int, steps: seq<real>, lo: real, hi: real)
    requires hi - lo >= MaxStep
    requires NearRange(pos, direction, lo, hi)
    requires Paced(steps)
    ensures lo - MaxStep <= Sweep(pos, direction, steps, lo, hi).pos <= hi + MaxStep
    decreases |steps|
  {
    if steps != [] {
      var next := StepOnce(pos, direction, steps[0], lo, hi);
      if |steps| > 1 {
        NearStep(pos, direction, lo, hi);
        PacedTail(steps);
        SweepStaysNear(next.pos, next.direction, steps[1..], lo, hi);
      } else {
        assert steps[1..] == [];
        assert 0.0 < steps[0] <= MaxStep;
      }
    }
  }

  /** A full step of 5.0 from near a range at least 5.0 wide stays near it. */
  lemma NearStep(pos: real, direction: int, lo: real, hi: real)
    requires hi - lo >= MaxStep
    requires NearRange(pos, direction, lo, hi)
    ensures
      var next := StepOnce(pos, direction, MaxStep, lo, hi);
      NearRange(next.pos, next.direction, lo, hi)
  {
    var p := pos + MaxStep * direction as real;
    if direction == 1 {
      assert p == pos + MaxStep;
    } else {
      assert p == pos - MaxStep;
    }
  }

  /** Dropping the first step of a paced path leaves a paced path. */
  lemma PacedTail(steps: seq<real>)
    requires Paced(steps) && |steps| > 1
    ensures steps[0] == MaxStep && Paced(steps[1..])
  {
    forall i | 0 <= i < |steps[1..]|
      ensures 0.0 < steps[1..][i] <= MaxStep && (i < |steps[1..]| - 1 ==> steps[1..][i] == MaxStep)
    {
      assert steps[1..][i] == steps[i + 1];
    }
  }

  /** One frame's travel from inside a range at least 5.0 wide ends within 5.0 of it. */
  lemma FrameStaysNear(pos: real, direction: int, distance: real, lo: real, hi: real)
    requires IsSign(direction) && lo <= pos <= hi && hi - lo >= MaxStep
    ensures lo - MaxStep <= Sweep(pos, direction, StepSizes(distance), lo, hi).pos <= hi + MaxStep
  {
    StepSizesConsume(distance);
    SweepStaysNear(pos, direction, StepSizes(distance), lo, hi);
  }

  /**
   * `mv` evaluates the distance with the velocity it has just updated, so
   * the distance a frame covers falls short of the closed-form distance
   * from the frame's starting velocity by a·t².
   */
  lemma FrameDistanceLags(velocity: real, acceleration: real, time: real)
    ensures Formula.CalculateDistance(Formula.CalculateVelocity(velocity, -acceleration, time), -acceleration, time)
         == Formula.CalculateDistance(velocity, -acceleration, time) - acceleration * time * time
  {
  }

  /**
   * Decelerating from a non-negative velocity for at most the planned
   * duration |v| / |a| leaves a non-negative velocity, and the new
   * planned duration is what remained of the old one.
   */
  lemma Deceleration(velocity: real, acceleration: real, time: real)
    requires velocity >= 0.0 && acceleration > 0.0
    requires 0.0 <= time <= Abs(velocity) / Abs(acceleration)
    ensures Formula.CalculateVelocity(velocity, -acceleration, time) >= 0.0
    ensures Abs(Formula.CalculateVelocity(velocity, -acceleration, time)) / Abs(acceleration)
         == Abs(velocity) / Abs(acceleration) - time
  {
    var v := Formula.CalculateVelocity(velocity, -acceleration, time);
    assert time * acceleration <= velocity by {
      assert (velocity / acceleration) * acceleration == velocity;
      Emath.MulNonNeg(velocity / acceleration - time, acceleration);
    }
    assert v / acceleration == velocity / acceleration - time by {
      assert v == velocity - acceleration * time;
    }
  }

  /**
   * The step loop of `mv`: consumes `distance` in steps of at most 5.0,
   * turning round after every step that leaves [lo, hi].
   */
  method Travel(pos: real, direction: int, distance: real, lo: real, hi: real)
    returns (newPos: real, newDirection: int)
    ensures Course(newPos, newDirection) == Sweep(pos, direction, StepSizes(distance), lo, hi)
    ensures distance <= 0.0 ==> newPos == pos && newDirection == direction
  {
    newPos, newDirection := pos, direction;
    var rest := distance;
    while rest > 0.0
      invariant Sweep(newPos, newDirection, StepSizes(rest), lo, hi)
             == Sweep(pos, direction, StepSizes(distance), lo, hi)
      decreases StepCount(rest)
    {
      var moveBy := Min(rest, MaxStep);
      ghost var next := StepOnce(newPos, newDirection, moveBy, lo, hi);
      SweepFirstStep(newPos, newDirection, rest, lo, hi);
      StepCountShrinks(rest);
      rest := rest - moveBy;
      newPos := newPos + moveBy * newDirection as real;
      if !(lo <= newPos <= hi) {
        newDirection := newDirection * -1;
      }
      assert Course(newPos, newDirection) == next;
    }
    assert StepSizes(rest) == [];
  }

  /** Sweeping over a positive distance is one step followed by the sweep over the rest. */
  lemma SweepFirstStep(pos: real, direction: int, distance: real, lo: real, hi: real)
    requires distance > 0.0
    ensures
      var next := StepOnce(pos, direction, Min(distance, MaxStep), lo, hi);
      Sweep(pos, direction, StepSizes(distance), lo, hi)
        == Sweep(next.pos, next.direction, StepSizes(distance - Min(distance, MaxStep)), lo, hi)
  {
    var moveBy := Min(distance, MaxStep);
    StepSizesUnfold(distance);
    var steps := StepSizes(distance);
    var rest := StepSizes(distance - moveBy);
    assert steps == [moveBy] + rest;
    SweepHead(pos, direction, steps, moveBy, rest, lo, hi);
  }

  lemma SweepHead(pos: real, direction: int, steps: seq<real>, first: real, rest: seq<real>, lo: real, hi: real)
    requires steps == [first] + rest
    ensures
      var next := StepOnce(pos, direction, first, lo, hi);
      Sweep(pos, direction, steps, lo, hi) == Sweep(next.pos, next.direction, rest, lo, hi)
  {
    assert steps[0] == first && steps[1..] == rest;
  }

  class HorizontalState {
    /** `None` when stopped, otherwise the direction of travel, -1 or 1. */
    var play: Option<int>
    /** The instant the clock was last reset. */
    var start: real
    /** Planned time until the ball stops, in seconds. */
    var duration: real
    var velocity: real
    var acceleration: real

    ghost predicate Valid()
      reads this
    {
      duration >= 0.0 && (play.Some? ==> IsSign(play.value) && acceleration != 0.0)
    }

    /** The planned duration is the time for the current velocity to decay to zero. */
    ghost predicate Planned()
      reads this
    {
      acceleration != 0.0 && duration == Abs(velocity) / Abs(acceleration)
    }

    /** `HorizontalState::default()`, whose clock starts at `now`. */
    constructor (now: real)
      ensures Valid() && play == None && start == now
      ensures duration == 0.0 && velocity == 0.0 && acceleration == 0.0
    {
      play := None;
      start := now;
      duration := 0.0;
      velocity := 0.0;
      acceleration := 0.0;
    }

    function IsPlay(): (r: bool)
      reads this
      ensures r <==> play.Some?
    {
      play.Some?
    }

    method Stop()
      modifies this
      ensures !IsPlay()
      ensures start == old(start) && duration == old(duration)
      ensures velocity == old(velocity) && acceleration == old(acceleration)
      ensures old(Valid()) ==> Valid()
    {
      play := None;
    }

    method PlayLeft(now: real)
      requires acceleration != 0.0
      modifies this
      ensures Valid() && Planned() && IsPlay() && play.value == -1 && start == now
      ensures velocity == old(velocity) && acceleration == old(acceleration)
    {
      Play(-1, now);
    }

    method PlayRight(now: real)
      requires acceleration != 0.0
      modifies this
      ensures Valid() && Planned() && IsPlay() && play.value == 1 && start == now
      ensures velocity == old(velocity) && acceleration == old(acceleration)
    {
      Play(1, now);
    }

    /**
     * Starts travel in `direction` from now on, for |velocity| / |acceleration|
     * seconds; a zero acceleration makes `Duration::from_secs_f64` panic.
     */
    method Play(direction: int, now: real)
      requires acceleration != 0.0 && IsSign(direction)
      modifies this
      ensures Valid() && Planned() && play == Some(direction) && start == now
      ensures velocity == old(velocity) && acceleration == old(acceleration)
    {
      start := now;
      play := Some(direction);
      duration := Abs(velocity) / Abs(acceleration);
    }

    /** Distance covered after `time` seconds of deceleration from the current velocity. */
    function DistanceAt(time: real): (r: real)
      reads this
      ensures time == 0.0 ==> r == 0.0
      ensures r == time * (velocity + VelocityAt(time)) / 2.0
    {
      Formula.CalculateDistance(velocity, -acceleration, time)
    }

    /** Velocity after `time` seconds of deceleration from the current velocity. */
    function VelocityAt(time: real): (r: real)
      reads this
      ensures time == 0.0 ==> r == velocity
      ensures acceleration > 0.0 && time > 0.0 ==> r < velocity
    {
      Formula.CalculateVelocity(velocity, -acceleration, time)
    }

    /**
     * One frame. `now1` is the reading used for the elapsed time, `now2`
     * the one compared with the planned duration afterwards, `now3` the one
     * `play` resets the clock to when travel goes on. Returns the new
     * position of the ball.
     */
    method Mv(pos: real, lo: real, hi: real, now1: real, now2: real, now3: real) returns (newPos: real)
      requires Valid()
      requires start <= now1 <= now2 <= now3
      modifies this
      ensures Valid()
      ensures acceleration == old(acceleration)
      ensures old(play).None? ==>
        newPos == pos && play == old(play) && start == old(start) &&
        duration == old(duration) && velocity == old(velocity)
      ensures old(play).Some? ==>
        var time := Min(now1 - old(start), old(duration));
        var v := Formula.CalculateVelocity(old(velocity), -acceleration, time);
        var travel := Sweep(pos, old(play).value, StepSizes(Formula.CalculateDistance(v, -acceleration, time)), lo, hi);
        velocity == v && newPos == travel.pos &&
        if now2 - old(start) < old(duration) then
          play == Some(travel.direction) && start == now3 && Planned()
        else
          play == None && start == old(start) && duration == old(duration)
      // once the planned duration has elapsed the ball stops
      ensures old(play).Some? && now1 - old(start) >= old(duration) ==> !IsPlay()
      // a frame that starts inside a range at least 5.0 wide ends within 5.0 of it
      ensures old(play).Some? && lo <= pos <= hi && hi - lo >= MaxStep ==>
        lo - MaxStep <= newPos <= hi + MaxStep
      // decelerating travel never reverses its velocity, and the planned stop
      // moves only by the clock time between the first and the last reading
      ensures old(play).Some? && old(Planned()) && old(velocity) >= 0.0 && acceleration > 0.0 ==>
        velocity >= 0.0 &&
        (IsPlay() ==> start + duration == old(start) + old(duration) + (now3 - now1))
    {
      if play.Some? {
        var direction := play.value;
        ghost var velocity0, planned0 := velocity, Planned();
        var time := Min(now1 - start, duration);
        velocity := VelocityAt(time);
        var distance := DistanceAt(time);

        SweepKeepsSign(pos, direction, StepSizes(distance), lo, hi);
        if lo <= pos <= hi && hi - lo >= MaxStep {
          FrameStaysNear(pos, direction, distance, lo, hi);
        }
        if planned0 && velocity0 >= 0.0 && acceleration > 0.0 {
          Deceleration(velocity0, acceleration, time);
        }
        newPos, direction := Travel(pos, direction, distance, lo, hi);

        play := Some(direction);
        if now2 - start < duration {
          Play(direction, now3);
        } else {
          Stop();
        }
      } else {
        newPos := pos;
      }
    }
  }
}
