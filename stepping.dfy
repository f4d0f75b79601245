/**
 * Both motion states move the ball through a frame's distance in steps of
 * at most 5.0 units (`distance.min(5.0)` in src/horizontal_state.rs and
 * src/vertical_state.rs), so that a boundary test runs after every step.
 * This module describes the sequence of step sizes a positive distance is
 * cut into; the two state machines fold their own step rule over it.
 */
module Stepping {
  import opened Emath

  /** The largest displacement applied in one step. */
  const MaxStep: real := 5.0

  /** How many steps a distance takes: the ceiling of d / 5 for d > 0. */
  function StepCount(d: real): nat
  {
    if d <= 0.0 then 0 else -((-d / MaxStep).Floor)
  }

  /** Consuming one step of a positive distance takes one step off the count. */
  lemma StepCountShrinks(d: real)
    requires d > 0.0
    ensures StepCount(d - Min(d, MaxStep)) == StepCount(d) - 1
  {
    if d > MaxStep {
      assert -(d - MaxStep) / MaxStep == -d / MaxStep + 1.0;
    } else {
      assert -1.0 <= -d / MaxStep < 0.0;
    }
  }

  /** The sizes of the successive steps a distance is consumed in. */
  function StepSizes(d: real): seq<real>
    decreases StepCount(d)
  {
    if d <= 0.0 then []
    else
      var s := Min(d, MaxStep);
      StepCountShrinks(d);
      [s] + StepSizes(d - s)
  }

  /** A positive distance starts with a step of min(d, 5.0). */
  lemma StepSizesUnfold(d: real)
    requires d > 0.0
    ensures StepSizes(d) == [Min(d, MaxStep)] + StepSizes(d - Min(d, MaxStep))
  {
  }

  function Sum(steps: seq<real>): real
  {
    if steps == [] then 0.0 else steps[0] + Sum(steps[1..])
  }

  /** Every step is positive and at most 5.0, and only the last may be short. */
  ghost predicate Paced(steps: seq<real>)
  {
    forall i :: 0 <= i < |steps| ==>
      0.0 < steps[i] <= MaxStep && (i < |steps| - 1 ==> steps[i] == MaxStep)
  }

  /**
   * A distance is consumed exactly: the steps add up to the distance (to
   * nothing when it is not positive), there are ⌈d / 5⌉ of them, each at
   * most 5.0 and all but the last exactly 5.0.
   */
  lemma {:induction false} StepSizesConsume(d: real)
    ensures Paced(StepSizes(d))
    ensures Sum(StepSizes(d)) == Max(d, 0.0)
    ensures |StepSizes(d)| == StepCount(d)
    decreases StepCount(d)
  {
    if d > 0.0 {
      var s := Min(d, MaxStep);
      StepCountShrinks(d);
      StepSizesConsume(d - s);
      var rest := StepSizes(d - s);
      assert StepSizes(d) == [s] + rest;
      assert ([s] + rest)[1..] == rest;
      assert d > MaxStep ==> rest != [];
      assert d <= MaxStep ==> rest == [];
    }
  }
}
