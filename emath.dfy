/**
 * The small part of egui's `emath` that the core relies on: 2-D vectors,
 * rectangles, `f32::min`/`max`/`clamp` on exact reals, and the two range
 * mappings `lerp` and `remap_clamp` that the slider conversions call.
 * The crate itself is not part of this model; its functions are written
 * here from their documented behaviour.
 */
module Emath {

  /** `egui::Vec2`; `egui::Pos2` has the same two components. */
  datatype Vec2 = Vec2(x: real, y: real)

  type Pos2 = Vec2

  /** `egui::Rect`: `min` is the top-left corner, `max` the bottom-right one. */
  datatype Rect = Rect(min: Pos2, max: Pos2) {
    function Left(): real { min.x }
    function Right(): real { max.x }
    function Top(): real { min.y }
    function Bottom(): real { max.y }
    function Width(): real { max.x - min.x }
    function Height(): real { max.y - min.y }
  }

  function Min(a: real, b: real): real { if a <= b then a else b }

  function Max(a: real, b: real): real { if a >= b then a else b }

  function Abs(a: real): real { if a < 0.0 then -a else a }

  /** `f64::clamp`, which panics unless `lo <= hi`. */
  function Clamp(x: real, lo: real, hi: real): (r: real)
    requires lo <= hi
    ensures lo <= r <= hi
    ensures lo <= x <= hi ==> r == x
  {
    if x < lo then lo else if x > hi then hi else x
  }

  /** `emath::lerp(a..=b, t)`. */
  function Lerp(a: real, b: real, t: real): real
  {
    (1.0 - t) * a + t * b
  }

  lemma LerpBetween(a: real, b: real, t: real)
    requires 0.0 <= t <= 1.0
    ensures Min(a, b) <= Lerp(a, b, t) <= Max(a, b)
    ensures t == 0.0 ==> Lerp(a, b, t) == a
    ensures t == 1.0 ==> Lerp(a, b, t) == b
  {
    assert Lerp(a, b, t) == a + t * (b - a);
    if a <= b {
      MulNonNeg(t, b - a);
      MulNonNeg(1.0 - t, b - a);
    } else {
      MulNonNeg(t, a - b);
      MulNonNeg(1.0 - t, a - b);
    }
  }

  lemma MulNonNeg(a: real, b: real)
    requires 0.0 <= a && 0.0 <= b
    ensures 0.0 <= a * b
  {
  }

  /**
   * `emath::remap_clamp(x, from_start..=from_end, to_start..=to_end)`:
   * a reversed source range is flipped together with the target range,
   * then `x` is clamped to the source range and mapped linearly.
   */
  function RemapClamp(x: real, fromStart: real, fromEnd: real, toStart: real, toEnd: real): real
    decreases if fromEnd < fromStart then 1 else 0
  {
    if fromEnd < fromStart then RemapClamp(x, fromEnd, fromStart, toEnd, toStart)
    else if x <= fromStart then toStart
    else if fromEnd <= x then toEnd
    else Lerp(toStart, toEnd, (x - fromStart) / (fromEnd - fromStart))
  }

  /** Mapping into the unit interval never leaves it. */
  lemma RemapClampUnit(x: real, fromStart: real, fromEnd: real)
    ensures 0.0 <= RemapClamp(x, fromStart, fromEnd, 0.0, 1.0) <= 1.0
  {
    if fromEnd < fromStart {
      RemapClampFlippedUnit(x, fromEnd, fromStart);
    } else if fromStart < x < fromEnd {
      UnitFraction(x - fromStart, fromEnd - fromStart);
    }
  }

  lemma RemapClampFlippedUnit(x: real, lo: real, hi: real)
    requires lo <= hi
    ensures 0.0 <= RemapClamp(x, lo, hi, 1.0, 0.0) <= 1.0
  {
    if lo < x < hi {
      UnitFraction(x - lo, hi - lo);
    }
  }

  lemma UnitFraction(num: real, den: real)
    requires 0.0 < num < den
    ensures 0.0 < num / den < 1.0
  {
    var q := num / den;
    assert q * den == num;
    if q >= 1.0 {
      MulNonNeg(q - 1.0, den);
    }
    if q <= 0.0 {
      MulNonNeg(-q, den);
    }
  }

  /**
   * `remap_clamp` into [0, 1] undoes `lerp` over the same range: the
   * position a fraction `t` along a non-empty range maps back to `t`,
   * whichever way the range points.
   */
  lemma RemapClampOfLerp(a: real, b: real, t: real)
    requires a != b && 0.0 <= t <= 1.0
    ensures RemapClamp(Lerp(a, b, t), a, b, 0.0, 1.0) == t
  {
    if a < b {
      RemapClampOfLerpForward(a, b, t);
    } else {
      RemapClampOfLerpBackward(b, a, t);
    }
  }

  lemma RemapClampOfLerpForward(a: real, b: real, t: real)
    requires a < b && 0.0 <= t <= 1.0
    ensures RemapClamp(Lerp(a, b, t), a, b, 0.0, 1.0) == t
  {
    var x := Lerp(a, b, t);
    var w := b - a;
    var up := t * w;
    LerpShift(a, b, t);
    assert x == a + up;
    if t == 0.0 {
      assert x == a;
    } else if t == 1.0 {
      assert x == b;
    } else {
      MulPos(t, w);
      MulPos(1.0 - t, w);
      assert (1.0 - t) * w == w - up;
      assert a < x < b;
      DivOfProduct(t, w);
      assert (x - a) / (b - a) == t;
      assert RemapClamp(x, a, b, 0.0, 1.0) == Lerp(0.0, 1.0, (x - a) / (b - a));
      LerpShift(0.0, 1.0, t);
    }
  }

  lemma RemapClampOfLerpBackward(lo: real, hi: real, t: real)
    requires lo < hi && 0.0 <= t <= 1.0
    ensures RemapClamp(Lerp(hi, lo, t), hi, lo, 0.0, 1.0) == t
  {
    var x := Lerp(hi, lo, t);
    var w := hi - lo;
    var u := 1.0 - t;
    var up := u * w;
    LerpShift(hi, lo, t);
    assert x == lo + up;
    if t == 0.0 {
      assert x == hi;
    } else if t == 1.0 {
      assert x == lo;
    } else {
      MulPos(u, w);
      MulPos(t, w);
      assert t * w == w - up;
      assert lo < x < hi;
      DivOfProduct(u, w);
      assert (x - lo) / (hi - lo) == u;
      assert RemapClamp(x, hi, lo, 0.0, 1.0) == RemapClamp(x, lo, hi, 1.0, 0.0);
      assert RemapClamp(x, lo, hi, 1.0, 0.0) == Lerp(1.0, 0.0, u);
      LerpShift(1.0, 0.0, u);
    }
  }

  /** `lerp` moves from `a` by the fraction `t` of the way to `b`. */
  lemma LerpShift(a: real, b: real, t: real)
    ensures Lerp(a, b, t) == a + t * (b - a)
  {
  }

  lemma MulPos(a: real, b: real)
    requires 0.0 < a && 0.0 < b
    ensures 0.0 < a * b
  {
  }

  lemma DivOfProduct(t: real, d: real)
    requires d != 0.0
    ensures (t * d) / d == t
  {
  }

  /** `lerp` undoes `remap_clamp` into [0, 1] for a point inside the range. */
  lemma LerpOfRemapClamp(x: real, a: real, b: real)
    requires a != b && Min(a, b) <= x <= Max(a, b)
    ensures Lerp(a, b, RemapClamp(x, a, b, 0.0, 1.0)) == x
  {
    if a < b {
      if a < x < b {
        var t := (x - a) / (b - a);
        assert t * (b - a) == x - a;
      }
    } else {
      if b < x < a {
        var u := (x - b) / (a - b);
        assert u * (a - b) == x - b;
        assert RemapClamp(x, a, b, 0.0, 1.0) == Lerp(1.0, 0.0, u);
      }
    }
  }
}
