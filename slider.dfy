/**
 * The value conversions of the slider widget in src/slider.rs: a value in
 * the slider's range is shown at a position along its rail, through a
 * normalized fraction in [0, 1]. Ranges may be reversed (start > end);
 * only the linear mapping is reachable, since the slider is never made
 * logarithmic.
 */
module Sliders {
  import opened Emath

  datatype Orientation = Horizontal | Vertical

  /** The part of a slider the conversions read: its value range and its orientation. */
  datatype Slider = Slider(rangeStart: real, rangeEnd: real, orientation: Orientation)

  /** An inclusive range of screen coordinates, `start..=end`; `end` may be the smaller. */
  datatype Span = Span(start: real, end: real)

  /**
   * `value_from_normalized`: the value a fraction `normalized` of the way
   * from `min` to `max`. A reversed range is handled by flipping both the
   * range and the fraction; the fraction is clamped to [0, 1].
   */
  function ValueFromNormalized(normalized: real, min: real, max: real): (r: real)
    ensures Emath.Min(min, max) <= r <= Emath.Max(min, max)
    ensures normalized <= 0.0 ==> r == min
    ensures normalized >= 1.0 ==> r == max
    decreases if min > max then 1 else 0
  {
    if min == max then min
    else if min > max then ValueFromNormalized(1.0 - normalized, max, min)
    else if normalized <= 0.0 then min
    else if normalized >= 1.0 then max
    else
      var t := Clamp(normalized, 0.0, 1.0);
      LerpBetween(min, max, t);
      Lerp(min, max, t)
  }

  /**
   * Whichever way the range points, `value_from_normalized` is `lerp` over
   * it at the clamped fraction.
   */
  lemma ValueFromNormalizedIsLerp(normalized: real, min: real, max: real)
    ensures ValueFromNormalized(normalized, min, max) == Lerp(min, max, Clamp(normalized, 0.0, 1.0))
  {
    var t := Clamp(normalized, 0.0, 1.0);
    if min > max {
      assert Clamp(1.0 - normalized, 0.0, 1.0) == 1.0 - t;
      assert Lerp(max, min, 1.0 - t) == Lerp(min, max, t);
    }
  }

  /** Reversing the range and the fraction together changes nothing. */
  lemma ValueFromNormalizedFlip(normalized: real, min: real, max: real)
    ensures ValueFromNormalized(normalized, min, max) == ValueFromNormalized(1.0 - normalized, max, min)
  {
    ValueFromNormalizedIsLerp(normalized, min, max);
    ValueFromNormalizedIsLerp(1.0 - normalized, max, min);
    assert Clamp(1.0 - normalized, 0.0, 1.0) == 1.0 - Clamp(normalized, 0.0, 1.0);
  }

  /**
   * `normalized_from_value`: how far along the range `value` lies, clamped
   * to [0, 1]. An empty range puts every value in the middle; a reversed
   * range counts from its end.
   */
  function NormalizedFromValue(value: real, min: real, max: real): (r: real)
    ensures 0.0 <= r <= 1.0
    ensures min == max ==> r == 0.5
    ensures min != max && value == min ==> r == 0.0
    ensures min != max && value == max ==> r == 1.0
    decreases if min > max then 1 else 0
  {
    if min == max then 0.5
    else if min > max then 1.0 - NormalizedFromValue(value, max, min)
    else if value <= min then 0.0
    else if value >= max then 1.0
    else
      RemapClampUnit(value, min, max);
      RemapClamp(value, min, max, 0.0, 1.0)
  }

  /** Whichever way a non-empty range points, `normalized_from_value` is `remap_clamp` from it onto [0, 1]. */
  lemma NormalizedFromValueIsRemapClamp(value: real, min: real, max: real)
    requires min != max
    ensures NormalizedFromValue(value, min, max) == RemapClamp(value, min, max, 0.0, 1.0)
  {
    if min > max {
      if max < value < min {
        var t := (value - max) / (min - max);
        assert RemapClamp(value, min, max, 0.0, 1.0) == Lerp(1.0, 0.0, t);
      }
    }
  }

  /** A fraction in [0, 1] survives the trip to a value and back, for any non-empty range. */
  lemma NormalizedRoundTrip(normalized: real, min: real, max: real)
    requires min != max && 0.0 <= normalized <= 1.0
    ensures NormalizedFromValue(ValueFromNormalized(normalized, min, max), min, max) == normalized
  {
    ValueFromNormalizedIsLerp(normalized, min, max);
    NormalizedFromValueIsRemapClamp(ValueFromNormalized(normalized, min, max), min, max);
    RemapClampOfLerp(min, max, normalized);
  }

  /** A value inside a non-empty range survives the trip to a fraction and back. */
  lemma ValueRoundTrip(value: real, min: real, max: real)
    requires min != max && Emath.Min(min, max) <= value <= Emath.Max(min, max)
    ensures ValueFromNormalized(NormalizedFromValue(value, min, max), min, max) == value
  {
    var n := NormalizedFromValue(value, min, max);
    NormalizedFromValueIsRemapClamp(value, min, max);
    ValueFromNormalizedIsLerp(n, min, max);
    LerpOfRemapClamp(value, min, max);
  }

  /** The handle's radius: the rail's cross-axis extent divided by 2.5. */
  function HandleRadius(slider: Slider, rect: Rect): (r: real)
    ensures slider.orientation.Horizontal? ==> r * 2.5 == rect.Height()
    ensures slider.orientation.Vertical? ==> r * 2.5 == rect.Width()
  {
    var limit := match slider.orientation
      case Horizontal => rect.Height()
      case Vertical => rect.Width();
    limit / 2.5
  }

  /**
   * The screen positions the handle's centre travels between: the rail
   * inset by the handle radius at both ends, left to right for a
   * horizontal slider and bottom to top for a vertical one.
   */
  function PositionRange(slider: Slider, rect: Rect): (r: Span)
    ensures slider.orientation.Horizontal? ==>
      r.start - rect.Left() == HandleRadius(slider, rect) && rect.Right() - r.end == HandleRadius(slider, rect)
    ensures slider.orientation.Vertical? ==>
      rect.Bottom() - r.start == HandleRadius(slider, rect) && r.end - rect.Top() == HandleRadius(slider, rect)
  {
    var handleRadius := HandleRadius(slider, rect);
    match slider.orientation
    case Horizontal => Span(rect.Left() + handleRadius, rect.Right() - handleRadius)
    case Vertical => Span(rect.Bottom() - handleRadius, rect.Top() + handleRadius)
  }

  /**
   * The value shown at screen position `position`: the position is clamped
   * to the span, so the value never leaves the slider's range.
   */
  function ValueFromPosition(slider: Slider, position: real, positionRange: Span): (r: real)
    ensures Emath.Min(slider.rangeStart, slider.rangeEnd) <= r <= Emath.Max(slider.rangeStart, slider.rangeEnd)
  {
    var normalized := RemapClamp(position, positionRange.start, positionRange.end, 0.0, 1.0);
    ValueFromNormalized(normalized, slider.rangeStart, slider.rangeEnd)
  }

  /** The screen position at which `value` is shown: always within the span. */
  function PositionFromValue(slider: Slider, value: real, positionRange: Span): (r: real)
    ensures Emath.Min(positionRange.start, positionRange.end) <= r <= Emath.Max(positionRange.start, positionRange.end)
  {
    var normalized := NormalizedFromValue(value, slider.rangeStart, slider.rangeEnd);
    LerpBetween(positionRange.start, positionRange.end, normalized);
    Lerp(positionRange.start, positionRange.end, normalized)
  }

  /** The two ends of the span show the two ends of the slider's range. */
  lemma PositionEnds(slider: Slider, positionRange: Span)
    requires positionRange.start != positionRange.end
    ensures ValueFromPosition(slider, positionRange.start, positionRange) == slider.rangeStart
    ensures ValueFromPosition(slider, positionRange.end, positionRange) == slider.rangeEnd
  {
    RemapClampOfLerp(positionRange.start, positionRange.end, 0.0);
    RemapClampOfLerp(positionRange.start, positionRange.end, 1.0);
    assert Lerp(positionRange.start, positionRange.end, 0.0) == positionRange.start;
    assert Lerp(positionRange.start, positionRange.end, 1.0) == positionRange.end;
  }

  /**
   * A value inside a non-empty range is read back unchanged from the
   * position it is shown at, whenever the span is not a single point.
   */
  lemma PositionRoundTrip(slider: Slider, value: real, positionRange: Span)
    requires slider.rangeStart != slider.rangeEnd
    requires Emath.Min(slider.rangeStart, slider.rangeEnd) <= value <= Emath.Max(slider.rangeStart, slider.rangeEnd)
    requires positionRange.start != positionRange.end
    ensures ValueFromPosition(slider, PositionFromValue(slider, value, positionRange), positionRange) == value
  {
    var n := NormalizedFromValue(value, slider.rangeStart, slider.rangeEnd);
    RemapClampOfLerp(positionRange.start, positionRange.end, n);
    ValueRoundTrip(value, slider.rangeStart, slider.rangeEnd);
  }

  /** A position inside the span is shown back at the same place once its value is taken. */
  lemma ValuePositionRoundTrip(slider: Slider, position: real, positionRange: Span)
    requires slider.rangeStart != slider.rangeEnd
    requires positionRange.start != positionRange.end
    requires Emath.Min(positionRange.start, positionRange.end) <= position <= Emath.Max(positionRange.start, positionRange.end)
    ensures PositionFromValue(slider, ValueFromPosition(slider, position, positionRange), positionRange) == position
  {
    var n := RemapClamp(position, positionRange.start, positionRange.end, 0.0, 1.0);
    RemapClampUnit(position, positionRange.start, positionRange.end);
    NormalizedRoundTrip(n, slider.rangeStart, slider.rangeEnd);
    LerpOfRemapClamp(position, positionRange.start, positionRange.end);
  }

  /**
   * The handle stays on the rail: on a horizontal slider at least as long
   * as the handle is wide, the handle drawn at any value's position lies
   * between the rail's left and right edges.
   */
  lemma HandleInsideRail(slider: Slider, rect: Rect, value: real)
    requires slider.orientation.Horizontal?
    requires rect.Width() >= 2.0 * HandleRadius(slider, rect)
    ensures
      var p := PositionFromValue(slider, value, PositionRange(slider, rect));
      rect.Left() <= p - HandleRadius(slider, rect) && p + HandleRadius(slider, rect) <= rect.Right()
  {
  }

  /** On a vertical slider taller than its handle the value grows upwards: the range's start is at the bottom. */
  lemma VerticalRunsUpwards(slider: Slider, rect: Rect)
    requires slider.orientation.Vertical?
    requires rect.Height() > 2.0 * HandleRadius(slider, rect)
    ensures PositionRange(slider, rect).end < PositionRange(slider, rect).start
  {
  }
}
