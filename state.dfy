/**
 * src/state.rs: the ball as the application holds it. Its position is
 * measured from the bottom-left corner of the playing field, upwards;
 * it is drawn smaller the higher it is, and it is kept inside the field.
 */
module State {
  import opened Emath
  import Horizontal
  import Vertical

  /** The largest share of the radius that height takes away (`min_by.min(0.9)`). */
  const MaxShrink: real := 0.9

  /**
   * The perspective scale `1 - min(0.5 · y, 0.9)` with
   * y = max(height, 0) / max(sizeY, 0). When the field has no height the
   * quotient is infinite or NaN, and `f32::min` then yields 0.9.
   */
  function Scale(height: real, sizeY: real): (s: real)
    ensures 1.0 - MaxShrink <= s <= 1.0
    ensures height <= 0.0 && sizeY > 0.0 ==> s == 1.0
  {
    if sizeY <= 0.0 then 1.0 - MaxShrink
    else
      var y := Max(height, 0.0) / sizeY;
      assert y >= 0.0 by { DivNonNeg(Max(height, 0.0), sizeY); }
      1.0 - Min(0.5 * y, MaxShrink)
  }

  lemma DivNonNeg(a: real, b: real)
    requires a >= 0.0 && b > 0.0
    ensures a / b >= 0.0
  {
    var q := a / b;
    assert q * b == a;
    if q < 0.0 {
      MulNonNeg(-q, b);
    }
  }

  /** The higher of two heights never gets the larger scale. */
  lemma ScaleShrinks(low: real, high: real, sizeY: real)
    requires low <= high
    ensures Scale(high, sizeY) <= Scale(low, sizeY)
  {
    if sizeY > 0.0 {
      var a := Max(low, 0.0);
      var b := Max(high, 0.0);
      assert a <= b;
      DivNonNeg(b - a, sizeY);
      assert (b - a) / sizeY == b / sizeY - a / sizeY;
    }
  }

  /** A ball whose scale has bottomed out: at or above 1.8 times the field's height. */
  lemma ScaleFloor(height: real, sizeY: real)
    requires sizeY > 0.0 && height >= 1.8 * sizeY
    ensures Scale(height, sizeY) == 1.0 - MaxShrink
  {
    var y := height / sizeY;
    assert y * sizeY == height;
    if y < 1.8 {
      MulPos(1.8 - y, sizeY);
    }
  }

  lemma ScaledBetween(radius: real, scale: real)
    requires 1.0 - MaxShrink <= scale <= 1.0
    ensures radius >= 0.0 ==> (1.0 - MaxShrink) * radius <= radius * scale <= radius
    ensures scale == 1.0 ==> radius * scale == radius
  {
    if radius >= 0.0 {
      var shrink := 1.0 - scale;
      MulNonNeg(radius, shrink);
      assert radius * scale == radius - radius * shrink;
      var extra := scale - (1.0 - MaxShrink);
      MulNonNeg(radius, extra);
      assert radius * scale == (1.0 - MaxShrink) * radius + radius * extra;
    }
  }

  /** Where a ball at `pos` with radius `radius` is drawn inside `rect`, in screen coordinates (y downwards). */
  function ToScreen(pos: Pos2, radius: real, rect: Rect): Pos2
  {
    Vec2(pos.x + rect.min.x + radius, rect.max.y - radius - pos.y - 2.0)
  }

  /** The position of a ball with radius `radius` whose centre is at the screen point `p`. */
  function FromScreen(p: Pos2, radius: real, rect: Rect): Pos2
  {
    Vec2(p.x - rect.min.x - radius, rect.max.y - p.y - radius)
  }

  /**
   * Drawing a position and reading it back gives the same x, and a y that
   * is 2.0 higher: the drawing lifts the ball 2.0 off the bottom edge and
   * reading it back does not take that off again.
   */
  lemma ScreenRoundTrip(pos: Pos2, radius: real, rect: Rect)
    ensures FromScreen(ToScreen(pos, radius, rect), radius, rect) == Vec2(pos.x, pos.y + 2.0)
  {
  }

  /**
   * Reading a screen point back and drawing it with the same radius lands
   * 2.0 higher on the screen (screen y grows downwards).
   */
  lemma ScreenRoundTripBack(p: Pos2, radius: real, rect: Rect)
    ensures ToScreen(FromScreen(p, radius, rect), radius, rect) == Vec2(p.x, p.y - 2.0)
  {
  }

  class GLBBState {
    var pos: Pos2
    var originalRadius: real
    var size: Vec2
    var horizontal: Horizontal.HorizontalState
    var vertical: Vertical.VerticalState

    /** `GLBBState::default()`, with both motion clocks started at `now`. */
    constructor (now: real)
      ensures pos == Vec2(0.0, 0.0) && originalRadius == 0.0 && size == Vec2(0.0, 0.0)
      ensures fresh(horizontal) && fresh(vertical)
      ensures horizontal.Valid() && horizontal.play == Horizontal.None && horizontal.start == now
      ensures horizontal.duration == 0.0 && horizontal.velocity == 0.0 && horizontal.acceleration == 0.0
      ensures !vertical.play && vertical.start == now && vertical.direction == 0.0
      ensures vertical.accel == 0.0 && vertical.velocity == 0.0
      ensures !IsPlay()
    {
      pos := Vec2(0.0, 0.0);
      originalRadius := 0.0;
      size := Vec2(0.0, 0.0);
      horizontal := new Horizontal.HorizontalState(now);
      vertical := new Vertical.VerticalState(now);
    }

    /** The centre of the ball on the screen, for a field drawn in `rect`. */
    function PosToScreen(rect: Rect): (p: Pos2)
      reads this
      ensures p.x - rect.Left() == pos.x + Radius()
      ensures rect.Bottom() - p.y == pos.y + Radius() + 2.0
    {
      var radius := RadiusSize();
      ToScreen(pos, radius.x, rect)
    }

    /** The ball position whose centre is drawn at `p`, with the radius of the current position. */
    function PosFromScreen(rect: Rect, p: Pos2): (q: Pos2)
      reads this
      ensures q.x + Radius() == p.x - rect.Left()
      ensures q.y + Radius() == rect.Bottom() - p.y
    {
      var radius := RadiusSize();
      FromScreen(p, radius.y, rect)
    }

    /** The ball is moving while either motion is playing. */
    function IsPlay(): (r: bool)
      reads this, horizontal, vertical
      ensures r <==> horizontal.IsPlay() || vertical.IsPlay()
    {
      horizontal.IsPlay() || vertical.IsPlay()
    }

    /**
     * Keeps the ball inside the field: each coordinate goes into
     * [0, PosMax()], with PosMax() taken at the position before the clamp.
     */
    method Clamp()
      modifies this
      ensures 0.0 <= pos.x <= old(PosMax()).x && 0.0 <= pos.y <= old(PosMax()).y
      ensures pos == Vec2(Emath.Clamp(old(pos).x, 0.0, old(PosMax()).x),
                          Emath.Clamp(old(pos).y, 0.0, old(PosMax()).y))
      ensures 0.0 <= old(pos).x <= old(PosMax()).x && 0.0 <= old(pos).y <= old(PosMax()).y ==> pos == old(pos)
      ensures originalRadius == old(originalRadius) && size == old(size)
      ensures horizontal == old(horizontal) && vertical == old(vertical)
    {
      var hi := PosMax();
      pos := Vec2(Emath.Clamp(pos.x, 0.0, hi.x), Emath.Clamp(pos.y, 0.0, hi.y));
    }

    /** The drawn radius: the original radius scaled down with the height of the ball. */
    function Radius(): (r: real)
      reads this
      ensures originalRadius >= 0.0 ==> (1.0 - MaxShrink) * originalRadius <= r <= originalRadius
      ensures pos.y <= 0.0 && size.y > 0.0 ==> r == originalRadius
    {
      var scale := Scale(pos.y, size.y);
      var r := originalRadius * scale;
      ScaledBetween(originalRadius, scale);
      assert originalRadius >= 0.0 ==> (1.0 - MaxShrink) * originalRadius <= r <= originalRadius;
      r
    }

    /** The largest x that leaves room for the ball's diameter. */
    function PosXMax(): (r: real)
      reads this
      ensures r + 2.0 * Radius() == size.x
      ensures originalRadius >= 0.0 ==>
        size.x - 2.0 * originalRadius <= r <= size.x - 2.0 * (1.0 - MaxShrink) * originalRadius
    {
      size.x - Radius() * 2.0
    }

    /** The largest y that leaves room for the ball's diameter. */
    function PosYMax(): (r: real)
      reads this
      ensures r + 2.0 * Radius() == size.y
      ensures originalRadius >= 0.0 ==>
        size.y - 2.0 * originalRadius <= r <= size.y - 2.0 * (1.0 - MaxShrink) * originalRadius
    {
      size.y - Radius() * 2.0
    }

    /** The upper corner of the positions the ball may take; never below (1, 1). */
    function PosMax(): (r: Vec2)
      reads this
      ensures r.x >= 1.0 && r.y >= 1.0
      ensures r.x == Max(PosXMax(), 1.0) && r.y == Max(PosYMax(), 1.0)
    {
      var radius := RadiusSize();
      Vec2(Max(size.x - radius.x * 2.0, 1.0), Max(size.y - radius.y * 2.0, 1.0))
    }

    /** The radius as a vector with both components equal. */
    function RadiusSize(): (r: Vec2)
      reads this
      ensures r.x == Radius() && r.y == Radius()
    {
      Vec2(Radius(), Radius())
    }
  }
}
