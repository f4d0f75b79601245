/**
 * src/formula.rs: the two closed-form constant-acceleration formulas and
 * the integer midpoint circle rasteriser.
 */
module Formula {

  /** Displacement after `time` from initial `velocity` under constant `acceleration`. */
  function CalculateDistance(velocity: real, acceleration: real, time: real): (r: real)
    ensures time == 0.0 ==> r == 0.0
    // the displacement is the time multiplied by the mean of the start and end velocity
    ensures r == time * (velocity + CalculateVelocity(velocity, acceleration, time)) / 2.0
  {
    velocity * time + 0.5 * acceleration * (time * time)
  }

  /** Velocity after `time` from initial `velocity` under constant `acceleration`. */
  function CalculateVelocity(velocity: real, acceleration: real, time: real): (r: real)
    ensures time == 0.0 ==> r == velocity
    ensures acceleration > 0.0 && time > 0.0 ==> r > velocity
    ensures acceleration < 0.0 && time > 0.0 ==> r < velocity
  {
    velocity + acceleration * time
  }

  /**
   * The formulas describe one motion: advancing by t1 and then, from the
   * velocity reached, by t2 is the same as advancing by t1 + t2.
   */
  lemma MotionComposes(velocity: real, acceleration: real, t1: real, t2: real)
    ensures CalculateVelocity(CalculateVelocity(velocity, acceleration, t1), acceleration, t2)
         == CalculateVelocity(velocity, acceleration, t1 + t2)
    ensures CalculateDistance(velocity, acceleration, t1)
          + CalculateDistance(CalculateVelocity(velocity, acceleration, t1), acceleration, t2)
         == CalculateDistance(velocity, acceleration, t1 + t2)
  {
    var v1 := CalculateVelocity(velocity, acceleration, t1);
    assert v1 * t2 == velocity * t2 + acceleration * t1 * t2;
    assert (t1 + t2) * (t1 + t2) == t1 * t1 + 2.0 * t1 * t2 + t2 * t2;
  }

  // ---------------------------------------------------------------------
  // Midpoint circle (`mid_point`). `usize` coordinates are naturals; the
  // closure `x_y` subtracts with `checked_sub(..).unwrap()`, which panics
  // below zero, so its callers must keep the offsets within the centre.

  datatype Point = Point(x: int, y: int)

  /** The closure `x_y`: the four reflections of offset (x, y) about the centre. */
  function XY(xCenter: nat, yCenter: nat, x: nat, y: nat): (r: seq<Point>)
    requires x <= xCenter && y <= yCenter
    ensures |r| == 4
    ensures forall i :: 0 <= i < 4 ==> 0 <= r[i].x && 0 <= r[i].y
    ensures forall i :: 0 <= i < 4 ==>
      Dist(r[i].x, xCenter) == x && Dist(r[i].y, yCenter) == y
  {
    [ Point(xCenter + x, yCenter + y),
      Point(xCenter - x, yCenter + y),
      Point(xCenter + x, yCenter - y),
      Point(xCenter - x, yCenter - y) ]
  }

  function Dist(a: int, b: int): nat { if a >= b then a - b else b - a }

  function MaxNat(a: nat, b: nat): nat { if a >= b then a else b }

  /**
   * A point of the raster for radius `r`: within the bounding square, and
   * with r² - m <= dx² + dy² <= r² + m where m is the larger offset, i.e.
   * the true circle passes within half a unit of it along its major axis.
   */
  ghost predicate OnRaster(p: Point, xCenter: nat, yCenter: nat, radius: nat)
  {
    var dx := Dist(p.x, xCenter);
    var dy := Dist(p.y, yCenter);
    0 <= p.x && 0 <= p.y && dx <= radius && dy <= radius &&
    radius * radius - MaxNat(dx, dy) <= dx * dx + dy * dy <= radius * radius + MaxNat(dx, dy)
  }

  function MirrorX(p: Point, xCenter: nat): Point { Point(2 * xCenter - p.x, p.y) }

  function MirrorY(p: Point, yCenter: nat): Point { Point(p.x, 2 * yCenter - p.y) }

  function SwapAxes(p: Point, xCenter: nat, yCenter: nat): Point
  {
    Point(xCenter + (p.y - yCenter), yCenter + (p.x - xCenter))
  }

  /**
   * The point set has the eight-fold symmetry of a circle: it is closed
   * under mirroring in both axes through the centre and under swapping
   * the two axes.
   */
  ghost predicate Symmetric(pts: seq<Point>, xCenter: nat, yCenter: nat)
  {
    forall p :: p in pts ==>
      MirrorX(p, xCenter) in pts && MirrorY(p, yCenter) in pts &&
      SwapAxes(p, xCenter, yCenter) in pts
  }

  /** A point the octant loop emits: on the raster and on neither axis through the centre. */
  ghost predicate OffAxis(q: Point, xCenter: nat, yCenter: nat, radius: nat)
  {
    OnRaster(q, xCenter, yCenter, radius) && q.x != xCenter && q.y != yCenter
  }

  /**
   * What the octant loop has appended: whole groups of four points, each
   * on the raster and off both axes, closed under the circle's symmetries.
   */
  ghost predicate Traced(tail: seq<Point>, xCenter: nat, yCenter: nat, radius: nat)
  {
    |tail| % 4 == 0 &&
    (forall q :: q in tail ==> OffAxis(q, xCenter, yCenter, radius)) &&
    Symmetric(tail, xCenter, yCenter)
  }

  /**
   * The octant walk of `mid_point`: `columns[k]` is the column the loop
   * reaches in row k + 1. It starts at the radius, moves at most one column
   * inwards per row, and ends where the loop stops.
   */
  ghost predicate Walk(columns: seq<nat>, radius: nat)
  {
    WalkSoFar(columns, radius) && Exit(columns, radius)
  }

  /**
   * Where the loop stops: the last row is on the diagonal, or one column
   * before it when the diagonal point of the next row lies outside the band.
   */
  ghost predicate Exit(columns: seq<nat>, radius: nat)
  {
    var n := |columns|;
    n >= 1 &&
    (columns[n - 1] == n || (columns[n - 1] == n + 1 && !Band(n + 1, n + 1, radius)))
  }

  /**
   * Every row of the walk is drawn: for row k + 1 the point at column
   * `columns[k]` to the right of and above the centre is in `pts`, within
   * the first octant and within half a pixel of the circle.
   */
  ghost predicate Covers(pts: seq<Point>, columns: seq<nat>, xCenter: nat, yCenter: nat, radius: nat)
  {
    forall k :: 0 <= k < |columns| ==>
      k + 1 <= columns[k] && Band(columns[k], k + 1, radius) &&
      Point(xCenter + columns[k], yCenter + k + 1) in pts
  }

  /** Every point (columns[k], k + 1) of the walk lies in the first octant, within the radius. */
  ghost predicate InOctant(columns: seq<nat>, radius: nat)
  {
    forall k :: 0 <= k < |columns| ==> k + 1 <= columns[k] <= radius
  }

  /**
   * Every point (columns[k], k + 1) of the walk lies within half a pixel of
   * the circle; stated row by row from the last one.
   */
  ghost predicate Banded(columns: seq<nat>, radius: nat)
    decreases |columns|
  {
    columns == [] ||
    (Banded(columns[..|columns| - 1], radius) && Band(columns[|columns| - 1], |columns|, radius))
  }

  /**
   * What one round of the loop appends for the point (x, y) it reaches:
   * the group `x_y(x, y)`, followed by `x_y(y, x)` off the diagonal.
   */
  ghost function RowGroup(xCenter: nat, yCenter: nat, x: nat, y: nat): (r: seq<Point>)
    requires x <= xCenter && x <= yCenter && y <= xCenter && y <= yCenter
    ensures |r| == (if x != y then 8 else 4)
  {
    var g := XY(xCenter, yCenter, x, y);
    if x != y then g + XY(xCenter, yCenter, y, x) else g
  }

  /** The groups of the walk `columns`, row by row, each appended once. */
  ghost function Groups(xCenter: nat, yCenter: nat, radius: nat, columns: seq<nat>): (r: seq<Point>)
    requires radius <= xCenter && radius <= yCenter && InOctant(columns, radius)
    decreases |columns|
  {
    if columns == [] then []
    else
      var n := |columns|;
      var front := Groups(xCenter, yCenter, radius, columns[..n - 1]);
      front + RowGroup(xCenter, yCenter, columns[n - 1], n)
  }

  /** Extending the walk by one row appends exactly that row's group. */
  lemma GroupsStep(xCenter: nat, yCenter: nat, radius: nat, columns: seq<nat>, x: nat)
    requires radius <= xCenter && radius <= yCenter && InOctant(columns, radius)
    requires |columns| + 1 <= x <= radius
    ensures InOctant(columns + [x], radius)
    ensures Groups(xCenter, yCenter, radius, columns + [x])
         == Groups(xCenter, yCenter, radius, columns) + RowGroup(xCenter, yCenter, x, |columns| + 1)
  {
    var c := columns + [x];
    assert c[..|c| - 1] == columns;
  }

  /**
   * The state of the octant walk after some rows: the columns chosen so far
   * form a walk inside the octant and the band, the last of them is `x`,
   * and the points drawn are the opening group followed by exactly the
   * groups of those rows.
   */
  ghost predicate Traversal(xCenter: nat, yCenter: nat, radius: nat, head: seq<Point>,
                            columns: seq<nat>, points: seq<Point>, x: nat)
  {
    radius <= xCenter && radius <= yCenter &&
    InOctant(columns, radius) && Banded(columns, radius) &&
    points == head + Groups(xCenter, yCenter, radius, columns) &&
    (columns == [] ==> x == radius) &&
    (columns != [] ==> columns[|columns| - 1] == x && WalkSoFar(columns, radius))
  }

  /** Drawing the group of the next row, at a column the walk may take, keeps the traversal. */
  lemma RowStep(xCenter: nat, yCenter: nat, radius: nat, head: seq<Point>,
                columns: seq<nat>, points: seq<Point>, x0: nat, x: nat)
    requires Traversal(xCenter, yCenter, radius, head, columns, points, x0)
    requires |columns| + 1 <= x <= radius && Band(x, |columns| + 1, radius)
    requires x == x0 || x + 1 == x0
    ensures Traversal(xCenter, yCenter, radius, head, columns + [x],
                      points + RowGroup(xCenter, yCenter, x, |columns| + 1), x)
  {
    WalkStep(columns, radius, x0, x);
    GroupsStep(xCenter, yCenter, radius, columns, x);
    BandedStep(columns, radius, x);
    ConcatAssociates(head, Groups(xCenter, yCenter, radius, columns), RowGroup(xCenter, yCenter, x, |columns| + 1));
  }

  /**
   * The `while x > y` loop of `mid_point`: walks the octant from (r, 0)
   * towards the diagonal, and appends the reflections of every point it
   * reaches to `head`; `tail` is what it appended and `columns` the walk.
   */
  method TraceOctants(xCenter: nat, yCenter: nat, radius: nat, head: seq<Point>)
    returns (points: seq<Point>, ghost tail: seq<Point>, ghost columns: seq<nat>)
    requires radius <= xCenter && radius <= yCenter
    ensures points == head + tail
    ensures radius == 0 ==> tail == [] && columns == []
    ensures InOctant(columns, radius) && tail == Groups(xCenter, yCenter, radius, columns)
    ensures Traced(tail, xCenter, yCenter, radius)
    ensures radius > 0 ==> Walk(columns, radius)
    ensures Covers(tail, columns, xCenter, yCenter, radius)
  {
    var x: nat := radius;
    var y: nat := 0;
    points, columns := head, [];
    var p: int := 1 - radius;
    while x > y
      invariant y <= x <= radius
      invariant Decision(p, x, y, radius)
      invariant radius > 0 ==> Band(x, y, radius)
      invariant radius == 0 ==> columns == []
      invariant |columns| == y && Traversal(xCenter, yCenter, radius, head, columns, points, x)
      decreases x - y
    {
      ghost var x0, p0 := x, p;
      y := y + 1;
      if p <= 0 {
        p := p + 2 * y + 1;
      } else {
        x := x - 1;
        p := p + 2 * y - 2 * x + 1;
      }
      DecisionStep(x0, y - 1, p0, radius, x, y, p);

      if x < y {
        StopsBeforeDiagonal(x0, y - 1, p0, radius);
        break;
      }

      var group := XY(xCenter, yCenter, x, y);
      if x != y {
        group := group + XY(xCenter, yCenter, y, x);
      }
      assert group == RowGroup(xCenter, yCenter, x, y);
      RowStep(xCenter, yCenter, radius, head, columns, points, x0, x);
      points, columns := points + group, columns + [x];
    }
    tail := Groups(xCenter, yCenter, radius, columns);
    GroupsTraced(xCenter, yCenter, radius, columns);
  }

  lemma ConcatAssociates(a: seq<Point>, b: seq<Point>, c: seq<Point>)
    ensures (a + b) + c == a + (b + c)
  {
  }

  lemma DropPrefix(a: seq<Point>, b: seq<Point>)
    ensures (a + b)[|a|..] == b
  {
  }

  /** A next row within half a pixel of the circle keeps the walk within it. */
  lemma BandedStep(columns: seq<nat>, radius: nat, x: nat)
    requires Banded(columns, radius) && Band(x, |columns| + 1, radius)
    ensures Banded(columns + [x], radius)
  {
    var c := columns + [x];
    assert c[..|c| - 1] == columns;
  }

  /**
   * The groups of a walk in the octant are traced, and cover every row of
   * the walk.
   */
  lemma {:induction false} GroupsTraced(xCenter: nat, yCenter: nat, radius: nat, columns: seq<nat>)
    requires radius <= xCenter && radius <= yCenter && InOctant(columns, radius) && Banded(columns, radius)
    ensures Traced(Groups(xCenter, yCenter, radius, columns), xCenter, yCenter, radius)
    ensures Covers(Groups(xCenter, yCenter, radius, columns), columns, xCenter, yCenter, radius)
    decreases |columns|
  {
    if columns != [] {
      var n := |columns|;
      var front := columns[..n - 1];
      var x, y := columns[n - 1], n;
      assert InOctant(front, radius) && Banded(front, radius);
      GroupsTraced(xCenter, yCenter, radius, front);
      var done := Groups(xCenter, yCenter, radius, front);
      var group := RowGroup(xCenter, yCenter, x, y);
      GroupTraced(xCenter, yCenter, x, y, radius);
      AppendGroup(done, group, xCenter, yCenter, radius);
      CoversStep(done, group, front, xCenter, yCenter, radius, x, y);
      assert front + [x] == columns;
    }
  }

  /** The walk up to the current row: from the radius, at most one column inwards per row. */
  ghost predicate WalkSoFar(columns: seq<nat>, radius: nat)
  {
    |columns| >= 1 && columns[0] == radius &&
    forall k :: 1 <= k < |columns| ==> columns[k] == columns[k - 1] || columns[k] + 1 == columns[k - 1]
  }

  /** Extending the walk by the column of the next row keeps it a walk. */
  lemma WalkStep(columns: seq<nat>, radius: nat, x0: nat, x: nat)
    requires columns == [] ==> x == radius
    requires columns != [] ==> WalkSoFar(columns, radius) && columns[|columns| - 1] == x0
    requires x == x0 || x + 1 == x0
    ensures WalkSoFar(columns + [x], radius)
  {
    var c := columns + [x];
    forall k | 1 <= k < |c|
      ensures c[k] == c[k - 1] || c[k] + 1 == c[k - 1]
    {
      if k < |columns| {
        assert c[k] == columns[k] && c[k - 1] == columns[k - 1];
      }
    }
  }

  /** Appending the group of the next row's point covers that row too. */
  lemma CoversStep(tail: seq<Point>, group: seq<Point>, columns: seq<nat>,
                   xCenter: nat, yCenter: nat, radius: nat, x: nat, y: nat)
    requires Covers(tail, columns, xCenter, yCenter, radius)
    requires |group| >= 1 && group[0] == Point(xCenter + x, yCenter + y)
    requires y == |columns| + 1 && y <= x && Band(x, y, radius)
    ensures Covers(tail + group, columns + [x], xCenter, yCenter, radius)
  {
    var all := tail + group;
    CoversIn(tail, all, 0, columns, xCenter, yCenter, radius);
    assert all[|tail|] == group[0];
    var c := columns + [x];
    forall k | 0 <= k < |c|
      ensures k + 1 <= c[k] && Band(c[k], k + 1, radius) && Point(xCenter + c[k], yCenter + k + 1) in all
    {
      if k < |columns| {
        assert c[k] == columns[k];
      }
    }
  }

  /** Whatever holds a covering part at `offset` covers the same rows. */
  lemma CoversIn(part: seq<Point>, all: seq<Point>, offset: nat, columns: seq<nat>,
                 xCenter: nat, yCenter: nat, radius: nat)
    requires Covers(part, columns, xCenter, yCenter, radius)
    requires offset + |part| <= |all| && all[offset..offset + |part|] == part
    ensures Covers(all, columns, xCenter, yCenter, radius)
  {
    forall k | 0 <= k < |columns|
      ensures Point(xCenter + columns[k], yCenter + k + 1) in all
    {
      var m := Point(xCenter + columns[k], yCenter + k + 1);
      var i :| 0 <= i < |part| && part[i] == m;
      assert all[offset + i] == m;
    }
  }

  /** The decision variable of the midpoint loop at (x, y), for the next row y + 1. */
  ghost predicate Decision(p: int, x: nat, y: nat, radius: nat)
  {
    p == (y + 1) * (y + 1) + x * x - x - radius * radius
  }

  /**
   * The loop leaves the octant (x0 - 1 < y0 + 1) only from the row just
   * below the diagonal, and only when the diagonal point of the next row is
   * outside the band.
   */
  lemma StopsBeforeDiagonal(x0: nat, y0: nat, p0: int, radius: nat)
    requires y0 < x0 && Decision(p0, x0, y0, radius) && p0 > 0 && x0 - 1 < y0 + 1
    ensures x0 == y0 + 1 && !Band(x0, x0, radius)
  {
    assert (y0 + 1) * (y0 + 1) == x0 * x0;
  }

  /**
   * The band rows tile the integers: for each row there is at most one
   * column within half a pixel of the circle.
   */
  lemma BandUnique(x1: nat, x2: nat, y: nat, radius: nat)
    requires Band(x1, y, radius) && Band(x2, y, radius)
    ensures x1 == x2
  {
    BandOrdered(x1, x2, y, radius);
    BandOrdered(x2, x1, y, radius);
  }

  /**
   * Band(x, y, r) says r² - y² lies in [x² - x, x² + x), and these intervals
   * follow one another as x grows.
   */
  lemma BandOrdered(x1: nat, x2: nat, y: nat, radius: nat)
    requires Band(x1, y, radius) && Band(x2, y, radius)
    ensures x1 <= x2
  {
    var d := x1 - x2 - 1;
    assert d * (x1 + x2) == x1 * x1 - x1 - (x2 * x2 + x2);
    NegativeFactor(d, x1 + x2);
  }

  lemma NegativeFactor(a: int, b: nat)
    requires a * b < 0
    ensures a < 0
  {
  }

  /** A banded walk is within the band at every row. */
  lemma {:induction false} BandedAt(columns: seq<nat>, radius: nat, k: nat)
    requires Banded(columns, radius) && k < |columns|
    ensures Band(columns[k], k + 1, radius)
    decreases |columns|
  {
    if k < |columns| - 1 {
      var front := columns[..|columns| - 1];
      BandedAt(front, radius, k);
      assert front[k] == columns[k];
    }
  }

  /** A walk that agrees with a stopped walk on its rows cannot go on past it. */
  lemma WalkNotExtended(a: seq<nat>, b: seq<nat>, radius: nat)
    requires Walk(a, radius)
    requires InOctant(b, radius) && Banded(b, radius) && WalkSoFar(b, radius)
    requires forall k :: 0 <= k < |a| && k < |b| ==> a[k] == b[k]
    ensures |b| <= |a|
  {
    var n := |a|;
    if |b| > n {
      assert false;
    }
  }

  /**
   * The walk is determined by the radius: two walks inside the octant and
   * the band that stop where the loop stops are the same walk.
   */
  lemma WalkDetermined(a: seq<nat>, b: seq<nat>, radius: nat)
    requires InOctant(a, radius) && Banded(a, radius) && Walk(a, radius)
    requires InOctant(b, radius) && Banded(b, radius) && Walk(b, radius)
    ensures a == b
  {
    forall k | 0 <= k < |a| && k < |b|
      ensures a[k] == b[k]
    {
      BandedAt(a, radius, k);
      BandedAt(b, radius, k);
      BandUnique(a[k], b[k], k + 1, radius);
    }
    WalkNotExtended(a, b, radius);
    WalkNotExtended(b, a, radius);
  }

  /** (x, y) lies within half a pixel of the circle of radius `radius`. */
  ghost predicate Band(x: nat, y: nat, radius: nat)
  {
    radius * radius - x < x * x + y * y <= radius * radius + x
  }

  /**
   * One iteration of the decision variable: `p` stays equal to
   * (y+1)² + x² - x - r², and the point reached keeps its error term
   * x² + y² - r² within (-x, x].
   */
  lemma DecisionStep(x0: nat, y0: nat, p0: int, radius: nat, x: nat, y: nat, p: int)
    requires y0 < x0 <= radius
    requires Decision(p0, x0, y0, radius)
    requires Band(x0, y0, radius)
    requires y == y0 + 1
    requires p0 <= 0 ==> x == x0 && p == p0 + 2 * y + 1
    requires p0 > 0 ==> x == x0 - 1 && p == p0 + 2 * y - 2 * x + 1
    ensures Decision(p, x, y, radius)
    ensures x >= y ==> Band(x, y, radius)
  {
    assert y * y == y0 * y0 + 2 * y0 + 1;
    assert (y + 1) * (y + 1) == y * y + 2 * y + 1;
    if p0 > 0 {
      assert x0 * x0 == x * x + 2 * x + 1;
    }
  }

  /** The group appended for a point (x, y) of the octant has the circle's symmetry. */
  lemma GroupSymmetric(xCenter: nat, yCenter: nat, x: nat, y: nat)
    requires 1 <= y <= x <= xCenter && x <= yCenter
    ensures
      var g := XY(xCenter, yCenter, x, y);
      Symmetric(if x != y then g + XY(xCenter, yCenter, y, x) else g, xCenter, yCenter)
  {
    var g := XY(xCenter, yCenter, x, y);
    var h := XY(xCenter, yCenter, y, x);
    XYMirrored(xCenter, yCenter, x, y);
    XYMirrored(xCenter, yCenter, y, x);
    XYSwapped(xCenter, yCenter, x, y);
    XYSwapped(xCenter, yCenter, y, x);
    if x == y {
      assert g == h;
    } else {
      forall q | q in g + h
        ensures MirrorX(q, xCenter) in g + h && MirrorY(q, yCenter) in g + h &&
                SwapAxes(q, xCenter, yCenter) in g + h
      {
        assert q in g || q in h;
      }
    }
  }

  /** The group appended for a point (x, y) of the octant lies on the raster. */
  lemma GroupOffAxis(xCenter: nat, yCenter: nat, x: nat, y: nat, radius: nat)
    requires 1 <= y <= x <= radius <= xCenter && radius <= yCenter
    requires Band(x, y, radius)
    ensures
      var g := XY(xCenter, yCenter, x, y);
      forall q :: q in (if x != y then g + XY(xCenter, yCenter, y, x) else g) ==>
        OffAxis(q, xCenter, yCenter, radius)
  {
    var g := XY(xCenter, yCenter, x, y);
    var h := XY(xCenter, yCenter, y, x);
    XYOffAxis(xCenter, yCenter, x, y, radius, x, y);
    XYOffAxis(xCenter, yCenter, y, x, radius, x, y);
    assert forall q :: q in g + h ==> q in g || q in h;
  }

  /** The group appended for a point (x, y) of the octant is traced: four or eight raster points with the circle's symmetry. */
  lemma GroupTraced(xCenter: nat, yCenter: nat, x: nat, y: nat, radius: nat)
    requires 1 <= y <= x <= radius <= xCenter && radius <= yCenter
    requires Band(x, y, radius)
    ensures
      var g := XY(xCenter, yCenter, x, y);
      Traced(if x != y then g + XY(xCenter, yCenter, y, x) else g, xCenter, yCenter, radius)
  {
    GroupSymmetric(xCenter, yCenter, x, y);
    GroupOffAxis(xCenter, yCenter, x, y, radius);
  }

  /** Both groups of an octant point (x, y) lie on the raster, off both axes. */
  lemma XYOffAxis(xCenter: nat, yCenter: nat, a: nat, b: nat, radius: nat, x: nat, y: nat)
    requires 1 <= y <= x <= radius <= xCenter && radius <= yCenter
    requires (a == x && b == y) || (a == y && b == x)
    requires Band(x, y, radius)
    ensures forall q :: q in XY(xCenter, yCenter, a, b) ==> OffAxis(q, xCenter, yCenter, radius)
  {
    var g := XY(xCenter, yCenter, a, b);
    assert MaxNat(a, b) == x;
    assert a * a + b * b == x * x + y * y;
    forall i | 0 <= i < 4
      ensures OffAxis(g[i], xCenter, yCenter, radius)
    {
      assert Dist(g[i].x, xCenter) == a && Dist(g[i].y, yCenter) == b;
    }
  }

  /** Each group of `x_y` is closed under both mirrors. */
  lemma XYMirrored(xCenter: nat, yCenter: nat, x: nat, y: nat)
    requires x <= xCenter && y <= yCenter
    ensures forall p :: p in XY(xCenter, yCenter, x, y) ==>
      MirrorX(p, xCenter) in XY(xCenter, yCenter, x, y) &&
      MirrorY(p, yCenter) in XY(xCenter, yCenter, x, y)
  {
    var g := XY(xCenter, yCenter, x, y);
    assert MirrorX(g[0], xCenter) == g[1] && MirrorX(g[1], xCenter) == g[0];
    assert MirrorX(g[2], xCenter) == g[3] && MirrorX(g[3], xCenter) == g[2];
    assert MirrorY(g[0], yCenter) == g[2] && MirrorY(g[2], yCenter) == g[0];
    assert MirrorY(g[1], yCenter) == g[3] && MirrorY(g[3], yCenter) == g[1];
  }

  /** Swapping the axes maps the group of offset (x, y) onto that of (y, x). */
  lemma XYSwapped(xCenter: nat, yCenter: nat, x: nat, y: nat)
    requires x <= xCenter && y <= yCenter && y <= xCenter && x <= yCenter
    ensures forall p :: p in XY(xCenter, yCenter, x, y) ==>
      SwapAxes(p, xCenter, yCenter) in XY(xCenter, yCenter, y, x)
  {
    var g := XY(xCenter, yCenter, x, y);
    var h := XY(xCenter, yCenter, y, x);
    assert SwapAxes(g[0], xCenter, yCenter) == h[0];
    assert SwapAxes(g[1], xCenter, yCenter) == h[2];
    assert SwapAxes(g[2], xCenter, yCenter) == h[1];
    assert SwapAxes(g[3], xCenter, yCenter) == h[3];
  }

  /** Appending a traced group keeps the appended points traced. */
  lemma AppendGroup(tail: seq<Point>, group: seq<Point>, xCenter: nat, yCenter: nat, radius: nat)
    requires Traced(tail, xCenter, yCenter, radius)
    requires Traced(group, xCenter, yCenter, radius)
    ensures Traced(tail + group, xCenter, yCenter, radius)
  {
    var all := tail + group;
    FourfoldSum(|tail|, |group|);
    assert |all| % 4 == 0;
    forall q | q in all
      ensures OffAxis(q, xCenter, yCenter, radius)
      ensures MirrorX(q, xCenter) in all && MirrorY(q, yCenter) in all &&
              SwapAxes(q, xCenter, yCenter) in all
    {
      if q in tail {
        ImagesInPart(tail, all, 0, q, xCenter, yCenter, radius);
      } else {
        ImagesInPart(group, all, |tail|, q, xCenter, yCenter, radius);
      }
    }
  }

  lemma FourfoldSum(a: nat, b: nat)
    requires a % 4 == 0 && b % 4 == 0
    ensures (a + b) % 4 == 0
  {
    assert a + b == 4 * (a / 4 + b / 4);
  }

  /** The images of a point of a traced part are in any sequence that holds the part at `offset`. */
  lemma ImagesInPart(part: seq<Point>, all: seq<Point>, offset: nat, q: Point, xCenter: nat, yCenter: nat, radius: nat)
    requires Traced(part, xCenter, yCenter, radius) && q in part
    requires offset + |part| <= |all| && all[offset..offset + |part|] == part
    ensures OffAxis(q, xCenter, yCenter, radius)
    ensures MirrorX(q, xCenter) in all && MirrorY(q, yCenter) in all && SwapAxes(q, xCenter, yCenter) in all
  {
    var images := [MirrorX(q, xCenter), MirrorY(q, yCenter), SwapAxes(q, xCenter, yCenter)];
    forall m | m in images
      ensures m in all
    {
      assert m in part;
      var k :| 0 <= k < |part| && part[k] == m;
      assert all[offset + k] == m;
    }
  }

  /** The opening group (or the lone centre) lies on the raster. */
  lemma HeadOnRaster(xCenter: nat, yCenter: nat, radius: nat, head: seq<Point>)
    requires radius <= xCenter && radius <= yCenter
    requires forall q :: q in head ==>
      (q.x == xCenter && Dist(q.y, yCenter) == radius) ||
      (q.y == yCenter && Dist(q.x, xCenter) == radius)
    ensures forall q :: q in head ==> OnRaster(q, xCenter, yCenter, radius)
  {
  }

  /**
   * `mid_point` as written. Apart from the centre for radius 0, it starts
   * with the first two points of `x_y(r, 0)` and of `x_y(0, r)`; the
   * latter are both (xc, yc + r), so that point is emitted twice and
   * (xc, yc - r) is never emitted.
   */
  method MidPoint(xCenter: nat, yCenter: nat, radius: nat) returns (points: seq<Point>, ghost columns: seq<nat>)
    requires radius <= xCenter && radius <= yCenter
    ensures radius == 0 ==> points == [Point(xCenter, yCenter)]
    ensures radius > 0 ==>
      |points| >= 4 && |points| % 4 == 0 &&
      points[..4] == [ Point(xCenter + radius, yCenter), Point(xCenter - radius, yCenter),
                       Point(xCenter, yCenter + radius), Point(xCenter, yCenter + radius) ]
    ensures forall q :: q in points ==> OnRaster(q, xCenter, yCenter, radius)
    // every row of the octant up to the diagonal is drawn
    ensures radius == 0 ==> columns == []
    ensures radius > 0 ==> Walk(columns, radius)
    ensures Covers(points, columns, xCenter, yCenter, radius)
    // the raster is the opening group followed by the groups of the walk, each once
    ensures InOctant(columns, radius)
    ensures points[(if radius > 0 then 4 else 1)..] == Groups(xCenter, yCenter, radius, columns)
    ensures radius > 0 ==> Point(xCenter, yCenter - radius) !in points
    // so the raster is not symmetric about the horizontal axis
    ensures radius > 0 ==> !Symmetric(points, xCenter, yCenter)
  {
    var head: seq<Point>;
    if radius > 0 {
      var a := XY(xCenter, yCenter, radius, 0);
      var b := XY(xCenter, yCenter, 0, radius);
      head := [a[0], a[1], b[0], b[1]];
    } else {
      head := [XY(xCenter, yCenter, radius, 0)[0]];
    }
    ghost var tail;
    points, tail, columns := TraceOctants(xCenter, yCenter, radius, head);
    AsWrittenRaster(xCenter, yCenter, radius, head, tail, columns);
    DropPrefix(head, tail);
  }

  /** What `mid_point` draws, given the as-written opening group and a traced tail. */
  lemma AsWrittenRaster(xCenter: nat, yCenter: nat, radius: nat, head: seq<Point>, tail: seq<Point>, columns: seq<nat>)
    requires radius <= xCenter && radius <= yCenter
    requires radius > 0 ==> head == [ Point(xCenter + radius, yCenter), Point(xCenter - radius, yCenter),
                                      Point(xCenter, yCenter + radius), Point(xCenter, yCenter + radius) ]
    requires radius == 0 ==> head == [Point(xCenter, yCenter)]
    requires Traced(tail, xCenter, yCenter, radius) && Covers(tail, columns, xCenter, yCenter, radius)
    ensures radius > 0 ==> |head + tail| >= 4 && |head + tail| % 4 == 0 && (head + tail)[..4] == head
    ensures forall q :: q in head + tail ==> OnRaster(q, xCenter, yCenter, radius)
    ensures Covers(head + tail, columns, xCenter, yCenter, radius)
    ensures radius > 0 ==> Point(xCenter, yCenter - radius) !in head + tail
    ensures radius > 0 ==> !Symmetric(head + tail, xCenter, yCenter)
  {
    HeadOnRaster(xCenter, yCenter, radius, head);
    RasterOfParts(head, tail, xCenter, yCenter, radius);
    CoversIn(tail, head + tail, |head|, columns, xCenter, yCenter, radius);
    if radius > 0 {
      FourfoldSum(|head|, |tail|);
      assert (head + tail)[..4] == head;
      BottomMissing(head, tail, xCenter, yCenter, radius);
    }
  }

  /**
   * With the opening group as written, the bottom point (xc, yc - r) is
   * never drawn, so the top point (xc, yc + r) has no mirror image.
   */
  lemma BottomMissing(head: seq<Point>, tail: seq<Point>, xCenter: nat, yCenter: nat, radius: nat)
    requires 0 < radius <= yCenter
    requires head == [ Point(xCenter + radius, yCenter), Point(xCenter - radius, yCenter),
                       Point(xCenter, yCenter + radius), Point(xCenter, yCenter + radius) ]
    requires Traced(tail, xCenter, yCenter, radius)
    ensures Point(xCenter, yCenter - radius) !in head + tail
    ensures !Symmetric(head + tail, xCenter, yCenter)
  {
    assert forall q :: q in head ==> q != Point(xCenter, yCenter - radius);
    OffAxisAbsent(head, tail, xCenter, yCenter, radius, Point(xCenter, yCenter - radius));
    var points := head + tail;
    assert points[2] in points;
    MissingMirror(points, xCenter, yCenter, points[2]);
  }

  /** A raster made of an opening group on the circle and traced points lies on the circle. */
  lemma RasterOfParts(head: seq<Point>, tail: seq<Point>, xCenter: nat, yCenter: nat, radius: nat)
    requires forall q :: q in head ==> OnRaster(q, xCenter, yCenter, radius)
    requires Traced(tail, xCenter, yCenter, radius)
    ensures forall q :: q in head + tail ==> OnRaster(q, xCenter, yCenter, radius)
  {
    forall q | q in head + tail
      ensures OnRaster(q, xCenter, yCenter, radius)
    {
      assert q in head || q in tail;
    }
  }

  /** A point on an axis through the centre that the opening group lacks is not in the raster. */
  lemma OffAxisAbsent(head: seq<Point>, tail: seq<Point>, xCenter: nat, yCenter: nat, radius: nat, p: Point)
    requires Traced(tail, xCenter, yCenter, radius)
    requires p !in head && p.x == xCenter
    ensures p !in head + tail
  {
    assert !OffAxis(p, xCenter, yCenter, radius);
    assert p !in tail;
  }

  /** A raster that holds a point but not its mirror image is not symmetric. */
  lemma MissingMirror(points: seq<Point>, xCenter: nat, yCenter: nat, p: Point)
    requires p in points && MirrorY(p, yCenter) !in points
    ensures !Symmetric(points, xCenter, yCenter)
  {
  }

  /** The corrected opening group (or the lone centre) is itself symmetric. */
  lemma CardinalSymmetric(xCenter: nat, yCenter: nat, radius: nat, head: seq<Point>)
    requires radius <= xCenter && radius <= yCenter
    requires radius > 0 ==> head == [ Point(xCenter + radius, yCenter), Point(xCenter - radius, yCenter),
                                      Point(xCenter, yCenter + radius), Point(xCenter, yCenter - radius) ]
    requires radius == 0 ==> head == [Point(xCenter, yCenter)]
    ensures Symmetric(head, xCenter, yCenter)
  {
    if radius > 0 {
      assert MirrorX(head[0], xCenter) == head[1] && MirrorX(head[1], xCenter) == head[0];
      assert MirrorX(head[2], xCenter) == head[2] && MirrorX(head[3], xCenter) == head[3];
      assert MirrorY(head[0], yCenter) == head[0] && MirrorY(head[1], yCenter) == head[1];
      assert MirrorY(head[2], yCenter) == head[3] && MirrorY(head[3], yCenter) == head[2];
      assert SwapAxes(head[0], xCenter, yCenter) == head[2];
      assert SwapAxes(head[1], xCenter, yCenter) == head[3];
      assert SwapAxes(head[2], xCenter, yCenter) == head[0];
      assert SwapAxes(head[3], xCenter, yCenter) == head[1];
    } else {
      assert MirrorX(head[0], xCenter) == head[0] && MirrorY(head[0], yCenter) == head[0];
      assert SwapAxes(head[0], xCenter, yCenter) == head[0];
    }
  }

  /**
   * `mid_point` with the evident intent: the four cardinal points
   * (xc ± r, yc) and (xc, yc ± r) open the raster, so the result has the
   * full symmetry of a circle.
   */
  method MidPointFixed(xCenter: nat, yCenter: nat, radius: nat) returns (points: seq<Point>, ghost columns: seq<nat>)
    requires radius <= xCenter && radius <= yCenter
    ensures radius == 0 ==> points == [Point(xCenter, yCenter)]
    ensures radius > 0 ==>
      |points| >= 4 && |points| % 4 == 0 &&
      points[..4] == [ Point(xCenter + radius, yCenter), Point(xCenter - radius, yCenter),
                       Point(xCenter, yCenter + radius), Point(xCenter, yCenter - radius) ]
    ensures forall q :: q in points ==> OnRaster(q, xCenter, yCenter, radius)
    // every row of the octant up to the diagonal is drawn
    ensures radius == 0 ==> columns == []
    ensures radius > 0 ==> Walk(columns, radius)
    ensures Covers(points, columns, xCenter, yCenter, radius)
    // the raster is the opening group followed by the groups of the walk, each once
    ensures InOctant(columns, radius)
    ensures points[(if radius > 0 then 4 else 1)..] == Groups(xCenter, yCenter, radius, columns)
    ensures Symmetric(points, xCenter, yCenter)
  {
    var head: seq<Point>;
    if radius > 0 {
      var a := XY(xCenter, yCenter, radius, 0);
      var b := XY(xCenter, yCenter, 0, radius);
      head := [a[0], a[1], b[0], b[2]];
    } else {
      head := [XY(xCenter, yCenter, radius, 0)[0]];
    }
    ghost var tail;
    points, tail, columns := TraceOctants(xCenter, yCenter, radius, head);
    CorrectedRaster(xCenter, yCenter, radius, head, tail, columns);
    DropPrefix(head, tail);
  }

  /** What the corrected `mid_point` draws, given the cardinal opening group and a traced tail. */
  lemma CorrectedRaster(xCenter: nat, yCenter: nat, radius: nat, head: seq<Point>, tail: seq<Point>, columns: seq<nat>)
    requires radius <= xCenter && radius <= yCenter
    requires radius > 0 ==> head == [ Point(xCenter + radius, yCenter), Point(xCenter - radius, yCenter),
                                      Point(xCenter, yCenter + radius), Point(xCenter, yCenter - radius) ]
    requires radius == 0 ==> head == [Point(xCenter, yCenter)]
    requires Traced(tail, xCenter, yCenter, radius) && Covers(tail, columns, xCenter, yCenter, radius)
    ensures radius > 0 ==> |head + tail| >= 4 && |head + tail| % 4 == 0 && (head + tail)[..4] == head
    ensures forall q :: q in head + tail ==> OnRaster(q, xCenter, yCenter, radius)
    ensures Covers(head + tail, columns, xCenter, yCenter, radius)
    ensures Symmetric(head + tail, xCenter, yCenter)
  {
    CardinalSymmetric(xCenter, yCenter, radius, head);
    HeadOnRaster(xCenter, yCenter, radius, head);
    RasterOfParts(head, tail, xCenter, yCenter, radius);
    CoversIn(tail, head + tail, |head|, columns, xCenter, yCenter, radius);
    if radius > 0 {
      FourfoldSum(|head|, |tail|);
      assert (head + tail)[..4] == head;
    }
    forall p | p in head + tail
      ensures MirrorX(p, xCenter) in head + tail && MirrorY(p, yCenter) in head + tail &&
              SwapAxes(p, xCenter, yCenter) in head + tail
    {
      assert p in head || p in tail;
    }
  }
}
