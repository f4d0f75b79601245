# GLBB ball simulation — a Dafny model of its motion and geometry core

The application animates a ball for teaching uniformly accelerated motion
("GLBB"): it slides horizontally while decelerating to a stop, turning round
at the edges of its range, and it can be dropped so that it falls, bounces off
the floor keeping 80% of its velocity, and settles. This project models the
logic under the GUI and proves properties of it:

- `formula.dfy` (module `Formula`): the closed-form velocity and displacement
  under constant acceleration, and the integer midpoint circle rasteriser
  `mid_point` with its `x_y` reflection helper.
- `stepping.dfy` (module `Stepping`): the way both motions consume a frame's
  distance in steps of at most 5.0, so that boundaries are tested after every
  step.
- `horizontal_state.dfy` (module `Horizontal`): `HorizontalState`, a class whose
  methods update its fields as the source does; its frame loop is the method
  `Travel`, proved against the specification function `Sweep`.
- `vertical_state.dfy` (module `Vertical`): `VerticalState`; its frame loop is
  the method `Descent`, proved against the specification function `Descend`.
- `state.dfy` (module `State`): `GLBBState`, the ball's position, its
  height-dependent drawn radius, the field limits, the screen conversions and
  the clamp into the field.
- `slider.dfy` (module `Sliders`): the linear value/fraction/position
  conversions of the slider widget.
- `emath.dfy` (module `Emath`): the pieces of egui's `emath` crate the core
  calls (`Vec2`, `Pos2`, `Rect`, `lerp`, `remap_clamp`, `f32::min`/`max`/`clamp`).
  The crate is not part of this model; these are written from its documented
  behaviour.

Numbers are exact reals (`real`) for `f32`/`f64`, naturals for `usize`. The
wall clock (`src/now.rs`, a wrapper over `Instant`) is not part of this model:
each clock is the field `start`, the instant it was last reset, and every read
of the clock is a `now` parameter of the method that reads it, no earlier than
`start` or than the previous read (the clock is monotonic).
`HorizontalState::mv` reads the clock three times (elapsed time, the re-arm
test, the reset inside `play`), `VerticalState::mv` twice (elapsed time, reset).
Positions that the source updates through `&mut f32` are returned as results.

On a vertical bounce the code multiplies the stored velocity by 0.8 and
negates `direction`; it does not negate the velocity.

## Model

| member | source | states |
|---|---|---|
| `Formula.CalculateDistance` | src/formula.rs:1-7 | no time, no displacement; the displacement is the elapsed time times the mean of the start and end velocities |
| `Formula.CalculateVelocity` | src/formula.rs:9-15 | no time leaves the velocity unchanged; a positive acceleration strictly raises it and a negative one strictly lowers it |
| `Formula.MotionComposes` | src/formula.rs:1-15 | advancing by t1 and then by t2 from the velocity reached gives the same velocity and total displacement as advancing by t1 + t2 |
| `Formula.XY` | src/formula.rs:26-37 | the four reflections of an offset about the centre: each lies exactly x and y away from the centre and, under the requirement that the offset fits (the `checked_sub(..).unwrap()` panics otherwise), has non-negative coordinates |
| `Formula.HeadOnRaster` | src/formula.rs:39-48 | every point of the opening group lies on the raster circle |
| `Formula.DecisionStep` | src/formula.rs:50-59 | one update of the decision variable keeps it equal to (y+1)² + x² − x − r² and keeps x² + y² within x of r² |
| `Formula.XYMirrored` | src/formula.rs:26-37 | each group of `x_y` is closed under the mirror images about both axes through the centre |
| `Formula.XYSwapped` | src/formula.rs:26-37 | swapping the axes maps the group of offset (x, y) onto the group of (y, x) |
| `Formula.XYOffAxis` | src/formula.rs:26-37 | the groups of an octant point within half a pixel of the circle lie on the raster circle, off both axes |
| `Formula.GroupSymmetric` | src/formula.rs:66-71 | the points a loop round appends are closed under the mirror images about both axes and the swap of axes |
| `Formula.TraceOctants` | src/formula.rs:50-72 | the loop keeps the opening group and appends to it exactly the groups of the walk, one per row in order (`Groups`), which is a traced tail: its length is a multiple of four, every appended point lies on the raster circle off both axes, and the appended points are closed under mirroring and swapping; for a positive radius the walk starts in column r, moves at most one column inwards per row and ends where the loop stops — on the diagonal, or one column before it when the next diagonal point is outside the half-pixel band — and for every row it reaches the point (xc + column, yc + row), within the octant and half a pixel of the circle, is appended; radius 0 appends nothing |
| `Formula.RowStep` | src/formula.rs:51-71 | drawing the group of the next row at a column the walk may take extends the drawn points by exactly that row's group and keeps the walk inside the octant and the half-pixel band |
| `Formula.RowGroup` | src/formula.rs:66-71 | the group drawn for one octant point has eight points, or four on the diagonal, where the swapped group would repeat them |
| `Formula.GroupsStep` | src/formula.rs:66-71 | the groups of a walk extended by one row are the previous groups followed by that row's group |
| `Formula.BandedStep` | src/formula.rs:50-59 | a next row within half a pixel of the circle keeps every row of the walk within it |
| `Formula.GroupsTraced` | src/formula.rs:51-72 | the groups of any walk inside the octant and the band form a traced tail that covers every row of the walk |
| `Formula.StopsBeforeDiagonal` | src/formula.rs:51-64 | the loop breaks out only from the row just below the diagonal, and only when the diagonal point of the next row is outside the half-pixel band |
| `Formula.BandUnique` | src/formula.rs:50-59 | each row has at most one column within half a pixel of the circle |
| `Formula.BandOrdered` | src/formula.rs:50-59 | the band intervals [x² − x, x² + x) of r² − y² follow one another as the column grows |
| `Formula.BandedAt` | src/formula.rs:50-59 | a walk kept within the band is within it at every row |
| `Formula.WalkNotExtended` | src/formula.rs:51-64 | no walk inside the octant and the band continues past a walk that stops where the loop stops |
| `Formula.WalkDetermined` | src/formula.rs:50-72 | two walks inside the octant and the band that stop where the loop stops are equal, so the radius fixes the walk and with it the whole raster |
| `Formula.WalkStep` | src/formula.rs:50-59 | one more row keeps the walk starting at r and moving at most one column inwards per row |
| `Formula.CoversStep` | src/formula.rs:61-71 | appending the group of the point reached in the next row covers that row as well |
| `Formula.CoversIn` | src/formula.rs:39-72 | a sequence that contains a covering part covers the same rows |
| `Formula.GroupTraced` | src/formula.rs:66-71 | the four or eight points appended for one octant point are traced |
| `Formula.AppendGroup` | src/formula.rs:66-71 | appending a traced group to a traced tail keeps it traced |
| `Formula.RasterOfParts` | src/formula.rs:39-72 | an opening group on the circle followed by a traced tail lies on the circle |
| `Formula.OffAxisAbsent` | src/formula.rs:39-72 | a point on the vertical axis through the centre that the opening group lacks never appears in the raster |
| `Formula.MidPoint` | src/formula.rs:17-75 | as written: the centre for radius 0; otherwise the raster starts (xc+r, yc), (xc−r, yc), (xc, yc+r), (xc, yc+r), after the opening group come exactly the groups of the octant walk, which ends where the loop stops and is the only such walk (`WalkDetermined`), every row of the walk up to the diagonal is drawn, all points lie on the circle, (xc, yc−r) is missing and the raster is not symmetric |
| `Formula.AsWrittenRaster` | src/formula.rs:39-72 | the as-written opening group followed by a traced tail lies on the circle, has a length that is a multiple of four, covers the walk, lacks (xc, yc−r) and is not symmetric |
| `Formula.BottomMissing` | src/formula.rs:39-45 | with the opening group as written, (xc, yc−r) never appears, so the raster is not symmetric |
| `Formula.MissingMirror` | src/formula.rs:39-48 | a raster holding a point but not its mirror image is not symmetric |
| `Formula.CardinalSymmetric` | src/formula.rs:39-48 | the corrected opening group of four cardinal points is symmetric |
| `Formula.MidPointFixed` | src/formula.rs:17-75 | corrected: the raster starts with the four cardinal points, continues with exactly the groups of the octant walk, which ends where the loop stops and is the only such walk, draws every row of the walk up to the diagonal, lies on the circle, and is symmetric about both axes and the diagonal |
| `Formula.CorrectedRaster` | src/formula.rs:39-72 | the cardinal opening group followed by a traced tail lies on the circle, has a length that is a multiple of four, covers the walk and is symmetric |
| `Stepping.StepCountShrinks` | src/horizontal_state.rs:72-74 | each step of a positive distance takes one off ⌈d / 5⌉, so the step loops end |
| `Stepping.StepSizesConsume` | src/horizontal_state.rs:72-74 | a distance is consumed exactly: its steps add up to it (to nothing if it is not positive), number ⌈d / 5⌉, and are all 5.0 but the last, which is in (0, 5] |
| `Horizontal.SweepKeepsSign` | src/horizontal_state.rs:72-81 | turning round only negates the direction, so it stays −1 or 1 |
| `Horizontal.SweepTravel` | src/horizontal_state.rs:72-81 | the ball ends no further from its start than the length of the path |
| `Horizontal.SweepInsideRange` | src/horizontal_state.rs:72-81 | a path that stays inside the range never turns round and ends the path's length away in the travel direction |
| `Horizontal.SweepStaysNear` | src/horizontal_state.rs:72-81 | with full 5.0 steps and one shorter last step, a ball near a range at least 5.0 wide ends within 5.0 of it |
| `Horizontal.NearStep` | src/horizontal_state.rs:72-81 | a full 5.0 step from near a range at least 5.0 wide, with the turn it may cause, stays near the range |
| `Horizontal.FrameStaysNear` | src/horizontal_state.rs:69-81 | a frame that starts inside a range at least 5.0 wide ends within 5.0 of it |
| `Horizontal.FrameDistanceLags` | src/horizontal_state.rs:69-70 | since the distance is evaluated with the already updated velocity, a frame falls short of the closed-form distance by a·t² |
| `Horizontal.Deceleration` | src/horizontal_state.rs:34-40 | decelerating for at most the planned abs(v) / abs(a) leaves a non-negative velocity whose planned duration is what remained of the old one |
| `Horizontal.Travel` | src/horizontal_state.rs:72-81 | the step loop ends in the final position and direction of the step-by-step sweep; a non-positive distance changes nothing |
| `Horizontal.HorizontalState.constructor` | src/horizontal_state.rs:6-16 | the default state is stopped, with zero duration, velocity and acceleration |
| `Horizontal.HorizontalState.IsPlay` | src/horizontal_state.rs:19-21 | playing exactly when a direction is set |
| `Horizontal.HorizontalState.Stop` | src/horizontal_state.rs:22-24 | stops and changes nothing else |
| `Horizontal.HorizontalState.PlayLeft` | src/horizontal_state.rs:26-28 | plays towards −1 from now, with duration abs(v) / abs(a) |
| `Horizontal.HorizontalState.PlayRight` | src/horizontal_state.rs:30-32 | plays towards 1 from now, with duration abs(v) / abs(a) |
| `Horizontal.HorizontalState.Play` | src/horizontal_state.rs:34-40 | resets the clock, sets the direction and plans the duration abs(v) / abs(a); needs a non-zero acceleration |
| `Horizontal.HorizontalState.DistanceAt` | src/horizontal_state.rs:42-48 | the decelerated displacement: zero at time 0, time times the mean of the current and the decelerated velocity |
| `Horizontal.HorizontalState.VelocityAt` | src/horizontal_state.rs:50-56 | unchanged at time 0; with a positive acceleration it strictly decreases |
| `Horizontal.HorizontalState.Mv` | src/horizontal_state.rs:58-91 | nothing changes while stopped; otherwise the time is min(elapsed, duration), the velocity is decelerated first, the position sweeps the frame distance, and play is re-armed from now or stopped; stops once the duration has elapsed; stays within 5.0 of a wide range; decelerating travel keeps its velocity sign, and while it keeps playing its planned stop (start + duration) moves later by exactly the clock time between the first and the last reading of the frame |
| `Vertical.FrameStepsConsume` | src/vertical_state.rs:47-49 | the frame distance is consumed exactly; a negative one in one step, a positive one in steps of at most 5.0 |
| `Vertical.DescendOutcome` | src/vertical_state.rs:47-58 | a frame either stops at or below the floor with a bounce, or consumes its whole distance and, for a non-empty list of steps, stays above the floor; with direction 0 the height does not change |
| `Vertical.FallLowers` | src/vertical_state.rs:34-53 | a falling ball that is not moving up never rises during a frame |
| `Vertical.Descent` | src/vertical_state.rs:47-58 | the step loop ends where the step-by-step descent ends, and reports whether a step reached the floor |
| `Vertical.VerticalState.constructor` | src/vertical_state.rs:4-13 | the default state is stopped with zero direction, acceleration and velocity |
| `Vertical.VerticalState.Fall` | src/vertical_state.rs:16-22 | drops from rest under acceleration 800; afterwards the ball is playing and dropping |
| `Vertical.VerticalState.IsDrop` | src/vertical_state.rs:24-26 | dropping for direction −1, not for direction 1 |
| `Vertical.VerticalState.Stop` | src/vertical_state.rs:28-30 | stops and changes nothing else |
| `Vertical.VerticalState.IsPlay` | src/vertical_state.rs:69-71 | reports the play flag |
| `Vertical.VerticalState.Mv` | src/vertical_state.rs:32-67 | nothing changes while stopped; otherwise the velocity is updated first, the distance uses it, the ball descends until the floor, a bounce negates the direction and keeps 80% of the velocity, the clock is reset, and play ends once distance and height are both within 0.5; a bounce leaves the ball on or below the floor, and a frame that moves it without a bounce leaves it above the floor; the direction stays in {−1, 1}; a falling ball does not rise |
| `State.Scale` | src/state.rs:64-68 | the perspective scale lies in [0.1, 1] and is 1 on the ground of a field with height |
| `State.ScaleShrinks` | src/state.rs:64-68 | a higher ball never gets a larger scale |
| `State.ScaleFloor` | src/state.rs:64-68 | from 1.8 field heights up the scale stays at its floor 0.1 |
| `State.ScreenRoundTrip` | src/state.rs:25-47 | drawing a position and reading it back gives the same x and a y that is 2.0 higher |
| `State.ScreenRoundTripBack` | src/state.rs:25-47 | reading a screen point back and drawing it with the same radius gives the same x and a screen y 2.0 smaller |
| `State.GLBBState.constructor` | src/state.rs:9-20 | the default ball is at the origin with zero radius and size; both motions are at their defaults (stopped, zero velocity, acceleration, duration and direction, clocks started now), the horizontal one in a state `mv` accepts; nothing plays |
| `State.GLBBState.PosToScreen` | src/state.rs:25-34 | the drawn centre is one radius right of the field's left edge plus x, and y + radius + 2.0 above its bottom edge |
| `State.GLBBState.PosFromScreen` | src/state.rs:37-47 | the inverse offsets: x is the distance from the left edge less a radius, y the distance from the bottom edge less a radius |
| `State.GLBBState.IsPlay` | src/state.rs:50-52 | moving exactly when the horizontal or the vertical motion plays |
| `State.GLBBState.Clamp` | src/state.rs:55-61 | each coordinate is clamped into [0, PosMax()] taken before the clamp; a position inside is left alone; nothing else changes |
| `State.GLBBState.Radius` | src/state.rs:64-70 | for a non-negative original radius the drawn radius lies between 0.1 and 1 times it, and equals it on the ground |
| `State.GLBBState.PosXMax` | src/state.rs:73-75 | leaves exactly one diameter of room in the width, so lies between size.x − 2R and size.x − 0.2R |
| `State.GLBBState.PosYMax` | src/state.rs:78-80 | leaves exactly one diameter of room in the height, so lies between size.y − 2R and size.y − 0.2R |
| `State.GLBBState.PosMax` | src/state.rs:83-86 | each component is at least 1, and is the larger of 1 and the corresponding maximum |
| `State.GLBBState.RadiusSize` | src/state.rs:89-91 | both components are the radius |
| `Sliders.ValueFromNormalized` | src/slider.rs:483-552 | the value lies within the range whichever way it points; a fraction at or below 0 gives the range's start and one at or above 1 its end |
| `Sliders.ValueFromNormalizedIsLerp` | src/slider.rs:483-552 | for every range, forwards, reversed or empty, the value is `lerp` over the range at the clamped fraction |
| `Sliders.ValueFromNormalizedFlip` | src/slider.rs:494-499 | reversing the range together with the fraction gives the same value |
| `Sliders.NormalizedFromValue` | src/slider.rs:554-619 | the fraction lies in [0, 1]; 0.5 for an empty range; 0 at the range's start and 1 at its end otherwise |
| `Sliders.NormalizedFromValueIsRemapClamp` | src/slider.rs:554-619 | for every non-empty range, forwards or reversed, the fraction is `remap_clamp` from the range onto [0, 1] |
| `Sliders.NormalizedRoundTrip` | src/slider.rs:545-619 | a fraction in [0, 1] is given back by converting it to a value and back |
| `Sliders.ValueRoundTrip` | src/slider.rs:545-619 | a value inside a non-empty range is given back by converting it to a fraction and back |
| `Sliders.HandleRadius` | src/slider.rs:155-161 | the rect's height (horizontal) or width (vertical) divided by 2.5 |
| `Sliders.PositionRange` | src/slider.rs:227-242 | the rail inset by the handle radius at both ends, left to right, or bottom to top for a vertical slider |
| `Sliders.ValueFromPosition` | src/slider.rs:193-208 | the position is clamped to the span, so the value lies within the slider's range |
| `Sliders.PositionFromValue` | src/slider.rs:210-221 | the position lies within the span |
| `Sliders.PositionEnds` | src/slider.rs:193-208 | the span's two ends show the range's start and end |
| `Sliders.PositionRoundTrip` | src/slider.rs:193-221 | a value inside a non-empty range is read back unchanged from the position it is shown at |
| `Sliders.ValuePositionRoundTrip` | src/slider.rs:193-221 | a position inside a non-degenerate span is shown back at the same place once its value is taken |
| `Sliders.HandleInsideRail` | src/slider.rs:227-242 | on a horizontal slider at least as long as the handle is wide, the handle at any value stays between the rail's edges |
| `Sliders.VerticalRunsUpwards` | src/slider.rs:227-242 | on a vertical slider taller than its handle the span runs from bottom to top |

## Left out

- Floating point: `f32`/`f64` rounding, the `f64` to `f32` casts, NaN, infinities and signed zero are not modelled; numbers are exact reals. `is_sign_negative` is modelled as `direction < 0`.
- `usize` overflow of `x_center + x` in `mid_point` and the `usize` to `isize` casts of the decision variable; naturals and integers are unbounded.
- `Duration`: its nanosecond resolution and the panic of `Duration::from_secs_f64` on a negative, infinite or NaN argument. The zero-acceleration case, which makes that conversion panic, is a precondition of `play`, `play_left` and `play_right`.
- The clock of src/now.rs is not part of this model; its readings are parameters.
- `Vertical.VerticalState.Mv`: the second `f32` argument of `mv` is unused by the source and is not a parameter of the model.
- The eventual settling of a dropped ball over many frames is not proved: it depends on how frame times are chosen, which the model takes as parameters.
- `State.GLBBState.Clamp`: states the clamp into the limits computed before the clamp, as the source does; that the drawn ball then fits the field is not claimed, since the limits depend on the radius, which changes with the new height.
- The logarithmic branches of `value_from_normalized` and `normalized_from_value`, `range_log10` and `logaritmic_zero_cutoff`: a slider is never made logarithmic (src/slider.rs:81 has no setter).
- The NaN branches of the slider conversions and their finiteness assertions.
- `remap_clamp`'s guard against a fraction that rounds up to 1; on exact reals the fraction is below 1.
- The `Widget` implementation of the slider (drawing, input, `allocate_space`, `rail_rect`, `rail_radius_limit`, `marker_center`, `pointer_position`), its builder methods, `get_value`/`set_value` with `smart_aim` and `round_to_decimals`: user-interface code and library calls.
- src/main.rs, src/widget.rs and src/glbb.rs (an older copy that is not compiled), serde persistence and `circle_texture`.
- egui itself is not part of this model; `emath.dfy` gives the few functions the core calls.

## Findings

| source | as written | input that shows it | evidently intended | confidence | as-written member | corrected member |
|---|---|---|---|---|---|---|
| src/formula.rs:39-45 | the opening group takes the first two points of `x_y(x, y)` and of `x_y(y, x)` with y = 0; both points of the second are (xc, yc + r) | radius 1 at centre (1, 1): the raster starts (2, 1), (0, 1), (1, 2), (1, 2), and the point (1, 0) is never produced | the four cardinal points (xc ± r, yc), (xc, yc ± r), so that the raster is symmetric | high, not executed | `Formula.MidPoint` | `Formula.MidPointFixed` |
