# N-dimensional lattice ray tracer

This project models the `NDRayTracer` of the repository, a voxel traversal
in any number of dimensions. The tracer walks the straight segment from a
start point `x0` to a goal `xf` through the integer lattice. It moves one
hyperplane crossing at a time. Several axes can be crossed at once, when
the crossings tie.

At every step the tracer keeps:

- the crossings made on each axis (`k`);
- the parametric distance of the next crossing on each axis (`D`), as a
  fraction of the whole segment;
- the lattice corner it stands on (`y`);
- the length travelled (`l`);
- the offsets of the front cells from the corner (`F`).

On an axis the ray does not move along, with the start on a lattice
hyperplane of that axis, the front cells split in two: offset -1 and
offset 0. A traversal records:

- the path;
- the crossing points;
- the corner history;
- the front cells at every corner.

It stops at the first crossing point that lies in an obstacle cell.

The Python implementation `nd_ray_tracer.py` is the reference. The C++ port
`nd_ray_tracer.cpp` agrees with it except in `init` and `traverse`. Those two
have their own members, `InitCpp` and `TraverseCpp` (with `BeginCpp`).

Modules:

- `Geometry` (geometry.dfy): these scalar and vector primitives:
  - sign;
  - floor and ceiling, and the conditional floor/ceiling operator `[a | b]`;
  - extended reals for the +infinity distances;
  - the point at a fraction of the segment;
  - snapping a point to its cell;
  - Eigen's `isApprox`.
- `FrontCells` (front_cells.dfy): the recursive construction of the
  front-cell offsets `F`, as a function. It proves:
  - which rows the construction produces;
  - that the rows are free of duplicates;
  - that there are 2^(ambiguous axes) of them.
- `Distances` (distances.dfy): the per-axis state. It covers:
  - the initial distances `D0` and the initial corner;
  - the state an axis is in after `k` crossings;
  - the geometry of a crossing;
  - the count of crossings left, which bounds every traversal.
- `RayTracer` (nd_ray_tracer.dfy): the class `NDRayTracer`. Its fields are
  those of the Python implementation. Its methods are `init`, `next`, `front_cells`,
  `isHitObstacle`, `traverse` and their helpers. Each is proved against the
  invariant `Valid()` and against the functions above. It also holds the
  predicate `Outcome`, which states how a traversal ends, and `Walked`, the
  case of `Outcome` for a traversal that steps from crossing to crossing.
- `Examples` (examples.dfy): worked cases from the demonstration drivers
  `main.py` and `main.cpp`.

The segment's Euclidean length `||dx||` is a parameter, `normDelta`. The
only requirement on it is that it is non-negative and zero exactly when
start and goal coincide.

## Model

| member | source | states |
|---|---|---|
| Geometry.Sign | nd_ray_tracer.py:122-131 | the result is 1, 0 or -1 exactly when x is positive, zero or negative |
| Geometry.SignCpp | nd_ray_tracer.cpp:21-25 | the C++ order of tests: 1 exactly when positive, -1 exactly when negative, 0 otherwise |
| Geometry.SignImplementationsAgree | nd_ray_tracer.cpp:21-25 | the C++ and Python sign functions agree on every real |
| Geometry.MinOf | nd_ray_tracer.py:215 | the minimum of the distances is one of them and lies at or below every one |
| Geometry.MinAtLeastOne | nd_ray_tracer.py:209 | the minimum is at least 1 exactly when every distance is (+infinity counts as at least 1) |
| Geometry.FloorCeil | nd_ray_tracer.py:116-119 | floor and ceiling coincide on integers and differ by exactly one elsewhere |
| Geometry.FloorCeilConditional | nd_ray_tracer.py:109-120 | a vector of a's length whose i-th entry is floor(a_i) when b_i <= 0 and ceil(a_i) otherwise |
| Geometry.PointAtEnds | nd_ray_tracer.py:181-185 | fraction 0 of the segment is the start, fraction 1 is the goal, and on a segment of non-zero extent no other fraction reaches the goal |
| Geometry.SnapToCellContains | nd_ray_tracer.py:245 | the snapped cell is exactly the unit cell that holds the point nudged up by 1e-8 |
| Geometry.IsApproxReflexive | nd_ray_tracer.cpp:200 | every vector is approximately equal to itself under Eigen's relative test |
| FrontCells.FixedOffset | nd_ray_tracer.py:172-175 | on an unambiguous axis the offset is -1 exactly when the sign is negative, and 0 otherwise |
| FrontCells.FrontRowsExact | nd_ray_tracer.py:155-176 | a row is produced from a prefix exactly when it extends the prefix to full width with an admissible offset on every remaining axis |
| FrontCells.CompletesStep | nd_ray_tracer.py:163-176 | a completion of a prefix is exactly an admissible offset on the next axis followed by a completion of the longer prefix |
| FrontCells.FrontRowsDistinct | nd_ray_tracer.py:163-176 | the recursion never produces the same row twice |
| FrontCells.FrontRowsCount | nd_ray_tracer.py:163-176 | the recursion produces 2^(number of ambiguous axes after the prefix) rows |
| FrontCells.FrontOffsetsSpec | nd_ray_tracer.py:147-176 | every row of F has width n and entries -1 or 0; the entry is fixed by the sign off the ambiguous axes; on an ambiguous axis both -1 and 0 occur; the rows are distinct and 2^(ambiguous axes) in number |
| FrontCells.FrontOffsetsWidth | nd_ray_tracer.py:152-157 | every row of F has one entry per dimension |
| FrontCells.CellsAtSpec | nd_ray_tracer.py:187-196 | every front cell lies within one unit behind the corner on each axis, and distinct offsets give distinct cells |
| Distances.StartCornerSpec | nd_ray_tracer.py:67 | the initial corner is floor(x0) on an axis with dx >= 0 and ceil(x0) on one with dx < 0, within one unit behind the start |
| Distances.InitialDistanceSpec | nd_ray_tracer.py:79-93 | D0 is +infinity exactly on a still axis; otherwise it lies in (0, 1/\|dx\|], equals 1/\|dx\| exactly when the start is on a hyperplane, and the ray reaches the next hyperplane ahead at that fraction |
| Distances.AxisStateInit | nd_ray_tracer.py:62-94 | after init every axis is in the state of zero crossings at D0 and the initial corner |
| Distances.AxisStatePositive | nd_ray_tracer.py:79-94 | a finite distance of a valid axis is positive |
| Distances.AxisStep | nd_ray_tracer.py:218-230 | one crossing raises k by one, moves the corner by the sign and pushes D exactly one cell 1/\|dx\| further |
| Distances.CornerOnCrossedPlane | nd_ray_tracer.py:221-230 | on a moving axis the corner is the hyperplane the ray crosses at fraction D - 1/\|dx\| |
| Distances.AxisRemainingStep | nd_ray_tracer.py:223-227 | a crossing on an axis short of the goal strictly lowers the crossings left on that axis |
| Distances.RemainingDecreases | nd_ray_tracer.py:280 | lowering no axis's count and one axis's strictly lowers the total of crossings left |
| Distances.InitialRemainingBound | nd_ray_tracer.py:280-294 | at the start at most sum(ceil(\|dx_i\|)) crossings lie ahead |
| RayTracer.TiedAxes | nd_ray_tracer.py:216 | the indices returned are exactly those whose distance equals the minimum, in increasing order |
| RayTracer.ComputeInitialDistances | nd_ray_tracer.py:79-94 | the loop computes every axis's initial distance D0 |
| RayTracer.InitialAxes | nd_ray_tracer.py:62-94 | init leaves every axis in its valid initial state, with the hyperplane before each D0 at or before fraction 0 |
| RayTracer.StillSegment | nd_ray_tracer.py:50 | a difference that vanishes on every axis means start equals goal |
| RayTracer.AxesPositive | nd_ray_tracer.py:79-94 | distances are finite exactly on moving axes and then positive |
| RayTracer.MinPositive | nd_ray_tracer.py:215 | the minimum of positive distances is positive, and finite exactly when some distance is |
| RayTracer.HitsObstacleSpec | nd_ray_tracer.py:242-249 | a point hits exactly when some obstacle's unit cell holds the nudged point; an empty list is never hit |
| RayTracer.LengthStep | nd_ray_tracer.py:221 | moving the fraction forward keeps the length non-negative and never shortens it |
| RayTracer.StepAxis | nd_ray_tracer.py:218-230 | one axis through a step: a tied axis advances one cell onto the hyperplane crossed at fraction m, any other is unchanged; it stays valid and its crossings left do not grow |
| RayTracer.StepTiedAxis | nd_ray_tracer.py:218-230 | a tied axis advances one cell, stays valid and lands on the hyperplane crossed at the old minimum |
| RayTracer.StepAxes | nd_ray_tracer.py:215-230 | all axes through a step stay valid, the tied ones advance one cell onto the crossed hyperplanes, every new distance lies above the old minimum, and the crossings left never grow |
| RayTracer.StepProgress | nd_ray_tracer.py:215-230 | after a step the new minimum lies strictly above the old one, and short of the goal the total of crossings left strictly falls |
| Distances.AxisNoPlaneBetween | nd_ray_tracer.py:221-227 | strictly between the last crossed hyperplane, at D - 1/\|dx\|, and the next one, at D, the ray meets no hyperplane of the axis, and it lies in the slab next to the corner on the side it moves to |
| Distances.InsideSlab | nd_ray_tracer.py:225 | for less than one cell 1/\|dx\| after meeting hyperplane y the ray stays strictly inside the adjacent slab |
| RayTracer.StepCrossingAxis | nd_ray_tracer.py:218-230 | one axis through a step: the corner moves by the sign onto the hyperplane the ray meets at the new fraction exactly when the ray is on one there, otherwise it stays, and no hyperplane lies strictly between the old and the new fraction |
| RayTracer.StepCrossings | nd_ray_tracer.py:213-230 | a step is a crossing of the lattice: on every axis as in StepCrossingAxis, and at least one axis moves |
| RayTracer.ReachedNoPlaneAfter | nd_ray_tracer.py:280 | once every distance is at least 1, no hyperplane lies between the last crossing point and the goal |
| RayTracer.CrossingsExtend | nd_ray_tracer.py:280-287 | a crossing from the last recorded point extends the chain of crossings by one point and corner |
| RayTracer.InitialValid | nd_ray_tracer.py:40-94 | the vectors init computes are shaped, valid and in the state of zero crossings, with no hyperplane crossed after fraction 0 |
| RayTracer.AlongSegmentExtend | nd_ray_tracer.py:281-286 | appending the point at a larger fraction below 1 keeps the points in order along the segment |
| RayTracer.AlongSegmentMissesGoal | nd_ray_tracer.py:297-298 | no crossing point of a traversal is the goal itself |
| RayTracer.StoppedExtend | nd_ray_tracer.py:289-292 | one more point, checked against the obstacles, ends the walk exactly when it lies in an obstacle |
| RayTracer.CellsAlongStart | nd_ray_tracer.py:68-73 | the first corner and its front cells start the two lists in step |
| RayTracer.CellsAlongExtend | nd_ray_tracer.py:287-294 | recording a corner and its front cells keeps the front-cell list in step with the corner history |
| RayTracer.ExactOutcomeReportsGoalObstacle | nd_ray_tracer.py:272-301 | with the exact start-equals-goal test, a goal in an obstacle is always reported as a hit; off an obstacle start the goal is reported exactly when start equals goal or no crossing point is in an obstacle |
| RayTracer.ApproxOutcomeMissesGoalObstacle | nd_ray_tracer.cpp:200-203 | under the relative test the traversal from [1999999999.999] to [2000000000.0005] stops at once and reports the goal and no hit. The goal's cell [2000000000] is an obstacle and fits in 32 bits, and the two points differ and lie in different cells |
| RayTracer.NDRayTracer.constructor | nd_ray_tracer.py:24-38 | every field starts empty or zero, the corner history empty |
| RayTracer.NDRayTracer.ValidFacts | nd_ray_tracer.py:204-215 | in a valid state the rows of F have width n, the minimum distance is finite exactly when the segment has length, and then it is positive |
| RayTracer.NDRayTracer.Coords | nd_ray_tracer.py:178-185 | the position is the start when the segment has no length or nothing has been travelled |
| RayTracer.NDRayTracer.CoordsAtFraction | nd_ray_tracer.py:185 | on a segment of positive length the position is the point at the travelled fraction |
| RayTracer.NDRayTracer.Length | nd_ray_tracer.py:198-202 | the length travelled is non-negative |
| RayTracer.NDRayTracer.Reached | nd_ray_tracer.py:204-209 | the goal is reached exactly when every axis's distance is at least 1 |
| RayTracer.NDRayTracer.FrontCells | nd_ray_tracer.py:187-196 | one cell per row of F, the i-th being corner plus row i |
| RayTracer.NDRayTracer.DetermineFrontCellsRecursive | nd_ray_tracer.py:155-176 | the list gains exactly the completions of the current prefix, in depth-first order, and the prefix is left as it was |
| RayTracer.NDRayTracer.ChooseOffset | nd_ray_tracer.py:163-176 | fixing offset v on the next axis adds exactly the completions of the prefix extended by v, in depth-first order, and leaves the prefix as it was |
| RayTracer.NDRayTracer.DetermineFrontCells | nd_ray_tracer.py:147-153 | F is rebuilt as the front offsets of the current segment |
| RayTracer.NDRayTracer.Init | nd_ray_tracer.py:40-107 | the state is valid with zero crossings, no length, the initial corner appended to the history, D = D0 the initial distances, and the report holds the one list of front cells, no coordinates, length 0 and whether the goal is reached |
| RayTracer.NDRayTracer.InitVectors | nd_ray_tracer.py:44-68 | dx, \|dx\|, sign(dx), l = 0, k = 0, the initial corner (appended to the history) and the initial distances |
| RayTracer.NDRayTracer.InitCpp | nd_ray_tracer.cpp:61-103 | as Init, but the history holds the initial corner only and the report carries the front cells and the start's coordinates |
| RayTracer.NDRayTracer.Next | nd_ray_tracer.py:211-240 | the state stays valid; exactly the axes at the minimum make one crossing each (Stepped, whose geometry StepAxes proves); the fraction becomes the minimum; the move is a lattice crossing (CrossingStep): every tied axis lands on the hyperplane the ray meets there, the others stay, and no hyperplane lies strictly between the old and the new fraction; the length never falls; the new minimum lies above the old; the crossings left fall while short of the goal; the report holds the new front cells, position, length and goal test |
| RayTracer.NDRayTracer.Update | nd_ray_tracer.py:218-233 | the tied axes take one step, the length becomes m times the segment's length, the step count rises and F is rebuilt as the front offsets of the segment |
| RayTracer.NDRayTracer.Advance | nd_ray_tracer.py:218-232 | the axes of the tied set take one step, the length becomes m times the segment's length, and the step count rises |
| RayTracer.NDRayTracer.StepValid | nd_ray_tracer.py:215-232 | the state after the update loops of next is valid, the move is a lattice crossing (CrossingStep), the length did not fall, and the new minimum lies above the old |
| RayTracer.NDRayTracer.CountCrossings | nd_ray_tracer.py:218-219 | k rises by one exactly on the tied axes |
| RayTracer.NDRayTracer.AdvanceDistances | nd_ray_tracer.py:223-227 | each tied axis's distance becomes D0 + k/\|dx\| (or +infinity on a still axis); no other distance changes |
| RayTracer.NDRayTracer.MoveCorner | nd_ray_tracer.py:229-230 | the corner moves by the sign exactly on the tied axes |
| RayTracer.NDRayTracer.IsHitObstacle | nd_ray_tracer.py:242-249 | true exactly when the snapped cell of the point is one of the obstacles |
| RayTracer.NDRayTracer.Traverse | nd_ray_tracer.py:251-303 | the crossing points start at the start and lie in order along the segment, short of its end; the history gains one corner per crossing point, starting with the initial corner, and the front cells follow it; each corner follows the one before by a lattice crossing (Crossings): the moved axes land on the hyperplanes the ray meets at that point and no hyperplane is skipped; when the goal is reached from a free start, no hyperplane lies between the last crossing point and the goal; the traversal ends as Outcome states with the exact test |
| RayTracer.NDRayTracer.Begin | nd_ray_tracer.py:256-267 | after init the path and the crossing points are the start alone and the front cells are those of the initial corner |
| RayTracer.NDRayTracer.Finish | nd_ray_tracer.py:280-301 | from a free start that is not the goal, the crossing points lie in order along the segment; the history gains one corner per crossing point, each a lattice crossing from the one before (Crossings), and the front cells follow it; a reached goal has no hyperplane before it after the last point; the traversal ends as Walked states |
| RayTracer.NDRayTracer.Walk | nd_ray_tracer.py:280-294 | the points made lie in order along the segment and none is the goal; the corners made are successive lattice crossings (Crossings); the walk stops at the first point inside an obstacle, all before it free, or else every point is free, the goal is reached and no hyperplane lies between the last point and the goal; it makes no more steps than sum(ceil(\|dx_i\|)) |
| RayTracer.NDRayTracer.Step | nd_ray_tracer.py:281-294 | one pass of the loop appends the new point, corner and front cells; the new corner extends the chain of lattice crossings; the walk stays stopped at its first point in an obstacle; the crossings left fall |
| RayTracer.NDRayTracer.Cross | nd_ray_tracer.py:281-289 | the tracer makes a lattice crossing (CrossingStep) and the new corner joins the history; the new position is the point at the new fraction, further along the segment and short of its end; the hit flag is the obstacle test of that position; the crossings left fall |
| RayTracer.NDRayTracer.TraverseCpp | nd_ray_tracer.cpp:183-230 | as Traverse, including the chain of lattice crossings and no hyperplane before a reached goal, but the history holds this traversal's corners only and the traversal ends as Outcome states with the relative test |
| RayTracer.NDRayTracer.BeginCpp | nd_ray_tracer.cpp:184-190 | after the C++ init the path and the crossing points are the start alone and the front cells are those of the initial corner |
| RayTracer.NDRayTracer.EndCpp | nd_ray_tracer.cpp:192-229 | after the C++ init the traversal ends as Outcome states with the relative test; the history is a chain of lattice crossings and the front cells follow it |
| RayTracer.NDRayTracer.FinishCpp | nd_ray_tracer.cpp:205-227 | as Finish, with the goal appended without testing the last point; the history is a chain of lattice crossings and the traversal ends as Walked states |
| Examples.RayAlongYAxisFrontOffsets | main.py:106 | the ray from [2,0,3] to [2,5,3] has front offsets [-1,0,-1], [-1,0,0], [0,0,-1], [0,0,0] and initial corner [2,0,3] |
| Examples.OffLatticeStart | main.cpp:47 | from [1.2,1.8] to [5.7,6.3] the initial distances are 0.8/4.5 and 0.2/4.5, the corner is [1,1], and at most ten crossings follow |
| Examples.OnLatticeStart | main.cpp:44 | a start on the lattice with dx = 3.5 has the full-cell distance 1/3.5 on both axes |
| Examples.SameStartAndGoal | main.cpp:54 | start and goal at [2,2] with no obstacles: goal reached at once, no hit, path [[2,2]] |
| Examples.SameStartAndGoalAtObstacle | main.cpp:55 | start and goal at [2,2] inside obstacle [2,2]: hit, no goal, path [[2,2]] |

## Left out

- Floating point: all arithmetic is on exact reals. Rounding, overflow and NaN are not modelled.
- Tolerances: 1e-10 and 1e-9 (nd_ray_tracer.py:83, 92, 160-161 and 224; nd_ray_tracer.cpp:33-34, 86, 91 and 144) become exact tests. A still axis is `dx == 0` and a zero distance is `D == 0`.
- The Python integer test at nd_ray_tracer.py:260 is also exact. Both of its branches give the same lists in the model, because `init` reports no coordinates.
- The snap tolerance 1e-8 of the obstacle test is kept exactly, as `SnapTolerance`.
- `||dx||` is a parameter, not computed. The model requires only that it is non-negative and zero exactly when start equals goal. A square root on reals is not available.
- RayTracer.NDRayTracer.Next: requires a finite minimum distance, that is a segment of non-zero length. With every distance infinite the Python implementation computes `inf * 0`, which is NaN. `traverse` never calls `next` in that state.
- The C++ `next`, `coords`, `front_cells`, `length`, `reached`, `_floor_ceil_conditional` and `_determine_front_cells` match the Python ones on reals, so they share members.
- The C++ `isHitObstacle` compares integer vectors with Eigen's `isApprox`. For integers Eigen's precision is 0, so this is exact equality, the same as the Python test.
- `_calculate_single_f_vector` (nd_ray_tracer.py:133-145) is never called, so it is not modelled.
- `frontCellsInit` and `init_coords` (nd_ray_tracer.py:77-78, 96-98) are always empty. The model uses the empty lists directly.
- The obstacle list: an absent list (`None`) is modelled as the empty one. In the model an obstacle of another dimension never matches. That is the Python behaviour, since `np.array_equal` is false on different shapes (nd_ray_tracer.py:247). The C++ `isApprox` on vectors of different sizes (nd_ray_tracer.cpp:176) breaks Eigen's size assertion instead, and that failure is not modelled.
- The Python path and crossing-point lists receive the same appends inside the loop. They are separate values in the model, with the same contents.
- The C++ loop records the front cells before the obstacle test instead of in both branches after it. This gives the same lists, so TraverseCpp shares Walk and Step with Traverse.
- `init`, `next`, `_determine_front_cells_recursive` and `traverse` are split into helper methods: InitVectors, Update, Advance, CountCrossings, AdvanceDistances, MoveCorner, ChooseOffset, Begin, Finish, Walk, Step, Cross, EndCpp and FinishCpp. The split keeps the order of the updates to the tracer's fields. Within one pass of the loop the corner is appended to the history before the point is appended to the two local lists, which changes no value.
- InitVectors computes `D` before the front cells, not after. `D` depends only on `x0` and `dx`, so this changes nothing.
- The ghost field `fraction` is the travelled fraction, with `l = fraction * ||dx||`. The Python and C++ implementations have no such field. Two more ghost values trace the walk: the fractions `fr` of the crossing points, and the corners `cs` at those points.
- Not modelled: `round2`, plotting (plotting.py, plotting.cpp), the drivers' printing and timing (main.py, main.cpp), and the header nd_ray_tracer.h.
- Init: requires `|start| == |goal| >= 1`. With n = 0 the Python implementation raises at `np.min` (nd_ray_tracer.py:209). With unequal lengths `x_f - self.x_0` (nd_ray_tracer.py:50) raises, or broadcasts when one side has length 1. These failures and the broadcast are not modelled.
- InitCpp: requires `|start| == |goal| >= 1`. With n = 0 the C++ `minCoeff` fails its assertion (nd_ray_tracer.cpp:125), and unequal lengths break Eigen's size assertion. These failures are not modelled.
- Traverse: requires `|start| == |goal| >= 1`, because it calls Init; the excluded inputs fail or broadcast as stated for Init.
- TraverseCpp: requires `|start| == |goal| >= 1`, because it calls InitCpp; the excluded inputs fail as stated for InitCpp.
- Traverse: the Python implementation returns its own list `self.y_coords_history` (nd_ray_tracer.py:274, 278, 303), so a later `traverse` on the same tracer also appends to a list already handed out. The model returns the corner history as a value, so that aliasing is not captured.
- Row-major matrix storage of `F` in C++ is a sequence of rows in the model.

## Findings

| source | as written | input that shows it | evidently intended | confidence | as-written member | corrected member |
|---|---|---|---|---|---|---|
| nd_ray_tracer.cpp:200 | the start is tested against the goal with Eigen's relative `x_0.isApprox(end)`, so distinct points far from the origin count as equal and the traversal returns at once | start [1999999999.999], goal [2000000000.0005], obstacle [2000000000] (all within 32-bit range): the C++ traversal reports the goal and no hit, although the goal lies in the obstacle and the two points are in different cells | an exact equality test, as in nd_ray_tracer.py:276, after which the goal's obstacle is always reported | not executed | RayTracer.ApproxOutcomeMissesGoalObstacle | RayTracer.ExactOutcomeReportsGoalObstacle |
