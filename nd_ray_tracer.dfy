/** The N-dimensional lattice ray tracer: a state machine that walks a
    straight segment from a start point to a goal point through the integer
    lattice, one hyperplane crossing at a time, and reports at every step the
    lattice corner it stands on and the front cells it is about to enter.

    The class follows the Python implementation; where the C++ port behaves
    differently it has its own member (InitCpp, TraverseCpp). */
module RayTracer {
  import opened Geometry
  import opened FrontCells
  import opened Distances

  /** What `next` (and the C++ `init`) report. */
  datatype StepInfo = StepInfo(
    frontCells: seq<seq<int>>,
    lastCoordinates: seq<real>,
    lengthTraversed: real,
    reachedGoal: bool)

  /** What the Python `init` reports: the front cells wrapped in a list of
      steps, and an empty list of coordinates. */
  datatype InitInfo = InitInfo(
    frontCells: seq<seq<seq<int>>>,
    lastCoordinates: seq<seq<real>>,
    lengthTraversed: real,
    reachedGoal: bool)

  /** The indices of `d` whose entry equals `m`, in increasing order. */
  method TiedAxes(d: seq<ExtReal>, m: ExtReal) returns (idx: seq<nat>)
    ensures forall i: nat :: i in idx <==> i < |d| && d[i] == m
    ensures forall j :: 0 <= j < |idx| ==> idx[j] < |d|
    ensures forall a, b :: 0 <= a < b < |idx| ==> idx[a] < idx[b]
  {
    idx := [];
    for i := 0 to |d|
      invariant forall x: nat :: x in idx <==> x < i && d[x] == m
      invariant forall a, b :: 0 <= a < b < |idx| ==> idx[a] < idx[b]
      invariant forall a :: 0 <= a < |idx| ==> idx[a] < i
    {
      if d[i] == m {
        idx := idx + [i];
      }
    }
  }

  /** The initial distance of every axis, computed one axis at a time. */
  method ComputeInitialDistances(x0: seq<real>, dx: seq<real>) returns (d: seq<ExtReal>)
    requires |x0| == |dx|
    ensures d == InitialDistances(x0, dx)
  {
    d := seq(|x0|, _ => Fin(0.0));
    for i := 0 to |x0|
      invariant |d| == |x0|
      invariant forall j :: 0 <= j < i ==> d[j] == InitialDistance(x0[j], dx[j])
    {
      var di: ExtReal;
      if dx[i] < 0.0 {
        di := Fin((Floor(x0[i]) as real - x0[i]) / dx[i]);
      } else if dx[i] == 0.0 {
        di := Inf;
      } else {
        di := Fin((Ceil(x0[i]) as real - x0[i]) / dx[i]);
      }
      // a start on a hyperplane: the next crossing is a full cell ahead
      if di == Fin(0.0) && dx[i] != 0.0 {
        di := Fin(1.0 / Abs(dx[i]));
      }
      d := d[i := di];
    }
  }

  /** Every axis starts with no crossing, at its initial distance and corner. */
  lemma InitialAxes(x0: seq<real>, dx: seq<real>, d: seq<ExtReal>, y: seq<int>)
    requires |x0| == |dx|
    requires d == InitialDistances(x0, dx) && y == StartCorner(x0, dx)
    ensures forall i :: 0 <= i < |x0| ==> AxisState(x0[i], dx[i], 0, d[i], d[i], y[i])
    ensures CrossedByAll(dx, d, 0.0)
  {
    forall i | 0 <= i < |x0|
      ensures AxisState(x0[i], dx[i], 0, d[i], d[i], y[i])
      ensures CrossedBy(dx[i], d[i], 0.0)
    {
      AxisStateInit(x0[i], dx[i]);
      InitialDistanceSpec(x0[i], dx[i]);
    }
  }

  /** A segment whose difference vanishes on every axis is a single point. */
  lemma StillSegment(start: seq<real>, goal: seq<real>)
    requires |start| == |goal|
    ensures (forall i :: 0 <= i < |start| ==> Sub(goal, start)[i] == 0.0) ==> start == goal
  {
    if forall i :: 0 <= i < |start| ==> Sub(goal, start)[i] == 0.0 {
      assert forall i :: 0 <= i < |start| ==> goal[i] == start[i] + Sub(goal, start)[i];
    }
  }

  /** Valid axes have positive finite distances, finite exactly on the axes
      the ray moves along. */
  lemma AxesPositive(x0: seq<real>, dx: seq<real>, k: seq<int>, d: seq<ExtReal>, d0: seq<ExtReal>, y: seq<int>)
    requires |x0| == |dx| == |k| == |d| == |d0| == |y|
    requires forall i :: 0 <= i < |x0| ==> AxisState(x0[i], dx[i], k[i], d[i], d0[i], y[i])
    ensures forall i :: 0 <= i < |x0| ==> (d[i].Fin? <==> dx[i] != 0.0)
    ensures forall i :: 0 <= i < |x0| ==> dx[i] != 0.0 ==> d0[i].Fin? && Abs(dx[i]) != 0.0
    ensures forall i :: 0 <= i < |x0| && d[i].Fin? ==> d[i].r > 0.0
  {
    forall i | 0 <= i < |x0|
      ensures d[i].Fin? ==> d[i].r > 0.0
    {
      AxisStatePositive(x0[i], dx[i], k[i], d[i], d0[i], y[i]);
    }
  }

  /** The minimum of positive distances is positive, and it is finite as soon
      as one distance is. */
  lemma MinPositive(d: seq<ExtReal>)
    requires |d| > 0
    requires forall i :: 0 <= i < |d| && d[i].Fin? ==> d[i].r > 0.0
    ensures MinOf(d).Fin? ==> MinOf(d).r > 0.0
    ensures MinOf(d).Fin? <==> exists i :: 0 <= i < |d| && d[i].Fin?
  {
    if exists i :: 0 <= i < |d| && d[i].Fin? {
      var i :| 0 <= i < |d| && d[i].Fin?;
      assert Le(MinOf(d), d[i]);
    }
  }

  /** The obstacle test: the cell holding the (nudged) point is one of the
      obstacle cells.  An empty list holds no obstacle. */
  predicate HitsObstacle(p: seq<real>, obstacles: seq<seq<int>>) {
    SnapToCell(p) in obstacles
  }

  /** A point hits an obstacle exactly when some obstacle's unit cell
      contains it (after the snap tolerance). */
  lemma HitsObstacleSpec(p: seq<real>, obstacles: seq<seq<int>>)
    ensures HitsObstacle(p, obstacles) <==> exists j :: 0 <= j < |obstacles| && InCell(p, obstacles[j])
    ensures obstacles == [] ==> !HitsObstacle(p, obstacles)
  {
    if HitsObstacle(p, obstacles) {
      var j :| 0 <= j < |obstacles| && obstacles[j] == SnapToCell(p);
      SnapToCellContains(p, obstacles[j]);
    }
    if exists j :: 0 <= j < |obstacles| && InCell(p, obstacles[j]) {
      var j :| 0 <= j < |obstacles| && InCell(p, obstacles[j]);
      SnapToCellContains(p, obstacles[j]);
    }
  }

  /** `a` is strictly below `b`: a finite minimum that a step has passed. */
  predicate StrictlyBelow(a: ExtReal, b: ExtReal) {
    a.Fin? && (b.Inf? || a.r < b.r)
  }

  /** Moving the travelled fraction forward from `f` to `m` keeps the
      length non-negative and does not shorten it. */
  lemma LengthStep(f: real, m: real, norm: real)
    requires 0.0 <= f < m && norm > 0.0
    ensures Scale(m, norm) >= 0.0 && Scale(m, norm) >= Scale(f, norm)
  {
  }

  /** One step on one axis.  An axis at the old minimum `m` advances by one
      crossing: its distance grows by one cell and the point at fraction `m`
      lies on its hyperplane at the new corner.  Any other axis keeps its
      state.  Either way the crossings left do not grow, and they shrink on
      an advancing axis short of the goal. */
  lemma StepAxis(x0: real, dx: real, a: real, sgn: int, k1: int, d1: ExtReal, d0: ExtReal, y1: int,
                 m: ExtReal, k2: int, d2: ExtReal, y2: int)
    requires a == Abs(dx) && sgn == Sign(dx)
    requires AxisState(x0, dx, k1, d1, d0, y1)
    requires m.Fin? && Le(m, d1)
    requires dx != 0.0 ==> d0.Fin? && a != 0.0
    requires SteppedAxis(dx, a, sgn, k1, d1, d0, y1, m, k2, d2, y2)
    ensures AxisState(x0, dx, k2, d2, d0, y2)
    ensures d1 == m ==> d2.Fin? && d2.r == d1.r + 1.0 / a && OnPlane(x0, dx, m.r, y2)
    ensures StrictlyBelow(m, d2)
    ensures AxisRemaining(d2, a) <= AxisRemaining(d1, a)
    ensures d1 == m && !AtLeastOne(m) ==> AxisRemaining(d2, a) < AxisRemaining(d1, a)
  {
    if d1 == m {
      StepTiedAxis(x0, dx, a, sgn, k1, d1, d0, y1, k2, d2, y2);
    }
  }

  /** The step on an axis at the old minimum. */
  lemma StepTiedAxis(x0: real, dx: real, a: real, sgn: int, k1: int, d1: ExtReal, d0: ExtReal, y1: int,
                     k2: int, d2: ExtReal, y2: int)
    requires a == Abs(dx) && sgn == Sign(dx)
    requires AxisState(x0, dx, k1, d1, d0, y1) && d1.Fin?
    requires k2 == k1 + 1 && y2 == y1 + sgn
    requires d2 == (if dx != 0.0 then Fin(d0.r + k2 as real / a) else Inf)
    ensures AxisState(x0, dx, k2, d2, d0, y2)
    ensures d2.Fin? && d2.r == d1.r + 1.0 / a && OnPlane(x0, dx, d1.r, y2)
    ensures StrictlyBelow(d1, d2)
    ensures !AtLeastOne(d1) ==> AxisRemaining(d2, a) < AxisRemaining(d1, a)
  {
    AxisStep(x0, dx, k1, d1, d0, y1);
    CornerOnCrossedPlane(x0, dx, k2, d2, d0, y2);
    ghost var s := d2.r - 1.0 / a;
    assert s == d1.r;
    if !AtLeastOne(d1) {
      AxisRemainingStep(d1.r, a);
    }
  }

  /** The step `next` performs on one axis: at the old minimum `m` it
      counts one more crossing, moves its corner coordinate by its sign and
      pushes its distance one cell further; otherwise it keeps its state. */
  predicate SteppedAxis(dx: real, a: real, sgn: int, k1: int, d1: ExtReal, d0: ExtReal, y1: int, m: ExtReal,
                        k2: int, d2: ExtReal, y2: int)
    requires dx != 0.0 ==> d0.Fin? && a != 0.0
  {
    if d1 == m then
      k2 == k1 + 1 && y2 == y1 + sgn &&
      d2 == (if dx != 0.0 then Fin(d0.r + k2 as real / a) else Inf)
    else
      k2 == k1 && y2 == y1 && d2 == d1
  }

  /** The step `next` performs on every axis. */
  predicate Stepped(dx: seq<real>, a: seq<real>, sgn: seq<int>,
                    k1: seq<int>, d1: seq<ExtReal>, d0: seq<ExtReal>, y1: seq<int>, m: ExtReal,
                    k2: seq<int>, d2: seq<ExtReal>, y2: seq<int>)
    requires |dx| == |a| == |sgn| == |k1| == |d1| == |d0| == |y1| == |k2| == |d2| == |y2|
    requires forall i :: 0 <= i < |dx| ==> dx[i] != 0.0 ==> d0[i].Fin? && a[i] != 0.0
  {
    forall i :: 0 <= i < |dx| ==> SteppedAxis(dx[i], a[i], sgn[i], k1[i], d1[i], d0[i], y1[i], m, k2[i], d2[i], y2[i])
  }

  /** One step on every axis keeps every axis valid; the axes at the old
      minimum advance by one cell, onto the hyperplane the ray crosses at
      fraction `m`. */
  lemma StepAxes(x0: seq<real>, dx: seq<real>, a: seq<real>, sgn: seq<int>,
                 k1: seq<int>, d1: seq<ExtReal>, d0: seq<ExtReal>, y1: seq<int>, m: ExtReal,
                 k2: seq<int>, d2: seq<ExtReal>, y2: seq<int>)
    requires |x0| == |dx| == |a| == |sgn| == |k1| == |d1| == |d0| == |y1| == |k2| == |d2| == |y2| > 0
    requires forall i :: 0 <= i < |x0| ==> a[i] == Abs(dx[i]) && sgn[i] == Sign(dx[i])
    requires forall i :: 0 <= i < |x0| ==> AxisState(x0[i], dx[i], k1[i], d1[i], d0[i], y1[i])
    requires forall i :: 0 <= i < |x0| ==> (dx[i] != 0.0 ==> d0[i].Fin? && a[i] != 0.0) && (d1[i].Fin? ==> dx[i] != 0.0)
    requires m == MinOf(d1) && m.Fin?
    requires Stepped(dx, a, sgn, k1, d1, d0, y1, m, k2, d2, y2)
    ensures forall i :: 0 <= i < |x0| ==> AxisState(x0[i], dx[i], k2[i], d2[i], d0[i], y2[i])
    ensures forall i :: 0 <= i < |x0| && d1[i] == m ==>
      d2[i].Fin? && d2[i].r == d1[i].r + 1.0 / a[i] && OnPlane(x0[i], dx[i], m.r, y2[i])
    ensures forall i :: 0 <= i < |x0| ==> StrictlyBelow(m, d2[i])
    ensures forall i :: 0 <= i < |x0| ==> AxisRemaining(d2[i], a[i]) <= AxisRemaining(d1[i], a[i])
    ensures forall i :: 0 <= i < |x0| && d1[i] == m && !AtLeastOne(m) ==>
      AxisRemaining(d2[i], a[i]) < AxisRemaining(d1[i], a[i])
  {
    forall i | 0 <= i < |x0|
      ensures AxisState(x0[i], dx[i], k2[i], d2[i], d0[i], y2[i])
      ensures d1[i] == m ==>
        d2[i].Fin? && d2[i].r == d1[i].r + 1.0 / a[i] && OnPlane(x0[i], dx[i], m.r, y2[i])
      ensures StrictlyBelow(m, d2[i])
      ensures AxisRemaining(d2[i], a[i]) <= AxisRemaining(d1[i], a[i])
      ensures d1[i] == m && !AtLeastOne(m) ==> AxisRemaining(d2[i], a[i]) < AxisRemaining(d1[i], a[i])
    {
      StepAxis(x0[i], dx[i], a[i], sgn[i], k1[i], d1[i], d0[i], y1[i], m, k2[i], d2[i], y2[i]);
    }
  }

  /** One axis through a step from fraction `f1`, with the last crossed
      hyperplane of every axis at or before `f1`, to fraction `m`: the
      corner moves onto a hyperplane exactly when the ray at `m` lies on
      one, and no hyperplane is passed in between; afterwards the last
      crossed hyperplane lies at or before `m`. */
  lemma StepCrossingAxis(x0: real, dx: real, a: real, sgn: int, k1: int, d1: ExtReal, d0: ExtReal, y1: int,
                         f1: real, m: ExtReal, k2: int, d2: ExtReal, y2: int)
    requires a == Abs(dx) && sgn == Sign(dx)
    requires AxisState(x0, dx, k1, d1, d0, y1) && CrossedBy(dx, d1, f1)
    requires m.Fin? && Le(m, d1) && f1 < m.r
    requires dx != 0.0 ==> d0.Fin? && a != 0.0
    requires SteppedAxis(dx, a, sgn, k1, d1, d0, y1, m, k2, d2, y2)
    ensures CrossingAxis(x0, dx, f1, m.r, y1, y2)
    ensures CrossedBy(dx, d2, m.r)
  {
    if dx != 0.0 {
      forall s | f1 < s < m.r
        ensures !IsInteger(Along(x0, dx, s))
      {
        AxisNoPlaneBetween(x0, dx, k1, d1, d0, y1, s);
      }
      if d1 == m {
        StepTiedAxis(x0, dx, a, sgn, k1, d1, d0, y1, k2, d2, y2);
        assert Along(x0, dx, m.r) == y2 as real;
      } else {
        AxisNoPlaneBetween(x0, dx, k1, d1, d0, y1, m.r);
      }
    }
  }

  /** A step is a crossing of the lattice (CrossingStep): the axes whose
      hyperplane the ray meets at the old minimum `m` move onto it, the
      others stay, at least one axis moves, and no hyperplane lies strictly
      between the old fraction and `m`. */
  lemma StepCrossings(x0: seq<real>, dx: seq<real>, a: seq<real>, sgn: seq<int>,
                      k1: seq<int>, d1: seq<ExtReal>, d0: seq<ExtReal>, y1: seq<int>, f1: real, m: ExtReal,
                      k2: seq<int>, d2: seq<ExtReal>, y2: seq<int>)
    requires |x0| == |dx| == |a| == |sgn| == |k1| == |d1| == |d0| == |y1| == |k2| == |d2| == |y2| > 0
    requires forall i :: 0 <= i < |x0| ==> a[i] == Abs(dx[i]) && sgn[i] == Sign(dx[i])
    requires forall i :: 0 <= i < |x0| ==> AxisState(x0[i], dx[i], k1[i], d1[i], d0[i], y1[i])
    requires forall i :: 0 <= i < |x0| ==> dx[i] != 0.0 ==> d0[i].Fin? && a[i] != 0.0
    requires CrossedByAll(dx, d1, f1)
    requires m == MinOf(d1) && m.Fin? && f1 < m.r
    requires Stepped(dx, a, sgn, k1, d1, d0, y1, m, k2, d2, y2)
    ensures CrossingStep(x0, dx, f1, m.r, y1, y2)
    ensures CrossedByAll(dx, d2, m.r)
  {
    forall i | 0 <= i < |x0|
      ensures CrossingAxis(x0[i], dx[i], f1, m.r, y1[i], y2[i])
      ensures CrossedBy(dx[i], d2[i], m.r)
    {
      StepCrossingAxis(x0[i], dx[i], a[i], sgn[i], k1[i], d1[i], d0[i], y1[i], f1, m, k2[i], d2[i], y2[i]);
    }
    var i0 :| 0 <= i0 < |d1| && d1[i0] == m;
    assert SteppedAxis(dx[i0], a[i0], sgn[i0], k1[i0], d1[i0], d0[i0], y1[i0], m, k2[i0], d2[i0], y2[i0]);
    assert y2[i0] != y1[i0];
  }

  /** Once the goal is reached, with every axis's last crossed hyperplane at
      or before `f`, no hyperplane lies between `f` and the goal. */
  lemma ReachedNoPlaneAfter(x0: seq<real>, dx: seq<real>, k: seq<int>, d: seq<ExtReal>, d0: seq<ExtReal>,
                            y: seq<int>, f: real)
    requires AxesValid(x0, dx, k, d, d0, y) && CrossedByAll(dx, d, f)
    requires forall i :: 0 <= i < |d| ==> AtLeastOne(d[i])
    ensures NoPlaneAfter(x0, dx, f)
  {
    forall i | 0 <= i < |x0|
      ensures NoPlaneWithin(x0[i], dx[i], f, 1.0)
    {
      if dx[i] != 0.0 {
        forall s | f < s < 1.0
          ensures !IsInteger(Along(x0[i], dx[i], s))
        {
          AxisNoPlaneBetween(x0[i], dx[i], k[i], d[i], d0[i], y[i], s);
        }
      }
    }
  }

  /** After a step every distance lies strictly above the old minimum, so
      the new minimum does too; short of the goal the crossings left shrink. */
  lemma StepProgress(d1: seq<ExtReal>, d2: seq<ExtReal>, a: seq<real>, m: ExtReal)
    requires |d1| == |d2| == |a| > 0
    requires m == MinOf(d1)
    requires forall i :: 0 <= i < |d1| ==> StrictlyBelow(m, d2[i])
    requires forall i :: 0 <= i < |d1| ==> AxisRemaining(d2[i], a[i]) <= AxisRemaining(d1[i], a[i])
    requires forall i :: 0 <= i < |d1| && d1[i] == m && !AtLeastOne(m) ==>
      AxisRemaining(d2[i], a[i]) < AxisRemaining(d1[i], a[i])
    ensures StrictlyBelow(m, MinOf(d2))
    ensures !AtLeastOne(m) ==> Remaining(d2, a) < Remaining(d1, a)
  {
    var i2 :| 0 <= i2 < |d2| && d2[i2] == MinOf(d2);
    assert StrictlyBelow(m, d2[i2]);
    if !AtLeastOne(m) {
      var i0 :| 0 <= i0 < |d1| && d1[i0] == m;
      RemainingDecreases(d1, d2, a, i0);
    }
  }

  /** The length covered by fraction `s` of a segment of length `norm`. */
  function Scale(s: real, norm: real): real {
    s * norm
  }

  lemma ScaleZero(f: real, norm: real)
    requires f == 0.0
    ensures Scale(f, norm) == 0.0
  {
  }

  lemma MulDivCancel(a: real, c: real)
    requires c > 0.0
    ensures (a * c) / c == a
  {
  }

  /** The per-axis vectors of a tracer over `n >= 1` axes all have length
      `n`, and `a` and `sgn` hold |dx| and sign(dx). */
  predicate Shaped(n: nat, x0: seq<real>, dx: seq<real>, a: seq<real>, sgn: seq<int>,
                   k: seq<int>, d: seq<ExtReal>, d0: seq<ExtReal>, y: seq<int>) {
    n >= 1 && |x0| == n && |dx| == n && |a| == n && |sgn| == n &&
    |k| == n && |d| == n && |d0| == n && |y| == n &&
    forall i :: 0 <= i < n ==> a[i] == Abs(dx[i]) && sgn[i] == Sign(dx[i])
  }

  /** Every axis is in the state its crossings so far determine. */
  predicate AxesValid(x0: seq<real>, dx: seq<real>, k: seq<int>, d: seq<ExtReal>, d0: seq<ExtReal>, y: seq<int>) {
    |dx| == |x0| && |k| == |x0| && |d| == |x0| && |d0| == |x0| && |y| == |x0| &&
    forall i :: 0 <= i < |x0| ==> AxisState(x0[i], dx[i], k[i], d[i], d0[i], y[i])
  }

  /** On every moving axis the last hyperplane crossed lies at or before
      fraction `f`. */
  predicate CrossedByAll(dx: seq<real>, d: seq<ExtReal>, f: real) {
    forall i :: 0 <= i < |dx| && i < |d| ==> CrossedBy(dx[i], d[i], f)
  }

  /** The move from fraction `s1`, at corner `c1`, to fraction `s2`, at
      corner `c2`, crosses the lattice: on every axis the corner moves by the
      sign onto the hyperplane the ray meets at `s2`, or stays when the ray
      meets none there; at least one axis moves; and no hyperplane of a
      moving axis lies strictly between `s1` and `s2`. */
  ghost predicate CrossingStep(x0: seq<real>, dx: seq<real>, s1: real, s2: real, c1: seq<int>, c2: seq<int>) {
    s1 < s2 && |dx| == |x0| && |c1| == |x0| && |c2| == |x0| &&
    (forall i :: 0 <= i < |x0| ==> CrossingAxis(x0[i], dx[i], s1, s2, c1[i], c2[i])) &&
    (exists i :: 0 <= i < |x0| && c2[i] != c1[i])
  }

  /** The `j`-th recorded point and corner follow the one before by a crossing. */
  ghost predicate CrossingAt(x0: seq<real>, dx: seq<real>, fr: seq<real>, cs: seq<seq<int>>, j: int) {
    0 < j < |fr| && j < |cs| && CrossingStep(x0, dx, fr[j - 1], fr[j], cs[j - 1], cs[j])
  }

  /** The corners `cs` at the fractions `fr` are the successive lattice
      crossings of the segment: each follows the one before by a crossing. */
  ghost predicate Crossings(x0: seq<real>, dx: seq<real>, fr: seq<real>, cs: seq<seq<int>>) {
    |cs| == |fr| && forall j :: 0 < j < |fr| ==> CrossingAt(x0, dx, fr, cs, j)
  }

  /** One more crossing keeps the list of crossings. */
  lemma CrossingsExtend(x0: seq<real>, dx: seq<real>, fr: seq<real>, cs: seq<seq<int>>, s: real, c: seq<int>)
    requires Crossings(x0, dx, fr, cs) && |fr| >= 1
    requires CrossingStep(x0, dx, fr[|fr| - 1], s, cs[|cs| - 1], c)
    ensures Crossings(x0, dx, fr + [s], cs + [c])
  {
    forall j | 0 < j < |fr| + 1
      ensures CrossingAt(x0, dx, fr + [s], cs + [c], j)
    {
      if j < |fr| {
        assert CrossingAt(x0, dx, fr, cs, j);
      }
    }
  }

  /** No hyperplane of a moving axis lies between fraction `f` and the goal. */
  ghost predicate NoPlaneAfter(x0: seq<real>, dx: seq<real>, f: real) {
    forall i :: 0 <= i < |x0| && i < |dx| ==> NoPlaneWithin(x0[i], dx[i], f, 1.0)
  }

  /** A segment length that is zero exactly when no axis moves. */
  predicate NormValid(dx: seq<real>, norm: real) {
    norm >= 0.0 && (norm == 0.0 <==> forall i :: 0 <= i < |dx| ==> dx[i] == 0.0)
  }

  /** The vectors `init` computes from `start` and `goal` form a valid state
      with no crossing made yet. */
  lemma InitialValid(start: seq<real>, goal: seq<real>, norm: real, a: seq<real>, sgn: seq<int>,
                     k: seq<int>, d: seq<ExtReal>, y: seq<int>)
    requires |start| == |goal| >= 1
    requires norm >= 0.0 && (norm == 0.0 <==> start == goal)
    requires |a| == |start| && forall i :: 0 <= i < |start| ==> a[i] == Abs(goal[i] - start[i])
    requires |sgn| == |start| && forall i :: 0 <= i < |start| ==> sgn[i] == Sign(goal[i] - start[i])
    requires |k| == |start| && forall i :: 0 <= i < |start| ==> k[i] == 0
    requires d == InitialDistances(start, Sub(goal, start))
    requires y == StartCorner(start, Sub(goal, start))
    ensures Shaped(|start|, start, Sub(goal, start), a, sgn, k, d, d, y)
    ensures NormValid(Sub(goal, start), norm)
    ensures AxesValid(start, Sub(goal, start), k, d, d, y) && CrossedByAll(Sub(goal, start), d, 0.0)
    ensures MinOf(d).Fin? ==> MinOf(d).r > 0.0
  {
    var dx := Sub(goal, start);
    StillSegment(start, goal);
    InitialAxes(start, dx, d, y);
    AxesPositive(start, dx, k, d, d, y);
    MinPositive(d);
  }

  /** What `traverse` returns, in the order of the Python implementation:
      the path, the front cells at every step, the crossing points, the
      corner history, whether an obstacle was hit and whether the goal was
      reached. */
  datatype TraceResult = TraceResult(
    path: seq<seq<real>>,
    frontCells: seq<seq<seq<int>>>,
    intersections: seq<seq<real>>,
    corners: seq<seq<int>>,
    obstacleHit: bool,
    goalReached: bool)

  /** `pts[j]` is the point at fraction `fr[j]` of the segment; the fractions
      start at 0, rise strictly and stay below 1. */
  predicate AlongSegment(x0: seq<real>, dx: seq<real>, fr: seq<real>, pts: seq<seq<real>>)
    requires |x0| == |dx|
  {
    |fr| == |pts| >= 1 && fr[0] == 0.0 &&
    (forall j :: 0 <= j < |pts| ==> 0.0 <= fr[j] < 1.0 && pts[j] == PointAt(x0, dx, fr[j])) &&
    (forall a, b :: 0 <= a < b < |fr| ==> fr[a] < fr[b])
  }

  /** One more point further along the segment, still short of its end. */
  lemma AlongSegmentExtend(x0: seq<real>, dx: seq<real>, fr: seq<real>, pts: seq<seq<real>>, f: real, p: seq<real>)
    requires |x0| == |dx| && AlongSegment(x0, dx, fr, pts)
    requires fr[|fr| - 1] < f < 1.0 && p == PointAt(x0, dx, f)
    ensures AlongSegment(x0, dx, fr + [f], pts + [p])
  {
    forall a, b | 0 <= a < b < |fr| + 1
      ensures (fr + [f])[a] < (fr + [f])[b]
    {
      if b == |fr| && a < |fr| - 1 {
        assert fr[a] < fr[|fr| - 1];
      }
    }
  }

  /** No point of the segment short of fraction 1 is the goal, so a
      traversal's crossing points never include the goal itself. */
  lemma AlongSegmentMissesGoal(start: seq<real>, goal: seq<real>, fr: seq<real>, pts: seq<seq<real>>)
    requires |start| == |goal| && start != goal
    requires AlongSegment(start, Sub(goal, start), fr, pts)
    ensures forall j :: 0 <= j < |pts| ==> pts[j] != goal
  {
    forall j | 0 <= j < |pts|
      ensures pts[j] != goal
    {
      PointAtEnds(start, goal, fr[j]);
    }
  }

  /** None of the points lies in an obstacle cell. */
  predicate NoHit(pts: seq<seq<real>>, obstacles: seq<seq<int>>) {
    forall j :: 0 <= j < |pts| ==> !HitsObstacle(pts[j], obstacles)
  }

  /** The first corner and its front cells, recorded at initialisation. */
  lemma CellsAlongStart(hist: seq<seq<int>>, c: seq<int>, rows: seq<seq<int>>)
    requires Widths(rows, c)
    ensures CellsAlong([CellsAt(c, rows)], hist + [c], rows)
  {
    assert (hist + [c])[|hist + [c]| - 1] == c;
  }

  /** The outcome of a traversal from `start` to `goal`, where `atGoal` is
      the implementation's test that the two coincide and `reached` whether
      the tracer ends at the goal.  A start inside an obstacle reports the
      hit and no goal; a start at the goal reports the goal at once;
      otherwise the tracer walked (Walked). */
  predicate Outcome(start: seq<real>, goal: seq<real>, obstacles: seq<seq<int>>, atGoal: bool,
                    r: TraceResult, reached: bool)
    requires |start| == |goal|
  {
    if HitsObstacle(start, obstacles) then
      r.obstacleHit && !r.goalReached && r.path == [start] && r.intersections == [start]
    else if atGoal then
      !r.obstacleHit && r.goalReached && r.path == [start] && r.intersections == [start]
    else
      Walked(start, goal, obstacles, r, reached)
  }

  /** The outcome of a traversal that walked from `start` towards `goal`:
      at most sum(ceil(|dx_i|)) crossing points follow the start, and the
      walk either stopped at the first crossing point inside an obstacle, all
      before it free, without the goal; or it passed every crossing, all
      free, reached the goal, which ends the path, and reports a hit exactly
      when the goal lies in an obstacle. */
  predicate Walked(start: seq<real>, goal: seq<real>, obstacles: seq<seq<int>>, r: TraceResult, reached: bool)
    requires |start| == |goal|
  {
    |r.intersections| <= 1 + CeilSum(AbsAll(Sub(goal, start))) &&
    if r.goalReached then
      reached && r.path == r.intersections + [goal] && NoHit(r.intersections, obstacles) &&
      (r.obstacleHit <==> HitsObstacle(goal, obstacles))
    else
      r.obstacleHit && r.path == r.intersections && Stopped(r.intersections, 1, obstacles, true)
  }

  /** With the exact start-equals-goal test, a goal inside an obstacle is
      always reported as a hit, whichever way the traversal ends; and the
      goal is reported reached exactly when no obstacle stopped the walk. */
  lemma ExactOutcomeReportsGoalObstacle(start: seq<real>, goal: seq<real>, obstacles: seq<seq<int>>,
                                        r: TraceResult, reached: bool)
    requires |start| == |goal| && Outcome(start, goal, obstacles, start == goal, r, reached)
    ensures HitsObstacle(goal, obstacles) ==> r.obstacleHit
    ensures !HitsObstacle(start, obstacles) ==>
      (r.goalReached <==> start == goal || NoHit(r.intersections, obstacles))
  {
    if !HitsObstacle(start, obstacles) && start != goal && !r.goalReached {
      var m := |r.intersections| - 1;
      assert r.intersections[m] in r.intersections;
    }
  }

  /** Under the C++ relative test two distinct points far from the origin
      count as equal: [1999999999.999] and [2000000000.0005] lie in adjacent
      cells, yet the C++ traversal between them stops at once, reports the
      goal and no hit although the goal's cell [2000000000], which fits a
      32-bit integer, is an obstacle. */
  lemma ApproxOutcomeMissesGoalObstacle(r: TraceResult, reached: bool)
    requires Outcome([1999999999.999], [2000000000.0005], [[2000000000]],
                     IsApprox([1999999999.999], [2000000000.0005]), r, reached)
    ensures [1999999999.999] != [2000000000.0005]
    ensures HitsObstacle([2000000000.0005], [[2000000000]])
    ensures r.goalReached && !r.obstacleHit && r.path == [[1999999999.999]]
  {
    var a, b := [1999999999.999], [2000000000.0005];
    assert SumSquares(Sub(a, b)) == 0.0015 * 0.0015;
    assert SumSquares(a) == 1999999999.999 * 1999999999.999;
    assert SumSquares(b) == 2000000000.0005 * 2000000000.0005;
    assert IsApprox(a, b);
    FloorUnique(1999999999.999 + SnapTolerance, 1999999999);
    assert SnapToCell(a) == [1999999999];
    FloorUnique(2000000000.0005 + SnapTolerance, 2000000000);
    assert SnapToCell(b) == [2000000000];
  }

  /** How the walk over `pts` ended, `n0` of them given at its start: on a
      hit, at the first point it made that lies in an obstacle cell, all
      points before it free; otherwise with every point free. */
  predicate Stopped(pts: seq<seq<real>>, n0: nat, obstacles: seq<seq<int>>, hit: bool) {
    if hit then |pts| > n0 && HitsObstacle(pts[|pts| - 1], obstacles) && NoHit(pts[..|pts| - 1], obstacles)
    else NoHit(pts, obstacles)
  }

  /** One more point, checked against the obstacles, ends the walk exactly
      when it lies in an obstacle cell. */
  lemma StoppedExtend(pts: seq<seq<real>>, n0: nat, obstacles: seq<seq<int>>, p: seq<real>, hit: bool)
    requires |pts| >= n0 && Stopped(pts, n0, obstacles, false)
    requires hit == HitsObstacle(p, obstacles)
    ensures Stopped(pts + [p], n0, obstacles, hit)
  {
    assert (pts + [p])[..|pts|] == pts;
  }

  /** `cells[j]` is the set of front cells at the j-th of the last |cells|
      corners of `hist`: the last entry of `cells` belongs to the last corner,
      and so on backwards. */
  predicate CellsAlong(cells: seq<seq<seq<int>>>, hist: seq<seq<int>>, rows: seq<seq<int>>)
    decreases |cells|
  {
    |cells| <= |hist| &&
    (cells != [] ==>
      Widths(rows, hist[|hist| - 1]) && cells[|cells| - 1] == CellsAt(hist[|hist| - 1], rows) &&
      CellsAlong(cells[..|cells| - 1], hist[..|hist| - 1], rows))
  }

  /** Every row of offsets has the dimension of the corner `c`. */
  predicate Widths(rows: seq<seq<int>>, c: seq<int>) {
    forall r :: 0 <= r < |rows| ==> |rows[r]| == |c|
  }

  /** Recording one more corner and its front cells keeps the two lists in step. */
  lemma CellsAlongExtend(cells: seq<seq<seq<int>>>, hist: seq<seq<int>>, rows: seq<seq<int>>, c: seq<int>)
    requires CellsAlong(cells, hist, rows) && Widths(rows, c)
    ensures CellsAlong(cells + [CellsAt(c, rows)], hist + [c], rows)
  {
    assert (cells + [CellsAt(c, rows)])[..|cells|] == cells;
    assert (hist + [c])[..|hist|] == hist;
  }

  class NDRayTracer {
    var x0: seq<real>             // starting coordinates
    var deltaX: seq<real>         // goal - start
    var absDeltaX: seq<real>      // |deltaX|, per axis
    var normDeltaX: real          // Euclidean length of deltaX
    var deltaXSign: seq<int>      // sign of deltaX, per axis
    var k: seq<int>               // hyperplane crossings so far, per axis
    var D: seq<ExtReal>           // parametric distance of the next crossing, per axis
    var D0: seq<ExtReal>          // D at initialisation
    var y: seq<int>               // current lattice corner
    var F: seq<seq<int>>          // front-cell offsets relative to y
    var fList: seq<seq<int>>      // rows collected while building F
    var l: real                   // length travelled
    var t: nat                    // steps taken
    var n: nat                    // number of dimensions
    var yCoordsHistory: seq<seq<int>>
    ghost var fraction: real      // the fraction of the segment travelled: l = fraction * ||dx||

    /** The invariant `init` establishes and `next` keeps. */
    ghost predicate Valid()
      reads this`n, this`x0, this`deltaX, this`absDeltaX, this`deltaXSign, this`k, this`D, this`D0, this`y
      reads this`normDeltaX, this`F, this`fList, this`l, this`fraction
    {
      Shaped(n, x0, deltaX, absDeltaX, deltaXSign, k, D, D0, y) && NormValid(deltaX, normDeltaX) &&
      F == FrontOffsets(deltaX, x0, deltaXSign) && fList == F &&
      AxesValid(x0, deltaX, k, D, D0, y) && CrossedByAll(deltaX, D, fraction) &&
      l >= 0.0 && 0.0 <= fraction && (MinOf(D).Fin? ==> fraction < MinOf(D).r)
    }

    /** The length travelled is the travelled fraction of the segment's length. */
    ghost predicate Travelled()
      reads this`l, this`fraction, this`normDeltaX
    {
      l == Scale(fraction, normDeltaX)
    }

    constructor ()
      ensures x0 == [] && deltaX == [] && absDeltaX == [] && deltaXSign == []
      ensures k == [] && D == [] && D0 == [] && y == [] && F == [] && fList == []
      ensures normDeltaX == 0.0 && l == 0.0 && t == 0 && n == 0 && yCoordsHistory == []
    {
      x0, deltaX, absDeltaX, deltaXSign := [], [], [], [];
      k, D, D0, y, F, fList := [], [], [], [], [], [];
      normDeltaX, l, t, n := 0.0, 0.0, 0, 0;
      yCoordsHistory := [];
    }

    /** Facts every valid state offers: the rows of F have length n, the
        minimum distance is finite exactly when the ray moves, and then it is
        positive; a moving axis has a finite initial distance. */
    lemma ValidFacts()
      requires Valid()
      ensures forall j :: 0 <= j < |F| ==> |F[j]| == |y|
      ensures forall i :: 0 <= i < n ==> deltaX[i] != 0.0 ==> D0[i].Fin? && absDeltaX[i] != 0.0
      ensures MinOf(D).Fin? <==> normDeltaX != 0.0
      ensures MinOf(D).Fin? ==> MinOf(D).r > 0.0 && normDeltaX > 0.0
    {
      FrontOffsetsWidth(deltaX, x0, deltaXSign);
      AxesPositive(x0, deltaX, k, D, D0, y);
      MinPositive(D);
    }

    /** The position reached after travelling `l`: the start when the ray has
        no extent, otherwise the point at fraction l/||dx|| of the segment. */
    function Coords(): (p: seq<real>)
      reads this`x0, this`deltaX, this`l, this`normDeltaX
      requires |x0| == |deltaX|
      ensures |p| == |x0|
      ensures normDeltaX == 0.0 || l == 0.0 ==> p == x0
    {
      if normDeltaX == 0.0 then x0
      else
        PointAtZero(x0, deltaX);
        PointAt(x0, deltaX, l / normDeltaX)
    }
    function Length(): (len: real)
      reads this`n, this`x0, this`deltaX, this`absDeltaX, this`deltaXSign, this`k, this`D, this`D0, this`y
      reads this`normDeltaX, this`F, this`fList, this`l, this`fraction
      requires Valid()
      ensures len >= 0.0
    {
      l
    }

    /** The goal is reached when the smallest distance is at least 1, that is
        when no crossing is left on any axis before the goal. */
    function Reached(): (r: bool)
      reads this`D
      requires |D| > 0
      ensures r <==> forall i :: 0 <= i < |D| ==> AtLeastOne(D[i])
    {
      MinAtLeastOne(D);
      AtLeastOne(MinOf(D))
    }

    /** The front cells: the corner plus each row of F, in F's order. */
    method FrontCells() returns (cells: seq<seq<int>>)
      requires forall j :: 0 <= j < |F| ==> |F[j]| == |y|
      ensures |cells| == |F|
      ensures forall j :: 0 <= j < |F| ==> cells[j] == AddInt(y, F[j])
      ensures cells == CellsAt(y, F)
    {
      cells := [];
      for j := 0 to |F|
        invariant cells == CellsAt(y, F[..j])
      {
        cells := cells + [AddInt(y, F[j])];
      }
      assert F[..|F|] == F;
    }

    /** Fills `fList` with every completion of `currentF[..dim]`, choosing
        both -1 and 0 on an ambiguous axis and the single fixed offset on any
        other, in depth-first order. */
    method DetermineFrontCellsRecursive(dim: nat, currentF: array<int>)
      requires |x0| == n && |deltaX| == n && |deltaXSign| == n
      requires currentF.Length == n && dim <= n
      modifies this`fList, currentF
      ensures currentF[..dim] == old(currentF[..dim])
      ensures fList == old(fList) + FrontRows(deltaX, x0, deltaXSign, old(currentF[..dim]))
      decreases n - dim, 1
    {
      if dim == n {
        fList := fList + [currentF[..]];
        assert currentF[..] == currentF[..dim];
        return;
      }
      var isDeltaXZero := deltaX[dim] == 0.0;
      var isX0Integer := IsInteger(x0[dim]);
      if isDeltaXZero && isX0Integer {
        ChooseOffset(dim, currentF, -1);
        ChooseOffset(dim, currentF, 0);
      } else {
        ChooseOffset(dim, currentF, if deltaXSign[dim] < 0 then -1 else 0);
      }
    }

    /** One branch of the recursion: offset `v` on axis `dim`, then every
        completion of the longer prefix. */
    method ChooseOffset(dim: nat, currentF: array<int>, v: int)
      requires |x0| == n && |deltaX| == n && |deltaXSign| == n
      requires currentF.Length == n && dim < n
      modifies this`fList, currentF
      ensures currentF[..dim] == old(currentF[..dim])
      ensures fList == old(fList) + FrontRows(deltaX, x0, deltaXSign, old(currentF[..dim]) + [v])
      decreases n - dim, 0
    {
      ghost var prefix := currentF[..dim];
      currentF[dim] := v;
      assert currentF[..dim + 1] == prefix + [v];
      DetermineFrontCellsRecursive(dim + 1, currentF);
      assert currentF[..dim] == currentF[..dim + 1][..dim];
    }

    /** Rebuilds F from scratch by the recursive construction. */
    method DetermineFrontCells()
      requires |x0| == n && |deltaX| == n && |deltaXSign| == n
      modifies this`fList, this`F
      ensures fList == FrontOffsets(deltaX, x0, deltaXSign) && F == fList
    {
      fList := [];
      var currentF := new int[n];
      DetermineFrontCellsRecursive(0, currentF);
      F := fList;
    }

    /** Initialises a traversal from `start` to `goal`; `normDelta` is the
        Euclidean length of `goal - start`, which is zero exactly when the two
        points coincide. */
    method Init(start: seq<real>, goal: seq<real>, normDelta: real) returns (info: InitInfo)
      requires |start| == |goal| >= 1
      requires normDelta >= 0.0 && (normDelta == 0.0 <==> start == goal)
      modifies this
      ensures Valid() && Travelled() && fraction == 0.0
      ensures x0 == start && deltaX == Sub(goal, start) && normDeltaX == normDelta && n == |start|
      ensures t == 0 && l == 0.0 && forall i :: 0 <= i < n ==> k[i] == 0
      ensures y == StartCorner(start, deltaX)
      ensures yCoordsHistory == old(yCoordsHistory) + [y]
      ensures D == InitialDistances(start, deltaX) && D0 == D
      ensures forall j :: 0 <= j < |F| ==> |F[j]| == |y|
      ensures info == InitInfo([CellsAt(y, F)], [], 0.0, Reached())
    {
      InitVectors(start, goal, normDelta);
      DetermineFrontCells();
      FrontOffsetsWidth(deltaX, x0, deltaXSign);
      var cells := FrontCells();
      InitialValid(start, goal, normDelta, absDeltaX, deltaXSign, k, D, y);
      ScaleZero(fraction, normDeltaX);
      info := InitInfo([cells], [], Length(), Reached());
    }

    /** The vector steps of `init`: the segment's difference, its absolute
        values and signs, no length and no crossing yet, the initial corner
        `[x0 | -dx]` (recorded in the corner history) and the initial
        distances.  The distances depend on x0 and dx alone, so computing
        them before the front cells, as here, changes nothing. */
    method InitVectors(start: seq<real>, goal: seq<real>, normDelta: real)
      requires |start| == |goal| >= 1
      modifies this`x0, this`n, this`t, this`deltaX, this`absDeltaX, this`deltaXSign, this`l, this`fraction
      modifies this`k, this`normDeltaX, this`y, this`D, this`D0, this`yCoordsHistory
      ensures x0 == start && n == |start| && t == 0 && deltaX == Sub(goal, start)
      ensures absDeltaX == AbsAll(deltaX) && deltaXSign == SignAll(deltaX)
      ensures l == 0.0 && fraction == 0.0 && k == Zeros(n) && normDeltaX == normDelta
      ensures y == StartCorner(start, deltaX) && yCoordsHistory == old(yCoordsHistory) + [y]
      ensures D == InitialDistances(start, deltaX) && D0 == D
    {
      var dx := Sub(goal, start);
      var corner := FloorCeilConditional(start, Neg(dx));
      assert corner == StartCorner(start, dx);
      var d := ComputeInitialDistances(start, dx);
      x0, n, t, deltaX, absDeltaX, deltaXSign, l, k, normDeltaX, y, D, D0, yCoordsHistory :=
        start, |start|, 0, dx, AbsAll(dx), SignAll(dx), 0.0, Zeros(|dx|), normDelta, corner, d, d, yCoordsHistory + [corner];
      fraction := 0.0;
    }

    /** The C++ `init`: the same initialisation, but the corner history is
        cleared first, and the report carries the current coordinates. */
    method InitCpp(start: seq<real>, goal: seq<real>, normDelta: real) returns (info: StepInfo)
      requires |start| == |goal| >= 1
      requires normDelta >= 0.0 && (normDelta == 0.0 <==> start == goal)
      modifies this
      ensures Valid() && Travelled() && fraction == 0.0
      ensures x0 == start && deltaX == Sub(goal, start) && normDeltaX == normDelta && n == |start|
      ensures t == 0 && l == 0.0 && forall i :: 0 <= i < n ==> k[i] == 0
      ensures y == StartCorner(start, deltaX)
      ensures yCoordsHistory == [y]
      ensures D == InitialDistances(start, deltaX) && D0 == D
      ensures forall j :: 0 <= j < |F| ==> |F[j]| == |y|
      ensures info == StepInfo(CellsAt(y, F), start, 0.0, Reached())
    {
      yCoordsHistory := [];
      var _ := Init(start, goal, normDelta);
      ValidFacts();
      var cells := FrontCells();
      var coords := Coords();
      info := StepInfo(cells, coords, Length(), Reached());
    }

    /** Advances to the next hyperplane crossing.  The axes tied at the
        smallest distance m are crossed together (Stepped): each of them
        counts one more crossing, moves its corner coordinate by its sign and
        pushes its distance one cell further; no other axis changes.  The
        travelled fraction becomes m and the length m times the segment's
        length.  The move is the next crossing of the lattice (CrossingStep):
        the new position, the point at fraction m, lies on the hyperplane of
        every crossed axis at the new corner and on no hyperplane of any
        other axis, and no hyperplane lies between the old position and the
        new one. */
    method Next() returns (info: StepInfo)
      requires Valid() && Travelled() && MinOf(D).Fin?
      modifies this`k, this`D, this`y, this`l, this`fraction, this`t, this`fList, this`F
      ensures Valid() && Travelled()
      ensures F == old(F)
      ensures t == old(t) + 1
      ensures fraction == old(MinOf(D)).r && l == Scale(fraction, normDeltaX) && l >= old(l)
      ensures Stepped(deltaX, absDeltaX, deltaXSign, old(k), old(D), D0, old(y), old(MinOf(D)), k, D, y)
      ensures CrossingStep(x0, deltaX, old(fraction), fraction, old(y), y)
      ensures StrictlyBelow(old(MinOf(D)), MinOf(D))
      ensures Coords() == PointAt(x0, deltaX, fraction)
      ensures forall j :: 0 <= j < |F| ==> |F[j]| == |y|
      ensures !old(Reached()) ==> Remaining(D, absDeltaX) < old(Remaining(D, absDeltaX))
      ensures info == StepInfo(CellsAt(y, F), Coords(), l, Reached())
    {
      var minD := MinOf(D);
      var iStar := TiedAxes(D, minD);
      ghost var k1, D1, y1, f1 := k, D, y, fraction;
      ValidFacts();
      Update(iStar, minD);
      FrontOffsetsWidth(deltaX, x0, deltaXSign);
      var cells := FrontCells();
      StepValid(k1, D1, y1, f1, minD);
      CoordsAtFraction();
      var coords := Coords();
      info := StepInfo(cells, coords, Length(), Reached());
    }

    /** The state updates of `next`, in its order: the crossing itself
        (Advance), then F rebuilt for the new state. */
    method Update(iStar: seq<nat>, m: ExtReal)
      requires |x0| == n && |deltaX| == n && |deltaXSign| == n
      requires |k| == n && |D| == n && |D0| == n && |y| == n && |absDeltaX| == n
      requires forall i :: 0 <= i < n ==> deltaX[i] != 0.0 ==> D0[i].Fin? && absDeltaX[i] != 0.0
      requires forall i: nat :: i in iStar <==> i < |D| && D[i] == m
      requires forall j :: 0 <= j < |iStar| ==> iStar[j] < |D|
      requires forall a, b :: 0 <= a < b < |iStar| ==> iStar[a] < iStar[b]
      requires m.Fin?
      modifies this`k, this`D, this`y, this`l, this`fraction, this`t, this`fList, this`F
      ensures |k| == n && |D| == n && |y| == n
      ensures Stepped(deltaX, absDeltaX, deltaXSign, old(k), old(D), D0, old(y), m, k, D, y)
      ensures l == Scale(m.r, normDeltaX) && fraction == m.r && t == old(t) + 1
      ensures fList == FrontOffsets(deltaX, x0, deltaXSign) && F == fList
    {
      Advance(iStar, m);
      DetermineFrontCells();
    }

    /** The crossing `next` performs, in its order: every axis of `iStar`,
        which holds exactly the axes at distance `m`, makes one crossing; the
        ray travels to fraction `m`; the step counter rises. */
    method Advance(iStar: seq<nat>, m: ExtReal)
      requires |k| == n && |D| == n && |D0| == n && |y| == n
      requires |deltaX| == n && |absDeltaX| == n && |deltaXSign| == n
      requires forall i :: 0 <= i < n ==> deltaX[i] != 0.0 ==> D0[i].Fin? && absDeltaX[i] != 0.0
      requires forall i: nat :: i in iStar <==> i < |D| && D[i] == m
      requires forall j :: 0 <= j < |iStar| ==> iStar[j] < |D|
      requires forall a, b :: 0 <= a < b < |iStar| ==> iStar[a] < iStar[b]
      requires m.Fin?
      modifies this`k, this`D, this`y, this`l, this`fraction, this`t
      ensures |k| == n && |D| == n && |y| == n
      ensures Stepped(deltaX, absDeltaX, deltaXSign, old(k), old(D), D0, old(y), m, k, D, y)
      ensures l == Scale(m.r, normDeltaX) && fraction == m.r && t == old(t) + 1
    {
      CountCrossings(iStar);
      l := Scale(m.r, normDeltaX);
      fraction := m.r;
      AdvanceDistances(iStar);
      MoveCorner(iStar);
      t := t + 1;
    }

    /** The state after the three update loops of `next` is valid again. */
    lemma StepValid(k1: seq<int>, D1: seq<ExtReal>, y1: seq<int>, f1: real, minD: ExtReal)
      requires Shaped(n, x0, deltaX, absDeltaX, deltaXSign, k1, D1, D0, y1)
      requires |k| == n && |D| == n && |y| == n
      requires NormValid(deltaX, normDeltaX) && normDeltaX > 0.0
      requires F == FrontOffsets(deltaX, x0, deltaXSign) && fList == F
      requires AxesValid(x0, deltaX, k1, D1, D0, y1)
      requires forall i :: 0 <= i < n ==> deltaX[i] != 0.0 ==> D0[i].Fin? && absDeltaX[i] != 0.0
      requires minD == MinOf(D1) && minD.Fin? && 0.0 <= f1 < minD.r && CrossedByAll(deltaX, D1, f1)
      requires Stepped(deltaX, absDeltaX, deltaXSign, k1, D1, D0, y1, minD, k, D, y)
      requires l == Scale(minD.r, normDeltaX) && fraction == minD.r
      ensures Valid() && Travelled()
      ensures l >= Scale(f1, normDeltaX)
      ensures StrictlyBelow(minD, MinOf(D))
      ensures !AtLeastOne(minD) ==> Remaining(D, absDeltaX) < Remaining(D1, absDeltaX)
      ensures CrossingStep(x0, deltaX, f1, fraction, y1, y)
    {
      AxesPositive(x0, deltaX, k1, D1, D0, y1);
      StepAxes(x0, deltaX, absDeltaX, deltaXSign, k1, D1, D0, y1, minD, k, D, y);
      StepCrossings(x0, deltaX, absDeltaX, deltaXSign, k1, D1, D0, y1, f1, minD, k, D, y);
      StepProgress(D1, D, absDeltaX, minD);
      LengthStep(f1, minD.r, normDeltaX);
    }

    /** On a segment of positive length the position is the point at the
        travelled fraction. */
    lemma CoordsAtFraction()
      requires |x0| == |deltaX| && normDeltaX > 0.0 && Travelled()
      ensures Coords() == PointAt(x0, deltaX, fraction)
    {
      MulDivCancel(fraction, normDeltaX);
      assert l / normDeltaX == fraction;
    }

    /** The first update loop of `next`: one more crossing on every axis of `iStar`. */
    method CountCrossings(iStar: seq<nat>)
      requires forall j :: 0 <= j < |iStar| ==> iStar[j] < |k|
      requires forall a, b :: 0 <= a < b < |iStar| ==> iStar[a] < iStar[b]
      modifies this`k
      ensures |k| == |old(k)|
      ensures forall i :: 0 <= i < |k| ==> k[i] == old(k[i]) + (if i in iStar then 1 else 0)
    {
      for j := 0 to |iStar|
        invariant |k| == |old(k)|
        invariant forall i :: 0 <= i < |k| ==> k[i] == old(k[i]) + (if i in iStar[..j] then 1 else 0)
      {
        assert iStar[..j + 1] == iStar[..j] + [iStar[j]];
        k := k[iStar[j] := k[iStar[j]] + 1];
      }
      assert iStar[..|iStar|] == iStar;
    }

    /** The second update loop of `next`: every axis of `iStar` moves its
        distance to its next crossing, D0 + k/|dx|, or to +infinity on a
        still axis. */
    method AdvanceDistances(iStar: seq<nat>)
      requires |D| == |D0| == |k| == |deltaX| == |absDeltaX|
      requires forall i :: 0 <= i < |D| ==> deltaX[i] != 0.0 ==> D0[i].Fin? && absDeltaX[i] != 0.0
      requires forall j :: 0 <= j < |iStar| ==> iStar[j] < |D|
      requires forall a, b :: 0 <= a < b < |iStar| ==> iStar[a] < iStar[b]
      modifies this`D
      ensures |D| == |old(D)|
      ensures forall i :: 0 <= i < |D| ==>
        D[i] == if i in iStar then (if deltaX[i] != 0.0 then Fin(D0[i].r + k[i] as real / absDeltaX[i]) else Inf)
                else old(D[i])
    {
      for j := 0 to |iStar|
        invariant |D| == |old(D)|
        invariant forall i :: 0 <= i < |D| ==>
          D[i] == if i in iStar[..j] then (if deltaX[i] != 0.0 then Fin(D0[i].r + k[i] as real / absDeltaX[i]) else Inf)
                  else old(D[i])
      {
        assert iStar[..j + 1] == iStar[..j] + [iStar[j]];
        var i := iStar[j];
        if deltaX[i] != 0.0 {
          D := D[i := Fin(D0[i].r + k[i] as real / absDeltaX[i])];
        } else {
          D := D[i := Inf];
        }
      }
      assert iStar[..|iStar|] == iStar;
    }

    /** The third update loop of `next`: the corner moves by the sign of dx on
        every axis of `iStar`. */
    method MoveCorner(iStar: seq<nat>)
      requires |y| == |deltaXSign|
      requires forall j :: 0 <= j < |iStar| ==> iStar[j] < |y|
      requires forall a, b :: 0 <= a < b < |iStar| ==> iStar[a] < iStar[b]
      modifies this`y
      ensures |y| == |old(y)|
      ensures forall i :: 0 <= i < |y| ==> y[i] == old(y[i]) + (if i in iStar then deltaXSign[i] else 0)
    {
      for j := 0 to |iStar|
        invariant |y| == |old(y)|
        invariant forall i :: 0 <= i < |y| ==> y[i] == old(y[i]) + (if i in iStar[..j] then deltaXSign[i] else 0)
      {
        assert iStar[..j + 1] == iStar[..j] + [iStar[j]];
        y := y[iStar[j] := y[iStar[j]] + deltaXSign[iStar[j]]];
      }
      assert iStar[..|iStar|] == iStar;
    }

    /** A complete traversal from `start` to `goal` through the lattice, with
        `normDelta` the Euclidean length of `goal - start` and `obstacles`
        the obstacle cells (an absent list is the empty one).

        A start inside an obstacle reports the hit and no goal; a start equal
        to the goal reports the goal at once.  Otherwise the tracer steps from
        crossing to crossing: every crossing point lies further along the
        segment (AlongSegment); each comes with its corner, appended to the
        history, and its front cells; each point and corner follow the ones
        before by one lattice crossing, with no hyperplane skipped
        (Crossings); and there are at most sum(ceil(|dx_i|)) of them after the
        start.  The walk either ends at the first crossing point
        inside an obstacle, all before it free, and reports the hit without
        the goal; or it passes every crossing, all free, appends the goal
        (which is never itself a crossing point) to the path and reports the
        goal, and a hit exactly when the goal lies in an obstacle. */
    method Traverse(start: seq<real>, goal: seq<real>, normDelta: real, obstacles: seq<seq<int>>)
      returns (r: TraceResult, ghost fr: seq<real>, ghost cs: seq<seq<int>>)
      requires |start| == |goal| >= 1
      requires normDelta >= 0.0 && (normDelta == 0.0 <==> start == goal)
      modifies this
      ensures Valid() && x0 == start && deltaX == Sub(goal, start) && F == FrontOffsets(deltaX, x0, deltaXSign)
      ensures AlongSegment(start, deltaX, fr, r.intersections) && r.intersections[0] == start
      ensures r.corners == yCoordsHistory == old(yCoordsHistory) + cs
      ensures Crossings(start, deltaX, fr, cs) && cs[0] == StartCorner(start, deltaX)
      ensures CellsAlong(r.frontCells, r.corners, F) && |r.frontCells| == |r.intersections|
      ensures Outcome(start, goal, obstacles, start == goal, r, Reached())
      ensures !HitsObstacle(start, obstacles) && start != goal && r.goalReached ==>
        NoPlaneAfter(start, deltaX, fr[|fr| - 1])
    {
      ghost var hist0 := yCoordsHistory;
      var path, allFrontCells, intersections := Begin(start, goal, normDelta);
      fr, cs := [0.0], [y];
      var goalReached, obstacleHit := false, false;
      var startHit := IsHitObstacle(x0, obstacles);
      if startHit {
        obstacleHit := true;
        r := TraceResult(path, allFrontCells, intersections, yCoordsHistory, obstacleHit, goalReached);
        return;
      }
      if x0 == goal {
        goalReached := true;
        r := TraceResult(path, allFrontCells, intersections, yCoordsHistory, obstacleHit, goalReached);
        return;
      }
      r, fr, cs := Finish(goal, obstacles, path, allFrontCells, hist0);
    }

    /** The loop and the end of `traverse`, from a start that is neither the
        goal nor in an obstacle: walk, and unless an obstacle stopped the
        walk, end the path at the goal (when it does not already end there),
        report the goal reached, and report a hit when the goal lies in an
        obstacle.  `pre` is the corner history before `init`. */
    method Finish(goal: seq<real>, obstacles: seq<seq<int>>, path0: seq<seq<real>>, cells0: seq<seq<seq<int>>>,
                  ghost pre: seq<seq<int>>)
      returns (r: TraceResult, ghost fr: seq<real>, ghost cs: seq<seq<int>>)
      requires Valid() && Travelled() && fraction == 0.0
      requires |goal| == |x0| && deltaX == Sub(goal, x0) && x0 != goal && D == InitialDistances(x0, deltaX)
      requires path0 == [x0] && !HitsObstacle(x0, obstacles)
      requires CellsAlong(cells0, yCoordsHistory, F) && |cells0| == 1 && yCoordsHistory == pre + [y]
      modifies this`k, this`D, this`y, this`l, this`fraction, this`t, this`fList, this`F, this`yCoordsHistory
      ensures Valid() && F == old(F)
      ensures AlongSegment(x0, deltaX, fr, r.intersections) && r.intersections[0] == x0
      ensures r.corners == yCoordsHistory == pre + cs
      ensures Crossings(x0, deltaX, fr, cs) && cs[0] == old(y)
      ensures CellsAlong(r.frontCells, r.corners, F) && |r.frontCells| == |r.intersections|
      ensures Walked(x0, goal, obstacles, r, Reached())
      ensures r.goalReached ==> NoPlaneAfter(x0, deltaX, fr[|fr| - 1])
    {
      var path, allFrontCells, intersections, obstacleHit;
      path, allFrontCells, intersections, obstacleHit, fr, cs := Walk(goal, obstacles, path0, cells0, pre);
      var goalReached := false;
      if !obstacleHit {
        if path == [] || path[|path| - 1] != goal {
          path := path + [goal];
        }
        goalReached := true;
        var goalHit := IsHitObstacle(goal, obstacles);
        if goalHit {
          obstacleHit := true;
        }
      }
      r := TraceResult(path, allFrontCells, intersections, yCoordsHistory, obstacleHit, goalReached);
    }

    /** The set-up of `traverse`: initialise, then start the path and the
        crossing points at the start and the front cells at the first
        corner's.  (On a start off the lattice the Python implementation
        takes the front cells from `init`'s report, which holds the same
        single entry, and appends `init`'s coordinates, of which there are
        none.) */
    method Begin(start: seq<real>, goal: seq<real>, normDelta: real)
      returns (path: seq<seq<real>>, allFrontCells: seq<seq<seq<int>>>, intersections: seq<seq<real>>)
      requires |start| == |goal| >= 1
      requires normDelta >= 0.0 && (normDelta == 0.0 <==> start == goal)
      modifies this
      ensures Valid() && Travelled() && fraction == 0.0
      ensures x0 == start && deltaX == Sub(goal, start) && normDeltaX == normDelta
      ensures absDeltaX == AbsAll(deltaX) && D == InitialDistances(start, deltaX)
      ensures y == StartCorner(start, deltaX) && yCoordsHistory == old(yCoordsHistory) + [y]
      ensures Widths(F, y) && path == [start] && intersections == [start] && allFrontCells == [CellsAt(y, F)]
      ensures AlongSegment(x0, deltaX, [0.0], path)
      ensures CellsAlong(allFrontCells, yCoordsHistory, F)
    {
      ghost var hist0 := yCoordsHistory;
      var stepInfo := Init(start, goal, normDelta);
      path := [x0];
      ValidFacts();
      var cells := FrontCells();
      allFrontCells := [cells];
      if forall i | 0 <= i < |x0| :: IsInteger(x0[i]) {
        intersections := [x0];
      } else {
        allFrontCells := stepInfo.frontCells;
        intersections := [x0];
        if stepInfo.lastCoordinates != [] {
          path := path + stepInfo.lastCoordinates;
          intersections := intersections + stepInfo.lastCoordinates;
        }
      }
      PointAtZero(x0, deltaX);
      CellsAlongStart(hist0, y, F);
      assert absDeltaX == AbsAll(deltaX);
    }

    /** The C++ `traverse`.  It differs from Traverse in three ways: its
        `init` clears the corner history, so the history holds this
        traversal's corners only; it tests the start against the goal with
        Eigen's relative `isApprox` instead of exact equality; and after a
        walk that reached the goal it appends the goal to the path without
        testing the last point (which Traverse's test never stops).  Its loop
        records the front cells before the obstacle test rather than in both
        branches after it, which records the same lists, and is Walk. */
    method TraverseCpp(start: seq<real>, goal: seq<real>, normDelta: real, obstacles: seq<seq<int>>)
      returns (r: TraceResult, ghost fr: seq<real>, ghost cs: seq<seq<int>>)
      requires |start| == |goal| >= 1
      requires normDelta >= 0.0 && (normDelta == 0.0 <==> start == goal)
      modifies this
      ensures Valid() && x0 == start && deltaX == Sub(goal, start) && F == FrontOffsets(deltaX, x0, deltaXSign)
      ensures AlongSegment(start, deltaX, fr, r.intersections) && r.intersections[0] == start
      ensures r.corners == yCoordsHistory == cs
      ensures Crossings(start, deltaX, fr, cs) && cs[0] == StartCorner(start, deltaX)
      ensures CellsAlong(r.frontCells, r.corners, F) && |r.frontCells| == |r.intersections|
      ensures Outcome(start, goal, obstacles, IsApprox(start, goal), r, Reached())
      ensures !HitsObstacle(start, obstacles) && !IsApprox(start, goal) && r.goalReached ==>
        NoPlaneAfter(start, deltaX, fr[|fr| - 1])
    {
      var path, allFrontCells, intersections := BeginCpp(start, goal, normDelta);
      r, fr, cs := EndCpp(goal, obstacles, path, allFrontCells);
    }

    /** The C++ `traverse` after `init`. */
    method EndCpp(goal: seq<real>, obstacles: seq<seq<int>>, path0: seq<seq<real>>, cells0: seq<seq<seq<int>>>)
      returns (r: TraceResult, ghost fr: seq<real>, ghost cs: seq<seq<int>>)
      requires Valid() && Travelled() && fraction == 0.0
      requires |goal| == |x0| && deltaX == Sub(goal, x0) && D == InitialDistances(x0, deltaX)
      requires path0 == [x0] && yCoordsHistory == [y]
      requires CellsAlong(cells0, yCoordsHistory, F) && |cells0| == 1
      modifies this`k, this`D, this`y, this`l, this`fraction, this`t, this`fList, this`F, this`yCoordsHistory
      ensures Valid() && F == old(F)
      ensures AlongSegment(x0, deltaX, fr, r.intersections) && r.intersections[0] == x0
      ensures r.corners == yCoordsHistory == cs
      ensures Crossings(x0, deltaX, fr, cs) && cs[0] == old(y)
      ensures CellsAlong(r.frontCells, r.corners, F) && |r.frontCells| == |r.intersections|
      ensures Outcome(x0, goal, obstacles, IsApprox(x0, goal), r, Reached())
      ensures !HitsObstacle(x0, obstacles) && !IsApprox(x0, goal) && r.goalReached ==>
        NoPlaneAfter(x0, deltaX, fr[|fr| - 1])
    {
      fr, cs := [0.0], [y];
      PointAtZero(x0, deltaX);
      var goalReached, obstacleHit := false, false;
      var startHit := IsHitObstacle(x0, obstacles);
      if startHit {
        obstacleHit := true;
        r := TraceResult(path0, cells0, path0, yCoordsHistory, obstacleHit, goalReached);
        return;
      }
      if IsApprox(x0, goal) {
        goalReached := true;
        r := TraceResult(path0, cells0, path0, yCoordsHistory, obstacleHit, goalReached);
        return;
      }
      IsApproxReflexive(x0);
      r, fr, cs := FinishCpp(goal, obstacles, path0, cells0, []);
    }

    /** The loop and the end of the C++ `traverse`: as Finish, but the goal
        is appended to the path without looking at its last point. */
    method FinishCpp(goal: seq<real>, obstacles: seq<seq<int>>, path0: seq<seq<real>>, cells0: seq<seq<seq<int>>>,
                     ghost pre: seq<seq<int>>)
      returns (r: TraceResult, ghost fr: seq<real>, ghost cs: seq<seq<int>>)
      requires Valid() && Travelled() && fraction == 0.0
      requires |goal| == |x0| && deltaX == Sub(goal, x0) && x0 != goal && D == InitialDistances(x0, deltaX)
      requires path0 == [x0] && !HitsObstacle(x0, obstacles)
      requires CellsAlong(cells0, yCoordsHistory, F) && |cells0| == 1 && yCoordsHistory == pre + [y]
      modifies this`k, this`D, this`y, this`l, this`fraction, this`t, this`fList, this`F, this`yCoordsHistory
      ensures Valid() && F == old(F)
      ensures AlongSegment(x0, deltaX, fr, r.intersections) && r.intersections[0] == x0
      ensures r.corners == yCoordsHistory == pre + cs
      ensures Crossings(x0, deltaX, fr, cs) && cs[0] == old(y)
      ensures CellsAlong(r.frontCells, r.corners, F) && |r.frontCells| == |r.intersections|
      ensures Walked(x0, goal, obstacles, r, Reached())
      ensures r.goalReached ==> NoPlaneAfter(x0, deltaX, fr[|fr| - 1])
    {
      var path, allFrontCells, intersections, obstacleHit;
      path, allFrontCells, intersections, obstacleHit, fr, cs := Walk(goal, obstacles, path0, cells0, pre);
      var goalReached := false;
      if !obstacleHit {
        path := path + [goal];
        goalReached := true;
        var goalHit := IsHitObstacle(goal, obstacles);
        if goalHit {
          obstacleHit := true;
        }
      }
      r := TraceResult(path, allFrontCells, intersections, yCoordsHistory, obstacleHit, goalReached);
    }

    /** The set-up of the C++ `traverse`: the C++ `init`, then the path and
        the crossing points start at the start and the front cells at the
        first corner's. */
    method BeginCpp(start: seq<real>, goal: seq<real>, normDelta: real)
      returns (path: seq<seq<real>>, allFrontCells: seq<seq<seq<int>>>, intersections: seq<seq<real>>)
      requires |start| == |goal| >= 1
      requires normDelta >= 0.0 && (normDelta == 0.0 <==> start == goal)
      modifies this
      ensures Valid() && Travelled() && fraction == 0.0
      ensures x0 == start && deltaX == Sub(goal, start) && normDeltaX == normDelta
      ensures absDeltaX == AbsAll(deltaX) && D == InitialDistances(start, deltaX)
      ensures y == StartCorner(start, deltaX) && yCoordsHistory == [y]
      ensures Widths(F, y) && path == [start] && intersections == [start] && allFrontCells == [CellsAt(y, F)]
      ensures AlongSegment(x0, deltaX, [0.0], path)
      ensures CellsAlong(allFrontCells, yCoordsHistory, F)
    {
      var _ := InitCpp(start, goal, normDelta);
      path := [x0];
      var cells := FrontCells();
      allFrontCells := [cells];
      intersections := [x0];
      PointAtZero(x0, deltaX);
      CellsAlongStart([], y, F);
      assert [] + [y] == [y];
      assert absDeltaX == AbsAll(deltaX);
    }

    /** The loop of `traverse`, entered from the start `x0` when it is not the
        goal and lies in no obstacle: while the goal is not reached, step to
        the next crossing, record its point in the path and among the
        crossing points, record the new corner in the history and the new
        front cells, and stop at the first point that lies in an obstacle
        cell.  Every recorded point lies further along the segment than the
        one before it, by one lattice crossing (Crossings), none is the goal,
        and at most sum(ceil(|dx_i|)) of them follow the start.  A walk that
        reaches the goal leaves no hyperplane between its last point and the
        goal.  `pre` is the corner history before `init`. */
    method Walk(ghost goal: seq<real>, obstacles: seq<seq<int>>, path0: seq<seq<real>>, cells0: seq<seq<seq<int>>>,
                ghost pre: seq<seq<int>>)
      returns (path: seq<seq<real>>, allFrontCells: seq<seq<seq<int>>>, intersections: seq<seq<real>>,
               obstacleHit: bool, ghost fr: seq<real>, ghost cs: seq<seq<int>>)
      requires Valid() && Travelled() && fraction == 0.0
      requires |goal| == |x0| && deltaX == Sub(goal, x0) && x0 != goal && D == InitialDistances(x0, deltaX)
      requires path0 == [x0] && !HitsObstacle(x0, obstacles)
      requires CellsAlong(cells0, yCoordsHistory, F) && |cells0| == 1 && yCoordsHistory == pre + [y]
      modifies this`k, this`D, this`y, this`l, this`fraction, this`t, this`fList, this`F, this`yCoordsHistory
      ensures Valid() && Travelled() && F == old(F)
      ensures path == intersections && AlongSegment(x0, deltaX, fr, intersections) && intersections[0] == x0
      ensures CellsAlong(allFrontCells, yCoordsHistory, F) && |allFrontCells| == |intersections|
      ensures yCoordsHistory == pre + cs && Crossings(x0, deltaX, fr, cs) && cs[0] == old(y)
      ensures |intersections| <= 1 + CeilSum(AbsAll(deltaX))
      ensures Stopped(intersections, 1, obstacles, obstacleHit)
      ensures !obstacleHit ==> Reached() && NoPlaneAfter(x0, deltaX, fr[|fr| - 1])
      ensures forall j :: 0 <= j < |intersections| ==> intersections[j] != goal
    {
      assert absDeltaX == AbsAll(deltaX);
      InitialRemainingBound(x0, deltaX, absDeltaX);
      ghost var rem0 := Remaining(D, absDeltaX);
      PointAtZero(x0, deltaX);
      path, allFrontCells, intersections, obstacleHit, fr, cs := path0, cells0, path0, false, [0.0], [y];
      while !obstacleHit && !Reached()
        invariant Valid() && Travelled() && F == old(F)
        invariant path == intersections && |intersections| >= 1
        invariant AlongSegment(x0, deltaX, fr, intersections) && fr[|fr| - 1] == fraction
        invariant CellsAlong(allFrontCells, yCoordsHistory, F) && |allFrontCells| == |intersections|
        invariant yCoordsHistory == pre + cs && Crossings(x0, deltaX, fr, cs) && cs[0] == old(y)
        invariant cs[|cs| - 1] == y
        invariant Stopped(intersections, 1, obstacles, obstacleHit)
        invariant |intersections| - 1 + Remaining(D, absDeltaX) <= rem0
        decreases !obstacleHit, Remaining(D, absDeltaX)
      {
        path, allFrontCells, intersections, obstacleHit, fr, cs :=
          Step(obstacles, path, allFrontCells, intersections, fr, cs, pre);
      }
      AlongSegmentMissesGoal(x0, goal, fr, intersections);
      if !obstacleHit {
        ReachedNoPlaneAfter(x0, deltaX, k, D, D0, y, fraction);
      }
    }

    /** One pass of the loop of `traverse`: cross to the next hyperplane
        (Cross), then record the new position in the path and among the
        crossing points, and the new front cells.  The position lies further
        along the segment, still short of its end, and fewer crossings are
        left. */
    method Step(obstacles: seq<seq<int>>, path0: seq<seq<real>>, cells0: seq<seq<seq<int>>>,
                inter0: seq<seq<real>>, ghost fr0: seq<real>, ghost cs0: seq<seq<int>>, ghost pre: seq<seq<int>>)
      returns (path: seq<seq<real>>, allFrontCells: seq<seq<seq<int>>>, intersections: seq<seq<real>>,
               hit: bool, ghost fr: seq<real>, ghost cs: seq<seq<int>>)
      requires Valid() && Travelled() && !Reached()
      requires AlongSegment(x0, deltaX, fr0, inter0) && fr0[|fr0| - 1] == fraction
      requires CellsAlong(cells0, yCoordsHistory, F)
      requires |inter0| >= 1 && Stopped(inter0, 1, obstacles, false)
      requires Crossings(x0, deltaX, fr0, cs0) && cs0[|cs0| - 1] == y && yCoordsHistory == pre + cs0
      modifies this`k, this`D, this`y, this`l, this`fraction, this`t, this`fList, this`F, this`yCoordsHistory
      ensures Valid() && Travelled() && F == old(F)
      ensures path == path0 + [PointAt(x0, deltaX, fraction)]
      ensures intersections == inter0 + [PointAt(x0, deltaX, fraction)]
      ensures fr == fr0 + [fraction] && AlongSegment(x0, deltaX, fr, intersections)
      ensures yCoordsHistory == old(yCoordsHistory) + [y]
      ensures Widths(F, y) && allFrontCells == cells0 + [CellsAt(y, F)] && CellsAlong(allFrontCells, yCoordsHistory, F)
      ensures hit == HitsObstacle(PointAt(x0, deltaX, fraction), obstacles)
      ensures Stopped(intersections, 1, obstacles, hit)
      ensures cs == cs0 + [y] && yCoordsHistory == pre + cs && Crossings(x0, deltaX, fr, cs)
      ensures Remaining(D, absDeltaX) < old(Remaining(D, absDeltaX))
    {
      ghost var hist := yCoordsHistory;
      var p, cells;
      p, cells, hit := Cross(obstacles);
      AlongSegmentExtend(x0, deltaX, fr0, inter0, fraction, p);
      CellsAlongExtend(cells0, hist, F, y);
      StoppedExtend(inter0, 1, obstacles, p, hit);
      CrossingsExtend(x0, deltaX, fr0, cs0, fraction, y);
      path := path0 + [p];
      intersections := inter0 + [p];
      allFrontCells := cells0 + [cells];
      fr := fr0 + [fraction];
      cs := cs0 + [y];
      assert pre + cs == (pre + cs0) + [y];
    }

    /** The tracer's part of one pass of the loop of `traverse`: step to the
        next crossing, record the new corner in the history, and test the
        new position against the obstacles. */
    method Cross(obstacles: seq<seq<int>>) returns (p: seq<real>, cells: seq<seq<int>>, hit: bool)
      requires Valid() && Travelled() && !Reached()
      modifies this`k, this`D, this`y, this`l, this`fraction, this`t, this`fList, this`F, this`yCoordsHistory
      ensures Valid() && Travelled() && F == old(F)
      ensures old(fraction) < fraction < 1.0 && p == PointAt(x0, deltaX, fraction)
      ensures CrossingStep(x0, deltaX, old(fraction), fraction, old(y), y)
      ensures yCoordsHistory == old(yCoordsHistory) + [y]
      ensures Widths(F, y) && cells == CellsAt(y, F)
      ensures hit == HitsObstacle(p, obstacles)
      ensures Remaining(D, absDeltaX) < old(Remaining(D, absDeltaX))
    {
      var info := Next();
      p := info.lastCoordinates;
      cells := info.frontCells;
      yCoordsHistory := yCoordsHistory + [y];
      hit := IsHitObstacle(p, obstacles);
    }

    /** Whether `p` lies in one of the obstacle cells. */
    method IsHitObstacle(p: seq<real>, obstacles: seq<seq<int>>) returns (hit: bool)
      ensures hit == HitsObstacle(p, obstacles)
    {
      if |obstacles| == 0 {
        return false;
      }
      var cell := SnapToCell(p);
      for j := 0 to |obstacles|
        invariant forall j' :: 0 <= j' < j ==> obstacles[j'] != cell
      {
        if cell == obstacles[j] {
          return true;
        }
      }
      return false;
    }
  }
}
