/** Per-axis parametric distances of the traversal.  On a moving axis the
    distance to the next hyperplane crossing, as a fraction of the whole
    segment, starts at D0 and grows by 1/|dx| with every crossing; on an
    axis the ray does not move along it is +infinity. */
module Distances {
  import opened Geometry

  /** D_i^(0): the fraction of the segment from the start to the first
      hyperplane crossing on one axis.  A start on a hyperplane of a moving
      axis does not count as a crossing: the distance is then a full cell. */
  function InitialDistance(x0: real, dx: real): ExtReal {
    var raw :=
      if dx < 0.0 then Fin((Floor(x0) as real - x0) / dx)
      else if dx == 0.0 then Inf
      else Fin((Ceil(x0) as real - x0) / dx);
    if raw == Fin(0.0) && dx != 0.0 then Fin(1.0 / Abs(dx)) else raw
  }

  function InitialDistances(x0: seq<real>, dx: seq<real>): (d: seq<ExtReal>)
    requires |x0| == |dx|
    ensures |d| == |x0| && forall i :: 0 <= i < |x0| ==> d[i] == InitialDistance(x0[i], dx[i])
  {
    seq(|x0|, i requires 0 <= i < |x0| => InitialDistance(x0[i], dx[i]))
  }

  /** The first lattice hyperplane strictly ahead of the start on a moving axis. */
  function NextPlane(x0: real, dx: real): int {
    if dx > 0.0 then Floor(x0) + 1 else Ceil(x0) - 1
  }

  /** The initial lattice corner on one axis, `[x0 | -dx]`: the floor when the
      ray does not move backwards, the ceiling when it does. */
  function StartCornerAxis(x0: real, dx: real): int {
    FloorCeilAxis(x0, -dx)
  }

  function StartCorner(x0: seq<real>, dx: seq<real>): (y: seq<int>)
    requires |x0| == |dx|
    ensures |y| == |x0| && forall i :: 0 <= i < |x0| ==> y[i] == StartCornerAxis(x0[i], dx[i])
  {
    seq(|x0|, i requires 0 <= i < |x0| => StartCornerAxis(x0[i], dx[i]))
  }

  /** The initial corner is floor(x0) on an axis with dx >= 0 and ceil(x0) on
      an axis with dx < 0: the trailing corner of the start's cell, at most
      one unit behind the start in the direction of travel. */
  lemma StartCornerSpec(x0: real, dx: real)
    ensures dx >= 0.0 ==> StartCornerAxis(x0, dx) == Floor(x0)
    ensures dx < 0.0 ==> StartCornerAxis(x0, dx) == Ceil(x0)
    ensures dx >= 0.0 ==> StartCornerAxis(x0, dx) as real <= x0 < StartCornerAxis(x0, dx) as real + 1.0
    ensures dx < 0.0 ==> StartCornerAxis(x0, dx) as real - 1.0 < x0 <= StartCornerAxis(x0, dx) as real
  {
  }

  lemma DivBounds(p: real, q: real)
    requires q > 0.0 && 0.0 < p < 1.0
    ensures 0.0 < p / q < 1.0 / q
    ensures (p / q) * q == p
  {
  }

  /** On a moving axis the first distance is positive and at most one full
      cell, it is a full cell exactly when the start lies on a hyperplane of
      that axis, and the ray reaches the next hyperplane ahead at that
      fraction of the segment.  On a still axis the distance is +infinity. */
  lemma InitialDistanceSpec(x0: real, dx: real)
    ensures InitialDistance(x0, dx).Inf? <==> dx == 0.0
    ensures dx != 0.0 ==>
      var d := InitialDistance(x0, dx).r;
      0.0 < d <= 1.0 / Abs(dx) &&
      (d == 1.0 / Abs(dx) <==> IsInteger(x0)) &&
      x0 + d * dx == NextPlane(x0, dx) as real
  {
    FloorCeil(x0);
    if dx > 0.0 {
      if IsInteger(x0) {
        assert (Ceil(x0) as real - x0) / dx == 0.0;
      } else {
        var p := Ceil(x0) as real - x0;
        DivBounds(p, dx);
      }
    } else if dx < 0.0 {
      var a := -dx;
      if IsInteger(x0) {
        assert (Floor(x0) as real - x0) / dx == 0.0;
        assert (1.0 / a) * dx == -1.0;
      } else {
        var p := x0 - Floor(x0) as real;
        DivBounds(p, a);
        assert (Floor(x0) as real - x0) / dx == p / a;
      }
    }
  }

  /** The state of one axis after `k` crossings: D = D0 + k/|dx| and the
      corner has moved `k` times by sign(dx) from the initial corner; a still
      axis keeps D = +infinity, k = 0 and the initial corner. */
  predicate AxisState(x0: real, dx: real, k: int, d: ExtReal, d0: ExtReal, y: int) {
    k >= 0 && d0 == InitialDistance(x0, dx) &&
    if dx == 0.0 then d == Inf && k == 0 && y == StartCornerAxis(x0, dx)
    else d0.Fin? && d == Fin(d0.r + k as real / Abs(dx)) && y == StartCornerAxis(x0, dx) + Sign(dx) * k
  }

  /** The state every axis is in at initialisation. */
  lemma AxisStateInit(x0: real, dx: real)
    ensures AxisState(x0, dx, 0, InitialDistance(x0, dx), InitialDistance(x0, dx), StartCornerAxis(x0, dx))
  {
    InitialDistanceSpec(x0, dx);
  }

  lemma DivNonNegative(k: int, a: real)
    requires k >= 0 && a > 0.0
    ensures k as real / a >= 0.0
  {
  }

  lemma DivAddOne(k: int, a: real)
    requires a > 0.0
    ensures (k + 1) as real / a == k as real / a + 1.0 / a
  {
  }

  /** A finite distance of a valid axis is positive. */
  lemma AxisStatePositive(x0: real, dx: real, k: int, d: ExtReal, d0: ExtReal, y: int)
    requires AxisState(x0, dx, k, d, d0, y)
    ensures d.Fin? ==> d.r > 0.0
  {
    InitialDistanceSpec(x0, dx);
    if dx != 0.0 {
      DivNonNegative(k, Abs(dx));
    }
  }

  /** One crossing on a moving axis: the counter rises by one, the corner
      moves by sign(dx), and D grows by exactly one cell 1/|dx|. */
  lemma AxisStep(x0: real, dx: real, k: int, d: ExtReal, d0: ExtReal, y: int)
    requires AxisState(x0, dx, k, d, d0, y) && dx != 0.0
    ensures AxisState(x0, dx, k + 1, Fin(d0.r + (k + 1) as real / Abs(dx)), d0, y + Sign(dx))
    ensures d0.r + (k + 1) as real / Abs(dx) == d.r + 1.0 / Abs(dx)
  {
    DivAddOne(k, Abs(dx));
  }

  lemma DivTimes(k: int, a: real, s: int)
    requires a > 0.0 && (s == 1 || s == -1)
    ensures (k as real / a) * (s as real * a) == (s * k) as real
  {
  }

  /** The ray at fraction `s` lies on the hyperplane `y` of this axis. */
  predicate OnPlane(x0: real, dx: real, s: real, y: int) {
    x0 + s * dx == y as real
  }

  /** On a moving axis the corner is the lattice point where the ray crosses
      that axis's hyperplane at fraction D - 1/|dx|: the crossing last made
      (or, before any, the one just behind the start). */
  lemma CornerOnCrossedPlane(x0: real, dx: real, k: int, d: ExtReal, d0: ExtReal, y: int)
    requires AxisState(x0, dx, k, d, d0, y) && dx != 0.0
    ensures OnPlane(x0, dx, d.r - 1.0 / Abs(dx), y)
  {
    InitialDistanceSpec(x0, dx);
    FloorCeil(x0);
    var a := Abs(dx);
    var s := Sign(dx);
    assert dx == s as real * a;
    var p := d0.r;
    assert d.r - 1.0 / a == p + (k - 1) as real / a by {
      DivAddOne(k - 1, a);
    }
    calc {
      x0 + (d.r - 1.0 / a) * dx;
      x0 + (p + (k - 1) as real / a) * dx;
      x0 + p * dx + ((k - 1) as real / a) * (s as real * a);
      { DivTimes(k - 1, a, s); }
      NextPlane(x0, dx) as real + (s * (k - 1)) as real;
    }
  }

  /** The coordinate on one axis of the ray at fraction `s` of the segment. */
  function Along(x0: real, dx: real, s: real): real {
    x0 + s * dx
  }

  /** No lattice hyperplane of a moving axis lies strictly between
      fractions `s1` and `s2` of the segment. */
  ghost predicate NoPlaneWithin(x0: real, dx: real, s1: real, s2: real) {
    dx != 0.0 ==> forall s :: s1 < s < s2 ==> !IsInteger(Along(x0, dx, s))
  }

  /** The last hyperplane a moving axis crossed, at fraction D - 1/|dx|,
      lies at or before fraction `f`. */
  predicate CrossedBy(dx: real, d: ExtReal, f: real) {
    dx != 0.0 && d.Fin? ==> d.r - 1.0 / Abs(dx) <= f
  }

  /** One move from fraction `s1` to fraction `s2` on one axis: when the
      ray at `s2` lies on a hyperplane of a moving axis, the corner moves by
      the sign onto that hyperplane, otherwise it stays; and no hyperplane of
      the axis is passed in between. */
  ghost predicate CrossingAxis(x0: real, dx: real, s1: real, s2: real, c1: int, c2: int) {
    (if dx != 0.0 && IsInteger(Along(x0, dx, s2)) then c2 == c1 + Sign(dx) && OnPlane(x0, dx, s2, c2)
     else c2 == c1) &&
    NoPlaneWithin(x0, dx, s1, s2)
  }

  lemma MulStrict(u: real, v: real, c: real)
    requires u < v && c > 0.0
    ensures u * c < v * c
  {
    MulPositive(v - u, c);
    assert (v - u) * c == v * c - u * c;
  }

  lemma MulBelowOne(u: real, a: real)
    requires a > 0.0 && 0.0 < u < 1.0 / a
    ensures 0.0 < u * a < 1.0
  {
    var w := 1.0 / a;
    MulPositive(u, a);
    MulStrict(u, w, a);
    assert w * a == 1.0;
    calc {
      u * a;
    <
      w * a;
    ==
      1.0;
    }
  }

  /** Between the hyperplane crossed last, at fraction D - 1/|dx|, and the
      next one, at D, the ray lies strictly inside one slab of the axis: on
      no hyperplane, and in the cell behind the corner's plane when moving
      down, ahead of it when moving up. */
  lemma AxisNoPlaneBetween(x0: real, dx: real, k: int, d: ExtReal, d0: ExtReal, y: int, s: real)
    requires AxisState(x0, dx, k, d, d0, y) && dx != 0.0
    requires d.r - 1.0 / Abs(dx) < s < d.r
    ensures !IsInteger(Along(x0, dx, s))
    ensures Floor(Along(x0, dx, s)) == if dx > 0.0 then y else y - 1
  {
    CornerOnCrossedPlane(x0, dx, k, d, d0, y);
    var a := Abs(dx);
    var p := d.r - 1.0 / a;
    InsideSlab(x0, dx, a, p, s, y);
  }

  /** From the hyperplane `y`, crossed at fraction `p`, the ray stays
      strictly inside the adjacent slab for less than one cell 1/|dx|. */
  lemma InsideSlab(x0: real, dx: real, a: real, p: real, s: real, y: int)
    requires a == Abs(dx) && a > 0.0 && OnPlane(x0, dx, p, y)
    requires p < s < p + 1.0 / a
    ensures !IsInteger(Along(x0, dx, s))
    ensures Floor(Along(x0, dx, s)) == if dx > 0.0 then y else y - 1
  {
    var u := s - p;
    var v := Along(x0, dx, s);
    assert v == (x0 + p * dx) + u * dx;
    MulBelowOne(u, a);
    if dx > 0.0 {
      FloorUnique(v, y);
    } else {
      assert u * dx == -(u * a);
      FloorUnique(v, y - 1);
    }
  }

  /** Crossings still ahead on one axis before its distance reaches 1. */
  function AxisRemaining(d: ExtReal, a: real): nat {
    if d.Inf? || d.r >= 1.0 || a <= 0.0 then 0
    else
      MulPositive(1.0 - d.r, a);
      Ceil((1.0 - d.r) * a)
  }

  lemma CeilMinusOne(v: real)
    ensures Ceil(v - 1.0) == Ceil(v) - 1
  {
    FloorUnique(-(v - 1.0), -Ceil(v) + 1);
  }

  /** A crossing on an axis still short of the goal strictly lowers the
      crossings left on it. */
  lemma AxisRemainingStep(dr: real, a: real)
    requires dr < 1.0 && a > 0.0
    ensures AxisRemaining(Fin(dr + 1.0 / a), a) < AxisRemaining(Fin(dr), a)
  {
    var v := (1.0 - dr) * a;
    assert (1.0 - (dr + 1.0 / a)) * a == v - 1.0;
    CeilMinusOne(v);
  }

  /** The total of crossings left over all axes. */
  function Remaining(d: seq<ExtReal>, a: seq<real>): nat
    requires |d| == |a|
  {
    if d == [] then 0 else AxisRemaining(d[0], a[0]) + Remaining(d[1..], a[1..])
  }

  /** Lowering no axis's count and one strictly lowers the total. */
  lemma {:induction false} RemainingDecreases(d: seq<ExtReal>, e: seq<ExtReal>, a: seq<real>, j: nat)
    requires |d| == |e| == |a|
    requires forall i :: 0 <= i < |d| ==> AxisRemaining(e[i], a[i]) <= AxisRemaining(d[i], a[i])
    requires j < |d| && AxisRemaining(e[j], a[j]) < AxisRemaining(d[j], a[j])
    ensures Remaining(e, a) < Remaining(d, a)
  {
    if j == 0 {
      RemainingMonotone(d[1..], e[1..], a[1..]);
    } else {
      RemainingDecreases(d[1..], e[1..], a[1..], j - 1);
    }
  }

  lemma {:induction false} RemainingMonotone(d: seq<ExtReal>, e: seq<ExtReal>, a: seq<real>)
    requires |d| == |e| == |a|
    requires forall i :: 0 <= i < |d| ==> AxisRemaining(e[i], a[i]) <= AxisRemaining(d[i], a[i])
    ensures Remaining(e, a) <= Remaining(d, a)
  {
    if d != [] {
      RemainingMonotone(d[1..], e[1..], a[1..]);
    }
  }

  function CeilSum(a: seq<real>): int {
    if a == [] then 0 else Ceil(a[0]) + CeilSum(a[1..])
  }

  /** The number of steps a traversal takes is bounded by the sum of
      ceil(|dx_i|): initially at most ceil(|dx_i|) crossings lie ahead on
      each axis. */
  lemma {:induction false} InitialRemainingBound(x0: seq<real>, dx: seq<real>, a: seq<real>)
    requires |x0| == |dx| == |a|
    requires forall i :: 0 <= i < |a| ==> a[i] == Abs(dx[i])
    ensures Remaining(InitialDistances(x0, dx), a) <= CeilSum(a)
  {
    if x0 != [] {
      InitialRemainingBound(x0[1..], dx[1..], a[1..]);
      assert InitialDistances(x0, dx)[1..] == InitialDistances(x0[1..], dx[1..]);
      var d := InitialDistance(x0[0], dx[0]);
      InitialDistanceSpec(x0[0], dx[0]);
      if d.Fin? && d.r < 1.0 && a[0] > 0.0 {
        MulPositive(d.r, a[0]);
        assert (1.0 - d.r) * a[0] <= a[0];
        CeilMonotone((1.0 - d.r) * a[0], a[0]);
      } else {
        assert Ceil(a[0]) >= 0;
      }
    }
  }

  lemma CeilMonotone(u: real, v: real)
    requires u <= v
    ensures Ceil(u) <= Ceil(v)
  {
  }
}
