/** Scalar and vector primitives of the lattice ray tracer: the sign function,
    floor and ceiling, extended reals for "+infinity" distances, and the few
    vector operations the tracer performs (difference, sum of squares, the
    point at a given fraction of the segment, snapping a point to its cell). */
module Geometry {

  /** A parametric distance: a finite real, or +infinity on an axis the ray
      does not move along. */
  datatype ExtReal = Fin(r: real) | Inf

  /** The order of the extended reals: every finite value lies below Inf. */
  predicate Le(a: ExtReal, b: ExtReal) {
    match (a, b)
    case (_, Inf) => true
    case (Inf, Fin(_)) => false
    case (Fin(x), Fin(z)) => x <= z
  }

  /** `a >= 1.0`, with `inf >= 1.0` true as in IEEE arithmetic. */
  predicate AtLeastOne(a: ExtReal) {
    a.Inf? || a.r >= 1.0
  }

  /** The smallest entry of a non-empty vector of distances. */
  function MinOf(s: seq<ExtReal>): (m: ExtReal)
    requires |s| > 0
    ensures m in s
    ensures forall i :: 0 <= i < |s| ==> Le(m, s[i])
  {
    if |s| == 1 then s[0]
    else
      var rest := MinOf(s[1..]);
      if Le(s[0], rest) then s[0] else rest
  }

  /** The minimum is at least one exactly when every entry is. */
  lemma MinAtLeastOne(s: seq<ExtReal>)
    requires |s| > 0
    ensures AtLeastOne(MinOf(s)) <==> forall i :: 0 <= i < |s| ==> AtLeastOne(s[i])
  {
    var m := MinOf(s);
    if AtLeastOne(m) {
      forall i | 0 <= i < |s| ensures AtLeastOne(s[i]) {
        assert Le(m, s[i]);
      }
    }
  }

  /** The exact sign of the Python implementation: 1, 0 or -1. */
  function Sign(x: real): (s: int)
    ensures s == 1 <==> x > 0.0
    ensures s == 0 <==> x == 0.0
    ensures s == -1 <==> x < 0.0
  {
    if x > 0.0 then 1 else if x == 0.0 then 0 else -1
  }

  /** The sign of the C++ implementation, which tests `x < 0` before falling
      back to 0. */
  function SignCpp(x: real): (s: int)
    ensures s == 1 <==> x > 0.0
    ensures s == -1 <==> x < 0.0
    ensures s == 0 <==> !(x > 0.0) && !(x < 0.0)
  {
    if x > 0.0 then 1 else if x < 0.0 then -1 else 0
  }

  /** On the reals the two sign functions agree (they differ only on NaN). */
  lemma SignImplementationsAgree(x: real)
    ensures Sign(x) == SignCpp(x)
  {
  }

  function Abs(x: real): (a: real)
    ensures a >= 0.0 && (a == x || a == -x)
  {
    if x < 0.0 then -x else x
  }

  /** The largest integer not above `x`. */
  function Floor(x: real): (f: int)
    ensures f as real <= x < f as real + 1.0
  {
    x.Floor
  }

  /** The smallest integer not below `x`. */
  function Ceil(x: real): (c: int)
    ensures x <= c as real < x + 1.0
  {
    -((-x).Floor)
  }

  /** `x` lies on a lattice hyperplane. */
  predicate IsInteger(x: real) {
    x == x.Floor as real
  }

  /** Floor is the unique integer `c` with `c <= x < c + 1`. */
  lemma FloorUnique(x: real, c: int)
    requires c as real <= x < c as real + 1.0
    ensures Floor(x) == c
  {
  }

  /** Floor and ceiling coincide on integers and differ by one elsewhere. */
  lemma FloorCeil(x: real)
    ensures IsInteger(x) ==> Floor(x) == x.Floor && Ceil(x) == Floor(x)
    ensures !IsInteger(x) ==> Ceil(x) == Floor(x) + 1
  {
    if IsInteger(x) {
      FloorUnique(-x, -Floor(x));
    } else {
      FloorUnique(-x, -Floor(x) - 1);
    }
  }

  /** The conditional rounding operator `[a | b]` on one axis: floor when
      `b <= 0`, ceiling otherwise. */
  function FloorCeilAxis(a: real, b: real): int {
    if b <= 0.0 then Floor(a) else Ceil(a)
  }

  /** The conditional rounding operator, computed axis by axis into a fresh
      vector. */
  method FloorCeilConditional(a: seq<real>, b: seq<real>) returns (c: seq<int>)
    requires |a| == |b|
    ensures |c| == |a|
    ensures forall i :: 0 <= i < |a| ==> c[i] == (if b[i] <= 0.0 then Floor(a[i]) else Ceil(a[i]))
  {
    c := seq(|a|, _ => 0);
    for i := 0 to |a|
      invariant |c| == |a|
      invariant forall j :: 0 <= j < i ==> c[j] == FloorCeilAxis(a[j], b[j])
    {
      if b[i] <= 0.0 {
        c := c[i := Floor(a[i])];
      } else {
        c := c[i := Ceil(a[i])];
      }
    }
  }

  /** Componentwise difference `a - b`. */
  function Sub(a: seq<real>, b: seq<real>): (d: seq<real>)
    requires |a| == |b|
    ensures |d| == |a| && forall i :: 0 <= i < |a| ==> d[i] == a[i] - b[i]
  {
    seq(|a|, i requires 0 <= i < |a| => a[i] - b[i])
  }

  /** Componentwise sum of an integer corner and an integer offset. */
  function AddInt(a: seq<int>, b: seq<int>): (s: seq<int>)
    requires |a| == |b|
    ensures |s| == |a| && forall i :: 0 <= i < |a| ==> s[i] == a[i] + b[i]
  {
    seq(|a|, i requires 0 <= i < |a| => a[i] + b[i])
  }

  /** Componentwise absolute value. */
  function AbsAll(v: seq<real>): (a: seq<real>)
    ensures |a| == |v| && forall i :: 0 <= i < |v| ==> a[i] == Abs(v[i])
  {
    seq(|v|, i requires 0 <= i < |v| => Abs(v[i]))
  }

  /** Componentwise sign. */
  function SignAll(v: seq<real>): (s: seq<int>)
    ensures |s| == |v| && forall i :: 0 <= i < |v| ==> s[i] == Sign(v[i])
  {
    seq(|v|, i requires 0 <= i < |v| => Sign(v[i]))
  }

  /** Componentwise negation. */
  function Neg(v: seq<real>): (w: seq<real>)
    ensures |w| == |v| && forall i :: 0 <= i < |v| ==> w[i] == -v[i]
  {
    seq(|v|, i requires 0 <= i < |v| => -v[i])
  }

  /** The zero vector of `n` integers. */
  function Zeros(n: nat): (z: seq<int>)
    ensures |z| == n && forall i :: 0 <= i < n ==> z[i] == 0
  {
    seq(n, _ => 0)
  }

  /** The squared Euclidean norm. */
  function SumSquares(v: seq<real>): (s: real)
    ensures s >= 0.0
  {
    if v == [] then 0.0 else v[0] * v[0] + SumSquares(v[1..])
  }

  /** The zero vector has zero squared norm. */
  lemma {:induction false} SumSquaresOfZero(v: seq<real>)
    requires forall i :: 0 <= i < |v| ==> v[i] == 0.0
    ensures SumSquares(v) == 0.0
  {
    if v != [] {
      SumSquaresOfZero(v[1..]);
    }
  }

  lemma MulPositive(a: real, b: real)
    requires a > 0.0 && b > 0.0
    ensures a * b > 0.0
  {
  }

  /** The point at parametric fraction `s` of the segment from `x0` along `dx`. */
  function PointAt(x0: seq<real>, dx: seq<real>, s: real): (p: seq<real>)
    requires |x0| == |dx|
    ensures |p| == |x0|
  {
    seq(|x0|, i requires 0 <= i < |x0| => x0[i] + s * dx[i])
  }

  /** Fraction 0 of any segment is its start. */
  lemma PointAtZero(x0: seq<real>, dx: seq<real>)
    requires |x0| == |dx|
    ensures PointAt(x0, dx, 0.0) == x0
  {
    assert forall i :: 0 <= i < |x0| ==> PointAt(x0, dx, 0.0)[i] == x0[i];
  }

  /** Fraction 0 is the start, fraction 1 is the goal, and on a segment of
      non-zero extent no other fraction reaches the goal. */
  lemma PointAtEnds(start: seq<real>, goal: seq<real>, s: real)
    requires |start| == |goal|
    ensures PointAt(start, Sub(goal, start), 0.0) == start
    ensures PointAt(start, Sub(goal, start), 1.0) == goal
    ensures start != goal ==> (PointAt(start, Sub(goal, start), s) == goal <==> s == 1.0)
  {
    var dx := Sub(goal, start);
    PointAtZero(start, dx);
    assert PointAt(start, dx, 1.0) == goal by {
      forall i | 0 <= i < |start| ensures PointAt(start, dx, 1.0)[i] == goal[i] {
      }
    }
    if start != goal && PointAt(start, dx, s) == goal {
      var i :| 0 <= i < |start| && start[i] != goal[i];
      assert PointAt(start, dx, s)[i] == start[i] + s * (goal[i] - start[i]);
      ReachesOnlyAtOne(start[i], goal[i], s);
    }
  }

  /** On an axis where the segment moves, only fraction 1 reaches the goal
      coordinate. */
  lemma ReachesOnlyAtOne(a: real, b: real, s: real)
    requires a != b && a + s * (b - a) == b
    ensures s == 1.0
  {
    assert s * (b - a) == 1.0 * (b - a);
    MulCancel(s, 1.0, b - a);
  }

  lemma MulCancel(a: real, b: real, c: real)
    requires c != 0.0 && a * c == b * c
    ensures a == b
  {
    assert (a - b) * c == 0.0;
  }

  /** The tolerance the obstacle test adds before flooring a point. */
  const SnapTolerance: real := 0.00000001

  /** The lattice cell that holds `p`, after nudging every coordinate up by
      the snap tolerance. */
  function SnapToCell(p: seq<real>): (c: seq<int>)
    ensures |c| == |p|
  {
    seq(|p|, i requires 0 <= i < |p| => Floor(p[i] + SnapTolerance))
  }

  /** `p`, nudged by the snap tolerance, lies inside the unit cell whose
      minimal corner is `cell`. */
  predicate InCell(p: seq<real>, cell: seq<int>) {
    |cell| == |p| &&
    forall i :: 0 <= i < |p| ==> cell[i] as real <= p[i] + SnapTolerance < cell[i] as real + 1.0
  }

  /** The snapped cell is the one cell that contains the nudged point. */
  lemma SnapToCellContains(p: seq<real>, cell: seq<int>)
    ensures SnapToCell(p) == cell <==> InCell(p, cell)
  {
    if InCell(p, cell) {
      forall i | 0 <= i < |p| ensures SnapToCell(p)[i] == cell[i] {
        FloorUnique(p[i] + SnapTolerance, cell[i]);
      }
    }
  }

  /** Eigen's relative precision for `double`. */
  const DoublePrecision: real := 0.000000000001

  /** Eigen's `isApprox` on real vectors: `|a - b|^2 <= p^2 * min(|a|^2, |b|^2)`. */
  predicate IsApprox(a: seq<real>, b: seq<real>)
    requires |a| == |b|
  {
    var sa := SumSquares(a);
    var sb := SumSquares(b);
    SumSquares(Sub(a, b)) <= DoublePrecision * DoublePrecision * (if sa <= sb then sa else sb)
  }

  /** Equal vectors are approximately equal. */
  lemma IsApproxReflexive(a: seq<real>)
    ensures IsApprox(a, a)
  {
    SumSquaresOfZero(Sub(a, a));
  }
}
