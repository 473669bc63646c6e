/** Worked cases from the repository's demonstration drivers, stated on the
    model's functions. */
module Examples {
  import opened Geometry
  import opened FrontCells
  import opened Distances
  import opened RayTracer

  /** The ray from [2, 0, 3] to [2, 5, 3] moves along y only and starts on
      lattice hyperplanes of x and z, so both of those axes are ambiguous:
      four front offsets, -1 before 0 on each ambiguous axis. */
  lemma RayAlongYAxisFrontOffsets()
    ensures Sub([2.0, 5.0, 3.0], [2.0, 0.0, 3.0]) == [0.0, 5.0, 0.0]
    ensures SignAll([0.0, 5.0, 0.0]) == [0, 1, 0]
    ensures FrontOffsets([0.0, 5.0, 0.0], [2.0, 0.0, 3.0], [0, 1, 0]) ==
      [[-1, 0, -1], [-1, 0, 0], [0, 0, -1], [0, 0, 0]]
    ensures StartCorner([2.0, 0.0, 3.0], [0.0, 5.0, 0.0]) == [2, 0, 3]
  {
    var dx, x0, sgn := [0.0, 5.0, 0.0], [2.0, 0.0, 3.0], [0, 1, 0];
    assert Ambiguous(dx[0], x0[0]);
    YAxisRows(-1);
    YAxisRows(0);
    assert [] + [-1] == [-1] && [] + [0] == [0];
    assert StartCornerAxis(2.0, 0.0) == 2 && StartCornerAxis(0.0, 5.0) == 0 && StartCornerAxis(3.0, 0.0) == 3;
  }

  /** The rows below a first offset `a` for the ray along y. */
  lemma YAxisRows(a: int)
    ensures FrontRows([0.0, 5.0, 0.0], [2.0, 0.0, 3.0], [0, 1, 0], [a]) == [[a, 0, -1], [a, 0, 0]]
  {
    var dx, x0, sgn := [0.0, 5.0, 0.0], [2.0, 0.0, 3.0], [0, 1, 0];
    assert !Ambiguous(dx[1], x0[1]) && Ambiguous(dx[2], x0[2]);
    assert [a] + [FixedOffset(sgn[1])] == [a, 0];
    assert [a, 0] + [-1] == [a, 0, -1] && [a, 0] + [0] == [a, 0, 0];
    assert FrontRows(dx, x0, sgn, [a]) == FrontRows(dx, x0, sgn, [a, 0]);
    assert FrontRows(dx, x0, sgn, [a, 0]) == FrontRows(dx, x0, sgn, [a, 0, -1]) + FrontRows(dx, x0, sgn, [a, 0, 0]);
    assert FrontRows(dx, x0, sgn, [a, 0, -1]) == [[a, 0, -1]];
    assert FrontRows(dx, x0, sgn, [a, 0, 0]) == [[a, 0, 0]];
  }

  /** A start off the lattice, [1.2, 1.8] towards [5.7, 6.3]: the first
      crossings lie at 0.8/4.5 and 0.2/4.5 of the segment, the corner is the
      floor of the start, and at most ten crossings follow. */
  lemma OffLatticeStart()
    ensures Sub([5.7, 6.3], [1.2, 1.8]) == [4.5, 4.5]
    ensures InitialDistances([1.2, 1.8], [4.5, 4.5]) == [Fin(0.8 / 4.5), Fin(0.2 / 4.5)]
    ensures StartCorner([1.2, 1.8], [4.5, 4.5]) == [1, 1]
    ensures CeilSum(AbsAll([4.5, 4.5])) == 10
  {
    assert Floor(1.2) == 1 && Floor(1.8) == 1;
    assert Ceil(1.2) == 2 && Ceil(1.8) == 2 && Ceil(4.5) == 5;
    assert InitialDistance(1.2, 4.5) == Fin(0.8 / 4.5);
    assert InitialDistance(1.8, 4.5) == Fin(0.2 / 4.5);
    assert AbsAll([4.5, 4.5]) == [4.5, 4.5];
    assert CeilSum([4.5]) == 5;
  }

  /** A start on the lattice, [1, 1] towards [4.5, 4.5]: the zero distance
      to the hyperplane under the start is replaced by a full cell, 1/3.5. */
  lemma OnLatticeStart()
    ensures InitialDistances([1.0, 1.0], [3.5, 3.5]) == [Fin(1.0 / 3.5), Fin(1.0 / 3.5)]
  {
    assert Ceil(1.0) == 1;
    assert InitialDistance(1.0, 3.5) == Fin(1.0 / 3.5);
  }

  /** Start and goal at [2, 2], which is an obstacle cell: the traversal
      reports the hit, no goal, and the one-point path. */
  lemma SameStartAndGoalAtObstacle(r: TraceResult, reached: bool)
    requires Outcome([2.0, 2.0], [2.0, 2.0], [[2, 2]], true, r, reached)
    ensures r.obstacleHit && !r.goalReached && r.path == [[2.0, 2.0]]
  {
    FloorUnique(2.0 + SnapTolerance, 2);
    assert SnapToCell([2.0, 2.0]) == [2, 2];
  }

  /** Start and goal at [2, 2] with no obstacles: the goal at once. */
  lemma SameStartAndGoal(r: TraceResult, reached: bool)
    requires Outcome([2.0, 2.0], [2.0, 2.0], [], true, r, reached)
    ensures !r.obstacleHit && r.goalReached && r.path == [[2.0, 2.0]]
  {
    HitsObstacleSpec([2.0, 2.0], []);
  }
}
