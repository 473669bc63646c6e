/** The front-cell resolver: the offsets F in {-1,0}^n that, added to the
    current lattice corner, give the cells the ray is about to enter.  F is
    the cartesian product of one or two choices per axis, produced in the
    depth-first order of the recursive construction (-1 before 0). */
module FrontCells {
  import opened Geometry

  /** An axis is ambiguous when the ray does not move along it and starts
      exactly on one of its lattice hyperplanes. */
  predicate Ambiguous(dx: real, x0: real) {
    dx == 0.0 && IsInteger(x0)
  }

  /** The single offset of a non-ambiguous axis: -1 when the ray heads in
      the negative direction, 0 otherwise. */
  function FixedOffset(s: int): (f: int)
    ensures f == -1 <==> s < 0
    ensures f == 0 <==> s >= 0
  {
    if s < 0 then -1 else 0
  }

  /** The offsets `v` that axis `i` admits. */
  predicate Admissible(dx: real, x0: real, s: int, v: int) {
    if Ambiguous(dx, x0) then v == -1 || v == 0 else v == FixedOffset(s)
  }

  /** Inputs of one resolver run: one direction, start coordinate and sign
      per axis. */
  predicate WellShaped(dx: seq<real>, x0: seq<real>, sgn: seq<int>) {
    |x0| == |dx| && |sgn| == |dx|
  }

  /** All completions of `prefix` by one admissible offset per remaining axis,
      in the order the recursion emits them. */
  function FrontRows(dx: seq<real>, x0: seq<real>, sgn: seq<int>, prefix: seq<int>): seq<seq<int>>
    requires WellShaped(dx, x0, sgn) && |prefix| <= |dx|
    decreases |dx| - |prefix|
  {
    if |prefix| == |dx| then [prefix]
    else
      var d := |prefix|;
      if Ambiguous(dx[d], x0[d]) then
        FrontRows(dx, x0, sgn, prefix + [-1]) + FrontRows(dx, x0, sgn, prefix + [0])
      else
        FrontRows(dx, x0, sgn, prefix + [FixedOffset(sgn[d])])
  }

  /** The front-offset matrix F, one row per front cell. */
  function FrontOffsets(dx: seq<real>, x0: seq<real>, sgn: seq<int>): seq<seq<int>>
    requires WellShaped(dx, x0, sgn)
  {
    FrontRows(dx, x0, sgn, [])
  }

  /** `r` is a full-length vector extending `prefix` whose remaining entries
      are all admissible. */
  predicate Completes(dx: seq<real>, x0: seq<real>, sgn: seq<int>, prefix: seq<int>, r: seq<int>)
    requires WellShaped(dx, x0, sgn)
  {
    |prefix| <= |r| == |dx| && r[..|prefix|] == prefix &&
    forall i :: |prefix| <= i < |dx| ==> Admissible(dx[i], x0[i], sgn[i], r[i])
  }

  /** A completion of `prefix` is an admissible offset on the next axis
      followed by a completion of the longer prefix. */
  lemma CompletesStep(dx: seq<real>, x0: seq<real>, sgn: seq<int>, prefix: seq<int>, r: seq<int>)
    requires WellShaped(dx, x0, sgn) && |prefix| < |dx|
    ensures Completes(dx, x0, sgn, prefix, r) <==>
      |r| == |dx| && Admissible(dx[|prefix|], x0[|prefix|], sgn[|prefix|], r[|prefix|]) &&
      Completes(dx, x0, sgn, prefix + [r[|prefix|]], r)
  {
    var d := |prefix|;
    if |r| == |dx| {
      assert r[..d] == r[..d + 1][..d];
      if r[..d] == prefix {
        assert r[..d + 1] == prefix + [r[d]];
      }
    }
  }

  /** The rows produced from `prefix` are exactly its admissible completions. */
  lemma {:induction false} FrontRowsExact(dx: seq<real>, x0: seq<real>, sgn: seq<int>, prefix: seq<int>, r: seq<int>)
    requires WellShaped(dx, x0, sgn) && |prefix| <= |dx|
    ensures r in FrontRows(dx, x0, sgn, prefix) <==> Completes(dx, x0, sgn, prefix, r)
    decreases |dx| - |prefix|
  {
    if |prefix| == |dx| {
      if Completes(dx, x0, sgn, prefix, r) {
        assert r == r[..|prefix|];
      }
    } else {
      var d := |prefix|;
      CompletesStep(dx, x0, sgn, prefix, r);
      if Ambiguous(dx[d], x0[d]) {
        FrontRowsExact(dx, x0, sgn, prefix + [-1], r);
        FrontRowsExact(dx, x0, sgn, prefix + [0], r);
      } else {
        FrontRowsExact(dx, x0, sgn, prefix + [FixedOffset(sgn[d])], r);
      }
    }
  }

  predicate Distinct<T(==)>(s: seq<T>) {
    forall i, j :: 0 <= i < j < |s| ==> s[i] != s[j]
  }

  /** Concatenating two duplicate-free sequences with no common element
      gives a duplicate-free sequence. */
  lemma DistinctConcat<T>(a: seq<T>, b: seq<T>)
    requires Distinct(a) && Distinct(b)
    requires forall x :: x in a ==> x !in b
    ensures Distinct(a + b)
  {
    forall i, j | 0 <= i < j < |a + b| ensures (a + b)[i] != (a + b)[j] {
      if i < |a| && j >= |a| {
        assert (a + b)[i] in a && (a + b)[j] in b;
      }
    }
  }

  /** Every row extends its prefix. */
  lemma {:induction false} FrontRowsExtend(dx: seq<real>, x0: seq<real>, sgn: seq<int>, prefix: seq<int>, r: seq<int>)
    requires WellShaped(dx, x0, sgn) && |prefix| <= |dx|
    ensures r in FrontRows(dx, x0, sgn, prefix) ==> |prefix| <= |r| && r[..|prefix|] == prefix
  {
    FrontRowsExact(dx, x0, sgn, prefix, r);
  }

  /** No two rows of F are equal. */
  lemma {:induction false} FrontRowsDistinct(dx: seq<real>, x0: seq<real>, sgn: seq<int>, prefix: seq<int>)
    requires WellShaped(dx, x0, sgn) && |prefix| <= |dx|
    ensures Distinct(FrontRows(dx, x0, sgn, prefix))
    decreases |dx| - |prefix|
  {
    if |prefix| < |dx| {
      var d := |prefix|;
      if Ambiguous(dx[d], x0[d]) {
        var lo := prefix + [-1];
        var hi := prefix + [0];
        FrontRowsDistinct(dx, x0, sgn, lo);
        FrontRowsDistinct(dx, x0, sgn, hi);
        forall x | x in FrontRows(dx, x0, sgn, lo) ensures x !in FrontRows(dx, x0, sgn, hi) {
          FrontRowsExtend(dx, x0, sgn, lo, x);
          FrontRowsExtend(dx, x0, sgn, hi, x);
          assert x[d] == x[..d + 1][d] == -1;
        }
        DistinctConcat(FrontRows(dx, x0, sgn, lo), FrontRows(dx, x0, sgn, hi));
      } else {
        FrontRowsDistinct(dx, x0, sgn, prefix + [FixedOffset(sgn[d])]);
      }
    }
  }

  /** The number of ambiguous axes from axis `from` on. */
  function AmbiguousCount(dx: seq<real>, x0: seq<real>, from: nat): nat
    requires |x0| == |dx| && from <= |dx|
    decreases |dx| - from
  {
    if from == |dx| then 0
    else (if Ambiguous(dx[from], x0[from]) then 1 else 0) + AmbiguousCount(dx, x0, from + 1)
  }

  /** 2^e. */
  function Pow2(e: nat): nat {
    if e == 0 then 1 else 2 * Pow2(e - 1)
  }

  /** Each ambiguous axis doubles the number of rows: |F| = 2^a. */
  lemma {:induction false} FrontRowsCount(dx: seq<real>, x0: seq<real>, sgn: seq<int>, prefix: seq<int>)
    requires WellShaped(dx, x0, sgn) && |prefix| <= |dx|
    ensures |FrontRows(dx, x0, sgn, prefix)| == Pow2(AmbiguousCount(dx, x0, |prefix|))
    decreases |dx| - |prefix|
  {
    if |prefix| < |dx| {
      var d := |prefix|;
      if Ambiguous(dx[d], x0[d]) {
        FrontRowsCount(dx, x0, sgn, prefix + [-1]);
        FrontRowsCount(dx, x0, sgn, prefix + [0]);
      } else {
        FrontRowsCount(dx, x0, sgn, prefix + [FixedOffset(sgn[d])]);
      }
    }
  }

  /** The completion of `prefix` that takes the first admissible offset on
      every remaining axis, except `v` on axis `at`. */
  function Witness(dx: seq<real>, x0: seq<real>, sgn: seq<int>, prefix: seq<int>, at: nat, v: int): (r: seq<int>)
    requires WellShaped(dx, x0, sgn) && |prefix| <= |dx|
    ensures |r| == |dx| && r[..|prefix|] == prefix
    decreases |dx| - |prefix|
  {
    if |prefix| == |dx| then prefix
    else
      var d := |prefix|;
      var pick := if d == at then v else if Ambiguous(dx[d], x0[d]) then -1 else FixedOffset(sgn[d]);
      var r := Witness(dx, x0, sgn, prefix + [pick], at, v);
      assert r[..d] == r[..d + 1][..d];
      r
  }

  lemma {:induction false} WitnessCompletes(dx: seq<real>, x0: seq<real>, sgn: seq<int>, prefix: seq<int>, at: nat, v: int)
    requires WellShaped(dx, x0, sgn) && |prefix| <= at < |dx|
    requires Admissible(dx[at], x0[at], sgn[at], v)
    ensures Completes(dx, x0, sgn, prefix, Witness(dx, x0, sgn, prefix, at, v))
    ensures Witness(dx, x0, sgn, prefix, at, v)[at] == v
    decreases |dx| - |prefix|
  {
    var d := |prefix|;
    var pick := if d == at then v else if Ambiguous(dx[d], x0[d]) then -1 else FixedOffset(sgn[d]);
    var r := Witness(dx, x0, sgn, prefix + [pick], at, v);
    if d == at {
      WitnessTail(dx, x0, sgn, prefix + [pick], at, v);
    } else {
      WitnessCompletes(dx, x0, sgn, prefix + [pick], at, v);
    }
    assert r[d] == (prefix + [pick])[d];
  }

  lemma {:induction false} WitnessTail(dx: seq<real>, x0: seq<real>, sgn: seq<int>, prefix: seq<int>, at: nat, v: int)
    requires WellShaped(dx, x0, sgn) && at < |prefix| <= |dx|
    ensures Completes(dx, x0, sgn, prefix, Witness(dx, x0, sgn, prefix, at, v))
    decreases |dx| - |prefix|
  {
    if |prefix| < |dx| {
      var d := |prefix|;
      var pick := if Ambiguous(dx[d], x0[d]) then -1 else FixedOffset(sgn[d]);
      var r := Witness(dx, x0, sgn, prefix + [pick], at, v);
      WitnessTail(dx, x0, sgn, prefix + [pick], at, v);
      assert r[d] == (prefix + [pick])[d];
    }
  }

  /** What the resolver promises about F, for sign vector `sgn = sign(dx)`:
      every row is a vector in {-1,0}^n; on a non-ambiguous axis the entry is
      -1 exactly when the ray moves in the negative direction; on an
      ambiguous axis both -1 and 0 occur; the rows are pairwise distinct and
      there are 2^a of them, a being the number of ambiguous axes. */
  lemma FrontOffsetsSpec(dx: seq<real>, x0: seq<real>, sgn: seq<int>)
    requires WellShaped(dx, x0, sgn)
    requires forall i :: 0 <= i < |dx| ==> sgn[i] == Sign(dx[i])
    ensures forall r :: r in FrontOffsets(dx, x0, sgn) ==>
      |r| == |dx| &&
      forall i :: 0 <= i < |dx| ==>
        (r[i] == -1 || r[i] == 0) &&
        (!Ambiguous(dx[i], x0[i]) ==> (r[i] == -1 <==> dx[i] < 0.0))
    ensures forall i :: 0 <= i < |dx| && Ambiguous(dx[i], x0[i]) ==>
      (exists r :: r in FrontOffsets(dx, x0, sgn) && r[i] == -1) &&
      (exists r :: r in FrontOffsets(dx, x0, sgn) && r[i] == 0)
    ensures Distinct(FrontOffsets(dx, x0, sgn))
    ensures |FrontOffsets(dx, x0, sgn)| == Pow2(AmbiguousCount(dx, x0, 0))
  {
    forall r | r in FrontOffsets(dx, x0, sgn)
      ensures |r| == |dx|
      ensures forall i :: 0 <= i < |dx| ==>
        (r[i] == -1 || r[i] == 0) &&
        (!Ambiguous(dx[i], x0[i]) ==> (r[i] == -1 <==> dx[i] < 0.0))
    {
      FrontRowsExact(dx, x0, sgn, [], r);
    }
    forall i | 0 <= i < |dx| && Ambiguous(dx[i], x0[i])
      ensures exists r :: r in FrontOffsets(dx, x0, sgn) && r[i] == -1
      ensures exists r :: r in FrontOffsets(dx, x0, sgn) && r[i] == 0
    {
      var lo := Witness(dx, x0, sgn, [], i, -1);
      var hi := Witness(dx, x0, sgn, [], i, 0);
      WitnessCompletes(dx, x0, sgn, [], i, -1);
      WitnessCompletes(dx, x0, sgn, [], i, 0);
      FrontRowsExact(dx, x0, sgn, [], lo);
      FrontRowsExact(dx, x0, sgn, [], hi);
    }
    FrontRowsDistinct(dx, x0, sgn, []);
    FrontRowsCount(dx, x0, sgn, []);
  }

  /** Every row of F has one offset per axis. */
  lemma FrontOffsetsWidth(dx: seq<real>, x0: seq<real>, sgn: seq<int>)
    requires WellShaped(dx, x0, sgn)
    ensures forall j :: 0 <= j < |FrontOffsets(dx, x0, sgn)| ==> |FrontOffsets(dx, x0, sgn)[j]| == |dx|
  {
    forall j | 0 <= j < |FrontOffsets(dx, x0, sgn)|
      ensures |FrontOffsets(dx, x0, sgn)[j]| == |dx|
    {
      FrontRowsExact(dx, x0, sgn, [], FrontOffsets(dx, x0, sgn)[j]);
    }
  }

  /** The front cells at corner `y`: `y + f` for every row `f` of F, in F's order. */
  function CellsAt(y: seq<int>, rows: seq<seq<int>>): (cells: seq<seq<int>>)
    requires forall j :: 0 <= j < |rows| ==> |rows[j]| == |y|
    ensures |cells| == |rows|
  {
    seq(|rows|, j requires 0 <= j < |rows| => AddInt(y, rows[j]))
  }

  /** With offsets from {-1,0}^n, every front cell touches the corner `y`
      (each coordinate is `y[i]` or `y[i] - 1`), and distinct offsets give
      distinct cells. */
  lemma CellsAtSpec(y: seq<int>, rows: seq<seq<int>>)
    requires forall j :: 0 <= j < |rows| ==> |rows[j]| == |y|
    requires forall j, i :: 0 <= j < |rows| && 0 <= i < |y| ==> rows[j][i] == -1 || rows[j][i] == 0
    ensures forall j, i :: 0 <= j < |rows| && 0 <= i < |y| ==>
      y[i] - 1 <= CellsAt(y, rows)[j][i] <= y[i]
    ensures Distinct(rows) ==> Distinct(CellsAt(y, rows))
  {
    var cells := CellsAt(y, rows);
    if Distinct(rows) {
      forall a, b | 0 <= a < b < |cells| ensures cells[a] != cells[b] {
        assert rows[a] != rows[b];
        var i :| 0 <= i < |y| && rows[a][i] != rows[b][i];
        assert cells[a][i] != cells[b][i];
      }
    }
  }
}
