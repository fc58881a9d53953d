/** Points as vectors of reals: squared Euclidean distance, coordinate-wise
    mean and numpy's default `allclose` test. */
module Vectors {

  type Point = seq<real>

  /** Every point of `rows` has `dim` coordinates. */
  predicate AllOfDim(rows: seq<Point>, dim: nat) {
    forall i :: 0 <= i < |rows| ==> |rows[i]| == dim
  }

  /** Sum over the first `n` coordinates of `(a[x] - b[x])^2`. */
  function SqDistPrefix(a: Point, b: Point, n: nat): real
    requires n <= |a| && n <= |b|
  {
    if n == 0 then 0.0 else SqDistPrefix(a, b, n - 1) + (a[n - 1] - b[n - 1]) * (a[n - 1] - b[n - 1])
  }

  /** The squared Euclidean distance between two points of equal dimension. */
  function SqDist(a: Point, b: Point): real
    requires |a| == |b|
  {
    SqDistPrefix(a, b, |a|)
  }

  lemma {:induction false} SqDistPrefixFacts(a: Point, b: Point, n: nat)
    requires n <= |a| && n <= |b|
    ensures SqDistPrefix(a, b, n) >= 0.0
    ensures SqDistPrefix(a, b, n) == SqDistPrefix(b, a, n)
    ensures a[..n] == b[..n] ==> SqDistPrefix(a, b, n) == 0.0
  {
    if n > 0 {
      SqDistPrefixFacts(a, b, n - 1);
      var d := a[n - 1] - b[n - 1];
      assert d * d >= 0.0;
      assert (b[n - 1] - a[n - 1]) * (b[n - 1] - a[n - 1]) == d * d;
      if a[..n] == b[..n] {
        assert a[..n - 1] == a[..n][..n - 1] && b[..n - 1] == b[..n][..n - 1];
        assert a[n - 1] == a[..n][n - 1];
      }
    }
  }

  /** The squared distance is never negative, is symmetric, and is zero
      from a point to itself. */
  lemma SqDistFacts(a: Point, b: Point)
    requires |a| == |b|
    ensures SqDist(a, b) >= 0.0
    ensures SqDist(a, b) == SqDist(b, a)
    ensures a == b ==> SqDist(a, b) == 0.0
  {
    SqDistPrefixFacts(a, b, |a|);
  }

  /** Sum of coordinate `j` over all rows. */
  function ColumnSum(rows: seq<Point>, j: nat): real
    requires forall i :: 0 <= i < |rows| ==> j < |rows[i]|
  {
    if rows == [] then 0.0 else ColumnSum(rows[..|rows| - 1], j) + rows[|rows| - 1][j]
  }

  /** The coordinate-wise arithmetic mean of a non-empty set of points;
      column `j` is `sum(col) / len(col)`, as `zip(*rows)` lays the columns out. */
  function Mean(rows: seq<Point>, dim: nat): (m: Point)
    requires |rows| > 0 && AllOfDim(rows, dim)
    ensures |m| == dim
  {
    seq(dim, j requires 0 <= j < dim => ColumnSum(rows, j) / (|rows| as real))
  }

  lemma {:induction false} ColumnSumOfCopies(rows: seq<Point>, p: Point, j: nat)
    requires j < |p|
    requires forall i :: 0 <= i < |rows| ==> rows[i] == p
    ensures ColumnSum(rows, j) == (|rows| as real) * p[j]
  {
    if rows != [] {
      ColumnSumOfCopies(rows[..|rows| - 1], p, j);
    }
  }

  /** The mean of copies of one point is that point. */
  lemma MeanOfCopies(rows: seq<Point>, p: Point)
    requires |rows| > 0
    requires forall i :: 0 <= i < |rows| ==> rows[i] == p
    ensures Mean(rows, |p|) == p
  {
    forall j | 0 <= j < |p|
      ensures Mean(rows, |p|)[j] == p[j]
    {
      ColumnSumOfCopies(rows, p, j);
    }
  }

  lemma {:induction false} ColumnSumBounds(rows: seq<Point>, j: nat, lo: real, hi: real)
    requires forall i :: 0 <= i < |rows| ==> j < |rows[i]| && lo <= rows[i][j] <= hi
    ensures (|rows| as real) * lo <= ColumnSum(rows, j) <= (|rows| as real) * hi
  {
    if rows != [] {
      ColumnSumBounds(rows[..|rows| - 1], j, lo, hi);
    }
  }

  /** Each coordinate of the mean lies between the smallest and the largest
      value that coordinate takes among the points. */
  lemma MeanWithinBounds(rows: seq<Point>, dim: nat, j: nat, lo: real, hi: real)
    requires |rows| > 0 && AllOfDim(rows, dim) && j < dim
    requires forall i :: 0 <= i < |rows| ==> lo <= rows[i][j] <= hi
    ensures lo <= Mean(rows, dim)[j] <= hi
  {
    ColumnSumBounds(rows, j, lo, hi);
    var n := |rows| as real;
    var s := ColumnSum(rows, j);
    assert Mean(rows, dim)[j] == s / n;
    assert n * lo <= s <= n * hi;
    DivBounds(s, n, lo, hi);
  }

  lemma DivBounds(s: real, n: real, lo: real, hi: real)
    requires n > 0.0 && n * lo <= s <= n * hi
    ensures lo <= s / n <= hi
  {
    assert s / n * n == s;
  }

  /** numpy's default tolerances for `allclose`. */
  const RTOL: real := 0.00001
  const ATOL: real := 0.00000001

  function Abs(x: real): real {
    if x < 0.0 then -x else x
  }

  /** Coordinate `i` of `a` is within tolerance of coordinate `i` of `b`. */
  predicate CloseAt(a: Point, b: Point, i: nat)
    requires i < |a| && i < |b|
  {
    Abs(a[i] - b[i]) <= ATOL + RTOL * Abs(b[i])
  }

  /** The first `n` coordinates are within tolerance. */
  predicate CloseUpTo(a: Point, b: Point, n: nat)
    requires n <= |a| && n <= |b|
  {
    n == 0 || (CloseUpTo(a, b, n - 1) && CloseAt(a, b, n - 1))
  }

  /** `numpy.allclose(a, b)` with default tolerances on two points of equal
      length: `|a[i] - b[i]| <= ATOL + RTOL * |b[i]|` at every coordinate
      (AllCloseAt states it coordinate by coordinate). */
  predicate AllClose(a: Point, b: Point) {
    |a| == |b| && CloseUpTo(a, b, |a|)
  }

  lemma {:induction false} CloseUpToAt(a: Point, b: Point, n: nat)
    requires n <= |a| && n <= |b|
    ensures CloseUpTo(a, b, n) <==> forall i :: 0 <= i < n ==> CloseAt(a, b, i)
  {
    if n > 0 {
      CloseUpToAt(a, b, n - 1);
    }
  }

  /** Two points are `allclose` exactly when they have the same length and
      every coordinate is within tolerance. */
  lemma AllCloseAt(a: Point, b: Point)
    ensures AllClose(a, b) <==> |a| == |b| && forall i :: 0 <= i < |a| ==> CloseAt(a, b, i)
  {
    if |a| == |b| {
      CloseUpToAt(a, b, |a|);
    }
  }

  /** A point is close to itself, and points further apart than the
      tolerance at some coordinate are not close. */
  lemma AllCloseFacts(a: Point, b: Point, i: nat)
    requires |a| == |b| && i < |a|
    ensures AllClose(a, a)
    ensures Abs(a[i] - b[i]) > ATOL + RTOL * Abs(b[i]) ==> !AllClose(a, b)
  {
    AllCloseAt(a, a);
    AllCloseAt(a, b);
    assert forall j :: 0 <= j < |a| ==> CloseAt(a, a, j);
    if Abs(a[i] - b[i]) > ATOL + RTOL * Abs(b[i]) {
      assert !CloseAt(a, b, i);
    }
  }
}
