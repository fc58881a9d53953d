/** One round of Lloyd's algorithm on values: the nearest-centroid rule with
    its tie-break, the partition of the point indices among the clusters,
    the centroid update and its convergence test, and the `run` loop. The
    classes in module Clustering are proved to compute exactly these. */
module Lloyd {
  import opened Vectors

  /** Points and centroids that a round can work on: at least one centroid,
      and every point and centroid of dimension `dim`. */
  predicate Shaped(points: seq<Point>, cents: seq<Point>, dim: nat) {
    |cents| > 0 && AllOfDim(points, dim) && AllOfDim(cents, dim)
  }

  /** The position of the centroid nearest to `p`, scanning left to right
      and replacing the running best only on a strictly smaller distance. */
  function Nearest(cents: seq<Point>, p: Point): (j: nat)
    requires |cents| > 0 && AllOfDim(cents, |p|)
    ensures j < |cents|
  {
    if |cents| == 1 then 0
    else
      var j := Nearest(cents[..|cents| - 1], p);
      if SqDist(cents[|cents| - 1], p) < SqDist(cents[j], p) then |cents| - 1 else j
  }

  /** `j` is the earliest position of a centroid at minimum distance from `p`. */
  predicate IsEarliestNearest(cents: seq<Point>, p: Point, j: nat)
    requires AllOfDim(cents, |p|)
  {
    && j < |cents|
    && (forall i :: 0 <= i < |cents| ==> SqDist(cents[j], p) <= SqDist(cents[i], p))
    && (forall i :: 0 <= i < j ==> SqDist(cents[j], p) < SqDist(cents[i], p))
  }

  lemma {:induction false} NearestIsEarliestNearest(cents: seq<Point>, p: Point)
    requires |cents| > 0 && AllOfDim(cents, |p|)
    ensures IsEarliestNearest(cents, p, Nearest(cents, p))
  {
    if |cents| > 1 {
      var init := cents[..|cents| - 1];
      NearestIsEarliestNearest(init, p);
      assert forall i :: 0 <= i < |init| ==> init[i] == cents[i];
    }
  }

  /** The nearest-centroid rule picks exactly the earliest centroid at
      minimum distance: no other position satisfies that description. */
  lemma NearestCharacterized(cents: seq<Point>, p: Point, j: nat)
    requires |cents| > 0 && AllOfDim(cents, |p|)
    ensures IsEarliestNearest(cents, p, j) <==> j == Nearest(cents, p)
  {
    NearestIsEarliestNearest(cents, p);
  }

  /** Ties go to the earlier centroid: a centroid that is only as near as an
      earlier one is never chosen. */
  lemma TieGoesToEarlier(cents: seq<Point>, p: Point, i: nat, j: nat)
    requires |cents| > 0 && AllOfDim(cents, |p|)
    requires i < j < |cents| && SqDist(cents[i], p) == SqDist(cents[j], p)
    ensures Nearest(cents, p) != j
  {
    NearestIsEarliestNearest(cents, p);
  }

  /** The indices `i < n`, in ascending order, whose point is nearest to
      centroid `j`: what cluster `j` holds after the partition has visited
      the first `n` points. */
  function Assigned(points: seq<Point>, cents: seq<Point>, dim: nat, j: nat, n: nat): seq<int>
    requires Shaped(points, cents, dim) && n <= |points|
  {
    if n == 0 then []
    else Assigned(points, cents, dim, j, n - 1) + (if Nearest(cents, points[n - 1]) == j then [n - 1] else [])
  }

  /** One more point: `n` joins cluster `j`'s list exactly when `j` is its
      nearest centroid, and was not in the list before. */
  lemma AssignedNext(points: seq<Point>, cents: seq<Point>, dim: nat, j: nat, n: nat)
    requires Shaped(points, cents, dim) && n < |points|
    ensures n !in Assigned(points, cents, dim, j, n)
    ensures Assigned(points, cents, dim, j, n + 1) ==
      Assigned(points, cents, dim, j, n) + (if Nearest(cents, points[n]) == j then [n] else [])
  {
    AssignedFacts(points, cents, dim, j, n);
  }

  /** Strictly ascending, hence duplicate-free. */
  predicate Ascending(s: seq<int>) {
    forall a, b :: 0 <= a < b < |s| ==> s[a] < s[b]
  }

  /** Cluster `j`'s list after `n` points is ascending and holds exactly the
      indices below `n` whose nearest centroid is `j`. */
  lemma {:induction false} AssignedFacts(points: seq<Point>, cents: seq<Point>, dim: nat, j: nat, n: nat)
    requires Shaped(points, cents, dim) && n <= |points|
    ensures Ascending(Assigned(points, cents, dim, j, n))
    ensures forall i :: i in Assigned(points, cents, dim, j, n) <==> 0 <= i < n && Nearest(cents, points[i]) == j
  {
    if n > 0 {
      AssignedFacts(points, cents, dim, j, n - 1);
      var prev := Assigned(points, cents, dim, j, n - 1);
      forall t | 0 <= t < |prev|
        ensures prev[t] < n - 1
      {
        assert prev[t] in prev;
      }
    }
  }

  /** After a partition, every index of the point set lies in exactly one
      cluster, the one whose centroid is nearest, and each cluster's list is
      strictly ascending. */
  lemma PartitionIsExact(points: seq<Point>, cents: seq<Point>, dim: nat, i: int)
    requires Shaped(points, cents, dim) && 0 <= i < |points|
    ensures forall j :: 0 <= j < |cents| ==> Ascending(Assigned(points, cents, dim, j, |points|))
    ensures forall j :: 0 <= j < |cents| ==>
      (i in Assigned(points, cents, dim, j, |points|) <==> j == Nearest(cents, points[i]))
    ensures exists j :: 0 <= j < |cents| && i in Assigned(points, cents, dim, j, |points|)
  {
    forall j | 0 <= j < |cents|
      ensures Ascending(Assigned(points, cents, dim, j, |points|))
      ensures i in Assigned(points, cents, dim, j, |points|) <==> j == Nearest(cents, points[i])
    {
      AssignedFacts(points, cents, dim, j, |points|);
    }
    var j := Nearest(cents, points[i]);
    assert i in Assigned(points, cents, dim, j, |points|);
  }

  /** Cluster memberships after a partition against `cents`. */
  function Assignment(points: seq<Point>, cents: seq<Point>, dim: nat): (ms: seq<seq<int>>)
    requires Shaped(points, cents, dim)
    ensures |ms| == |cents|
  {
    seq(|cents|, j requires 0 <= j < |cents| => Assigned(points, cents, dim, j, |points|))
  }

  /** Every index in `idx` is a valid position of `points`. */
  predicate IndicesIn(idx: seq<int>, n: nat) {
    forall t :: 0 <= t < |idx| ==> 0 <= idx[t] < n
  }

  /** The points of a cluster, in the order of its index list. */
  function MemberPoints(points: seq<Point>, idx: seq<int>): (ps: seq<Point>)
    requires IndicesIn(idx, |points|)
    ensures |ps| == |idx|
  {
    seq(|idx|, t requires 0 <= t < |idx| => points[idx[t]])
  }

  /** A cluster's centroid after the update: the mean of its members, or the
      old centroid when it has none. */
  function NewCentroid(c: Point, members: seq<Point>, dim: nat): (r: Point)
    requires |c| == dim && AllOfDim(members, dim)
    ensures |r| == dim
  {
    if members == [] then c else Mean(members, dim)
  }

  /** The update reports a cluster as stable when it has no members, or when
      the mean of its members is `allclose` to its old centroid. */
  predicate Stable(c: Point, members: seq<Point>, dim: nat)
    requires |c| == dim && AllOfDim(members, dim)
  {
    members == [] || AllClose(Mean(members, dim), c)
  }

  predicate WellIndexed(points: seq<Point>, ms: seq<seq<int>>) {
    forall j :: 0 <= j < |ms| ==> IndicesIn(ms[j], |points|)
  }

  lemma AssignmentWellIndexed(points: seq<Point>, cents: seq<Point>, dim: nat)
    requires Shaped(points, cents, dim)
    ensures WellIndexed(points, Assignment(points, cents, dim))
  {
    forall j | 0 <= j < |cents|
      ensures IndicesIn(Assignment(points, cents, dim)[j], |points|)
    {
      AssignedFacts(points, cents, dim, j, |points|);
      var a := Assigned(points, cents, dim, j, |points|);
      assert forall t :: 0 <= t < |a| ==> a[t] in a;
    }
  }

  /** Centroids after the update step of a round with memberships `ms`,
      built cluster by cluster (see UpdatedAt for each entry). */
  function Updated(points: seq<Point>, cents: seq<Point>, ms: seq<seq<int>>, dim: nat): (r: seq<Point>)
    requires Shaped(points, cents, dim) && |ms| == |cents| && WellIndexed(points, ms)
    ensures |r| == |cents| && AllOfDim(r, dim)
    decreases |cents|
  {
    var last := NewCentroid(cents[|cents| - 1], MemberPoints(points, ms[|ms| - 1]), dim);
    if |cents| == 1 then [last]
    else Updated(points, cents[..|cents| - 1], ms[..|ms| - 1], dim) + [last]
  }

  /** Entry `j` of the updated centroids is cluster `j`'s new centroid. */
  lemma {:induction false} UpdatedAt(points: seq<Point>, cents: seq<Point>, ms: seq<seq<int>>, dim: nat)
    requires Shaped(points, cents, dim) && |ms| == |cents| && WellIndexed(points, ms)
    ensures forall j :: 0 <= j < |cents| ==>
      Updated(points, cents, ms, dim)[j] == NewCentroid(cents[j], MemberPoints(points, ms[j]), dim)
    decreases |cents|
  {
    if |cents| > 1 {
      var n := |cents| - 1;
      UpdatedAt(points, cents[..n], ms[..n], dim);
      forall j | 0 <= j < n
        ensures Updated(points, cents, ms, dim)[j] == NewCentroid(cents[j], MemberPoints(points, ms[j]), dim)
      {
        assert cents[..n][j] == cents[j] && ms[..n][j] == ms[j];
      }
    }
  }

  /** The conjunction of every cluster's stability report, empty clusters
      included (see AllStableAt for the cluster-by-cluster reading). */
  predicate AllStable(points: seq<Point>, cents: seq<Point>, ms: seq<seq<int>>, dim: nat)
    requires Shaped(points, cents, dim) && |ms| == |cents| && WellIndexed(points, ms)
  {
    StableUpTo(points, cents, ms, dim, |cents|)
  }

  /** The first `n` clusters are all stable. */
  predicate StableUpTo(points: seq<Point>, cents: seq<Point>, ms: seq<seq<int>>, dim: nat, n: nat)
    requires Shaped(points, cents, dim) && |ms| == |cents| && WellIndexed(points, ms) && n <= |cents|
  {
    n == 0 || (StableUpTo(points, cents, ms, dim, n - 1) && Stable(cents[n - 1], MemberPoints(points, ms[n - 1]), dim))
  }

  lemma {:induction false} StableUpToAt(points: seq<Point>, cents: seq<Point>, ms: seq<seq<int>>, dim: nat, n: nat)
    requires Shaped(points, cents, dim) && |ms| == |cents| && WellIndexed(points, ms) && n <= |cents|
    ensures StableUpTo(points, cents, ms, dim, n) <==>
      forall j :: 0 <= j < n ==> Stable(cents[j], MemberPoints(points, ms[j]), dim)
  {
    if n > 0 {
      StableUpToAt(points, cents, ms, dim, n - 1);
    }
  }

  /** The round converges exactly when every cluster is stable. */
  lemma AllStableAt(points: seq<Point>, cents: seq<Point>, ms: seq<seq<int>>, dim: nat)
    requires Shaped(points, cents, dim) && |ms| == |cents| && WellIndexed(points, ms)
    ensures AllStable(points, cents, ms, dim) <==>
      forall j :: 0 <= j < |cents| ==> Stable(cents[j], MemberPoints(points, ms[j]), dim)
  {
    StableUpToAt(points, cents, ms, dim, |cents|);
  }

  /** The state of a clustering: one centroid and one index list per cluster. */
  datatype State = State(centroids: seq<Point>, members: seq<seq<int>>)

  predicate Consistent(points: seq<Point>, s: State, dim: nat) {
    Shaped(points, s.centroids, dim) && |s.members| == |s.centroids| && WellIndexed(points, s.members)
  }

  /** One `step`: partition against the current centroids, then update every
      centroid; the flag is the round's convergence report. */
  function Round(points: seq<Point>, s: State, dim: nat): (r: (State, bool))
    requires Consistent(points, s, dim)
    ensures Consistent(points, r.0, dim) && |r.0.centroids| == |s.centroids|
  {
    var ms := Assignment(points, s.centroids, dim);
    AssignmentWellIndexed(points, s.centroids, dim);
    (State(Updated(points, s.centroids, ms, dim), ms), AllStable(points, s.centroids, ms, dim))
  }

  /** The budget left after one more pass of `run`. */
  function Spend(budget: nat): (rest: nat)
    requires budget > 0
    ensures rest + 1 == budget
  {
    budget - 1
  }

  /** `run` as written: each pass of the loop calls `step` once in its
      condition and once more in its body, ignoring the second result.
      `budget` is the number of passes left; the result is the final state
      and the number of `step` calls made. */
  function RunAsWritten(points: seq<Point>, s: State, dim: nat, budget: nat): (r: (State, nat))
    requires Consistent(points, s, dim)
    ensures Consistent(points, r.0, dim) && |r.0.centroids| == |s.centroids|
    ensures r.1 <= 2 * budget
    decreases budget
  {
    if budget == 0 then (s, 0)
    else
      var first := Round(points, s, dim);
      if first.1 then (first.0, 1)
      else
        var second := Round(points, first.0, dim);
        var rest := RunAsWritten(points, second.0, dim, Spend(budget));
        (rest.0, rest.1 + 2)
  }

  /** `run` as its documentation describes it: one `step` per pass, stopping
      at the first converged round or after `budget` rounds. The result also
      says whether the last round converged. */
  function RunIntended(points: seq<Point>, s: State, dim: nat, budget: nat): (r: (State, nat, bool))
    requires Consistent(points, s, dim)
    ensures Consistent(points, r.0, dim) && |r.0.centroids| == |s.centroids|
    ensures r.1 <= budget
    ensures r.1 < budget ==> r.2 && r.1 > 0
    decreases budget
  {
    if budget == 0 then (s, 0, false)
    else
      var first := Round(points, s, dim);
      if first.1 then (first.0, 1, true)
      else
        var rest := RunIntended(points, first.0, dim, Spend(budget));
        (rest.0, rest.1 + 1, rest.2)
  }

  /** With no budget left, `run` changes nothing and makes no step. */
  lemma NoBudget(points: seq<Point>, s: State, dim: nat, budget: nat)
    requires Consistent(points, s, dim) && budget == 0
    ensures RunAsWritten(points, s, dim, budget) == (s, 0)
    ensures RunIntended(points, s, dim, budget) == (s, 0, false)
  {
  }

  /** One pass of `run` as written, in both outcomes of its loop test. */
  lemma WrittenPass(points: seq<Point>, s: State, dim: nat, budget: nat, first: (State, bool), second: (State, bool))
    requires Consistent(points, s, dim) && budget > 0 && first == Round(points, s, dim)
    requires !first.1 ==> second == Round(points, first.0, dim)
    ensures first.1 ==> RunAsWritten(points, s, dim, budget) == (first.0, 1)
    ensures !first.1 ==> RunAsWritten(points, s, dim, budget).0 == RunAsWritten(points, second.0, dim, Spend(budget)).0
    ensures !first.1 ==> RunAsWritten(points, s, dim, budget).1 == RunAsWritten(points, second.0, dim, Spend(budget)).1 + 2
  {
  }

  /** One pass of `run` as documented. */
  lemma IntendedPass(points: seq<Point>, s: State, dim: nat, budget: nat, first: (State, bool))
    requires Consistent(points, s, dim) && budget > 0 && first == Round(points, s, dim)
    ensures first.1 ==> RunIntended(points, s, dim, budget) == (first.0, 1, true)
    ensures !first.1 ==> RunIntended(points, s, dim, budget).0 == RunIntended(points, first.0, dim, Spend(budget)).0
    ensures !first.1 ==> RunIntended(points, s, dim, budget).1 == RunIntended(points, first.0, dim, Spend(budget)).1 + 1
    ensures !first.1 ==> RunIntended(points, s, dim, budget).2 == RunIntended(points, first.0, dim, Spend(budget)).2
  {
  }

  /** Two one-dimensional points, 0 and 10, and one centroid at 0: the first
      round moves the centroid to 5, the second leaves it there. */
  lemma TwoRoundsToConverge(pts: seq<Point>, s: State)
    requires pts == [[0.0], [10.0]] && s == State([[0.0]], [[]])
    ensures Consistent(pts, s, 1)
    ensures Round(pts, s, 1) == (State([[5.0]], [[0, 1]]), false)
    ensures Round(pts, State([[5.0]], [[0, 1]]), 1) == (State([[5.0]], [[0, 1]]), true)
  {
    RoundOnTwoPoints(pts, [0.0]);
    RoundOnTwoPoints(pts, [5.0]);
    assert !CloseAt([5.0], [0.0], 0);
    AllCloseAt([5.0], [0.0]);
    AllCloseFacts([5.0], [5.0], 0);
  }

  /** With a single centroid, both points join it and its new centroid is
      their mean, 5. */
  lemma RoundOnTwoPoints(pts: seq<Point>, c: Point)
    requires pts == [[0.0], [10.0]] && |c| == 1
    ensures Consistent(pts, State([c], [[]]), 1) && Consistent(pts, State([c], [[0, 1]]), 1)
    ensures Round(pts, State([c], [[]]), 1) == Round(pts, State([c], [[0, 1]]), 1)
    ensures Round(pts, State([c], [[]]), 1) == (State([[5.0]], [[0, 1]]), AllClose([5.0], c))
  {
    var cents := [c];
    assert Nearest(cents, pts[0]) == 0 && Nearest(cents, pts[1]) == 0;
    assert Assigned(pts, cents, 1, 0, 2) == [0, 1] by {
      assert Assigned(pts, cents, 1, 0, 1) == [0];
    }
    var ms := Assignment(pts, cents, 1);
    assert ms == [[0, 1]];
    var members := MemberPoints(pts, [0, 1]);
    assert members == pts;
    assert ColumnSum(members, 0) == 10.0 by {
      assert members[..1] == [[0.0]];
      assert ColumnSum([[0.0]], 0) == 0.0 by {
        assert [[0.0]][..0] == [];
      }
    }
    assert Mean(members, 1) == [5.0];
    assert Updated(pts, cents, ms, 1) == [[5.0]];
    assert Stable(c, members, 1) == AllClose([5.0], c);
    assert StableUpTo(pts, cents, ms, 1, 1) == AllClose([5.0], c);
  }

  /** `run` as written overruns its budget: with `maxstep == 1` on the points
      of TwoRoundsToConverge it makes two steps, where one pass as documented
      makes one and stops at the budget. */
  lemma RunAsWrittenOverrunsBudget(pts: seq<Point>, s: State, maxstep: nat)
    requires pts == [[0.0], [10.0]] && s == State([[0.0]], [[]]) && maxstep == 1
    ensures Consistent(pts, s, 1)
    ensures RunAsWritten(pts, s, 1, maxstep) == (State([[5.0]], [[0, 1]]), 2)
    ensures RunIntended(pts, s, 1, maxstep) == (State([[5.0]], [[0, 1]]), 1, false)
  {
    TwoRoundsToConverge(pts, s);
    var first := Round(pts, s, 1);
    var second := Round(pts, first.0, 1);
    WrittenPass(pts, s, 1, maxstep, first, second);
    IntendedPass(pts, s, 1, maxstep, first);
    NoBudget(pts, second.0, 1, Spend(maxstep));
  }
}
