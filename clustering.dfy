/** The k-means classes of clustering.py: the validators used by their
    asserts, `Dataset` (an append-only store of points), `Cluster` (a
    duplicate-free index list plus a centroid) and `ClusterGroup` (k clusters
    and Lloyd's partition/update loop). Each `ClusterGroup` operation is
    proved to compute the value-level round of module Lloyd. */
module Clustering {
  import opened PyValues
  import opened Vectors
  import opened Lloyd

  // ---------------------------------------------------------------------
  // Helper functions for the asserts

  /** `is_point`: a list whose every element is an int or a float. */
  predicate IsPointValue(v: Value) {
    v.List? && forall i :: 0 <= i < |v.items| ==> IsNumber(v.items[i])
  }

  /** `is_point` as written: scans the whole list, clearing the flag at each
      element that is not a number. */
  method IsPoint(thelist: Value) returns (okay: bool)
    ensures okay == IsPointValue(thelist)
  {
    if !thelist.List? {
      return false;
    }
    okay := true;
    for i := 0 to |thelist.items|
      invariant okay == forall t :: 0 <= t < i ==> IsNumber(thelist.items[t])
    {
      if !IsNumber(thelist.items[i]) {
        okay := false;
      }
    }
  }

  /** What `valid_contents` actually decides: `None` passes; anything but a
      non-empty list fails; a row without a length raises a TypeError; and
      otherwise the contents pass as soon as ONE row is a list of length
      `dimension`. */
  function ValidContentsResult(dimension: int, contents: Value): Outcome<bool> {
    if contents.None? then Return(true)
    else if !contents.List? || |contents.items| < 1 then Return(false)
    else if exists t :: 0 <= t < |contents.items| && !HasLen(contents.items[t]) then Raise(TypeError)
    else Return(exists t :: 0 <= t < |contents.items| && contents.items[t].List? && |contents.items[t].items| == dimension)
  }

  /** `valid_contents` as written: the loop sets the flag on any row of the
      right length and never clears it. */
  method ValidContents(dimension: int, contents: Value) returns (r: Outcome<bool>)
    ensures r == ValidContentsResult(dimension, contents)
  {
    if contents.None? {
      return Return(true);
    }
    if !contents.List? || |contents.items| < 1 {
      return Return(false);
    }
    var okay := false;
    for i := 0 to |contents.items|
      invariant forall t :: 0 <= t < i ==> HasLen(contents.items[t])
      invariant okay == exists t :: 0 <= t < i && contents.items[t].List? && |contents.items[t].items| == dimension
    {
      var x := contents.items[i];
      if !HasLen(x) {
        return Raise(TypeError);
      }
      if Len(x) == dimension && x.List? {
        okay := true;
      }
    }
    return Return(okay);
  }

  /** A row that has a length but is not a list, such as the tuple
      `(1.0,)`, makes `valid_contents` return False rather than raise. */
  lemma TupleRowFailsWrittenCheck(contents: Value)
    requires contents == List([Sized(1)])
    ensures ValidContentsResult(1, contents) == Return(false)
  {
    assert HasLen(contents.items[0]) && !contents.items[0].List?;
  }

  /** What the documentation of `valid_contents` and the `Dataset` invariant
      ask for: `None`, or a non-empty list whose EVERY row is a list of
      length `dimension`. */
  predicate ValidContentsIntended(dimension: int, contents: Value) {
    contents.None? ||
    (contents.List? && |contents.items| >= 1 &&
     forall t :: 0 <= t < |contents.items| ==> contents.items[t].List? && |contents.items[t].items| == dimension)
  }

  /** The intended check is stricter than the written one: whatever it
      accepts, `valid_contents` accepts too. */
  lemma IntendedContentsPassWrittenCheck(dimension: int, contents: Value)
    requires ValidContentsIntended(dimension, contents)
    ensures ValidContentsResult(dimension, contents) == Return(true)
  {
    if contents.List? {
      assert contents.items[0].List? && |contents.items[0].items| == dimension;
    }
  }

  /** `valid_contents` accepts ragged contents: with dimension 1, the rows
      `[1.0]` and `[1.0, 2.0]` pass although the second row has two columns. */
  lemma RaggedContentsPassWrittenCheck()
    ensures var ragged := List([List([Float(1.0)]), List([Float(1.0), Float(2.0)])]);
      ValidContentsResult(1, ragged) == Return(true) && !ValidContentsIntended(1, ragged)
  {
    var ragged := List([List([Float(1.0)]), List([Float(1.0), Float(2.0)])]);
    assert ragged.items[0].List? && |ragged.items[0].items| == 1;
    assert |ragged.items[1].items| == 2;
  }

  /** A seed index Python can use on a list of `n` points: an int (or bool)
      in `[-n, n)`. */
  predicate SeedOk(n: nat, v: Value) {
    IsIndex(v) && InRange(n, IndexValue(v))
  }

  /** The exception `dataset.getContents()[v]` raises for an unusable `v`. */
  function SeedErrorOf(v: Value): PyError {
    if IsIndex(v) then IndexError else TypeError
  }

  /** The position of the first unusable seed index. */
  function FirstBadSeed(n: nat, items: seq<Value>): (i: nat)
    requires exists t :: 0 <= t < |items| && !SeedOk(n, items[t])
    ensures i < |items| && !SeedOk(n, items[i])
    ensures forall t :: 0 <= t < i ==> SeedOk(n, items[t])
  {
    if !SeedOk(n, items[0]) then 0
    else
      assert exists t :: 0 <= t < |items[1..]| && !SeedOk(n, items[1..][t]) by {
        var t :| 0 <= t < |items| && !SeedOk(n, items[t]);
        assert items[1..][t - 1] == items[t];
      }
      1 + FirstBadSeed(n, items[1..])
  }

  /** What `valid_seed_inds` actually decides for a dataset of `n` points:
      `None` passes; a non-list or a list of the wrong length fails; the first
      unusable index raises; otherwise the list passes if it is non-empty.
      The membership test `contents[x] in contents` is always true once the
      indexing succeeds, so only the type and the length are really checked. */
  function ValidSeedIndsResult(n: nat, k: int, seeds: Value): Outcome<bool> {
    if seeds.None? then Return(true)
    else if !seeds.List? || |seeds.items| != k then Return(false)
    else if forall t :: 0 <= t < |seeds.items| ==> SeedOk(n, seeds.items[t]) then Return(|seeds.items| > 0)
    else Raise(SeedErrorOf(seeds.items[FirstBadSeed(n, seeds.items)]))
  }

  /** For a list of the right length, `valid_seed_inds` passes exactly when
      the list is non-empty and every entry is a usable index, and raises
      exactly when some entry is not. */
  lemma ValidSeedIndsMeaning(n: nat, k: int, seeds: Value)
    requires seeds.List? && |seeds.items| == k
    ensures ValidSeedIndsResult(n, k, seeds) == Return(true) <==>
      k > 0 && forall t :: 0 <= t < k ==> SeedOk(n, seeds.items[t])
    ensures ValidSeedIndsResult(n, k, seeds).Raise? <==> exists t :: 0 <= t < k && !SeedOk(n, seeds.items[t])
  {
  }

  /** `valid_seed_inds` as written: indexes the dataset with every seed
      (raising on the first unusable one) and sets the flag whenever the
      indexed point is among the contents, which it always is. */
  method ValidSeedInds(dataset: Dataset, k: int, seedInds: Value) returns (r: Outcome<bool>)
    ensures r == ValidSeedIndsResult(|dataset.contents|, k, seedInds)
  {
    if seedInds.None? {
      return Return(true);
    }
    if !seedInds.List? || |seedInds.items| != k {
      return Return(false);
    }
    var contents := dataset.contents;
    var n := |contents|;
    var okay := false;
    for i := 0 to |seedInds.items|
      invariant forall t :: 0 <= t < i ==> SeedOk(n, seedInds.items[t])
      invariant okay == (i > 0)
    {
      var x := seedInds.items[i];
      if !SeedOk(n, x) {
        ghost var f := FirstBadSeed(n, seedInds.items);
        assert !SeedOk(n, seedInds.items[f]);
        assert f == i;
        return Raise(SeedErrorOf(x));
      }
      var p := contents[Position(n, IndexValue(x))];
      if p in contents {
        okay := true;
      }
    }
    return Return(okay);
  }

  // ---------------------------------------------------------------------
  // Dataset

  /** The rows of a contents value are all points. */
  predicate RowsArePoints(contents: Value) {
    contents.None? || (contents.List? && forall t :: 0 <= t < |contents.items| ==> IsPointValue(contents.items[t]))
  }

  function ToPoint(v: Value): (p: Point)
    requires IsPointValue(v)
    ensures |p| == |v.items|
  {
    seq(|v.items|, i requires 0 <= i < |v.items| => ToReal(v.items[i]))
  }

  /** The points a contents value denotes; `None` denotes no points. */
  function Rows(contents: Value): (rows: seq<Point>)
    requires RowsArePoints(contents)
    ensures contents.List? ==> |rows| == |contents.items|
  {
    if contents.None? then []
    else seq(|contents.items|, t requires 0 <= t < |contents.items| => ToPoint(contents.items[t]))
  }

  class Dataset {
    /** The point dimension; it never changes. */
    const dim: nat
    /** The stored points, in insertion order. */
    var contents: seq<Point>

    ghost predicate Valid()
      reads this
    {
      dim > 0 && AllOfDim(contents, dim)
    }

    /** Copies the rows of `contents` (or none, for `None`). The model asks
        for the intended contents check; see ValidContentsIntended. */
    constructor (dim: int, contents: Value)
      requires dim > 0
      requires ValidContentsIntended(dim, contents) && RowsArePoints(contents)
      ensures Valid() && this.dim == dim
      ensures this.contents == Rows(contents)
    {
      this.dim := dim;
      var copy: seq<Point> := [];
      if contents.List? {
        for t := 0 to |contents.items|
          invariant copy == Rows(contents)[..t]
        {
          copy := copy + [ToPoint(contents.items[t])];
        }
        assert Rows(contents)[..|contents.items|] == Rows(contents);
      }
      this.contents := copy;
    }

    method GetDimension() returns (d: nat)
      ensures d == dim
    {
      return dim;
    }

    method GetSize() returns (n: nat)
      ensures n == |contents|
    {
      return |contents|;
    }

    /** A copy of all points; being a value, it cannot alias the store. */
    method GetContents() returns (copy: seq<Point>)
      ensures copy == contents
    {
      return contents;
    }

    /** The point at position `i`. */
    method GetPoint(i: int) returns (point: Point)
      requires 0 <= i < |contents|
      ensures point == contents[i]
    {
      var all := GetContents();
      point := all[i];
    }

    /** Appends a copy of `point`, which must be a list of `dim` numbers. */
    method AddPoint(point: Value)
      requires Valid()
      requires IsPointValue(point) && |point.items| == dim
      modifies this`contents
      ensures Valid()
      ensures contents == old(contents) + [ToPoint(point)]
    {
      contents := contents + [ToPoint(point)];
    }
  }

  // ---------------------------------------------------------------------
  // Cluster

  /** No index occurs twice. */
  predicate NoDuplicates(s: seq<int>) {
    forall a, b :: 0 <= a < b < |s| ==> s[a] != s[b]
  }

  class Cluster {
    /** The dataset this cluster is a subset of; shared, never modified here. */
    const ds: Dataset
    var centroid: Point
    /** Positions in `ds` of the member points. */
    var indices: seq<int>

    ghost predicate Valid()
      reads this, ds
    {
      ds.Valid() && |centroid| == ds.dim && IndicesIn(indices, |ds.contents|)
    }

    /** The points of this cluster, in index-list order. */
    ghost function Members(): seq<Point>
      reads this, ds
      requires Valid()
    {
      MemberPoints(ds.contents, indices)
    }

    /** An empty cluster with a copy of `centroid`. */
    constructor (ds: Dataset, centroid: Point)
      requires ds.Valid() && |centroid| == ds.dim
      ensures Valid() && this.ds == ds && this.centroid == centroid && indices == []
    {
      this.ds := ds;
      this.centroid := centroid;
      this.indices := [];
    }

    method GetCentroid() returns (c: Point)
      ensures c == centroid
    {
      return centroid;
    }

    method GetIndices() returns (r: seq<int>)
      ensures r == indices
    {
      return indices;
    }

    /** Adds `index` unless it is already present. */
    method AddIndex(index: int)
      requires Valid() && 0 <= index < |ds.contents|
      modifies this`indices
      ensures Valid()
      ensures index in indices
      ensures indices == if index in old(indices) then old(indices) else old(indices) + [index]
      ensures NoDuplicates(old(indices)) ==> NoDuplicates(indices)
    {
      if index !in indices {
        indices := indices + [index];
      }
    }

    /** Removes every index; the centroid is untouched. */
    method Clear()
      requires Valid()
      modifies this`indices
      ensures Valid() && indices == []
    {
      indices := [];
    }

    /** The member points, one per index, in index-list order. */
    method GetContents() returns (members: seq<Point>)
      requires Valid()
      ensures |members| == |indices|
      ensures forall t :: 0 <= t < |indices| ==> members[t] == ds.contents[indices[t]]
    {
      members := [];
      var contents := ds.GetContents();
      var p := indices;
      for t := 0 to |p|
        invariant |members| == t
        invariant forall u :: 0 <= u < t ==> members[u] == contents[p[u]]
      {
        members := members + [contents[p[t]]];
      }
    }

    /** The squared Euclidean distance from `point` to the centroid (the
        square root is left out; it is monotone, so every comparison of
        distances made by the clustering comes out the same). */
    method Distance(point: Point) returns (total: real)
      requires Valid() && |point| == ds.dim
      ensures total == SqDist(centroid, point)
    {
      total := 0.0;
      var c := GetCentroid();
      for x := 0 to |c|
        invariant total == SqDistPrefix(c, point, x)
      {
        var pt1 := c[x];
        var pt2 := point[x];
        total := total + (pt1 - pt2) * (pt1 - pt2);
      }
    }

    /** Replaces the centroid by the mean of the members, unless there are
        none; reports whether the centroid stayed put within numpy's default
        `allclose` tolerance (always true for an empty cluster). */
    method UpdateCentroid() returns (stable: bool)
      requires Valid()
      modifies this`centroid
      ensures Valid()
      ensures indices == [] ==> stable && centroid == old(centroid)
      ensures indices != [] ==> centroid == Mean(old(Members()), ds.dim) && stable == AllClose(centroid, old(centroid))
      ensures centroid == NewCentroid(old(centroid), old(Members()), ds.dim)
      ensures stable == Stable(old(centroid), old(Members()), ds.dim)
    {
      var c := GetCentroid();
      var cluster := GetContents();
      assert cluster == Members();
      stable := true;
      if |cluster| > 0 {
        var coord := Mean(cluster, ds.dim);
        stable := AllClose(coord, c);
        centroid := coord;
      }
    }
  }

  // ---------------------------------------------------------------------
  // ClusterGroup

  /** `random.sample` of `k` positions out of `n`: distinct and in range. */
  predicate IsSample(sample: seq<int>, k: int, n: nat) {
    |sample| == k &&
    (forall i :: 0 <= i < |sample| ==> 0 <= sample[i] < n) &&
    NoDuplicates(sample)
  }

  /** The position of the point that seeds cluster `i`: from the caller's
      seed indices (Python indexing, so negative ones count from the end) or
      else from the random sample. */
  function SeedPosition(seeds: Value, sample: seq<int>, n: nat, i: nat): (p: nat)
    requires seeds.None? ==> i < |sample| && 0 <= sample[i] < n
    requires seeds.List? ==> i < |seeds.items| && SeedOk(n, seeds.items[i])
    requires seeds.None? || seeds.List?
    ensures p < n
  {
    if seeds.None? then sample[i] else Position(n, IndexValue(seeds.items[i]))
  }

  class ClusterGroup {
    const ds: Dataset
    const k: int
    const seedInds: Value
    /** The clusters, in their fixed tie-break order. */
    const clusters: seq<Cluster>

    ghost predicate Valid()
      reads this, ds, clusters
    {
      && ds.Valid()
      && |clusters| == k && k > 0
      && (forall i, j :: 0 <= i < j < |clusters| ==> clusters[i] != clusters[j])
      && (forall j :: 0 <= j < |clusters| ==> clusters[j].ds == ds && clusters[j].Valid())
    }

    ghost function Centroids(): (cs: seq<Point>)
      reads this, clusters
      ensures |cs| == |clusters|
    {
      seq(|clusters|, j requires 0 <= j < |clusters| reads clusters => clusters[j].centroid)
    }

    ghost function Memberships(): (ms: seq<seq<int>>)
      reads this, clusters
      ensures |ms| == |clusters|
    {
      seq(|clusters|, j requires 0 <= j < |clusters| reads clusters => clusters[j].indices)
    }

    /** The clustering state as a value of module Lloyd. */
    ghost function Snapshot(): State
      reads this, clusters
    {
      State(Centroids(), Memberships())
    }

    /** The centroids, read one cluster at a time, are `cents`. */
    lemma CentroidsAre(cents: seq<Point>)
      requires |cents| == |clusters| && forall j :: 0 <= j < |clusters| ==> clusters[j].centroid == cents[j]
      ensures Centroids() == cents
    {
    }

    /** The index lists, read one cluster at a time, are `ms`. */
    lemma MembershipsAre(ms: seq<seq<int>>)
      requires |ms| == |clusters| && forall j :: 0 <= j < |clusters| ==> clusters[j].indices == ms[j]
      ensures Memberships() == ms
    {
    }

    lemma SnapshotConsistent()
      requires Valid()
      ensures Consistent(ds.contents, Snapshot(), ds.dim)
    {
    }

    /** Seeds cluster `i` with the point at `seedInds[i]`, or, without seed
        indices, at `sample[i]`, where `sample` stands for the positions
        `random.sample` draws. */
    constructor (ds: Dataset, k: int, seedInds: Value, sample: seq<int>)
      requires ds.Valid()
      requires 0 < k <= |ds.contents|
      requires ValidSeedIndsResult(|ds.contents|, k, seedInds) == Return(true)
      requires seedInds.None? ==> IsSample(sample, k, |ds.contents|)
      ensures Valid() && this.ds == ds && this.k == k && this.seedInds == seedInds
      ensures forall j :: 0 <= j < k ==> fresh(clusters[j])
      ensures forall j :: 0 <= j < k ==> clusters[j].indices == []
      ensures forall j :: 0 <= j < k ==>
        clusters[j].centroid == ds.contents[SeedPosition(seedInds, sample, |ds.contents|, j)]
    {
      var n := |ds.contents|;
      assert seedInds.List? ==> forall t :: 0 <= t < k ==> SeedOk(n, seedInds.items[t]);
      var centroids: seq<Point> := [];
      if seedInds.None? {
        for x := 0 to k
          invariant |centroids| == x
          invariant forall j :: 0 <= j < x ==> centroids[j] == ds.contents[sample[j]]
        {
          centroids := centroids + [ds.contents[sample[x]]];
        }
      } else {
        var contents := ds.GetContents();
        for x := 0 to k
          invariant |centroids| == x
          invariant forall j :: 0 <= j < x ==> centroids[j] == ds.contents[SeedPosition(seedInds, sample, n, j)]
        {
          centroids := centroids + [contents[Position(n, IndexValue(seedInds.items[x]))]];
        }
      }
      var cs: seq<Cluster> := [];
      for x := 0 to k
        invariant |cs| == x
        invariant forall i, j :: 0 <= i < j < x ==> cs[i] != cs[j]
        invariant forall j :: 0 <= j < x ==>
          fresh(cs[j]) && cs[j].ds == ds && cs[j].Valid() && cs[j].indices == [] && cs[j].centroid == centroids[j]
      {
        var c := new Cluster(ds, centroids[x]);
        cs := cs + [c];
      }
      this.ds := ds;
      this.k := k;
      this.seedInds := seedInds;
      this.clusters := cs;
    }

    method GetClusters() returns (cs: seq<Cluster>)
      ensures cs == clusters
    {
      return clusters;
    }

    /** The cluster whose centroid is nearest to `point`; the running minimum
        is replaced only on a strictly smaller distance, so the earliest of
        several equally near clusters wins. */
    method NearestCluster(point: Point) returns (clust: Cluster)
      requires Valid() && |point| == ds.dim
      ensures clust == clusters[Nearest(Centroids(), point)]
    {
      ghost var cents := Centroids();
      var lowest := clusters[0].Distance(point);
      clust := clusters[0];
      ghost var best := 0;
      for x := 0 to |clusters| - 1
        invariant best <= x && clust == clusters[best]
        invariant lowest == SqDist(cents[best], point)
        invariant forall i :: 0 <= i <= x ==> lowest <= SqDist(cents[i], point)
        invariant forall i :: 0 <= i < best ==> lowest < SqDist(cents[i], point)
      {
        var distance := clusters[x + 1].Distance(point);
        if distance < lowest {
          lowest := distance;
          clust := clusters[x + 1];
          best := x + 1;
        }
      }
      NearestCharacterized(cents, point, best);
    }

    /** Empties every cluster, then adds each point index, in ascending
        order, to its nearest cluster. */
    method Partition()
      requires Valid()
      modifies clusters
      ensures Valid() && unchanged(ds)
      ensures Centroids() == old(Centroids())
      ensures Memberships() == Assignment(old(ds.contents), old(Centroids()), ds.dim)
    {
      ghost var cents := Centroids();
      ClearAll();
      var size := ds.GetSize();
      var contents := ds.GetContents();
      PartitionStart(contents, cents);
      AddAll(size, contents, cents);
      PartitionDone(contents, cents);
    }

    /** The second loop of the partition: adds every point index, in
        ascending order, to its nearest cluster. */
    method AddAll(size: int, pts: seq<Point>, ghost cents: seq<Point>)
      requires Valid() && pts == ds.contents && size == |pts| && PartitionedBefore(pts, cents, 0)
      modifies clusters
      ensures Valid() && unchanged(ds)
      ensures PartitionedBefore(pts, cents, |pts|)
    {
      for i := 0 to size
        invariant Valid() && unchanged(ds)
        invariant PartitionedBefore(pts, cents, i)
      {
        AddToNearest(i, pts, cents);
      }
    }

    /** The partition loop has visited the points before `i`: every cluster
        keeps centroid `cents[j]` and holds, in ascending order, the indices
        before `i` whose nearest centroid is its own. */
    ghost predicate PartitionedBefore(pts: seq<Point>, cents: seq<Point>, i: int)
      reads this, clusters
    {
      && Shaped(pts, cents, ds.dim) && |cents| == |clusters| && 0 <= i <= |pts|
      && (forall j :: 0 <= j < |clusters| ==> clusters[j].centroid == cents[j])
      && (forall j :: 0 <= j < |clusters| ==> clusters[j].indices == Assigned(pts, cents, ds.dim, j, i))
    }

    /** Before the partition loop, every cluster is empty. */
    lemma PartitionStart(pts: seq<Point>, cents: seq<Point>)
      requires Valid() && pts == ds.contents && |cents| == |clusters|
      requires forall j :: 0 <= j < |clusters| ==> clusters[j].centroid == cents[j] && clusters[j].indices == []
      ensures PartitionedBefore(pts, cents, 0)
    {
    }

    /** Once the partition loop has visited every point, the memberships are
        the assignment of the points to their nearest centroids. */
    lemma PartitionDone(pts: seq<Point>, cents: seq<Point>)
      requires PartitionedBefore(pts, cents, |pts|)
      ensures Centroids() == cents
      ensures Memberships() == Assignment(pts, cents, ds.dim)
    {
      CentroidsAre(cents);
      MembershipsAre(Assignment(pts, cents, ds.dim));
    }

    /** The first loop of the partition: empties every cluster. */
    method ClearAll()
      requires Valid()
      modifies clusters
      ensures Valid() && unchanged(ds)
      ensures forall j :: 0 <= j < |clusters| ==> clusters[j].centroid == old(clusters[j].centroid)
      ensures forall j :: 0 <= j < |clusters| ==> clusters[j].indices == []
    {
      for x := 0 to |clusters|
        invariant Valid() && unchanged(ds)
        invariant forall j :: 0 <= j < |clusters| ==> clusters[j].centroid == old(clusters[j].centroid)
        invariant forall j :: 0 <= j < x ==> clusters[j].indices == []
      {
        clusters[x].Clear();
      }
    }

    /** The body of the partition loop: adds point `i` to the cluster nearest
        to it (`cents` are the current centroids), leaving every other
        cluster as it was. */
    method AddToNearest(i: int, pts: seq<Point>, ghost cents: seq<Point>)
      requires Valid() && pts == ds.contents && i < |pts| && PartitionedBefore(pts, cents, i)
      modifies clusters
      ensures Valid() && unchanged(ds)
      ensures PartitionedBefore(pts, cents, i + 1)
    {
      CentroidsAre(cents);
      ghost var jn := Nearest(cents, pts[i]);
      var nearest := NearestCluster(pts[i]);
      assert nearest == clusters[jn];
      nearest.AddIndex(i);
      forall j | 0 <= j < |clusters|
        ensures clusters[j].Valid() && clusters[j].centroid == cents[j]
        ensures clusters[j].indices == Assigned(pts, cents, ds.dim, j, i + 1)
      {
        AssignedNext(pts, cents, ds.dim, j, i);
        if j != jn {
          assert clusters[j] != clusters[jn];
        }
      }
    }

    /** Updates every centroid (no short-circuit) and reports whether all of
        them stayed put. */
    method Update() returns (converged: bool)
      requires Valid()
      modifies clusters
      ensures Valid() && unchanged(ds)
      ensures Memberships() == old(Memberships())
      ensures Centroids() == Updated(old(ds.contents), old(Centroids()), old(Memberships()), ds.dim)
      ensures converged == AllStable(old(ds.contents), old(Centroids()), old(Memberships()), ds.dim)
    {
      ghost var pts := ds.contents;
      ghost var cents := Centroids();
      ghost var ms := Memberships();
      var bools: seq<bool> := [];
      for x := 0 to |clusters|
        invariant Valid() && unchanged(ds)
        invariant UpdatedBefore(pts, cents, ms, x, bools)
      {
        bools := UpdateAt(x, pts, cents, ms, bools);
      }
      converged := !(false in bools);
      UpdateDone(pts, cents, ms, bools);
    }

    /** Once the update loop has visited every cluster, the centroids are
        the updated ones and the reports say whether all clusters are stable. */
    lemma UpdateDone(pts: seq<Point>, cents: seq<Point>, ms: seq<seq<int>>, bools: seq<bool>)
      requires UpdatedBefore(pts, cents, ms, |clusters|, bools)
      ensures Memberships() == ms
      ensures Centroids() == Updated(pts, cents, ms, ds.dim)
      ensures !(false in bools) <==> AllStable(pts, cents, ms, ds.dim)
    {
      UpdatedAt(pts, cents, ms, ds.dim);
      AllStableAt(pts, cents, ms, ds.dim);
      MembershipsAre(ms);
      CentroidsAre(Updated(pts, cents, ms, ds.dim));
    }

    /** The update loop has visited the clusters before `x`: those hold their
        new centroid and `bools` their reports; the others are untouched. */
    ghost predicate UpdatedBefore(pts: seq<Point>, cents: seq<Point>, ms: seq<seq<int>>, x: int, bools: seq<bool>)
      reads this, clusters
    {
      && Consistent(pts, State(cents, ms), ds.dim) && |cents| == |clusters| && 0 <= x <= |clusters| && |bools| == x
      && (forall j :: 0 <= j < |clusters| ==> clusters[j].indices == ms[j])
      && (forall j :: x <= j < |clusters| ==> clusters[j].centroid == cents[j])
      && (forall j :: 0 <= j < x ==>
            clusters[j].centroid == NewCentroid(cents[j], MemberPoints(pts, ms[j]), ds.dim) &&
            bools[j] == Stable(cents[j], MemberPoints(pts, ms[j]), ds.dim))
    }

    /** The body of the update loop: updates cluster `x` and appends its
        report to `bools`, leaving every other cluster as it was. */
    method UpdateAt(x: int, ghost pts: seq<Point>, ghost cents: seq<Point>, ghost ms: seq<seq<int>>, bools: seq<bool>)
      returns (bools': seq<bool>)
      requires Valid() && pts == ds.contents && x < |clusters| && UpdatedBefore(pts, cents, ms, x, bools)
      modifies clusters[x]
      ensures Valid() && unchanged(ds)
      ensures UpdatedBefore(pts, cents, ms, x + 1, bools')
    {
      var cluster := clusters[x];
      assert cluster.ds == ds && cluster.centroid == cents[x] && cluster.indices == ms[x];
      var stable := cluster.UpdateCentroid();
      bools' := bools + [stable];
      forall j | 0 <= j < |clusters| && j != x
        ensures clusters[j].centroid == old(clusters[j].centroid)
      {
        assert clusters[j] != cluster;
      }
    }

    /** One cycle of k-means: partition, then update. */
    method Step() returns (converged: bool)
      requires Valid()
      modifies clusters
      ensures Valid() && unchanged(ds)
      ensures (Snapshot(), converged) == Round(old(ds.contents), old(Snapshot()), ds.dim)
    {
      SnapshotConsistent();
      Partition();
      assert ds.contents == old(ds.contents);
      converged := Update();
    }

    /** `run` as written: the loop condition calls `step` and, while it
        reports no convergence, the body calls `step` again and ignores the
        result, so up to `2 * maxstep` steps are made. `steps` counts them. */
    method Run(maxstep: int) returns (ghost steps: nat)
      requires Valid() && maxstep >= 0
      modifies clusters
      ensures Valid()
      ensures (Snapshot(), steps) == RunAsWritten(old(ds.contents), old(Snapshot()), ds.dim, maxstep)
    {
      SnapshotConsistent();
      ghost var pts := ds.contents;
      ghost var target := RunAsWritten(pts, Snapshot(), ds.dim, maxstep);
      steps := WrittenLoop(maxstep, pts, target);
    }

    /** The loop of `run` as written, from a state that `run` would take to
        `target` within `maxstep` passes. */
    method WrittenLoop(maxstep: int, ghost pts: seq<Point>, ghost target: (State, nat)) returns (ghost steps: nat)
      requires Valid() && maxstep >= 0 && ds.contents == pts && Remains(pts, target, Snapshot(), maxstep, 0)
      modifies clusters
      ensures Valid() && (Snapshot(), steps) == target
    {
      ghost var left: nat := maxstep;
      steps := 0;
      var x := 0;
      while x < maxstep
        invariant Valid() && 0 <= x <= maxstep && left == maxstep - x && ds.contents == pts
        invariant Remains(pts, target, Snapshot(), left, steps)
      {
        var converged;
        converged, steps := WrittenLoopPass(pts, target, left, steps);
        if converged {
          return;
        }
        x := x + 1;
        left := Spend(left);
      }
      ghost var last := Snapshot();
      NoBudget(pts, last, ds.dim, left);
      assert target.0 == last && target.1 == steps;
    }

    /** From state `s` with `left` passes to go, after `steps` steps, `run`
        as written still ends in `target`. */
    ghost predicate Remains(pts: seq<Point>, target: (State, nat), s: State, left: nat, steps: nat) {
      Consistent(pts, s, ds.dim) &&
      target.0 == RunAsWritten(pts, s, ds.dim, left).0 &&
      target.1 == steps + RunAsWritten(pts, s, ds.dim, left).1
    }

    /** One pass of the loop of `run` as written: the `step` of the loop
        test and, when it does not converge, the `step` of the body. */
    method WrittenLoopPass(ghost pts: seq<Point>, ghost target: (State, nat), ghost left: nat, ghost steps: nat)
      returns (converged: bool, ghost steps': nat)
      requires Valid() && ds.contents == pts && left > 0 && Remains(pts, target, Snapshot(), left, steps)
      modifies clusters
      ensures Valid() && ds.contents == pts
      ensures converged ==> target == (Snapshot(), steps')
      ensures !converged ==> Remains(pts, target, Snapshot(), Spend(left), steps')
    {
      ghost var cur := Snapshot();
      ghost var first := Round(pts, cur, ds.dim);
      converged := Step();
      steps' := steps + 1;
      if converged {
        WrittenPass(pts, cur, ds.dim, left, first, first);
      } else {
        assert ds.contents == pts && Snapshot() == first.0;
        SnapshotConsistent();
        ghost var second := Round(pts, first.0, ds.dim);
        var _ := Step();
        steps' := steps + 2;
        WrittenPass(pts, cur, ds.dim, left, first, second);
        SnapshotConsistent();
      }
    }

    /** `run` as documented: at most `maxstep` steps, stopping at the first
        converged one. `steps` counts them and `converged` is the last
        step's report. */
    method RunUpTo(maxstep: int) returns (ghost steps: nat, ghost converged: bool)
      requires Valid() && maxstep >= 0
      modifies clusters
      ensures Valid()
      ensures (Snapshot(), steps, converged) == RunIntended(old(ds.contents), old(Snapshot()), ds.dim, maxstep)
    {
      SnapshotConsistent();
      ghost var pts := ds.contents;
      ghost var target := RunIntended(pts, Snapshot(), ds.dim, maxstep);
      steps, converged := IntendedLoop(maxstep, pts, target);
    }

    /** The loop of `run` as documented, from a state that it would take to
        `target` within `maxstep` steps. */
    method IntendedLoop(maxstep: int, ghost pts: seq<Point>, ghost target: (State, nat, bool))
      returns (ghost steps: nat, ghost converged: bool)
      requires Valid() && maxstep >= 0 && ds.contents == pts && RemainsIntended(pts, target, Snapshot(), maxstep, 0)
      modifies clusters
      ensures Valid() && (Snapshot(), steps, converged) == target
    {
      ghost var left: nat := maxstep;
      steps, converged := 0, false;
      var x := 0;
      while x < maxstep
        invariant Valid() && 0 <= x <= maxstep && left == maxstep - x && ds.contents == pts
        invariant RemainsIntended(pts, target, Snapshot(), left, steps)
      {
        var c;
        c, steps := IntendedLoopPass(pts, target, left, steps);
        if c {
          converged := true;
          return;
        }
        x := x + 1;
        left := Spend(left);
      }
      ghost var last := Snapshot();
      NoBudget(pts, last, ds.dim, left);
      assert target.0 == last && target.1 == steps && target.2 == converged;
    }

    /** From state `s` with `left` steps to go, after `steps` steps, `run`
        as documented still ends in `target`. */
    ghost predicate RemainsIntended(pts: seq<Point>, target: (State, nat, bool), s: State, left: nat, steps: nat) {
      Consistent(pts, s, ds.dim) &&
      target.0 == RunIntended(pts, s, ds.dim, left).0 &&
      target.1 == steps + RunIntended(pts, s, ds.dim, left).1 &&
      target.2 == RunIntended(pts, s, ds.dim, left).2
    }

    /** One pass of the loop of `run` as documented: a single `step`. */
    method IntendedLoopPass(ghost pts: seq<Point>, ghost target: (State, nat, bool), ghost left: nat, ghost steps: nat)
      returns (converged: bool, ghost steps': nat)
      requires Valid() && ds.contents == pts && left > 0 && RemainsIntended(pts, target, Snapshot(), left, steps)
      modifies clusters
      ensures Valid() && ds.contents == pts
      ensures converged ==> target == (Snapshot(), steps', true)
      ensures !converged ==> RemainsIntended(pts, target, Snapshot(), Spend(left), steps')
    {
      ghost var cur := Snapshot();
      ghost var next := Round(pts, cur, ds.dim);
      converged := Step();
      steps' := steps + 1;
      IntendedPass(pts, cur, ds.dim, left, next);
      SnapshotConsistent();
    }
  }
}
