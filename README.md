# K-means clustering and spaceship path utilities

This project models the two computational cores of the repository and proves
properties of them.

**K-means clustering (`clustering.py`).** Lloyd's algorithm is spread over
three classes:

- `Dataset` is an append-only store of points of a fixed dimension.
- `Cluster` is a list of dataset indices plus a centroid. It computes the
  distance from a point to its centroid and recomputes the centroid as the
  mean of its members.
- `ClusterGroup` holds `k` clusters seeded from dataset points. One `step`
  partitions every point to its nearest centroid, with the earliest cluster
  winning ties, and then updates every centroid. `run` repeats steps until
  the centroids stop moving or a step budget is spent.

The validators `is_point`, `valid_contents` and `valid_seed_inds`, which the
classes' asserts rely on, are modelled over a small datatype of Python values
(module `PyValues`). Inside the validators, a failing Python operation
becomes a `Raise` outcome. The classes' own `assert` statements become
preconditions (see "## Left out").

The three classes are Dafny classes whose methods update their fields in
place. Module `Lloyd` defines one round of the algorithm (assignment, then
update) and the `run` loop on plain values. The class methods are proved to
compute exactly these values: `Partition` yields `Assignment`, `Update`
yields `Updated`, `Step` yields `Round`, and `Run` yields `RunAsWritten`.
Module `Vectors` holds the point arithmetic: squared distance, column means,
and the `numpy.allclose` closeness test with numpy's default tolerances
(`rtol = 1e-5`, `atol = 1e-8`).

**Path utilities (`studentPackage/Paths.java`).** These implement a variant
of Dijkstra's search over a galaxy of planets:

- The ship starts with speed 1.0.
- A hostile planet costs 0.2 of speed, unless the speed is below 1.2.
- A speed upgrade adds 0.2, or 1.2 on a hostile planet.
- Crossing an edge of length `l` at speed `v` takes `l / v`.
- A hostile neighbour is pruned once the back-pointer chain already holds
  two hostile planets.

Module `Galaxy` gives the graph as a value: each node's exits in `getExits`
order, plus the sets of hostile and upgrade planets. `Connect` plays the role
of `getConnect`, and Java's 32-bit `int` addition is modelled by `Wrap32`.
Module `Paths` models the per-node `SFdata` records, a map for the search's
`HashMap`, and a priority map for the heap.

Acyclic back-pointer chains are witnessed by a ghost rank map. `PathTo` is
the chain that `constructPath` follows, and `shortestPath` is proved to keep
the search invariant `Inv` on every pass. The invariant says:

- the recorded nodes are exactly the settled nodes and the heap;
- a heap node's priority is its recorded time, and no settled node is later;
- back-pointers lead to settled neighbours, and only the start node has none;
- the start record is `(0, null, 1.0)`;
- times are non-negative and speeds are at least 1.0;
- no chain holds more than two hostile planets.

From the invariant, every non-empty path that `shortestPath` returns is a route: it
starts at `start` and ends at `end`, consecutive planets are joined by an
edge, no planet repeats, and at most two planets are hostile.

## Model

| member | source | states |
|---|---|---|
| Clustering.IsPoint | clustering.py:10-21 | returns True exactly for a list whose every element is an int or a float (IsPointValue) |
| Clustering.ValidContents | clustering.py:24-41 | the result of the check as written: True for None; False for a non-list or an empty list; otherwise True iff SOME row is a list of length `dimension`; a row without a length raises |
| Clustering.IntendedContentsPassWrittenCheck | clustering.py:24-41 | whatever the intended check accepts (None, or a non-empty list whose every row has length `dimension`), the written check accepts too |
| Clustering.TupleRowFailsWrittenCheck | clustering.py:36-39 | a row that has a length but is not a list, such as a one-element tuple, makes the check return False rather than raise |
| Clustering.RaggedContentsPassWrittenCheck | clustering.py:36-41 | the written check accepts the ragged rows `[1.0]`, `[1.0, 2.0]` for dimension 1, which the intended check rejects |
| Clustering.ValidSeedIndsMeaning | clustering.py:44-61 | for a list of length k, the check returns True iff k > 0 and every entry is an int usable as an index into the dataset, and raises iff some entry is not such an index |
| Clustering.ValidSeedInds | clustering.py:44-61 | the loop returns the outcome ValidSeedIndsResult: None passes, a non-list or a wrong length fails, and the first bad entry raises its IndexError or TypeError |
| Clustering.Dataset.constructor | clustering.py:89-113 | the dimension is kept and the contents are a copy of the given rows, one point per row, in order (none for None) |
| Clustering.Dataset.GetDimension | clustering.py:116-119 | returns the dimension |
| Clustering.Dataset.GetSize | clustering.py:122-125 | returns the number of stored points |
| Clustering.Dataset.GetContents | clustering.py:128-140 | returns the stored points, row by row |
| Clustering.Dataset.GetPoint | clustering.py:143-163 | for `0 <= i < size`, returns the i-th point |
| Clustering.Dataset.AddPoint | clustering.py:166-180 | for a point of the dataset's dimension, the contents grow by exactly that point at the end and earlier points are unchanged |
| Clustering.Cluster.constructor | clustering.py:223-248 | the cluster has the given dataset and centroid and no indices |
| Clustering.Cluster.GetCentroid | clustering.py:251-257 | returns the centroid |
| Clustering.Cluster.GetIndices | clustering.py:260-266 | returns the index list |
| Clustering.Cluster.AddIndex | clustering.py:269-283 | for a valid index, the index is present afterwards; a present index changes nothing, and an absent one is appended; a duplicate-free list stays duplicate-free |
| Clustering.Cluster.Clear | clustering.py:286-291 | empties the index list and leaves the centroid as it was |
| Clustering.Cluster.GetContents | clustering.py:294-308 | one point per index, in index-list order: the t-th result is the dataset point at the t-th index |
| Clustering.Cluster.Distance | clustering.py:312-331 | the squared Euclidean distance between the centroid and the point |
| Clustering.Cluster.UpdateCentroid | clustering.py:334-355 | with no members, returns True and keeps the centroid; otherwise the centroid becomes the coordinate-wise mean of the member points, of the dataset's dimension, and the result is whether it is close to the old one |
| Clustering.ClusterGroup.constructor | clustering.py:381-421 | builds exactly k fresh empty clusters; cluster i's centroid is the point at `seed_inds[i]` (negative indices count from the end), or at the i-th sampled position without seed indices |
| Clustering.ClusterGroup.GetClusters | clustering.py:424-430 | returns the clusters |
| Clustering.ClusterGroup.NearestCluster | clustering.py:434-459 | returns the cluster of index `Nearest(centroids, point)`: the earliest cluster of least distance |
| Clustering.ClusterGroup.Partition | clustering.py:462-475 | the centroids are unchanged and cluster j's indices become `Assignment(points, centroids)[j]`: the ascending indices of the points nearest to centroid j |
| Clustering.ClusterGroup.ClearAll | clustering.py:467-470 | every cluster is emptied and every centroid kept |
| Clustering.ClusterGroup.AddAll | clustering.py:471-475 | after the loop over all points, every cluster holds exactly its assigned points |
| Clustering.ClusterGroup.AddToNearest | clustering.py:473-475 | adding point i to its nearest cluster extends that cluster's assignment to the first i+1 points and leaves the others' as they were |
| Clustering.ClusterGroup.PartitionDone | clustering.py:462-475 | clusters holding the assignment of all points have exactly the centroids and memberships of `Assignment` |
| Clustering.ClusterGroup.Update | clustering.py:479-494 | every cluster's centroid is recomputed (no short-circuit), memberships are unchanged, and the result is True iff every cluster was stable |
| Clustering.ClusterGroup.UpdateAt | clustering.py:487-489 | updating cluster x leaves all other clusters' centroids as they were |
| Clustering.ClusterGroup.UpdateDone | clustering.py:490-494 | `False in bools` is false exactly when every cluster is stable |
| Clustering.ClusterGroup.Step | clustering.py:497-506 | the new state and result are those of one `Round`: partition, then update |
| Clustering.ClusterGroup.Run | clustering.py:510-528 | the final state and the number of steps taken are those of `RunAsWritten`, with two steps per unconverged pass |
| Clustering.ClusterGroup.WrittenLoop | clustering.py:523-528 | the written loop, started with a budget of `maxstep` from a state whose remaining `RunAsWritten` run ends in `target`, stops exactly in that final state after that many steps |
| Clustering.ClusterGroup.WrittenLoopPass | clustering.py:526-528 | one pass of the written loop: a converging condition step ends the run, otherwise the body steps again and the budget drops by one |
| Clustering.ClusterGroup.RunUpTo | clustering.py:510-528 | corrected `run`: the final state, steps and convergence are those of `RunIntended`, one step per pass |
| Clustering.ClusterGroup.IntendedLoop | clustering.py:523-528 | the corrected loop, started with a budget of `maxstep` from a state whose remaining `RunIntended` run ends in `target`, stops in that final state with its step count and convergence flag |
| Clustering.ClusterGroup.IntendedLoopPass | clustering.py:526-528 | one pass of the corrected loop: one step, then stop on convergence or spend one unit of budget |
| Lloyd.NearestCharacterized | clustering.py:451-459 | `j == Nearest(cents, p)` iff j is a valid cluster index, no centroid is strictly nearer, and every earlier centroid is strictly farther |
| Lloyd.TieGoesToEarlier | clustering.py:451-459 | of two equally near centroids, the later one is never chosen |
| Lloyd.AssignedNext | clustering.py:471-475 | considering one more point appends its index to exactly the cluster nearest to it |
| Lloyd.AssignedFacts | clustering.py:471-475 | each cluster's index list is strictly ascending and holds exactly the considered indices whose nearest centroid it is |
| Lloyd.PartitionIsExact | clustering.py:462-475 | after partition every index `0..size-1` lies in exactly one cluster, its nearest, and every index list is strictly ascending |
| Lloyd.AssignmentWellIndexed | clustering.py:462-475 | every index in the assignment is a valid dataset index |
| Lloyd.UpdatedAt | clustering.py:479-489 | cluster j's updated centroid is NewCentroid of its old centroid and its member points |
| Lloyd.AllStableAt | clustering.py:490-494 | all clusters are stable iff each one is |
| Lloyd.RunAsWritten | clustering.py:523-528 | the written run takes at most `2*maxstep` steps and keeps a consistent state |
| Lloyd.RunIntended | clustering.py:510-521 | the corrected run takes at most `maxstep` steps, and stopping early means it converged after at least one step |
| Lloyd.NoBudget | clustering.py:523-525 | `run(0)` changes nothing and takes no step |
| Lloyd.WrittenPass | clustering.py:526-528 | an unconverged pass of the written loop costs two steps and one unit of budget |
| Lloyd.IntendedPass | clustering.py:526-528 | a pass of the corrected loop costs one step and one unit of budget |
| Lloyd.TwoRoundsToConverge | clustering.py:497-506 | points `[0]`, `[10]` with one centroid at `[0]`: the first round moves it to `[5]` without converging, the second converges |
| Lloyd.RunAsWrittenOverrunsBudget | clustering.py:523-528 | on that input, `run(1)` as written takes 2 steps, more than its budget, while the corrected run takes 1 |
| Vectors.SqDistFacts | clustering.py:312-331 | the squared distance is non-negative, symmetric and zero between equal points |
| Vectors.MeanOfCopies | clustering.py:350-352 | the mean of copies of one point is that point |
| Vectors.MeanWithinBounds | clustering.py:350-352 | each coordinate of the mean lies between the least and greatest member coordinates |
| Vectors.AllCloseAt | clustering.py:353 | `allclose` holds iff the points have equal length and every coordinate pair is within `atol + rtol*abs(old)` |
| Vectors.AllCloseFacts | clustering.py:353 | every point is close to itself, and one coordinate out of tolerance makes two points not close |
| Galaxy.WrapAdd | studentPackage/Paths.java:94-98 | adding to a wrapped 32-bit sum wraps to the wrapped mathematical sum |
| Galaxy.ConnectAdjacent | studentPackage/Paths.java:98 | `getConnect` finds an edge exactly between adjacent nodes, with the length of one of the joining exits |
| Paths.PathToFacts | studentPackage/Paths.java:78-83 | a back-pointer chain is in chain order (each element's back-pointer is its predecessor, the first has none), stays among recorded nodes, and repeats no node |
| Paths.ChainOrderUnique | studentPackage/Paths.java:78-83 | a list in chain order ending at n is the chain to n |
| Paths.ConstructPath | studentPackage/Paths.java:75-85 | returns the back-pointer chain from the node without back-pointer to `end`, in order |
| Paths.HostileOnFacts | studentPackage/Paths.java:105-116 | the hostile count of a list is at most its length, adds up over concatenation, and is 0 without hostile planets |
| Paths.GetHostileCount | studentPackage/Paths.java:106-116 | returns the number of hostile planets on the chain ending at `start`, `start` included, so at most the chain's length |
| Paths.PathDistance | studentPackage/Paths.java:89-103 | the 32-bit wrapped sum of the lengths of the edges joining consecutive nodes, or none where two consecutive nodes are not joined |
| Paths.RouteHasLength | studentPackage/Paths.java:89-101 | a path of adjacent nodes has a length, non-negative when all edge lengths are |
| Paths.ShortPathsHaveZeroLength | studentPackage/Paths.java:90-101 | empty and single-node paths have distance 0 |
| Paths.SpeedFacts | studentPackage/Paths.java:41-48 | the speed never drops below 1.0, drops only on a hostile planet without upgrade and then by exactly 0.2, and rises on an upgrade |
| Paths.InitialInv | studentPackage/Paths.java:35-36 | the start node in the heap at time 0, recorded as `(0, null, 1.0)`, satisfies the search invariant |
| Paths.PollKeeps | studentPackage/Paths.java:38-39 | moving the least-time node from the heap to the settled set keeps the invariant, and no settled node is later than it |
| Paths.Poll | studentPackage/Paths.java:39 | returns a heap node of least priority |
| Paths.RelaxTarget | studentPackage/Paths.java:50-59 | an improving neighbour of a settled node is not settled, not the start, an adjacent node, and in the heap if recorded |
| Paths.RelaxChains | studentPackage/Paths.java:57-62 | recording w from f makes w's chain f's chain followed by w and leaves every other chain unchanged |
| Paths.RelaxFewHostile | studentPackage/Paths.java:49-62 | a hostile w is recorded only from a chain with fewer than two hostile planets, so every chain keeps at most two |
| Paths.RelaxOne | studentPackage/Paths.java:55-64 | recording w with the new time, back-pointer f and speed keeps the invariant |
| Paths.RelaxEdge | studentPackage/Paths.java:51-65 | a pruned hostile neighbour changes nothing; a new node or a strictly earlier time records time, back-pointer and speed together and sets the heap priority; otherwise nothing changes; the invariant is kept |
| Paths.RelaxAll | studentPackage/Paths.java:50-66 | relaxing all exits of f keeps the invariant and Refines (no record lost or made later, settled records untouched); every exit that is not pruned ends with its far end recorded no later than the time through that exit (Reached); every record that changed was written through a non-pruned exit with that time, back-pointer f and the current speed, and a record that already existed changed only for a strictly earlier time, so a tie leaves it as it was (RecordedFrom) |
| Paths.Settle | studentPackage/Paths.java:41-66 | one pass after polling f: the invariant and Refines hold, and Reached and RecordedFrom (new records, or existing ones rewritten only for a strictly earlier time) hold for all exits of f with the speed SpeedAt(g, f, arrival speed), at least 1.0, and the hostile count HostileOn of f's chain |
| Paths.RelaxStep | studentPackage/Paths.java:50-64 | relaxing exit i in one of the three ways of RelaxEdge extends Reached and RecordedFrom, including the strictly earlier time of a rewritten record, from the first i exits to the first i+1 |
| Paths.ChainIsRoute | studentPackage/Paths.java:40 | under the invariant, the chain to any recorded node is a route from `start` |
| Paths.ShortestPath | studentPackage/Paths.java:26-70 | returns the empty list or a route from `start` to `end` (adjacent steps, no repeated planet, at most two hostile planets); for `end == start`, the path `[start]`; and it is not empty whenever some walk from `start` to `end` steps only onto planets that are not hostile, because such a planet is never pruned and the loop runs until the heap is empty |
| Paths.ClosedStep | studentPackage/Paths.java:50-58 | after a node is settled, every exit of a settled node that leads to a planet that is not hostile ends at a recorded node, since such an exit is never pruned and a new node is recorded |
| Paths.SafeWalkSettles | studentPackage/Paths.java:38-69 | once the heap is empty, so that every recorded node is settled, every planet a safe walk from the start reaches is settled, its last one included |

## Left out

- Clustering.Cluster.Distance: returns the SQUARED distance. `math.sqrt` is monotone, so comparisons between distances, and hence the nearest cluster, are unchanged.
- Floating point: coordinates, times and speeds are reals. The rounding of `float` and `double` arithmetic is not modelled, including the inexact 0.2 and 1.2 speed steps.
- `random.sample` in the `ClusterGroup` initializer becomes a `sample` parameter: any k distinct in-range positions (IsSample).
- `numpy.allclose` uses numpy's default tolerances on reals. NaN and infinity handling is not modelled.
- Clustering.Dataset.constructor: requires the intended contents check (ValidContentsIntended) instead of the written one, so a dataset always holds points of its dimension (see Findings).
- Clustering.Dataset.constructor: also requires every row to hold only ints and floats (RowsArePoints). Only the docstring asks for this; the asserts at clustering.py:105-106 would let non-numeric rows through.
- Clustering.Dataset.constructor: copies the row values. The source copies only the outer list (clustering.py:109-113), so the caller's row lists stay shared with the dataset, and a later change to them changes the dataset and can break its dimension invariant. This aliasing is not modelled.
- Assertions: each `assert` of the classes becomes a precondition, and the failure path of the asserted expression is not modelled: the AssertionError, and also the IndexError or TypeError the expression itself can raise (an out-of-range index at clustering.py:279, the validators called at 106 and 403) (clustering.py:105-106, 159, 176-177, 239-241, 279-280, 320-321, 401-403, 448-449, 523).
- Python values: `Sized` stands for every value with a `len` other than a string or a list (tuple, dict, set, bytes, range), and `Other` for every value with no `len` that is not a list index. Values that index a list without being an int or a bool (numpy integers and other objects with `__index__`, and slices) are not modelled; the model treats them as `Other`, which raises a TypeError as an index. Errors are named by their Python class only.
- Clustering.Cluster.GetIndices: returns the index list as a value. The source returns the live list (clustering.py:260-266), which `clear` empties in place (290-291) and a caller could change; that sharing is not modelled.
- Clustering.ClusterGroup.GetClusters: returns the cluster sequence, which is fixed at construction. The source returns the live list (clustering.py:424-430), which a caller could change; that is not modelled.
- `__str__`, `__repr__` and `SFdata.toString` only format output.
- Clustering.ClusterGroup.Run and Clustering.ClusterGroup.RunUpTo: the number of steps taken is a ghost out-parameter, because the source does not return it.
- Clustering.Cluster.AddIndex: duplicate-freedom is kept when it already holds, but is not part of Cluster.Valid, because `getIndices` hands the list out for callers to change.
- The `Heap` class is a map from node to priority. `poll` returns any node of least priority; the heap's tie-break is not modelled.
- `models.Node` and `models.Edge` are the `Graph` value. `getOther` gives an exit's far end, and `getConnect` takes the first exit to the other node.
- Paths.ShortestPath: requires non-negative edge lengths and a well-formed graph (every exit leads to a node of the graph, lengths fit in `int`). It proves that the result is empty or a valid route, and that it is not empty when a walk avoiding hostile planets after `start` exists. It does not prove that the route is the fastest, nor that the empty list means no route with at most two hostile planets exists. Neither holds of the search as written, so neither can be proved:
  - Pruning is greedy. Take plain planets S and W and hostile planets H1, H2 and E, with edges S–H1 1, H1–H2 1, H2–W 1, S–W 100 and W–E 1. W is settled at time 3 through a chain holding two hostile planets, so E is pruned from W and the search from S to E returns the empty list. Yet the route S, W, E has only one hostile planet.
  - The speed depends on the path taken, but a node keeps only its fastest arrival. Take edges S–A 1, S–U 2, U–A 1 and A–T 100, with an upgrade on U. A is settled at time 1 with speed 1.0, so T is reached at time 101. The route S, U, A, T carries speed 1.2 from U and reaches T at about 86.2.
- Paths.ShortestPath: `SFdata` fields updated in place are modelled as replacing the map entry. Every record belongs to one node and is never shared, so no aliasing is lost.
- Paths.PathDistance: a `getConnect` returning `null` between consecutive nodes, which throws in Java, is the `None` result.
- The `synchronized` block of `pathDistance` is a concurrency wrapper and is not modelled.
- `breakout/a7/play.py` and `MySpaceship.java` drive a game framework and a simulator that are not part of this model.

## Findings

| source | as written | input that shows it | evidently intended | confidence | as-written member | corrected member |
|---|---|---|---|---|---|---|
| clustering.py:36-41 | `valid_contents` returns True as soon as ANY row is a list of length `dim` | `dim = 1`, `contents = [[1.0], [1.0, 2.0]]` passes | every row must be a list of length `dim`, as the docstring and the Dataset invariant say | not executed | Clustering.RaggedContentsPassWrittenCheck | Clustering.IntendedContentsPassWrittenCheck |
| clustering.py:526-527 | `run` calls `step()` in the loop condition and again in the body, so one pass takes two steps | points `[0]`, `[10]`, one centroid at `[0]`, `run(1)`: the condition's step moves the centroid to `[5]`, the body's step converges, 2 steps for a budget of 1 | at most `maxstep` steps: step once per pass and stop on convergence | not executed | Lloyd.RunAsWrittenOverrunsBudget | Lloyd.RunIntended |
