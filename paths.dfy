/** The path utilities of Paths.java: back-pointer chains over the
    per-node records (`SFdata`), `constructPath`, `getHostileCount`,
    `pathDistance`, and the modified Dijkstra search `shortestPath` with
    its speed and hostile-planet rules. Java doubles are reals and the
    node-to-record `HashMap` is a map value. */
module Paths {
  import opened Galaxy

  /** What the search knows about a node: the travel time from the start,
      the back-pointer (`None` for Java's `null`), and the ship's speed on
      arrival. */
  datatype SFdata = SFdata(time: real, backPointer: Option<Node>, speed: real)

  /** The search's `HashMap<Node, SFdata>`. */
  type Table = map<Node, SFdata>

  // ---------------------------------------------------------------------
  // Back-pointer chains

  /** `rank` witnesses that the back-pointers are acyclic: every node has
      a rank, and each back-pointer leads to a recorded node of smaller
      rank. */
  predicate Ranked(t: Table, rank: map<Node, nat>) {
    forall n :: n in t ==>
      && n in rank
      && (t[n].backPointer.Some? ==>
            var b := t[n].backPointer.value;
            b in t && b in rank && rank[b] < rank[n])
  }

  /** The chain of back-pointers ending at `n`, first node first. */
  function PathTo(t: Table, rank: map<Node, nat>, n: Node): (p: seq<Node>)
    requires Ranked(t, rank) && n in t
    ensures |p| > 0 && p[|p| - 1] == n
    decreases rank[n]
  {
    match t[n].backPointer
    case None => [n]
    case Some(b) => PathTo(t, rank, b) + [n]
  }

  /** `p` lists a back-pointer chain in order: its first node has no
      back-pointer, and each later node's back-pointer is the node before
      it. */
  predicate ChainOrder(t: Table, p: seq<Node>) {
    && |p| > 0
    && (forall i :: 0 <= i < |p| ==> p[i] in t)
    && t[p[0]].backPointer == None
    && (forall i :: 0 < i < |p| ==> t[p[i]].backPointer == Some(p[i - 1]))
  }

  /** The chain to `n` is in chain order, its nodes have ranks no larger
      than `n`'s, and no node occurs twice. */
  lemma {:induction false} PathToFacts(t: Table, rank: map<Node, nat>, n: Node)
    requires Ranked(t, rank) && n in t
    ensures ChainOrder(t, PathTo(t, rank, n))
    ensures forall m :: m in PathTo(t, rank, n) ==> m in t && rank[m] <= rank[n]
    ensures forall i, j :: 0 <= i < j < |PathTo(t, rank, n)| ==> PathTo(t, rank, n)[i] != PathTo(t, rank, n)[j]
    decreases rank[n]
  {
    if t[n].backPointer.Some? {
      var b := t[n].backPointer.value;
      PathToFacts(t, rank, b);
      var q := PathTo(t, rank, b);
      assert PathTo(t, rank, n) == q + [n];
      assert n !in q;
    }
  }

  /** A chain in chain order that ends at `n` is the chain to `n`: the
      back-pointers determine it. */
  lemma {:induction false} ChainOrderUnique(t: Table, rank: map<Node, nat>, p: seq<Node>)
    requires Ranked(t, rank) && ChainOrder(t, p)
    ensures p == PathTo(t, rank, p[|p| - 1])
    decreases |p|
  {
    var n := p[|p| - 1];
    if |p| > 1 {
      var q := p[..|p| - 1];
      ChainOrderUnique(t, rank, q);
      assert t[n].backPointer == Some(q[|q| - 1]);
      assert p == q + [n];
    }
  }

  /** The chain to `n` does not depend on the records of nodes off it. */
  lemma {:induction false} PathToFrame(t: Table, rank: map<Node, nat>, t': Table, rank': map<Node, nat>, n: Node)
    requires Ranked(t, rank) && Ranked(t', rank') && n in t
    requires forall m :: m in t && m in PathTo(t, rank, n) ==> m in t' && t'[m].backPointer == t[m].backPointer
    ensures n in t' && PathTo(t', rank', n) == PathTo(t, rank, n)
    decreases rank[n]
  {
    assert n in PathTo(t, rank, n);
    PathToFacts(t, rank, n);
    if t[n].backPointer.Some? {
      var b := t[n].backPointer.value;
      assert PathTo(t, rank, n) == PathTo(t, rank, b) + [n];
      PathToFrame(t, rank, t', rank', b);
    }
  }

  /** `constructPath`: walks the back-pointers from `end`, putting each
      node in front of the list. */
  method ConstructPath(end: Node, nData: Table, ghost rank: map<Node, nat>) returns (path: seq<Node>)
    requires Ranked(nData, rank) && end in nData
    ensures path == PathTo(nData, rank, end)
  {
    path := [];
    var p: Option<Node> := Some(end);
    while p.Some?
      invariant p.Some? ==> p.value in nData && PathTo(nData, rank, p.value) + path == PathTo(nData, rank, end)
      invariant p.None? ==> path == PathTo(nData, rank, end)
      decreases if p.Some? then rank[p.value] + 1 else 0
    {
      path := [p.value] + path;
      p := nData[p.value].backPointer;
    }
  }

  /** The number of hostile planets on `p`. */
  function HostileOn(g: Graph, p: seq<Node>): nat {
    if p == [] then 0 else HostileOn(g, p[..|p| - 1]) + (if p[|p| - 1] in g.hostile then 1 else 0)
  }

  /** Counting hostile planets: none on the empty path, never more than
      the path's length, and counts add up over a concatenation. */
  lemma {:induction false} HostileOnFacts(g: Graph, p: seq<Node>, q: seq<Node>)
    ensures HostileOn(g, p) <= |p|
    ensures HostileOn(g, p + q) == HostileOn(g, p) + HostileOn(g, q)
    ensures (forall i :: 0 <= i < |p| ==> p[i] !in g.hostile) ==> HostileOn(g, p) == 0
    decreases |p| + |q|
  {
    if q != [] {
      HostileOnFacts(g, p, q[..|q| - 1]);
      assert (p + q)[..|p + q| - 1] == p + q[..|q| - 1];
    } else {
      assert p + q == p;
      if p != [] {
        HostileOnFacts(g, p[..|p| - 1], []);
      }
    }
  }

  /** `getHostileCount`: the hostile planets on the back-pointer chain
      that ends at `start`, `start` included. */
  method GetHostileCount(g: Graph, map_: Table, start: Node, ghost rank: map<Node, nat>) returns (n: int)
    requires Ranked(map_, rank) && start in map_
    ensures n == HostileOn(g, PathTo(map_, rank, start))
    ensures 0 <= n <= |PathTo(map_, rank, start)|
  {
    var p: Option<Node> := Some(start);
    n := 0;
    ghost var rest: seq<Node> := [];
    while p.Some?
      invariant p.Some? ==> p.value in map_ && PathTo(map_, rank, p.value) + rest == PathTo(map_, rank, start)
      invariant p.None? ==> rest == PathTo(map_, rank, start)
      invariant n == HostileOn(g, rest)
      decreases if p.Some? then rank[p.value] + 1 else 0
    {
      HostileOnFacts(g, [p.value], rest);
      HostileOnFacts(g, [], [p.value]);
      assert [] + [p.value] == [p.value];
      if p.value in g.hostile {
        n := n + 1;
      }
      rest := [p.value] + rest;
      p := map_[p.value].backPointer;
    }
    HostileOnFacts(g, rest, []);
  }

  // ---------------------------------------------------------------------
  // pathDistance

  /** The mathematical sum of the edge lengths between consecutive nodes
      of `path` (through `getConnect`), or `None` when two consecutive
      nodes are not joined by an edge. */
  function PathLength(g: Graph, path: seq<Node>): Option<int>
    decreases |path|
  {
    if |path| <= 1 then Some(0)
    else
      var front := PathLength(g, path[..|path| - 1]);
      var last := Connect(g, path[|path| - 2], path[|path| - 1]);
      if front.Some? && last.Some? then Some(front.value + last.value) else None
  }

  /** `pathDistance`: `Some` of the 32-bit sum of the edge lengths along
      the path, or `None` where `getConnect` returns `null` and reading its
      `length` throws a NullPointerException. */
  method PathDistance(g: Graph, path: seq<Node>) returns (r: Option<int>)
    ensures PathLength(g, path).Some? ==> r == Some(Wrap32(PathLength(g, path).value))
    ensures PathLength(g, path).None? ==> r == None
  {
    if |path| == 0 {
      return Some(0);
    }
    var p := path[0];
    var s := 0;
    var i := 1;
    while i < |path|
      invariant 1 <= i <= |path| && p == path[i - 1]
      invariant PathLength(g, path[..i]).Some? && s == Wrap32(PathLength(g, path[..i]).value)
    {
      var q := path[i];
      var c := Connect(g, p, q);
      assert path[..i + 1][..i] == path[..i];
      if c.None? {
        NoLengthPropagates(g, path, i + 1);
        return None;
      }
      WrapAdd(PathLength(g, path[..i]).value, c.value);
      s := Wrap32(s + c.value);
      p := q;
      i := i + 1;
    }
    assert path[..i] == path;
    return Some(s);
  }

  /** Once a prefix has no length, neither has any longer prefix. */
  lemma {:induction false} NoLengthPropagates(g: Graph, path: seq<Node>, i: nat)
    requires 2 <= i <= |path| && PathLength(g, path[..i]).None?
    ensures PathLength(g, path).None?
    decreases |path| - i
  {
    if i < |path| {
      assert path[..i + 1][..i] == path[..i];
      NoLengthPropagates(g, path, i + 1);
    } else {
      assert path[..i] == path;
    }
  }

  /** Consecutive nodes of a route are adjacent, so `pathDistance` never
      meets a `null` edge on it; with non-negative lengths whose sum fits
      an `int`, it returns that sum exactly. */
  lemma {:induction false} RouteHasLength(g: Graph, path: seq<Node>)
    requires forall i :: 0 < i < |path| ==> Adjacent(g, path[i - 1], path[i])
    ensures PathLength(g, path).Some?
    ensures NonNegative(g) ==> PathLength(g, path).value >= 0
    decreases |path|
  {
    if |path| > 1 {
      var front := path[..|path| - 1];
      RouteHasLength(g, front);
      ConnectAdjacent(g, path[|path| - 2], path[|path| - 1]);
    }
  }

  /** `pathDistance` of the empty path and of a one-node path is 0. */
  lemma ShortPathsHaveZeroLength(g: Graph, path: seq<Node>)
    requires |path| <= 1
    ensures PathLength(g, path) == Some(0)
  {
  }

  // ---------------------------------------------------------------------
  // shortestPath

  /** The speed the ship leaves node `f` with, having arrived at `speed`:
      a hostile planet costs 0.2 unless that would take the speed below
      1.0; an upgrade adds 0.2, or 1.2 on a hostile planet. */
  function SpeedAt(g: Graph, f: Node, speed: real): real {
    var s := if f in g.hostile && speed >= 1.2 then speed - 0.2 else speed;
    if f in g.upgrade then s + (if f in g.hostile then 1.2 else 0.2) else s
  }

  /** The speed never drops below 1.0, drops only on a hostile planet and
      then by exactly 0.2, and never drops on a planet with an upgrade. */
  lemma SpeedFacts(g: Graph, f: Node, speed: real)
    requires speed >= 1.0
    ensures SpeedAt(g, f, speed) >= 1.0
    ensures SpeedAt(g, f, speed) < speed ==> f in g.hostile && f !in g.upgrade && SpeedAt(g, f, speed) == speed - 0.2
    ensures f in g.upgrade ==> SpeedAt(g, f, speed) > speed
  {
  }

  /** The loop invariant of the search, in four parts (below): the heap
      and the settled set, the back-pointers, the records, and the
      hostile planets on every recorded chain. */
  ghost predicate Inv(g: Graph, start: Node, data: Table, F: map<Node, real>, S: set<Node>, rank: map<Node, nat>) {
    && Valid(g) && NonNegative(g)
    && Frontier(g, data, F, S)
    && Pointers(g, start, data, S, rank)
    && Records(start, data)
    && FewHostile(g, data, rank)
  }

  /** The map has an entry for exactly the nodes of the settled set `S`
      and the frontier `F` (the heap, here node to priority), all of them
      nodes of the graph; a frontier node's priority is its recorded time,
      and no settled node's time exceeds it. */
  ghost predicate Frontier(g: Graph, data: Table, F: map<Node, real>, S: set<Node>) {
    && (forall n :: n in data <==> n in F || n in S)
    && (forall n :: n in F ==> n !in S)
    && (forall n :: n in data ==> n in g.exits)
    && (forall n :: n in F ==> F[n] == data[n].time)
    && (forall s, n :: s in S && n in F ==> data[s].time <= F[n])
  }

  /** The back-pointers are acyclic and lead to settled neighbours, and
      only the start node has none. */
  ghost predicate Pointers(g: Graph, start: Node, data: Table, S: set<Node>, rank: map<Node, nat>) {
    && Ranked(data, rank)
    && (forall n :: n in data && data[n].backPointer.Some? ==>
          data[n].backPointer.value in S && Adjacent(g, data[n].backPointer.value, n))
    && (forall n :: n in data && data[n].backPointer.None? ==> n == start)
  }

  /** The start node is recorded with time 0, no back-pointer and speed
      1.0; every time is non-negative and every speed at least 1.0. */
  ghost predicate Records(start: Node, data: Table) {
    && start in data && data[start] == SFdata(0.0, None, 1.0)
    && (forall n :: n in data ==> data[n].time >= 0.0 && data[n].speed >= 1.0)
  }

  /** No recorded chain holds more than two hostile planets. */
  ghost predicate FewHostile(g: Graph, data: Table, rank: map<Node, nat>)
    requires Ranked(data, rank)
  {
    forall n :: n in data ==> HostileOn(g, PathTo(data, rank, n)) <= 2
  }

  /** What the relaxation loop keeps about the node `f` it works from: `f`
      is settled with time `fTime`, no settled node has a later time, the
      speed is at least 1.0, and `hostileCount` counts the hostile planets
      on `f`'s chain. */
  ghost predicate Relaxing(g: Graph, data: Table, S: set<Node>, rank: map<Node, nat>,
                           f: Node, fTime: real, fSpeed: real, hostileCount: int)
    requires Ranked(data, rank)
  {
    && f in S && f in data && fTime == data[f].time && fSpeed >= 1.0
    && (forall s :: s in S && s in data ==> data[s].time <= fTime)
    && hostileCount == HostileOn(g, PathTo(data, rank, f))
  }

  /** The search starts with only `start`, in the heap at time 0. */
  lemma InitialInv(g: Graph, start: Node)
    requires Valid(g) && NonNegative(g) && start in g.exits
    ensures Inv(g, start, map[start := SFdata(0.0, None, 1.0)], map[start := 0.0], {}, map[start := 0])
  {
    var data, rank := map[start := SFdata(0.0, None, 1.0)], map[start := 0];
    assert Frontier(g, data, map[start := 0.0], {});
    assert Ranked(data, rank);
    assert Pointers(g, start, data, {}, rank);
    assert Records(start, data);
    assert PathTo(data, rank, start) == [start];
    HostileOnFacts(g, [], [start]);
    assert [] + [start] == [start];
    assert FewHostile(g, data, rank);
  }

  /** Polling the frontier node `f` of least time settles it: the
      invariant holds with `f` moved from the heap to the settled set, and
      no settled node has a later time than `f`. */
  lemma PollKeeps(g: Graph, start: Node, data: Table, F: map<Node, real>, S: set<Node>, rank: map<Node, nat>, f: Node)
    requires Inv(g, start, data, F, S, rank)
    requires f in F && forall n :: n in F ==> F[f] <= F[n]
    ensures Inv(g, start, data, F - {f}, S + {f}, rank)
    ensures forall s :: s in S + {f} && s in data ==> data[s].time <= data[f].time
  {
    assert Frontier(g, data, F - {f}, S + {f});
  }

  /** Every node on the chain of a node is that node or settled, when all
      back-pointers lead to settled nodes. */
  lemma {:induction false} SettledChain(data: Table, rank: map<Node, nat>, S: set<Node>, n: Node)
    requires Ranked(data, rank) && n in data
    requires forall m :: m in data && data[m].backPointer.Some? ==> data[m].backPointer.value in S
    ensures forall m :: m in PathTo(data, rank, n) ==> m == n || m in S
    decreases rank[n]
  {
    if data[n].backPointer.Some? {
      var b := data[n].backPointer.value;
      SettledChain(data, rank, S, b);
      assert PathTo(data, rank, n) == PathTo(data, rank, b) + [n];
    }
  }

  /** The facts a relaxation of `w` from `f` rests on: `w` is not settled
      (a settled node's time is never beaten, as edge lengths are
      non-negative), so a recorded `w` is in the heap; `w` is neither the
      start nor `f`; and it is a neighbour of `f`. */
  lemma RelaxTarget(g: Graph, start: Node, data: Table, F: map<Node, real>, S: set<Node>,
                    f: Node, fTime: real, fSpeed: real, e: Exit, newWTime: real)
    requires NonNegative(g) && Frontier(g, data, F, S) && Records(start, data)
    requires f in S && f in data && fTime == data[f].time && fSpeed >= 1.0
    requires forall s :: s in S && s in data ==> data[s].time <= fTime
    requires f in g.exits && e in g.exits[f] && newWTime == NewTime(fTime, e, fSpeed)
    requires e.to !in data || newWTime < data[e.to].time
    ensures newWTime >= fTime && e.to !in S && e.to != start && e.to != f && Adjacent(g, f, e.to)
    ensures e.to in data ==> e.to in F
  {
    var i :| 0 <= i < |g.exits[f]| && g.exits[f][i] == e;
    DivNonNegative(e.length as real, fSpeed);
  }

  lemma DivNonNegative(a: real, b: real)
    requires a >= 0.0 && b > 0.0
    ensures a / b >= 0.0
  {
    assert a / b * b == a;
  }

  /** Recording `w` from `f` keeps the heap part of the invariant. */
  lemma RelaxFrontier(g: Graph, data: Table, F: map<Node, real>, S: set<Node>, f: Node, fTime: real,
                      w: Node, rec: SFdata, newWTime: real)
    requires Frontier(g, data, F, S) && w !in S && w in g.exits && rec.time == newWTime
    requires f in S && (forall s :: s in S && s in data ==> data[s].time <= fTime) && newWTime >= fTime
    ensures Frontier(g, data[w := rec], F[w := newWTime], S)
  {
  }

  /** Recording `w` from `f` keeps the back-pointer part of the invariant. */
  lemma RelaxPointers(g: Graph, start: Node, data: Table, S: set<Node>, rank: map<Node, nat>, f: Node, w: Node, rec: SFdata)
    requires Pointers(g, start, data, S, rank) && f in S && f in data && w !in S
    requires rec.backPointer == Some(f) && Adjacent(g, f, w)
    ensures Pointers(g, start, data[w := rec], S, rank[w := rank[f] + 1])
  {
  }

  /** Recording `w` from `f` leaves the chain of every other recorded
      node as it was, and makes `w`'s chain `f`'s chain followed by `w`. */
  lemma RelaxChains(g: Graph, start: Node, data: Table, S: set<Node>, rank: map<Node, nat>, f: Node, w: Node, rec: SFdata)
    requires Pointers(g, start, data, S, rank) && f in S && f in data && w !in S
    requires rec.backPointer == Some(f) && Adjacent(g, f, w)
    ensures Ranked(data[w := rec], rank[w := rank[f] + 1])
    ensures forall n :: n in data && n != w ==> PathTo(data[w := rec], rank[w := rank[f] + 1], n) == PathTo(data, rank, n)
    ensures PathTo(data[w := rec], rank[w := rank[f] + 1], w) == PathTo(data, rank, f) + [w]
  {
    var data', rank' := data[w := rec], rank[w := rank[f] + 1];
    RelaxPointers(g, start, data, S, rank, f, w, rec);
    forall n | n in data && n != w
      ensures PathTo(data', rank', n) == PathTo(data, rank, n)
    {
      SettledChain(data, rank, S, n);
      PathToFrame(data, rank, data', rank', n);
    }
    assert f != w;
  }

  /** Recording `w` from `f` keeps every chain within two hostile
      planets: a hostile `w` is only recorded from a chain with fewer than
      two. */
  lemma RelaxFewHostile(g: Graph, start: Node, data: Table, S: set<Node>, rank: map<Node, nat>,
                        f: Node, w: Node, rec: SFdata, hostileCount: int)
    requires Pointers(g, start, data, S, rank) && FewHostile(g, data, rank) && f in S && f in data && w !in S
    requires rec.backPointer == Some(f) && Adjacent(g, f, w)
    requires hostileCount == HostileOn(g, PathTo(data, rank, f)) && (w in g.hostile ==> hostileCount < 2)
    ensures Ranked(data[w := rec], rank[w := rank[f] + 1])
    ensures FewHostile(g, data[w := rec], rank[w := rank[f] + 1])
    ensures HostileOn(g, PathTo(data[w := rec], rank[w := rank[f] + 1], f)) == hostileCount
  {
    RelaxChains(g, start, data, S, rank, f, w, rec);
    HostileOnFacts(g, PathTo(data, rank, f), [w]);
    HostileOnFacts(g, [], [w]);
    assert [] + [w] == [w];
  }

  /** Recording `w` from `f` keeps the invariant and what the relaxation
      loop keeps about `f`. */
  lemma RelaxOne(g: Graph, start: Node, data: Table, F: map<Node, real>, S: set<Node>,
                 rank: map<Node, nat>, f: Node, fTime: real, fSpeed: real, hostileCount: int, e: Exit,
                 newWTime: real, data': Table, F': map<Node, real>, rank': map<Node, nat>)
    requires Inv(g, start, data, F, S, rank) && Relaxing(g, data, S, rank, f, fTime, fSpeed, hostileCount)
    requires f in g.exits && e in g.exits[f] && newWTime == NewTime(fTime, e, fSpeed)
    requires e.to in g.hostile ==> hostileCount < 2
    requires e.to !in data || newWTime < data[e.to].time
    requires data' == data[e.to := SFdata(newWTime, Some(f), fSpeed)]
    requires F' == F[e.to := newWTime] && rank' == rank[e.to := rank[f] + 1]
    ensures e.to !in S && (e.to in data ==> e.to in F)
    ensures Inv(g, start, data', F', S, rank') && Relaxing(g, data', S, rank', f, fTime, fSpeed, hostileCount)
  {
    var w, rec := e.to, SFdata(newWTime, Some(f), fSpeed);
    RelaxTarget(g, start, data, F, S, f, fTime, fSpeed, e, newWTime);
    RelaxFrontier(g, data, F, S, f, fTime, w, rec, newWTime);
    RelaxPointers(g, start, data, S, rank, f, w, rec);
    RelaxFewHostile(g, start, data, S, rank, f, w, rec, hostileCount);
    assert Records(start, data');
  }

  /** A hostile neighbour is pruned once the chain already holds two
      hostile planets. */
  predicate Pruned(g: Graph, w: Node, hostileCount: int) {
    w in g.hostile && hostileCount >= 2
  }

  /** The arrival time at the far end of `e`, leaving at `fTime` with
      speed `fSpeed`. */
  function NewTime(fTime: real, e: Exit, fSpeed: real): real
    requires fSpeed > 0.0
  {
    fTime + (e.length as real) / fSpeed
  }

  /** `newWTime` beats what is recorded for `w`, or nothing is. */
  predicate Improves(data: Table, w: Node, newWTime: real) {
    w !in data || newWTime < data[w].time
  }

  /** One pass of the inner loop of `shortestPath`, for the exit `e` of
      `f`: the neighbour `w` is skipped when it is hostile and `f`'s chain
      already holds two hostile planets; otherwise a node seen for the
      first time is recorded and added to the heap with the new time, and
      a recorded node whose time the new one beats gets the new time,
      speed and back-pointer together, and its heap priority is lowered.
      The heap's `updatePriority` is only ever called on a node in the
      heap. */
  method RelaxEdge(g: Graph, ghost start: Node, data: Table, F: map<Node, real>, ghost S: set<Node>,
                   ghost rank: map<Node, nat>, f: Node, fTime: real, fSpeed: real, hostileCount: int, e: Exit)
    returns (data': Table, F': map<Node, real>, ghost rank': map<Node, nat>)
    requires Inv(g, start, data, F, S, rank) && Relaxing(g, data, S, rank, f, fTime, fSpeed, hostileCount)
    requires f in g.exits && e in g.exits[f]
    ensures Inv(g, start, data', F', S, rank') && Relaxing(g, data', S, rank', f, fTime, fSpeed, hostileCount)
    ensures Pruned(g, e.to, hostileCount) ==> data' == data && F' == F
    ensures !Pruned(g, e.to, hostileCount) && Improves(data, e.to, NewTime(fTime, e, fSpeed)) ==>
      && e.to !in S && (e.to in data ==> e.to in F)
      && data' == data[e.to := SFdata(NewTime(fTime, e, fSpeed), Some(f), fSpeed)]
      && F' == F[e.to := NewTime(fTime, e, fSpeed)]
    ensures !Pruned(g, e.to, hostileCount) && !Improves(data, e.to, NewTime(fTime, e, fSpeed)) ==> data' == data && F' == F
  {
    var w := e.to;
    var isAlive := if w in g.hostile then hostileCount < 2 else true;
    var newWTime := NewTime(fTime, e, fSpeed);
    if !isAlive {
      return data, F, rank;
    }
    var wData := if w in data then Some(data[w]) else None;
    if wData.Some? && newWTime >= wData.value.time {
      return data, F, rank;
    }
    // A node seen for the first time is put in the map and the heap; a
    // node already there gets its time, speed and back-pointer replaced
    // and its priority lowered.
    data' := data[w := SFdata(newWTime, Some(f), fSpeed)];
    F' := F[w := newWTime];
    rank' := rank[w := rank[f] + 1];
    RelaxOne(g, start, data, F, S, rank, f, fTime, fSpeed, hostileCount, e, newWTime, data', F', rank');
  }

  /** The frontier's node of least priority, as the heap's `poll` removes
      it; which one of several equal priorities it is, is left open. */
  method Poll(F: map<Node, real>) returns (f: Node)
    requires |F| != 0
    ensures f in F && forall n :: n in F ==> F[f] <= F[n]
  {
    assert F.Keys != {} by {
      var k :| k in F;
    }
    MinExists(F, F.Keys);
    f :| f in F && forall n :: n in F ==> F[f] <= F[n];
  }

  /** Among the nodes of `keys`, one has least priority. */
  lemma {:induction false} MinExists(F: map<Node, real>, keys: set<Node>)
    requires keys != {} && keys <= F.Keys
    ensures exists f :: f in keys && forall n :: n in keys ==> F[f] <= F[n]
    decreases keys
  {
    var k :| k in keys;
    var rest := keys - {k};
    if keys == {k} {
      assert forall n :: n in keys ==> n == k;
    } else {
      assert keys == rest + {k};
      MinExists(F, rest);
      var m :| m in rest && forall n :: n in rest ==> F[m] <= F[n];
      if F[k] <= F[m] {
        assert forall n :: n in keys ==> F[k] <= F[n];
      } else {
        assert forall n :: n in keys ==> F[m] <= F[n];
      }
    }
  }

  /** A route of the galaxy from `start` to `end`: consecutive planets are
      joined by an edge, no planet occurs twice, and at most two of them
      are hostile. */
  predicate IsRoute(g: Graph, start: Node, end: Node, path: seq<Node>) {
    && |path| > 0 && path[0] == start && path[|path| - 1] == end
    && (forall i :: 0 < i < |path| ==> Adjacent(g, path[i - 1], path[i]))
    && (forall i, j :: 0 <= i < j < |path| ==> path[i] != path[j])
    && HostileOn(g, path) <= 2
  }

  /** Under the invariant, the chain to any recorded node is a route from
      the start node to it. */
  lemma ChainIsRoute(g: Graph, start: Node, data: Table, S: set<Node>, rank: map<Node, nat>, n: Node)
    requires Pointers(g, start, data, S, rank) && FewHostile(g, data, rank) && n in data
    ensures IsRoute(g, start, n, PathTo(data, rank, n))
  {
    var p := PathTo(data, rank, n);
    PathToFacts(data, rank, n);
    forall i | 0 < i < |p|
      ensures Adjacent(g, p[i - 1], p[i])
    {
      assert data[p[i]].backPointer == Some(p[i - 1]);
    }
  }

  /** `shortestPath`: the modified Dijkstra search. The heap starts with
      `start` at time 0, recorded with no back-pointer and speed 1.0. Each
      pass polls the node `f` of least time; reaching `end` ends the
      search with the chain to `end`; otherwise the speed is adjusted at
      `f` and every exit of `f` is relaxed. An emptied heap gives the
      empty path. Edge lengths must be non-negative. */
  method ShortestPath(g: Graph, start: Node, end: Node) returns (path: seq<Node>)
    requires Valid(g) && NonNegative(g) && start in g.exits
    ensures path == [] || IsRoute(g, start, end, path)
    ensures end == start ==> path == [start]
    ensures (exists p :: SafeWalk(g, start, end, p)) ==> path != []
  {
    var F: map<Node, real> := map[start := 0.0];
    var data: Table := map[start := SFdata(0.0, None, 1.0)];
    ghost var S: set<Node> := {};
    ghost var rank: map<Node, nat> := map[start := 0];
    InitialInv(g, start);
    while |F| != 0
      invariant Inv(g, start, data, F, S, rank)
      invariant end == start ==> S == {} && F.Keys == {start}
      invariant Closed(g, data, S) && end !in S
      decreases g.exits.Keys - S
    {
      var f := Poll(F);
      PollKeeps(g, start, data, F, S, rank, f);
      F := F - {f};
      if f == end {
        path := ConstructPath(end, data, rank);
        ChainIsRoute(g, start, data, S + {f}, rank, end);
        if end == start {
          assert data[start].backPointer == None;
        }
        return;
      }
      ghost var before, beforeRank := data, rank;
      S := S + {f};
      data, F, rank := Settle(g, start, data, F, S, rank, f);
      ClosedStep(g, before, data, S - {f}, f, before[f].time, SpeedAt(g, f, before[f].speed),
                 HostileOn(g, PathTo(before, beforeRank, f)));
    }
    forall w | SafeWalk(g, start, end, w) ensures false {
      SafeWalkSettles(g, data, S, start, end, w);
    }
    return [];
  }

  /** A walk from `start` to `end` whose every step follows an exit and
      reaches a planet that is not hostile. */
  ghost predicate SafeWalk(g: Graph, start: Node, end: Node, p: seq<Node>) {
    && |p| > 0 && p[0] == start && p[|p| - 1] == end
    && forall i :: 0 < i < |p| ==> Adjacent(g, p[i - 1], p[i]) && p[i] !in g.hostile
  }

  /** Every exit of a settled node that leads to a planet that is not
      hostile ends at a recorded node: such an exit is never pruned. */
  ghost predicate Closed(g: Graph, data: Table, S: set<Node>) {
    forall s, i :: s in S && s in g.exits && 0 <= i < |g.exits[s]| && g.exits[s][i].to !in g.hostile ==>
      g.exits[s][i].to in data
  }

  /** Settling `f` keeps Closed, with `f` now among the settled nodes. */
  lemma ClosedStep(g: Graph, data: Table, data': Table, S: set<Node>, f: Node,
                   fTime: real, fSpeed: real, hostileCount: int)
    requires fSpeed > 0.0 && f in g.exits && Closed(g, data, S)
    requires forall n :: n in data ==> n in data'
    requires Reached(g, data', g.exits[f], |g.exits[f]|, fTime, fSpeed, hostileCount)
    ensures Closed(g, data', S + {f})
  {
    forall s, i | s in S + {f} && s in g.exits && 0 <= i < |g.exits[s]| && g.exits[s][i].to !in g.hostile
      ensures g.exits[s][i].to in data'
    {
      if s == f {
        assert !Pruned(g, g.exits[f][i].to, hostileCount);
      } else {
        assert g.exits[s][i].to in data;
      }
    }
  }

  /** Once every recorded node is settled, a safe walk from the start
      node reaches only settled nodes, its last node included. */
  lemma SafeWalkSettles(g: Graph, data: Table, S: set<Node>, start: Node, end: Node, p: seq<Node>)
    requires Closed(g, data, S) && start in data && (forall n :: n in data ==> n in S)
    requires SafeWalk(g, start, end, p)
    ensures end in S
  {
    var k := 0;
    while k < |p| - 1
      invariant 0 <= k < |p| && p[k] in S
    {
      assert Adjacent(g, p[k], p[k + 1]) && p[k + 1] !in g.hostile;
      var i :| 0 <= i < |g.exits[p[k]]| && g.exits[p[k]][i].to == p[k + 1];
      k := k + 1;
    }
  }

  /** The body of the search loop after `f` is polled: the speed is
      adjusted at `f` (SpeedAt), the hostile planets on `f`'s chain are
      counted, and every exit of `f` is relaxed in `getExits` order. */
  method Settle(g: Graph, ghost start: Node, data: Table, F: map<Node, real>, ghost S: set<Node>,
                ghost rank: map<Node, nat>, f: Node)
    returns (data': Table, F': map<Node, real>, ghost rank': map<Node, nat>)
    requires Inv(g, start, data, F, S, rank) && f in S && f in data
    requires forall s :: s in S && s in data ==> data[s].time <= data[f].time
    ensures Inv(g, start, data', F', S, rank')
    ensures Refines(data, data', S, f)
    ensures SpeedAt(g, f, data[f].speed) >= 1.0
    ensures Reached(g, data', g.exits[f], |g.exits[f]|, data[f].time, SpeedAt(g, f, data[f].speed),
                    HostileOn(g, PathTo(data, rank, f)))
    ensures RecordedFrom(g, data, data', g.exits[f], |g.exits[f]|, f, data[f].time, SpeedAt(g, f, data[f].speed),
                         HostileOn(g, PathTo(data, rank, f)))
  {
    var fTime := data[f].time;
    var fSpeed := data[f].speed;
    if f in g.hostile {
      if fSpeed >= 1.2 {
        fSpeed := fSpeed - 0.2;
      }
    }
    if f in g.upgrade {
      fSpeed := fSpeed + if f in g.hostile then 1.2 else 0.2;
    }
    SpeedFacts(g, f, data[f].speed);
    assert fSpeed == SpeedAt(g, f, data[f].speed);
    var hostileCount := GetHostileCount(g, data, f, rank);
    data', F', rank' := RelaxAll(g, start, data, F, S, rank, f, fTime, fSpeed, hostileCount);
  }

  /** The inner loop of `shortestPath`: every exit of `f` is relaxed in
      `getExits` order. */
  method RelaxAll(g: Graph, ghost start: Node, data: Table, F: map<Node, real>, ghost S: set<Node>,
                  ghost rank: map<Node, nat>, f: Node, fTime: real, fSpeed: real, hostileCount: int)
    returns (data': Table, F': map<Node, real>, ghost rank': map<Node, nat>)
    requires Inv(g, start, data, F, S, rank) && Relaxing(g, data, S, rank, f, fTime, fSpeed, hostileCount)
    ensures Inv(g, start, data', F', S, rank') && Refines(data, data', S, f)
    ensures Reached(g, data', g.exits[f], |g.exits[f]|, fTime, fSpeed, hostileCount)
    ensures RecordedFrom(g, data, data', g.exits[f], |g.exits[f]|, f, fTime, fSpeed, hostileCount)
  {
    var exits := g.exits[f];
    data', F', rank' := data, F, rank;
    for i := 0 to |exits|
      invariant Inv(g, start, data', F', S, rank') && Relaxing(g, data', S, rank', f, fTime, fSpeed, hostileCount)
      invariant Refines(data, data', S, f)
      invariant Reached(g, data', exits, i, fTime, fSpeed, hostileCount)
      invariant RecordedFrom(g, data, data', exits, i, f, fTime, fSpeed, hostileCount)
    {
      ghost var mid := data';
      data', F', rank' := RelaxEdge(g, start, data', F', S, rank', f, fTime, fSpeed, hostileCount, exits[i]);
      RefinesStep(data, mid, data', S, f, exits[i].to, SFdata(NewTime(fTime, exits[i], fSpeed), Some(f), fSpeed));
      RelaxStep(g, data, mid, data', exits, i, f, fTime, fSpeed, hostileCount);
    }
  }

  /** Every exit among the first `n` of `exits` that is not pruned has its
      far end recorded, no later than the time of arriving through it. */
  ghost predicate Reached(g: Graph, data': Table, exits: seq<Exit>, n: nat, fTime: real, fSpeed: real, hostileCount: int)
    requires fSpeed > 0.0
  {
    && n <= |exits|
    && forall j :: 0 <= j < n && !Pruned(g, exits[j].to, hostileCount) ==>
         exits[j].to in data' && data'[exits[j].to].time <= NewTime(fTime, exits[j], fSpeed)
  }

  /** Every record of `data'` that is not in `data` as it was was written
      through one of the first `n` exits that is not pruned: the time of
      arriving through it, back-pointer `f` and speed `fSpeed`; a record
      that already existed is rewritten only for a strictly earlier time. */
  ghost predicate RecordedFrom(g: Graph, data: Table, data': Table, exits: seq<Exit>, n: nat, f: Node,
                               fTime: real, fSpeed: real, hostileCount: int)
    requires fSpeed > 0.0
  {
    && n <= |exits|
    && forall w :: w in data' && (w !in data || data'[w] != data[w]) ==>
         (w in data ==> data'[w].time < data[w].time) &&
         exists j :: 0 <= j < n && exits[j].to == w && !Pruned(g, w, hostileCount) &&
           data'[w] == SFdata(NewTime(fTime, exits[j], fSpeed), Some(f), fSpeed)
  }

  /** Relaxing exit `i` as RelaxEdge does extends Reached and RecordedFrom
      to the first `i + 1` exits. */
  lemma RelaxStep(g: Graph, data: Table, mid: Table, data': Table, exits: seq<Exit>, i: nat, f: Node,
                  fTime: real, fSpeed: real, hostileCount: int)
    requires fSpeed > 0.0 && i < |exits|
    requires Reached(g, mid, exits, i, fTime, fSpeed, hostileCount)
    requires RecordedFrom(g, data, mid, exits, i, f, fTime, fSpeed, hostileCount)
    requires forall n :: n in data ==> n in mid && mid[n].time <= data[n].time
    requires Pruned(g, exits[i].to, hostileCount) ==> data' == mid
    requires !Pruned(g, exits[i].to, hostileCount) && Improves(mid, exits[i].to, NewTime(fTime, exits[i], fSpeed)) ==>
      data' == mid[exits[i].to := SFdata(NewTime(fTime, exits[i], fSpeed), Some(f), fSpeed)]
    requires !Pruned(g, exits[i].to, hostileCount) && !Improves(mid, exits[i].to, NewTime(fTime, exits[i], fSpeed)) ==>
      data' == mid
    ensures Reached(g, data', exits, i + 1, fTime, fSpeed, hostileCount)
    ensures RecordedFrom(g, data, data', exits, i + 1, f, fTime, fSpeed, hostileCount)
  {
    var w, rec := exits[i].to, SFdata(NewTime(fTime, exits[i], fSpeed), Some(f), fSpeed);
    forall n | n in data' && (n !in data || data'[n] != data[n])
      ensures n in data ==> data'[n].time < data[n].time
      ensures exists j :: 0 <= j < i + 1 && exits[j].to == n && !Pruned(g, n, hostileCount) &&
                data'[n] == SFdata(NewTime(fTime, exits[j], fSpeed), Some(f), fSpeed)
    {
      if n == w && data' != mid {
        assert exits[i].to == n && data'[n] == rec;
      } else {
        assert n in mid && data'[n] == mid[n];
        var j :| 0 <= j < i && exits[j].to == n && !Pruned(g, n, hostileCount) &&
          mid[n] == SFdata(NewTime(fTime, exits[j], fSpeed), Some(f), fSpeed);
        assert exits[j].to == n;
      }
    }
  }

  /** `data'` grows out of `data` by relaxations from `f`: no recorded
      node is lost or gets a later time, settled records stay as they
      are, and a node recorded anew has `f` as its back-pointer. */
  ghost predicate Refines(data: Table, data': Table, S: set<Node>, f: Node) {
    && (forall n :: n in data ==> n in data' && data'[n].time <= data[n].time)
    && (forall n :: n in data && n in S ==> data'[n] == data[n])
    && (forall n :: n in data' && n !in data ==> data'[n].backPointer == Some(f))
  }

  /** One more relaxation from `f` keeps Refines. */
  lemma RefinesStep(data: Table, mid: Table, data': Table, S: set<Node>, f: Node, w: Node, rec: SFdata)
    requires Refines(data, mid, S, f)
    requires data' == mid || (w !in S && rec.backPointer == Some(f) && Improves(mid, w, rec.time) && data' == mid[w := rec])
    ensures Refines(data, data', S, f)
  {
  }
}
