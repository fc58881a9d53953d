/** The galaxy that the path utilities search: planets (nodes) joined by
    edges of integer length, some planets hostile, some holding a speed
    upgrade. The `Node` and `Edge` classes themselves are not part of this
    model; a node is an id, and `getExits`, `getOther`, `getConnect`,
    `isHostile` and `hasSpeedUpgrade` are read off a `Graph` value. */
module Galaxy {

  datatype Option<T> = None | Some(value: T)

  /** A node's identity (Java compares nodes with `==`). */
  type Node = nat

  /** An edge seen from one of its ends: the node at the other end
      (`getOther`) and the edge's `length`. */
  datatype Exit = Exit(to: Node, length: int)

  /** The exits of every node, in `getExits` order, and the hostile and
      speed-upgrade planets. */
  datatype Graph = Graph(exits: map<Node, seq<Exit>>, hostile: set<Node>, upgrade: set<Node>)

  /** A value of Java's `int`. */
  predicate IsInt32(x: int) {
    -0x8000_0000 <= x < 0x8000_0000
  }

  /** Java `int` arithmetic: the mathematical result reduced into the
      32-bit two's-complement range. */
  function Wrap32(x: int): (r: int)
    ensures IsInt32(r)
    ensures IsInt32(x) ==> r == x
    ensures (r - x) % 0x1_0000_0000 == 0
  {
    (x + 0x8000_0000) % 0x1_0000_0000 - 0x8000_0000
  }

  /** Adding after wrapping wraps to the same value as adding first: the
      running sum of a Java loop is the wrapped mathematical sum. */
  lemma WrapAdd(a: int, b: int)
    ensures Wrap32(Wrap32(a) + b) == Wrap32(a + b)
  {
    var m := 0x1_0000_0000;
    var w := Wrap32(a);
    assert (w - a) % m == 0;
    var q := (w - a) / m;
    assert w == a + q * m;
    ShiftMod(a + b + 0x8000_0000, q, m);
  }

  lemma {:induction false} ShiftMod(x: int, q: int, m: int)
    requires m > 0
    ensures (x + q * m) % m == x % m
    decreases if q < 0 then -q else q
  {
    if q > 0 {
      ShiftMod(x, q - 1, m);
      StepMod(x + (q - 1) * m, m);
      assert x + q * m == x + (q - 1) * m + m;
    } else if q < 0 {
      ShiftMod(x, q + 1, m);
      StepMod(x + q * m, m);
      assert x + (q + 1) * m == x + q * m + m;
    }
  }

  lemma StepMod(y: int, m: int)
    requires m > 0
    ensures (y + m) % m == y % m
  {
    var d, r := y / m, y % m;
    var d', r' := (y + m) / m, (y + m) % m;
    var k := d' - d - 1;
    assert k * m == r - r' by {
      assert y + m == d' * m + r';
      assert y + m == (d + 1) * m + r;
      assert (d + 1) * m == d * m + m;
      assert d' * m - (d + 1) * m == (d' - (d + 1)) * m;
    }
  }

  /** A well-formed graph: every exit leads to a node of the graph and has
      a length that fits Java's `int`. */
  predicate Valid(g: Graph) {
    forall n, i :: n in g.exits && 0 <= i < |g.exits[n]| ==>
      g.exits[n][i].to in g.exits && IsInt32(g.exits[n][i].length)
  }

  /** No edge has a negative length (what Dijkstra's method relies on). */
  predicate NonNegative(g: Graph) {
    forall n, i :: n in g.exits && 0 <= i < |g.exits[n]| ==> g.exits[n][i].length >= 0
  }

  /** `b` is at the other end of one of `a`'s exits. */
  predicate Adjacent(g: Graph, a: Node, b: Node) {
    a in g.exits && exists i :: 0 <= i < |g.exits[a]| && g.exits[a][i].to == b
  }

  /** The length of the first exit in `exits` that leads to `b`. */
  function FirstLength(exits: seq<Exit>, b: Node): Option<int> {
    if exits == [] then None
    else if exits[0].to == b then Some(exits[0].length)
    else FirstLength(exits[1..], b)
  }

  /** `a.getConnect(b).length`, or `None` where `getConnect` gives `null`
      because no edge joins the two. */
  function Connect(g: Graph, a: Node, b: Node): Option<int> {
    if a in g.exits then FirstLength(g.exits[a], b) else None
  }

  lemma {:induction false} FirstLengthFound(exits: seq<Exit>, b: Node)
    ensures FirstLength(exits, b).Some? <==> exists i :: 0 <= i < |exits| && exits[i].to == b
    ensures FirstLength(exits, b).Some? ==>
      exists i :: 0 <= i < |exits| && exits[i] == Exit(b, FirstLength(exits, b).value)
  {
    if exits != [] && exits[0].to != b {
      FirstLengthFound(exits[1..], b);
      assert forall i :: 0 < i < |exits| ==> exits[i] == exits[1..][i - 1];
    }
  }

  /** `getConnect` finds an edge exactly between adjacent nodes, and the
      length it reports is that of one of the exits joining them. */
  lemma ConnectAdjacent(g: Graph, a: Node, b: Node)
    ensures Connect(g, a, b).Some? <==> Adjacent(g, a, b)
    ensures Connect(g, a, b).Some? ==>
      exists i :: 0 <= i < |g.exits[a]| && g.exits[a][i] == Exit(b, Connect(g, a, b).value)
  {
    if a in g.exits {
      FirstLengthFound(g.exits[a], b);
    }
  }
}
