/** The wiring of a butterfly network. */
module Butterfly {
  import opened Bits

  /** Exclusive or, bit by bit. */
  function Xor(a: nat, b: nat): nat {
    if a == 0 && b == 0 then 0
    else 2 * Xor(a / 2, b / 2) + if a % 2 == b % 2 then 0 else 1
  }

  lemma {:induction false} XorZero(a: nat)
    ensures Xor(a, 0) == a
  {
    if a > 0 { XorZero(a / 2); }
  }

  /** Exclusive or with a power of two changes that bit and no other. */
  lemma {:induction false} XorPower(i: nat, l: nat)
    ensures var x := Xor(i, Pow2(l));
            x != i && x / Pow2(l + 1) == i / Pow2(l + 1) && x % Pow2(l) == i % Pow2(l)
  {
    var x, p, h := Xor(i, Pow2(l)), Pow2(l), i / 2;
    if l == 0 {
      XorZero(h);
      assert Xor(i, 1) == 2 * Xor(h, 0) + (if i % 2 == 1 then 0 else 1);
    } else {
      var q := Pow2(l - 1);
      XorPower(h, l - 1);
      assert p / 2 == q && p % 2 == 0;
      var y := Xor(h, q);
      assert x == 2 * y + i % 2;
      DivDiv(x, 2, p);
      DivDiv(i, 2, p);
      assert x / 2 == y;
      DivDiv(x, 2, q);
      DivDiv(i, 2, q);
    }
  }

  datatype Node = Node(level: nat, index: nat)
  datatype Wire = Wire(tail: Node, head: Node)

  /** Node `i` of a level is wired to nodes `i` and `i ^ 2^level` of the next. */
  ghost predicate IsWire(n: nat, w: Wire) {
    && w.tail.level < n && w.head.level == w.tail.level + 1 && w.tail.index < Pow2(n)
    && (w.head.index == w.tail.index || w.head.index == Xor(w.tail.index, Pow2(w.tail.level)))
  }

  ghost predicate IsButterfly(g: set<Wire>, n: nat) {
    forall w :: w in g <==> IsWire(n, w)
  }

  /** The wires of the first `levels` levels and of the first nodes of the next. */
  ghost predicate Wired(g: set<Wire>, n: nat, levels: nat, nodes: nat) {
    forall w :: w in g <==>
      IsWire(n, w) && (w.tail.level < levels || (w.tail.level == levels && w.tail.index < nodes))
  }

  method ButterflyNetwork(n: nat) returns (g: set<Wire>)
    ensures IsButterfly(g, n)
  {
    g := {};
    var nNode := Pow2(n);
    for level := 0 to n
      invariant Wired(g, n, level, 0)
    {
      for i := 0 to nNode
        invariant Wired(g, n, level, i)
      {
        g := g + {Wire(Node(level, i), Node(level + 1, i))};
        var target := Xor(i, Pow2(level));
        g := g + {Wire(Node(level, i), Node(level + 1, target))};
      }
    }
  }

  /** The wires of a network, bit by bit: a wire leads to the next level and keeps every bit
      of the index but the one with the number of the level, and each such wire is there. */
  lemma WiresAre(g: set<Wire>, n: nat, l: nat, i: nat, m: nat, j: nat)
    requires IsButterfly(g, n)
    ensures Wire(Node(l, i), Node(m, j)) in g
       <==> l < n && m == l + 1 && i < Pow2(n) && j / Pow2(l + 1) == i / Pow2(l + 1) && j % Pow2(l) == i % Pow2(l)
  {
    XorPower(i, l);
    if j / Pow2(l + 1) == i / Pow2(l + 1) && j % Pow2(l) == i % Pow2(l) {
      SameOrFlipped(i, j, l);
    }
    assert IsWire(n, Wire(Node(l, i), Node(m, j))) <==> Wire(Node(l, i), Node(m, j)) in g;
  }

  // ----- paths -----

  ghost predicate Path(g: set<Wire>, p: seq<Node>, a: Node, b: Node) {
    && p != [] && p[0] == a && p[|p| - 1] == b
    && forall k :: 0 <= k < |p| - 1 ==> Wire(p[k], p[k + 1]) in g
  }

  /** The multiple of `d` of one number with the remainder of another. */
  function Join(a: nat, b: nat, d: nat): nat
    requires d > 0
  {
    JoinNat(a, d);
    (a / d) * d + b % d
  }

  lemma JoinNat(a: nat, d: nat)
    requires d > 0
    ensures 0 <= (a / d) * d <= a
  {
  }

  lemma JoinIs(x: int, a: nat, b: nat, d: nat)
    requires d > 0
    ensures x / d == a / d && x % d == b % d <==> x == Join(a, b, d)
  {
    DivModIs(Join(a, b, d), d, a / d, b % d);
    assert x == (x / d) * d + x % d;
  }

  lemma JoinBound(a: nat, b: nat, d: nat, m: nat)
    requires d > 0 && a < m * d
    ensures Join(a, b, d) < m * d
  {
    DivBounds(a, 0, m, d);
    MulMono(a / d, m - 1, d);
    assert (m - 1) * d == m * d - d;
  }

  lemma JoinEnds(a: nat, b: nat, d: nat)
    requires a < d && b < d
    ensures Join(a, b, 1) == a && Join(a, b, d) == b
  {
    DivModIs(a, 1, a, 0);
    DivModIs(b, 1, b, 0);
    DivModIs(a, d, 0, a);
    DivModIs(b, d, 0, b);
  }

  /** At level `l` the bits below `l` are those of the destination, the others those of the
      source. */
  function Hop(src: nat, dst: nat, l: nat): nat {
    Join(src, dst, Pow2(l))
  }

  function Route(n: nat, src: nat, dst: nat): seq<Node> {
    seq(n + 1, l requires 0 <= l <= n => Node(l, Hop(src, dst, l)))
  }

  /** A number is its high part, its bit `l` and its low part. */
  lemma Parts(x: nat, l: nat)
    ensures var p, b := Pow2(l), (x / Pow2(l)) % 2;
            && x == (x / Pow2(l + 1)) * (2 * p) + b * p + x % p
            && x / p == 2 * (x / Pow2(l + 1)) + b
  {
    var p := Pow2(l);
    DivDiv(x, p, 2);
    assert p * 2 == Pow2(l + 1);
    var q := x / (p * 2);
    assert x / p == 2 * q + (x / p) % 2;
    assert x == (x / p) * p + x % p;
    assert (2 * q + (x / p) % 2) * p == q * (2 * p) + ((x / p) % 2) * p;
  }

  /** Numbers that agree above and below bit `l` are equal or differ by that bit alone. */
  lemma SameOrFlipped(x: nat, y: nat, l: nat)
    requires x / Pow2(l + 1) == y / Pow2(l + 1) && x % Pow2(l) == y % Pow2(l)
    ensures y == x || y == Xor(x, Pow2(l))
  {
    Parts(x, l);
    Parts(y, l);
    XorPower(x, l);
    Parts(Xor(x, Pow2(l)), l);
  }

  /** Consecutive hops are wired. */
  lemma HopStep(src: nat, dst: nat, l: nat)
    ensures var x, y := Hop(src, dst, l), Hop(src, dst, l + 1);
            y == x || y == Xor(x, Pow2(l))
  {
    var x, y := Hop(src, dst, l), Hop(src, dst, l + 1);
    JoinIs(x, src, dst, Pow2(l));
    JoinIs(y, src, dst, Pow2(l + 1));
    DivDiv(x, Pow2(l), 2);
    DivDiv(src, Pow2(l), 2);
    assert Pow2(l) * 2 == Pow2(l + 1);
    ModPow2(y, l, l + 1);
    ModPow2(dst, l, l + 1);
    SameOrFlipped(x, y, l);
  }

  lemma HopBound(src: nat, dst: nat, l: nat, n: nat)
    requires l <= n && src < Pow2(n) && dst < Pow2(n)
    ensures Hop(src, dst, l) < Pow2(n)
  {
    Pow2Add(n - l, l);
    JoinBound(src, dst, Pow2(l), Pow2(n - l));
  }

  lemma RouteIsPath(g: set<Wire>, n: nat, src: nat, dst: nat)
    requires IsButterfly(g, n) && src < Pow2(n) && dst < Pow2(n)
    ensures Path(g, Route(n, src, dst), Node(0, src), Node(n, dst))
  {
    var p := Route(n, src, dst);
    JoinEnds(src, dst, Pow2(n));
    forall k | 0 <= k < |p| - 1 ensures Wire(p[k], p[k + 1]) in g {
      HopStep(src, dst, k);
      HopBound(src, dst, k, n);
      assert IsWire(n, Wire(p[k], p[k + 1]));
    }
  }

  /** Along a path the level counts the steps and the bits not yet passed stay. */
  lemma {:induction false} PathHigh(g: set<Wire>, n: nat, p: seq<Node>, src: nat, b: Node, k: nat)
    requires IsButterfly(g, n) && Path(g, p, Node(0, src), b) && k < |p|
    ensures p[k].level == k
    ensures p[k].index / Pow2(k) == src / Pow2(k)
  {
    if k > 0 {
      PathHigh(g, n, p, src, b, k - 1);
      assert IsWire(n, Wire(p[k - 1], p[k - 1 + 1]));
      var x, y, d := p[k - 1].index, p[k].index, Pow2(k - 1);
      XorPower(x, k - 1);
      DivDiv(x, d, 2);
      DivDiv(src, d, 2);
      assert d * 2 == Pow2(k);
    }
  }

  /** And the bits already passed are those of the end. */
  lemma {:induction false} PathLow(g: set<Wire>, n: nat, p: seq<Node>, src: nat, dst: nat, k: nat)
    requires IsButterfly(g, n) && Path(g, p, Node(0, src), Node(n, dst)) && k < |p|
    ensures p[k].index % Pow2(k) == dst % Pow2(k)
    decreases |p| - k
  {
    if k < |p| - 1 {
      PathLow(g, n, p, src, dst, k + 1);
      PathHigh(g, n, p, src, Node(n, dst), k);
      assert IsWire(n, Wire(p[k], p[k + 1]));
      XorPower(p[k].index, k);
      ModPow2(p[k + 1].index, k, k + 1);
      ModPow2(dst, k, k + 1);
    }
  }

  /** There is exactly one path from each node of the first level to each node of the
      last. */
  lemma ExactlyOnePath(g: set<Wire>, n: nat, src: nat, dst: nat, p: seq<Node>)
    requires IsButterfly(g, n) && src < Pow2(n) && dst < Pow2(n)
    ensures Path(g, p, Node(0, src), Node(n, dst)) <==> p == Route(n, src, dst)
  {
    RouteIsPath(g, n, src, dst);
    if Path(g, p, Node(0, src), Node(n, dst)) {
      PathHigh(g, n, p, src, Node(n, dst), |p| - 1);
      forall k | 0 <= k < |p| ensures p[k] == Node(k, Hop(src, dst, k)) {
        PathHigh(g, n, p, src, Node(n, dst), k);
        PathLow(g, n, p, src, dst, k);
        JoinIs(p[k].index, src, dst, Pow2(k));
      }
      assert p == Route(n, src, dst);
    }
  }
}
