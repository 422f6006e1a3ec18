/** Graphs as the loaders build them: per-vertex neighbour lists in both directions. */
module Graphs {
  import opened Bits

  /** A line of the edge list. */
  datatype Edge = Edge(src: nat, dst: nat)

  /** The largest vertex number in the list, plus one. */
  function VertexCount(data: seq<Edge>): nat {
    if data == [] then 0
    else
      var n, e := VertexCount(data[..|data| - 1]), data[|data| - 1];
      Max(n, Max(e.src + 1, e.dst + 1))
  }

  predicate Within(data: seq<Edge>, n: nat) {
    forall i :: 0 <= i < |data| ==> data[i].src < n && data[i].dst < n
  }

  lemma {:induction false} VertexCountBounds(data: seq<Edge>)
    ensures Within(data, VertexCount(data))
    ensures data != [] ==> VertexCount(data) > 0
  {
    if data != [] {
      VertexCountBounds(data[..|data| - 1]);
    }
  }

  /** It is the least number of vertices that holds every line. */
  lemma {:induction false} VertexCountLeast(data: seq<Edge>, m: nat)
    ensures Within(data, m) <==> VertexCount(data) <= m
  {
    if data != [] {
      var init, e := data[..|data| - 1], data[|data| - 1];
      VertexCountLeast(init, m);
      if Within(data, m) {
        assert forall i :: 0 <= i < |init| ==> init[i] == data[i];
        assert data[|data| - 1].src < m && data[|data| - 1].dst < m;
      }
      if VertexCount(data) <= m {
        forall i | 0 <= i < |data| ensures data[i].src < m && data[i].dst < m {
          if i < |init| { assert init[i] == data[i]; }
        }
      }
    }
  }

  /** `n` is the number of vertices: it holds every line, and no smaller number does. */
  ghost predicate Counts(data: seq<Edge>, n: nat) {
    Within(data, n) && forall m: nat :: Within(data, m) ==> n <= m
  }

  lemma CountsExactly(data: seq<Edge>, n: nat)
    ensures Counts(data, n) <==> n == VertexCount(data)
  {
    VertexCountLeast(data, VertexCount(data));
    forall m: nat ensures Within(data, m) <==> VertexCount(data) <= m {
      VertexCountLeast(data, m);
    }
  }

  /** The out-neighbours of `v`: every line gives an arc, and in an undirected graph
      the reverse arc too unless it is a loop. */
  function OutList(data: seq<Edge>, und: bool, v: nat): seq<int> {
    if data == [] then []
    else
      var l, e := OutList(data[..|data| - 1], und, v), data[|data| - 1];
      var l1 := if e.src == v then l + [e.dst] else l;
      if und && e.src != e.dst && e.dst == v then l1 + [e.src] else l1
  }

  function InList(data: seq<Edge>, und: bool, v: nat): seq<int> {
    if data == [] then []
    else
      var l, e := InList(data[..|data| - 1], und, v), data[|data| - 1];
      var l1 := if e.dst == v then l + [e.src] else l;
      if und && e.src != e.dst && e.src == v then l1 + [e.dst] else l1
  }

  /** The number of arcs from `u` to `v`. */
  function ArcCount(data: seq<Edge>, und: bool, u: nat, v: nat): nat {
    if data == [] then 0
    else
      var c, e := ArcCount(data[..|data| - 1], und, u, v), data[|data| - 1];
      c + (if e.src == u && e.dst == v then 1 else 0)
        + (if und && e.src != e.dst && e.dst == u && e.src == v then 1 else 0)
  }

  /** Both directions list the same arcs, with the same multiplicities. */
  lemma {:induction false} ListsAreDual(data: seq<Edge>, und: bool, u: nat, v: nat)
    ensures multiset(OutList(data, und, u))[v] == ArcCount(data, und, u, v)
    ensures multiset(InList(data, und, v))[u] == ArcCount(data, und, u, v)
  {
    if data != [] {
      ListsAreDual(data[..|data| - 1], und, u, v);
    }
  }

  /** The lines that give an entry of the out-list of `v`: those that leave `v` and, in an
      undirected graph, those that enter it.  The entries are the other ends of these lines,
      in the order of the lines. */
  lemma {:induction false} OutListIsLines(data: seq<Edge>, und: bool, v: nat) returns (lines: seq<nat>)
    ensures forall i, j :: 0 <= i < j < |lines| ==> lines[i] < lines[j]
    ensures forall i :: 0 <= i < |lines| ==> lines[i] < |data|
    ensures forall i :: 0 <= i < |data| ==> (i in lines <==> data[i].src == v || (und && data[i].dst == v))
    ensures |OutList(data, und, v)| == |lines|
    ensures forall k :: 0 <= k < |lines| ==>
              OutList(data, und, v)[k] == if data[lines[k]].src == v then data[lines[k]].dst else data[lines[k]].src
  {
    if data == [] {
      lines := [];
    } else {
      var n := |data| - 1;
      var before := OutListIsLines(data[..n], und, v);
      lines := before + if data[n].src == v || (und && data[n].dst == v) then [n] else [];
    }
  }

  lemma {:induction false} InListIsLines(data: seq<Edge>, und: bool, v: nat) returns (lines: seq<nat>)
    ensures forall i, j :: 0 <= i < j < |lines| ==> lines[i] < lines[j]
    ensures forall i :: 0 <= i < |lines| ==> lines[i] < |data|
    ensures forall i :: 0 <= i < |data| ==> (i in lines <==> data[i].dst == v || (und && data[i].src == v))
    ensures |InList(data, und, v)| == |lines|
    ensures forall k :: 0 <= k < |lines| ==>
              InList(data, und, v)[k] == if data[lines[k]].dst == v then data[lines[k]].src else data[lines[k]].dst
  {
    if data == [] {
      lines := [];
    } else {
      var n := |data| - 1;
      var before := InListIsLines(data[..n], und, v);
      lines := before + if data[n].dst == v || (und && data[n].src == v) then [n] else [];
    }
  }

  /** The lines that are an arc from `u` to `v`. */
  function LinesFromTo(data: seq<Edge>, und: bool, u: nat, v: nat): set<nat> {
    set i: nat | 0 <= i < |data| && (data[i] == Edge(u, v) || (und && data[i] == Edge(v, u)))
  }

  lemma LinesNext(data: seq<Edge>, und: bool, u: nat, v: nat)
    requires data != []
    ensures var n, before := |data| - 1, LinesFromTo(data[..|data| - 1], und, u, v);
            && n !in before
            && LinesFromTo(data, und, u, v) == before + if data[n] == Edge(u, v) || (und && data[n] == Edge(v, u)) then {n} else {}
  {
  }

  lemma {:induction false} ArcCountIsLines(data: seq<Edge>, und: bool, u: nat, v: nat)
    ensures ArcCount(data, und, u, v) == |LinesFromTo(data, und, u, v)|
  {
    if data == [] {
      assert LinesFromTo(data, und, u, v) == {};
    } else {
      ArcCountIsLines(data[..|data| - 1], und, u, v);
      LinesNext(data, und, u, v);
    }
  }

  /** In an undirected graph the two lists of a vertex are permutations of each other. */
  lemma {:induction false} UndirectedLists(data: seq<Edge>, v: nat)
    ensures multiset(OutList(data, true, v)) == multiset(InList(data, true, v))
  {
    if data != [] {
      UndirectedLists(data[..|data| - 1], v);
    }
  }

  lemma {:induction false} ListsWithin(data: seq<Edge>, und: bool, n: nat, v: nat)
    requires Within(data, n)
    ensures forall i :: 0 <= i < |OutList(data, und, v)| ==> 0 <= OutList(data, und, v)[i] < n
    ensures forall i :: 0 <= i < |InList(data, und, v)| ==> 0 <= InList(data, und, v)[i] < n
  {
    if data != [] {
      ListsWithin(data[..|data| - 1], und, n, v);
    }
  }

  // ----- the loader -----

  class Vertex {
    const idx: nat
    var inDeg: nat
    var outDeg: nat
    var inVid: seq<int>
    var outVid: seq<int>

    constructor (i: nat)
      ensures idx == i && inVid == [] && outVid == []
    {
      idx, inDeg, outDeg, inVid, outVid := i, 0, 0, [], [];
    }
  }

  ghost predicate Distinct(vs: seq<Vertex>) {
    forall i, j :: 0 <= i < j < |vs| ==> vs[i] != vs[j]
  }

  /** The vertices hold the lists of the first lines of the edge list. */
  ghost predicate Holds(vs: seq<Vertex>, data: seq<Edge>, und: bool)
    reads vs
  {
    && Distinct(vs)
    && forall v :: 0 <= v < |vs| ==> vs[v].outVid == OutList(data, und, v) && vs[v].inVid == InList(data, und, v)
  }

  ghost predicate HasDegrees(vs: seq<Vertex>)
    reads vs
  {
    forall v :: 0 <= v < |vs| ==> vs[v].outDeg == |vs[v].outVid| && vs[v].inDeg == |vs[v].inVid|
  }

  /** New vertices without neighbours. */
  method NewVertices(n: nat) returns (vs: seq<Vertex>)
    ensures |vs| == n && fresh(vs) && Holds(vs, [], true) && Holds(vs, [], false)
  {
    vs := [];
    for i := 0 to n
      invariant |vs| == i && fresh(vs) && Holds(vs, [], true) && Holds(vs, [], false)
    {
      var v := new Vertex(i);
      vs := vs + [v];
    }
  }

  /** One line of the edge list. */
  method AddEdge(vs: seq<Vertex>, src: nat, dst: nat, und: bool, ghost data: seq<Edge>)
    requires src < |vs| && dst < |vs| && Holds(vs, data, und)
    modifies vs
    ensures Holds(vs, data + [Edge(src, dst)], und)
  {
    assert (data + [Edge(src, dst)])[..|data|] == data;
    vs[src].outVid := vs[src].outVid + [dst];
    vs[dst].inVid := vs[dst].inVid + [src];
    if und && src != dst {
      vs[dst].outVid := vs[dst].outVid + [src];
      vs[src].inVid := vs[src].inVid + [dst];
    }
  }

  method CountDegrees(vs: seq<Vertex>)
    requires Distinct(vs)
    modifies vs
    ensures HasDegrees(vs)
    ensures forall v :: 0 <= v < |vs| ==> vs[v].outVid == old(vs[v].outVid) && vs[v].inVid == old(vs[v].inVid)
  {
    for i := 0 to |vs|
      invariant forall v :: 0 <= v < i ==> vs[v].outDeg == |vs[v].outVid| && vs[v].inDeg == |vs[v].inVid|
      invariant forall v :: 0 <= v < |vs| ==> vs[v].outVid == old(vs[v].outVid) && vs[v].inVid == old(vs[v].inVid)
    {
      vs[i].inDeg := |vs[i].inVid|;
      vs[i].outDeg := |vs[i].outVid|;
    }
  }

  /** The largest index of any line. */
  method MaxIndex(data: seq<Edge>) returns (n: nat)
    requires data != []
    ensures exists i :: 0 <= i < |data| && (data[i].src == n || data[i].dst == n)
    ensures forall i :: 0 <= i < |data| ==> data[i].src <= n && data[i].dst <= n
    ensures n + 1 == VertexCount(data)
  {
    n := data[0].src;
    for i := 0 to |data|
      invariant exists k :: 0 <= k < |data| && (data[k].src == n || data[k].dst == n)
      invariant forall k :: 0 <= k < i ==> data[k].src <= n && data[k].dst <= n
    {
      if n <= data[i].src { n := data[i].src; }
      if n <= data[i].dst { n := data[i].dst; }
    }
    VertexCountLeast(data, n + 1);
    VertexCountLeast(data, n);
  }

  /** The first pass of every loader. */
  method BuildLists(data: seq<Edge>, n: nat, und: bool) returns (vs: seq<Vertex>)
    requires Within(data, n)
    ensures |vs| == n && fresh(vs) && Holds(vs, data, und) && HasDegrees(vs)
  {
    vs := NewVertices(n);
    for i := 0 to |data|
      invariant |vs| == n && fresh(vs) && Holds(vs, data[..i], und)
    {
      AddEdge(vs, data[i].src, data[i].dst, und, data[..i]);
      assert data[..i] + [Edge(data[i].src, data[i].dst)] == data[..i + 1];
    }
    assert data[..|data|] == data;
    CountDegrees(vs);
  }
}
