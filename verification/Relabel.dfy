/** Renumbering a graph by decreasing out-degree, and rebuilding it under the new
    numbers. */
module Relabel {
  import opened Sorting
  import opened Graphs

  // ----- ordering the vertices -----

  /** Larger entries of `v` come first. */
  function Descending(v: seq<int>): int -> int {
    (i: int) => if 0 <= i < |v| then 0 - v[i] else 0
  }

  function Iota(n: nat): seq<int> {
    seq(n, i => i)
  }

  /** The indices of `v` from its largest entry to its smallest. */
  function SortIndexes(v: seq<int>): seq<int> {
    StableSort(Descending(v), Iota(|v|))
  }

  /** Increasing in the key, and among equal keys increasing. */
  ghost predicate Ordered(key: int -> int, s: seq<int>) {
    forall i, j :: 0 <= i < j < |s| ==> key(s[i]) < key(s[j]) || (key(s[i]) == key(s[j]) && s[i] < s[j])
  }

  lemma {:induction false} InsertOrdered(key: int -> int, s: seq<int>, x: int)
    requires Ordered(key, s) && forall i :: 0 <= i < |s| ==> s[i] < x
    ensures Ordered(key, Insert(key, s, x))
  {
    if s == [] || key(s[|s| - 1]) <= key(x) {
    } else {
      var init, last := s[..|s| - 1], s[|s| - 1];
      InsertOrdered(key, init, x);
      var r := Insert(key, init, x);
      forall i | 0 <= i < |r| ensures key(r[i]) < key(last) || (key(r[i]) == key(last) && r[i] < last) {
        InsertMember(key, init, x, i);
      }
    }
  }

  lemma {:induction false} SortOrdered(key: int -> int, s: seq<int>)
    requires forall i, j :: 0 <= i < j < |s| ==> s[i] < s[j]
    ensures Ordered(key, StableSort(key, s))
  {
    if s != [] {
      var init, x := s[..|s| - 1], s[|s| - 1];
      SortOrdered(key, init);
      StableSortProps(key, init);
      var r := StableSort(key, init);
      forall i | 0 <= i < |r| ensures r[i] < x {
        assert r[i] in multiset(r);
        assert r[i] in init;
      }
      InsertOrdered(key, r, x);
    }
  }

  /** The indices come in decreasing order of their entries, those of equal entries in
      increasing order, and every index comes once. */
  lemma SortIndexesProps(v: seq<int>)
    ensures var m := SortIndexes(v);
            && |m| == |v|
            && (forall i :: 0 <= i < |m| ==> 0 <= m[i] < |v|)
            && (forall x :: 0 <= x < |v| ==> x in m)
            && (forall i, j :: 0 <= i < j < |m| ==> v[m[i]] > v[m[j]] || (v[m[i]] == v[m[j]] && m[i] < m[j]))
  {
    var m, iota := SortIndexes(v), Iota(|v|);
    StableSortProps(Descending(v), iota);
    SortOrdered(Descending(v), iota);
    assert multiset(m) == multiset(iota);
    forall i | 0 <= i < |m| ensures 0 <= m[i] < |v| {
      assert m[i] in multiset(m);
      assert m[i] in iota;
    }
    forall x | 0 <= x < |v| ensures x in m {
      assert iota[x] == x;
      assert x in multiset(iota);
    }
    forall i, j | 0 <= i < j < |m| ensures v[m[i]] > v[m[j]] || (v[m[i]] == v[m[j]] && m[i] < m[j]) {
      assert Descending(v)(m[i]) == 0 - v[m[i]] && Descending(v)(m[j]) == 0 - v[m[j]];
    }
  }

  /** New numbers to old ones and back. */
  ghost predicate Inverse(m: seq<int>, r: seq<int>, n: nat) {
    && |m| == |r| == n
    && (forall i :: 0 <= i < n ==> 0 <= m[i] < n && r[m[i]] == i)
    && (forall v :: 0 <= v < n ==> 0 <= r[v] < n && m[r[v]] == v)
  }

  /** `m` orders the vertices by degree. */
  ghost predicate ByDegree(m: seq<int>, deg: seq<int>) {
    && |m| == |deg|
    && (forall i :: 0 <= i < |m| ==> 0 <= m[i] < |deg|)
    && (forall i, j :: 0 <= i < j < |m| ==> deg[m[i]] > deg[m[j]] || (deg[m[i]] == deg[m[j]] && m[i] < m[j]))
  }

  /** The order of the vertices and its inverse. */
  method Renumber(deg: seq<int>) returns (m: seq<int>, r: seq<int>)
    ensures ByDegree(m, deg) && Inverse(m, r, |deg|)
  {
    m := SortIndexes(deg);
    SortIndexesProps(deg);
    r := seq(|m|, i => 0);
    for i := 0 to |m|
      invariant |r| == |m| && forall k :: 0 <= k < i ==> r[m[k]] == k
    {
      r := r[m[i] := i];
    }
    forall v | 0 <= v < |m| ensures 0 <= r[v] < |m| && m[r[v]] == v {
      assert v in m;
      var k :| 0 <= k < |m| && m[k] == v;
      assert r[m[k]] == k;
    }
  }

  // ----- the renumbered graph -----

  function Renamed(data: seq<Edge>, r: seq<int>): (d: seq<Edge>)
    requires Within(data, |r|) && forall v :: 0 <= v < |r| ==> 0 <= r[v] < |r|
    ensures Within(d, |r|)
  {
    if data == [] then []
    else
      var e := data[|data| - 1];
      Renamed(data[..|data| - 1], r) + [Edge(r[e.src], r[e.dst])]
  }

  lemma {:induction false} RenamedLength(data: seq<Edge>, r: seq<int>)
    requires Within(data, |r|) && forall v :: 0 <= v < |r| ==> 0 <= r[v] < |r|
    ensures |Renamed(data, r)| == |data|
  {
    if data != [] { RenamedLength(data[..|data| - 1], r); }
  }

  /** A neighbour list under the new numbers. */
  function Through(r: seq<int>, s: seq<int>): (t: seq<int>)
    requires forall i :: 0 <= i < |s| ==> 0 <= s[i] < |r|
    ensures |t| == |s| && forall i :: 0 <= i < |s| ==> t[i] == r[s[i]]
  {
    seq(|s|, i requires 0 <= i < |s| => r[s[i]])
  }

  /** Vertex `k` of the renumbered graph has the neighbours of `m[k]`, renumbered, in the
      same order and in both directions. */
  lemma {:induction false} RenamedLists(data: seq<Edge>, und: bool, m: seq<int>, r: seq<int>, k: nat)
    requires Inverse(m, r, |r|) && Within(data, |r|) && k < |r|
    ensures (forall i :: 0 <= i < |OutList(data, und, m[k])| ==> 0 <= OutList(data, und, m[k])[i] < |r|)
    ensures (forall i :: 0 <= i < |InList(data, und, m[k])| ==> 0 <= InList(data, und, m[k])[i] < |r|)
    ensures OutList(Renamed(data, r), und, k) == Through(r, OutList(data, und, m[k]))
    ensures InList(Renamed(data, r), und, k) == Through(r, InList(data, und, m[k]))
  {
    ListsWithin(data, und, |r|, m[k]);
    if data != [] {
      var e, init := data[|data| - 1], data[..|data| - 1];
      RenamedLists(init, und, m, r, k);
      ListsNext(data, und, m[k]);
      RenamedNext(data, r);
      ListsNext(Renamed(data, r), und, k);
      assert r[m[k]] == k && m[r[e.src]] == e.src && m[r[e.dst]] == e.dst;
      RenamedStep(OutList(init, und, m[k]), r, m[k], k, e.src, e.dst, und);
      RenamedStep(InList(init, und, m[k]), r, m[k], k, e.dst, e.src, und);
    }
  }

  /** The last line of a list comes last after renumbering. */
  lemma RenamedNext(data: seq<Edge>, r: seq<int>)
    requires Within(data, |r|) && data != [] && forall v :: 0 <= v < |r| ==> 0 <= r[v] < |r|
    ensures var init, e, d := data[..|data| - 1], data[|data| - 1], Renamed(data, r);
            |d| == |data| && d[..|d| - 1] == Renamed(init, r) && d[|d| - 1] == Edge(r[e.src], r[e.dst])
  {
    RenamedLength(data[..|data| - 1], r);
  }

  lemma ListsNext(data: seq<Edge>, und: bool, v: nat)
    requires data != []
    ensures var init, e := data[..|data| - 1], data[|data| - 1];
            && OutList(data, und, v) == Grown(OutList(init, und, v), v, e.src, e.dst, und)
            && InList(data, und, v) == Grown(InList(init, und, v), v, e.dst, e.src, und)
  {
  }

  /** What one line adds to the list of `v`, before and after renumbering. */
  function Grown(l: seq<int>, v: int, src: int, dst: int, und: bool): seq<int> {
    var l1 := if src == v then l + [dst] else l;
    if und && src != dst && dst == v then l1 + [src] else l1
  }

  lemma RenamedStep(l: seq<int>, r: seq<int>, v: int, k: int, src: int, dst: int, und: bool)
    requires 0 <= v < |r| && 0 <= src < |r| && 0 <= dst < |r| && r[v] == k
    requires r[src] == k ==> src == v
    requires r[dst] == k ==> dst == v
    requires r[src] == r[dst] ==> src == dst
    requires forall i :: 0 <= i < |l| ==> 0 <= l[i] < |r|
    ensures forall i :: 0 <= i < |Grown(l, v, src, dst, und)| ==> 0 <= Grown(l, v, src, dst, und)[i] < |r|
    ensures Grown(Through(r, l), k, r[src], r[dst], und) == Through(r, Grown(l, v, src, dst, und))
  {
  }

  /** Renumbering is an isomorphism: it keeps the number of arcs between any two
      vertices. */
  lemma {:induction false} RenamedArcs(data: seq<Edge>, und: bool, m: seq<int>, r: seq<int>, u: nat, v: nat)
    requires Inverse(m, r, |r|) && Within(data, |r|) && u < |r| && v < |r|
    ensures ArcCount(Renamed(data, r), und, r[u], r[v]) == ArcCount(data, und, u, v)
  {
    if data != [] {
      var e := data[|data| - 1];
      RenamedArcs(data[..|data| - 1], und, m, r, u, v);
      RenamedNext(data, r);
      assert m[r[e.src]] == e.src && m[r[e.dst]] == e.dst && m[r[u]] == u && m[r[v]] == v;
    }
  }

  /** Degrees and numbering come from the file, the vertices from the renumbered file. */
  ghost predicate Loaded(data: seq<Edge>, und: bool, deg: seq<int>, m: seq<int>, r: seq<int>, vs: seq<Vertex>)
    reads vs
  {
    var n := VertexCount(data);
    && Within(data, n)
    && |deg| == n && (forall v :: 0 <= v < n ==> deg[v] == |OutList(data, und, v)|)
    && Inverse(m, r, n) && ByDegree(m, deg)
    && |vs| == n && Holds(vs, Renamed(data, r), und) && HasDegrees(vs)
  }

  class Graph {
    var isUgraph: bool
    /** The largest vertex number: one less than the number of vertices. */
    var vertexNum: nat
    var edgeNum: nat
    var vertices: seq<Vertex>
    var outDeg: seq<int>
    var mapping: seq<int>
    var remap: seq<int>

    ghost predicate Valid(data: seq<Edge>)
      reads this, vertices
    {
      vertexNum + 1 == VertexCount(data) && edgeNum == |data| && Loaded(data, isUgraph, outDeg, mapping, remap, vertices)
    }

    /** Reads the graph, renumbers its vertices by out-degree and reads it again under the
        new numbers. */
    constructor (data: seq<Edge>, ungraph: bool, undirected: bool)
      requires data != []
      ensures Valid(data) && isUgraph == (ungraph || undirected)
      ensures Counts(data, vertexNum + 1) && edgeNum == |data|
    {
      CountsExactly(data, VertexCount(data));
      var maxIdx := MaxIndex(data);
      var degrees, m, r, vs := ReadGraph(data, maxIdx + 1, ungraph || undirected);
      isUgraph, vertexNum, edgeNum, vertices := ungraph || undirected, maxIdx, |data|, vs;
      outDeg, mapping, remap := degrees, m, r;
    }
  }

  method ReadGraph(data: seq<Edge>, n: nat, und: bool) returns (deg: seq<int>, m: seq<int>, r: seq<int>, vs: seq<Vertex>)
    requires n == VertexCount(data)
    ensures fresh(vs) && Loaded(data, und, deg, m, r, vs)
  {
    VertexCountBounds(data);
    var first := BuildLists(data, n, und);
    deg := OutDegrees(first);
    m, r := Renumber(deg);
    vs := Rebuild(data, m, r, und);
  }

  method OutDegrees(vs: seq<Vertex>) returns (deg: seq<int>)
    requires HasDegrees(vs)
    ensures |deg| == |vs| && forall v :: 0 <= v < |vs| ==> deg[v] == |vs[v].outVid|
  {
    deg := [];
    for i := 0 to |vs|
      invariant |deg| == i && forall v :: 0 <= v < i ==> deg[v] == |vs[v].outVid|
    {
      deg := deg + [vs[i].outDeg];
    }
  }

  /** The second pass over the edge list. */
  method Rebuild(data: seq<Edge>, ghost m: seq<int>, r: seq<int>, und: bool) returns (vs: seq<Vertex>)
    requires Inverse(m, r, |r|) && Within(data, |r|)
    ensures |vs| == |r| && fresh(vs) && Holds(vs, Renamed(data, r), und) && HasDegrees(vs)
  {
    vs := NewVertices(|r|);
    for i := 0 to |data|
      invariant |vs| == |r| && fresh(vs) && Holds(vs, Renamed(data[..i], r), und)
    {
      var srcIdx, dstIdx := r[data[i].src], r[data[i].dst];
      AddEdge(vs, srcIdx, dstIdx, und, Renamed(data[..i], r));
      assert data[..i + 1][..i] == data[..i];
    }
    assert data[..|data|] == data;
    CountDegrees(vs);
  }

  /** The loaded graph is the file's graph under the new numbers: the numberings are
      inverse to each other, vertex `k` has the renumbered neighbours of `mapping[k]`, arcs
      keep their multiplicities, and out-degrees do not increase, vertices of equal
      degree keeping their order. */
  lemma LoadedIsIsomorphic(g: Graph, data: seq<Edge>, k: nat, l: nat)
    requires g.Valid(data) && k <= g.vertexNum && l <= g.vertexNum
    ensures var m, r := g.mapping, g.remap;
            && |m| == |r| == g.vertexNum + 1
            && 0 <= m[k] < |r| && 0 <= m[l] < |r| && r[m[k]] == k && 0 <= r[k] < |r| && m[r[k]] == k
            && (forall i :: 0 <= i < |OutList(data, g.isUgraph, m[k])| ==> 0 <= OutList(data, g.isUgraph, m[k])[i] < |r|)
            && (forall i :: 0 <= i < |InList(data, g.isUgraph, m[k])| ==> 0 <= InList(data, g.isUgraph, m[k])[i] < |r|)
            && g.vertices[k].outVid == Through(r, OutList(data, g.isUgraph, m[k]))
            && g.vertices[k].inVid == Through(r, InList(data, g.isUgraph, m[k]))
            && multiset(g.vertices[k].outVid)[l] == ArcCount(data, g.isUgraph, m[k], m[l])
            && multiset(g.vertices[l].inVid)[k] == ArcCount(data, g.isUgraph, m[k], m[l])
    ensures k <= l ==> g.vertices[k].outDeg >= g.vertices[l].outDeg
    ensures k < l && g.vertices[k].outDeg == g.vertices[l].outDeg ==> g.mapping[k] < g.mapping[l]
  {
    RenamedLists(data, g.isUgraph, g.mapping, g.remap, k);
    LoadedArcs(g, data, k, l);
    LoadedDegrees(g, data, k, l);
  }

  lemma LoadedArcs(g: Graph, data: seq<Edge>, k: nat, l: nat)
    requires g.Valid(data) && k <= g.vertexNum && l <= g.vertexNum
    ensures var arcs := ArcCount(data, g.isUgraph, g.mapping[k], g.mapping[l]);
            multiset(g.vertices[k].outVid)[l] == arcs == multiset(g.vertices[l].inVid)[k]
  {
    var m, r := g.mapping, g.remap;
    RenamedArcs(data, g.isUgraph, m, r, m[k], m[l]);
    ListsAreDual(Renamed(data, r), g.isUgraph, k, l);
  }

  lemma LoadedDegree(g: Graph, data: seq<Edge>, k: nat)
    requires g.Valid(data) && k <= g.vertexNum
    ensures g.vertices[k].outDeg == g.outDeg[g.mapping[k]]
  {
    RenamedLists(data, g.isUgraph, g.mapping, g.remap, k);
  }

  lemma LoadedDegrees(g: Graph, data: seq<Edge>, k: nat, l: nat)
    requires g.Valid(data) && k <= g.vertexNum && l <= g.vertexNum
    ensures k <= l ==> g.vertices[k].outDeg >= g.vertices[l].outDeg
    ensures k < l && g.vertices[k].outDeg == g.vertices[l].outDeg ==> g.mapping[k] < g.mapping[l]
  {
    LoadedDegree(g, data, k);
    LoadedDegree(g, data, l);
  }
}
