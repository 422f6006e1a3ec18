/** Compressed rows of a symmetrised graph, renumbered by degree, without repeated
    neighbours. */
module Reorder {
  import opened Sorting
  import opened Graphs
  import opened Rows
  import opened Csr
  import opened Relabel

  /** Equal neighbours in a row of equal entries kept once. */
  function Unique(s: seq<int>): seq<int> {
    if |s| < 2 then s
    else
      var u, x := Unique(s[..|s| - 1]), s[|s| - 1];
      if x == s[|s| - 2] then u else u + [x]
  }

  ghost predicate Increasing(s: seq<int>) {
    forall i, j :: 0 <= i < j < |s| ==> s[i] < s[j]
  }

  lemma {:induction false} UniqueEntries(s: seq<int>, x: int)
    ensures x in Unique(s) <==> x in s
  {
    if |s| >= 2 {
      var init, y := s[..|s| - 1], s[|s| - 1];
      assert s == init + [y];
      UniqueEntries(init, x);
      assert s[|s| - 2] in init;
    }
  }

  lemma {:induction false} UniqueIncreases(s: seq<int>)
    requires SortedBy(Id, s)
    ensures Increasing(Unique(s))
    ensures s != [] ==> Unique(s) != [] && Unique(s)[|Unique(s)| - 1] == s[|s| - 1]
  {
    if |s| >= 2 {
      UniqueIncreases(s[..|s| - 1]);
      assert Id(s[|s| - 2]) <= Id(s[|s| - 1]);
    }
  }

  lemma UniqueProps(s: seq<int>)
    requires SortedBy(Id, s)
    ensures Increasing(Unique(s))
    ensures forall x :: x in Unique(s) <==> x in s
  {
    UniqueIncreases(s);
    forall x ensures x in Unique(s) <==> x in s {
      UniqueEntries(s, x);
    }
  }

  ghost predicate SameEntries(s: seq<int>, t: seq<int>) {
    forall x :: x in s <==> x in t
  }

  lemma EmptyTogether(s: seq<int>, t: seq<int>)
    requires SameEntries(s, t)
    ensures t != [] ==> s != []
  {
    if t != [] {
      var x := t[0];
      assert x in t;
      assert x in s;
    }
  }

  lemma LastTogether(s: seq<int>, t: seq<int>)
    requires Increasing(s) && Increasing(t) && s != [] && t != [] && SameEntries(s, t)
    ensures s[|s| - 1] == t[|t| - 1]
    ensures SameEntries(s[..|s| - 1], t[..|t| - 1])
  {
    var x, y := s[|s| - 1], t[|t| - 1];
    var s1, t1 := s[..|s| - 1], t[..|t| - 1];
    assert s == s1 + [x] && t == t1 + [y];
    assert x in s && y in t;
    assert x in t && y in s;
    assert x !in s1 && y !in t1;
    forall z ensures z in s1 <==> z in t1 {
      assert z in s <==> z in t;
    }
  }

  /** Increasing sequences with the same entries are the same. */
  lemma {:induction false} IncreasingDetermined(s: seq<int>, t: seq<int>)
    requires Increasing(s) && Increasing(t) && SameEntries(s, t)
    ensures s == t
  {
    EmptyTogether(s, t);
    EmptyTogether(t, s);
    if s != [] {
      LastTogether(s, t);
      IncreasingDetermined(s[..|s| - 1], t[..|t| - 1]);
      assert s == s[..|s| - 1] + [s[|s| - 1]] && t == t[..|t| - 1] + [t[|t| - 1]];
    }
  }

  /** A list sorted, without repetitions. */
  function Tidy(s: seq<int>): seq<int> {
    Unique(Sorted(s))
  }

  lemma TidyProps(s: seq<int>)
    ensures Increasing(Tidy(s)) && forall x :: x in Tidy(s) <==> x in s
  {
    StableSortProps(Id, s);
    UniqueProps(Sorted(s));
    forall x ensures x in Sorted(s) <==> x in s {
      assert x in Sorted(s) <==> x in multiset(Sorted(s));
    }
  }

  lemma TidyWithin(s: seq<int>, n: nat)
    requires forall i :: 0 <= i < |s| ==> 0 <= s[i] < n
    ensures forall i :: 0 <= i < |Tidy(s)| ==> 0 <= Tidy(s)[i] < n
  {
    TidyProps(s);
    forall i | 0 <= i < |Tidy(s)| ensures 0 <= Tidy(s)[i] < n {
      var x := Tidy(s)[i];
      assert x in Tidy(s);
      assert x in s;
    }
  }

  class Graph {
    const vertexNum: nat
    const edgeNum: nat
    const vertices: seq<Vertex>
    const outDeg: seq<int>
    const mapping: seq<int>
    const remap: seq<int>

    ghost predicate Valid(data: seq<Edge>)
      reads vertices
    {
      var n := VertexCount(data);
      && vertexNum == n == |vertices| && edgeNum == |data| && Within(data, n)
      && |outDeg| == n && (forall v :: 0 <= v < n ==> outDeg[v] == |OutList(data, true, v)|)
      && Inverse(mapping, remap, n) && ByDegree(mapping, outDeg)
      && Holds(vertices, data, true) && HasDegrees(vertices)
    }

    /** The graph is taken as undirected whatever the name of the file. */
    constructor (data: seq<Edge>)
      requires data != []
      ensures Valid(data) && fresh(vertices)
      ensures Counts(data, vertexNum) && edgeNum == |data|
    {
      CountsExactly(data, VertexCount(data));
      var maxIdx := MaxIndex(data);
      VertexCountBounds(data);
      var vs := BuildLists(data, maxIdx + 1, true);
      var degrees := OutDegrees(vs);
      var m, r := Renumber(degrees);
      vertexNum, edgeNum, vertices, outDeg, mapping, remap := maxIdx + 1, |data|, vs, degrees, m, r;
    }
  }

  // ----- the rows -----

  /** Row `i` on the out-side: the neighbours of the vertex in place `i`, tidied and
      renumbered. */
  function OutRow(data: seq<Edge>, m: seq<int>, r: seq<int>, i: nat): seq<int>
    requires Inverse(m, r, |r|) && Within(data, |r|) && i < |r|
  {
    OutTidy(data, |r|, m[i]);
    Through(r, Tidy(OutList(data, true, m[i])))
  }

  function InRow(data: seq<Edge>, m: seq<int>, r: seq<int>, i: nat): seq<int>
    requires Inverse(m, r, |r|) && Within(data, |r|) && i < |r|
  {
    OutTidy(data, |r|, m[i]);
    Through(r, Tidy(InList(data, true, m[i])))
  }

  lemma OutTidy(data: seq<Edge>, n: nat, v: nat)
    requires Within(data, n)
    ensures forall i :: 0 <= i < |Tidy(OutList(data, true, v))| ==> 0 <= Tidy(OutList(data, true, v))[i] < n
    ensures forall i :: 0 <= i < |Tidy(InList(data, true, v))| ==> 0 <= Tidy(InList(data, true, v))[i] < n
  {
    ListsWithin(data, true, n, v);
    TidyWithin(OutList(data, true, v), n);
    TidyWithin(InList(data, true, v), n);
  }

  ghost function OutRowsTo(data: seq<Edge>, m: seq<int>, r: seq<int>, k: nat): (rows: seq<seq<int>>)
    requires Inverse(m, r, |r|) && Within(data, |r|) && k <= |r|
    ensures |rows| == k && forall i :: 0 <= i < k ==> rows[i] == OutRow(data, m, r, i)
  {
    seq(k, i requires 0 <= i < k => OutRow(data, m, r, i))
  }

  ghost function InRowsTo(data: seq<Edge>, m: seq<int>, r: seq<int>, k: nat): (rows: seq<seq<int>>)
    requires Inverse(m, r, |r|) && Within(data, |r|) && k <= |r|
    ensures |rows| == k && forall i :: 0 <= i < k ==> rows[i] == InRow(data, m, r, i)
  {
    seq(k, i requires 0 <= i < k => InRow(data, m, r, i))
  }

  class CSR {
    const vertexNum: nat
    var edgeNum: nat
    var rpao: seq<int>
    var ciao: seq<int>
    var rpai: seq<int>
    var ciai: seq<int>

    ghost predicate Holds(data: seq<Edge>, m: seq<int>, r: seq<int>)
      reads this
    {
      && vertexNum == |r| == VertexCount(data) && Inverse(m, r, |r|) && Within(data, |r|)
      && Represents(rpao, ciao, OutRowsTo(data, m, r, |r|))
      && Represents(rpai, ciai, InRowsTo(data, m, r, |r|))
      && edgeNum == |ciao| + |ciai|
    }

    constructor (g: Graph, ghost data: seq<Edge>)
      requires g.Valid(data)
      modifies g.vertices
      ensures Holds(data, g.mapping, g.remap)
      ensures Counts(data, vertexNum) && |rpao| == |rpai| == vertexNum + 1 && edgeNum == |ciao| + |ciai|
    {
      CountsExactly(data, VertexCount(data));
      vertexNum := g.vertexNum;
      var po, co, pi, ci := FillRows(g, data, OutRowsTo(data, g.mapping, g.remap, g.vertexNum), InRowsTo(data, g.mapping, g.remap, g.vertexNum));
      rpao, ciao, rpai, ciai, edgeNum := po, co, pi, ci, |co| + |ci|;
    }
  }

  /** Both lists of a vertex tidied in place, and the entries they give. */
  method TidyLists(v: Vertex, remap: seq<int>) returns (outs: seq<int>, ins: seq<int>)
    requires forall i :: 0 <= i < |Tidy(v.outVid)| ==> 0 <= Tidy(v.outVid)[i] < |remap|
    requires forall i :: 0 <= i < |Tidy(v.inVid)| ==> 0 <= Tidy(v.inVid)[i] < |remap|
    modifies v
    ensures v.outVid == Tidy(old(v.outVid)) && v.inVid == Tidy(old(v.inVid))
    ensures outs == Through(remap, Tidy(old(v.outVid))) && ins == Through(remap, Tidy(old(v.inVid)))
  {
    v.outVid := Tidy(v.outVid);
    v.inVid := Tidy(v.inVid);
    outs, ins := Through(remap, v.outVid), Through(remap, v.inVid);
  }

  /** Vertices in the order of the new numbers: each is tidied in place and its lists are
      appended under the new numbers. */
  method FillRows(g: Graph, ghost data: seq<Edge>, ghost outRows: seq<seq<int>>, ghost inRows: seq<seq<int>>)
    returns (rpao: seq<int>, ciao: seq<int>, rpai: seq<int>, ciai: seq<int>)
    requires Inverse(g.mapping, g.remap, |g.vertices|) && Within(data, |g.vertices|) && Distinct(g.vertices) && Untouched(g, data, 0)
    requires AreRows(data, g.mapping, g.remap, outRows, inRows)
    modifies g.vertices
    ensures Represents(rpao, ciao, outRows) && Represents(rpai, ciai, inRows)
  {
    rpao, ciao, rpai, ciai := [0], [], [0], [];
    for i := 0 to |g.vertices|
      invariant Untouched(g, data, i)
      invariant Represents(rpao, ciao, outRows[..i]) && Represents(rpai, ciai, inRows[..i])
    {
      var outs, ins := FillRow(g, data, i);
      RepresentsNext(rpao, ciao, outRows, i);
      RepresentsNext(rpai, ciai, inRows, i);
      rpao, rpai := rpao + [rpao[i] + |outs|], rpai + [rpai[i] + |ins|];
      ciao, ciai := ciao + outs, ciai + ins;
    }
    assert outRows[..|outRows|] == outRows && inRows[..|inRows|] == inRows;
  }

  ghost predicate AreRows(data: seq<Edge>, m: seq<int>, r: seq<int>, outRows: seq<seq<int>>, inRows: seq<seq<int>>)
    requires Inverse(m, r, |r|) && Within(data, |r|)
  {
    && |outRows| == |inRows| == |r|
    && forall i :: 0 <= i < |r| ==> outRows[i] == OutRow(data, m, r, i) && inRows[i] == InRow(data, m, r, i)
  }

  /** The vertex in place `i`. */
  method FillRow(g: Graph, ghost data: seq<Edge>, i: nat) returns (outs: seq<int>, ins: seq<int>)
    requires Inverse(g.mapping, g.remap, |g.vertices|) && Within(data, |g.vertices|) && Distinct(g.vertices)
    requires i < |g.vertices| && Untouched(g, data, i)
    modifies g.vertices
    ensures Untouched(g, data, i + 1)
    ensures outs == OutRow(data, g.mapping, g.remap, i) && ins == InRow(data, g.mapping, g.remap, i)
  {
    var v := g.mapping[i];
    OutTidy(data, |g.remap|, v);
    outs, ins := TidyLists(g.vertices[v], g.remap);
  }

  /** The vertices from place `i` on still have their first lists. */
  ghost predicate Untouched(g: Graph, data: seq<Edge>, i: nat)
    requires Inverse(g.mapping, g.remap, |g.vertices|)
    reads g.vertices
  {
    forall v :: 0 <= v < |g.vertices| && g.remap[v] >= i ==>
      g.vertices[v].outVid == OutList(data, true, v) && g.vertices[v].inVid == InList(data, true, v)
  }

  // ----- what the rows mean -----

  /** Row `i` lists no vertex twice and lists exactly the new numbers of the neighbours of
      the vertex in place `i`. */
  lemma RowIsNeighbours(data: seq<Edge>, m: seq<int>, r: seq<int>, i: nat, j: nat)
    requires Inverse(m, r, |r|) && Within(data, |r|) && i < |r| && j < |r|
    ensures multiset(OutRow(data, m, r, i))[j] == if ArcCount(data, true, m[i], m[j]) > 0 then 1 else 0
  {
    var list, v := OutList(data, true, m[i]), m[j];
    OutTidy(data, |r|, m[i]);
    TidyProps(list);
    ListsAreDual(data, true, m[i], v);
    assert v in Tidy(list) <==> v in multiset(list);
    ThroughCount(r, m, Tidy(list), j);
  }

  /** The entries of row `i` come in the order of the old numbers. */
  lemma RowInOrder(data: seq<Edge>, m: seq<int>, r: seq<int>, i: nat)
    requires Inverse(m, r, |r|) && Within(data, |r|) && i < |r|
    ensures var row := OutRow(data, m, r, i);
            && (forall a :: 0 <= a < |row| ==> 0 <= row[a] < |m|)
            && (forall a, b :: 0 <= a < b < |row| ==> m[row[a]] < m[row[b]])
  {
    var list := OutList(data, true, m[i]);
    OutTidy(data, |r|, m[i]);
    TidyProps(list);
    var row := OutRow(data, m, r, i);
    forall a | 0 <= a < |row| ensures 0 <= row[a] < |m| && m[row[a]] == Tidy(list)[a] {
      assert row[a] == r[Tidy(list)[a]];
    }
  }

  lemma {:induction false} ThroughCount(r: seq<int>, m: seq<int>, s: seq<int>, j: nat)
    requires Inverse(m, r, |r|) && j < |r| && Increasing(s) && forall i :: 0 <= i < |s| ==> 0 <= s[i] < |r|
    ensures multiset(Through(r, s))[j] == if m[j] in s then 1 else 0
  {
    if s != [] {
      var init, x := s[..|s| - 1], s[|s| - 1];
      ThroughCount(r, m, init, j);
      assert s == init + [x];
      assert Through(r, s) == Through(r, init) + [r[x]];
      assert m[r[x]] == x && r[m[j]] == j;
    }
  }

  /** Symmetrising makes both sides of the compressed graph the same. */
  lemma SidesAgree(data: seq<Edge>, m: seq<int>, r: seq<int>, i: nat)
    requires Inverse(m, r, |r|) && Within(data, |r|) && i < |r|
    ensures OutRow(data, m, r, i) == InRow(data, m, r, i)
  {
    var outs, ins := OutList(data, true, m[i]), InList(data, true, m[i]);
    UndirectedLists(data, m[i]);
    TidyProps(outs);
    TidyProps(ins);
    forall x ensures x in outs <==> x in ins {
      assert x in outs <==> x in multiset(outs);
    }
    IncreasingDetermined(Tidy(outs), Tidy(ins));
  }

  /** In the compressed graph row `i` holds `j` once if the vertices in places `i` and `j`
      are joined, and not at all otherwise; both directions are the same arrays and the
      edge count is twice their length. */
  lemma CsrIsSymmetrised(c: CSR, data: seq<Edge>, m: seq<int>, r: seq<int>, i: nat, j: nat)
    requires c.Holds(data, m, r) && i < c.vertexNum && j < c.vertexNum
    ensures 0 <= c.rpao[i] <= c.rpao[i + 1] <= |c.ciao| && 0 <= c.rpao[j] <= c.rpao[j + 1] <= |c.ciao|
    ensures multiset(c.ciao[c.rpao[i]..c.rpao[i + 1]])[j]
         == (if ArcCount(data, true, m[i], m[j]) > 0 then 1 else 0)
         == multiset(c.ciao[c.rpao[j]..c.rpao[j + 1]])[i]
    ensures c.rpao == c.rpai && c.ciao == c.ciai && c.edgeNum == 2 * |c.ciao|
  {
    var rows, cols := OutRowsTo(data, m, r, |r|), InRowsTo(data, m, r, |r|);
    forall k | 0 <= k < |r| ensures rows[k] == cols[k] {
      SidesAgree(data, m, r, k);
    }
    assert rows == cols;
    RowOf(c.rpao, c.ciao, rows, i);
    RowOf(c.rpao, c.ciao, rows, j);
    RowIsNeighbours(data, m, r, i, j);
    RowIsNeighbours(data, m, r, j, i);
    ArcsBothWays(data, m[i], m[j]);
  }

  lemma {:induction false} ArcsBothWays(data: seq<Edge>, u: nat, v: nat)
    ensures ArcCount(data, true, u, v) == ArcCount(data, true, v, u)
  {
    if data != [] { ArcsBothWays(data[..|data| - 1], u, v); }
  }
}
