/** Compressed sparse rows. */
module Csr {
  import opened Sorting
  import opened Graphs
  import opened Rows

  // ----- the rows of a graph -----

  function Id(x: int): int { x }

  /** A neighbour list in increasing order. */
  function Sorted(s: seq<int>): seq<int> {
    StableSort(Id, s)
  }

  function OutRows(data: seq<Edge>, und: bool, n: nat): (rows: seq<seq<int>>)
    ensures |rows| == n && forall i :: 0 <= i < n ==> rows[i] == Sorted(OutList(data, und, i))
  {
    seq(n, i requires 0 <= i < n => Sorted(OutList(data, und, i)))
  }

  function InRows(data: seq<Edge>, und: bool, n: nat): (rows: seq<seq<int>>)
    ensures |rows| == n && forall i :: 0 <= i < n ==> rows[i] == Sorted(InList(data, und, i))
  {
    seq(n, i requires 0 <= i < n => Sorted(InList(data, und, i)))
  }

  class Graph {
    const vertexNum: nat
    const edgeNum: nat
    const vertices: seq<Vertex>

    ghost predicate Valid(data: seq<Edge>, und: bool)
      reads vertices
    {
      && vertexNum == |vertices| == VertexCount(data) && edgeNum == |data|
      && Holds(vertices, data, und) && HasDegrees(vertices)
    }

    /** The graph is undirected when the file name says so. */
    constructor (data: seq<Edge>, und: bool)
      requires data != []
      ensures Valid(data, und) && fresh(vertices)
      ensures Counts(data, vertexNum) && edgeNum == |data|
    {
      CountsExactly(data, VertexCount(data));
      var maxIdx := MaxIndex(data);
      VertexCountBounds(data);
      var vs := BuildLists(data, maxIdx + 1, und);
      vertexNum, edgeNum, vertices := maxIdx + 1, |data|, vs;
    }
  }

  class CSR {
    const vertexNum: nat
    const edgeNum: nat
    var rpao: seq<int>
    var ciao: seq<int>
    var rpai: seq<int>
    var ciai: seq<int>

    ghost predicate Holds(data: seq<Edge>, und: bool)
      reads this
    {
      && vertexNum == VertexCount(data) && edgeNum == |data|
      && Represents(rpao, ciao, OutRows(data, und, vertexNum))
      && Represents(rpai, ciai, InRows(data, und, vertexNum))
    }

    /** The row pointers come from the degrees; the neighbour lists are sorted in place
        and appended. */
    constructor (g: Graph, ghost data: seq<Edge>, ghost und: bool)
      requires g.Valid(data, und)
      modifies g.vertices
      ensures Holds(data, und)
      ensures Counts(data, vertexNum) && edgeNum == |data| && |rpao| == |rpai| == vertexNum + 1
    {
      CountsExactly(data, VertexCount(data));
      vertexNum, edgeNum := g.vertexNum, g.edgeNum;
      var po, pi := RowPointers(g, data, und);
      var co, ci := Columns(g, data, und, OutRows(data, und, g.vertexNum), InRows(data, und, g.vertexNum));
      rpao, ciao, rpai, ciai := po, co, pi, ci;
    }
  }

  /** The vertices from `i` on still have their first lists. */
  ghost predicate Unsorted(g: Graph, data: seq<Edge>, und: bool, i: nat)
    reads g.vertices
  {
    forall v :: i <= v < |g.vertices| ==>
      g.vertices[v].outVid == OutList(data, und, v) && g.vertices[v].inVid == InList(data, und, v)
  }

  /** The lists of vertex `i`, sorted in place. */
  method SortLists(g: Graph, ghost data: seq<Edge>, ghost und: bool, i: nat) returns (outs: seq<int>, ins: seq<int>)
    requires Distinct(g.vertices) && i < |g.vertices| && Unsorted(g, data, und, i)
    modifies g.vertices
    ensures Unsorted(g, data, und, i + 1)
    ensures outs == Sorted(OutList(data, und, i)) && ins == Sorted(InList(data, und, i))
  {
    var vertex := g.vertices[i];
    vertex.outVid := Sorted(vertex.outVid);
    vertex.inVid := Sorted(vertex.inVid);
    outs, ins := vertex.outVid, vertex.inVid;
  }

  method Columns(g: Graph, ghost data: seq<Edge>, ghost und: bool, ghost outRows: seq<seq<int>>, ghost inRows: seq<seq<int>>)
    returns (ciao: seq<int>, ciai: seq<int>)
    requires Distinct(g.vertices) && Unsorted(g, data, und, 0) && |g.vertices| == g.vertexNum == |outRows| == |inRows|
    requires forall i :: 0 <= i < g.vertexNum ==> outRows[i] == Sorted(OutList(data, und, i)) && inRows[i] == Sorted(InList(data, und, i))
    modifies g.vertices
    ensures ciao == Flatten(outRows) && ciai == Flatten(inRows)
  {
    ciao, ciai := [], [];
    for i := 0 to g.vertexNum
      invariant Unsorted(g, data, und, i)
      invariant ciao == Flatten(outRows[..i]) && ciai == Flatten(inRows[..i])
    {
      FlattenNext(outRows, i);
      FlattenNext(inRows, i);
      var outs, ins := SortLists(g, data, und, i);
      ciao, ciai := ciao + outs, ciai + ins;
    }
    assert outRows[..g.vertexNum] == outRows && inRows[..g.vertexNum] == inRows;
  }

  lemma RowLengths(data: seq<Edge>, und: bool, n: nat, i: nat)
    requires i < n
    ensures |OutRows(data, und, n)[i]| == |OutList(data, und, i)|
    ensures |InRows(data, und, n)[i]| == |InList(data, und, i)|
  {
    StableSortProps(Id, OutList(data, und, i));
    StableSortProps(Id, InList(data, und, i));
  }

  method RowPointers(g: Graph, ghost data: seq<Edge>, ghost und: bool) returns (rpao: seq<int>, rpai: seq<int>)
    requires g.Valid(data, und)
    ensures PointsTo(rpao, OutRows(data, und, g.vertexNum), g.vertexNum)
    ensures PointsTo(rpai, InRows(data, und, g.vertexNum), g.vertexNum)
  {
    ghost var outs, ins := OutRows(data, und, g.vertexNum), InRows(data, und, g.vertexNum);
    rpao, rpai := [0], [0];
    for i := 0 to g.vertexNum
      invariant PointsTo(rpao, outs, i) && PointsTo(rpai, ins, i)
    {
      RowLengths(data, und, g.vertexNum, i);
      PointsToNext(rpao, outs, i, g.vertices[i].outDeg);
      PointsToNext(rpai, ins, i, g.vertices[i].inDeg);
      rpao := rpao + [rpao[i] + g.vertices[i].outDeg];
      rpai := rpai + [rpai[i] + g.vertices[i].inDeg];
    }
  }

  // ----- what the rows mean -----

  /** The number of arcs a list of lines stands for. */
  function Arcs(data: seq<Edge>, und: bool): nat {
    if data == [] then 0
    else
      var e := data[|data| - 1];
      Arcs(data[..|data| - 1], und) + if und && e.src != e.dst then 2 else 1
  }

  function SumOut(data: seq<Edge>, und: bool, n: nat): nat {
    if n == 0 then 0 else SumOut(data, und, n - 1) + |OutList(data, und, n - 1)|
  }

  function SumIn(data: seq<Edge>, und: bool, n: nat): nat {
    if n == 0 then 0 else SumIn(data, und, n - 1) + |InList(data, und, n - 1)|
  }

  lemma {:induction false} SumsStep(data: seq<Edge>, und: bool, n: nat)
    requires data != []
    ensures var e, d := data[|data| - 1], data[..|data| - 1];
            var s, t := if e.src < n then 1 else 0, if e.dst < n then 1 else 0;
            var both := und && e.src != e.dst;
            && SumOut(data, und, n) == SumOut(d, und, n) + s + (if both then t else 0)
            && SumIn(data, und, n) == SumIn(d, und, n) + t + (if both then s else 0)
  {
    if n > 0 { SumsStep(data, und, n - 1); }
  }

  lemma {:induction false} SumsAreArcs(data: seq<Edge>, und: bool, n: nat)
    requires Within(data, n)
    ensures SumOut(data, und, n) == Arcs(data, und) == SumIn(data, und, n)
  {
    if data == [] {
      EmptySums(und, n);
    } else {
      SumsStep(data, und, n);
      SumsAreArcs(data[..|data| - 1], und, n);
    }
  }

  lemma {:induction false} EmptySums(und: bool, n: nat)
    ensures SumOut([], und, n) == 0 == SumIn([], und, n)
  {
    if n > 0 { EmptySums(und, n - 1); }
  }

  lemma {:induction false} StartsAreSums(data: seq<Edge>, und: bool, n: nat, i: nat)
    requires i <= n
    ensures Start(OutRows(data, und, n), i) == SumOut(data, und, i)
    ensures Start(InRows(data, und, n), i) == SumIn(data, und, i)
  {
    if i > 0 {
      StartsAreSums(data, und, n, i - 1);
      RowLengths(data, und, n, i - 1);
    }
  }

  lemma SortedIncreases(s: seq<int>)
    ensures forall i, j :: 0 <= i < j < |Sorted(s)| ==> Sorted(s)[i] <= Sorted(s)[j]
    ensures multiset(Sorted(s)) == multiset(s)
  {
    StableSortProps(Id, s);
    forall i, j | 0 <= i < j < |Sorted(s)| ensures Sorted(s)[i] <= Sorted(s)[j] {
      assert Id(Sorted(s)[i]) <= Id(Sorted(s)[j]);
    }
  }

  /** Every line is an arc, and in an undirected graph every line but a loop is another. */
  lemma {:induction false} ArcsAre(data: seq<Edge>, und: bool)
    ensures Arcs(data, und) == |data| + if und then |NoLoops(data)| else 0
  {
    if data != [] {
      var n := |data| - 1;
      ArcsAre(data[..n], und);
      assert NoLoops(data) == NoLoops(data[..n]) + if data[n].src != data[n].dst then {n} else {};
      assert n !in NoLoops(data[..n]);
    } else {
      assert NoLoops(data) == {};
    }
  }

  function NoLoops(data: seq<Edge>): set<nat> {
    set i: nat | 0 <= i < |data| && data[i].src != data[i].dst
  }

  /** Compressed rows describe the graph, the same one in both directions: row `u` of the
      out-side and row `v` of the in-side list the arcs from `u` to `v` equally often,
      each row is sorted, and both sides hold every arc once. */
  lemma CsrIsTheGraph(c: CSR, data: seq<Edge>, und: bool, u: nat, v: nat)
    requires c.Holds(data, und) && u < c.vertexNum && v < c.vertexNum
    ensures 0 <= c.rpao[u] <= c.rpao[u + 1] <= |c.ciao| && 0 <= c.rpai[v] <= c.rpai[v + 1] <= |c.ciai|
    ensures var row, col := c.ciao[c.rpao[u]..c.rpao[u + 1]], c.ciai[c.rpai[v]..c.rpai[v + 1]];
            && multiset(row)[v] == ArcCount(data, und, u, v) == multiset(col)[u]
            && (forall i, j :: 0 <= i < j < |row| ==> row[i] <= row[j])
            && (forall i, j :: 0 <= i < j < |col| ==> col[i] <= col[j])
            && multiset(row) == multiset(OutList(data, und, u)) && multiset(col) == multiset(InList(data, und, v))
    ensures |c.rpao| == |c.rpai| == c.vertexNum + 1 && c.rpao[0] == c.rpai[0] == 0
    ensures c.rpao[c.vertexNum] == |c.ciao| == Arcs(data, und) == |c.ciai| == c.rpai[c.vertexNum]
  {
    var n := c.vertexNum;
    RowOf(c.rpao, c.ciao, OutRows(data, und, n), u);
    RowOf(c.rpai, c.ciai, InRows(data, und, n), v);
    SortedIncreases(OutList(data, und, u));
    SortedIncreases(InList(data, und, v));
    ListsAreDual(data, und, u, v);
    VertexCountBounds(data);
    SumsAreArcs(data, und, n);
    StartsAreSums(data, und, n, n);
  }

  /** Sorted rows of vertices. */
  ghost predicate GoodRows(rows: seq<seq<int>>) {
    forall i :: 0 <= i < |rows| ==> SortedBy(Id, rows[i]) && (forall j :: 0 <= j < |rows[i]| ==> 0 <= rows[i][j] < |rows|)
  }

  /** The rows of a graph are sorted and within the vertices. */
  lemma OutRowsGood(data: seq<Edge>, und: bool, n: nat)
    requires Within(data, n)
    ensures GoodRows(OutRows(data, und, n))
  {
    var rows := OutRows(data, und, n);
    forall i | 0 <= i < n
      ensures SortedBy(Id, rows[i]) && (forall j :: 0 <= j < |rows[i]| ==> 0 <= rows[i][j] < n)
    {
      StableSortProps(Id, OutList(data, und, i));
      ListsWithin(data, und, n, i);
      forall j | 0 <= j < |rows[i]| ensures 0 <= rows[i][j] < n {
        assert rows[i][j] in multiset(rows[i]);
        assert rows[i][j] in OutList(data, und, i);
      }
    }
  }
}
