/** From an edge list through compressed rows to the accelerator's chunks. */
module Pipeline {
  import opened Rows
  import opened Sorting
  import opened Graphs
  import opened Csr
  import opened Compression
  import opened Partition
  import opened GraphInfos

  /** In the compressed rows of a graph every in-neighbour has an out-edge, so they are
      input that the partitioner conserves. */
  lemma CsrSourcesLive(c: CSR, data: seq<Edge>, und: bool)
    requires c.Holds(data, und)
    ensures var rows := InRows(data, und, c.vertexNum);
            GoodInput(rows, c.rpao) && Represents(c.rpai, c.ciai, rows) && SourcesLive(rows, c.rpao, c.vertexNum)
  {
    var n, rows := c.vertexNum, InRows(data, und, c.vertexNum);
    VertexCountBounds(data);
    forall v, k | 0 <= v < n && 0 <= k < |rows[v]| ensures 0 <= rows[v][k] < n && Live(c.rpao, rows[v][k]) {
      InNeighbour(data, und, n, v, k);
      LiveIsDegree(c, data, und, rows[v][k]);
    }
    forall v | 0 <= v < n && Live(c.rpao, v) ensures RowLive(rows, c.rpao, v) {
    }
  }

  lemma InNeighbour(data: seq<Edge>, und: bool, n: nat, v: nat, k: nat)
    requires Within(data, n) && v < n && k < |InRows(data, und, n)[v]|
    ensures var u := InRows(data, und, n)[v][k]; 0 <= u < n && |OutList(data, und, u)| > 0
  {
    var row, list := InRows(data, und, n)[v], InList(data, und, v);
    StableSortProps(Id, list);
    assert row[k] in multiset(row);
    assert row[k] in list;
    ListsWithin(data, und, n, v);
    ListsAreDual(data, und, row[k], v);
    assert v in multiset(OutList(data, und, row[k]));
  }

  lemma LiveIsDegree(c: CSR, data: seq<Edge>, und: bool, v: nat)
    requires c.Holds(data, und) && v < c.vertexNum
    ensures |c.rpao| == c.vertexNum + 1
    ensures Live(c.rpao, v) <==> |OutList(data, und, v)| > 0
  {
    RowOf(c.rpao, c.ciao, OutRows(data, und, c.vertexNum), v);
    RowLengths(data, und, c.vertexNum, v);
  }

  lemma {:induction false} EdgesIntoCount(row: seq<int>, w: int, u: int, v: int)
    ensures multiset(EdgesInto(row, w))[Record(u, v)] == if v == w then multiset(row)[u] else 0
  {
    if row != [] {
      var init, x := row[..|row| - 1], row[|row| - 1];
      EdgesIntoCount(init, w, u, v);
      assert row == init + [x];
      assert EdgesInto(row, w) == EdgesInto(init, w) + [Record(x, w)];
    }
  }

  lemma LiveEdgesNext(rows: seq<seq<int>>, rapo: seq<int>, n: nat)
    requires n < |rows| < |rapo|
    ensures multiset(LiveEdges(rows, rapo, n + 1))
         == multiset(LiveEdges(rows, rapo, n)) + multiset(if Live(rapo, n) then EdgesInto(rows[n], n) else [])
  {
  }

  lemma {:induction false} LiveEdgesCount(rows: seq<seq<int>>, rapo: seq<int>, n: nat, u: int, v: nat)
    requires n <= |rows| < |rapo|
    ensures multiset(LiveEdges(rows, rapo, n))[Record(u, v)] == if v < n && Live(rapo, v) then multiset(rows[v])[u] else 0
  {
    if n > 0 {
      var m := n - 1;
      LiveEdgesCount(rows, rapo, m, u, v);
      LiveEdgesNext(rows, rapo, m);
      EdgesIntoCount(rows[m], m, u, v);
      assert multiset(LiveEdges(rows, rapo, n))[Record(u, v)]
          == multiset(LiveEdges(rows, rapo, m))[Record(u, v)] + if Live(rapo, m) && v == m then multiset(rows[m])[u] else 0;
    }
  }

  /** The whole preparation keeps the graph: after compressing the rows of an edge list and
      partitioning them, the chunks hold, under the old numbers and apart from padding,
      the edge from `u` to `v` as often as the list has the arc if `v` has out-edges, and
      not at all otherwise. */
  lemma ChunksHoldTheGraph(info: GraphInfo, c: CSR, data: seq<Edge>, und: bool, u: nat, v: nat)
    requires c.Holds(data, und) && u < c.vertexNum && v < c.vertexNum
    requires info.Partitioned(InRows(data, und, c.vertexNum), c.rpao)
    ensures multiset(Restored(info.vertexMapping, Reals(Flatten(Flatten(Records(info.chunkEdgeData))))))[Record(u, v)]
         == if |OutList(data, und, v)| > 0 then ArcCount(data, und, u, v) else 0
  {
    var rows := InRows(data, und, c.vertexNum);
    CsrSourcesLive(c, data, und);
    PartitionerConserves(info, rows, c.rpao);
    LiveEdgesCount(rows, c.rpao, c.vertexNum, u, v);
    LiveIsDegree(c, data, und, v);
    StableSortProps(Id, InList(data, und, v));
    ListsAreDual(data, und, u, v);
  }

  /** The edges in the chunks, under the old numbers and without the padding. */
  ghost function Recovered(info: GraphInfo): multiset<Record>
    reads info, set p, i | 0 <= p < |info.chunkEdgeData| && 0 <= i < |info.chunkEdgeData[p]| :: info.chunkEdgeData[p][i]
  {
    multiset(Restored(info.vertexMapping, Reals(Flatten(Flatten(Records(info.chunkEdgeData))))))
  }

  /** The chunks hold every arc into a vertex with out-edges as often as the edge list has
      it, and no other. */
  ghost predicate HoldsTheGraph(info: GraphInfo, data: seq<Edge>, und: bool)
    reads info, set p, i | 0 <= p < |info.chunkEdgeData| && 0 <= i < |info.chunkEdgeData[p]| :: info.chunkEdgeData[p][i]
  {
    forall u: nat, v: nat :: u < VertexCount(data) && v < VertexCount(data) ==>
      Recovered(info)[Record(u, v)] == if |OutList(data, und, v)| > 0 then ArcCount(data, und, u, v) else 0
  }

  /** From the edge list to filled buffers, with one chunk to a partition.  Nothing is asked
      of the graph but that its vertices can be counted in 31 bits. */
  method Prepare(data: seq<Edge>, und: bool, size: nat, align: nat) returns (info: GraphInfo)
    requires data != [] && VertexCount(data) <= 0x7fff_ffff && size > 0 && align > 0
    ensures HoldsTheGraph(info, data, und)
  {
    var g := new Graph(data, und);
    var c := new CSR(g, data, und);
    info := Load(c, data, und, size, align);
    HoldsEveryArc(info, c, data, und);
  }

  /** Loading and partitioning the compressed rows of a graph. */
  method Load(c: CSR, ghost data: seq<Edge>, ghost und: bool, size: nat, align: nat) returns (info: GraphInfo)
    requires c.Holds(data, und) && VertexCount(data) <= 0x7fff_ffff && size > 0 && align > 0
    ensures fresh(info) && info.Partitioned(InRows(data, und, c.vertexNum), c.rpao)
  {
    ghost var rows := InRows(data, und, c.vertexNum);
    CsrSourcesLive(c, data, und);
    info := new GraphInfo(c.rpai, c.rpao, c.ciai, size, 1, align, rows);
    OneChunkIsSafe(info, rows, c.rpao);
    info.PartitionFunction(rows, c.rpao);
  }

  lemma HoldsEveryArc(info: GraphInfo, c: CSR, data: seq<Edge>, und: bool)
    requires c.Holds(data, und) && info.Partitioned(InRows(data, und, c.vertexNum), c.rpao)
    ensures HoldsTheGraph(info, data, und)
  {
    forall u: nat, v: nat | u < VertexCount(data) && v < VertexCount(data)
      ensures Recovered(info)[Record(u, v)] == if |OutList(data, und, v)| > 0 then ArcCount(data, und, u, v) else 0
    {
      ChunksHoldTheGraph(info, c, data, und, u, v);
    }
  }

  lemma OneChunkIsSafe(info: GraphInfo, rows: seq<seq<int>>, rapo: seq<int>)
    requires info.Loaded(rows, rapo) && info.subPartitionNum == 1
    ensures forall p :: 0 <= p < info.partitionNum ==>
              Safe(PartSize(CompressedRows(rows, rapo, |rows|), info.partitionSize, p), 1, info.alignSize)
  {
    forall p | 0 <= p < info.partitionNum
      ensures Safe(PartSize(CompressedRows(rows, rapo, |rows|), info.partitionSize, p), 1, info.alignSize)
    {
      SafeExamples(PartSize(CompressedRows(rows, rapo, |rows|), info.partitionSize, p), info.alignSize);
    }
  }
}
