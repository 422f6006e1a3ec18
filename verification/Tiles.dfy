/** Tiles of compressed sparse rows. */
module Tiles {
  import opened Bits
  import opened Sorting
  import opened Graphs
  import opened Rows
  import opened Blocks
  import opened Csr

  /** The entries of a row from `lo` up to but not including `hi`, in order. */
  function Window(row: seq<int>, lo: int, hi: int): seq<int> {
    if row == [] then []
    else
      var w, x := Window(row[..|row| - 1], lo, hi), row[|row| - 1];
      if lo <= x < hi then w + [x] else w
  }

  /** The `k` rows from `first` on, restricted to a window of columns. */
  function Tile(rows: seq<seq<int>>, first: nat, k: nat, lo: int, hi: int): seq<seq<int>>
    requires k > 0 ==> first + k <= |rows|
  {
    if k == 0 then [] else Tile(rows, first, k - 1, lo, hi) + [Window(rows[first + k - 1], lo, hi)]
  }

  /** How many numbers there are from `first` up to `to`. */
  function Count(first: int, to: int): nat {
    if to > first then to - first else 0
  }

  class CSR_BLOCK {
    const cordx: nat
    const cordy: nat
    var vertexNum: int
    var edgeNum: int
    var srcStart: nat
    var srcEnd: int
    var sinkStart: int
    var sinkEnd: int
    var rpa: seq<int>
    var cia: seq<int>
    var eProps: seq<int>

    ghost predicate Holds(rows: seq<seq<int>>, size: nat)
      reads this
    {
      var n := |rows|;
      && srcStart == From(cordx, size) && srcEnd == To(cordx, size, n)
      && sinkStart == From(cordy, size) && sinkEnd == To(cordy, size, n)
      && vertexNum == srcEnd - srcStart
      && Represents(rpa, cia, Tile(rows, srcStart, Count(srcStart, srcEnd), sinkStart, sinkEnd))
      && edgeNum == |cia| && eProps == cia
    }

    /** The tile at block coordinates (`x`, `y`) for partitions of `size` vertices. */
    constructor (x: nat, y: nat, size: nat, csr: CSR, ghost data: seq<Edge>, ghost und: bool)
      requires csr.Holds(data, und)
      ensures cordx == x && cordy == y && Holds(OutRows(data, und, csr.vertexNum), size)
      ensures srcStart == x * size && srcEnd == if (x + 1) * size > csr.vertexNum then csr.vertexNum else (x + 1) * size
      ensures sinkStart == y * size && sinkEnd == if (y + 1) * size > csr.vertexNum then csr.vertexNum else (y + 1) * size
      ensures vertexNum == srcEnd - srcStart && edgeNum == |cia| && eProps == cia
    {
      cordx, cordy := x, y;
      var first, to := Bounds(x, size, csr.vertexNum);
      var lo, hi := Bounds(y, size, csr.vertexNum);
      var r, c, e := FillTile(csr.rpao, csr.ciao, first, to, lo, hi, OutRows(data, und, csr.vertexNum));
      srcStart, srcEnd, sinkStart, sinkEnd := first, to, lo, hi;
      vertexNum := to - first;
      rpa, cia, eProps, edgeNum := r, c, e, r[|r| - 1];
    }
  }

  /** The loop over the rows of a tile. */
  method FillTile(rpao: seq<int>, ciao: seq<int>, first: nat, to: int, lo: int, hi: int, ghost rows: seq<seq<int>>)
    returns (r: seq<int>, c: seq<int>, e: seq<int>)
    requires Represents(rpao, ciao, rows) && to <= |rows|
    ensures Represents(r, c, Tile(rows, first, Count(first, to), lo, hi))
    ensures e == c && |r| > 0 && r[|r| - 1] == |c|
  {
    ghost var tile: seq<seq<int>> := [];
    var blkStart := 0;
    r, c, e := [0], [], [];
    for j := 0 to Count(first, to)
      invariant tile == Tile(rows, first, j, lo, hi) && Represents(r, c, tile)
      invariant e == c && blkStart == |c| && r[|r| - 1] == |c|
    {
      var i := first + j;
      RowOf(rpao, ciao, rows, i);
      var blk := FilterRow(ciao, rpao[i], rpao[i + 1], lo, hi);
      AppendRow(r, c, tile, blk);
      tile := tile + [blk];
      c := c + blk;
      e := e + blk;
      blkStart := blkStart + |blk|;
      r := r + [blkStart];
    }
  }

  /** The inner loop of the tile: the neighbours of one row that fall in the window. */
  method FilterRow(ciao: seq<int>, start: nat, end: nat, lo: int, hi: int) returns (blk: seq<int>)
    requires start <= end <= |ciao|
    ensures blk == Window(ciao[start..end], lo, hi)
  {
    blk := [];
    var row := ciao[start..end];
    for j := 0 to end - start
      invariant blk == Window(row[..j], lo, hi)
    {
      var ngbVidx := ciao[start + j];
      assert row[..j + 1][..j] == row[..j];
      if ngbVidx >= lo && ngbVidx < hi {
        blk := blk + [ngbVidx];
      }
    }
    assert row[..end - start] == row;
  }

  // ----- the tiles make up the rows again -----

  lemma {:induction false} WindowEmpty(row: seq<int>, lo: int, hi: int)
    requires forall i :: 0 <= i < |row| ==> !(lo <= row[i] < hi)
    ensures Window(row, lo, hi) == []
  {
    if row != [] { WindowEmpty(row[..|row| - 1], lo, hi); }
  }

  lemma {:induction false} WindowAll(row: seq<int>, lo: int, hi: int)
    requires forall i :: 0 <= i < |row| ==> lo <= row[i] < hi
    ensures Window(row, lo, hi) == row
  {
    if row != [] { WindowAll(row[..|row| - 1], lo, hi); }
  }

  /** Adjacent windows of a sorted row are adjacent parts of it. */
  lemma {:induction false} WindowSplit(row: seq<int>, a: int, b: int, c: int)
    requires SortedBy(Id, row) && a <= b <= c
    ensures Window(row, a, c) == Window(row, a, b) + Window(row, b, c)
  {
    if row != [] {
      var init, x := row[..|row| - 1], row[|row| - 1];
      WindowSplit(init, a, b, c);
      if x < b {
        forall i | 0 <= i < |init| ensures init[i] < b { assert Id(row[i]) <= Id(x); }
        WindowEmpty(init, b, c);
      }
    }
  }

  /** A window holds exactly the entries in its range, as often as the row does. */
  lemma {:induction false} WindowCount(row: seq<int>, lo: int, hi: int, v: int)
    ensures multiset(Window(row, lo, hi))[v] == if lo <= v < hi then multiset(row)[v] else 0
  {
    if row != [] {
      var init, x := row[..|row| - 1], row[|row| - 1];
      assert row == init + [x];
      WindowCount(init, lo, hi, v);
    }
  }

  /** What the first `k` tiles hold of a row, one after the other. */
  function Pieces(row: seq<int>, size: nat, n: nat, k: nat): seq<int> {
    if k == 0 then [] else Pieces(row, size, n, k - 1) + Window(row, From(k - 1, size), To(k - 1, size, n))
  }

  lemma {:induction false} PiecesAreWindow(row: seq<int>, size: nat, n: nat, k: nat)
    requires SortedBy(Id, row) && (forall i :: 0 <= i < |row| ==> 0 <= row[i] < n)
    ensures Pieces(row, size, n, k) == Window(row, 0, Min(From(k, size), n))
  {
    if k == 0 {
      WindowEmpty(row, 0, 0);
    } else {
      PiecesAreWindow(row, size, n, k - 1);
      if From(k - 1, size) <= n {
        WindowSplit(row, 0, From(k - 1, size), To(k - 1, size, n));
      } else {
        WindowEmpty(row, From(k - 1, size), To(k - 1, size, n));
      }
    }
  }

  /** The tiles of a block row, side by side, give back each of its rows in order. */
  lemma RowRebuilt(row: seq<int>, size: nat, n: nat, k: nat)
    requires SortedBy(Id, row) && (forall i :: 0 <= i < |row| ==> 0 <= row[i] < n)
    requires From(k, size) >= n
    ensures Pieces(row, size, n, k) == row
  {
    PiecesAreWindow(row, size, n, k);
    WindowAll(row, 0, n);
  }

  /** The edges of the tile at (`x`, `y`), and of the first `k` tiles of block row `x`. */
  function TileEdges(rows: seq<seq<int>>, size: nat, x: nat, y: nat): nat {
    var n := |rows|;
    |Flatten(Tile(rows, From(x, size), Count(From(x, size), To(x, size, n)), From(y, size), To(y, size, n)))|
  }

  function BlockRowEdges(rows: seq<seq<int>>, size: nat, x: nat, k: nat): nat {
    if k == 0 then 0 else BlockRowEdges(rows, size, x, k - 1) + TileEdges(rows, size, x, k - 1)
  }

  function AllEdges(rows: seq<seq<int>>, size: nat, m: nat, k: nat): nat {
    if m == 0 then 0 else AllEdges(rows, size, m - 1, k) + BlockRowEdges(rows, size, m - 1, k)
  }

  /** The lengths of the pieces of `c` rows. */
  function SumPieces(rows: seq<seq<int>>, first: nat, c: nat, size: nat, k: nat): nat
    requires c > 0 ==> first + c <= |rows|
  {
    if c == 0 then 0 else SumPieces(rows, first, c - 1, size, k) + |Pieces(rows[first + c - 1], size, |rows|, k)|
  }

  lemma PiecesNext(row: seq<int>, size: nat, n: nat, k: nat)
    requires k > 0
    ensures |Pieces(row, size, n, k)| == |Pieces(row, size, n, k - 1)| + |Window(row, From(k - 1, size), To(k - 1, size, n))|
  {
  }

  lemma TileNext(rows: seq<seq<int>>, first: nat, c: nat, lo: int, hi: int)
    requires 0 < c && first + c <= |rows|
    ensures |Flatten(Tile(rows, first, c, lo, hi))|
         == |Flatten(Tile(rows, first, c - 1, lo, hi))| + |Window(rows[first + c - 1], lo, hi)|
  {
    FlattenAppend(Tile(rows, first, c - 1, lo, hi), Window(rows[first + c - 1], lo, hi));
  }

  lemma SumPiecesNext(rows: seq<seq<int>>, first: nat, c: nat, size: nat, k: nat)
    requires c > 0 && first + c <= |rows|
    ensures SumPieces(rows, first, c, size, k)
         == SumPieces(rows, first, c - 1, size, k) + |Pieces(rows[first + c - 1], size, |rows|, k)|
  {
  }

  lemma {:induction false} SumPiecesStep(rows: seq<seq<int>>, first: nat, c: nat, size: nat, k: nat, lo: int, hi: int)
    requires k > 0 && (c > 0 ==> first + c <= |rows|)
    requires lo == From(k - 1, size) && hi == To(k - 1, size, |rows|)
    ensures SumPieces(rows, first, c, size, k)
         == SumPieces(rows, first, c, size, k - 1) + |Flatten(Tile(rows, first, c, lo, hi))|
  {
    if c > 0 {
      SumPiecesStep(rows, first, c - 1, size, k, lo, hi);
      SumPiecesNext(rows, first, c, size, k);
      SumPiecesNext(rows, first, c, size, k - 1);
      PiecesNext(rows[first + c - 1], size, |rows|, k);
      TileNext(rows, first, c, lo, hi);
    }
  }

  lemma {:induction false} SumPiecesZero(rows: seq<seq<int>>, first: nat, c: nat, size: nat)
    requires c > 0 ==> first + c <= |rows|
    ensures SumPieces(rows, first, c, size, 0) == 0
  {
    if c > 0 { SumPiecesZero(rows, first, c - 1, size); }
  }

  lemma {:induction false} BlockRowIsPieces(rows: seq<seq<int>>, size: nat, x: nat, k: nat)
    ensures BlockRowEdges(rows, size, x, k)
         == SumPieces(rows, From(x, size), Count(From(x, size), To(x, size, |rows|)), size, k)
  {
    var first, c := From(x, size), Count(From(x, size), To(x, size, |rows|));
    if k == 0 {
      SumPiecesZero(rows, first, c, size);
    } else {
      BlockRowIsPieces(rows, size, x, k - 1);
      SumPiecesStep(rows, first, c, size, k, From(k - 1, size), To(k - 1, size, |rows|));
    }
  }

  lemma {:induction false} SumPiecesComplete(rows: seq<seq<int>>, first: nat, c: nat, size: nat, k: nat)
    requires first + c <= |rows| && GoodRows(rows) && From(k, size) >= |rows|
    ensures SumPieces(rows, first, c, size, k) == Start(rows, first + c) - Start(rows, first)
  {
    if c > 0 {
      SumPiecesComplete(rows, first, c - 1, size, k);
      RowRebuilt(rows[first + c - 1], size, |rows|, k);
    }
  }

  /** How many vertices come before block `c`. */
  function Before(c: nat, size: nat, n: nat): nat {
    Min(From(c, size), n)
  }

  lemma BlockRowHolds(rows: seq<seq<int>>, size: nat, x: nat, k: nat)
    requires GoodRows(rows) && From(k, size) >= |rows|
    ensures BlockRowEdges(rows, size, x, k) == Start(rows, Before(x + 1, size, |rows|)) - Start(rows, Before(x, size, |rows|))
  {
    BlockRowIsPieces(rows, size, x, k);
    BlockSpan(x, size, |rows|);
    var first, c := From(x, size), Count(From(x, size), To(x, size, |rows|));
    if c > 0 {
      SumPiecesComplete(rows, first, c, size, k);
    }
  }

  /** The rows of a block are those between two marks. */
  lemma BlockSpan(x: nat, size: nat, n: nat)
    ensures var first, c := From(x, size), Count(From(x, size), To(x, size, n));
            && Before(x + 1, size, n) == Before(x, size, n) + c
            && (c > 0 ==> first == Before(x, size, n))
  {
  }

  /** Every edge is in exactly one tile: the tiles together hold as many edges as the
      rows. */
  lemma {:induction false} TilesHoldAllEdges(rows: seq<seq<int>>, size: nat, m: nat, k: nat)
    requires GoodRows(rows) && From(k, size) >= |rows|
    ensures AllEdges(rows, size, m, k) == Start(rows, Before(m, size, |rows|))
  {
    if m > 0 {
      TilesHoldAllEdges(rows, size, m - 1, k);
      BlockRowHolds(rows, size, m - 1, k);
    } else {
      assert From(m, size) == 0;
    }
  }

  // ----- what the blocks hold -----

  /** Row `i` of a tile is the window of the row it comes from. */
  lemma {:induction false} TileRow(rows: seq<seq<int>>, first: nat, k: nat, lo: int, hi: int, i: nat)
    requires first + k <= |rows| && i < k
    ensures |Tile(rows, first, k, lo, hi)| == k
    ensures Tile(rows, first, k, lo, hi)[i] == Window(rows[first + i], lo, hi)
  {
    TileLength(rows, first, k - 1, lo, hi);
    if i < k - 1 {
      TileRow(rows, first, k - 1, lo, hi, i);
    }
  }

  lemma {:induction false} TileLength(rows: seq<seq<int>>, first: nat, k: nat, lo: int, hi: int)
    requires k > 0 ==> first + k <= |rows|
    ensures |Tile(rows, first, k, lo, hi)| == k
  {
    if k > 0 { TileLength(rows, first, k - 1, lo, hi); }
  }

  /** Reading row `u` through the pointers of a block gives the row's window on the
      block's columns. */
  lemma RowOfBlock(b: CSR_BLOCK, rows: seq<seq<int>>, size: nat, u: nat)
    requires b.Holds(rows, size) && b.srcStart <= u < b.srcEnd
    ensures var i := u - b.srcStart;
            && i + 1 < |b.rpa| && u < |rows| && 0 <= b.rpa[i] <= b.rpa[i + 1] <= |b.cia|
            && b.cia[b.rpa[i]..b.rpa[i + 1]] == Window(rows[u], b.sinkStart, b.sinkEnd)
  {
    var i, k := u - b.srcStart, Count(b.srcStart, b.srcEnd);
    TileRow(rows, b.srcStart, k, b.sinkStart, b.sinkEnd, i);
    RowOf(b.rpa, b.cia, Tile(rows, b.srcStart, k, b.sinkStart, b.sinkEnd), i);
  }

  /** What block `b` holds of row `u`. */
  ghost function RowIn(b: CSR_BLOCK, rows: seq<seq<int>>, size: nat, u: nat): (r: seq<int>)
    requires b.Holds(rows, size) && b.srcStart <= u < b.srcEnd
    reads b
    ensures u < |rows| && r == Window(rows[u], b.sinkStart, b.sinkEnd)
  {
    RowOfBlock(b, rows, size, u);
    b.cia[b.rpa[u - b.srcStart]..b.rpa[u - b.srcStart + 1]]
  }

  /** The blocks of block row `x`, from the first column on. */
  ghost predicate BlockRow(bs: seq<CSR_BLOCK>, x: nat, rows: seq<seq<int>>, size: nat)
    reads bs
  {
    forall y :: 0 <= y < |bs| ==> bs[y].cordx == x && bs[y].cordy == y && bs[y].Holds(rows, size)
  }

  /** What blocks hold of row `u`, side by side. */
  ghost function SideBySide(bs: seq<CSR_BLOCK>, x: nat, rows: seq<seq<int>>, size: nat, u: nat): seq<int>
    requires BlockRow(bs, x, rows, size) && From(x, size) <= u < To(x, size, |rows|)
    reads bs
  {
    if bs == [] then []
    else SideBySide(bs[..|bs| - 1], x, rows, size, u) + RowIn(bs[|bs| - 1], rows, size, u)
  }

  lemma {:induction false} SideBySideIsPieces(bs: seq<CSR_BLOCK>, x: nat, rows: seq<seq<int>>, size: nat, u: nat)
    requires BlockRow(bs, x, rows, size) && From(x, size) <= u < To(x, size, |rows|)
    ensures SideBySide(bs, x, rows, size, u) == Pieces(rows[u], size, |rows|, |bs|)
  {
    if bs != [] {
      SideBySideIsPieces(bs[..|bs| - 1], x, rows, size, u);
      RowOfBlock(bs[|bs| - 1], rows, size, u);
    }
  }

  /** The blocks of a block row, read through their own pointers and put side by side,
      give back each row of the compressed graph in order. */
  lemma BlocksGiveRow(csr: CSR, data: seq<Edge>, und: bool, size: nat, bs: seq<CSR_BLOCK>, x: nat, u: nat)
    requires csr.Holds(data, und) && BlockRow(bs, x, OutRows(data, und, csr.vertexNum), size)
    requires From(|bs|, size) >= csr.vertexNum && From(x, size) <= u < To(x, size, csr.vertexNum)
    ensures 0 <= csr.rpao[u] <= csr.rpao[u + 1] <= |csr.ciao|
    ensures SideBySide(bs, x, OutRows(data, und, csr.vertexNum), size, u) == csr.ciao[csr.rpao[u]..csr.rpao[u + 1]]
  {
    var n, rows := csr.vertexNum, OutRows(data, und, csr.vertexNum);
    VertexCountBounds(data);
    OutRowsGood(data, und, n);
    RowOf(csr.rpao, csr.ciao, rows, u);
    SideBySideIsPieces(bs, x, rows, size, u);
    RowRebuilt(rows[u], size, n, |bs|);
  }

  // ----- edge counts -----

  ghost function EdgesOfRow(bs: seq<CSR_BLOCK>): int
    reads bs
  {
    if bs == [] then 0 else EdgesOfRow(bs[..|bs| - 1]) + bs[|bs| - 1].edgeNum
  }

  ghost function EdgesOfGrid(grid: seq<seq<CSR_BLOCK>>): int
    reads set x, y | 0 <= x < |grid| && 0 <= y < |grid[x]| :: grid[x][y]
  {
    if grid == [] then 0 else EdgesOfGrid(grid[..|grid| - 1]) + EdgesOfRow(grid[|grid| - 1])
  }

  /** Rows of `k` blocks each. */
  ghost predicate Grid(grid: seq<seq<CSR_BLOCK>>, k: nat, rows: seq<seq<int>>, size: nat)
    reads set x, y | 0 <= x < |grid| && 0 <= y < |grid[x]| :: grid[x][y]
  {
    forall x :: 0 <= x < |grid| ==> |grid[x]| == k && BlockRow(grid[x], x, rows, size)
  }

  lemma {:induction false} RowEdges(bs: seq<CSR_BLOCK>, x: nat, rows: seq<seq<int>>, size: nat)
    requires BlockRow(bs, x, rows, size)
    ensures EdgesOfRow(bs) == BlockRowEdges(rows, size, x, |bs|)
  {
    if bs != [] { RowEdges(bs[..|bs| - 1], x, rows, size); }
  }

  lemma {:induction false} GridEdges(grid: seq<seq<CSR_BLOCK>>, k: nat, rows: seq<seq<int>>, size: nat)
    requires Grid(grid, k, rows, size)
    ensures EdgesOfGrid(grid) == AllEdges(rows, size, |grid|, k)
  {
    if grid != [] {
      var m := |grid| - 1;
      GridEdges(grid[..m], k, rows, size);
      RowEdges(grid[m], m, rows, size);
    }
  }

  /** The edge counts of all blocks add up to the last row pointer. */
  lemma BlocksHoldAllEdges(csr: CSR, data: seq<Edge>, und: bool, size: nat, grid: seq<seq<CSR_BLOCK>>, k: nat)
    requires csr.Holds(data, und) && Grid(grid, k, OutRows(data, und, csr.vertexNum), size)
    requires From(|grid|, size) >= csr.vertexNum && From(k, size) >= csr.vertexNum
    ensures |csr.rpao| == csr.vertexNum + 1 && EdgesOfGrid(grid) == csr.rpao[csr.vertexNum]
  {
    var n, rows := csr.vertexNum, OutRows(data, und, csr.vertexNum);
    VertexCountBounds(data);
    OutRowsGood(data, und, n);
    GridEdges(grid, k, rows, size);
    TilesHoldAllEdges(rows, size, |grid|, k);
  }

  lemma IsQuotient(v: nat, d: nat, q: nat)
    requires d > 0
    ensures q * d <= v < q * d + d <==> q == v / d
  {
    if q * d <= v < q * d + d { DivModIs(v, d, q, v - q * d); }
  }

  /** Every vertex lies in exactly one block of columns. */
  lemma OneBlock(v: nat, size: nat, n: nat, y: nat)
    requires v < n && size > 0
    ensures From(y, size) <= v < To(y, size, n) <==> y == v / size
  {
    FromIs(y, size);
    IsQuotient(v, size, y);
  }

  lemma WindowArcs(data: seq<Edge>, und: bool, lo: int, hi: int, u: nat, v: nat)
    ensures multiset(Window(Sorted(OutList(data, und, u)), lo, hi))[v] == if lo <= v < hi then ArcCount(data, und, u, v) else 0
  {
    WindowCount(Sorted(OutList(data, und, u)), lo, hi, v);
    StableSortProps(Id, OutList(data, und, u));
    ListsAreDual(data, und, u, v);
  }

  /** Every arc from `u` to `v` is in exactly one block of the block row of `u`, that of
      column block `v / size`, and there as often as in the graph. */
  lemma ArcInOneBlock(csr: CSR, data: seq<Edge>, und: bool, size: nat, b: CSR_BLOCK, u: nat, v: nat)
    requires csr.Holds(data, und) && b.Holds(OutRows(data, und, csr.vertexNum), size) && size > 0
    requires b.srcStart <= u < b.srcEnd && v < csr.vertexNum
    ensures multiset(RowIn(b, OutRows(data, und, csr.vertexNum), size, u))[v]
         == if b.cordy == v / size then ArcCount(data, und, u, v) else 0
  {
    var row := RowIn(b, OutRows(data, und, csr.vertexNum), size, u);
    WindowArcs(data, und, b.sinkStart, b.sinkEnd, u, v);
    OneBlock(v, size, csr.vertexNum, b.cordy);
  }
}
