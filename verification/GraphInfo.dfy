/** The loader and the partitioner of the accelerator's host program. */
module GraphInfos {
  import opened Bits
  import opened Rows
  import opened Blocks
  import opened Sorting
  import opened Compression
  import opened Partition

  datatype ChunkProp = ChunkProp(edgeNumChunk: nat, destVertexNumChunk: nat, srcVertexNumChunk: int)

  /** The chunk buffers hold two words for each record. */
  ghost predicate Sized(props: seq<ChunkProp>, data: seq<array<int>>, subs: nat, c: nat) {
    && |props| == |data| == subs
    && forall sp :: 0 <= sp < subs ==> props[sp].edgeNumChunk == c && data[sp].Length == 2 * c
  }

  /** The chunks of every partition have the size its edges need. */
  ghost predicate AllSized(props: seq<seq<ChunkProp>>, data: seq<seq<array<int>>>, rows: seq<seq<Record>>, size: nat, subs: nat, align: nat)
    requires subs > 0 && align > 0
  {
    && |props| == |data|
    && forall p :: 0 <= p < |data| ==>
         From(p, size) <= To(p, size, |rows|) && Sized(props[p], data[p], subs, ChunkSize(PartSize(rows, size, p), subs, align))
  }

  /** The vertices of a partition, rounded up. */
  ghost predicate Covered(props: seq<ChunkProp>, size: nat, n: nat, p: nat) {
    && From(p, size) <= To(p, size, n)
    && forall sp :: 0 <= sp < |props| ==> props[sp].destVertexNumChunk == RoundUp(To(p, size, n) - From(p, size), 1024)
  }

  /** No two buffers are the same. */
  ghost predicate Separate(data: seq<seq<array<int>>>) {
    && (forall p :: 0 <= p < |data| ==> Different(data[p]))
    && forall p, q :: 0 <= p < q < |data| ==> Disjoint(data[p], data[q])
  }

  ghost predicate Disjoint(s: seq<array<int>>, t: seq<array<int>>) {
    forall i, j :: 0 <= i < |s| && 0 <= j < |t| ==> s[i] != t[j]
  }

  ghost predicate Different(s: seq<array<int>>) {
    forall i, j :: 0 <= i < j < |s| ==> s[i] != s[j]
  }

  /** The records in a buffer of words. */
  ghost function Decode(words: seq<int>): (r: seq<Record>)
    ensures |r| == |words| / 2
  {
    seq(|words| / 2, i requires 0 <= i < |words| / 2 => Record(words[2 * i], words[2 * i + 1]))
  }

  // ----- filling -----

  /** The edges of one partition, put into a multimap one after the other. */
  method FillMultimap(cia: seq<int>, dests: seq<int>, lo: nat, hi: nat) returns (edges: seq<Record>)
    requires |cia| == |dests| && lo <= hi <= |cia|
    ensures edges == StableSort(BySource, Zip(cia, dests)[lo..hi])
  {
    edges := [];
    ghost var part := Zip(cia, dests)[lo..hi];
    for i := 0 to hi - lo
      invariant edges == StableSort(BySource, part[..i])
    {
      assert part[i] == Record(cia[lo + i], dests[lo + i]) && part[..i + 1][i] == part[i];
      edges := Insert(BySource, edges, Record(cia[lo + i], dests[lo + i]));
      assert part[..i + 1][..i] == part[..i];
    }
    assert part[..hi - lo] == part;
  }

  /** The largest source in a chunk less the smallest, as the running bounds give it; a
      chunk without edges leaves them at their initial values. */
  function SourceSpread(edges: seq<Record>, first: nat, c: nat): int
    requires c > 0 ==> first < |edges|
  {
    if c == 0 then 0 - 0x7fff_ffff
    else edges[Min(first + c, |edges|) - 1].src - edges[first].src
  }

  /** Sources are numbers of 31 bits, in increasing order. */
  ghost predicate SourcesFit(edges: seq<Record>) {
    && (forall i :: 0 <= i < |edges| ==> 0 <= edges[i].src <= 0x7fff_ffff)
    && forall i, j :: 0 <= i < j < |edges| ==> edges[i].src <= edges[j].src
  }

  /** The words of a chunk of `c` records that begins with edge `base`: source and
      destination of each edge in turn, and behind the last edge its source again with a
      destination of -2. */
  ghost predicate AreWords(words: seq<int>, edges: seq<Record>, base: nat, c: nat)
    requires c > 0 ==> base < |edges|
  {
    && |words| == 2 * c
    && forall ii :: 0 <= ii < c ==>
         && words[2 * ii] == (if base + ii < |edges| then edges[base + ii].src else edges[|edges| - 1].src)
         && words[2 * ii + 1] == (if base + ii < |edges| then edges[base + ii].dst else -2)
  }

  lemma WordsOfChunk(words: seq<int>, edges: seq<Record>, base: nat, c: nat)
    requires c > 0 ==> base < |edges|
    requires |words| == 2 * c
    requires forall k :: 0 <= k < c ==> words[2 * k] == Chunk(edges, base, c)[k].src && words[2 * k + 1] == Chunk(edges, base, c)[k].dst
    ensures Decode(words) == Chunk(edges, base, c) && AreWords(words, edges, base, c)
  {
    var chunk := Chunk(edges, base, c);
    forall ii | 0 <= ii < c
      ensures words[2 * ii] == (if base + ii < |edges| then edges[base + ii].src else edges[|edges| - 1].src)
           && words[2 * ii + 1] == (if base + ii < |edges| then edges[base + ii].dst else -2)
    {
      assert words[2 * ii] == chunk[ii].src && words[2 * ii + 1] == chunk[ii].dst;
    }
    assert Decode(words) == chunk;
  }

  /** One chunk, `base` records into the partition; `it` walks over the multimap and is
      not read at its end. */
  method FillChunk(data: array<int>, edges: seq<Record>, base: nat, c: nat, lo: int, hi: int, it0: nat)
    returns (it: nat, spread: int)
    requires data.Length == 2 * c && hi - lo == |edges| && SourcesFit(edges)
    requires (c > 0 ==> base < |edges|) && it0 == Min(base, |edges|)
    modifies data
    ensures Decode(data[..]) == Chunk(edges, base, c)
    ensures it == Min(base + c, |edges|) && spread == SourceSpread(edges, base, c)
    ensures AreWords(data[..], edges, base, c)
  {
    var max, min := 0, 0x7fff_ffff;
    ghost var chunk := Chunk(edges, base, c);
    it := it0;
    for ii := 0 to c
      invariant it == Min(base + ii, |edges|)
      invariant ii > 0 ==> max == edges[it - 1].src && min == edges[base].src
      invariant ii == 0 ==> max == 0 && min == 0x7fff_ffff
      invariant forall k :: 0 <= k < ii ==> data[2 * k] == chunk[k].src && data[2 * k + 1] == chunk[k].dst
    {
      if hi <= base + ii + lo {
        assert data[2 * (ii - 1)] == chunk[ii - 1].src == edges[|edges| - 1].src;
        data[ii * 2] := data[(ii - 1) * 2];
        data[ii * 2 + 1] := PADDING;
      } else {
        var src := edges[it].src;
        data[ii * 2] := edges[it].src;
        data[ii * 2 + 1] := edges[it].dst;
        max := if src > max then src else max;
        min := if src > min then min else src;
        it := it + 1;
      }
      assert data[2 * ii] == chunk[ii].src && data[2 * ii + 1] == chunk[ii].dst;
    }
    spread := max - min;
    WordsOfChunk(data[..], edges, base, c);
  }

  /** The contents of the chunks of one partition. */
  ghost function Contents(data: seq<array<int>>): (r: seq<seq<Record>>)
    reads data
    ensures |r| == |data| && forall sp :: 0 <= sp < |data| ==> r[sp] == Decode(data[sp][..])
  {
    seq(|data|, sp requires 0 <= sp < |data| reads data => Decode(data[sp][..]))
  }

  /** What the partitioner records of the first `k` chunks. */
  ghost predicate Described(props: seq<ChunkProp>, props0: seq<ChunkProp>, edges: seq<Record>, c: nat, k: nat) {
    && |props| == |props0|
    && (forall sp :: 0 <= sp < |props| && sp < k ==> ChunkDescribed(props[sp], props0[sp], edges, c, sp))
    && forall sp :: k <= sp < |props| ==> props[sp] == props0[sp]
  }

  ghost predicate ChunkDescribed(prop: ChunkProp, prop0: ChunkProp, edges: seq<Record>, c: nat, sp: nat) {
    && (c > 0 ==> From(sp, c) < |edges|)
    && prop == prop0.(srcVertexNumChunk := SourceSpread(edges, From(sp, c), c))
  }

  /** The first `k` buffers hold their chunks. */
  ghost predicate FilledTo(data: seq<array<int>>, edges: seq<Record>, c: nat, k: nat)
    reads data
  {
    forall sp :: 0 <= sp < |data| && sp < k ==> ChunkFilled(Decode(data[sp][..]), edges, sp, c)
  }

  /** The chunk with number `sp`, the others being left alone. */
  method FillNext(data: seq<array<int>>, sp: nat, edges: seq<Record>, c: nat, lo: int, hi: int, it0: nat)
    returns (it: nat, spread: int)
    requires sp < |data| && Different(data) && data[sp].Length == 2 * c && hi - lo == |edges| && SourcesFit(edges)
    requires (c > 0 ==> From(sp, c) < |edges|) && it0 == Min(From(sp, c), |edges|)
    requires FilledTo(data, edges, c, sp)
    modifies data[sp]
    ensures FilledTo(data, edges, c, sp + 1)
    ensures it == Min(From(sp + 1, c), |edges|) && spread == SourceSpread(edges, From(sp, c), c)
  {
    it, spread := FillChunk(data[sp], edges, From(sp, c), c, lo, hi, it0);
  }

  /** All chunks of one partition. */
  method FillChunks(data: seq<array<int>>, props0: seq<ChunkProp>, edges: seq<Record>, lo: int, hi: int, ghost c: nat)
    returns (props: seq<ChunkProp>)
    requires Sized(props0, data, |data|, c) && Different(data) && hi - lo == |edges| && SourcesFit(edges)
    requires forall sp :: 0 <= sp < |data| && c > 0 ==> From(sp, c) < |edges|
    modifies data
    ensures Described(props, props0, edges, c, |props0|)
    ensures FilledTo(data, edges, c, |data|)
  {
    props := props0;
    var it := 0;
    for sp := 0 to |data|
      invariant it == Min(From(sp, c), |edges|)
      invariant Described(props, props0, edges, c, sp)
      invariant FilledTo(data, edges, c, sp)
    {
      var spread;
      it, spread := FillNext(data, sp, edges, props[sp].edgeNumChunk, lo, hi, it);
      props := props[sp := props[sp].(srcVertexNumChunk := spread)];
    }
  }

  // ----- allocation -----

  lemma BlockNonEmpty(p: nat, size: nat, n: nat)
    requires size > 0 && p < CeilDiv(n, size)
    ensures From(p, size) < To(p, size, n)
  {
    CeilDivBounds(n, size);
    FromIs(p, size);
    MulMono(p, CeilDiv(n, size) - 1, size);
  }

  lemma SizedNext(props: seq<ChunkProp>, data: seq<array<int>>, sp: nat, c: nat, dest: nat, buffer: array<int>)
    requires Sized(props, data, sp, c) && buffer.Length == 2 * c
    ensures Sized(props + [ChunkProp(c, dest, 0)], data + [buffer], sp + 1, c)
  {
  }

  /** `subs` buffers for chunks of `c` records. */
  method NewBuffers(c: nat, dest: nat, subs: nat) returns (props: seq<ChunkProp>, data: seq<array<int>>)
    ensures Sized(props, data, subs, c) && Different(data) && fresh(data)
    ensures forall sp :: 0 <= sp < subs ==> props[sp].destVertexNumChunk == dest
  {
    props, data := [], [];
    for sp := 0 to subs
      invariant Sized(props, data, sp, c) && Different(data) && fresh(data)
      invariant forall s :: 0 <= s < sp ==> props[s].destVertexNumChunk == dest
    {
      var buffer := new int[2 * c](i => 0);
      SizedNext(props, data, sp, c, dest, buffer);
      props := props + [ChunkProp(c, dest, 0)];
      data := data + [buffer];
    }
  }

  /** The buffers of one partition. */
  method NewChunks(m: nat, dest: nat, subs: nat, align: nat) returns (props: seq<ChunkProp>, data: seq<array<int>>)
    requires subs > 0 && align > 0
    ensures Sized(props, data, subs, ChunkSize(m, subs, align)) && Different(data) && fresh(data)
    ensures forall sp :: 0 <= sp < subs ==> props[sp].destVertexNumChunk == RoundUp(dest, 1024)
  {
    var c := (m + subs - 1) / subs;
    c := (c + align - 1) / align * align;
    props, data := NewBuffers(c, (dest + 1023) / 1024 * 1024, subs);
  }

  /** The buffers of all partitions. */
  method Allocate(rpa: seq<int>, n: nat, size: nat, subs: nat, align: nat, ghost cia: seq<Record>, ghost rows: seq<seq<Record>>)
    returns (props: seq<seq<ChunkProp>>, data: seq<seq<array<int>>>)
    requires size > 0 && subs > 0 && align > 0
    requires Represents(rpa, cia, rows) && n == |rows|
    ensures |data| == CeilDiv(n, size) && AllSized(props, data, rows, size, subs, align) && Separate(data)
    ensures forall p :: 0 <= p < |data| ==> Covered(props[p], size, n, p) && fresh(data[p])
  {
    var partitionNum := (n + size - 1) / size;
    props, data := [], [];
    for p := 0 to partitionNum
      invariant |data| == p && AllSized(props, data, rows, size, subs, align) && Separate(data)
      invariant forall q :: 0 <= q < p ==> Covered(props[q], size, n, q) && fresh(data[q])
    {
      var chunkProps, chunks := NewPartition(rpa, n, size, subs, align, p, cia, rows);
      AllSizedNext(props, data, chunkProps, chunks, rows, size, subs, align);
      SeparateNext(data, chunks);
      props, data := props + [chunkProps], data + [chunks];
    }
  }

  lemma AllSizedNext(props: seq<seq<ChunkProp>>, data: seq<seq<array<int>>>, newProps: seq<ChunkProp>, newData: seq<array<int>>,
                     rows: seq<seq<Record>>, size: nat, subs: nat, align: nat)
    requires subs > 0 && align > 0 && AllSized(props, data, rows, size, subs, align)
    requires From(|data|, size) <= To(|data|, size, |rows|)
    requires Sized(newProps, newData, subs, ChunkSize(PartSize(rows, size, |data|), subs, align))
    ensures AllSized(props + [newProps], data + [newData], rows, size, subs, align)
  {
    var props1, data1 := props + [newProps], data + [newData];
    forall p | 0 <= p < |data1|
      ensures From(p, size) <= To(p, size, |rows|) && Sized(props1[p], data1[p], subs, ChunkSize(PartSize(rows, size, p), subs, align))
    {
      assert p < |data| ==> props1[p] == props[p] && data1[p] == data[p];
    }
  }

  lemma SeparateNext(data: seq<seq<array<int>>>, chunks: seq<array<int>>)
    requires Separate(data) && Different(chunks) && forall p :: 0 <= p < |data| ==> Disjoint(data[p], chunks)
    ensures Separate(data + [chunks])
  {
  }

  lemma AllSizedUpdate(props: seq<seq<ChunkProp>>, data: seq<seq<array<int>>>, newProps: seq<ChunkProp>, p: nat,
                       rows: seq<seq<Record>>, size: nat, subs: nat, align: nat)
    requires subs > 0 && align > 0 && AllSized(props, data, rows, size, subs, align) && p < |data|
    requires Sized(newProps, data[p], subs, ChunkSize(PartSize(rows, size, p), subs, align))
    ensures AllSized(props[p := newProps], data, rows, size, subs, align)
  {
  }

  /** The buffers of partition `p`. */
  method NewPartition(rpa: seq<int>, n: nat, size: nat, subs: nat, align: nat, p: nat, ghost cia: seq<Record>, ghost rows: seq<seq<Record>>)
    returns (props: seq<ChunkProp>, data: seq<array<int>>)
    requires size > 0 && subs > 0 && align > 0 && p < CeilDiv(n, size)
    requires Represents(rpa, cia, rows) && n == |rows|
    ensures Covered(props, size, n, p) && Different(data) && fresh(data)
    ensures Sized(props, data, subs, ChunkSize(PartSize(rows, size, p), subs, align))
  {
    BlockNonEmpty(p, size, n);
    var first, end := Bounds(p, size, n);
    PartLength(rpa, cia, rows, first, end);
    props, data := NewChunks(rpa[end] - rpa[first], end - first, subs, align);
  }

  lemma PartLength(rpa: seq<int>, cia: seq<Record>, rows: seq<seq<Record>>, a: nat, b: nat)
    requires Represents(rpa, cia, rows) && a <= b <= |rows|
    ensures 0 <= rpa[a] <= rpa[b] <= |cia|
    ensures rpa[b] - rpa[a] == |Part(rows, a, b)| && cia[rpa[a]..rpa[b]] == Part(rows, a, b)
  {
    StartMono(rows, a, b);
    StartMono(rows, b, |rows|);
    FlattenLength(rows);
  }

  // ----- the partitioner -----

  ghost predicate SourcesWithin(rows: seq<seq<Record>>, n: int) {
    forall j, k :: 0 <= j < |rows| && 0 <= k < |rows[j]| ==> 0 <= rows[j][k].src <= n
  }

  lemma {:induction false} FlatSources(rows: seq<seq<Record>>, n: int)
    requires SourcesWithin(rows, n)
    ensures forall k :: 0 <= k < |Flatten(rows)| ==> 0 <= Flatten(rows)[k].src <= n
  {
    if rows != [] { FlatSources(rows[..|rows| - 1], n); }
  }

  lemma {:induction false} CompressedSources(rows: seq<seq<int>>, rapo: seq<int>, n: nat)
    requires GoodInput(rows, rapo) && n <= |rows|
    ensures SourcesWithin(CompressedRows(rows, rapo, n), |rows|)
  {
    if n > 0 {
      CompressedSources(rows, rapo, n - 1);
      if Live(rapo, n - 1) {
        RowSources(rows, rapo, n - 1, |Kept(rapo, n - 1)|);
      }
    }
  }

  lemma RowSources(rows: seq<seq<int>>, rapo: seq<int>, v: nat, j: nat)
    requires GoodInput(rows, rapo) && v < |rows|
    ensures SourcesWithin([CompressedRow(rows, rapo, v, j)], |rows|)
  {
    var row := CompressedRow(rows, rapo, v, j);
    forall k | 0 <= k < |row| ensures 0 <= row[k].src <= |rows| {
      KeptAreLive(rapo, rows[v][k]);
    }
  }

  lemma OrderedFits(rows: seq<seq<Record>>, size: nat, p: nat)
    requires Tagged(rows) && From(p, size) <= To(p, size, |rows|) && SourcesWithin(rows, 0x7fff_ffff)
    ensures SourcesFit(Ordered(rows, size, p))
  {
    var ord, part := Ordered(rows, size, p), Part(rows, From(p, size), To(p, size, |rows|));
    OrderedProps(rows, size, p);
    FlatSources(rows, 0x7fff_ffff);
    PartProps(rows, From(p, size), To(p, size, |rows|));
    StartMono(rows, To(p, size, |rows|), |rows|);
    FlattenLength(rows);
    forall i | 0 <= i < |ord| ensures 0 <= ord[i].src <= 0x7fff_ffff {
      assert ord[i] in multiset(ord);
      assert ord[i] in part;
    }
  }

  /** What the partitioner records of the sources in each chunk. */
  ghost predicate Spread(props: seq<ChunkProp>, edges: seq<Record>, c: nat) {
    forall sp :: 0 <= sp < |props| ==>
      (c > 0 ==> From(sp, c) < |edges|) && props[sp].srcVertexNumChunk == SourceSpread(edges, From(sp, c), c)
  }

  /** The chunks of partition `p` are filled and described. */
  ghost predicate Done(props: seq<ChunkProp>, data: seq<array<int>>, rows: seq<seq<Record>>, size: nat, subs: nat, align: nat, p: nat)
    requires subs > 0 && align > 0
    reads data
  {
    && PartitionFilled(Contents(data), rows, size, subs, align, p)
    && Spread(props, Ordered(rows, size, p), ChunkSize(PartSize(rows, size, p), subs, align))
  }

  /** One partition. */
  method FillPartition(rpa: seq<int>, cia: seq<int>, dests: seq<int>, p: nat, size: nat, n: nat, ghost align: nat,
                       props0: seq<ChunkProp>, data: seq<array<int>>, ghost rows: seq<seq<Record>>)
    returns (props: seq<ChunkProp>)
    requires |cia| == |dests| && Represents(rpa, Zip(cia, dests), rows) && Tagged(rows) && SourcesWithin(rows, 0x7fff_ffff)
    requires n == |rows| && From(p, size) <= To(p, size, n) && |data| > 0 && align > 0
    requires Sized(props0, data, |data|, ChunkSize(PartSize(rows, size, p), |data|, align)) && Different(data)
    requires Covered(props0, size, n, p) && Safe(PartSize(rows, size, p), |data|, align)
    modifies data
    ensures Done(props, data, rows, size, |data|, align, p)
    ensures Sized(props, data, |data|, ChunkSize(PartSize(rows, size, p), |data|, align)) && Covered(props, size, n, p)
  {
    var edges, lo, hi := EdgesOf(rpa, cia, dests, p, size, n, rows);
    ghost var c := ChunkSize(PartSize(rows, size, p), |data|, align);
    SafeExactly(|edges|, |data|, align);
    props := FillChunks(data, props0, edges, lo, hi, c);
    FilledIsDone(props, props0, data, rows, size, align, p, c);
  }

  /** The edges of one partition, in the order of the multimap. */
  method EdgesOf(rpa: seq<int>, cia: seq<int>, dests: seq<int>, p: nat, size: nat, n: nat, ghost rows: seq<seq<Record>>)
    returns (edges: seq<Record>, lo: int, hi: int)
    requires |cia| == |dests| && Represents(rpa, Zip(cia, dests), rows) && Tagged(rows) && SourcesWithin(rows, 0x7fff_ffff)
    requires n == |rows| && From(p, size) <= To(p, size, n)
    ensures edges == Ordered(rows, size, p) && hi - lo == |edges| == PartSize(rows, size, p) && SourcesFit(edges)
  {
    var first, end := Bounds(p, size, n);
    PartLength(rpa, Zip(cia, dests), rows, first, end);
    lo, hi := rpa[first], rpa[end];
    edges := FillMultimap(cia, dests, lo, hi);
    OrderedProps(rows, size, p);
    OrderedFits(rows, size, p);
  }

  lemma FilledIsDone(props: seq<ChunkProp>, props0: seq<ChunkProp>, data: seq<array<int>>, rows: seq<seq<Record>>,
                     size: nat, align: nat, p: nat, c: nat)
    requires From(p, size) <= To(p, size, |rows|) && |data| > 0 && align > 0 && |props0| == |data|
    requires c == ChunkSize(PartSize(rows, size, p), |data|, align) && Safe(PartSize(rows, size, p), |data|, align)
    requires Described(props, props0, Ordered(rows, size, p), c, |props0|) && FilledTo(data, Ordered(rows, size, p), c, |data|)
    ensures Done(props, data, rows, size, |data|, align, p)
    ensures forall sp :: 0 <= sp < |props| ==> props[sp] == props0[sp].(srcVertexNumChunk := props[sp].srcVertexNumChunk)
  {
    forall sp | 0 <= sp < |data| ensures ChunkFilled(Contents(data)[sp], Ordered(rows, size, p), sp, c) {
      assert Contents(data)[sp] == Decode(data[sp][..]);
    }
    forall sp | 0 <= sp < |props|
      ensures (c > 0 ==> From(sp, c) < |Ordered(rows, size, p)|)
           && props[sp].srcVertexNumChunk == SourceSpread(Ordered(rows, size, p), From(sp, c), c)
           && props[sp] == props0[sp].(srcVertexNumChunk := props[sp].srcVertexNumChunk)
    {
      assert ChunkDescribed(props[sp], props0[sp], Ordered(rows, size, p), c, sp);
    }
  }

  /** The first `k` partitions are filled and described. */
  ghost predicate DoneTo(props: seq<seq<ChunkProp>>, data: seq<seq<array<int>>>, rows: seq<seq<Record>>, size: nat, subs: nat, align: nat, k: nat)
    requires subs > 0 && align > 0
    reads set p, i | 0 <= p < |data| && 0 <= i < |data[p]| :: data[p][i]
  {
    |props| == |data| && forall p :: 0 <= p < |data| && p < k ==> Done(props[p], data[p], rows, size, subs, align, p)
  }

  ghost predicate AllCovered(props: seq<seq<ChunkProp>>, size: nat, n: nat) {
    forall p :: 0 <= p < |props| ==> Covered(props[p], size, n, p)
  }

  /** The partition with number `p`, the others being left alone. */
  method FillNextPartition(rpa: seq<int>, cia: seq<int>, dests: seq<int>, size: nat, n: nat, subs: nat, ghost align: nat,
                           props: seq<seq<ChunkProp>>, data: seq<seq<array<int>>>, p: nat, ghost rows: seq<seq<Record>>)
    returns (filled: seq<ChunkProp>)
    requires |cia| == |dests| && Represents(rpa, Zip(cia, dests), rows) && Tagged(rows) && SourcesWithin(rows, 0x7fff_ffff)
    requires n == |rows| && subs > 0 && align > 0 && p < |data|
    requires AllSized(props, data, rows, size, subs, align) && Separate(data)
    requires Covered(props[p], size, n, p) && Safe(PartSize(rows, size, p), subs, align)
    requires DoneTo(props, data, rows, size, subs, align, p)
    modifies data[p]
    ensures DoneTo(props, data, rows, size, subs, align, p)
    ensures Done(filled, data[p], rows, size, subs, align, p) && Covered(filled, size, n, p)
    ensures Sized(filled, data[p], subs, ChunkSize(PartSize(rows, size, p), subs, align))
  {
    filled := FillPartition(rpa, cia, dests, p, size, n, align, props[p], data[p], rows);
  }

  /** All partitions. */
  method FillAll(rpa: seq<int>, cia: seq<int>, dests: seq<int>, size: nat, n: nat, subs: nat, ghost align: nat,
                 props0: seq<seq<ChunkProp>>, data: seq<seq<array<int>>>, ghost rows: seq<seq<Record>>)
    returns (props: seq<seq<ChunkProp>>)
    requires |cia| == |dests| && Represents(rpa, Zip(cia, dests), rows) && Tagged(rows) && SourcesWithin(rows, 0x7fff_ffff)
    requires n == |rows| && subs > 0 && align > 0
    requires AllSized(props0, data, rows, size, subs, align) && Separate(data) && AllCovered(props0, size, n)
    requires forall p :: 0 <= p < |data| ==> Safe(PartSize(rows, size, p), subs, align)
    modifies set p, i | 0 <= p < |data| && 0 <= i < |data[p]| :: data[p][i]
    ensures AllSized(props, data, rows, size, subs, align) && AllCovered(props, size, n)
    ensures DoneTo(props, data, rows, size, subs, align, |data|)
  {
    props := props0;
    for p := 0 to |data|
      invariant AllSized(props, data, rows, size, subs, align) && AllCovered(props, size, n)
      invariant DoneTo(props, data, rows, size, subs, align, p)
    {
      var filled := FillNextPartition(rpa, cia, dests, size, n, subs, align, props, data, p, rows);
      AllSizedUpdate(props, data, filled, p, rows, size, subs, align);
      DoneNext(props, data, filled, rows, size, subs, align, p);
      props := props[p := filled];
    }
  }

  lemma DoneNext(props: seq<seq<ChunkProp>>, data: seq<seq<array<int>>>, filled: seq<ChunkProp>,
                 rows: seq<seq<Record>>, size: nat, subs: nat, align: nat, p: nat)
    requires subs > 0 && align > 0 && p < |data| && DoneTo(props, data, rows, size, subs, align, p)
    requires Done(filled, data[p], rows, size, subs, align, p)
    ensures DoneTo(props[p := filled], data, rows, size, subs, align, p + 1)
  {
  }

  class GraphInfo {
    const partitionSize: nat
    const subPartitionNum: nat
    const alignSize: nat
    var vertexNum: nat
    var edgeNum: nat
    var outDeg: seq<int>
    var vertexMapping: seq<int>
    var outDegZeroIndex: seq<int>
    var compressedVertexNum: nat
    var alignedCompressedVertexNum: nat
    var rpa: seq<int>
    var cia: seq<int>
    var destIndexList: seq<int>
    var compressedEdgeNum: nat
    var partitionNum: nat
    var chunkProp: seq<seq<ChunkProp>>
    var chunkEdgeData: seq<seq<array<int>>>

    /** The compressed graph and the empty chunks of the graph with in-rows `rows` and
        out-pointers `rapo`. */
    ghost predicate Loaded(rows: seq<seq<int>>, rapo: seq<int>)
      reads this
    {
      && partitionSize > 0 && subPartitionNum > 0 && alignSize > 0
      && GoodInput(rows, rapo) && Compressed(rows, rapo)
      && var compressed := CompressedRows(rows, rapo, |rows|);
      && partitionNum == CeilDiv(compressedVertexNum, partitionSize) == |chunkEdgeData|
      && AllSized(chunkProp, chunkEdgeData, compressed, partitionSize, subPartitionNum, alignSize)
      && Separate(chunkEdgeData)
      && AllCovered(chunkProp, partitionSize, compressedVertexNum)
    }

    ghost predicate Compressed(rows: seq<seq<int>>, rapo: seq<int>)
      requires GoodInput(rows, rapo)
      reads this
    {
      var n := |rows|;
      && vertexNum == n
      && vertexMapping == Kept(rapo, n) && outDegZeroIndex == Dropped(rapo, n)
      && compressedVertexNum == |vertexMapping| && alignedCompressedVertexNum == RoundUp(compressedVertexNum, 1024)
      && outDeg == Degrees(rapo, n)
      && |cia| == |destIndexList| == compressedEdgeNum
      && Represents(rpa, Zip(cia, destIndexList), CompressedRows(rows, rapo, n))
    }

    /** The chunks hold the edges of their partitions. */
    ghost predicate Partitioned(rows: seq<seq<int>>, rapo: seq<int>)
      reads this, set p, i | 0 <= p < |chunkEdgeData| && 0 <= i < |chunkEdgeData[p]| :: chunkEdgeData[p][i]
    {
      && Loaded(rows, rapo)
      && var compressed := CompressedRows(rows, rapo, |rows|);
      && DoneTo(chunkProp, chunkEdgeData, compressed, partitionSize, subPartitionNum, alignSize, partitionNum)
    }

    /** Loads a graph given by its in-rows and its out-row pointers. */
    constructor (rapi: seq<int>, rapo: seq<int>, ciai: seq<int>, size: nat, subs: nat, align: nat, ghost rows: seq<seq<int>>)
      requires size > 0 && subs > 0 && align > 0
      requires GoodInput(rows, rapo) && Represents(rapi, ciai, rows)
      ensures partitionSize == size && subPartitionNum == subs && alignSize == align && edgeNum == |ciai|
      ensures Loaded(rows, rapo)
      ensures forall p :: 0 <= p < partitionNum ==> fresh(chunkEdgeData[p])
    {
      var n := |rapo| - 1;
      var mapping, degrees, kept, zero := CompressVertices(rapo, n);
      var r, c, d := CompressEdges(rapi, ciai, rapo, kept, mapping, rows);
      ghost var compressed := CompressedRows(rows, rapo, n);
      var props, data := Allocate(r, |kept|, size, subs, align, Zip(c, d), compressed);
      partitionSize, subPartitionNum, alignSize := size, subs, align;
      vertexNum, edgeNum, outDeg, vertexMapping, outDegZeroIndex := n, |ciai|, degrees, kept, zero;
      compressedVertexNum, alignedCompressedVertexNum := |kept|, (|kept| + 1023) / 1024 * 1024;
      rpa, cia, destIndexList, compressedEdgeNum := r, c, d, |c|;
      partitionNum, chunkProp, chunkEdgeData := (|kept| + size - 1) / size, props, data;
    }

    /** Fills the chunks, provided that none begins with padding. */
    method PartitionFunction(ghost rows: seq<seq<int>>, ghost rapo: seq<int>)
      requires Loaded(rows, rapo) && vertexNum <= 0x7fff_ffff
      requires forall p :: 0 <= p < partitionNum ==>
                 Safe(PartSize(CompressedRows(rows, rapo, |rows|), partitionSize, p), subPartitionNum, alignSize)
      modifies this`chunkProp, set p, i | 0 <= p < |chunkEdgeData| && 0 <= i < |chunkEdgeData[p]| :: chunkEdgeData[p][i]
      ensures Partitioned(rows, rapo)
    {
      ghost var compressed := CompressedRows(rows, rapo, |rows|);
      CompressedTagged(rows, rapo, |rows|);
      CompressedSources(rows, rapo, |rows|);
      chunkProp := FillAll(rpa, cia, destIndexList, partitionSize, compressedVertexNum, subPartitionNum, alignSize,
                           chunkProp, chunkEdgeData, compressed);
    }
  }

  // ----- what the loader leaves -----

  /** The fields of a loaded graph: the kept vertices are, in increasing order, those whose
      out-pointers differ, their degrees are these differences, the others are listed apart,
      and the vertex count is rounded up to 1024. */
  lemma LoadedFields(info: GraphInfo, rows: seq<seq<int>>, rapo: seq<int>)
    requires info.Loaded(rows, rapo)
    ensures var n, kept, zero := |rows|, info.vertexMapping, info.outDegZeroIndex;
            && info.vertexNum == n && |rapo| == n + 1 && info.compressedVertexNum == |kept| == |info.outDeg| && |kept| + |zero| == n
            && (forall j :: 0 <= j < |kept| ==> 0 <= kept[j] < n && info.outDeg[j] == rapo[kept[j] + 1] - rapo[kept[j]] > 0)
            && (forall j :: 0 <= j < |zero| ==> 0 <= zero[j] < n && rapo[zero[j] + 1] - rapo[zero[j]] <= 0)
            && (forall j, k :: 0 <= j < k < |kept| ==> kept[j] < kept[k])
            && (forall j, k :: 0 <= j < k < |zero| ==> zero[j] < zero[k])
    ensures var a := info.alignedCompressedVertexNum;
            a % 1024 == 0 && info.compressedVertexNum <= a < info.compressedVertexNum + 1024
    ensures info.compressedEdgeNum == |info.cia| == |info.destIndexList|
    ensures info.partitionNum == |info.chunkProp| == |info.chunkEdgeData|
    ensures var top := info.partitionNum * info.partitionSize;
            info.compressedVertexNum <= top < info.compressedVertexNum + info.partitionSize
  {
    KeptAreLive(rapo, |rows|);
    DegreesOfKept(rapo, |rows|);
    RoundUpBounds(info.compressedVertexNum, 1024);
    CeilDivBounds(info.compressedVertexNum, info.partitionSize);
  }

  /** The chunks of partition `p` are for its destination vertices, rounded up to 1024, and
      each buffer has two words for every record. */
  lemma LoadedChunks(info: GraphInfo, rows: seq<seq<int>>, rapo: seq<int>, p: nat, sp: nat)
    requires info.Loaded(rows, rapo) && p < info.partitionNum && sp < info.subPartitionNum
    ensures |info.chunkProp[p]| == |info.chunkEdgeData[p]| == info.subPartitionNum
    ensures var n, size := info.compressedVertexNum, info.partitionSize;
            var end := if (p + 1) * size > n then n else (p + 1) * size;
            var m, d := end - p * size, info.chunkProp[p][sp].destVertexNumChunk;
            d % 1024 == 0 && m <= d < m + 1024
    ensures info.chunkEdgeData[p][sp].Length == 2 * info.chunkProp[p][sp].edgeNumChunk
  {
    var n, size := info.compressedVertexNum, info.partitionSize;
    FromIs(p, size);
    FromIs(p + 1, size);
    BlockNonEmpty(p, size, n);
    assert Covered(info.chunkProp[p], size, n, p);
    RoundUpBounds(To(p, size, n) - From(p, size), 1024);
  }

  // ----- what the chunks mean -----

  /** The records of all chunks. */
  ghost function Records(data: seq<seq<array<int>>>): (r: seq<seq<seq<Record>>>)
    reads set p, i | 0 <= p < |data| && 0 <= i < |data[p]| :: data[p][i]
    ensures |r| == |data| && forall p :: 0 <= p < |r| ==> r[p] == Contents(data[p])
  {
    if data == [] then [] else Records(data[..|data| - 1]) + [Contents(data[|data| - 1])]
  }

  /** The real records of all chunks, under the old vertex numbers, are the edges whose
      destination has out-edges, each as often as in the graph, if and only if the sources
      of those edges have out-edges as well. */
  lemma PartitionerConserves(info: GraphInfo, rows: seq<seq<int>>, rapo: seq<int>)
    requires info.Partitioned(rows, rapo)
    ensures multiset(Restored(info.vertexMapping, Reals(Flatten(Flatten(Records(info.chunkEdgeData))))))
         == multiset(LiveEdges(rows, rapo, |rows|))
       <==> SourcesLive(rows, rapo, |rows|)
  {
    EdgesConserved(Records(info.chunkEdgeData), rows, rapo, info.partitionSize, info.subPartitionNum, info.alignSize);
  }

  /** In a chunk the edges come before the padding, sorted by source and destination, their
      destinations in the interval of the partition; sources do not decrease even through
      the padding.  A partition has fewer than `alignSize` padding records per chunk, and a
      chunk's source count is the distance of its last and first source. */
  lemma ChunkIsSorted(info: GraphInfo, rows: seq<seq<int>>, rapo: seq<int>, p: nat, sp: nat)
    requires info.Partitioned(rows, rapo) && p < info.partitionNum && sp < info.subPartitionNum
    ensures var a, b := From(p, info.partitionSize), To(p, info.partitionSize, info.compressedVertexNum);
            var c, chunk := info.chunkProp[p][sp].edgeNumChunk, Decode(info.chunkEdgeData[p][sp][..]);
            && a < b && |chunk| == c && c % info.alignSize == 0
            && 0 <= info.rpa[a] <= info.rpa[b]
            && info.rpa[b] - info.rpa[a] <= info.subPartitionNum * c < info.rpa[b] - info.rpa[a] + info.subPartitionNum * info.alignSize
            && WellOrdered(chunk, a, b)
            && (c > 0 ==> info.chunkProp[p][sp].srcVertexNumChunk == chunk[|Reals(chunk)| - 1].src - chunk[0].src)
            && (c == 0 ==> info.chunkProp[p][sp].srcVertexNumChunk == 0 - 0x7fff_ffff)
  {
    var compressed, size, n := CompressedRows(rows, rapo, |rows|), info.partitionSize, info.compressedVertexNum;
    var m := PartSize(compressed, size, p);
    var c := ChunkSize(m, info.subPartitionNum, info.alignSize);
    BlockNonEmpty(p, size, n);
    PartLength(info.rpa, Zip(info.cia, info.destIndexList), compressed, From(p, size), To(p, size, n));
    ChunksSuffice(m, info.subPartitionNum, info.alignSize);
    CompressedTagged(rows, rapo, |rows|);
    DoneChunk(info.chunkProp[p], info.chunkEdgeData[p], compressed, size, info.subPartitionNum, info.alignSize, p, sp, c);
  }

  lemma DoneChunk(props: seq<ChunkProp>, data: seq<array<int>>, rows: seq<seq<Record>>, size: nat, subs: nat, align: nat, p: nat, sp: nat, c: nat)
    requires subs > 0 && align > 0 && Tagged(rows) && From(p, size) <= To(p, size, |rows|)
    requires c == ChunkSize(PartSize(rows, size, p), subs, align)
    requires Done(props, data, rows, size, subs, align, p) && sp < |props| == |data| == subs
    ensures var chunk := Decode(data[sp][..]);
            && |chunk| == c && WellOrdered(chunk, From(p, size), To(p, size, |rows|))
            && (c > 0 ==> props[sp].srcVertexNumChunk == chunk[|Reals(chunk)| - 1].src - chunk[0].src)
            && (c == 0 ==> props[sp].srcVertexNumChunk == 0 - 0x7fff_ffff)
  {
    var ord := Ordered(rows, size, p);
    OrderedProps(rows, size, p);
    assert Contents(data)[sp] == Decode(data[sp][..]);
    assert ChunkFilled(Contents(data)[sp], ord, sp, c);
    FilledChunk(Contents(data)[sp], ord, sp, c, From(p, size), To(p, size, |rows|));
  }

  lemma FilledChunk(chunk: seq<Record>, ord: seq<Record>, sp: nat, c: nat, a: nat, b: nat)
    requires Lexicographic(ord) && (forall k :: 0 <= k < |ord| ==> a <= ord[k].dst < b)
    requires ChunkFilled(chunk, ord, sp, c)
    ensures |chunk| == c && WellOrdered(chunk, a, b)
    ensures c > 0 ==> SourceSpread(ord, From(sp, c), c) == chunk[|Reals(chunk)| - 1].src - chunk[0].src
  {
    var first := From(sp, c);
    ChunkSorted(ord, first, c, a, b);
    if c > 0 {
      ChunkSpread(ord, first, c, Min(first + c, |ord|) - first);
    }
  }

  lemma ChunkSpread(ord: seq<Record>, first: nat, c: nat, k: nat)
    requires c > 0 && first < |ord| && k == Min(first + c, |ord|) - first
    ensures 0 < k <= c
    ensures SourceSpread(ord, first, c) == Chunk(ord, first, c)[k - 1].src - Chunk(ord, first, c)[0].src
  {
    var chunk := Chunk(ord, first, c);
    assert chunk[k - 1] == ord[first + k - 1] && chunk[0] == ord[first];
  }
}
