/** What the partitioner makes of the compressed edges: an order within each destination
    interval, and chunks of equal size filled up with padding. */
module Partition {
  import opened Bits
  import opened Rows
  import opened Blocks
  import opened Sorting
  import opened Compression

  /** The destination of a padding record: the end flag less one, as a signed word. */
  const PADDING: int := -2

  /** It is the end flag, a word of ones, less one, read as a signed word of 32 bits. */
  lemma PaddingIsWord()
    ensures PADDING == Wrap(0xffff_ffff - 1, 32, true)
    ensures 0x1_0000_0000 == Pow2(32) && PADDING + Pow2(32) == 0xffff_ffff - 1
  {
    assert Pow2(8) == 256;
    Pow2Add(8, 8);
    Pow2Add(16, 16);
    assert Pow2(32) == 2 * Pow2(31);
    DivModIs(0xffff_ffff - 1 + Pow2(31), Pow2(32), 1, Pow2(31) - 2);
  }

  function BySource(r: Record): int { r.src }

  /** By source, then by destination. */
  ghost predicate Lexicographic(s: seq<Record>) {
    forall i, j :: 0 <= i < j < |s| ==> s[i].src < s[j].src || (s[i].src == s[j].src && s[i].dst <= s[j].dst)
  }

  ghost predicate ByDestination(s: seq<Record>) {
    forall i, j :: 0 <= i < j < |s| ==> s[i].dst <= s[j].dst
  }

  lemma {:induction false} InsertLexicographic(s: seq<Record>, x: Record)
    requires Lexicographic(s) && forall i :: 0 <= i < |s| ==> s[i].dst <= x.dst
    ensures Lexicographic(Insert(BySource, s, x))
  {
    if s == [] || s[|s| - 1].src <= x.src {
      assert BySource(x) == x.src;
    } else {
      var init, last := s[..|s| - 1], s[|s| - 1];
      InsertLexicographic(init, x);
      var r := Insert(BySource, init, x);
      forall i | 0 <= i < |r| ensures r[i].src < last.src || (r[i].src == last.src && r[i].dst <= last.dst) {
        InsertMember(BySource, init, x, i);
      }
    }
  }

  /** A stable sort by source of edges that come by destination orders them by both. */
  lemma {:induction false} SortLexicographic(s: seq<Record>)
    requires ByDestination(s)
    ensures Lexicographic(StableSort(BySource, s))
  {
    if s != [] {
      var init, x := s[..|s| - 1], s[|s| - 1];
      SortLexicographic(init);
      StableSortProps(BySource, init);
      var r := StableSort(BySource, init);
      forall i | 0 <= i < |r| ensures r[i].dst <= x.dst {
        assert r[i] in multiset(r);
        assert r[i] in init;
      }
      InsertLexicographic(r, x);
    }
  }

  // ----- the edges of one partition -----

  /** Every record carries the number of its row as destination. */
  ghost predicate Tagged(rows: seq<seq<Record>>) {
    forall j, k :: 0 <= j < |rows| && 0 <= k < |rows[j]| ==> rows[j][k].dst == j
  }

  lemma {:induction false} StartMono<T>(rows: seq<seq<T>>, i: nat, j: nat)
    requires i <= j <= |rows|
    ensures Start(rows, i) <= Start(rows, j)
  {
    if i < j { StartMono(rows, i, j - 1); }
  }

  lemma StartOrdered<T>(rows: seq<seq<T>>, i: nat, j: nat)
    requires i <= |rows| && j <= |rows|
    ensures i <= j ==> Start(rows, i) <= Start(rows, j)
  {
    if i <= j { StartMono(rows, i, j); }
  }

  /** A record stands within the row of its destination. */
  lemma {:induction false} RowOfRecord(rows: seq<seq<Record>>, k: nat)
    requires Tagged(rows) && k < |Flatten(rows)|
    ensures var j := Flatten(rows)[k].dst; 0 <= j < |rows| && Start(rows, j) <= k < Start(rows, j + 1)
  {
    var n := |rows| - 1;
    FlattenLength(rows[..n]);
    StartPrefix(rows, n, n);
    if k < Start(rows, n) {
      RowOfRecord(rows[..n], k);
      var j := Flatten(rows)[k].dst;
      StartPrefix(rows, n, j);
      StartPrefix(rows, n, j + 1);
    } else {
      assert Flatten(rows)[k] == rows[n][k - Start(rows, n)];
    }
  }

  /** The edges into the vertices from `a` up to `b`. */
  function Part(rows: seq<seq<Record>>, a: nat, b: nat): seq<Record>
    requires a <= b <= |rows|
  {
    StartMono(rows, a, b);
    StartMono(rows, b, |rows|);
    FlattenLength(rows);
    Flatten(rows)[Start(rows, a)..Start(rows, b)]
  }

  lemma PartAt(rows: seq<seq<Record>>, a: nat, b: nat, k: nat)
    requires Tagged(rows) && a <= b <= |rows| && k < |Part(rows, a, b)|
    ensures a <= Part(rows, a, b)[k].dst < b
  {
    StartMono(rows, a, b);
    StartMono(rows, b, |rows|);
    FlattenLength(rows);
    var dst := Part(rows, a, b)[k].dst;
    RowOfRecord(rows, Start(rows, a) + k);
    StartOrdered(rows, dst + 1, a);
    StartOrdered(rows, b, dst);
  }

  lemma PartProps(rows: seq<seq<Record>>, a: nat, b: nat)
    requires Tagged(rows) && a <= b <= |rows|
    ensures |Part(rows, a, b)| == Start(rows, b) - Start(rows, a) >= 0
    ensures forall k :: 0 <= k < |Part(rows, a, b)| ==> a <= Part(rows, a, b)[k].dst < b
  {
    StartMono(rows, a, b);
    StartMono(rows, b, |rows|);
    FlattenLength(rows);
    forall k | 0 <= k < |Part(rows, a, b)| ensures a <= Part(rows, a, b)[k].dst < b {
      PartAt(rows, a, b, k);
    }
  }

  lemma PartByDestination(rows: seq<seq<Record>>, a: nat, b: nat)
    requires Tagged(rows) && a <= b <= |rows|
    ensures ByDestination(Part(rows, a, b))
  {
    StartMono(rows, a, b);
    StartMono(rows, b, |rows|);
    FlattenLength(rows);
    var s, first := Part(rows, a, b), Start(rows, a);
    forall i, j | 0 <= i < j < |s| ensures s[i].dst <= s[j].dst {
      RowOfRecord(rows, first + i);
      RowOfRecord(rows, first + j);
      StartOrdered(rows, s[j].dst + 1, s[i].dst);
    }
  }

  /** The edges of partition `p` in the order of the multimap. */
  function Ordered(rows: seq<seq<Record>>, size: nat, p: nat): seq<Record>
    requires From(p, size) <= To(p, size, |rows|)
  {
    StableSort(BySource, Part(rows, From(p, size), To(p, size, |rows|)))
  }

  /** They are sorted by source and destination, lie in the destination interval of the
      partition and are the edges of that interval. */
  lemma OrderedProps(rows: seq<seq<Record>>, size: nat, p: nat)
    requires Tagged(rows) && From(p, size) <= To(p, size, |rows|)
    ensures var first, end, s := From(p, size), To(p, size, |rows|), Ordered(rows, size, p);
            && Lexicographic(s) && multiset(s) == multiset(Part(rows, first, end))
            && |s| == |Part(rows, first, end)| == Start(rows, end) - Start(rows, first)
            && forall k :: 0 <= k < |s| ==> first <= s[k].dst < end
  {
    var first, end, s := From(p, size), To(p, size, |rows|), Ordered(rows, size, p);
    var part := Part(rows, first, end);
    PartProps(rows, first, end);
    PartByDestination(rows, first, end);
    SortLexicographic(part);
    StableSortProps(BySource, part);
    forall k | 0 <= k < |s| ensures first <= s[k].dst < end {
      assert s[k] in multiset(s);
      assert s[k] in part;
    }
  }

  // ----- chunk sizes -----

  function CeilDiv(x: nat, a: nat): nat
    requires a > 0
  {
    (x + a - 1) / a
  }

  function RoundUp(x: nat, a: nat): nat
    requires a > 0
  {
    CeilDiv(x, a) * a
  }

  /** The records of each of the `subs` chunks for `m` edges. */
  function ChunkSize(m: nat, subs: nat, align: nat): nat
    requires subs > 0 && align > 0
  {
    RoundUp(CeilDiv(m, subs), align)
  }

  lemma CeilDivBounds(x: nat, a: nat)
    requires a > 0
    ensures x <= CeilDiv(x, a) * a < x + a
    ensures CeilDiv(x, a) > 0 <==> x > 0
  {
    var q := (x + a - 1) / a;
    assert x + a - 1 == q * a + (x + a - 1) % a;
    if q <= 0 { assert q * a <= 0; } else { assert q * a >= a; }
  }

  lemma RoundUpBounds(x: nat, a: nat)
    requires a > 0
    ensures x <= RoundUp(x, a) < x + a && RoundUp(x, a) % a == 0
    ensures RoundUp(x, a) > 0 <==> x > 0
  {
    CeilDivBounds(x, a);
    MulDiv(CeilDiv(x, a), a);
  }

  /** The chunks take all edges, and fewer than `align` records per chunk are padding. */
  lemma ChunksSuffice(m: nat, subs: nat, align: nat)
    requires subs > 0 && align > 0
    ensures var c := ChunkSize(m, subs, align);
            && c % align == 0 && (c > 0 <==> m > 0)
            && m <= subs * c < m + subs * align
  {
    var q, c := CeilDiv(m, subs), ChunkSize(m, subs, align);
    CeilDivBounds(m, subs);
    RoundUpBounds(q, align);
    MulMono(q, c, subs);
    MulMono(c, q + align - 1, subs);
    assert subs * (q + align - 1) == subs * q + subs * align - subs;
    assert subs * q == q * subs;
  }

  /** No chunk begins with padding. */
  predicate Safe(m: nat, subs: nat, align: nat)
    requires subs > 0 && align > 0
  {
    m > 0 ==> (subs - 1) * ChunkSize(m, subs, align) < m
  }

  /** Padding copies the source before it, so it reads in front of the buffer if a chunk
      begins with it.  That happens for no chunk if and only if the last begins with an
      edge. */
  lemma SafeExactly(m: nat, subs: nat, align: nat)
    requires subs > 0 && align > 0
    ensures Safe(m, subs, align)
       <==> forall sp :: 0 <= sp < subs && ChunkSize(m, subs, align) > 0 ==> From(sp, ChunkSize(m, subs, align)) < m
  {
    var c := ChunkSize(m, subs, align);
    ChunksSuffice(m, subs, align);
    if Safe(m, subs, align) {
      forall sp | 0 <= sp < subs && c > 0 ensures From(sp, c) < m {
        MulMono(sp, subs - 1, c);
        FromIs(sp, c);
      }
    } else {
      FromIs(subs - 1, c);
      assert From(subs - 1, c) >= m;
    }
  }

  /** One chunk to a partition, the default, is always safe; two are not when the edges
      fit into one. */
  lemma SafeExamples(m: nat, align: nat)
    requires align > 0
    ensures Safe(m, 1, align)
    ensures 0 < m <= align ==> !Safe(m, 2, align)
  {
    ChunksSuffice(m, 2, align);
    var c := ChunkSize(m, 2, align);
    if 0 < c < align {
      DivModIs(c, align, 0, c);
    }
    SafeTwo(m, c, align);
    SafeOne(m, ChunkSize(m, 1, align), align);
  }

  lemma SafeOne(m: nat, c: nat, align: nat)
    requires align > 0 && c == ChunkSize(m, 1, align)
    ensures Safe(m, 1, align)
  {
    MulMono(0, 0, c);
  }

  lemma SafeTwo(m: nat, c: nat, align: nat)
    requires align > 0 && c == ChunkSize(m, 2, align)
    ensures Safe(m, 2, align) <==> m == 0 || c < m
  {
  }

  // ----- chunks -----

  /** The chunk of `c` records that begins with edge `first`. */
  function Chunk(ord: seq<Record>, first: nat, c: nat): (r: seq<Record>)
    requires c > 0 ==> first < |ord|
    ensures |r| == c
  {
    seq(c, i requires 0 <= i < c =>
      if first + i < |ord| then ord[first + i] else Record(ord[|ord| - 1].src, PADDING))
  }

  /** The records that are not padding. */
  function Reals(s: seq<Record>): seq<Record> {
    if s == [] then []
    else Reals(s[..|s| - 1]) + if s[|s| - 1].dst == PADDING then [] else [s[|s| - 1]]
  }

  lemma {:induction false} RealsConcat(a: seq<Record>, b: seq<Record>)
    ensures Reals(a + b) == Reals(a) + Reals(b)
  {
    if b == [] {
      assert a + b == a;
    } else {
      RealsConcat(a, b[..|b| - 1]);
      assert (a + b)[..|a + b| - 1] == a + b[..|b| - 1];
    }
  }

  lemma {:induction false} RealsAll(s: seq<Record>)
    requires forall i :: 0 <= i < |s| ==> s[i].dst != PADDING
    ensures Reals(s) == s
  {
    if s != [] { RealsAll(s[..|s| - 1]); }
  }

  lemma {:induction false} RealsNone(s: seq<Record>)
    requires forall i :: 0 <= i < |s| ==> s[i].dst == PADDING
    ensures Reals(s) == []
  {
    if s != [] { RealsNone(s[..|s| - 1]); }
  }

  lemma ChunkFront(ord: seq<Record>, first: nat, c: nat, k: nat)
    requires (c > 0 ==> first < |ord|) && k <= c && first + k <= |ord|
    ensures Chunk(ord, first, c)[..k] == ord[first..first + k]
  {
  }

  lemma ChunkBack(ord: seq<Record>, first: nat, c: nat, k: nat)
    requires (c > 0 ==> first < |ord|) && k <= c && (k < c ==> first + k >= |ord|)
    ensures Reals(Chunk(ord, first, c)[k..]) == []
  {
    RealsNone(Chunk(ord, first, c)[k..]);
  }

  /** The real records of a chunk come first and are a stretch of the ordered edges. */
  lemma ChunkReals(ord: seq<Record>, first: nat, c: nat)
    requires c > 0 ==> first < |ord|
    requires first <= |ord| && forall i :: 0 <= i < |ord| ==> ord[i].dst != PADDING
    ensures Reals(Chunk(ord, first, c)) == ord[first..Min(first + c, |ord|)]
  {
    var k := Min(first + c, |ord|) - first;
    ChunkFront(ord, first, c, k);
    ChunkBack(ord, first, c, k);
    RealsAll(ord[first..first + k]);
    RealsSplit(Chunk(ord, first, c), k);
  }

  lemma SplitAt<T>(s: seq<T>, k: nat)
    requires k <= |s|
    ensures s == s[..k] + s[k..]
  {
  }

  lemma RealsJoined(s: seq<Record>, a: seq<Record>, b: seq<Record>)
    requires s == a + b
    ensures Reals(s) == Reals(a) + Reals(b)
  {
    RealsConcat(a, b);
  }

  lemma RealsSplit(s: seq<Record>, k: nat)
    requires k <= |s|
    ensures Reals(s) == Reals(s[..k]) + Reals(s[k..])
  {
    SplitAt(s, k);
    RealsJoined(s, s[..k], s[k..]);
  }

  /** In a chunk the real records come before the padding, are sorted and lie between `a`
      and `b`, and the sources do not decrease, padding included. */
  ghost predicate WellOrdered(chunk: seq<Record>, a: nat, b: nat) {
    var k := |Reals(chunk)|;
    && k <= |chunk| && (chunk != [] ==> k > 0)
    && Lexicographic(chunk[..k])
    && (forall i :: 0 <= i < |chunk| ==> if i < k then a <= chunk[i].dst < b else chunk[i].dst == PADDING)
    && (forall i, j :: 0 <= i < j < |chunk| ==> chunk[i].src <= chunk[j].src)
  }

  lemma ChunkSources(ord: seq<Record>, first: nat, c: nat, i: nat, j: nat)
    requires Lexicographic(ord) && c > 0 && first < |ord| && i < j < c
    ensures Chunk(ord, first, c)[i].src <= Chunk(ord, first, c)[j].src
  {
    var last := |ord| - 1;
    assert first + j <= last ==> ord[first + i].src <= ord[first + j].src;
    assert first + i < last ==> ord[first + i].src <= ord[last].src;
  }

  lemma ChunkSorted(ord: seq<Record>, first: nat, c: nat, a: nat, b: nat)
    requires Lexicographic(ord) && (forall k :: 0 <= k < |ord| ==> a <= ord[k].dst < b)
    requires c > 0 ==> first < |ord|
    ensures WellOrdered(Chunk(ord, first, c), a, b)
    ensures c > 0 ==> |Reals(Chunk(ord, first, c))| == Min(first + c, |ord|) - first
  {
    var chunk := Chunk(ord, first, c);
    if c > 0 {
      ChunkReals(ord, first, c);
      ChunkFront(ord, first, c, |Reals(chunk)|);
      forall i, j | 0 <= i < j < c ensures chunk[i].src <= chunk[j].src {
        ChunkSources(ord, first, c, i, j);
      }
    } else {
      assert chunk == [];
    }
  }

  ghost predicate ChunkFilled(chunk: seq<Record>, ord: seq<Record>, sp: nat, c: nat) {
    (c > 0 ==> From(sp, c) < |ord|) && chunk == Chunk(ord, From(sp, c), c)
  }

  /** One more chunk holds the next edges. */
  lemma NextChunk(got: seq<Record>, ord: seq<Record>, first: nat, c: nat)
    requires forall i :: 0 <= i < |ord| ==> ord[i].dst != PADDING
    requires (c > 0 ==> first < |ord|) && got == ord[..Min(first, |ord|)]
    ensures got + Reals(Chunk(ord, first, c)) == ord[..Min(first + c, |ord|)]
  {
    if c > 0 {
      ChunkReals(ord, first, c);
    } else {
      assert Chunk(ord, first, c) == [];
    }
  }

  lemma RealsNext(chunks: seq<seq<Record>>, k: nat)
    requires 0 < k <= |chunks|
    ensures Reals(Flatten(chunks[..k])) == Reals(Flatten(chunks[..k - 1])) + Reals(chunks[k - 1])
  {
    FlattenAppend(chunks[..k - 1], chunks[k - 1]);
    assert chunks[..k - 1] + [chunks[k - 1]] == chunks[..k];
    RealsConcat(Flatten(chunks[..k - 1]), chunks[k - 1]);
  }

  /** The chunks of one partition, one after the other, hold its edges in order. */
  lemma {:induction false} ChunksHoldOrder(chunks: seq<seq<Record>>, ord: seq<Record>, c: nat, k: nat)
    requires forall i :: 0 <= i < |ord| ==> ord[i].dst != PADDING
    requires k <= |chunks|
    requires forall sp :: 0 <= sp < |chunks| ==> ChunkFilled(chunks[sp], ord, sp, c)
    ensures Reals(Flatten(chunks[..k])) == ord[..Min(From(k, c), |ord|)]
  {
    if k > 0 {
      ChunksHoldOrder(chunks, ord, c, k - 1);
      RealsNext(chunks, k);
      assert ChunkFilled(chunks[k - 1], ord, k - 1, c);
      NextChunk(Reals(Flatten(chunks[..k - 1])), ord, From(k - 1, c), c);
    } else {
      assert chunks[..0] == [] && ord[..0] == [];
    }
  }

  lemma {:induction false} FlattenConcat<T>(a: seq<seq<T>>, b: seq<seq<T>>)
    ensures Flatten(a + b) == Flatten(a) + Flatten(b)
  {
    if b == [] {
      assert a + b == a;
    } else {
      FlattenConcat(a, b[..|b| - 1]);
      assert (a + b)[..|a + b| - 1] == a + b[..|b| - 1];
    }
  }

  /** How many edges partition `p` has. */
  ghost function PartSize(rows: seq<seq<Record>>, size: nat, p: nat): nat
    requires From(p, size) <= To(p, size, |rows|)
  {
    |Part(rows, From(p, size), To(p, size, |rows|))|
  }

  /** The contents of all chunks of partition `p`. */
  ghost predicate PartitionFilled(chunks: seq<seq<Record>>, rows: seq<seq<Record>>, size: nat, subs: nat, align: nat, p: nat)
    requires subs > 0 && align > 0
  {
    && From(p, size) <= To(p, size, |rows|)
    && |chunks| == subs
    && var ord, m := Ordered(rows, size, p), PartSize(rows, size, p);
    && var c := ChunkSize(m, subs, align);
    && Safe(m, subs, align)
    && forall sp :: 0 <= sp < subs ==> ChunkFilled(chunks[sp], ord, sp, c)
  }

  lemma PartitionHoldsOrder(chunks: seq<seq<Record>>, rows: seq<seq<Record>>, size: nat, subs: nat, align: nat, p: nat)
    requires subs > 0 && align > 0 && Tagged(rows)
    requires PartitionFilled(chunks, rows, size, subs, align, p)
    ensures Reals(Flatten(chunks)) == Ordered(rows, size, p)
  {
    var ord := Ordered(rows, size, p);
    OrderedProps(rows, size, p);
    ChunksSuffice(PartSize(rows, size, p), subs, align);
    ChunksHoldAll(chunks, ord, ChunkSize(PartSize(rows, size, p), subs, align));
  }

  lemma ChunksHoldAll(chunks: seq<seq<Record>>, ord: seq<Record>, c: nat)
    requires forall i :: 0 <= i < |ord| ==> ord[i].dst != PADDING
    requires |ord| <= |chunks| * c
    requires forall sp :: 0 <= sp < |chunks| ==> ChunkFilled(chunks[sp], ord, sp, c)
    ensures Reals(Flatten(chunks)) == ord
  {
    ChunksHoldOrder(chunks, ord, c, |chunks|);
    FromIs(|chunks|, c);
    assert chunks[..|chunks|] == chunks;
    assert ord[..|ord|] == ord;
  }

  lemma AllRealsNext(chunks: seq<seq<seq<Record>>>, k: nat)
    requires 0 < k <= |chunks|
    ensures Reals(Flatten(Flatten(chunks[..k]))) == Reals(Flatten(Flatten(chunks[..k - 1]))) + Reals(Flatten(chunks[k - 1]))
  {
    FlattenAppend(chunks[..k - 1], chunks[k - 1]);
    assert chunks[..k - 1] + [chunks[k - 1]] == chunks[..k];
    FlattenConcat(Flatten(chunks[..k - 1]), chunks[k - 1]);
    RealsConcat(Flatten(Flatten(chunks[..k - 1])), Flatten(chunks[k - 1]));
  }

  /** The chunks of the first `k` partitions hold the edges into the vertices before the
      end of the last of them. */
  lemma {:induction false} ChunksHoldEdges(chunks: seq<seq<seq<Record>>>, rows: seq<seq<Record>>, size: nat, subs: nat, align: nat, k: nat)
    requires subs > 0 && align > 0 && Tagged(rows) && k <= |chunks|
    requires forall p :: 0 <= p < |chunks| ==> PartitionFilled(chunks[p], rows, size, subs, align, p)
    ensures multiset(Reals(Flatten(Flatten(chunks[..k])))) == multiset(Part(rows, 0, Min(From(k, size), |rows|)))
  {
    if k > 0 {
      ChunksHoldEdges(chunks, rows, size, subs, align, k - 1);
      AllRealsNext(chunks, k);
      assert PartitionFilled(chunks[k - 1], rows, size, subs, align, k - 1);
      PartitionHoldsOrder(chunks[k - 1], rows, size, subs, align, k - 1);
      OrderedProps(rows, size, k - 1);
      PartsJoined(rows, From(k - 1, size), To(k - 1, size, |rows|),
                  Reals(Flatten(Flatten(chunks[..k - 1]))), Reals(Flatten(chunks[k - 1])));
    } else {
      assert chunks[..0] == [];
      assert Part(rows, 0, 0) == [];
    }
  }

  lemma PartsJoined(rows: seq<seq<Record>>, a: nat, b: nat, s: seq<Record>, t: seq<Record>)
    requires a <= b <= |rows|
    requires multiset(s) == multiset(Part(rows, 0, a)) && multiset(t) == multiset(Part(rows, a, b))
    ensures multiset(s + t) == multiset(Part(rows, 0, b))
  {
    PartSplit(rows, a, b);
  }

  lemma PartSplit(rows: seq<seq<Record>>, a: nat, b: nat)
    requires a <= b <= |rows|
    ensures Part(rows, 0, b) == Part(rows, 0, a) + Part(rows, a, b)
  {
    StartMono(rows, a, b);
    StartMono(rows, b, |rows|);
    FlattenLength(rows);
  }

  // ----- conservation -----

  lemma Removed<T>(t: seq<T>, i: nat)
    requires i < |t|
    ensures multiset(t) == multiset(t[..i] + t[i + 1..]) + multiset{t[i]}
  {
    assert t == t[..i] + [t[i]] + t[i + 1..];
  }

  lemma RestoredRemoved(kept: seq<int>, t: seq<Record>, i: nat)
    requires i < |t|
    ensures multiset(Restored(kept, t))
         == multiset(Restored(kept, t[..i] + t[i + 1..])) + multiset{Record(Back(kept, t[i].src), Back(kept, t[i].dst))}
  {
    Removed(Restored(kept, t), i);
    assert Restored(kept, t)[..i] + Restored(kept, t)[i + 1..] == Restored(kept, t[..i] + t[i + 1..]);
  }

  lemma RemovedBoth<T>(s: seq<T>, t: seq<T>, i: nat)
    requires multiset(s) == multiset(t) && s != [] && i < |t| && t[i] == s[0]
    ensures multiset(s[..0] + s[1..]) == multiset(t[..i] + t[i + 1..])
  {
    Removed(s, 0);
    Removed(t, i);
    assert multiset(s[..0] + s[1..]) == multiset(s) - multiset{s[0]};
    assert multiset(t[..i] + t[i + 1..]) == multiset(t) - multiset{s[0]};
  }

  lemma Occurrence<T>(s: seq<T>, t: seq<T>) returns (i: nat)
    requires multiset(s) == multiset(t) && s != []
    ensures i < |t| && t[i] == s[0]
  {
    assert s[0] in multiset(t);
    i :| 0 <= i < |t| && t[i] == s[0];
  }

  lemma {:induction false} RestoredMultiset(kept: seq<int>, s: seq<Record>, t: seq<Record>)
    requires multiset(s) == multiset(t)
    ensures multiset(Restored(kept, s)) == multiset(Restored(kept, t))
  {
    if s == [] {
      assert |t| == |multiset(t)| == 0;
    } else {
      var i := Occurrence(s, t);
      RemovedBoth(s, t, i);
      RestoredMultiset(kept, s[..0] + s[1..], t[..i] + t[i + 1..]);
      RestoredRemoved(kept, s, 0);
      RestoredRemoved(kept, t, i);
    }
  }

  lemma {:induction false} CompressedTagged(rows: seq<seq<int>>, rapo: seq<int>, n: nat)
    requires GoodInput(rows, rapo) && n <= |rows|
    ensures Tagged(CompressedRows(rows, rapo, n))
  {
    if n > 0 { CompressedTagged(rows, rapo, n - 1); }
  }

  /** A dead source shows in the edges but not in the restored records. */
  lemma {:induction false} DeadSourceListed(rows: seq<seq<int>>, rapo: seq<int>, n: nat, v: nat, k: nat)
    requires GoodInput(rows, rapo) && v < n <= |rows| && Live(rapo, v) && k < |rows[v]|
    ensures Record(rows[v][k], v) in LiveEdges(rows, rapo, n)
  {
    if v == n - 1 {
      assert EdgesInto(rows[v], v)[k] == Record(rows[v][k], v);
    } else {
      DeadSourceListed(rows, rapo, n - 1, v, k);
    }
  }

  lemma RestoredSourcesLive(rapo: seq<int>, n: nat, recs: seq<Record>, x: Record)
    requires n + 1 == |rapo| && x in Restored(Kept(rapo, n), recs) && 0 <= x.src < n
    ensures Live(rapo, x.src)
  {
    KeptAreLive(rapo, n);
  }

  /** End to end: the non-padding records of all chunks, under the old numbers, are the
      edges of the graph whose destination has out-edges, each as often as in the graph,
      if and only if all sources of these edges have out-edges too. */
  lemma EdgesConserved(chunks: seq<seq<seq<Record>>>, rows: seq<seq<int>>, rapo: seq<int>, size: nat, subs: nat, align: nat)
    requires GoodInput(rows, rapo) && size > 0 && subs > 0 && align > 0
    requires |chunks| == CeilDiv(|Kept(rapo, |rows|)|, size)
    requires var compressed := CompressedRows(rows, rapo, |rows|);
             forall p :: 0 <= p < |chunks| ==> PartitionFilled(chunks[p], compressed, size, subs, align, p)
    ensures multiset(Restored(Kept(rapo, |rows|), Reals(Flatten(Flatten(chunks))))) == multiset(LiveEdges(rows, rapo, |rows|))
       <==> SourcesLive(rows, rapo, |rows|)
  {
    var n, kept, compressed := |rows|, Kept(rapo, |rows|), CompressedRows(rows, rapo, |rows|);
    CompressedTagged(rows, rapo, n);
    var reals := Reals(Flatten(Flatten(chunks)));
    ChunksHoldAllEdges(chunks, compressed, size, subs, align);
    RestoredMultiset(kept, reals, Flatten(compressed));
    CompressionRestores(rows, rapo, n);
    if multiset(Restored(kept, reals)) == multiset(LiveEdges(rows, rapo, n)) {
      RestoredMeansLive(rows, rapo, reals);
    }
  }

  lemma ChunksHoldAllEdges(chunks: seq<seq<seq<Record>>>, rows: seq<seq<Record>>, size: nat, subs: nat, align: nat)
    requires size > 0 && subs > 0 && align > 0 && Tagged(rows)
    requires |chunks| == CeilDiv(|rows|, size)
    requires forall p :: 0 <= p < |chunks| ==> PartitionFilled(chunks[p], rows, size, subs, align, p)
    ensures multiset(Reals(Flatten(Flatten(chunks)))) == multiset(Flatten(rows))
  {
    ChunksHoldEdges(chunks, rows, size, subs, align, |chunks|);
    assert chunks[..|chunks|] == chunks;
    CeilDivBounds(|rows|, size);
    FromIs(|chunks|, size);
    FlattenLength(rows);
    assert Part(rows, 0, |rows|) == Flatten(rows);
  }

  /** If the restored records are the edges, the sources of these are not dead. */
  lemma RestoredMeansLive(rows: seq<seq<int>>, rapo: seq<int>, recs: seq<Record>)
    requires GoodInput(rows, rapo)
    requires multiset(Restored(Kept(rapo, |rows|), recs)) == multiset(LiveEdges(rows, rapo, |rows|))
    ensures SourcesLive(rows, rapo, |rows|)
  {
    var n, restored := |rows|, Restored(Kept(rapo, |rows|), recs);
    forall v | 0 <= v < n && Live(rapo, v) ensures RowLive(rows, rapo, v) {
      forall k | 0 <= k < |rows[v]| ensures Live(rapo, rows[v][k]) {
        var x := Record(rows[v][k], v);
        DeadSourceListed(rows, rapo, n, v, k);
        assert x in multiset(LiveEdges(rows, rapo, n));
        assert x in multiset(restored);
        RestoredSourcesLive(rapo, n, recs, x);
      }
    }
  }

  /** A graph that is not conserved: vertex 1 has no out-edge but is a source of vertex 0.
      Its number is that of vertex 2, the next one kept, and so its edge comes back as one
      from vertex 2. */
  lemma DeadSourceExample()
    ensures var rows, rapo := [[1], [], []], [0, 1, 1, 2];
            && GoodInput(rows, rapo) && !SourcesLive(rows, rapo, 3)
            && LiveEdges(rows, rapo, 3) == [Record(1, 0)]
            && Restored(Kept(rapo, 3), Flatten(CompressedRows(rows, rapo, 3))) == [Record(2, 0)]
  {
    var rows, rapo := [[1], [], []], [0, 1, 1, 2];
    DeadSourceKept();
    assert rows[0][0] == 1 && Live(rapo, 0) && !Live(rapo, 1) && Live(rapo, 2);
    assert !RowLive(rows, rapo, 0) by { assert !Live(rapo, rows[0][0]); }
    assert LiveEdges(rows, rapo, 1) == [] + EdgesInto([1], 0);
    assert EdgesInto([], 2) == [];
    DeadSourceRows();
  }

  lemma DeadSourceKept()
    ensures var rapo := [0, 1, 1, 2];
            Kept(rapo, 1) == [0] && Kept(rapo, 2) == [0] && Kept(rapo, 3) == [0, 2]
  {
  }

  lemma DeadSourceRows()
    ensures var rows, rapo := [[1], [], []], [0, 1, 1, 2];
            && GoodInput(rows, rapo)
            && Flatten(CompressedRows(rows, rapo, 3)) == [Record(1, 0)]
  {
    var rows, rapo := [[1], [], []], [0, 1, 1, 2];
    DeadSourceKept();
    var row, empty := CompressedRow(rows, rapo, 0, 0), CompressedRow(rows, rapo, 2, 1);
    assert row == [Record(1, 0)] && empty == [];
    assert CompressedRows(rows, rapo, 1) == [] + [row];
    assert CompressedRows(rows, rapo, 2) == [row];
    assert CompressedRows(rows, rapo, 3) == [row] + [empty];
    FlattenAppend([row], empty);
    FlattenAppend([], row);
  }
}
