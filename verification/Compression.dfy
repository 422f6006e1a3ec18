/** Leaving out the vertices without out-edges, and the edges into them. */
module Compression {
  import opened Rows

  /** An edge as the accelerator reads it. */
  datatype Record = Record(src: int, dst: int)

  predicate Live(rapo: seq<int>, v: int)
    requires 0 <= v < |rapo| - 1
  {
    rapo[v + 1] - rapo[v] > 0
  }

  /** The vertices below `n` with out-edges, in order, and those without. */
  function Kept(rapo: seq<int>, n: nat): seq<int>
    requires n < |rapo|
  {
    if n == 0 then [] else Kept(rapo, n - 1) + if Live(rapo, n - 1) then [n - 1] else []
  }

  function Dropped(rapo: seq<int>, n: nat): seq<int>
    requires n < |rapo|
  {
    if n == 0 then [] else Dropped(rapo, n - 1) + if Live(rapo, n - 1) then [] else [n - 1]
  }

  /** The out-degrees of the vertices kept. */
  function Degrees(rapo: seq<int>, n: nat): seq<int>
    requires n < |rapo|
  {
    if n == 0 then [] else Degrees(rapo, n - 1) + if Live(rapo, n - 1) then [rapo[n] - rapo[n - 1]] else []
  }

  /** The new numbers of the vertices below `n`. */
  function Numbers(rapo: seq<int>, n: nat): seq<int>
    requires n < |rapo|
  {
    if n == 0 then [] else Numbers(rapo, n - 1) + [|Kept(rapo, n - 1)|]
  }

  lemma {:induction false} NumbersAre(rapo: seq<int>, n: nat)
    requires n < |rapo|
    ensures |Numbers(rapo, n)| == n && forall v :: 0 <= v < n ==> Numbers(rapo, n)[v] == |Kept(rapo, v)|
  {
    if n > 0 { NumbersAre(rapo, n - 1); }
  }

  lemma ListsNext(rapo: seq<int>, v: nat)
    requires v + 1 < |rapo|
    ensures Kept(rapo, v + 1) == Kept(rapo, v) + if Live(rapo, v) then [v] else []
    ensures Dropped(rapo, v + 1) == Dropped(rapo, v) + if Live(rapo, v) then [] else [v]
    ensures Numbers(rapo, v + 1) == Numbers(rapo, v) + [|Kept(rapo, v)|]
    ensures Degrees(rapo, v + 1) == Degrees(rapo, v) + if Live(rapo, v) then [rapo[v + 1] - rapo[v]] else []
  {
  }

  lemma {:induction false} DegreesOfKept(rapo: seq<int>, n: nat)
    requires n < |rapo|
    ensures |Degrees(rapo, n)| == |Kept(rapo, n)|
    ensures forall j :: 0 <= j < |Kept(rapo, n)| ==>
              0 <= Kept(rapo, n)[j] < n && Degrees(rapo, n)[j] == rapo[Kept(rapo, n)[j] + 1] - rapo[Kept(rapo, n)[j]]
  {
    if n > 0 { DegreesOfKept(rapo, n - 1); }
  }

  lemma {:induction false} KeptPrefix(rapo: seq<int>, v: nat, n: nat)
    requires v <= n < |rapo|
    ensures |Kept(rapo, v)| <= |Kept(rapo, n)| && Kept(rapo, n)[..|Kept(rapo, v)|] == Kept(rapo, v)
    ensures forall k :: |Kept(rapo, v)| <= k < |Kept(rapo, n)| ==> v <= Kept(rapo, n)[k]
    ensures forall k :: 0 <= k < |Kept(rapo, v)| ==> Kept(rapo, v)[k] < v
  {
    if v < n {
      KeptPrefix(rapo, v, n - 1);
    } else if 0 < n {
      KeptPrefix(rapo, n - 1, n - 1);
    }
  }

  lemma {:induction false} KeptAreLive(rapo: seq<int>, n: nat)
    requires n < |rapo|
    ensures |Kept(rapo, n)| + |Dropped(rapo, n)| == n
    ensures forall k :: 0 <= k < |Kept(rapo, n)| ==> 0 <= Kept(rapo, n)[k] < n && Live(rapo, Kept(rapo, n)[k])
    ensures forall k :: 0 <= k < |Dropped(rapo, n)| ==> 0 <= Dropped(rapo, n)[k] < n && !Live(rapo, Dropped(rapo, n)[k])
    ensures forall k, l :: 0 <= k < l < |Kept(rapo, n)| ==> Kept(rapo, n)[k] < Kept(rapo, n)[l]
    ensures forall k, l :: 0 <= k < l < |Dropped(rapo, n)| ==> Dropped(rapo, n)[k] < Dropped(rapo, n)[l]
  {
    if n > 0 { KeptAreLive(rapo, n - 1); }
  }

  /** The new number of a vertex leads back to it exactly when the vertex has out-edges;
      any other vertex shares its number with the next one kept. */
  lemma IndexLeadsBack(rapo: seq<int>, v: nat, n: nat)
    requires v < n < |rapo|
    ensures var k, kept := |Kept(rapo, v)|, Kept(rapo, n);
            k < |kept| && kept[k] == v <==> Live(rapo, v)
  {
    KeptPrefix(rapo, v, n);
    KeptPrefix(rapo, v + 1, n);
    var k, kept := |Kept(rapo, v)|, Kept(rapo, n);
    if Live(rapo, v) {
      assert kept[..k + 1][k] == v;
    }
  }

  // ----- edges -----

  /** In-neighbour lists and out-row pointers of one graph. */
  ghost predicate GoodInput(rows: seq<seq<int>>, rapo: seq<int>) {
    |rapo| == |rows| + 1 && forall v, k :: 0 <= v < |rows| && 0 <= k < |rows[v]| ==> 0 <= rows[v][k] < |rows|
  }

  /** The edges into one vertex. */
  function EdgesInto(row: seq<int>, v: int): seq<Record> {
    seq(|row|, k requires 0 <= k < |row| => Record(row[k], v))
  }

  /** The edges whose destination, below `n`, has out-edges. */
  ghost function LiveEdges(rows: seq<seq<int>>, rapo: seq<int>, n: nat): seq<Record>
    requires n <= |rows| < |rapo|
  {
    if n == 0 then []
    else LiveEdges(rows, rapo, n - 1) + if Live(rapo, n - 1) then EdgesInto(rows[n - 1], n - 1) else []
  }

  /** The edges into vertex `v`, whose new number is `j`, under the new numbers. */
  ghost function CompressedRow(rows: seq<seq<int>>, rapo: seq<int>, v: int, j: int): seq<Record>
    requires GoodInput(rows, rapo) && 0 <= v < |rows|
  {
    seq(|rows[v]|, k requires 0 <= k < |rows[v]| => Record(|Kept(rapo, rows[v][k])|, j))
  }

  /** The compressed rows of the vertices below `n`. */
  ghost function CompressedRows(rows: seq<seq<int>>, rapo: seq<int>, n: nat): (r: seq<seq<Record>>)
    requires GoodInput(rows, rapo) && n <= |rows|
    ensures |r| == |Kept(rapo, n)|
  {
    if n == 0 then []
    else
      var r := CompressedRows(rows, rapo, n - 1);
      if Live(rapo, n - 1) then r + [CompressedRow(rows, rapo, n - 1, |r|)] else r
  }

  /** One old vertex number, or -1 for a number that was not given out. */
  function Back(kept: seq<int>, x: int): int {
    if 0 <= x < |kept| then kept[x] else -1
  }

  /** Records under the old numbers. */
  function Restored(kept: seq<int>, recs: seq<Record>): (r: seq<Record>)
    ensures |r| == |recs|
  {
    seq(|recs|, k requires 0 <= k < |recs| => Record(Back(kept, recs[k].src), Back(kept, recs[k].dst)))
  }

  lemma RestoredConcat(kept: seq<int>, a: seq<Record>, b: seq<Record>)
    ensures Restored(kept, a + b) == Restored(kept, a) + Restored(kept, b)
  {
  }

  /** Every in-neighbour of a kept vertex below `n` is kept. */
  ghost predicate SourcesLive(rows: seq<seq<int>>, rapo: seq<int>, n: nat)
    requires GoodInput(rows, rapo) && n <= |rows|
  {
    forall v :: 0 <= v < n && Live(rapo, v) ==> RowLive(rows, rapo, v)
  }

  ghost predicate RowLive(rows: seq<seq<int>>, rapo: seq<int>, v: nat)
    requires GoodInput(rows, rapo) && v < |rows|
  {
    forall k :: 0 <= k < |rows[v]| ==> Live(rapo, rows[v][k])
  }

  lemma RowRestored(rows: seq<seq<int>>, rapo: seq<int>, v: nat)
    requires GoodInput(rows, rapo) && v < |rows| && Live(rapo, v)
    ensures Restored(Kept(rapo, |rows|), CompressedRow(rows, rapo, v, |Kept(rapo, v)|)) == EdgesInto(rows[v], v)
            <==> RowLive(rows, rapo, v)
  {
    var kept, row := Kept(rapo, |rows|), rows[v];
    var r := Restored(kept, CompressedRow(rows, rapo, v, |Kept(rapo, v)|));
    IndexLeadsBack(rapo, v, |rows|);
    KeptAreLive(rapo, |rows|);
    forall k | 0 <= k < |row| ensures r[k] == EdgesInto(row, v)[k] <==> Live(rapo, row[k]) {
      IndexLeadsBack(rapo, row[k], |rows|);
    }
    if RowLive(rows, rapo, v) {
      assert r == EdgesInto(row, v);
    }
  }

  lemma SourcesNext(rows: seq<seq<int>>, rapo: seq<int>, n: nat)
    requires GoodInput(rows, rapo) && 0 < n <= |rows|
    ensures SourcesLive(rows, rapo, n) <==> SourcesLive(rows, rapo, n - 1) && (Live(rapo, n - 1) ==> RowLive(rows, rapo, n - 1))
  {
  }

  /** A vertex left out adds nothing. */
  lemma NothingNext(rows: seq<seq<int>>, rapo: seq<int>, v: nat)
    requires GoodInput(rows, rapo) && v < |rows| && !Live(rapo, v)
    ensures CompressedRows(rows, rapo, v + 1) == CompressedRows(rows, rapo, v)
    ensures LiveEdges(rows, rapo, v + 1) == LiveEdges(rows, rapo, v)
  {
  }

  /** The step for a kept vertex, `v`. */
  lemma RestoresNext(rows: seq<seq<int>>, rapo: seq<int>, v: nat)
    requires GoodInput(rows, rapo) && v < |rows| && Live(rapo, v)
    requires |Flatten(CompressedRows(rows, rapo, v))| == |LiveEdges(rows, rapo, v)|
    ensures var kept, flat := Kept(rapo, |rows|), Flatten(CompressedRows(rows, rapo, v));
            var flat', live' := Flatten(CompressedRows(rows, rapo, v + 1)), LiveEdges(rows, rapo, v + 1);
            && |flat'| == |live'|
            && (Restored(kept, flat') == live' <==> Restored(kept, flat) == LiveEdges(rows, rapo, v) && RowLive(rows, rapo, v))
  {
    var kept, init := Kept(rapo, |rows|), CompressedRows(rows, rapo, v);
    var row := CompressedRow(rows, rapo, v, |init|);
    FlattenAppend(init, row);
    RestoredConcat(kept, Flatten(init), row);
    RowRestored(rows, rapo, v);
    SamePieces(Restored(kept, Flatten(init)), Restored(kept, row), LiveEdges(rows, rapo, v), EdgesInto(rows[v], v));
  }

  /** Under the old numbers the compressed edges are, in order, the edges whose
      destination has out-edges, if and only if all their sources have out-edges too. */
  lemma {:induction false} CompressionRestores(rows: seq<seq<int>>, rapo: seq<int>, n: nat)
    requires GoodInput(rows, rapo) && n <= |rows|
    ensures var r := Restored(Kept(rapo, |rows|), Flatten(CompressedRows(rows, rapo, n)));
            && |r| == |LiveEdges(rows, rapo, n)|
            && (r == LiveEdges(rows, rapo, n) <==> SourcesLive(rows, rapo, n))
  {
    if n > 0 {
      CompressionRestores(rows, rapo, n - 1);
      SourcesNext(rows, rapo, n);
      if Live(rapo, n - 1) {
        RestoresNext(rows, rapo, n - 1);
      } else {
        NothingNext(rows, rapo, n - 1);
      }
    }
  }

  lemma SamePieces(a: seq<Record>, b: seq<Record>, c: seq<Record>, d: seq<Record>)
    requires |a| == |c|
    ensures a + b == c + d <==> a == c && b == d
  {
    if a + b == c + d {
      assert a == (a + b)[..|a|] && b == (a + b)[|a|..];
    }
  }

  // ----- the loader -----

  /** Numbers the vertices; a vertex left out gets the number of the next one kept. */
  method CompressVertices(rapo: seq<int>, n: nat) returns (mapping: array<int>, outDeg: seq<int>, kept: seq<int>, zero: seq<int>)
    requires |rapo| == n + 1
    ensures fresh(mapping) && mapping.Length == n && forall v :: 0 <= v < n ==> mapping[v] == |Kept(rapo, v)|
    ensures kept == Kept(rapo, n) && zero == Dropped(rapo, n)
    ensures outDeg == Degrees(rapo, n)
  {
    mapping := new int[n];
    outDeg, kept, zero := [], [], [];
    var numMapped, numDeleted := 0, 0;
    for i := 0 to n
      invariant mapping[..i] == Numbers(rapo, i)
      invariant kept == Kept(rapo, i) && zero == Dropped(rapo, i)
      invariant numMapped == |kept| && numDeleted == |zero|
      invariant outDeg == Degrees(rapo, i)
    {
      ListsNext(rapo, i);
      mapping[i] := numMapped;
      var outdeg := rapo[i + 1] - rapo[i];
      if outdeg > 0 {
        outDeg := outDeg + [outdeg];
        kept := kept + [i];
        numMapped := numMapped + 1;
      } else {
        zero := zero + [i];
        numDeleted := numDeleted + 1;
      }
      assert mapping[..i + 1] == mapping[..i] + [mapping[i]];
    }
    NumbersAre(rapo, n);
    assert mapping[..n] == mapping[..];
  }

  /** Sources and destinations kept in two vectors. */
  function Zip(cia: seq<int>, dests: seq<int>): seq<Record>
    requires |cia| == |dests|
  {
    seq(|cia|, k requires 0 <= k < |cia| => Record(cia[k], dests[k]))
  }

  lemma {:induction false} CompressedRowAt(rows: seq<seq<int>>, rapo: seq<int>, n: nat, j: nat)
    requires GoodInput(rows, rapo) && n <= |rows| && j < |Kept(rapo, n)|
    ensures 0 <= Kept(rapo, n)[j] < n
    ensures CompressedRows(rows, rapo, n)[j] == CompressedRow(rows, rapo, Kept(rapo, n)[j], j)
  {
    if j < |Kept(rapo, n - 1)| {
      CompressedRowAt(rows, rapo, n - 1, j);
    }
  }

  /** The edges into the kept vertices, under the new numbers. */
  method CompressEdges(rapi: seq<int>, ciai: seq<int>, rapo: seq<int>, kept: seq<int>, mapping: array<int>, ghost rows: seq<seq<int>>)
    returns (rpa: seq<int>, cia: seq<int>, dests: seq<int>)
    requires GoodInput(rows, rapo) && Represents(rapi, ciai, rows)
    requires kept == Kept(rapo, |rows|)
    requires mapping.Length == |rows| && forall v :: 0 <= v < |rows| ==> mapping[v] == |Kept(rapo, v)|
    ensures |cia| == |dests| && Represents(rpa, Zip(cia, dests), CompressedRows(rows, rapo, |rows|))
  {
    ghost var all := CompressedRows(rows, rapo, |rows|);
    rpa, cia, dests := [0], [], [];
    assert all[..0] == [];
    for j := 0 to |kept|
      invariant |cia| == |dests| && Represents(rpa, Zip(cia, dests), all[..j])
    {
      CompressedRowAt(rows, rapo, |rows|, j);
      RowOf(rapi, ciai, rows, kept[j]);
      var inDeg := rapi[kept[j] + 1] - rapi[kept[j]];
      AppendRow(rpa, Zip(cia, dests), all[..j], all[j]);
      assert all[..j] + [all[j]] == all[..j + 1];
      rpa := rpa + [rpa[j] + inDeg];
      cia, dests := PushRow(ciai, rapi[kept[j]], inDeg, mapping, cia, dests, j, rapo, rows, kept[j]);
    }
    assert all[..|kept|] == all;
  }

  /** The inner loop: the in-neighbours of `v`, the kept vertex with number `j`. */
  method PushRow(ciai: seq<int>, bias: nat, inDeg: nat, mapping: array<int>, cia0: seq<int>, dests0: seq<int>, j: nat,
                 ghost rapo: seq<int>, ghost rows: seq<seq<int>>, ghost v: nat)
    returns (cia: seq<int>, dests: seq<int>)
    requires GoodInput(rows, rapo) && v < |rows| && |cia0| == |dests0|
    requires inDeg == |rows[v]| && bias + inDeg <= |ciai| && ciai[bias..bias + inDeg] == rows[v]
    requires mapping.Length == |rows| && forall u :: 0 <= u < |rows| ==> mapping[u] == |Kept(rapo, u)|
    ensures |cia| == |dests| && Zip(cia, dests) == Zip(cia0, dests0) + CompressedRow(rows, rapo, v, j)
  {
    cia, dests := cia0, dests0;
    for k := 0 to inDeg
      invariant |cia| == |dests| && Zip(cia, dests) == Zip(cia0, dests0) + CompressedRow(rows, rapo, v, j)[..k]
    {
      assert ciai[bias + k] == ciai[bias..bias + inDeg][k] == rows[v][k];
      ghost var row := CompressedRow(rows, rapo, v, j);
      assert row[..k + 1] == row[..k] + [row[k]];
      ghost var x := mapping[ciai[bias + k]];
      assert Zip(cia + [x], dests + [j]) == Zip(cia, dests) + [Record(x, j)];
      cia := cia + [mapping[ciai[bias + k]]];
      dests := dests + [j];
    }
    assert CompressedRow(rows, rapo, v, j)[..inDeg] == CompressedRow(rows, rapo, v, j);
  }
}
