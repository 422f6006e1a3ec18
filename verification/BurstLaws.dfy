/** Whole runs of a burst port, word by word and byte by byte. */
module BurstLaws {
  import opened BurstMaxi

  /** A program whose operations fit the memory. */
  ghost predicate Program(width: nat, mem: seq<Word>, ops: seq<Op>) {
    Words(mem, width) && forall i :: 0 <= i < |ops| ==> OpFits(ops[i], |mem|, width)
  }

  // ----- traces -----

  /** An accepted operation leads from one run to the next. */
  ghost predicate Next(r: Run, op: Op, r': Run) {
    r.Running? && r'.Running? && Balanced(r) && Fits(r.s, op) && r' == Extend(r, op)
  }

  /** The runs after 0, 1, and so on operations. */
  ghost predicate Trace(width: nat, mem: seq<Word>, ops: seq<Op>, rs: seq<Run>) {
    && |rs| == |ops| + 1
    && rs[0] == Running(Initial(width, mem), [], [], [], [], [], [])
    && (forall k :: 0 <= k < |rs| ==> rs[k].Running?)
    && (forall k :: 0 <= k < |rs| ==> GoodAt(rs, k, |mem|))
    && (forall k :: 0 <= k < |ops| ==> StepAt(ops, rs, k))
  }

  ghost predicate GoodAt(rs: seq<Run>, k: nat, n: nat)
    requires k < |rs|
  {
    rs[k].Running? && Balanced(rs[k]) && |rs[k].s.mem| == n
  }

  ghost predicate StepAt(ops: seq<Op>, rs: seq<Run>, k: nat)
    requires k < |ops| && k + 1 < |rs|
  {
    Next(rs[k], ops[k], rs[k + 1])
  }

  lemma ExecuteNext(width: nat, mem: seq<Word>, ops: seq<Op>)
    requires Program(width, mem, ops) && ops != [] && Execute(width, mem, ops).Running?
    ensures Program(width, mem, ops[..|ops| - 1])
    ensures Next(Execute(width, mem, ops[..|ops| - 1]), ops[|ops| - 1], Execute(width, mem, ops))
  {
    assert OpFits(ops[|ops| - 1], |mem|, width);
  }

  /** Every run that is not aborted has its trace. */
  lemma {:induction false} TraceOf(width: nat, mem: seq<Word>, ops: seq<Op>, r: Run) returns (rs: seq<Run>)
    requires Program(width, mem, ops) && r == Execute(width, mem, ops) && r.Running?
    ensures Trace(width, mem, ops, rs) && rs[|ops|] == r
  {
    if ops == [] {
      rs := [r];
    } else {
      var init := ops[..|ops| - 1];
      ExecuteNext(width, mem, ops);
      var rs0 := TraceOf(width, mem, init, Execute(width, mem, init));
      rs := rs0 + [r];
      TraceNext(width, mem, ops, rs0, r);
    }
  }

  lemma TraceNext(width: nat, mem: seq<Word>, ops: seq<Op>, rs: seq<Run>, r: Run)
    requires ops != [] && Trace(width, mem, ops[..|ops| - 1], rs)
    requires Next(rs[|ops| - 1], ops[|ops| - 1], r) && Balanced(r) && |r.s.mem| == |mem|
    ensures Trace(width, mem, ops, rs + [r])
  {
    var all, init, n := rs + [r], ops[..|ops| - 1], |ops| - 1;
    forall k | 0 <= k < |ops| ensures StepAt(ops, all, k) {
      if k < n {
        assert StepAt(init, rs, k);
        SameStep(init, ops, rs, all, k);
      } else {
        LastStep(ops, all, rs[n], r);
      }
    }
    forall k | 0 <= k < |all| ensures GoodAt(all, k, |mem|) {
      if k < |rs| {
        assert GoodAt(rs, k, |mem|);
        SameGood(rs, all, k, |mem|);
      } else {
        LastGood(all, r, |mem|);
      }
    }
    assert all[0] == rs[0];
  }

  lemma SameStep(ops0: seq<Op>, ops: seq<Op>, rs0: seq<Run>, rs: seq<Run>, k: nat)
    requires k < |ops0| && k < |ops| && k + 1 < |rs0| && k + 1 < |rs|
    requires ops0[k] == ops[k] && rs0[k] == rs[k] && rs0[k + 1] == rs[k + 1]
    ensures StepAt(ops0, rs0, k) == StepAt(ops, rs, k)
  {
  }

  lemma LastStep(ops: seq<Op>, rs: seq<Run>, r0: Run, r: Run)
    requires ops != [] && |rs| == |ops| + 1 && rs[|ops| - 1] == r0 && rs[|ops|] == r && Next(r0, ops[|ops| - 1], r)
    ensures StepAt(ops, rs, |ops| - 1)
  {
  }

  lemma SameGood(rs0: seq<Run>, rs: seq<Run>, k: nat, n: nat)
    requires k < |rs0| && k < |rs| && rs0[k] == rs[k]
    ensures GoodAt(rs0, k, n) == GoodAt(rs, k, n)
  {
  }

  lemma LastGood(rs: seq<Run>, r: Run, n: nat)
    requires rs != [] && rs[|rs| - 1] == r && r.Running? && Balanced(r) && |r.s.mem| == n
    ensures GoodAt(rs, |rs| - 1, n)
  {
  }

  // ----- counting -----

  /** The words that the requests before operation `i` ask for. */
  function Asked(ops: seq<Op>, i: nat): nat
    requires i <= |ops|
  {
    if i == 0 then 0 else Asked(ops, i - 1) + if ops[i - 1].ReadRequest? then ops[i - 1].b.len else 0
  }

  /** The words that they announce to be written. */
  function Announced(ops: seq<Op>, i: nat): nat
    requires i <= |ops|
  {
    if i == 0 then 0 else Announced(ops, i - 1) + if ops[i - 1].WriteRequest? then ops[i - 1].b.len else 0
  }

  function Reads(ops: seq<Op>, i: nat): nat
    requires i <= |ops|
  {
    if i == 0 then 0 else Reads(ops, i - 1) + if ops[i - 1].Read? then 1 else 0
  }

  lemma AddressesLength(n: nat, b: Burst)
    requires b.first + b.len <= n
    ensures |Content(Addresses(n), b)| == b.len
    ensures forall j :: 0 <= j < b.len ==> Content(Addresses(n), b)[j] == b.first + j
  {
  }

  /** What one operation adds to the streams. */
  lemma LedgerNext(r: Run, op: Op, r': Run)
    requires Next(r, op, r')
    ensures r'.promised == r.promised + (if op.ReadRequest? then r.s.mem[op.b.first..op.b.first + op.b.len] else [])
    ensures r'.planned == r.planned + (if op.WriteRequest? then Content(Addresses(|r.s.mem|), op.b) else [])
    ensures |r'.delivered| == |r.delivered| + if op.Read? then 1 else 0
  {
  }

  /** How long the streams are after `i` operations. */
  lemma {:induction false} Lengths(width: nat, mem: seq<Word>, ops: seq<Op>, rs: seq<Run>, i: nat)
    requires Trace(width, mem, ops, rs) && i <= |ops|
    ensures |rs[i].promised| == Asked(ops, i) && |rs[i].planned| == Announced(ops, i) && |rs[i].delivered| == Reads(ops, i)
  {
    if i > 0 {
      Lengths(width, mem, ops, rs, i - 1);
      assert StepAt(ops, rs, i - 1) && GoodAt(rs, i - 1, |mem|);
      LedgerNext(rs[i - 1], ops[i - 1], rs[i]);
      if ops[i - 1].WriteRequest? { AddressesLength(|mem|, ops[i - 1].b); }
    }
  }

  /** The streams only grow. */
  lemma {:induction false} StreamsGrow(width: nat, mem: seq<Word>, ops: seq<Op>, rs: seq<Run>, i: nat, k: nat)
    requires Trace(width, mem, ops, rs) && i <= k <= |ops|
    ensures rs[i].promised <= rs[k].promised && rs[i].planned <= rs[k].planned
  {
    if i < k {
      StreamsGrow(width, mem, ops, rs, i, k - 1);
      assert StepAt(ops, rs, k - 1);
      LedgerNext(rs[k - 1], ops[k - 1], rs[k]);
    }
  }

  // ----- reads and writes, word by word -----

  lemma InStream<T>(before: seq<T>, part: seq<T>, all: seq<T>, done: seq<T>, left: seq<T>, j: nat)
    requires before + part <= all && all == done + left && j < |part|
    ensures |before| + j < |done| ==> done[|before| + j] == part[j]
  {
    assert (before + part)[|before| + j] == part[j];
  }

  /** What a read request adds to the words promised, and that the whole run keeps it. */
  lemma PromisedAt(width: nat, mem: seq<Word>, ops: seq<Op>, rs: seq<Run>, i: nat) returns (part: seq<Word>)
    requires Trace(width, mem, ops, rs) && i < |ops| && ops[i].ReadRequest?
    ensures |rs[i].promised| == Asked(ops, i) && rs[i].promised + part <= rs[|ops|].promised
    ensures var b := ops[i].b; b.first + b.len <= |rs[i].s.mem| && part == rs[i].s.mem[b.first..b.first + b.len]
  {
    assert StepAt(ops, rs, i);
    LedgerNext(rs[i], ops[i], rs[i + 1]);
    StreamsGrow(width, mem, ops, rs, i + 1, |ops|);
    Lengths(width, mem, ops, rs, i);
    part := rs[i].s.mem[ops[i].b.first..ops[i].b.first + ops[i].b.len];
  }

  lemma PlannedAt(width: nat, mem: seq<Word>, ops: seq<Op>, rs: seq<Run>, i: nat) returns (part: seq<nat>)
    requires Trace(width, mem, ops, rs) && i < |ops| && ops[i].WriteRequest?
    ensures |rs[i].planned| == Announced(ops, i) && rs[i].planned + part <= rs[|ops|].planned
    ensures |part| == ops[i].b.len && forall j :: 0 <= j < |part| ==> part[j] == ops[i].b.first + j
  {
    assert StepAt(ops, rs, i);
    LedgerNext(rs[i], ops[i], rs[i + 1]);
    AddressesLength(|rs[i].s.mem|, ops[i].b);
    StreamsGrow(width, mem, ops, rs, i + 1, |ops|);
    Lengths(width, mem, ops, rs, i);
    part := Content(Addresses(|rs[i].s.mem|), ops[i].b);
  }

  /** What is delivered and written is the beginning of what is promised and planned. */
  lemma Outstanding(width: nat, mem: seq<Word>, ops: seq<Op>, rs: seq<Run>) returns (pending: seq<Word>, targets: seq<nat>)
    requires Trace(width, mem, ops, rs)
    ensures rs[|ops|].promised == rs[|ops|].delivered + pending && rs[|ops|].planned == rs[|ops|].written + targets
  {
    assert GoodAt(rs, |ops|, |mem|);
    pending, targets := Pending(rs[|ops|].s), Targets(rs[|ops|].s);
  }

  /** Word `j` of the burst that operation `i` requests is what memory held at that address
      when the request was accepted, and the reads deliver the requested words in order: the
      word comes with the read that as many words precede. */
  lemma DeliveredWord(width: nat, mem: seq<Word>, ops: seq<Op>, rs: seq<Run>, i: nat, j: nat, at: nat)
    requires Trace(width, mem, ops, rs) && i < |ops| && ops[i].ReadRequest? && j < ops[i].b.len && at == Asked(ops, i) + j
    ensures |rs[|ops|].delivered| == Reads(ops, |ops|) && ops[i].b.first + ops[i].b.len <= |rs[i].s.mem|
    ensures at < |rs[|ops|].delivered| ==> rs[|ops|].delivered[at] == rs[i].s.mem[ops[i].b.first + j]
  {
    var part := PromisedAt(width, mem, ops, rs, i);
    var pending, _ := Outstanding(width, mem, ops, rs);
    Lengths(width, mem, ops, rs, |ops|);
    InStream(rs[i].promised, part, rs[|ops|].promised, rs[|ops|].delivered, pending, j);
  }

  /** The words written go, in order, to the addresses of the requested bursts: the word
      that as many announced words precede goes to word `j` of the burst that operation `i`
      requests. */
  lemma WrittenAddress(width: nat, mem: seq<Word>, ops: seq<Op>, rs: seq<Run>, i: nat, j: nat, at: nat)
    requires Trace(width, mem, ops, rs) && i < |ops| && ops[i].WriteRequest? && j < ops[i].b.len && at == Announced(ops, i) + j
    ensures at < |rs[|ops|].written| ==> rs[|ops|].written[at] == ops[i].b.first + j
  {
    var part := PlannedAt(width, mem, ops, rs, i);
    var _, targets := Outstanding(width, mem, ops, rs);
    InStream(rs[i].planned, part, rs[|ops|].planned, rs[|ops|].written, targets, j);
  }

  /** At no time do a queued read and a write that is queued or not acknowledged have an
      address in common. */
  lemma ReadsApart(width: nat, mem: seq<Word>, ops: seq<Op>, rs: seq<Run>, i: nat, m: nat)
    requires Trace(width, mem, ops, rs) && i <= |ops| && GoodAt(rs, i, |mem|) && m < |rs[i].s.readQ|
    ensures ApartFrom(rs[i].s.readQ[m], rs[i].s.writeQ) && ApartFrom(rs[i].s.readQ[m], rs[i].s.respQ)
  {
    var s := rs[i].s;
    assert GoodAt(rs, i, |mem|);
    var b, w := s.readQ[m], s.writeQ + s.respQ;
    forall k | 0 <= k < |w| ensures Apart(b, w[k]) {
      assert w[k] == if k < |s.writeQ| then s.writeQ[k] else s.respQ[k - |s.writeQ|];
      OverlapIsExact(b, w[k]);
      ApartExactly(b, w[k]);
    }
    assert forall k :: 0 <= k < |s.writeQ| ==> w[k] == s.writeQ[k];
    assert forall k :: 0 <= k < |s.respQ| ==> w[|s.writeQ| + k] == s.respQ[k];
  }

  // ----- memory, byte by byte -----

  /** The write with number `k` enables byte `j` of word `i`. */
  predicate Touches(at: seq<nat>, words: seq<Store>, k: nat, i: nat, j: nat)
    requires k < |at| == |words|
  {
    at[k] == i && j < |words[k].mask| && words[k].mask[j]
  }

  /** Write `k` is the last to touch byte `j` of word `i`. */
  ghost predicate LastTouch(at: seq<nat>, words: seq<Store>, k: nat, i: nat, j: nat)
    requires k < |at| == |words|
  {
    Touches(at, words, k, i, j) && forall l :: k < l < |at| ==> !Touches(at, words, l, i, j)
  }

  ghost predicate Untouched(at: seq<nat>, words: seq<Store>, i: nat, j: nat)
    requires |at| == |words|
  {
    forall k :: 0 <= k < |at| ==> !Touches(at, words, k, i, j)
  }

  ghost predicate WordsFit(words: seq<Store>, width: nat) {
    forall k :: 0 <= k < |words| ==> |words[k].val| == |words[k].mask| == width
  }

  lemma {:induction false} StoresFit(width: nat, mem: seq<Word>, ops: seq<Op>)
    requires Program(width, mem, ops)
    ensures WordsFit(Stores(ops), width)
  {
    if ops != [] {
      StoresFit(width, mem, ops[..|ops| - 1]);
      assert OpFits(ops[|ops| - 1], |mem|, width);
    }
  }

  lemma {:induction false} ReplayShape(width: nat, mem: seq<Word>, at: seq<nat>, words: seq<Store>)
    requires Words(mem, width) && |at| == |words| && WordsFit(words, width)
    ensures var m := Replay(mem, at, words); |m| == |mem| && forall i :: 0 <= i < |m| ==> |m[i]| == width
  {
    if at != [] { ReplayShape(width, mem, at[..|at| - 1], words[..|at| - 1]); }
  }

  lemma {:induction false} ReplayByte(width: nat, mem: seq<Word>, at: seq<nat>, words: seq<Store>, i: nat, j: nat)
    requires Words(mem, width) && |at| == |words| && WordsFit(words, width) && i < |mem| && j < width
    ensures var m := Replay(mem, at, words);
            && |m| == |mem| && |m[i]| == width
            && (Untouched(at, words, i, j) ==> m[i][j] == mem[i][j])
            && (forall k :: 0 <= k < |at| && LastTouch(at, words, k, i, j) ==> m[i][j] == words[k].val[j])
  {
    ReplayShape(width, mem, at, words);
    if at != [] {
      var n := |at| - 1;
      var at0, words0 := at[..n], words[..n];
      ReplayShape(width, mem, at0, words0);
      ReplayByte(width, mem, at0, words0, i, j);
      MergedByte(Replay(mem, at0, words0), at[n], words[n], i, j);
      TouchesNext(at, words, i, j);
    }
  }

  lemma MergedByte(m: seq<Word>, a: nat, w: Store, i: nat, j: nat)
    requires i < |m| && j < |m[i]| == |w.val| == |w.mask|
    ensures var m' := Merged(m, a, w);
            |m'| == |m| && |m'[i]| == |m[i]| && m'[i][j] == if a == i && w.mask[j] then w.val[j] else m[i][j]
  {
  }

  /** Which write touches a byte last, with one write more. */
  lemma TouchesNext(at: seq<nat>, words: seq<Store>, i: nat, j: nat)
    requires |at| == |words| > 0
    ensures var n := |at| - 1;
            && (Untouched(at, words, i, j) ==> !Touches(at, words, n, i, j) && Untouched(at[..n], words[..n], i, j))
            && (forall k :: 0 <= k < |at| && LastTouch(at, words, k, i, j) ==>
                  if k == n then Touches(at, words, n, i, j)
                  else !Touches(at, words, n, i, j) && LastTouch(at[..n], words[..n], k, i, j))
  {
    var n := |at| - 1;
    var at0, words0 := at[..n], words[..n];
    forall l | 0 <= l < n ensures Touches(at0, words0, l, i, j) == Touches(at, words, l, i, j) {
    }
  }

  /** After any run each byte of memory is the one last written to it with its byte enabled,
      or the first one if there was none. */
  lemma ByteIsLastWritten(width: nat, mem: seq<Word>, ops: seq<Op>, i: nat, j: nat)
    requires Program(width, mem, ops) && Execute(width, mem, ops).Running? && i < |mem| && j < width
    ensures var r, words := Execute(width, mem, ops), Stores(ops);
            && |r.written| == |words| && |r.s.mem| == |mem| && |r.s.mem[i]| == width && WordsFit(words, width)
            && (Untouched(r.written, words, i, j) ==> r.s.mem[i][j] == mem[i][j])
            && (forall k :: 0 <= k < |words| && LastTouch(r.written, words, k, i, j) ==> r.s.mem[i][j] == words[k].val[j])
  {
    StoresFit(width, mem, ops);
    ReplayByte(width, mem, Execute(width, mem, ops).written, Stores(ops), i, j);
  }
}
