/** The AXI burst port: requests are queued, data moves one word at a time, and a
    request is refused when its range overlaps one that is still in flight in the
    other direction. */
module BurstMaxi {

  type Word = seq<bv8>

  /** A burst: its first word and its length. */
  datatype Burst = Burst(first: nat, len: nat)

  const ADDRESSES := 0x1_0000_0000_0000_0000

  /** The overlap test, with the wrap-around of 64-bit addition. */
  predicate Overlap(a: Burst, b: Burst) {
    if a.first <= b.first then (a.first + a.len) % ADDRESSES > b.first
    else (b.first + b.len) % ADDRESSES > a.first
  }

  ghost predicate Shares(a: Burst, b: Burst) {
    exists i :: In(i, a) && In(i, b)
  }

  predicate In(i: int, a: Burst) {
    a.first <= i < a.first + a.len
  }

  /** For non-empty bursts that end within the address space, the test answers whether
      the two have a word in common. */
  lemma OverlapIsExact(a: Burst, b: Burst)
    requires 0 < a.len && 0 < b.len
    requires a.first + a.len < ADDRESSES && b.first + b.len < ADDRESSES
    ensures Overlap(a, b) <==> Shares(a, b)
  {
    if a.first <= b.first {
      assert In(b.first, b);
    } else {
      assert In(a.first, a);
    }
  }

  // ----- the protocol -----

  /** The memory behind a port, in words of `width` bytes, and its access record. */
  datatype Port = Port(width: nat, mem: seq<Word>, readQ: seq<Burst>, readDisp: nat, writeQ: seq<Burst>, writeDisp: nat, respQ: seq<Burst>)

  datatype Op =
    | ReadRequest(b: Burst)
    | Read
    | WriteRequest(b: Burst)
    | Write(val: Word, mask: seq<bool>)
    | WriteResponse

  /** An operation ends the program or leads to a next state; a read delivers a word. */
  datatype Outcome = Abort | Next(s: Port, out: seq<Word>)

  predicate NoneOverlaps(b: Burst, q: seq<Burst>) {
    forall i :: 0 <= i < |q| ==> !Overlap(b, q[i])
  }

  /** The bytes that are enabled come from `val`. */
  function Merge(old_: Word, val: Word, mask: seq<bool>): Word
    requires |val| == |mask| == |old_|
  {
    seq(|old_|, i requires 0 <= i < |old_| => if mask[i] then val[i] else old_[i])
  }

  function Step(s: Port, op: Op): Outcome
    requires Valid(s) && Fits(s, op)
  {
    match op
    case ReadRequest(b) =>
      if b.len == 0 || !NoneOverlaps(b, s.writeQ + s.respQ) then Abort
      else Next(s.(readQ := s.readQ + [b]), [])
    case Read =>
      if s.readQ == [] then Abort
      else
        var b, d := s.readQ[0], s.readDisp;
        Next(if d + 1 == b.len then s.(readQ := s.readQ[1..], readDisp := 0) else s.(readDisp := d + 1), [s.mem[b.first + d]])
    case WriteRequest(b) =>
      if b.len == 0 || !NoneOverlaps(b, s.readQ) then Abort
      else Next(s.(writeQ := s.writeQ + [b]), [])
    case Write(val, mask) =>
      if s.writeQ == [] then Abort
      else
        var b, d := s.writeQ[0], s.writeDisp;
        var t := s.(mem := s.mem[b.first + d := Merge(s.mem[b.first + d], val, mask)]);
        Next(if d + 1 == b.len then t.(writeQ := t.writeQ[1..], writeDisp := 0, respQ := t.respQ + [b]) else t.(writeDisp := d + 1), [])
    case WriteResponse =>
      if s.respQ == [] then Abort else Next(s.(respQ := s.respQ[1..]), [])
  }

  /** Requests stay within the memory behind the port; written words have its width. */
  predicate Fits(s: Port, op: Op) {
    match op
    case ReadRequest(b) => b.first + b.len <= |s.mem|
    case WriteRequest(b) => b.first + b.len <= |s.mem|
    case Write(val, mask) => |val| == |mask| == s.width
    case _ => true
  }

  predicate InRange(q: seq<Burst>, n: nat) {
    forall i :: 0 <= i < |q| ==> 0 < q[i].len && q[i].first + q[i].len <= n
  }

  /** The record is consistent: a burst in progress is not finished. */
  predicate Valid(s: Port) {
    && |s.mem| < ADDRESSES && (forall i :: 0 <= i < |s.mem| ==> |s.mem[i]| == s.width)
    && InRange(s.readQ, |s.mem|) && InRange(s.writeQ, |s.mem|) && InRange(s.respQ, |s.mem|)
    && (if s.readQ == [] then s.readDisp == 0 else s.readDisp < s.readQ[0].len)
    && (if s.writeQ == [] then s.writeDisp == 0 else s.writeDisp < s.writeQ[0].len)
  }

  /** No queued read has a word in common with a write that is queued or not yet
      acknowledged. */
  ghost predicate Separate(s: Port) {
    forall i, j :: 0 <= i < |s.readQ| && 0 <= j < |s.writeQ + s.respQ| ==> !Shares(s.readQ[i], (s.writeQ + s.respQ)[j])
  }

  // ----- what the reads will deliver -----

  function Content<T>(mem: seq<T>, b: Burst): seq<T>
    requires b.first + b.len <= |mem|
  {
    mem[b.first..b.first + b.len]
  }

  function Contents<T>(mem: seq<T>, q: seq<Burst>): seq<T>
    requires InRange(q, |mem|)
  {
    if q == [] then [] else Content(mem, q[0]) + Contents(mem, q[1..])
  }

  /** What is still to be read, as memory has it now. */
  function Pending(s: Port): seq<Word>
    requires Valid(s)
  {
    Contents(s.mem, s.readQ)[s.readDisp..]
  }

  lemma {:induction false} ContentsAppend<T>(mem: seq<T>, q: seq<Burst>, b: Burst)
    requires InRange(q, |mem|) && 0 < b.len && b.first + b.len <= |mem|
    ensures InRange(q + [b], |mem|)
    ensures Contents(mem, q + [b]) == Contents(mem, q) + Content(mem, b)
  {
    if q == [] {
      assert Contents(mem, (q + [b])[1..]) == [];
    } else {
      ContentsAppend(mem, q[1..], b);
      assert (q + [b])[1..] == q[1..] + [b];
    }
  }

  /** Writing outside all the bursts of a queue does not change what it will read. */
  lemma {:induction false} ContentsFrame<T>(mem: seq<T>, i: nat, w: T, q: seq<Burst>)
    requires i < |mem| && InRange(q, |mem|)
    requires forall j :: 0 <= j < |q| ==> !In(i, q[j])
    ensures Contents(mem[i := w], q) == Contents(mem, q)
  {
    if q != [] {
      assert !In(i, q[0]);
      assert Content(mem[i := w], q[0]) == Content(mem, q[0]);
      ContentsFrame(mem, i, w, q[1..]);
    }
  }

  /** What an accepted operation promises to deliver. */
  function Promise(s: Port, op: Op): seq<Word>
    requires Valid(s) && Fits(s, op)
  {
    match op
    case ReadRequest(b) => Content(s.mem, b)
    case _ => []
  }

  /** Every accepted step keeps the record consistent and reads apart from writes.  What
      it delivers and what is pending afterwards is what was pending before and what it
      promises: writes do not disturb what has been promised. */
  lemma StepKeeps(s: Port, op: Op)
    requires Valid(s) && Separate(s) && Fits(s, op) && Step(s, op).Next?
    ensures var Next(s', out) := Step(s, op);
            Valid(s') && Separate(s') && |s'.mem| == |s.mem| && out + Pending(s') == Pending(s) + Promise(s, op)
  {
    match op
    case ReadRequest(b) => ReadRequestKeeps(s, b);
    case Read => ReadKeeps(s);
    case WriteRequest(b) => WriteRequestKeeps(s, b);
    case Write(val, mask) => WriteKeeps(s, val, mask);
    case WriteResponse => WriteResponseKeeps(s);
  }

  lemma ReadRequestKeeps(s: Port, b: Burst)
    requires Valid(s) && Separate(s) && Fits(s, ReadRequest(b)) && Step(s, ReadRequest(b)).Next?
    ensures var s' := Step(s, ReadRequest(b)).s;
            Valid(s') && Separate(s') && Pending(s') == Pending(s) + Content(s.mem, b)
  {
    var s' := Step(s, ReadRequest(b)).s;
    var w := s.writeQ + s.respQ;
    ContentsAppend(s.mem, s.readQ, b);
    forall i, j | 0 <= i < |s'.readQ| && 0 <= j < |w|
      ensures !Shares(s'.readQ[i], w[j])
    {
      if i == |s.readQ| {
        assert InRange(w, |s.mem|);
        OverlapIsExact(b, w[j]);
      } else {
        assert s'.readQ[i] == s.readQ[i];
      }
    }
  }

  lemma ReadKeeps(s: Port)
    requires Valid(s) && Separate(s) && Step(s, Read).Next?
    ensures var Next(s', out) := Step(s, Read);
            Valid(s') && Separate(s') && s'.mem == s.mem && out + Pending(s') == Pending(s)
  {
    var s' := Step(s, Read).s;
    var b, all := s.readQ[0], Contents(s.mem, s.readQ);
    assert all == Content(s.mem, b) + Contents(s.mem, s.readQ[1..]);
    assert all[s.readDisp] == s.mem[b.first + s.readDisp];
    assert all[s.readDisp..] == [all[s.readDisp]] + all[s.readDisp + 1..];
    if s.readDisp + 1 == b.len {
      assert all[b.len..] == Contents(s.mem, s.readQ[1..]);
      forall i, j | 0 <= i < |s'.readQ| && 0 <= j < |s'.writeQ + s'.respQ|
        ensures !Shares(s'.readQ[i], (s'.writeQ + s'.respQ)[j])
      {
        assert s'.readQ[i] == s.readQ[i + 1];
      }
    }
  }

  lemma WriteRequestKeeps(s: Port, b: Burst)
    requires Valid(s) && Separate(s) && Fits(s, WriteRequest(b)) && Step(s, WriteRequest(b)).Next?
    ensures var s' := Step(s, WriteRequest(b)).s;
            Valid(s') && Separate(s') && s'.mem == s.mem && Pending(s') == Pending(s)
  {
    var s' := Step(s, WriteRequest(b)).s;
    var w, w' := s.writeQ + s.respQ, s'.writeQ + s'.respQ;
    forall i, j | 0 <= i < |s.readQ| && 0 <= j < |w'|
      ensures !Shares(s.readQ[i], w'[j])
    {
      if j < |s.writeQ| {
        assert w'[j] == w[j];
      } else if j == |s.writeQ| {
        OverlapIsExact(b, s.readQ[i]);
        assert Shares(s.readQ[i], b) ==> Shares(b, s.readQ[i]);
      } else {
        assert w'[j] == w[j - 1];
      }
    }
  }

  lemma WriteKeeps(s: Port, val: Word, mask: seq<bool>)
    requires Valid(s) && Separate(s) && Fits(s, Write(val, mask)) && Step(s, Write(val, mask)).Next?
    ensures var s' := Step(s, Write(val, mask)).s;
            Valid(s') && Separate(s') && |s'.mem| == |s.mem| && Pending(s') == Pending(s)
  {
    var s' := Step(s, Write(val, mask)).s;
    var w, w' := s.writeQ + s.respQ, s'.writeQ + s'.respQ;
    var b := s.writeQ[0];
    var i := b.first + s.writeDisp;
    forall j | 0 <= j < |s.readQ|
      ensures !In(i, s.readQ[j])
    {
      assert w[0] == b && In(i, b);
      assert !Shares(s.readQ[j], w[0]);
    }
    ContentsFrame(s.mem, i, Merge(s.mem[i], val, mask), s.readQ);
    forall k, j | 0 <= k < |s.readQ| && 0 <= j < |w'|
      ensures !Shares(s.readQ[k], w'[j])
    {
      if s.writeDisp + 1 == b.len {
        assert w'[j] == if j + 1 < |w| then w[j + 1] else w[0];
      } else {
        assert w'[j] == w[j];
      }
    }
  }

  lemma WriteResponseKeeps(s: Port)
    requires Valid(s) && Separate(s) && Step(s, WriteResponse).Next?
    ensures var s' := Step(s, WriteResponse).s;
            Valid(s') && Separate(s') && s'.mem == s.mem && Pending(s') == Pending(s)
  {
    var s' := Step(s, WriteResponse).s;
    var w, w' := s.writeQ + s.respQ, s'.writeQ + s'.respQ;
    forall i, j | 0 <= i < |s.readQ| && 0 <= j < |w'|
      ensures !Shares(s.readQ[i], w'[j])
    {
      assert w'[j] == if j < |s.writeQ| then w[j] else w[j + 1];
    }
  }

  // ----- where the writes go -----

  function Addresses(n: nat): seq<nat> {
    seq(n, i => i)
  }

  /** The addresses still to be written. */
  function Targets(s: Port): seq<nat>
    requires Valid(s)
  {
    Contents(Addresses(|s.mem|), s.writeQ)[s.writeDisp..]
  }

  /** The addresses an operation plans to write, and the one it writes. */
  function Planned(s: Port, op: Op): seq<nat>
    requires Valid(s) && Fits(s, op)
  {
    match op
    case WriteRequest(b) => Content(Addresses(|s.mem|), b)
    case _ => []
  }

  function Written(s: Port, op: Op): seq<nat>
    requires Valid(s) && Fits(s, op) && Step(s, op).Next?
  {
    match op
    case Write(_, _) => [s.writeQ[0].first + s.writeDisp]
    case _ => []
  }

  /** The write bursts an operation requests and acknowledges. */
  function Requested(op: Op): seq<Burst> {
    match op
    case WriteRequest(b) => [b]
    case _ => []
  }

  function Acknowledged(s: Port, op: Op): seq<Burst>
    requires Valid(s) && Fits(s, op) && Step(s, op).Next?
  {
    match op
    case WriteResponse => [s.respQ[0]]
    case _ => []
  }

  /** Words are written to the planned addresses in order, and bursts are acknowledged
      in the order they were requested, each after all of its words. */
  lemma StepKeepsWrites(s: Port, op: Op)
    requires Valid(s) && Fits(s, op) && Step(s, op).Next? && Valid(Step(s, op).s)
    ensures Written(s, op) + Targets(Step(s, op).s) == Targets(s) + Planned(s, op)
  {
    var s' := Step(s, op).s;
    assert Addresses(|s'.mem|) == Addresses(|s.mem|);
    match op
    case WriteRequest(b) =>
      ContentsAppend(Addresses(|s.mem|), s.writeQ, b);
    case Write(_, _) =>
      WriteAdvances(s, op);
    case _ =>
      assert s'.writeQ == s.writeQ && s'.writeDisp == s.writeDisp;
  }

  lemma StepKeepsBursts(s: Port, op: Op)
    requires Valid(s) && Fits(s, op) && Step(s, op).Next?
    ensures var s' := Step(s, op).s;
            Acknowledged(s, op) + (s'.respQ + s'.writeQ) == s.respQ + s.writeQ + Requested(op)
  {
  }

  lemma WriteAdvances(s: Port, op: Op)
    requires Valid(s) && Fits(s, op) && op.Write? && s.writeQ != [] && Valid(Step(s, op).s)
    ensures Written(s, op) + Targets(Step(s, op).s) == Targets(s)
  {
    var n := Addresses(|s.mem|);
    var b, all := s.writeQ[0], Contents(n, s.writeQ);
    assert all == Content(n, b) + Contents(n, s.writeQ[1..]);
    assert all[s.writeDisp..] == [all[s.writeDisp]] + all[s.writeDisp + 1..];
    assert Addresses(|Step(s, op).s.mem|) == n;
    if s.writeDisp + 1 == b.len {
      assert all[b.len..] == Contents(n, s.writeQ[1..]);
    }
  }

  // ----- whole runs -----

  /** A run's last state and its ledger: words delivered and promised to reads, addresses
      written and planned, write bursts acknowledged and requested.  A refused operation
      ends the program. */
  datatype Run = Aborted | Running(s: Port, delivered: seq<Word>, promised: seq<Word>,
                                   written: seq<nat>, planned: seq<nat>, acked: seq<Burst>, requested: seq<Burst>)

  /** The ledger is balanced. */
  ghost predicate Balanced(r: Run)
    requires r.Running?
  {
    && Valid(r.s) && Separate(r.s)
    && r.delivered + Pending(r.s) == r.promised
    && r.written + Targets(r.s) == r.planned
    && r.acked + (r.s.respQ + r.s.writeQ) == r.requested
    && InRange(r.requested, |r.s.mem|) && r.planned == Contents(Addresses(|r.s.mem|), r.requested)
  }

  /** One operation more. */
  function Extend(r: Run, op: Op): Run
    requires r.Running? && Valid(r.s) && Fits(r.s, op)
  {
    match Step(r.s, op)
    case Abort => Aborted
    case Next(s', out) =>
      Running(s', r.delivered + out, r.promised + Promise(r.s, op),
              r.written + Written(r.s, op), r.planned + Planned(r.s, op),
              r.acked + Acknowledged(r.s, op), r.requested + Requested(op))
  }

  lemma ExtendKeeps(r: Run, op: Op)
    requires r.Running? && Balanced(r) && Fits(r.s, op) && Extend(r, op).Running?
    ensures Balanced(Extend(r, op)) && |Extend(r, op).s.mem| == |r.s.mem| && Extend(r, op).s.width == r.s.width
  {
    var s, s' := r.s, Extend(r, op).s;
    StepKeeps(s, op);
    StepKeepsWrites(s, op);
    StepKeepsBursts(s, op);
    Slide(r.delivered, Step(s, op).out, Pending(s'), Pending(s), Promise(s, op));
    Slide(r.written, Written(s, op), Targets(s'), Targets(s), Planned(s, op));
    Slide(r.acked, Acknowledged(s, op), s'.respQ + s'.writeQ, s.respQ + s.writeQ, Requested(op));
    RequestsArePlanned(s, r.requested, r.planned, op);
  }

  lemma RequestsArePlanned(s: Port, requested: seq<Burst>, planned: seq<nat>, op: Op)
    requires Valid(s) && Fits(s, op) && Step(s, op).Next?
    requires InRange(requested, |s.mem|) && planned == Contents(Addresses(|s.mem|), requested)
    ensures InRange(requested + Requested(op), |s.mem|)
    ensures planned + Planned(s, op) == Contents(Addresses(|s.mem|), requested + Requested(op))
  {
    if op.WriteRequest? {
      ContentsAppend(Addresses(|s.mem|), requested, op.b);
    } else {
      assert requested + Requested(op) == requested;
    }
  }

  /** Moving an item from what is pending to what is done, while something is added. */
  lemma Slide<T>(done: seq<T>, out: seq<T>, pending': seq<T>, pending: seq<T>, added: seq<T>)
    requires out + pending' == pending + added
    ensures done + (out + pending') == done + out + pending'
    ensures done + out + pending' == done + pending + added
  {
    assert done + out + pending' == done + (out + pending');
    assert done + pending + added == done + (pending + added);
  }

  /** A port as its constructor leaves it. */
  function Initial(width: nat, mem: seq<Word>): Port {
    Port(width, mem, [], 0, [], 0, [])
  }

  /** The requests fit a memory of `n` words of `width` bytes. */
  predicate OpFits(op: Op, n: nat, width: nat) {
    match op
    case ReadRequest(b) => b.first + b.len <= n
    case WriteRequest(b) => b.first + b.len <= n
    case Write(val, mask) => |val| == |mask| == width
    case _ => true
  }

  predicate Words(mem: seq<Word>, width: nat) {
    |mem| < ADDRESSES && forall i :: 0 <= i < |mem| ==> |mem[i]| == width
  }

  /** A word and the bytes of it that are enabled. */
  datatype Store = Store(val: Word, mask: seq<bool>)

  /** The words that a program writes. */
  function Stores(ops: seq<Op>): seq<Store> {
    if ops == [] then []
    else
      var op := ops[|ops| - 1];
      Stores(ops[..|ops| - 1]) + if op.Write? then [Store(op.val, op.mask)] else []
  }

  /** Memory after words are merged into it at the given addresses, one after the other. */
  function Replay(mem: seq<Word>, at: seq<nat>, words: seq<Store>): seq<Word>
    requires |at| == |words|
  {
    if at == [] then mem
    else
      var n := |at| - 1;
      Merged(Replay(mem, at[..n], words[..n]), at[n], words[n])
  }

  function Merged(mem: seq<Word>, i: nat, w: Store): seq<Word> {
    if i < |mem| && |w.val| == |w.mask| == |mem[i]| then mem[i := Merge(mem[i], w.val, w.mask)] else mem
  }

  lemma ReplayNext(mem: seq<Word>, at: seq<nat>, words: seq<Store>, i: nat, w: Store)
    requires |at| == |words|
    ensures Replay(mem, at + [i], words + [w]) == Merged(Replay(mem, at, words), i, w)
  {
    assert (at + [i])[..|at|] == at && (words + [w])[..|at|] == words;
  }

  // ----- what an operation does, in plain terms -----

  /** The addresses of a burst. */
  function Span(b: Burst): seq<nat> {
    seq(b.len, i requires 0 <= i < b.len => b.first + i)
  }

  ghost predicate Apart(a: Burst, b: Burst) {
    forall i, j :: 0 <= i < |Span(a)| && 0 <= j < |Span(b)| ==> Span(a)[i] != Span(b)[j]
  }

  lemma ApartExactly(a: Burst, b: Burst)
    requires 0 < a.len && 0 < b.len
    requires a.first + a.len < ADDRESSES && b.first + b.len < ADDRESSES
    ensures Apart(a, b) <==> !Overlap(a, b)
  {
    OverlapIsExact(a, b);
    if Overlap(a, b) {
      var x :| In(x, a) && In(x, b);
      assert Span(a)[x - a.first] == Span(b)[x - b.first];
    }
    forall i, j | 0 <= i < |Span(a)| && 0 <= j < |Span(b)| ensures Span(a)[i] == Span(b)[j] ==> Shares(a, b) {
      assert In(a.first + i, a) && In(b.first + j, b);
    }
  }

  ghost predicate ApartFrom(b: Burst, q: seq<Burst>) {
    forall i :: 0 <= i < |q| ==> Apart(b, q[i])
  }

  lemma ApartFromExactly(b: Burst, q: seq<Burst>, n: nat)
    requires n < ADDRESSES && InRange(q, n) && 0 < b.len && b.first + b.len <= n
    ensures ApartFrom(b, q) <==> NoneOverlaps(b, q)
  {
    forall i | 0 <= i < |q| ensures Apart(b, q[i]) <==> !Overlap(b, q[i]) {
      ApartExactly(b, q[i]);
    }
  }

  /** An operation is refused in these cases and no others: an empty request, a read of
      addresses with a write in flight, a write to addresses still to be read, and data or a
      response without a request. */
  lemma AcceptsExactly(s: Port, op: Op)
    requires Valid(s) && Fits(s, op)
    ensures Step(s, op).Next? <==>
              match op
              case ReadRequest(b) => b.len > 0 && ApartFrom(b, s.writeQ) && ApartFrom(b, s.respQ)
              case WriteRequest(b) => b.len > 0 && ApartFrom(b, s.readQ)
              case Read => s.readQ != []
              case Write(_, _) => s.writeQ != []
              case WriteResponse => s.respQ != []
  {
    match op
    case ReadRequest(b) =>
      if b.len > 0 {
        ApartFromExactly(b, s.writeQ, |s.mem|);
        ApartFromExactly(b, s.respQ, |s.mem|);
        JoinedQueues(b, s.writeQ, s.respQ);
      }
    case WriteRequest(b) =>
      if b.len > 0 { ApartFromExactly(b, s.readQ, |s.mem|); }
    case _ =>
  }

  lemma JoinedQueues(b: Burst, p: seq<Burst>, q: seq<Burst>)
    ensures NoneOverlaps(b, p + q) <==> NoneOverlaps(b, p) && NoneOverlaps(b, q)
  {
    if NoneOverlaps(b, p + q) {
      assert forall i :: 0 <= i < |p| ==> (p + q)[i] == p[i];
      assert forall i :: 0 <= i < |q| ==> (p + q)[|p| + i] == q[i];
    }
  }

  /** `after` differs from `before` in the enabled bytes of word `a`, which are those of
      `val`, and in nothing else. */
  ghost predicate BytesStored(before: seq<Word>, after: seq<Word>, a: int, val: Word, mask: seq<bool>) {
    && |after| == |before| && 0 <= a < |before| && |val| == |mask| == |before[a]| == |after[a]|
    && (forall j :: 0 <= j < |val| ==> after[a][j] == if mask[j] then val[j] else before[a][j])
    && (forall i :: 0 <= i < |before| && i != a ==> after[i] == before[i])
  }

  lemma WriteStores(s: Port, val: Word, mask: seq<bool>)
    requires Valid(s) && Fits(s, Op.Write(val, mask)) && s.writeQ != []
    ensures BytesStored(s.mem, Step(s, Op.Write(val, mask)).s.mem, s.writeQ[0].first + s.writeDisp, val, mask)
  {
  }

  /** One operation changes memory as the word it writes says. */
  lemma StepMemory(s: Port, op: Op)
    requires Valid(s) && Fits(s, op) && Step(s, op).Next?
    ensures Step(s, op).s.mem
         == if op.Write? then Merged(s.mem, Written(s, op)[0], Store(op.val, op.mask)) else s.mem
  {
  }

  /** The memory of a run is its first memory with `words` merged into it under their
      masks, in order, at the addresses written. */
  ghost predicate Accounted(mem: seq<Word>, r: Run, words: seq<Store>)
    requires r.Running?
  {
    |r.written| == |words| && r.s.mem == Replay(mem, r.written, words)
  }

  /** The memory and the ledger agree after one more operation if they did before. */
  lemma ExtendMemory(mem: seq<Word>, r: Run, op: Op, words: seq<Store>)
    requires r.Running? && Valid(r.s) && Fits(r.s, op) && Extend(r, op).Running?
    requires Accounted(mem, r, words)
    ensures Accounted(mem, Extend(r, op), words + if op.Write? then [Store(op.val, op.mask)] else [])
  {
    StepMemory(r.s, op);
    if op.Write? {
      ReplayNext(mem, r.written, words, Written(r.s, op)[0], Store(op.val, op.mask));
      assert Written(r.s, op) == [Written(r.s, op)[0]];
    } else {
      assert Extend(r, op).written == r.written && words + [] == words;
    }
  }

  /** Operations in any order, from a fresh port. */
  ghost function Execute(width: nat, mem: seq<Word>, ops: seq<Op>): (r: Run)
    requires Words(mem, width) && (forall i :: 0 <= i < |ops| ==> OpFits(ops[i], |mem|, width))
    ensures r.Running? ==> Balanced(r) && |r.s.mem| == |mem| && r.s.width == width && Accounted(mem, r, Stores(ops))
  {
    if ops == [] then
      Running(Initial(width, mem), [], [], [], [], [], [])
    else
      var r, op := Execute(width, mem, ops[..|ops| - 1]), ops[|ops| - 1];
      if r.Aborted? then Aborted
      else
        assert OpFits(op, |mem|, width);
        var r' := Extend(r, op);
        if r'.Aborted? then Aborted
        else
          ExtendKeeps(r, op);
          ExtendMemory(mem, r, op, Stores(ops[..|ops| - 1]));
          r'
  }

  lemma {:induction false} ContentsConcat<T>(mem: seq<T>, p: seq<Burst>, q: seq<Burst>)
    requires InRange(p, |mem|) && InRange(q, |mem|) && InRange(p + q, |mem|)
    ensures Contents(mem, p + q) == Contents(mem, p) + Contents(mem, q)
  {
    if p == [] {
      assert p + q == q;
    } else {
      assert (p + q)[1..] == p[1..] + q;
      ContentsConcat(mem, p[1..], q);
      assert Content(mem, p[0]) + (Contents(mem, p[1..]) + Contents(mem, q)) == Contents(mem, p) + Contents(mem, q);
    }
  }

  lemma InRangeParts(p: seq<Burst>, q: seq<Burst>, n: nat)
    requires InRange(p + q, n)
    ensures InRange(p, n) && InRange(q, n)
  {
    assert forall i :: 0 <= i < |p| ==> (p + q)[i] == p[i];
    assert forall i :: 0 <= i < |q| ==> (p + q)[|p| + i] == q[i];
  }

  /** In every run that is not refused an operation, reads have delivered the words that
      memory held when their requests were accepted, burst after burst, and what is
      missing is still in memory.  The addresses written are those of the acknowledged
      bursts, those of the finished ones, and the beginning of the first unfinished one:
      an acknowledged burst is completely written.  Memory is as those writes leave it. */
  lemma RunsAreOrderly(width: nat, mem: seq<Word>, ops: seq<Op>)
    requires Words(mem, width) && (forall i :: 0 <= i < |ops| ==> OpFits(ops[i], |mem|, width))
    requires Execute(width, mem, ops).Running?
    ensures var r := Execute(width, mem, ops);
            && r.promised == r.delivered + Pending(r.s)
            && (r.s.readQ == [] ==> r.delivered == r.promised)
            && WritesInOrder(r)
            && Accounted(mem, r, Stores(ops))
  {
    WritesAreInOrder(Execute(width, mem, ops));
  }

  ghost predicate WritesInOrder(r: Run)
    requires r.Running?
  {
    var n := Addresses(|r.s.mem|);
    && InRange(r.acked + r.s.respQ, |r.s.mem|)
    && InRange(r.s.writeQ, |r.s.mem|) && r.s.writeDisp <= |Contents(n, r.s.writeQ)|
    && r.written == Contents(n, r.acked + r.s.respQ) + Contents(n, r.s.writeQ)[..r.s.writeDisp]
  }

  lemma WritesAreInOrder(r: Run)
    requires r.Running? && Balanced(r)
    ensures WritesInOrder(r)
  {
    var n, done := Addresses(|r.s.mem|), r.acked + r.s.respQ;
    assert r.requested == done + r.s.writeQ;
    InRangeParts(done, r.s.writeQ, |r.s.mem|);
    ContentsConcat(n, done, r.s.writeQ);
    CancelSuffix(r.written, Contents(n, done), Contents(n, r.s.writeQ), r.s.writeDisp);
  }

  lemma CancelSuffix<T>(w: seq<T>, done: seq<T>, left: seq<T>, d: nat)
    requires d <= |left| && w + left[d..] == done + left
    ensures w == done + left[..d]
  {
    assert |w| == |done| + d;
    forall i | 0 <= i < |w|
      ensures w[i] == (done + left[..d])[i]
    {
      assert w[i] == (w + left[d..])[i] == (done + left)[i];
    }
  }

  // ----- the port itself -----

  /** A port over a buffer of words.  Each operation reports whether it was accepted;
      a refused one ends the program. */
  class BurstPort {
    const width: nat
    const ptr: array<Word>
    var readQ: seq<Burst>
    var readDisp: nat
    var writeQ: seq<Burst>
    var writeDisp: nat
    var respQ: seq<Burst>

    ghost function State(): Port
      reads this, ptr
    {
      Port(width, ptr[..], readQ, readDisp, writeQ, writeDisp, respQ)
    }

    ghost predicate Invariant()
      reads this, ptr
    {
      Valid(State()) && Separate(State())
    }

    constructor (p: array<Word>, width: nat)
      requires Words(p[..], width)
      ensures ptr == p && this.width == width && Invariant() && State() == Initial(width, p[..])
    {
      this.width, ptr := width, p;
      readQ, readDisp, writeQ, writeDisp, respQ := [], 0, [], 0, [];
    }

    /** A read request is queued before it is checked against the writes in flight. */
    method ReadRequest(offset: nat, len: nat) returns (ok: bool)
      requires Invariant() && offset + len <= ptr.Length
      modifies this
      ensures ok <==> Step(old(State()), Op.ReadRequest(Burst(offset, len))).Next?
      ensures ok ==> Invariant() && State() == Step(old(State()), Op.ReadRequest(Burst(offset, len))).s
      ensures ok <==> len > 0 && ApartFrom(Burst(offset, len), old(writeQ)) && ApartFrom(Burst(offset, len), old(respQ))
    {
      ghost var s := State();
      AcceptsExactly(s, Op.ReadRequest(Burst(offset, len)));
      if len == 0 { return false; }
      var b := Burst(offset, len);
      readQ := readQ + [b];
      var currentWriteQ := writeQ + respQ;
      for i := 0 to |currentWriteQ|
        invariant NoneOverlaps(b, currentWriteQ[..i])
        invariant State() == s.(readQ := s.readQ + [b])
      {
        if Overlap(b, currentWriteQ[i]) {
          return false;
        }
      }
      assert currentWriteQ[..|currentWriteQ|] == currentWriteQ;
      StepKeeps(s, Op.ReadRequest(b));
      ok := true;
    }

    method Read() returns (ok: bool, v: Word)
      requires Invariant()
      modifies this
      ensures ok <==> Step(old(State()), Op.Read).Next?
      ensures ok ==> Invariant() && Step(old(State()), Op.Read) == Next(State(), [v])
      ensures ok ==> v == old(Pending(State()))[0]
      ensures ok <==> old(readQ) != []
      ensures ok ==> v == old(ptr[readQ[0].first + readDisp])
    {
      ghost var s := State();
      if readQ == [] { return false, []; }
      StepKeeps(s, Op.Read);
      var b := readQ[0];
      v := ptr[b.first + readDisp];
      readDisp := readDisp + 1;
      if readDisp == b.len {
        readDisp := 0;
        readQ := readQ[1..];
      }
      ok := true;
    }

    method WriteRequest(offset: nat, len: nat) returns (ok: bool)
      requires Invariant() && offset + len <= ptr.Length
      modifies this
      ensures ok <==> Step(old(State()), Op.WriteRequest(Burst(offset, len))).Next?
      ensures ok ==> Invariant() && State() == Step(old(State()), Op.WriteRequest(Burst(offset, len))).s
      ensures ok <==> len > 0 && ApartFrom(Burst(offset, len), old(readQ))
    {
      ghost var s := State();
      AcceptsExactly(s, Op.WriteRequest(Burst(offset, len)));
      if len == 0 { return false; }
      var b := Burst(offset, len);
      for i := 0 to |readQ|
        invariant NoneOverlaps(b, readQ[..i])
        invariant State() == s
      {
        if Overlap(b, readQ[i]) {
          return false;
        }
      }
      assert readQ[..|readQ|] == readQ;
      StepKeeps(s, Op.WriteRequest(b));
      writeQ := writeQ + [b];
      ok := true;
    }

    /** The bytes of one word, those that are enabled. */
    method WriteBytes(at: nat, src: Word, mask: seq<bool>)
      requires at < ptr.Length && |src| == |mask| == |ptr[at]|
      modifies ptr
      ensures ptr[..] == old(ptr[..])[at := Merge(old(ptr[at]), src, mask)]
    {
      ghost var was := ptr[..];
      for i := 0 to |src|
        invariant |ptr[at]| == |src|
        invariant forall j :: 0 <= j < |src| ==> ptr[at][j] == if j < i && mask[j] then src[j] else was[at][j]
        invariant forall k :: 0 <= k < ptr.Length && k != at ==> ptr[k] == was[k]
      {
        if mask[i] {
          ptr[at] := ptr[at][i := src[i]];
        }
      }
      assert ptr[at] == Merge(was[at], src, mask);
    }

    method Write(val: Word, mask: seq<bool>) returns (ok: bool)
      requires Invariant() && |val| == |mask| == width
      modifies this, ptr
      ensures ok <==> Step(old(State()), Op.Write(val, mask)).Next?
      ensures ok ==> Invariant() && State() == Step(old(State()), Op.Write(val, mask)).s
      ensures ok ==> Pending(State()) == old(Pending(State()))
      ensures ok <==> old(writeQ) != []
      ensures ok ==> BytesStored(old(ptr[..]), ptr[..], old(writeQ[0].first + writeDisp), val, mask)
    {
      ghost var s := State();
      if writeQ == [] { return false; }
      WriteStores(s, val, mask);
      StepKeeps(s, Op.Write(val, mask));
      WriteKeeps(s, val, mask);
      var b := writeQ[0];
      WriteBytes(b.first + writeDisp, val, mask);
      writeDisp := writeDisp + 1;
      if writeDisp == b.len {
        writeDisp := 0;
        respQ := respQ + [b];
        writeQ := writeQ[1..];
      }
      assert State() == Step(s, Op.Write(val, mask)).s;
      ok := true;
    }

    method WriteResponse() returns (ok: bool)
      requires Invariant()
      modifies this
      ensures ok <==> Step(old(State()), Op.WriteResponse).Next?
      ensures ok ==> Invariant() && State() == Step(old(State()), Op.WriteResponse).s
      ensures ok <==> old(respQ) != []
    {
      ghost var s := State();
      if respQ == [] { return false; }
      StepKeeps(s, Op.WriteResponse);
      respQ := respQ[1..];
      ok := true;
    }
  }
}
