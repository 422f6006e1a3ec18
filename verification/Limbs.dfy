/** Multi-limb addition, subtraction and comparison, in place or not. */
module Limbs {

  const BASE := 0x1_0000_0000_0000_0000

  type Limb = x: int | 0 <= x < BASE

  /** Addition or subtraction: the two share their code. */
  datatype Op = Add | Sub

  /** `y` with the sign it enters the result with. */
  function Signed(op: Op, y: int): int {
    if op == Add then y else -y
  }

  function Power(n: nat): (p: nat)
    ensures p > 0
  {
    if n == 0 then 1 else BASE * Power(n - 1)
  }

  /** The number that limbs denote, least significant limb first. */
  function Value(s: seq<Limb>): nat {
    if s == [] then 0 else Value(s[..|s| - 1]) + s[|s| - 1] * Power(|s| - 1)
  }

  lemma ValueStep(s: seq<Limb>, i: nat)
    requires i < |s|
    ensures Value(s[..i + 1]) == Value(s[..i]) + s[i] * Power(i)
  {
    assert s[..i + 1][..i] == s[..i];
  }

  lemma {:induction false} ValueBound(s: seq<Limb>)
    ensures Value(s) < Power(|s|)
  {
    if s != [] {
      ValueBound(s[..|s| - 1]);
      TopLimb(s[|s| - 1], BASE, Power(|s| - 1));
    }
  }

  lemma TopLimb(x: int, b: int, p: nat)
    requires x < b
    ensures x * p <= b * p - p
  {
    MulNonneg(b - 1 - x, p);
    assert (b - 1 - x) * p == b * p - p - x * p;
  }

  lemma MulNonneg(x: int, y: int)
    requires 0 <= x && 0 <= y
    ensures 0 <= x * y
  {
  }

  /** Equal high parts do not change a comparison of low parts, nor a sum. */
  lemma {:induction false} ValueTail(s: seq<Limb>, t: seq<Limb>, i: nat)
    requires |s| == |t| && i <= |s| && s[i..] == t[i..]
    ensures Value(s) - Value(s[..i]) == Value(t) - Value(t[..i])
  {
    if |s| == i {
      assert s[..i] == s && t[..i] == t;
    } else {
      var n := |s| - 1;
      assert s[n] == s[i..][n - i] == t[i..][n - i] == t[n];
      assert s[..n][..i] == s[..i] && t[..n][..i] == t[..i];
      assert s[..n][i..] == s[i..][..n - i] && t[..n][i..] == t[i..][..n - i];
      ValueTail(s[..n], t[..n], i);
    }
  }

  /** The weight of a carry or borrow out of `n` limbs. */
  function Out(c: int, n: nat): int {
    if c == 0 then 0 else Power(n)
  }

  /** One limb of a sum or difference: `r` and the carry or borrow `c'` account for `x`,
      `y` and what came in. */
  lemma LimbStep(op: Op, v: int, x: int, y: int, c: int, r: int, c': int, vx: int, vy: int, n: nat)
    requires 0 <= c <= 1 && 0 <= c' <= 1
    requires v + Signed(op, Out(c, n)) == vx + Signed(op, vy)
    requires r + Signed(op, c' * BASE) == x + Signed(op, y + c)
    ensures (v + r * Power(n)) + Signed(op, Out(c', n + 1)) == (vx + x * Power(n)) + Signed(op, vy + y * Power(n))
  {
    var p := Power(n);
    assert Out(c', n + 1) == (c' * BASE) * p && Out(c, n) == c * p;
    LimbBalance(op, v, x, y, c, r, c' * BASE, vx, vy, p);
  }

  lemma LimbBalance(op: Op, v: int, x: int, y: int, c: int, r: int, out: int, vx: int, vy: int, p: int)
    requires v + Signed(op, c * p) == vx + Signed(op, vy)
    requires r + Signed(op, out) == x + Signed(op, y + c)
    ensures (v + r * p) + Signed(op, out * p) == (vx + x * p) + Signed(op, vy + y * p)
  {
    Distribute(r, Signed(op, out), x, Signed(op, y + c), p);
    assert (y + c) * p == y * p + c * p;
    if op == Sub {
      assert (0 - (y + c)) * p == 0 - (y + c) * p && (0 - out) * p == 0 - out * p;
    }
  }

  lemma Distribute(a: int, b: int, c: int, d: int, p: int)
    requires a + b == c + d
    ensures a * p + b * p == c * p + d * p
  {
    assert (a + b) * p == a * p + b * p && (c + d) * p == c * p + d * p;
  }

  /** The first `i` limbs are added or subtracted. */
  ghost predicate LowDone(op: Op, w: seq<Limb>, xs: seq<Limb>, ys: seq<Limb>, i: nat, c: int)
    requires i <= |w| && i <= |xs| && i <= |ys|
  {
    Value(w[..i]) + Signed(op, Out(c, i)) == Value(xs[..i]) + Signed(op, Value(ys[..i]))
  }

  lemma LowStep(op: Op, w: seq<Limb>, xs: seq<Limb>, ys: seq<Limb>, i: nat, c: int, r: Limb, c': int)
    requires i < |w| && i < |xs| && i < |ys| && LowDone(op, w, xs, ys, i, c)
    requires 0 <= c <= 1 && 0 <= c' <= 1 && r + Signed(op, c' * BASE) == xs[i] + Signed(op, ys[i] + c)
    ensures LowDone(op, w[i := r], xs, ys, i + 1, c')
  {
    var w' := w[i := r];
    assert w'[..i] == w[..i];
    ValueStep(w', i);
    ValueStep(xs, i);
    ValueStep(ys, i);
    LimbStep(op, Value(w[..i]), xs[i], ys[i], c, r, c', Value(xs[..i]), Value(ys[..i]), i);
  }

  method OneLimb(op: Op, x: Limb, y: Limb, carry: Limb) returns (r: Limb, out: Limb)
    requires carry <= 1
    ensures out <= 1 && r + Signed(op, out * BASE) == x + Signed(op, y + carry)
  {
    var t := if op == Add then x + y + carry else x - y - carry;
    out := if t >= BASE || t < 0 then 1 else 0;
    r := if t >= BASE then t - BASE else if t < 0 then t + BASE else t;
  }

  /** The destination may be either operand or both, or an array of its own. */
  method AddOrSubN(op: Op, wp: array<Limb>, xp: array<Limb>, yp: array<Limb>, n: nat) returns (carry: Limb)
    requires n <= wp.Length && n <= xp.Length && n <= yp.Length
    modifies wp
    ensures carry <= 1
    ensures Value(wp[..n]) + Signed(op, Out(carry, n)) == Value(old(xp[..n])) + Signed(op, Value(old(yp[..n])))
    ensures wp[n..] == old(wp[n..])
  {
    carry := 0;
    ghost var xs, ys := xp[..], yp[..];
    for i := 0 to n
      invariant carry <= 1
      invariant LowDone(op, wp[..], xs, ys, i, carry)
      invariant forall k :: i <= k < wp.Length ==> wp[k] == old(wp[k])
    {
      var r, out := OneLimb(op, xp[i], yp[i], carry);
      LowStep(op, wp[..], xs, ys, i, carry, r, out);
      ghost var w := wp[..];
      wp[i] := r;
      assert wp[..] == w[i := r];
      carry := out;
    }
    assert xs[..n] == old(xp[..n]) && ys[..n] == old(yp[..n]);
  }

  /** Copying the limbs from `start` on. */
  method CopyRest(dst: array<Limb>, src: array<Limb>, size: nat, start: nat)
    requires start <= size <= dst.Length && size <= src.Length && dst != src
    modifies dst
    ensures dst[start..size] == src[start..size]
    ensures dst[..start] == old(dst[..start]) && dst[size..] == old(dst[size..])
  {
    for j := start to size
      invariant dst[start..j] == src[start..j]
      invariant forall k :: 0 <= k < dst.Length && !(start <= k < j) ==> dst[k] == old(dst[k])
    {
      dst[j] := src[j];
    }
  }

  /** A number of `m` limbs followed by `i - m` limbs that only passed a carry. */
  ghost predicate Propagated(op: Op, w: seq<Limb>, x: seq<Limb>, y: nat, i: nat, c: int)
    requires i <= |w| && i <= |x|
  {
    Value(w[..i]) + Signed(op, Out(c, i)) == Value(x[..i]) + Signed(op, y)
  }

  lemma PropagateStep(op: Op, w: seq<Limb>, x: seq<Limb>, y: nat, i: nat, r: Limb, c: int, c': int)
    requires i < |w| && i < |x| && Propagated(op, w, x, y, i, c)
    requires 0 <= c <= 1 && 0 <= c' <= 1 && r + Signed(op, c' * BASE) == x[i] + Signed(op, c)
    ensures Propagated(op, w[i := r], x, y, i + 1, c')
  {
    var w' := w[i := r];
    assert w'[..i] == w[..i];
    ValueStep(w', i);
    ValueStep(x, i);
    LimbStep(op, Value(w[..i]), x[i], 0, c, r, c', Value(x[..i]), y, i);
  }

  /** Once nothing is carried, copying the rest of the operand completes the result. */
  lemma CopyCompletes(op: Op, w: seq<Limb>, x: seq<Limb>, y: nat, i: nat)
    requires |w| == |x| && i <= |x| && w[i..] == x[i..]
    requires Propagated(op, w, x, y, i, 0)
    ensures Value(w) == Value(x) + Signed(op, y)
  {
    ValueTail(w, x, i);
  }

  /** Masking to a limb's width. */
  lemma MaskedStep(x: Limb)
    ensures (x + 1) % BASE == if x + 1 == BASE then 0 else x + 1
    ensures (x - 1) % BASE == if x == 0 then BASE - 1 else x - 1
  {
  }

  /** The carry added to or taken from one limb, and whether it goes on. */
  method CarryInto(op: Op, x: Limb) returns (r: Limb, again: bool)
    ensures r + Signed(op, (if again then 1 else 0) * BASE) == x + Signed(op, 1)
  {
    MaskedStep(x);
    r := if op == Add then (x + 1) % BASE else (x - 1) % BASE;
    again := if op == Add then r == 0 else x == 0;
  }

  /** Passing a carry on from limb `start` until it is absorbed; if it never is, it is the
      carry out. */
  method PassCarry(op: Op, wp: array<Limb>, xp: array<Limb>, xsize: nat, start: nat, ghost xs: seq<Limb>, ghost y: nat)
    returns (i: nat, carried: bool)
    requires start <= xsize <= wp.Length && xsize <= xp.Length && xsize == |xs|
    requires Propagated(op, wp[..xsize], xs, y, start, 1)
    requires forall k :: start <= k < xsize ==> xp[k] == xs[k]
    modifies wp
    ensures start <= i <= xsize && (carried ==> i == xsize)
    ensures Propagated(op, wp[..xsize], xs, y, i, if carried then 1 else 0)
    ensures forall k :: i <= k < xsize ==> xp[k] == xs[k]
    ensures wp[xsize..] == old(wp[xsize..])
  {
    i := start;
    while true
      invariant start <= i <= xsize && Propagated(op, wp[..xsize], xs, y, i, 1)
      invariant wp[xsize..] == old(wp[xsize..])
      invariant forall k :: i <= k < xsize ==> xp[k] == xs[k]
      decreases xsize - i
    {
      if i >= xsize {
        return i, true;
      }
      var r, again := CarryInto(op, xp[i]);
      ghost var w := wp[..xsize];
      PropagateStep(op, w, xs, y, i, r, 1, if again then 1 else 0);
      wp[i] := r;
      assert wp[..xsize] == w[i := r];
      i := i + 1;
      assert Propagated(op, wp[..xsize], xs, y, i, if again then 1 else 0);
      if !again {
        return i, false;
      }
    }
  }

  /** `mpn_add` and `mpn_sub`: add or subtract the shorter number limb by limb, pass on a
      carry until it is absorbed, and copy what is left. */
  method AddOrSub(op: Op, wp: array<Limb>, xp: array<Limb>, xsize: nat, yp: array<Limb>, ysize: nat) returns (cout: Limb)
    requires ysize <= xsize <= wp.Length && xsize <= xp.Length && ysize <= yp.Length
    modifies wp
    ensures cout <= 1
    ensures Value(wp[..xsize]) + Signed(op, Out(cout, xsize)) == Value(old(xp[..xsize])) + Signed(op, Value(old(yp[..ysize])))
    ensures wp[xsize..] == old(wp[xsize..])
  {
    ghost var xs, y := xp[..xsize], Value(yp[..ysize]);
    var i, carried := ysize, false;
    if i != 0 {
      var carry := AddOrSubN(op, wp, xp, yp, i);
      AfterLow(op, wp[..], old(wp[..]), xs, old(xp[..]), y, i, xsize, carry);
      assert xp != wp ==> xp[..] == old(xp[..]);
      if carry != 0 {
        i, carried := PassCarry(op, wp, xp, xsize, i, xs, y);
      }
    }
    if carried {
      assert wp[..xsize][..xsize] == wp[..xsize] && xs[..xsize] == xs;
      return 1;
    }
    Finish(op, wp, xp, xsize, i, xs, y);
    cout := 0;
  }

  method Finish(op: Op, wp: array<Limb>, xp: array<Limb>, xsize: nat, i: nat, ghost xs: seq<Limb>, ghost y: nat)
    requires i <= xsize <= wp.Length && xsize <= xp.Length && xsize == |xs|
    requires Propagated(op, wp[..xsize], xs, y, i, 0)
    requires forall k :: i <= k < xsize ==> xp[k] == xs[k]
    modifies wp
    ensures Value(wp[..xsize]) == Value(xs) + Signed(op, y)
    ensures wp[xsize..] == old(wp[xsize..])
  {
    ghost var w := wp[..xsize];
    if wp != xp {
      CopyRest(wp, xp, xsize, i);
    }
    ghost var w' := wp[..xsize];
    assert w'[..i] == wp[..i] == w[..i];
    forall k | i <= k < xsize ensures w'[k] == xs[k] {
      if wp != xp { assert w'[k] == wp[i..xsize][k - i] == xp[i..xsize][k - i]; }
    }
    assert w'[i..] == xs[i..];
    CopyCompletes(op, w', xs, y, i);
  }

  /** What the limb-by-limb part leaves. */
  lemma AfterLow(op: Op, w: seq<Limb>, w0: seq<Limb>, xs: seq<Limb>, x0: seq<Limb>, y: nat, i: nat, xsize: nat, carry: Limb)
    requires i <= xsize <= |w| == |w0| && xsize <= |x0| && xs == x0[..xsize] && carry <= 1
    requires Value(w[..i]) + Signed(op, Out(carry, i)) == Value(x0[..i]) + Signed(op, y)
    requires w[i..] == w0[i..]
    ensures Propagated(op, w[..xsize], xs, y, i, carry)
    ensures w[xsize..] == w0[xsize..]
    ensures forall k :: i <= k < |w| ==> w[k] == w0[k]
  {
    assert w[..xsize][..i] == w[..i] && xs[..i] == x0[..i];
    forall k | i <= k < |w| ensures w[k] == w0[k] {
      assert w[k] == w[i..][k - i] == w0[i..][k - i];
    }
  }

  /** `mpn_add_1` and `mpn_sub_1`: a single limb is added or subtracted. */
  method AddOrSub1(op: Op, dst: array<Limb>, src: array<Limb>, n: nat, v: Limb) returns (cout: Limb)
    requires 1 <= n <= dst.Length && n <= src.Length
    modifies dst
    ensures cout <= 1
    ensures Value(dst[..n]) + Signed(op, Out(cout, n)) == Value(old(src[..n])) + Signed(op, v)
    ensures dst[n..] == old(dst[n..])
  {
    ghost var xs := src[..n];
    var x := src[0];
    var r: Limb := if op == Add then (x + v) % BASE else (x - v) % BASE;
    MaskedSum(x, v);
    var carry := if op == Add then r < v else x < v;
    assert Propagated(op, dst[..n], xs, 0, 0, 0);
    FirstLimb(op, dst[..n], xs, r, v, if carry then 1 else 0);
    ghost var w := dst[..n];
    dst[0] := r;
    assert dst[..n] == w[0 := r];
    var i := 1;
    if carry {
      i, carry := PassCarry(op, dst, src, n, i, xs, v);
    }
    if carry {
      assert dst[..n][..n] == dst[..n] && xs[..n] == xs;
      return 1;
    }
    Finish(op, dst, src, n, i, xs, v);
    cout := 0;
  }

  lemma MaskedSum(x: Limb, v: Limb)
    ensures (x + v) % BASE == if x + v >= BASE then x + v - BASE else x + v
    ensures (x - v) % BASE == if x < v then x - v + BASE else x - v
  {
  }

  lemma FirstLimb(op: Op, w: seq<Limb>, xs: seq<Limb>, r: Limb, v: Limb, c: int)
    requires |w| == |xs| > 0 && 0 <= c <= 1
    requires r + Signed(op, c * BASE) == xs[0] + Signed(op, v)
    ensures Propagated(op, w[0 := r], xs, v, 1, c)
  {
    var w' := w[0 := r];
    ValueStep(w', 0);
    ValueStep(xs, 0);
    assert w'[..0] == [] && xs[..0] == [];
    assert Power(1) == BASE * Power(0);
  }

  // ----- comparison -----

  /** The highest limb in which two numbers differ decides. */
  lemma FirstDifference(x: seq<Limb>, y: seq<Limb>, i: nat)
    requires |x| == |y| && i < |x| && x[i + 1..] == y[i + 1..] && x[i] > y[i]
    ensures Value(x) > Value(y)
  {
    ValueTail(x, y, i + 1);
    ValueStep(x, i);
    ValueStep(y, i);
    ValueBound(y[..i]);
    TopLimb(y[i], x[i], Power(i));
    MulNonneg(x[i], Power(i));
  }

  /** `mpn_cmp`: the sign of the difference, found from the top. */
  method Cmp(xp: array<Limb>, yp: array<Limb>, size: nat) returns (result: int)
    requires size <= xp.Length && size <= yp.Length
    ensures result == if Value(xp[..size]) > Value(yp[..size]) then 1 else if Value(xp[..size]) < Value(yp[..size]) then -1 else 0
  {
    result := 0;
    var i := size - 1;
    while i >= 0
      invariant -1 <= i < size && result == 0
      invariant forall k :: i < k < size ==> xp[k] == yp[k]
    {
      var x, y := xp[i], yp[i];
      if x != y {
        result := if x > y then 1 else -1;
        Decides(xp[..size], yp[..size], i);
        return;
      }
      i := i - 1;
    }
    assert xp[..size] == yp[..size];
  }

  lemma Decides(x: seq<Limb>, y: seq<Limb>, i: nat)
    requires |x| == |y| && i < |x| && x[i] != y[i]
    requires forall k :: i < k < |x| ==> x[k] == y[k]
    ensures x[i] > y[i] <==> Value(x) > Value(y)
    ensures x[i] < y[i] <==> Value(x) < Value(y)
  {
    assert x[i + 1..] == y[i + 1..];
    if x[i] > y[i] {
      FirstDifference(x, y, i);
    } else {
      FirstDifference(y, x, i);
    }
  }

  // ----- one call undoes the other -----

  /** Numbers of equal length are equal only if their limbs are. */
  lemma {:induction false} ValueInjective(x: seq<Limb>, y: seq<Limb>)
    requires |x| == |y| && Value(x) == Value(y)
    ensures x == y
  {
    if x != [] {
      TopsAgree(x, y);
      ValueInjective(x[..|x| - 1], y[..|y| - 1]);
      assert x == x[..|x| - 1] + [x[|x| - 1]] && y == y[..|y| - 1] + [y[|y| - 1]];
    }
  }

  lemma TopsAgree(x: seq<Limb>, y: seq<Limb>)
    requires |x| == |y| > 0 && Value(x) == Value(y)
    ensures x[|x| - 1] == y[|y| - 1] && Value(x[..|x| - 1]) == Value(y[..|y| - 1])
  {
    if x[|x| - 1] != y[|y| - 1] { Decides(x, y, |x| - 1); }
    SameTop(x, y);
  }

  lemma SameTop(x: seq<Limb>, y: seq<Limb>)
    requires |x| == |y| > 0 && x[|x| - 1] == y[|y| - 1]
    ensures Value(x) - Value(y) == Value(x[..|x| - 1]) - Value(y[..|y| - 1])
  {
  }

  /** A carry and `n` limbs are determined by the sum they account for. */
  lemma ResultIsUnique(n: nat, v: nat, c: int, u: nat, d: int)
    requires v < Power(n) && u < Power(n) && 0 <= c <= 1 && 0 <= d <= 1
    requires v + Out(c, n) == u + Out(d, n)
    ensures v == u && c == d
  {
  }

  /** Subtracting what was added restores the limbs, and borrows exactly if the addition
      carried; and the other way round. */
  method ThereAndBack(op: Op, wp: array<Limb>, xsize: nat, yp: array<Limb>, ysize: nat) returns (out: Limb, back: Limb)
    requires ysize <= xsize <= wp.Length && ysize <= yp.Length && wp != yp
    modifies wp
    ensures wp[..xsize] == old(wp[..xsize])
    ensures out == back
  {
    ghost var xs := wp[..xsize];
    out := AddOrSub(op, wp, wp, xsize, yp, ysize);
    back := AddOrSub(if op == Add then Sub else Add, wp, wp, xsize, yp, ysize);
    ValueBound(xs);
    ValueBound(wp[..xsize]);
    ResultIsUnique(xsize, Value(xs), back, Value(wp[..xsize]), out);
    ValueInjective(xs, wp[..xsize]);
  }

  // ----- the functions of the library -----

  /** A limb is a word of 64 bits, and limbs stand lowest first. */
  lemma {:induction false} ValueLowFirst(x: Limb, s: seq<Limb>)
    ensures Value([]) == 0 && Value([x]) == x && Power(0) == 1 && Power(1) == BASE == 18446744073709551616
    ensures Value([x] + s) == x + BASE * Value(s)
  {
    if s == [] {
      assert [x] + s == [x];
    } else {
      var n := |s| - 1;
      ValueLowFirst(x, s[..n]);
      assert ([x] + s)[..n + 1] == [x] + s[..n];
      OneMore(s[n], Power(n), Value(s[..n]));
    }
  }

  lemma OneMore(x: int, p: int, v: int)
    ensures x * (BASE * p) + BASE * v == BASE * (v + x * p)
  {
  }

  /** `mpn_add`: the sum of two numbers and the carry. */
  method MpnAdd(wp: array<Limb>, xp: array<Limb>, xsize: nat, yp: array<Limb>, ysize: nat) returns (cout: Limb)
    requires ysize <= xsize <= wp.Length && xsize <= xp.Length && ysize <= yp.Length
    modifies wp
    ensures cout <= 1
    ensures Value(wp[..xsize]) + cout * Power(xsize) == Value(old(xp[..xsize])) + Value(old(yp[..ysize]))
    ensures wp[xsize..] == old(wp[xsize..])
  {
    cout := AddOrSub(Add, wp, xp, xsize, yp, ysize);
  }

  /** `mpn_sub`: the difference of two numbers and the borrow. */
  method MpnSub(wp: array<Limb>, xp: array<Limb>, xsize: nat, yp: array<Limb>, ysize: nat) returns (cout: Limb)
    requires ysize <= xsize <= wp.Length && xsize <= xp.Length && ysize <= yp.Length
    modifies wp
    ensures cout <= 1
    ensures Value(wp[..xsize]) - cout * Power(xsize) == Value(old(xp[..xsize])) - Value(old(yp[..ysize]))
    ensures wp[xsize..] == old(wp[xsize..])
  {
    cout := AddOrSub(Sub, wp, xp, xsize, yp, ysize);
  }

  /** `mpn_add_1`. */
  method MpnAdd1(dst: array<Limb>, src: array<Limb>, size: nat, n: Limb) returns (cout: Limb)
    requires 1 <= size <= dst.Length && size <= src.Length
    modifies dst
    ensures cout <= 1
    ensures Value(dst[..size]) + cout * Power(size) == Value(old(src[..size])) + n
    ensures dst[size..] == old(dst[size..])
  {
    cout := AddOrSub1(Add, dst, src, size, n);
  }

  /** `mpn_sub_1`. */
  method MpnSub1(dst: array<Limb>, src: array<Limb>, size: nat, n: Limb) returns (cout: Limb)
    requires 1 <= size <= dst.Length && size <= src.Length
    modifies dst
    ensures cout <= 1
    ensures Value(dst[..size]) - cout * Power(size) == Value(old(src[..size])) - n
    ensures dst[size..] == old(dst[size..])
  {
    cout := AddOrSub1(Sub, dst, src, size, n);
  }
}
