/** Weighted reservoir sampling of one index. */
module Reservoir {

  /** The weight of the first `k` items. */
  function Sum(wa: seq<real>, k: nat): real
    requires k <= |wa|
  {
    if k == 0 then 0.0 else Sum(wa, k - 1) + wa[k - 1]
  }

  /** Weights without a negative one, the first positive. */
  predicate Weights(wa: seq<real>) {
    |wa| > 0 && wa[0] > 0.0 && forall i :: 0 <= i < |wa| ==> wa[i] >= 0.0
  }

  lemma {:induction false} SumPositive(wa: seq<real>, k: nat)
    requires Weights(wa) && 0 < k <= |wa|
    ensures 0.0 < Sum(wa, k) && wa[k - 1] <= Sum(wa, k)
  {
    if k > 1 {
      SumPositive(wa, k - 1);
    } else {
      assert Sum(wa, 1) == Sum(wa, 0) + wa[0];
    }
  }

  /** The share of item `i` in the weight of the items up to it. */
  function Ratio(wa: seq<real>, i: nat): (r: real)
    requires Weights(wa) && i < |wa|
    ensures 0.0 <= r <= 1.0
  {
    SumPositive(wa, i + 1);
    RatioBounds(wa[i], Sum(wa, i + 1));
    wa[i] / Sum(wa, i + 1)
  }

  lemma RatioBounds(x: real, y: real)
    requires 0.0 <= x <= y && y > 0.0
    ensures 0.0 <= x / y <= 1.0
  {
  }

  /** The draws `rs` for which item `i` is held after `k` items: its own draw takes it, no
      later draw replaces it.  The first item is held from the start. */
  ghost predicate Held(wa: seq<real>, rs: seq<real>, k: nat, i: nat)
    requires Weights(wa) && i < k <= |wa| == |rs|
  {
    && (i > 0 ==> rs[i] < Ratio(wa, i))
    && forall j :: i < j < k ==> rs[j] >= Ratio(wa, j)
  }

  /** One pass over the items, with the random numbers it draws. */
  method Sample(wa: seq<real>, rs: seq<real>) returns (res: nat)
    requires Weights(wa) && |rs| == |wa|
    ensures res < |wa|
    ensures forall i :: 0 <= i < |wa| ==> (res == i <==> Held(wa, rs, |wa|, i))
  {
    var w := 0.0;
    res := 0;
    for i := 0 to |wa|
      invariant w == Sum(wa, i)
      invariant i == 0 ==> res == 0
      invariant i > 0 ==> res < i && Held(wa, rs, i, res)
    {
      var r := rs[i];
      w := w + wa[i];
      SumPositive(wa, i + 1);
      if r < wa[i] / w {
        res := i;
      }
      assert Ratio(wa, i) == wa[i] / w;
    }
    forall i | 0 <= i < |wa| && Held(wa, rs, |wa|, i) ensures res == i {
    }
  }

  /** The probability that item `i` is held after `k` items when the draws are independent
      and uniform between 0 and 1: the volume of the box of draws that `Held` describes, a
      product of the lengths of its sides.  For whole weights it is counted below. */
  function Chance(wa: seq<real>, k: nat, i: nat): real
    requires Weights(wa) && i < k <= |wa|
  {
    if k == i + 1 then if i == 0 then 1.0 else Ratio(wa, i)
    else Chance(wa, k - 1, i) * (1.0 - Ratio(wa, k - 1))
  }

  /** Every item is held with probability its share of the total weight. */
  lemma {:induction false} ChanceIsShare(wa: seq<real>, k: nat, i: nat)
    requires Weights(wa) && i < k <= |wa|
    ensures Sum(wa, k) > 0.0 && Chance(wa, k, i) == wa[i] / Sum(wa, k)
  {
    SumPositive(wa, k);
    if k > i + 1 {
      ChanceIsShare(wa, k - 1, i);
      SumPositive(wa, k - 1);
      Telescope(wa[i], Sum(wa, k - 1), wa[k - 1], Chance(wa, k - 1, i), Ratio(wa, k - 1));
    } else if i == 0 {
      FirstShare(wa);
    }
  }

  lemma FirstShare(wa: seq<real>)
    requires Weights(wa)
    ensures Sum(wa, 1) > 0.0 && wa[0] / Sum(wa, 1) == 1.0
  {
    assert Sum(wa, 1) == Sum(wa, 0) + wa[0] == wa[0];
    SelfRatio(wa[0]);
  }

  lemma SelfRatio(x: real)
    requires x > 0.0
    ensures x / x == 1.0
  {
  }

  lemma Telescope(x: real, s: real, w: real, c: real, r: real)
    requires s > 0.0 && w >= 0.0 && c == x / s && r == w / (s + w)
    ensures c * (1.0 - r) == x / (s + w)
  {
    var t := s + w;
    assert 1.0 - w / t == s / t by {
      assert t / t == 1.0;
      assert (t - w) / t == t / t - w / t;
    }
    assert (x / s) * (s / t) == x / t by {
      assert (x / s) * s == x;
    }
  }

  // ----- whole weights, counted -----

  /** Weights that are whole numbers, the first positive. */
  predicate Whole(w: seq<nat>) {
    |w| > 0 && w[0] > 0
  }

  function Total(w: seq<nat>, k: nat): nat
    requires k <= |w|
  {
    if k == 0 then 0 else Total(w, k - 1) + w[k - 1]
  }

  function AsReals(w: seq<nat>): seq<real> {
    seq(|w|, i requires 0 <= i < |w| => w[i] as real)
  }

  lemma {:induction false} TotalIsSum(w: seq<nat>, k: nat)
    requires Whole(w) && k <= |w|
    ensures Weights(AsReals(w)) && Sum(AsReals(w), k) == Total(w, k) as real
    ensures k > 0 ==> Total(w, k) > 0
  {
    if k > 0 { TotalIsSum(w, k - 1); }
  }

  /** Every vector of `A` with one of the `n` numbers from `lo` on behind it. */
  function Extended(A: set<seq<nat>>, lo: nat, n: nat): set<seq<nat>> {
    if n == 0 then {} else Extended(A, lo, n - 1) + Behind(A, lo + n - 1)
  }

  function Behind(A: set<seq<nat>>, t: nat): set<seq<nat>> {
    set d | d in A :: d + [t]
  }

  lemma {:induction false} BehindSize(A: set<seq<nat>>, t: nat)
    ensures |Behind(A, t)| == |A|
  {
    if A != {} {
      var d :| d in A;
      BehindSize(A - {d}, t);
      assert Behind(A, t) == Behind(A - {d}, t) + {d + [t]};
      forall e | e in A - {d} ensures e + [t] != d + [t] {
        assert (e + [t])[..|e|] == e && (d + [t])[..|d|] == d;
      }
      assert d + [t] !in Behind(A - {d}, t);
    }
  }

  lemma {:induction false} BelowEnd(A: set<seq<nat>>, lo: nat, n: nat, x: seq<nat>)
    requires x in Extended(A, lo, n)
    ensures |x| > 0 && lo <= x[|x| - 1] < lo + n
  {
    if x !in Behind(A, lo + n - 1) { BelowEnd(A, lo, n - 1, x); }
  }

  lemma UnionSize<T>(A: set<T>, B: set<T>)
    requires A !! B
    ensures |A + B| == |A| + |B|
  {
  }

  lemma NewOnes(A: set<seq<nat>>, lo: nat, n: nat)
    ensures Extended(A, lo, n) !! Behind(A, lo + n)
  {
    var last := Behind(A, lo + n);
    forall x | x in Extended(A, lo, n) ensures x !in last {
      BelowEnd(A, lo, n, x);
    }
  }

  lemma ExtendedMore(A: set<seq<nat>>, lo: nat, n: nat)
    ensures |Extended(A, lo, n + 1)| == |Extended(A, lo, n)| + |A|
  {
    BehindSize(A, lo + n);
    NewOnes(A, lo, n);
    UnionSize(Extended(A, lo, n), Behind(A, lo + n));
  }

  lemma {:induction false} ExtendedSize(A: set<seq<nat>>, lo: nat, n: nat)
    ensures |Extended(A, lo, n)| == |A| * n
  {
    if n > 0 {
      ExtendedSize(A, lo, n - 1);
      ExtendedMore(A, lo, n - 1);
      Once(|A|, n);
    }
  }

  lemma Once(a: nat, n: int)
    ensures a * n == a * (n - 1) + a
  {
  }

  /** The vectors of `k` draws when draw `j` is one of as many equally likely numbers as
      the first `j + 1` items weigh. */
  function Vectors(w: seq<nat>, k: nat): set<seq<nat>>
    requires k <= |w|
  {
    if k == 0 then {[]} else Extended(Vectors(w, k - 1), 0, Total(w, k))
  }

  /** All vectors in `A` are of length `k`. */
  ghost predicate OfLength(A: set<seq<nat>>, k: nat) {
    forall d :: d in A ==> |d| == k
  }

  lemma {:induction false} InExtended(A: set<seq<nat>>, lo: nat, n: nat, k: nat, d: seq<nat>)
    requires OfLength(A, k)
    ensures d in Extended(A, lo, n) <==> |d| == k + 1 && d[..k] in A && lo <= d[k] < lo + n
  {
    if n > 0 {
      InExtended(A, lo, n - 1, k, d);
      InBehind(A, lo + n - 1, k, d);
    }
  }

  lemma InBehind(A: set<seq<nat>>, t: nat, k: nat, d: seq<nat>)
    requires OfLength(A, k)
    ensures d in Behind(A, t) <==> |d| == k + 1 && d[..k] in A && d[k] == t
  {
    if d in Behind(A, t) {
      var e :| e in A && d == e + [t];
      assert d[..k] == e;
    }
    if |d| == k + 1 && d[..k] in A && d[k] == t {
      assert d == d[..k] + [d[k]];
    }
  }

  lemma {:induction false} VectorLength(w: seq<nat>, k: nat)
    requires k <= |w|
    ensures OfLength(Vectors(w, k), k)
  {
    if k > 0 {
      VectorLength(w, k - 1);
      forall d | d in Vectors(w, k) ensures |d| == k {
        InExtended(Vectors(w, k - 1), 0, Total(w, k), k - 1, d);
      }
    }
  }

  /** They are the vectors with every draw in its range. */
  lemma {:induction false} VectorsAre(w: seq<nat>, k: nat, d: seq<nat>)
    requires k <= |w|
    ensures d in Vectors(w, k) <==> |d| == k && forall j :: 0 <= j < k ==> d[j] < Total(w, j + 1)
  {
    if k > 0 {
      VectorLength(w, k - 1);
      InExtended(Vectors(w, k - 1), 0, Total(w, k), k - 1, d);
      if |d| == k { VectorsAre(w, k - 1, d[..k - 1]); }
    }
  }

  /** The random numbers of a vector: draw `j` as a fraction of the weight so far. */
  function Fractions(w: seq<nat>, d: seq<nat>): seq<real>
    requires Whole(w) && |d| == |w|
  {
    seq(|d|, j requires 0 <= j < |d| => (TotalIsSum(w, j + 1); d[j] as real / Total(w, j + 1) as real))
  }

  /** Item `i` is held after `k` draws, in whole numbers. */
  ghost predicate Wins(w: seq<nat>, d: seq<nat>, k: nat, i: nat)
    requires i < k <= |w| && k <= |d|
  {
    && (i > 0 ==> d[i] < w[i])
    && forall j :: i < j < k ==> d[j] >= w[j]
  }

  lemma FractionBelow(d: nat, w: nat, t: nat)
    requires t > 0
    ensures d as real / t as real < w as real / t as real <==> d < w
  {
    var x, y, z := d as real, w as real, t as real;
    assert x / z * z == x && y / z * z == y;
    RealOrder(x / z, y / z, z);
  }

  lemma RealOrder(a: real, b: real, z: real)
    requires z > 0.0
    ensures a < b <==> a * z < b * z
  {
  }

  /** The comparison of fractions in the loop is the comparison of whole numbers. */
  lemma WinsIsHeld(w: seq<nat>, d: seq<nat>, k: nat, i: nat)
    requires Whole(w) && |d| == |w| && i < k <= |w|
    ensures Weights(AsReals(w))
    ensures Wins(w, d, k, i) <==> Held(AsReals(w), Fractions(w, d), k, i)
  {
    TotalIsSum(w, 0);
    forall j | 0 <= j < |w| ensures Fractions(w, d)[j] < Ratio(AsReals(w), j) <==> d[j] < w[j] {
      TotalIsSum(w, j + 1);
      FractionBelow(d[j], w[j], Total(w, j + 1));
    }
  }

  ghost function Winners(w: seq<nat>, k: nat, i: nat): set<seq<nat>>
    requires i < k <= |w|
  {
    set d | d in Vectors(w, k) && |d| == k && Wins(w, d, k, i)
  }

  lemma WinsNext(w: seq<nat>, d: seq<nat>, k: nat, i: nat)
    requires i < k < |w| && |d| == k + 1
    ensures Wins(w, d, k + 1, i) <==> Wins(w, d[..k], k, i) && d[k] >= w[k]
  {
    if Wins(w, d[..k], k, i) && d[k] >= w[k] {
      forall j | i < j < k + 1 ensures d[j] >= w[j] {
        assert j < k ==> d[..k][j] >= w[j];
      }
    }
    if Wins(w, d, k + 1, i) {
      forall j | i < j < k ensures d[..k][j] >= w[j] {
        assert d[j] >= w[j];
      }
    }
  }

  lemma WinnerNext(w: seq<nat>, k: nat, i: nat, d: seq<nat>)
    requires i < k < |w|
    ensures d in Winners(w, k + 1, i) <==> d in Extended(Winners(w, k, i), w[k], Total(w, k))
  {
    VectorLength(w, k);
    InExtended(Vectors(w, k), 0, Total(w, k + 1), k, d);
    InExtended(Winners(w, k, i), w[k], Total(w, k), k, d);
    if |d| == k + 1 { WinsNext(w, d, k, i); }
  }

  lemma WinnersStay(w: seq<nat>, k: nat, i: nat)
    requires i < k < |w|
    ensures Winners(w, k + 1, i) == Extended(Winners(w, k, i), w[k], Total(w, k))
  {
    var A, B := Winners(w, k + 1, i), Extended(Winners(w, k, i), w[k], Total(w, k));
    forall d | d in A ensures d in B { WinnerNext(w, k, i, d); }
    forall d | d in B ensures d in A { WinnerNext(w, k, i, d); }
  }

  lemma NewWinner(w: seq<nat>, k: nat, d: seq<nat>)
    requires Whole(w) && k < |w|
    ensures d in Winners(w, k + 1, k) <==> d in Extended(Vectors(w, k), 0, w[k])
  {
    VectorLength(w, k);
    InExtended(Vectors(w, k), 0, Total(w, k + 1), k, d);
    InExtended(Vectors(w, k), 0, w[k], k, d);
    assert Total(w, k + 1) == Total(w, k) + w[k];
    assert k == 0 ==> Total(w, 0) == 0;
  }

  lemma NewWinners(w: seq<nat>, k: nat)
    requires Whole(w) && k < |w|
    ensures Winners(w, k + 1, k) == Extended(Vectors(w, k), 0, w[k])
  {
    var A, B := Winners(w, k + 1, k), Extended(Vectors(w, k), 0, w[k]);
    forall d | d in A ensures d in B { NewWinner(w, k, d); }
    forall d | d in B ensures d in A { NewWinner(w, k, d); }
  }

  lemma VectorsNext(w: seq<nat>, k: nat)
    requires k < |w|
    ensures |Vectors(w, k + 1)| == |Vectors(w, k)| * Total(w, k + 1)
  {
    ExtendedSize(Vectors(w, k), 0, Total(w, k + 1));
  }

  lemma StayCount(w: seq<nat>, k: nat, i: nat)
    requires i < k < |w|
    ensures |Winners(w, k + 1, i)| == |Winners(w, k, i)| * Total(w, k)
  {
    WinnersStay(w, k, i);
    ExtendedSize(Winners(w, k, i), w[k], Total(w, k));
  }

  lemma NewCount(w: seq<nat>, k: nat)
    requires Whole(w) && k < |w|
    ensures |Winners(w, k + 1, k)| == |Vectors(w, k)| * w[k]
  {
    NewWinners(w, k);
    ExtendedSize(Vectors(w, k), 0, w[k]);
  }

  /** Among all vectors those that hold item `i` are in the proportion of its weight to the
      weight of all. */
  ghost predicate InProportion(w: seq<nat>, k: nat, i: nat)
    requires i < k <= |w|
  {
    |Winners(w, k, i)| * Total(w, k) == w[i] * |Vectors(w, k)|
  }

  lemma NewProportion(w: seq<nat>, i: nat)
    requires Whole(w) && i < |w|
    ensures InProportion(w, i + 1, i)
  {
    NewCount(w, i);
    VectorsNext(w, i);
    Exchange(|Vectors(w, i)|, w[i], Total(w, i + 1), |Winners(w, i + 1, i)|, |Vectors(w, i + 1)|);
  }

  lemma StayProportion(w: seq<nat>, k: nat, i: nat)
    requires i < k < |w| && InProportion(w, k, i)
    ensures InProportion(w, k + 1, i)
  {
    StayCount(w, k, i);
    VectorsNext(w, k);
    Carry(|Winners(w, k, i)|, Total(w, k), Total(w, k + 1), w[i], |Vectors(w, k)|, |Winners(w, k + 1, i)|, |Vectors(w, k + 1)|);
  }

  lemma {:induction false} WinnersCounted(w: seq<nat>, k: nat, i: nat)
    requires Whole(w) && i < k <= |w|
    ensures InProportion(w, k, i)
  {
    if i == k - 1 {
      NewProportion(w, i);
    } else {
      WinnersCounted(w, k - 1, i);
      StayProportion(w, k - 1, i);
    }
  }

  lemma Exchange(v: nat, w: nat, t: nat, winners: nat, all: nat)
    requires winners == v * w && all == v * t
    ensures winners * t == w * all
  {
    assert (v * w) * t == w * (v * t);
  }

  lemma Carry(a: nat, s: nat, t: nat, w: nat, v: nat, winners: nat, all: nat)
    requires a * s == w * v && winners == a * s && all == v * t
    ensures winners * t == w * all
  {
    assert (w * v) * t == w * (v * t);
  }

  /** Of all vectors of draws, the number for which the loop returns `i`, times the total
      weight, is the weight of `i` times the number of all. */
  lemma ReturnsCounted(w: seq<nat>, i: nat)
    requires Whole(w) && i < |w|
    ensures Weights(AsReals(w))
    ensures var n := |w|;
            |set d | d in Vectors(w, n) && |d| == n && Held(AsReals(w), Fractions(w, d), n, i)| * Total(w, n)
            == w[i] * |Vectors(w, n)|
  {
    var n := |w|;
    TotalIsSum(w, 0);
    WinnersCounted(w, n, i);
    forall d | d in Vectors(w, n) && |d| == n
      ensures Wins(w, d, n, i) <==> Held(AsReals(w), Fractions(w, d), n, i)
    {
      WinsIsHeld(w, d, n, i);
    }
    assert Winners(w, n, i) == set d | d in Vectors(w, n) && |d| == n && Held(AsReals(w), Fractions(w, d), n, i);
  }
}
