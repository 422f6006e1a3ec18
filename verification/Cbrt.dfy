/** Digit-recurrence cube root of a fixed-point number.

    The loop decides one bit of the root at a time.  All registers have `prcs`
    fractional bits and are modelled by their contents.  At bit position `pos` the
    arithmetic happens in units of `2^(prcs + 3 pos)`; the code spreads it over
    slices at computed positions, with carries and borrows passed by hand. */
module Cbrt {
  import opened Bits
  import opened FixedSpec
  import opened FixedFlags
  import opened ApFixed

  // ----- slices of scaled numbers -----

  /** A slice, at or above `lo`, of a multiple of `2^lo` plus something smaller. */
  lemma SliceOf(x: int, v: int, z: int, lo: nat, hi': int, lo': nat)
    requires lo <= lo' <= hi' + 1 && 0 <= z < Pow2(lo) && x == v * Pow2(lo) + z
    ensures Slice(x, hi', lo') == (v / Pow2(lo' - lo)) % Pow2(hi' + 1 - lo')
  {
    Pow2Add(lo, lo' - lo);
    DivDiv(x, Pow2(lo), Pow2(lo' - lo));
    DivModIs(x, Pow2(lo), v, z);
  }

  /** The slice that holds all of `v`. */
  lemma SliceAll(x: int, v: int, lo: nat, hi': int)
    requires lo <= hi' + 1 && x == v * Pow2(lo) && 0 <= v < Pow2(hi' + 1 - lo)
    ensures Slice(x, hi', lo) == v
  {
    MulDiv(v, Pow2(lo));
    DivModIs(v, Pow2(hi' + 1 - lo), 0, v);
  }

  /** Writing a value that fits into a slice that was empty. */
  lemma SetEmpty(x: int, hi: int, lo: nat, y: int)
    requires lo <= hi + 1 && Slice(x, hi, lo) == 0 && 0 <= y < Pow2(hi + 1 - lo)
    ensures SetSlice(x, hi, lo, y) == x + y * Pow2(lo)
  {
    DivModIs(y, Pow2(hi + 1 - lo), 0, y);
  }

  lemma SliceZero(hi: int, lo: nat)
    requires lo <= hi + 1
    ensures Slice(0, hi, lo) == 0
  {
    DivModIs(0, Pow2(lo), 0, 0);
    DivModIs(0, Pow2(hi + 1 - lo), 0, 0);
  }

  /** Copying the slice that holds all of `v` to an empty register, at a position that
      is `sh` above `q`. */
  lemma PlaceTerm(src: int, v: int, hi1: int, lo1: nat, hi2: int, lo2: nat, q: nat, sh: nat)
    requires lo1 <= hi1 + 1 && hi1 - lo1 == hi2 - lo2 && lo2 == q + sh
    requires src == v * Pow2(lo1) && 0 <= v < Pow2(hi1 + 1 - lo1)
    ensures SetSlice(0, hi2, lo2, Slice(src, hi1, lo1)) == (Pow2(sh) * v) * Pow2(q)
  {
    SliceAll(src, v, lo1, hi1);
    SliceZero(hi2, lo2);
    SetEmpty(0, hi2, lo2, v);
    Pow2Add(sh, q);
    MulAssoc(v, Pow2(sh), Pow2(q));
  }

  // ----- one step -----

  /** The trial subtrahend of a step, `(2a + 1)^3 - (2a)^3`. */
  function Trial(a: int): int {
    12 * (a * a) + 6 * a + 1
  }

  lemma SquareBound(a: nat, k: nat)
    requires a < Pow2(k)
    ensures a * a < Pow2(2 * k)
  {
    Pow2Add(k, k);
    assert k + k == 2 * k;
    SquareLess(a, Pow2(k));
  }

  lemma SquareLess(a: nat, p: nat)
    requires a < p
    ensures a * a < p * p
  {
    MulMono(a, p - 1, a);
    MulMono(a, p - 1, p);
  }

  /** Bits `lo` to `hi` of a register of `width` bits. */
  function Get(x: int, width: int, hi: int, lo: nat): nat
    requires lo <= hi < width
  {
    Slice(x, hi, lo)
  }

  /** A register of `width` bits with its bits `lo` to `hi` replaced. */
  function Put(x: int, width: int, hi: int, lo: nat, y: int): int
    requires lo <= hi < width
  {
    SetSlice(x, hi, lo, y)
  }

  /** The four product terms of a step, in units of `2^(prcs + 3 pos)`. */
  method Terms(res: int, resq: int, msbr: nat, prcs: nat, pos: int, ghost a: nat)
    returns (mul1a: int, mul1b: int, mul2a: int, mul2b: int)
    requires pos < msbr && 0 <= prcs + 3 * pos && 0 <= prcs + pos && 0 <= prcs + 2 * pos
    requires a < Pow2(msbr - pos - 1)
    requires res == a * Pow2(prcs + pos + 1) && resq == (a * a) * Pow2(prcs + 2 * pos + 2)
    ensures var q := prcs + 3 * pos;
            && mul1a == (8 * (a * a)) * Pow2(q) && mul1b == (4 * (a * a)) * Pow2(q)
            && mul2a == (4 * a) * Pow2(q) && mul2b == (2 * a) * Pow2(q)
  {
    SquareBound(a, msbr - pos - 1);
    mul1a, mul1b := SquareTerms(resq, msbr, prcs, pos, a * a);
    mul2a, mul2b := RootTerms(res, msbr, prcs, pos, a);
  }

  method SquareTerms(resq: int, msbr: nat, prcs: nat, pos: int, ghost v: nat) returns (mul1a: int, mul1b: int)
    requires pos < msbr && 0 <= prcs + 3 * pos && 0 <= prcs + 2 * pos
    requires v < Pow2(2 * (msbr - pos - 1)) && resq == v * Pow2(prcs + 2 * pos + 2)
    ensures mul1a == (8 * v) * Pow2(prcs + 3 * pos) && mul1b == (4 * v) * Pow2(prcs + 3 * pos)
  {
    ghost var q := prcs + 3 * pos;
    Pow2Mono(2 * (msbr - pos - 1), 2 * (msbr - pos));
    assert Pow2(2) == 4 && Pow2(3) == 8;
    PlaceTerm(resq, v, prcs + 2 * msbr + 1, prcs + 2 * pos + 2, pos + 2 * msbr + prcs + 2, prcs + 3 * pos + 3, q, 3);
    mul1a := Put(0, 3 * msbr + prcs + 2, pos + 2 * msbr + prcs + 2, prcs + 3 * pos + 3, Get(resq, 2 * msbr + prcs + 2, prcs + 2 * msbr + 1, prcs + 2 * pos + 2));
    PlaceTerm(resq, v, prcs + 2 * msbr + 1, prcs + 2 * pos + 2, pos + 2 * msbr + prcs + 1, prcs + 3 * pos + 2, q, 2);
    mul1b := Put(0, 3 * msbr + prcs + 1, pos + 2 * msbr + prcs + 1, prcs + 3 * pos + 2, Get(resq, 2 * msbr + prcs + 2, prcs + 2 * msbr + 1, prcs + 2 * pos + 2));
  }

  method RootTerms(res: int, msbr: nat, prcs: nat, pos: int, ghost a: nat) returns (mul2a: int, mul2b: int)
    requires pos < msbr && 0 <= prcs + 3 * pos && 0 <= prcs + pos
    requires a < Pow2(msbr - pos - 1) && res == a * Pow2(prcs + pos + 1)
    ensures mul2a == (4 * a) * Pow2(prcs + 3 * pos) && mul2b == (2 * a) * Pow2(prcs + 3 * pos)
  {
    ghost var q := prcs + 3 * pos;
    Pow2Mono(msbr - pos - 1, msbr - pos);
    assert Pow2(1) == 2 && Pow2(2) == 4;
    PlaceTerm(res, a, msbr + prcs, pos + 1 + prcs, pos * 2 + msbr + prcs + 1, pos * 3 + 2 + prcs, q, 2);
    mul2a := Put(0, 3 * msbr + prcs, pos * 2 + msbr + prcs + 1, pos * 3 + 2 + prcs, Get(res, msbr + prcs + 1, msbr + prcs, pos + 1 + prcs));
    PlaceTerm(res, a, msbr + prcs, pos + 1 + prcs, pos * 2 + msbr + prcs, pos * 3 + 1 + prcs, q, 1);
    mul2b := Put(0, 3 * msbr + prcs - 1, pos * 2 + msbr + prcs, pos * 3 + 1 + prcs, Get(res, msbr + prcs + 1, msbr + prcs, pos + 1 + prcs));
  }

  /** Sum of the low slices of the four terms, with room for two carry bits; `n` is the
      weight of the first bit that is left to the high part. */
  method AddLow(mul1a: int, mul1b: int, mul2a: int, mul2b: int, msbr: nat, prcs: nat, pos: int, ghost a: nat)
    returns (mulL: int, s: nat)
    requires pos < msbr && 0 <= prcs + 3 * pos
    requires a < Pow2(msbr - pos - 1)
    requires var q := prcs + 3 * pos;
             && mul1a == (8 * (a * a)) * Pow2(q) && mul1b == (4 * (a * a)) * Pow2(q)
             && mul2a == (4 * a) * Pow2(q) && mul2b == (2 * a) * Pow2(q)
    ensures var q, n := prcs + 3 * pos, Pow2(msbr - pos + 1);
            && s == 3 * a + (4 * (a * a)) % n + (2 * (a * a)) % n
            && s < Pow2(msbr - pos + 3)
            && mulL == s * Pow2(q + 1)
  {
    s := SumLow(mul1a, mul1b, mul2a, mul2b, msbr, prcs, pos, a);
    LowSumFits(a, msbr - pos, s);
    SliceZero(pos * 2 + msbr + prcs + 3, pos * 3 + 1 + prcs);
    SetEmpty(0, pos * 2 + msbr + prcs + 3, pos * 3 + 1 + prcs, s);
    mulL := Put(0, 3 * msbr + prcs + 3, pos * 2 + msbr + prcs + 3, pos * 3 + 1 + prcs, s);
  }

  lemma LowSumFits(a: nat, k: nat, s: nat)
    requires k > 0 && a < Pow2(k - 1) && s == 3 * a + (4 * (a * a)) % Pow2(k + 1) + (2 * (a * a)) % Pow2(k + 1)
    ensures s < Pow2(k + 3)
  {
    var n := Pow2(k + 1);
    assert n == 2 * Pow2(k) && Pow2(k) == 2 * Pow2(k - 1);
    assert Pow2(k + 3) == 2 * Pow2(k + 2) && Pow2(k + 2) == 2 * n;
  }

  method SumLow(mul1a: int, mul1b: int, mul2a: int, mul2b: int, msbr: nat, prcs: nat, pos: int, ghost a: nat) returns (s: nat)
    requires pos < msbr && 0 <= prcs + 3 * pos
    requires a < Pow2(msbr - pos - 1)
    requires var q := prcs + 3 * pos;
             && mul1a == (8 * (a * a)) * Pow2(q) && mul1b == (4 * (a * a)) * Pow2(q)
             && mul2a == (4 * a) * Pow2(q) && mul2b == (2 * a) * Pow2(q)
    ensures var n := Pow2(msbr - pos + 1); s == 3 * a + (4 * (a * a)) % n + (2 * (a * a)) % n
  {
    ghost var q, k := prcs + 3 * pos, msbr - pos;
    assert Pow2(k + 1) == 2 * Pow2(k) && Pow2(k) == 2 * Pow2(k - 1);
    LowTerm(mul2b, a, q, k, pos * 2 + msbr + prcs, pos * 3 + 1 + prcs);
    LowTerm(mul2a, 2 * a, q, k + 1, pos * 2 + msbr + prcs + 1, pos * 3 + 1 + prcs);
    LowTerm(mul1a, 4 * (a * a), q, k + 1, pos * 2 + msbr + prcs + 1, pos * 3 + 1 + prcs);
    LowTerm(mul1b, 2 * (a * a), q, k + 1, pos * 2 + msbr + prcs + 1, pos * 3 + 1 + prcs);
    DivModIs(a, Pow2(k), 0, a);
    DivModIs(2 * a, Pow2(k + 1), 0, 2 * a);
    s := Get(mul2b, 3 * msbr + prcs - 1, pos * 2 + msbr + prcs, pos * 3 + 1 + prcs)
         + Get(mul2a, 3 * msbr + prcs, pos * 2 + msbr + prcs + 1, pos * 3 + 1 + prcs)
         + Get(mul1a, 3 * msbr + prcs + 2, pos * 2 + msbr + prcs + 1, pos * 3 + 1 + prcs)
         + Get(mul1b, 3 * msbr + prcs + 1, pos * 2 + msbr + prcs + 1, pos * 3 + 1 + prcs);
  }

  /** The low slice of a term that is even in its units. */
  lemma LowTerm(x: int, v: int, q: nat, n: nat, hi: int, lo: nat)
    requires x == (2 * v) * Pow2(q) && lo == q + 1 && hi + 1 - lo == n
    ensures Slice(x, hi, lo) == v % Pow2(n)
  {
    assert Pow2(q + 1) == 2 * Pow2(q);
    DoubleScale(v, Pow2(q));
    SliceOf(x, v, 0, q + 1, hi, lo);
    DivModIs(v, 1, v, 0);
  }

  /** Sum of the high slices of the two square terms and the carry of the low sum. */
  method AddHigh(mulL: int, mul1a: int, mul1b: int, msbr: nat, prcs: nat, pos: int, ghost a: nat, ghost s: nat)
    returns (mulH: int, h: nat)
    requires pos < msbr && 0 <= prcs + 3 * pos
    requires a < Pow2(msbr - pos - 1) && s < Pow2(msbr - pos + 3)
    requires var q := prcs + 3 * pos;
             && mul1a == (8 * (a * a)) * Pow2(q) && mul1b == (4 * (a * a)) * Pow2(q)
             && mulL == s * Pow2(q + 1)
    ensures var q, n := prcs + 3 * pos, Pow2(msbr - pos + 1);
            && h == s / n + (4 * (a * a)) / n + (2 * (a * a)) / n
            && h < Pow2(msbr - pos + 2)
            && mulH == h * Pow2(q + (msbr - pos) + 2)
  {
    HighBounds(a, s, msbr - pos);
    h := SumHigh(mulL, mul1a, mul1b, msbr, prcs, pos, a, s);
    var lo := pos * 2 + msbr + prcs + 2;
    SliceZero(pos + 2 * msbr + prcs + 3, lo);
    SetEmpty(0, pos + 2 * msbr + prcs + 3, lo, h);
    mulH := Put(0, 3 * msbr + prcs + 3, pos + 2 * msbr + prcs + 3, lo, h);
  }

  method SumHigh(mulL: int, mul1a: int, mul1b: int, msbr: nat, prcs: nat, pos: int, ghost a: nat, ghost s: nat) returns (h: nat)
    requires pos < msbr && 0 <= prcs + 3 * pos
    requires a < Pow2(msbr - pos - 1) && s < Pow2(msbr - pos + 3)
    requires var q := prcs + 3 * pos;
             && mul1a == (8 * (a * a)) * Pow2(q) && mul1b == (4 * (a * a)) * Pow2(q)
             && mulL == s * Pow2(q + 1)
    ensures var n := Pow2(msbr - pos + 1); h == s / n + (4 * (a * a)) / n + (2 * (a * a)) / n
  {
    ghost var q, k := prcs + 3 * pos, msbr - pos;
    var lo := pos * 2 + msbr + prcs + 2;
    HighTerm(mulL, s, q, k, 2, pos * 2 + msbr + prcs + 3, lo);
    HighTerm(mul1a, 4 * (a * a), q, k, k + 1, pos + 2 * msbr + prcs + 2, lo);
    HighTerm(mul1b, 2 * (a * a), q, k, k, pos + 2 * msbr + prcs + 1, lo);
    HighBounds(a, s, k);
    h := Get(mulL, 3 * msbr + prcs + 3, pos * 2 + msbr + prcs + 3, lo) + Get(mul1a, 3 * msbr + prcs + 2, pos + 2 * msbr + prcs + 2, lo)
         + Get(mul1b, 3 * msbr + prcs + 1, pos + 2 * msbr + prcs + 1, lo);
  }

  lemma HighTerm(x: int, v: int, q: nat, k: nat, n: nat, hi: int, lo: nat)
    requires x == v * Pow2(q + 1) || x == (2 * v) * Pow2(q)
    requires lo == q + k + 2 && hi + 1 - lo == n
    ensures Slice(x, hi, lo) == (v / Pow2(k + 1)) % Pow2(n)
  {
    assert Pow2(q + 1) == 2 * Pow2(q);
    DoubleScale(v, Pow2(q));
    SliceOf(x, v, 0, q + 1, hi, lo);
  }

  /** The high slices are long enough for what they have to hold. */
  lemma HighBounds(a: nat, s: nat, k: nat)
    requires k > 0 && a < Pow2(k - 1) && s < Pow2(k + 3)
    ensures var n := Pow2(k + 1);
            && (s / n) % Pow2(2) == s / n
            && ((4 * (a * a)) / n) % Pow2(k + 1) == (4 * (a * a)) / n
            && ((2 * (a * a)) / n) % Pow2(k) == (2 * (a * a)) / n
            && s / n + (4 * (a * a)) / n + (2 * (a * a)) / n < Pow2(k + 2)
  {
    var n := Pow2(k + 1);
    SquareBound(a, k - 1);
    assert Pow2(2) == 4 && Pow2(k + 3) == 4 * n && Pow2(k + 1) == 4 * Pow2(k - 1);
    DivBounds(s, 0, 4, n);
    DivModIs(s / n, 4, 0, s / n);
    Pow2Add(k - 1, k + 1);
    assert Pow2(2 * k) == 4 * Pow2(2 * (k - 1));
    assert Pow2(k - 1) * n == Pow2(2 * k);
    DivBounds(4 * (a * a), 0, Pow2(k - 1), n);
    DivMono(2 * (a * a), 4 * (a * a), n);
    DivBounds(2 * (a * a), 0, Pow2(k - 1), n);
    DivModIs((4 * (a * a)) / n, n, 0, (4 * (a * a)) / n);
    DivModIs((2 * (a * a)) / n, Pow2(k), 0, (2 * (a * a)) / n);
  }

  /** The two sums and the final one make up the trial subtrahend. */
  lemma TrialIs(a: nat, s: nat, h: nat, n: nat)
    requires n > 0 && s == 3 * a + (4 * (a * a)) % n + (2 * (a * a)) % n
    requires h == s / n + (4 * (a * a)) / n + (2 * (a * a)) / n
    ensures h * (2 * n) + (2 * (s % n) + 1) == Trial(a)
  {
    TwiceAs(h, n);
    var x, y := 4 * (a * a), 2 * (a * a);
    assert x == (x / n) * n + x % n && y == (y / n) * n + y % n && s == (s / n) * n + s % n;
    assert h * n == (s / n) * n + (x / n) * n + (y / n) * n;
  }

  /** Setting the lowest bit of the low sum. */
  lemma SetUnit(mulL: int, s: nat, q: nat)
    requires mulL == s * Pow2(q + 1)
    ensures SetSlice(mulL, q, q, 1) == (2 * s + 1) * Pow2(q)
  {
    DoubleScale(s, Pow2(q));
    MulDiv(2 * s, Pow2(q));
    DivModIs(2 * s, 2, s, 0);
    assert q + 1 - q == 1 && Pow2(1) == 2;
    SetEmpty(mulL, q, q, 1);
  }

  /** Comparing and subtracting in two halves is comparing and subtracting. */
  lemma SplitSubtract(y: nat, d: nat, m: nat, hx: nat, lx: nat, h: nat, l: nat)
    requires m > 0 && lx < m && l < m && y == hx * m + lx && d == h * m + l
    ensures y >= d <==> hx > h || (hx == h && lx >= l)
    ensures y >= d ==> var b := if lx >= l then 0 else 1;
                         hx - h - b >= 0 && 0 <= lx + b * m - l < m && y - d == (hx - h - b) * m + (lx + b * m - l)
  {
    if hx > h {
      MulMono(h + 1, hx, m);
    } else if hx < h {
      MulMono(hx + 1, h, m);
    }
    assert (hx - h) * m == hx * m - h * m;
    assert (hx - h - 1) * m == hx * m - h * m - m;
  }

  /** A number above its lowest `q` bits in two halves, weighted `m * p` and `p`. */
  ghost predicate Halves(x: int, hx: int, lx: int, m: int, p: int, z: int) {
    x == (hx * m + lx) * p + z
  }

  lemma HalvesQuotients(x: int, hx: int, lx: int, m: int, p: int, z: int)
    requires Halves(x, hx, lx, m, p, z) && 0 <= lx < m && 0 <= z < p
    ensures x / p == hx * m + lx && (x / p) % m == lx && x / (p * m) == hx
  {
    DivModIs(x, p, hx * m + lx, z);
    DivDiv(x, p, m);
    DivModIs(hx * m + lx, m, hx, lx);
  }

  lemma HalvesHigh(x: int, hx: nat, lx: nat, z: nat, q: nat, n: nat, hi: int, lo: nat)
    requires z < Pow2(q) && lx < Pow2(n) && lo == q + n && lo <= hi + 1 && hx < Pow2(hi + 1 - lo)
    requires Halves(x, hx, lx, Pow2(n), Pow2(q), z)
    ensures Slice(x, hi, lo) == hx
  {
    Pow2Add(q, n);
    HalvesQuotients(x, hx, lx, Pow2(n), Pow2(q), z);
    DivModIs(hx, Pow2(hi + 1 - lo), 0, hx);
  }

  lemma HalvesLow(x: int, hx: nat, lx: nat, z: nat, q: nat, n: nat, hi: int)
    requires z < Pow2(q) && lx < Pow2(n) && q <= hi + 1 && hi + 1 - q == n
    requires Halves(x, hx, lx, Pow2(n), Pow2(q), z)
    ensures Slice(x, hi, q) == lx
  {
    HalvesQuotients(x, hx, lx, Pow2(n), Pow2(q), z);
  }

  lemma SetHigh(x: int, hx: nat, lx: nat, z: nat, q: nat, n: nat, hi: int, lo: nat, y: nat)
    requires z < Pow2(q) && lx < Pow2(n) && lo == q + n && lo <= hi + 1 && hx < Pow2(hi + 1 - lo) && y < Pow2(hi + 1 - lo)
    requires Halves(x, hx, lx, Pow2(n), Pow2(q), z)
    ensures Halves(SetSlice(x, hi, lo, y), y, lx, Pow2(n), Pow2(q), z)
  {
    HalvesHigh(x, hx, lx, z, q, n, hi, lo);
    DivModIs(y, Pow2(hi + 1 - lo), 0, y);
    Pow2Add(q, n);
    HalfUpdate(hx, y, lx, lx, Pow2(n), Pow2(q), z);
  }

  lemma SetLow(x: int, hx: nat, lx: nat, z: nat, q: nat, n: nat, hi: int, y: nat)
    requires z < Pow2(q) && lx < Pow2(n) && q <= hi + 1 && hi + 1 - q == n && y < Pow2(n)
    requires Halves(x, hx, lx, Pow2(n), Pow2(q), z)
    ensures Halves(SetSlice(x, hi, q, y), hx, y, Pow2(n), Pow2(q), z)
  {
    HalvesLow(x, hx, lx, z, q, n, hi);
    DivModIs(y, Pow2(n), 0, y);
    HalfUpdate(hx, hx, lx, y, Pow2(n), Pow2(q), z);
  }

  lemma HalfUpdate(hx: int, hn: int, lx: int, ln: int, m: int, p: int, z: int)
    ensures (hx * m + lx) * p + z + (hn - hx) * (p * m) == (hn * m + lx) * p + z
    ensures (hn * m + lx) * p + z + (ln - lx) * p == (hn * m + ln) * p + z
  {
    assert (hn - hx) * (p * m) == (hn * m) * p - (hx * m) * p;
  }

  /** The trial subtraction: compare the remainder with the trial subtrahend in two
      halves, and subtract with a borrow if it is large enough. */
  method TrialSubtract(xRem: int, mulL: int, mulH: int, msbr: nat, prcs: nat, pos: int,
                       ghost y: nat, ghost z: nat, ghost s: nat, ghost h: nat, ghost l: nat, ghost d: nat)
    returns (fits: bool, rem: int)
    requires pos < msbr && 0 <= prcs + 3 * pos
    requires var q, k := prcs + 3 * pos, msbr - pos;
             && xRem == y * Pow2(q) + z && z < Pow2(q) && y < Pow2(2 * k + 5)
             && mulL == (2 * s + 1) * Pow2(q) && mulH == h * Pow2(q + k + 2) && h < Pow2(k + 2)
             && l == 2 * (s % Pow2(k + 1)) + 1 && d == h * Pow2(k + 2) + l
    ensures fits <==> y >= d
    ensures rem == (if fits then y - d else y) * Pow2(prcs + 3 * pos) + z
  {
    ghost var q: nat, k: nat := prcs + 3 * pos, msbr - pos;
    ghost var hx, lx := SplitRemainder(xRem, y, z, q, k);
    SliceAll(mulH, h, q + k + 2, pos + 2 * msbr + prcs + 3);
    LowHalfOf(mulL, s, q, k, pos * 2 + msbr + prcs + 1);
    SplitSubtract(y, d, Pow2(k + 2), hx, lx, h, l);
    fits, rem := CompareAndSubtract(xRem, mulL, mulH, msbr, prcs, pos, hx, lx, z, h, l);
    JoinRemainder(xRem, rem, y, z, q, k, hx, lx, h, l, fits);
  }

  lemma SplitRemainder(xRem: int, y: nat, z: nat, q: nat, k: nat) returns (hx: nat, lx: nat)
    requires xRem == y * Pow2(q) + z && y < Pow2(2 * k + 5)
    ensures y == hx * Pow2(k + 2) + lx && lx < Pow2(k + 2) && hx < Pow2(k + 3)
    ensures Halves(xRem, hx, lx, Pow2(k + 2), Pow2(q), z)
  {
    Pow2Add(k + 2, k + 3);
    DivBounds(y, 0, Pow2(k + 3), Pow2(k + 2));
    hx, lx := SplitAt(xRem, y, z, Pow2(k + 2), Pow2(q));
  }

  lemma SplitAt(x: int, y: nat, z: nat, m: nat, p: nat) returns (hx: nat, lx: nat)
    requires m > 0 && x == y * p + z
    ensures hx == y / m && y == hx * m + lx && lx < m && Halves(x, hx, lx, m, p, z)
  {
    hx, lx := y / m, y % m;
  }

  lemma JoinRemainder(xRem: int, rem: int, y: nat, z: nat, q: nat, k: nat, hx: nat, lx: nat, h: nat, l: nat, fits: bool)
    requires xRem == y * Pow2(q) + z && y == hx * Pow2(k + 2) + lx && lx < Pow2(k + 2) && l < Pow2(k + 2)
    requires fits <==> y >= h * Pow2(k + 2) + l
    requires !fits ==> rem == xRem
    requires fits ==> var b := if lx >= l then 0 else 1;
                        Halves(rem, hx - h - b, lx + b * Pow2(k + 2) - l, Pow2(k + 2), Pow2(q), z)
    ensures rem == (if fits then y - (h * Pow2(k + 2) + l) else y) * Pow2(q) + z
  {
    if fits {
      SplitSubtract(y, h * Pow2(k + 2) + l, Pow2(k + 2), hx, lx, h, l);
    }
  }

  method CompareAndSubtract(xRem: int, mulL: int, mulH: int, msbr: nat, prcs: nat, pos: int,
                            ghost hx: nat, ghost lx: nat, ghost z: nat, ghost h: nat, ghost l: nat)
    returns (fits: bool, rem: int)
    requires pos < msbr && 0 <= prcs + 3 * pos
    requires var q, k := prcs + 3 * pos, msbr - pos;
             && Halves(xRem, hx, lx, Pow2(k + 2), Pow2(q), z) && z < Pow2(q)
             && lx < Pow2(k + 2) && hx < Pow2(k + 3) && l < Pow2(k + 2)
             && Slice(mulH, pos + 2 * msbr + prcs + 3, q + k + 2) == h
             && Slice(mulL, pos * 2 + msbr + prcs + 1, q) == l
    ensures fits <==> hx > h || (hx == h && lx >= l)
    ensures !fits ==> rem == xRem
    ensures fits ==> var b, k := if lx >= l then 0 else 1, msbr - pos;
                       Halves(rem, hx - h - b, lx + b * Pow2(k + 2) - l, Pow2(k + 2), Pow2(prcs + 3 * pos), z)
  {
    ghost var q: nat, k: nat := prcs + 3 * pos, msbr - pos;
    HalvesHigh(xRem, hx, lx, z, q, k + 2, pos + 2 * msbr + prcs + 4, pos * 2 + msbr + prcs + 2);
    HalvesLow(xRem, hx, lx, z, q, k + 2, pos * 2 + msbr + prcs + 1);
    var xHi := Get(xRem, 3 * msbr + prcs + 4, pos + 2 * msbr + prcs + 4, pos * 2 + msbr + prcs + 2);
    var xLo := Get(xRem, 3 * msbr + prcs + 4, pos * 2 + msbr + prcs + 1, pos * 3 + prcs);
    var mHi := Get(mulH, 3 * msbr + prcs + 3, pos + 2 * msbr + prcs + 3, pos * 2 + msbr + prcs + 2);
    var mLo := Get(mulL, 3 * msbr + prcs + 3, pos * 2 + msbr + prcs + 1, pos * 3 + prcs);
    var cond1, cond2, cond3 := xHi > mHi, xHi == mHi, xLo >= mLo;
    fits := cond1 || (cond2 && cond3);
    rem := xRem;
    if fits {
      rem := SubtractWithBorrow(xRem, xHi, xLo, mHi, mLo, cond3, msbr, prcs, pos, z);
    }
  }

  lemma TwiceAs(h: int, n: int)
    ensures h * (2 * n) == 2 * (h * n)
  {
  }

  lemma LowHalfOf(mulL: int, s: nat, q: nat, k: nat, hi: int)
    requires mulL == (2 * s + 1) * Pow2(q) && hi + 1 - q == k + 2
    ensures Slice(mulL, hi, q) == 2 * (s % Pow2(k + 1)) + 1 < Pow2(k + 2)
  {
    var n := Pow2(k + 1);
    SliceOf(mulL, 2 * s + 1, 0, q, hi, q);
    DivModIs(2 * s + 1, 1, 2 * s + 1, 0);
    TwiceAs(s / n, n);
    DivModIs(2 * s + 1, 2 * n, s / n, 2 * (s % n) + 1);
  }

  method SubtractWithBorrow(xRem: int, xHi: nat, xLo: nat, mHi: nat, mLo: nat, cond3: bool,
                            msbr: nat, prcs: nat, pos: int, ghost z: nat)
    returns (rem: int)
    requires pos < msbr && 0 <= prcs + 3 * pos
    requires var q, k := prcs + 3 * pos, msbr - pos;
             && Halves(xRem, xHi, xLo, Pow2(k + 2), Pow2(q), z) && z < Pow2(q)
             && xLo < Pow2(k + 2) && xHi < Pow2(k + 3) && mLo < Pow2(k + 2)
             && (cond3 <==> xLo >= mLo) && xHi - mHi - (if cond3 then 0 else 1) >= 0
    ensures var bit := if cond3 then 0 else 1;
            Halves(rem, xHi - mHi - bit, xLo + bit * Pow2(msbr - pos + 2) - mLo, Pow2(msbr - pos + 2), Pow2(prcs + 3 * pos), z)
  {
    ghost var q: nat, k: nat := prcs + 3 * pos, msbr - pos;
    var bit := if cond3 then 0 else 1;
    BorrowRegister(xLo, bit, q, k + 2, pos * 2 + msbr + prcs + 1, pos * 2 + msbr + prcs + 2);
    var xRemL := Put(0, 3 * msbr + prcs + 3, pos * 2 + msbr + prcs + 1, pos * 3 + prcs, xLo);
    xRemL := Put(xRemL, 3 * msbr + prcs + 3, pos * 2 + msbr + prcs + 2, pos * 2 + msbr + prcs + 2, bit);
    var hn := xHi - mHi - Get(xRemL, 3 * msbr + prcs + 3, pos * 2 + msbr + prcs + 2, pos * 2 + msbr + prcs + 2);
    var ln := Get(xRemL, 3 * msbr + prcs + 3, pos * 2 + msbr + prcs + 2, pos * 3 + prcs) - mLo;
    SetHigh(xRem, xHi, xLo, z, q, k + 2, pos + 2 * msbr + prcs + 4, pos * 2 + msbr + prcs + 2, hn);
    rem := Put(xRem, 3 * msbr + prcs + 4, pos + 2 * msbr + prcs + 4, pos * 2 + msbr + prcs + 2, hn);
    SetLow(rem, hn, xLo, z, q, k + 2, pos * 2 + msbr + prcs + 1, ln);
    rem := Put(rem, 3 * msbr + prcs + 4, pos * 2 + msbr + prcs + 1, pos * 3 + prcs, ln);
  }

  /** The low half of the remainder with the borrowed bit above it. */
  lemma BorrowRegister(lo: nat, bit: nat, q: nat, n: nat, hi1: int, hi2: nat)
    requires lo < Pow2(n) && bit <= 1 && hi1 + 1 - q == n && hi2 == hi1 + 1
    ensures var r := SetSlice(SetSlice(0, hi1, q, lo), hi2, hi2, bit);
            Slice(r, hi2, hi2) == bit && Slice(r, hi2, q) == lo + bit * Pow2(n)
  {
    SliceZero(hi1, q);
    SetEmpty(0, hi1, q, lo);
    var low := lo * Pow2(q);
    BitAbove(low, lo, q, n, hi2);
    SetEmpty(low, hi2, hi2, bit);
    Pow2Add(n, q);
    Regroup(lo, bit, Pow2(n), Pow2(q), Pow2(hi2));
    BorrowBit(low + bit * Pow2(hi2), lo, bit, q, n, hi2);
  }

  lemma BitAbove(x: int, lo: nat, q: nat, n: nat, hi2: nat)
    requires lo < Pow2(n) && hi2 == q + n && x == lo * Pow2(q)
    ensures Slice(x, hi2, hi2) == 0 && Pow2(hi2 + 1 - hi2) == 2
  {
    assert hi2 + 1 - hi2 == 1 && Pow2(1) == 2;
    SliceOf(x, lo, 0, q, hi2, hi2);
    DivModIs(lo, Pow2(n), 0, lo);
  }

  lemma Regroup(lo: int, bit: int, p: int, q: int, pq: int)
    requires pq == p * q
    ensures lo * q + bit * pq == (lo + bit * p) * q
  {
    MulAssoc(bit, p, q);
  }

  lemma BorrowBit(x: int, lo: nat, bit: nat, q: nat, n: nat, hi2: nat)
    requires lo < Pow2(n) && bit <= 1 && hi2 == q + n && x == (lo + bit * Pow2(n)) * Pow2(q)
    ensures Slice(x, hi2, hi2) == bit && Slice(x, hi2, q) == lo + bit * Pow2(n)
  {
    assert Pow2(n + 1) == 2 * Pow2(n);
    SliceAll(x, lo + bit * Pow2(n), q, hi2);
    SliceOf(x, lo + bit * Pow2(n), 0, q, hi2, hi2);
    DivModIs(lo + bit * Pow2(n), Pow2(n), bit, lo);
    DivModIs(bit, Pow2(1), 0, bit);
  }

  /** Twice the root, added to the low half of the square. */
  method AddTwiceRoot(res: int, resq: int, msbr: nat, prcs: nat, pos: int, ghost a: nat, ghost hx: nat, ghost lx: nat)
    returns (resqL: int)
    requires pos < msbr && 0 <= prcs + pos && 0 <= prcs + 2 * pos
    requires a < Pow2(msbr - pos - 1) && lx < Pow2(msbr - pos)
    requires res == a * Pow2(prcs + pos + 1)
    requires Halves(resq, hx, lx, Pow2(msbr - pos), Pow2(prcs + 2 * pos + 2), 0)
    ensures resqL == (lx + a) * Pow2(prcs + 2 * pos + 2)
  {
    ghost var t: nat, k: nat := prcs + 2 * pos + 2, msbr - pos;
    Pow2Mono(k - 1, k);
    PlaceTerm(res, a, msbr + prcs, pos + 1 + prcs, pos + msbr + prcs + 1, 2 * pos + 2 + prcs, t, 0);
    var mul1 := Put(0, 2 * msbr + prcs + 1, pos + msbr + prcs + 1, 2 * pos + 2 + prcs, Get(res, msbr + prcs + 1, msbr + prcs, pos + 1 + prcs));
    SliceAll(mul1, a, t, pos + msbr + prcs + 1);
    HalvesLow(resq, hx, lx, 0, t, k, pos + msbr + prcs + 1);
    var sum := Get(resq, 2 * msbr + prcs + 2, pos + msbr + prcs + 1, 2 * pos + 2 + prcs) + Get(mul1, 2 * msbr + prcs + 1, pos + msbr + prcs + 1, 2 * pos + 2 + prcs);
    SliceZero(pos + msbr + prcs + 2, t);
    SetEmpty(0, pos + msbr + prcs + 2, t, sum);
    resqL := Put(0, 2 * msbr + prcs + 2, pos + msbr + prcs + 2, 2 * pos + 2 + prcs, sum);
  }

  /** The low half is replaced and its carry goes to the high half. */
  method PropagateCarry(resq0: int, resqL: int, msbr: nat, prcs: nat, pos: int, ghost sum: nat, ghost hx: nat, ghost lx: nat)
    returns (resq: int)
    requires pos < msbr && 0 <= prcs + pos && 0 <= prcs + 2 * pos
    requires var k := msbr - pos;
             lx < Pow2(k) && sum < Pow2(k + 1) && hx < Pow2(k) && hx + sum / Pow2(k) < Pow2(k)
    requires Halves(resq0, hx, lx, Pow2(msbr - pos), Pow2(prcs + 2 * pos + 2), 0)
    requires resqL == sum * Pow2(prcs + 2 * pos + 2)
    ensures var m := Pow2(msbr - pos); Halves(resq, hx + sum / m, sum % m, m, Pow2(prcs + 2 * pos + 2), 0)
  {
    ghost var t: nat, k: nat := prcs + 2 * pos + 2, msbr - pos;
    CarryOf(resqL, sum, t, k, pos + msbr + prcs + 1, pos + msbr + prcs + 2);
    var low := Get(resqL, 2 * msbr + prcs + 2, pos + msbr + prcs + 1, 2 * pos + 2 + prcs);
    SetLow(resq0, hx, lx, 0, t, k, pos + msbr + prcs + 1, low);
    resq := Put(resq0, 2 * msbr + prcs + 2, pos + msbr + prcs + 1, 2 * pos + 2 + prcs, low);
    HalvesHigh(resq, hx, low, 0, t, k, 2 * msbr + prcs + 1, pos + msbr + 2 + prcs);
    var high := Get(resq, 2 * msbr + prcs + 2, 2 * msbr + prcs + 1, pos + msbr + 2 + prcs)
                + Get(resqL, 2 * msbr + prcs + 2, pos + msbr + 2 + prcs, pos + msbr + 2 + prcs);
    SetHigh(resq, hx, low, 0, t, k, 2 * msbr + prcs + 1, pos + msbr + 2 + prcs, high);
    resq := Put(resq, 2 * msbr + prcs + 2, 2 * msbr + prcs + 1, pos + msbr + 2 + prcs, high);
  }

  /** The root gets its next bit and its square is brought along. */
  method SquareUpdate(res: int, resq: int, msbr: nat, prcs: nat, pos: int, ghost a: nat)
    returns (res': int, resq': int)
    requires pos < msbr && 0 <= prcs + pos && 0 <= prcs + 2 * pos
    requires a < Pow2(msbr - pos - 1)
    requires res == a * Pow2(prcs + pos + 1) && resq == (a * a) * Pow2(prcs + 2 * pos + 2)
    ensures res' == (2 * a + 1) * Pow2(prcs + pos)
    ensures resq' == ((2 * a + 1) * (2 * a + 1)) * Pow2(prcs + 2 * pos)
  {
    ghost var t: nat, k: nat := prcs + 2 * pos + 2, msbr - pos;
    ghost var hx, lx := SquareHalves(resq, a, t, k);
    var resqL := AddTwiceRoot(res, resq, msbr, prcs, pos, a, hx, lx);
    SquareRoom(a, hx, lx, k);
    Pow2Mono(k - 1, k);
    resq' := PropagateCarry(resq, resqL, msbr, prcs, pos, lx + a, hx, lx);
    SquareDone(resq', a, hx, lx, k, prcs + 2 * pos);
    SetUnit(resq', 2 * (a * a + a), prcs + 2 * pos);
    resq' := Put(resq', 2 * msbr + prcs + 2, 2 * pos + prcs, 2 * pos + prcs, 1);
    SetUnit(res, a, prcs + pos);
    res' := Put(res, msbr + prcs + 1, pos + prcs, pos + prcs, 1);
  }

  lemma SquareHalves(resq: int, a: nat, t: nat, k: nat) returns (hx: nat, lx: nat)
    requires k > 0 && a < Pow2(k - 1) && resq == (a * a) * Pow2(t)
    ensures a * a == hx * Pow2(k) + lx && lx < Pow2(k) && hx < Pow2(k)
    ensures Halves(resq, hx, lx, Pow2(k), Pow2(t), 0)
  {
    SquareBound(a, k - 1);
    Pow2Mono(2 * (k - 1), k + k);
    Pow2Add(k, k);
    hx, lx := Divide(a * a, Pow2(k));
  }

  lemma Divide(x: nat, m: nat) returns (hx: nat, lx: nat)
    requires m > 0 && x < m * m
    ensures x == hx * m + lx && lx < m && hx < m
  {
    DivBounds(x, 0, m, m);
    hx, lx := x / m, x % m;
  }

  /** The carry out of the low half never overflows the high half. */
  lemma SquareRoom(a: nat, hx: nat, lx: nat, k: nat)
    requires k > 0 && a < Pow2(k - 1) && a * a == hx * Pow2(k) + lx && lx < Pow2(k)
    ensures hx + (lx + a) / Pow2(k) < Pow2(k)
  {
    var m := Pow2(k);
    DivBounds(lx + a, 0, 2, m);
    SquareBound(a, k - 1);
    Pow2Mono(2 * (k - 1), (k - 1) + k);
    Pow2Add(k - 1, k);
    if hx >= Pow2(k - 1) { MulMono(Pow2(k - 1), hx, m); }
  }

  lemma CarryOf(x: int, sum: nat, t: nat, k: nat, hi: int, hi2: nat)
    requires x == sum * Pow2(t) && sum < Pow2(k + 1) && hi + 1 - t == k && hi2 == hi + 1
    ensures Slice(x, hi, t) == sum % Pow2(k) && Slice(x, hi2, hi2) == sum / Pow2(k)
  {
    SliceOf(x, sum, 0, t, hi, t);
    DivModIs(sum, 1, sum, 0);
    SliceOf(x, sum, 0, t, hi2, hi2);
    DivBounds(sum, 0, 2, Pow2(k));
    assert hi2 + 1 - hi2 == 1 && Pow2(1) == 2;
    DivModIs(sum / Pow2(k), 2, 0, sum / Pow2(k));
  }

  lemma SquareDone(x: int, a: nat, hx: nat, lx: nat, k: nat, p: nat)
    requires a * a == hx * Pow2(k) + lx
    requires Halves(x, hx + (lx + a) / Pow2(k), (lx + a) % Pow2(k), Pow2(k), Pow2(p + 2), 0)
    ensures x == (2 * (a * a + a)) * Pow2(p + 1)
    ensures (2 * (2 * (a * a + a)) + 1) == (2 * a + 1) * (2 * a + 1)
  {
    var m := Pow2(k);
    assert lx + a == ((lx + a) / m) * m + (lx + a) % m;
    assert (hx + (lx + a) / m) * m == hx * m + ((lx + a) / m) * m;
    DoubleScale(a * a + a, Pow2(p + 1));
  }

  // ----- the loop -----

  function Cube(a: int): int {
    a * a * a
  }

  /** The remainder is what the cube of the root so far leaves of `x`, and the root
      with one more in its last place would already be too large. */
  ghost predicate Remainder(x: int, rem: int, a: int, e: nat) {
    && 0 <= rem
    && rem + Cube(a) * Pow2(e) == x
    && x < Cube(a + 1) * Pow2(e)
  }

  lemma CubeStep(a: int)
    ensures Cube(2 * a) == 8 * Cube(a)
    ensures Cube(2 * a + 1) == 8 * Cube(a) + Trial(a)
    ensures Cube(2 * a + 2) == 8 * Cube(a + 1)
    ensures Cube(a + 1) == Cube(a) + 3 * (a * a) + 3 * a + 1
  {
    assert (2 * a + 1) * (2 * a + 1) == 4 * (a * a) + 4 * a + 1;
    assert (4 * (a * a) + 4 * a + 1) * (2 * a + 1) == 8 * (a * a * a) + 12 * (a * a) + 6 * a + 1;
    assert (a + 1) * (a + 1) == a * a + 2 * a + 1;
    assert (a * a + 2 * a + 1) * (a + 1) == a * a * a + 3 * (a * a) + 3 * a + 1;
  }

  /** Deciding the next bit by the trial subtraction keeps the remainder. */
  lemma RemainderStep(x: int, xRem: int, a: nat, q: nat, y: nat, z: nat, fits: bool, rem: int, d: int, a': nat)
    requires Remainder(x, xRem, a, q + 3) && xRem == y * Pow2(q) + z && z < Pow2(q)
    requires d == Trial(a) && (fits <==> y >= d) && a' == 2 * a + Int(fits)
    requires rem == (if fits then y - d else y) * Pow2(q) + z
    ensures Remainder(x, rem, a', q)
  {
    CubeStep(a);
    EightFold(q);
    RemainderMove(x, xRem, Pow2(q), y, z, Cube(a), Cube(a + 1), Trial(a), fits, rem);
  }

  lemma EightFold(q: nat)
    ensures Pow2(q + 3) == 8 * Pow2(q)
  {
    Pow2Add(3, q);
    assert Pow2(3) == 8;
  }

  lemma RemainderMove(x: int, xRem: int, u: nat, y: nat, z: nat, c: int, c1: int, d: int, fits: bool, rem: int)
    requires z < u && xRem == y * u + z
    requires xRem + c * (8 * u) == x && x < c1 * (8 * u)
    requires fits <==> y >= d
    requires rem == (if fits then y - d else y) * u + z
    ensures 0 <= rem
    ensures fits ==> rem + (8 * c + d) * u == x && x < (8 * c1) * u
    ensures !fits ==> rem + (8 * c) * u == x && x < (8 * c + d) * u
  {
    assert c * (8 * u) == (8 * c) * u && c1 * (8 * u) == (8 * c1) * u;
    assert (8 * c + d) * u == (8 * c) * u + d * u;
    if fits {
      assert (y - d) * u == y * u - d * u;
      MulMono(0, y - d, u);
    } else {
      MulMono(y + 1, d, u);
      assert (y + 1) * u == y * u + u;
      MulMono(0, y, u);
    }
  }

  /** The remainder stays within the slices that are compared and subtracted. */
  lemma RemainderSmall(x: int, xRem: int, a: nat, q: nat, k: nat)
    requires k > 0 && a < Pow2(k - 1) && Remainder(x, xRem, a, q + 3)
    ensures xRem < Pow2(2 * k + 5) * Pow2(q)
  {
    CubeStep(a);
    SquareBound(a, k - 1);
    Pow2Mono(k - 1, 2 * (k - 1));
    var u, p := Pow2(q), Pow2(2 * (k - 1));
    EightFold(q);
    assert Pow2(2 * k + 5) == 128 * p by { Pow2Add(7, 2 * (k - 1)); assert Pow2(7) == 128; assert 7 + 2 * (k - 1) == 2 * k + 5; }
    EightTimes(Cube(a), Cube(a + 1), u);
    MulMono(3 * (a * a) + 3 * a + 1, 7 * p, u);
    SevenTimes(p, u);
  }

  lemma EightTimes(c: int, c1: int, u: int)
    ensures c1 * (8 * u) - c * (8 * u) == 8 * ((c1 - c) * u)
  {
  }

  lemma SevenTimes(p: nat, u: nat)
    ensures 8 * ((7 * p) * u) <= (128 * p) * u
  {
    assert (7 * p) * u == 7 * (p * u) && (128 * p) * u == 128 * (p * u);
    MulMono(0, p, u);
  }

  /** The numbers that the loop keeps fit their registers. */
  lemma RegistersFit(res: int, resq: int, xRem: int, msbr: nat, prcs: nat, pos: int, x: int, a: nat)
    requires pos < msbr && 0 <= prcs + 3 * pos && 0 <= prcs + pos && 0 <= prcs + 2 * pos
    requires a < Pow2(msbr - pos - 1)
    requires res == a * Pow2(prcs + pos + 1) && resq == (a * a) * Pow2(prcs + 2 * pos + 2)
    requires Remainder(x, xRem, a, prcs + 3 * pos + 3)
    ensures Fits(res, msbr + prcs + 1, false) && Fits(resq, 2 * msbr + prcs + 2, false) && Fits(xRem, 3 * msbr + prcs + 4, false)
  {
    RootsFit(res, resq, msbr, prcs, pos, a);
    var k := msbr - pos;
    RemainderSmall(x, xRem, a, prcs + 3 * pos, k);
    Pow2Add(2 * k + 5, prcs + 3 * pos);
    Pow2Mono(2 * k + 5 + (prcs + 3 * pos), 3 * msbr + prcs + 4);
  }

  lemma RootsFit(res: int, resq: int, msbr: nat, prcs: nat, pos: int, a: nat)
    requires pos < msbr && 0 <= prcs + pos && 0 <= prcs + 2 * pos
    requires a < Pow2(msbr - pos - 1)
    requires res == a * Pow2(prcs + pos + 1) && resq == (a * a) * Pow2(prcs + 2 * pos + 2)
    ensures Fits(res, msbr + prcs + 1, false) && Fits(resq, 2 * msbr + prcs + 2, false)
  {
    var k := msbr - pos;
    SquareBound(a, k - 1);
    ScaledFits(a, k - 1, prcs + pos + 1, msbr + prcs + 1);
    ScaledFits(a * a, 2 * (k - 1), prcs + 2 * pos + 2, 2 * msbr + prcs + 2);
  }

  lemma ScaledFits(v: nat, e: nat, a: nat, c: nat)
    requires v < Pow2(e) && e + a <= c
    ensures Fits(v * Pow2(a), c, false)
  {
    ScaledBounds(v, e, a, c);
    MulMono(0, v, Pow2(a));
  }

  /** One iteration of the loop. */
  method Step(res: int, resq: int, xRem: int, msbr: nat, prcs: nat, pos: int, ghost x: int, ghost a: nat)
    returns (res': int, resq': int, xRem': int, ghost a': nat)
    requires pos < msbr && 0 <= prcs + 3 * pos && 0 <= prcs + pos && 0 <= prcs + 2 * pos
    requires a < Pow2(msbr - pos - 1)
    requires res == a * Pow2(prcs + pos + 1) && resq == (a * a) * Pow2(prcs + 2 * pos + 2)
    requires Remainder(x, xRem, a, prcs + 3 * pos + 3)
    ensures a' < Pow2(msbr - pos)
    ensures res' == a' * Pow2(prcs + pos) && resq' == (a' * a') * Pow2(prcs + 2 * pos)
    ensures Remainder(x, xRem', a', prcs + 3 * pos)
  {
    LowZero(resq, a * a, prcs + 2 * pos + 2);
    RegistersFit(res, resq, xRem, msbr, prcs, pos, x, a);
    assert Get(resq, 2 * msbr + prcs + 2, prcs + 2 * pos + 1, 0) == 0;
    LowZero(res, a, prcs + pos + 1);
    assert Get(res, msbr + prcs + 1, prcs + pos, 0) == 0;
    var mulL, mulH, s, h, l := TrialProduct(res, resq, msbr, prcs, pos, a);
    var fits;
    fits, xRem' := TryBit(xRem, mulL, mulH, msbr, prcs, pos, x, a, s, h, l);
    res', resq', a' := TakeBit(fits, res, resq, msbr, prcs, pos, a);
  }

  /** The comparison and subtraction of one iteration. */
  method TryBit(xRem: int, mulL: int, mulH: int, msbr: nat, prcs: nat, pos: int,
                ghost x: int, ghost a: nat, ghost s: nat, ghost h: nat, ghost l: nat)
    returns (fits: bool, xRem': int)
    requires pos < msbr && 0 <= prcs + 3 * pos
    requires a < Pow2(msbr - pos - 1) && Remainder(x, xRem, a, prcs + 3 * pos + 3)
    requires var q, k := prcs + 3 * pos, msbr - pos;
             && mulL == (2 * s + 1) * Pow2(q) && mulH == h * Pow2(q + k + 2) && h < Pow2(k + 2)
             && l == 2 * (s % Pow2(k + 1)) + 1 && Trial(a) == h * Pow2(k + 2) + l
    ensures Remainder(x, xRem', 2 * a + Int(fits), prcs + 3 * pos)
  {
    ghost var q: nat, k: nat := prcs + 3 * pos, msbr - pos;
    ghost var y, z := SplitUnits(x, xRem, a, q, k);
    ghost var d := Trial(a);
    fits, xRem' := TrialSubtract(xRem, mulL, mulH, msbr, prcs, pos, y, z, s, h, l, d);
    RemainderStep(x, xRem, a, q, y, z, fits, xRem', d, 2 * a + Int(fits));
  }

  method TakeBit(fits: bool, res: int, resq: int, msbr: nat, prcs: nat, pos: int, ghost a: nat)
    returns (res': int, resq': int, ghost a': nat)
    requires pos < msbr && 0 <= prcs + pos && 0 <= prcs + 2 * pos
    requires a < Pow2(msbr - pos - 1)
    requires res == a * Pow2(prcs + pos + 1) && resq == (a * a) * Pow2(prcs + 2 * pos + 2)
    ensures a' == 2 * a + Int(fits) && a' < Pow2(msbr - pos)
    ensures res' == a' * Pow2(prcs + pos) && resq' == (a' * a') * Pow2(prcs + 2 * pos)
  {
    a' := 2 * a + Int(fits);
    res', resq' := res, resq;
    if fits {
      res', resq' := SquareUpdate(res, resq, msbr, prcs, pos, a);
    } else {
      EvenRoot(a, prcs + pos, prcs + 2 * pos);
    }
  }

  /** The trial subtrahend, in two registers that share it at bit `k + 2`. */
  method TrialProduct(res: int, resq: int, msbr: nat, prcs: nat, pos: int, ghost a: nat)
    returns (mulL: int, mulH: int, ghost s: nat, ghost h: nat, ghost l: nat)
    requires pos < msbr && 0 <= prcs + 3 * pos && 0 <= prcs + pos && 0 <= prcs + 2 * pos
    requires a < Pow2(msbr - pos - 1)
    requires res == a * Pow2(prcs + pos + 1) && resq == (a * a) * Pow2(prcs + 2 * pos + 2)
    ensures var q, k := prcs + 3 * pos, msbr - pos;
            && mulL == (2 * s + 1) * Pow2(q) && mulH == h * Pow2(q + k + 2) && h < Pow2(k + 2)
            && l == 2 * (s % Pow2(k + 1)) + 1 && Trial(a) == h * Pow2(k + 2) + l
  {
    var mul1a, mul1b, mul2a, mul2b := Terms(res, resq, msbr, prcs, pos, a);
    mulL, s := AddLow(mul1a, mul1b, mul2a, mul2b, msbr, prcs, pos, a);
    mulH, h := AddHigh(mulL, mul1a, mul1b, msbr, prcs, pos, a, s);
    TrialIs(a, s, h, Pow2(msbr - pos + 1));
    SetUnit(mulL, s, prcs + 3 * pos);
    mulL := Put(mulL, 3 * msbr + prcs + 3, 3 * pos + prcs, 3 * pos + prcs, 1);
    l := 2 * (s % Pow2(msbr - pos + 1)) + 1;
  }

  lemma SplitUnits(x: int, xRem: int, a: nat, q: nat, k: nat) returns (y: nat, z: nat)
    requires k > 0 && a < Pow2(k - 1) && Remainder(x, xRem, a, q + 3)
    ensures xRem == y * Pow2(q) + z && z < Pow2(q) && y < Pow2(2 * k + 5)
  {
    RemainderSmall(x, xRem, a, q, k);
    DivBounds(xRem, 0, Pow2(2 * k + 5), Pow2(q));
    y, z := xRem / Pow2(q), xRem % Pow2(q);
  }

  lemma LowZero(x: int, v: int, e: nat)
    requires x == v * Pow2(e)
    ensures Slice(x, e - 1, 0) == 0
  {
    LowSlice(x, e);
    MulDiv(v, Pow2(e));
  }

  lemma EvenRoot(a: nat, e1: nat, e2: nat)
    ensures a * Pow2(e1 + 1) == (2 * a) * Pow2(e1)
    ensures (a * a) * Pow2(e2 + 2) == ((2 * a) * (2 * a)) * Pow2(e2)
  {
    DoubleScale(a, Pow2(e1));
    DoubleScale(a * a, Pow2(e2 + 1));
    DoubleScale(2 * (a * a), Pow2(e2));
    assert (2 * a) * (2 * a) == 2 * (2 * (a * a));
  }

  /** All bits of the root, down to one below the last place of the result. */
  method RootBits(xp: nat, f: nat, msbr: nat) returns (res: int, ghost a: nat)
    requires msbr > 0 && xp < Pow2(f + 3 * msbr)
    ensures res == a * Pow2(2 * (f + 1)) && a < Pow2(msbr + f + 1)
    ensures Cube(a) <= xp * Pow2(2 * f + 3) < Cube(a + 1)
  {
    var prcs := (f + 1) * 3;
    var resq := 0;
    res, a := 0, 0;
    var xRem := xp * Pow2(prcs - f);
    ghost var x := xRem;
    Start(xp, f, msbr, prcs, x);
    var pos := msbr - 1;
    while pos >= 0 - f - 1
      invariant 0 - f - 2 <= pos < msbr
      invariant a < Pow2(msbr - pos - 1)
      invariant res == a * Pow2(prcs + pos + 1) && resq == (a * a) * Pow2(prcs + 2 * pos + 2)
      invariant Remainder(x, xRem, a, prcs + 3 * pos + 3)
      decreases pos + f + 2
    {
      res, resq, xRem, a := Step(res, resq, xRem, msbr, prcs, pos, x, a);
      pos := pos - 1;
    }
    assert prcs + pos + 1 == 2 * (f + 1) && prcs + 3 * pos + 3 == 0;
  }

  lemma Start(xp: nat, f: nat, msbr: nat, prcs: nat, x: int)
    requires msbr > 0 && prcs == 3 * (f + 1) && x == xp * Pow2(prcs - f) && xp < Pow2(f + 3 * msbr)
    ensures Remainder(x, x, 0, prcs + 3 * msbr)
  {
    assert Cube(0) == 0 && Cube(1) == 1;
    MulMono(0, xp, Pow2(prcs - f));
    ScaledBounds(xp, f + 3 * msbr, prcs - f, prcs + 3 * msbr);
  }

  // ----- the function -----

  lemma CubeMono(a: nat, b: nat)
    requires a <= b
    ensures Cube(a) <= Cube(b)
    ensures a < b ==> Cube(a) < Cube(b)
  {
    MulMono(a, b, a);
    MulMono(a, b, b);
    MulMono(a * a, b * b, a);
    MulMono(a, b, b * b);
    if a < b { MulMono(a + 1, b, b * b); MulMono(1, b, b); }
  }

  /** The bounds on a cube root leave one number. */
  lemma CubeRootIsUnique(r: nat, s: nat, y: int)
    requires Cube(r) <= y < Cube(r + 1) && Cube(s) <= y < Cube(s + 1)
    ensures r == s
  {
    if r < s {
      CubeMono(r + 1, s);
    } else if s < r {
      CubeMono(s + 1, r);
    }
  }

  /** Dropping the guard bit of the root loses less than one unit of its last place. */
  lemma DropGuardBit(a: nat, xp: nat, f: nat)
    requires Cube(a) <= xp * Pow2(2 * f + 3) < Cube(a + 1)
    ensures Cube(a / 2) <= xp * Pow2(2 * f) < Cube(a / 2 + 1)
  {
    EightFold(2 * f);
    var t := Pow2(2 * f);
    assert xp * (8 * t) == 8 * (xp * t);
    CubeMono(2 * (a / 2), a);
    CubeMono(a + 1, 2 * (a / 2) + 2);
    CubeStep(a / 2);
  }

  /** The root fits the type of the argument, with either sign. */
  lemma RootFits(r: nat, x: int, w: nat, f: nat)
    requires f < w && Fits(x, w, true)
    requires Cube(r) <= Abs(x) * Pow2(2 * f)
    ensures Fits(if x < 0 then 0 - r else r, w, true)
  {
    Pow2Mono(f, w - 1);
    Pow2Add(f, f);
    assert f + f == 2 * f;
    MulMono(Pow2(f), Pow2(w - 1), Pow2(f));
    MulMono(Pow2(f), Pow2(w - 1), Pow2(w - 1));
    CubeLimit(r, Abs(x), Pow2(w - 1), Pow2(2 * f));
  }

  lemma CubeLimit(r: nat, x: nat, c: nat, t: nat)
    requires c > 0 && t <= c * c && x <= c && Cube(r) <= x * t
    ensures r <= c && (x < c ==> r < c)
  {
    MulMono(t, c * c, x);
    MulMono(1, c, c);
    MulMono(x, if x < c then c - 1 else c, c * c);
    MulSub(c, 1, c * c);
    assert c * (c * c) == Cube(c);
    if r >= c { CubeMono(c, r); }
  }

  /** Absolute value: negate, clear the sign bit, select. */
  method FabsFixed(w: nat, x: int) returns (r: int)
    requires w > 1 && Fits(x, w - 1, true)
    ensures r == Abs(x)
  {
    Pow2Mono(w - 2, w - 1);
    SignBit(x, w);
    var xs := SetSlice(-x, w - 1, w - 1, 0);
    r := if Bit(x, w - 1) then xs else x;
    if x < 0 {
      DivModIs(-x, Pow2(w - 1), 0, -x);
      assert w - 1 + 1 - (w - 1) == 1 && Pow2(1) == 2;
    }
  }

  /** The cube root of the content `x` of a signed type with `w` bits, `i` of them
      integer bits, truncated towards zero in the last place of the same type.  Types
      that are too wide on either side of the point give zero. */
  method CbrtFixed(w: nat, i: int, x: int) returns (r: int)
    requires w > 0 && Fits(x, w, true) && 1 <= i <= w
    ensures Fits(r, w, true)
    ensures i > 33 || w - i > 32 ==> r == 0
    ensures i <= 33 && w - i <= 32 ==> Cube(Abs(r)) <= Abs(x) * Pow2(2 * (w - i)) < Cube(Abs(r) + 1)
    ensures if x < 0 then r <= 0 else r >= 0
  {
    var f := w - i;
    WrapProps(0, w, true);
    if i > 33 { return 0; }
    if f > 32 { return 0; }
    var xp := FabsFixed(w + 1, x);
    var msbr := (i + 2) / 3;
    Pow2Mono(w, f + 3 * msbr);
    var root := Root(xp, f, msbr);
    RootFits(root, x, w, f);
    r := WithSign(x, root, w);
  }

  method WithSign(x: int, root: int, w: nat) returns (r: int)
    requires w > 0 && Fits(x, w, true) && Fits(if x < 0 then 0 - root else root, w, true)
    ensures r == if x < 0 then 0 - root else root
  {
    SignBit(x, w);
    WrapProps(if x < 0 then 0 - root else root, w, true);
    r := if Bit(x, w - 1) then Wrap(-root, w, true) else Wrap(root, w, true);
  }

  /** The root of a magnitude with `f` fractional bits. */
  method Root(xp: nat, f: nat, msbr: nat) returns (root: int)
    requires msbr > 0 && xp < Pow2(f + 3 * msbr)
    ensures 0 <= root && Cube(root) <= xp * Pow2(2 * f) < Cube(root + 1)
  {
    var res, a := RootBits(xp, f, msbr);
    DropGuardBit(a, xp, f);
    root := RoundRoot(res, f, msbr, a);
  }

  /** The root register narrowed to one guard bit, half of that bit's weight added, and
      truncated to the result: what is added never survives the narrowing. */
  method RoundRoot(res: int, f: nat, msbr: nat, ghost a: nat) returns (root: int)
    requires msbr > 0 && res == a * Pow2(2 * (f + 1)) && a < Pow2(msbr + f + 1)
    ensures root == a / 2
  {
    var prcs := (f + 1) * 3;
    Narrow(res, a, prcs, f + 1);
    WrapProps(a, msbr + f + 1, false);
    var resS := Assigned(Trn, Around, msbr + f + 1, false, f + 1, res, prcs);
    var delta := 1;
    var sum := resS * 2 + delta;
    DivModIs(sum, 2, a, 1);
    Halve(sum, f + 1);
    resS := Assigned(Trn, Around, msbr + f + 1, false, f + 1, sum, f + 2);
    Halve(a, f);
    DivBounds(a, 0, Pow2(msbr + f), 2);
    WrapProps(a / 2, f + msbr, false);
    root := Assigned(Trn, Around, f + msbr, false, f, resS, f + 1);
  }

  lemma Narrow(res: int, a: nat, prcs: nat, g: nat)
    requires prcs == 3 * g && res == a * Pow2(2 * g)
    ensures Exact(Trn, res, prcs, g) == a
  {
    ExactIsShifted(Trn, res, prcs, g);
    MulDiv(a, Pow2(2 * g));
    assert res * Pow2(0) == res;
  }

  lemma Halve(x: int, g: nat)
    ensures Exact(Trn, x, g + 1, g) == x / 2
  {
    ExactIsShifted(Trn, x, g + 1, g);
    assert g + 1 - g == 1 && Pow2(1) == 2;
  }
}
