/** Why the bit tests of a conversion answer the arithmetic questions.

    Notation: `v` is the operand's content (`w2` bits, `s2` its signedness), `sh` the
    number of operand bits below the target's last place (negative for a left
    shift), `w` the target width, `s` its signedness. */
module FixedFlags {
  import opened Bits
  import opened FixedSpec

  /** The rounding increment as the code decides it: from the first dropped bit,
      whether any later dropped bit is set, the sign, and the parity of the result. */
  predicate Increment(q: QMode, qb: bool, rest: bool, neg: bool, odd: bool) {
    match q
    case Trn => false
    case TrnZero => neg && (qb || rest)
    case Rnd => qb
    case RndZero => qb && (neg || rest)
    case RndInf => qb && (!neg || rest)
    case RndMinInf => qb && rest
    case RndConv => qb && (odd || rest)
  }

  /** The content shifted to the target's last place, rounded down. */
  function Shifted(v: int, sh: int): int {
    if sh >= 0 then v / Pow2(sh) else v * Pow2(-sh)
  }

  /** The quotient has the sign of the dividend. */
  lemma ShiftedSign(v: int, sh: int)
    ensures Shifted(v, sh) < 0 <==> v < 0
    ensures sh < 0 ==> (Shifted(v, sh) == 0 <==> v == 0)
  {
    if sh >= 0 {
      var d := Pow2(sh);
      if v >= 0 { DivMono(0, v, d); } else { DivMono(v, -1, d); DivModIs(-1, d, -1, d - 1); }
    } else {
      MulSign(v, Pow2(-sh));
    }
  }

  lemma MulSign(v: int, p: int)
    requires p > 0
    ensures v * p < 0 <==> v < 0
    ensures v * p == 0 <==> v == 0
  {
  }

  /** Shifting out all bits of a register leaves its sign. */
  lemma ShiftedAway(v: int, w2: nat, s2: bool, sh: nat)
    requires w2 > 0 && Fits(v, w2, s2) && sh >= w2
    ensures v / Pow2(sh) == if v < 0 then -1 else 0
  {
    Pow2Mono(w2, sh);
    var d := Pow2(sh);
    if v < 0 { DivModIs(v, d, -1, v + d); } else { DivModIs(v, d, 0, v); }
  }

  // ----- the dropped bits -----

  /** The first dropped bit says whether at least half a unit is dropped, and the
      bits after it whether the dropped part is not exactly zero or one half. */
  lemma DroppedBits(v: int, sh: nat)
    requires sh > 0
    ensures Bit(v, sh - 1) <==> 2 * (v % Pow2(sh)) >= Pow2(sh)
    ensures var rest := sh > 1 && Slice(v, sh - 2, 0) != 0;
            if Bit(v, sh - 1) then rest <==> 2 * (v % Pow2(sh)) > Pow2(sh)
            else rest <==> v % Pow2(sh) > 0
  {
    Halves(v, Pow2(sh - 1));
    LowSlice(v, sh - 1);
  }

  lemma Halves(v: int, h: int)
    requires h > 0
    ensures v % (2 * h) == v % h + if (v / h) % 2 == 1 then h else 0
  {
    DivDiv(v, h, 2);
    if (v / h) % 2 != 1 {
      assert (v / h) % 2 == 0;
    }
  }

  lemma LowSlice(v: int, n: nat)
    ensures Slice(v, n - 1, 0) == v % Pow2(n)
  {
    DivModIs(v, 1, v, 0);
    assert n - 1 + 1 - 0 == n;
  }

  /** The same when more bits are dropped than the register has. */
  lemma DroppedAll(v: int, w2: nat, s2: bool, sh: nat)
    requires w2 > 0 && Fits(v, w2, s2) && sh > w2
    ensures v < 0 ==> 2 * (v % Pow2(sh)) > Pow2(sh) && Slice(v, w2 - 1, 0) != 0
    ensures v >= 0 ==> 2 * (v % Pow2(sh)) < Pow2(sh) && (Slice(v, w2 - 1, 0) != 0 <==> v % Pow2(sh) > 0)
  {
    Pow2Mono(w2, sh);
    var d, m := Pow2(sh), Pow2(w2);
    LowSlice(v, w2);
    if v < 0 {
      DivModIs(v, d, -1, v + d);
      DivModIs(v, m, -1, v + m);
    } else {
      DivModIs(v, d, 0, v);
      DivModIs(v, m, 0, v);
    }
  }

  /** Deciding the increment on those bits is rounding the exact quotient. */
  lemma IncrementRounds(q: QMode, v: int, d: int, qb: bool, rest: bool)
    requires d > 0
    requires qb <==> 2 * (v % d) >= d
    requires qb ==> (rest <==> 2 * (v % d) > d)
    requires !qb ==> (rest <==> v % d > 0)
    ensures Rounded(q, v, d) == v / d + (if Increment(q, qb, rest, v < 0, (v / d) % 2 == 1) then 1 else 0)
  {
  }

  // ----- the deleted bits -----

  /** The bits above the target, as the code reads them at position `sh + w`, are
      those of the shifted content above `w`. */
  lemma AboveTarget(v: int, sh: int, w: nat)
    ensures sh + w >= 0 ==> Shifted(v, sh) / Pow2(w) == v / Pow2(sh + w)
    ensures sh + w < 0 ==> Shifted(v, sh) / Pow2(w) == v * Pow2(-sh - w)
  {
    if sh >= 0 {
      Pow2Add(sh, w);
      DivDiv(v, Pow2(sh), Pow2(w));
    } else if sh + w >= 0 {
      Pow2Add(-sh, sh + w);
      DivDiv(v * Pow2(-sh), Pow2(-sh), Pow2(sh + w));
      MulDiv(v, Pow2(-sh));
      assert -sh + (sh + w) == w;
    } else {
      Pow2Add(-sh - w, w);
      assert -sh - w + w == -sh;
      var k := v * Pow2(-sh - w);
      assert v * Pow2(-sh) == k * Pow2(w);
      MulDiv(k, Pow2(w));
    }
  }

  /** The range from `p` up: all zeros or all ones, as a statement on the quotient. */
  lemma UpperRange(v: int, w2: nat, s2: bool, p: nat)
    requires p < w2 && Fits(v, w2, s2)
    ensures v < 0 ==> (Slice(v, w2 - 1, p) == Pow2(w2 - p) - 1 <==> v / Pow2(p) == -1)
    ensures v >= 0 ==> (Slice(v, w2 - 1, p) == 0 <==> v / Pow2(p) == 0)
    ensures v >= 0 && s2 ==> Slice(v, w2 - 1, p) != Pow2(w2 - p) - 1
  {
    assert w2 - 1 + 1 - p == w2 - p;
    ShiftedSign(v, p);
    QuotientRange(v, w2, s2, p);
    ResidueNear(v / Pow2(p), Pow2(w2 - p));
  }

  lemma QuotientRange(v: int, w2: nat, s2: bool, p: nat)
    requires p < w2 && Fits(v, w2, s2)
    ensures Fits(v / Pow2(p), w2 - p, s2)
  {
    if s2 {
      Pow2Add(w2 - 1 - p, p);
      SignedQuotient(v, Pow2(w2 - 1 - p), Pow2(p));
    } else {
      Pow2Add(w2 - p, p);
      DivBounds(v, 0, Pow2(w2 - p), Pow2(p));
    }
  }

  lemma SignedQuotient(v: int, n: int, d: int)
    requires d > 0 && -(n * d) <= v < n * d
    ensures -n <= v / d < n
  {
    assert (-n) * d == -(n * d);
    DivBounds(v, -n, n, d);
  }

  lemma ResidueNear(x: int, n: int)
    requires n > 0
    ensures 0 <= x < n ==> x % n == x
    ensures -n <= x < 0 ==> x % n == x + n
  {
    if 0 <= x < n { DivModIs(x, n, 0, x); }
    if -n <= x < 0 { DivModIs(x, n, -1, x + n); }
  }

  /** Shifting a word of ones right leaves a shorter word of ones. */
  lemma AllOnes(w2: nat, p: nat)
    requires p <= w2
    ensures (Pow2(w2) - 1) / Pow2(p) == Pow2(w2 - p) - 1
  {
    Pow2Add(w2 - p, p);
    var d, n := Pow2(p), Pow2(w2 - p);
    assert (n - 1) * d == n * d - d;
    DivModIs(Pow2(w2) - 1, d, n - 1, d - 1);
  }

  // ----- the decision -----

  /** What the code knows when it decides on overflow.  `fl` is the shifted
      content, `up` the increment, `carry` whether the increment wrapped the target. */
  datatype Facts = Facts(w: nat, s: bool, s2: bool, sym: bool, neg: bool, fl: int, up: bool, carry: bool)
  {
    ghost predicate Valid() {
      && w > 0
      && (neg <==> fl < 0)
      && (neg ==> s2)
      && (carry <==> up && fl % Pow2(w) == Pow2(w) - 1)
    }

    /** The exact rounded number. */
    function Rounding(): int {
      fl + if up then 1 else 0
    }

    predicate NewSign()
      requires w > 0
    {
      Rounding() % Pow2(w) >= Pow2(w - 1)
    }

    predicate Overflow(deletedZeros: bool)
      requires w > 0
    {
      ((s && NewSign()) || !deletedZeros) && !neg
    }

    predicate Underflow(deletedOnes: bool, negSrc: bool)
      requires w > 0
    {
      || ((!(s && NewSign()) || !deletedOnes) && negSrc)
      || (sym && s2 && s && negSrc && (w == 1 || Rounding() % Pow2(w - 1) == 0))
    }
  }

  /** What the target register shows of the exact number. */
  lemma StoredSign(f: Facts, v: int)
    requires f.w > 0 && v == Wrap(f.Rounding(), f.w, f.s)
    ensures v % Pow2(f.w) == f.Rounding() % Pow2(f.w) && Bit(v, f.w - 1) == f.NewSign()
  {
    WrapProps(f.Rounding(), f.w, f.s);
    TopBit(v, f.w);
  }

  /** Splitting the exact number at the target's width. */
  lemma Split(f: Facts)
    requires f.Valid()
    ensures var m, hi, lo := Pow2(f.w), f.fl / Pow2(f.w), f.fl % Pow2(f.w);
            && f.fl == hi * m + lo
            && f.Rounding() % m == (if f.carry then 0 else lo + if f.up then 1 else 0)
            && f.Rounding() / m == (if f.carry then hi + 1 else hi)
            && (hi >= 1 ==> hi * m >= m) && (hi <= -2 ==> hi * m <= -2 * m)
  {
    var m := Pow2(f.w);
    var hi, lo := f.fl / m, f.fl % m;
    assert f.fl == hi * m + lo;
    assert (hi + 1) * m == hi * m + m;
    if f.carry {
      DivModIs(f.Rounding(), m, hi + 1, 0);
    } else {
      DivModIs(f.Rounding(), m, hi, lo + if f.up then 1 else 0);
    }
    if hi >= 1 { MulMono(1, hi, m); }
    if hi <= -2 { MulMono(hi, -2, m); }
  }

  /** The low bits of the most negative number, and of no other in reach, are zero. */
  lemma LowHalf(x: int, h: int)
    requires h > 0
    ensures -2 * h <= x < 0 ==> (x % h == 0 <==> x == -h || x == -2 * h)
  {
    if -2 * h <= x < -h {
      DivModIs(x, h, -2, x + 2 * h);
    } else if -h <= x < 0 {
      DivModIs(x, h, -1, x + h);
    }
  }

  /** The decision when some operand bits lie above the target. */
  lemma DecideInside(f: Facts, ones: bool, zeros: bool, deletedOnes: bool)
    requires f.Valid()
    requires f.neg ==> (ones <==> f.fl / Pow2(f.w) == -1)
    requires !f.neg ==> (zeros <==> f.fl / Pow2(f.w) == 0)
    requires !f.neg && f.s2 ==> !ones
    requires !f.carry ==> (deletedOnes <==> ones)
    ensures var o := if f.sym then SatSym else Sat;
            && (f.Overflow((f.s2 || !f.carry) && (if f.carry then ones else zeros)) <==>
                  f.Rounding() > Highest(f.w, f.s))
            && (f.Underflow(deletedOnes, f.neg && !(f.carry && ones)) && f.neg <==>
                  f.Rounding() < Lowest(o, f.w, f.s))
  {
    Split(f);
    LowHalf(f.Rounding(), Pow2(f.w - 1));
  }

  /** The decision when the whole operand lies within the target's width. */
  lemma DecideBeyond(f: Facts)
    requires f.Valid()
    requires f.fl / Pow2(f.w) == if f.neg then -1 else 0
    requires f.s2 ==> Fits(f.fl, f.w, true)
    ensures var o := if f.sym then SatSym else Sat;
            && (f.Overflow(f.s2 || !f.carry) <==> f.Rounding() > Highest(f.w, f.s))
            && (f.Underflow(true, f.neg && f.NewSign()) && f.neg <==>
                  f.Rounding() < Lowest(o, f.w, f.s))
  {
    Split(f);
    LowHalf(f.Rounding(), Pow2(f.w - 1));
  }

  // ----- when no decision is needed -----

  /** The condition under which the code looks for overflow at all. */
  predicate Guard(w: int, i: int, s: bool, q: QMode, o: OMode, w2: int, i2: int, s2: bool) {
    var quanInc := w2 - i2 > w - i && !(q == Trn || (q == TrnZero && !s2));
    o != Around &&
    ((!s && s2) || i - Int(s) < i2 - Int(s2) + Int(quanInc || (s2 && o == SatSym)))
  }

  function Int(b: bool): int {
    if b then 1 else 0
  }

  /** A bound on a register's content, scaled. */
  lemma ScaledBounds(v: int, e2: nat, a: nat, c: nat)
    requires e2 + a <= c
    ensures v < Pow2(e2) ==> v * Pow2(a) < Pow2(c)
    ensures 0 <= v + Pow2(e2) ==> 0 <= v * Pow2(a) + Pow2(c)
  {
    Pow2Add(e2, a);
    Pow2Mono(e2 + a, c);
    ScaledWindow(v, Pow2(e2), Pow2(a));
  }

  lemma ScaledWindow(v: int, p: int, k: int)
    requires k > 0
    ensures v < p ==> v * k < p * k
    ensures 0 <= v + p ==> 0 <= v * k + p * k
  {
    assert (v + p) * k == v * k + p * k;
    if 0 <= v + p { MulMono(0, v + p, k); }
  }

  /** A quotient in a window of width `m` on both sides of zero, rounded. */
  lemma RoundedInWindow(q: QMode, n: int, d: int, m: int, c: int)
    requires d > 0 && m > 0 && c == m * d
    ensures 0 <= n + c && n < c ==> -m <= n / d <= m - 1 && -m <= Rounded(q, n, d)
    ensures 2 * n < c ==> Rounded(q, n, d) <= m - 1
    ensures 0 <= 2 * n + c && m % 2 == 0 ==> -(m / 2) <= Rounded(q, n, d)
    ensures 0 <= n ==> 0 <= n / d
  {
    if 0 <= n + c && n < c { SignedQuotient(n, m, d); }
    if 0 <= n { DivMono(0, n, d); DivModIs(0, d, 0, 0); }
    if 2 * n < c { RoundedBelow(q, n, d, m); }
    if 0 <= 2 * n + c && m % 2 == 0 { QuotientAbove(n, d, m); }
  }

  lemma QuotientAbove(n: int, d: int, m: int)
    requires d > 0 && 0 <= 2 * n + m * d && m % 2 == 0
    ensures 0 - m / 2 <= n / d
  {
    var h := 0 - m / 2;
    assert m == 0 - 2 * h && (0 - 2 * h) * d == 0 - 2 * (h * d);
    DivMono(h * d, n, d);
    MulDiv(h, d);
  }

  lemma NumerSign(v: int, f2: int, f: int)
    ensures v >= 0 ==> Numer(v, f2, f) >= 0
  {
    if f > f2 { MulSign(v, Pow2(f - f2)); }
  }

  /** A register with `e2` value bits, measured in units of a type with `e` value
      bits whose integer part is no shorter. */
  lemma OperandWindow(v: int, e2: nat, f2: int, e: nat, f: int) returns (c: int)
    requires 0 <= v + Pow2(e2) && v < Pow2(e2) && e2 - f2 <= e - f
    ensures c == Pow2(e) * Denom(f2, f)
    ensures var n := Numer(v, f2, f);
            && 0 <= n + c && n < c
            && (e2 - f2 < e - f ==> 2 * n < c && 0 <= 2 * n + c)
  {
    var a: nat, b: nat := if f > f2 then f - f2 else 0, if f2 > f then f2 - f else 0;
    c := Pow2(e + b);
    Pow2Add(e, b);
    NumerIs(v, f2, f, a);
    ScaledBounds(v, e2, a, e + b);
    if e2 - f2 < e - f { ScaledBounds(v, e2, a + 1, e + b); }
  }

  lemma NumerIs(v: int, f2: int, f: int, a: nat)
    requires a == if f > f2 then f - f2 else 0
    ensures Numer(v, f2, f) == v * Pow2(a)
    ensures 2 * Numer(v, f2, f) == v * Pow2(a + 1)
  {
    assert v * Pow2(0) == v;
  }

  /** The limits of a type in terms of its value bits. */
  lemma LimitsAre(o: OMode, w: nat, s: bool, e: nat)
    requires w > 0 && e == w - Int(s) && o != Around
    ensures Highest(w, s) == Pow2(e) - 1
    ensures Lowest(if w == 1 then Sat else o, w, s)
         == if !s then 0 else if o == SatSym && w > 1 then 1 - Pow2(e) else 0 - Pow2(e)
    ensures w > 1 ==> Pow2(e) % 2 == 0 && Pow2(e) >= 2
  {
  }

  /** Where the code does not look for overflow, there is none. */
  lemma GuardIsSound(w: nat, i: int, s: bool, q: QMode, o: OMode, w2: nat, i2: int, s2: bool, v: int)
    requires w > 0 && w2 > 0 && Fits(v, w2, s2)
    requires o != Around && !Guard(w, i, s, q, o, w2, i2, s2)
    ensures var r := Exact(q, v, w2 - i2, w - i);
            Lowest(if w == 1 then Sat else o, w, s) <= r <= Highest(w, s)
  {
    var f, f2 := w - i, w2 - i2;
    var n, d := Numer(v, f2, f), Denom(f2, f);
    var e: nat := w - Int(s);
    var c := OperandWindow(v, w2 - Int(s2), f2, e, f);
    RoundedInWindow(q, n, d, Pow2(e), c);
    LimitsAre(o, w, s, e);
    if !s2 { NumerSign(v, f2, f); }
    if !((f2 > f && !(q == Trn || (q == TrnZero && !s2))) || (s2 && o == SatSym)) {
      assert Rounded(q, n, d) == n / d by {
        if f2 <= f { DivModIs(n, 1, n, 0); }
      }
    }
  }
}
