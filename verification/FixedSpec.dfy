/** What a conversion to a fixed-point type has to deliver, in exact arithmetic.

    A fixed-point number with `f` fractional bits and content `v` is the rational
    `v / 2^f`.  Converting it to a type with `g` fractional bits asks for the
    integer nearest to `v * 2^(g - f)` in one of seven senses, and then for that
    integer to be brought into the range of the target register. */
module FixedSpec {
  import opened Bits

  /** Quantization modes. */
  datatype QMode = Trn | TrnZero | Rnd | RndZero | RndInf | RndMinInf | RndConv

  /** Overflow modes; `Around` is the wrap-around mode with no saturated bits. */
  datatype OMode = Around | Sat | SatZero | SatSym

  function Abs(x: int): nat {
    if x < 0 then -x else x
  }

  /** `r` is the rational `n / d` rounded in mode `q`. */
  ghost predicate IsRounded(q: QMode, n: int, d: int, r: int)
    requires d > 0
  {
    match q
    case Trn => r * d <= n < (r + 1) * d
    case TrnZero => Abs(r) * d <= Abs(n) < (Abs(r) + 1) * d && (n < 0 ==> r <= 0) && (n > 0 ==> r >= 0)
    case _ => NearestWithTies(q, r * d, n, d, r)
  }

  /** `r` is nearest to `n / d`, and a tie goes the way `q` says; `p` is `r * d`. */
  ghost predicate NearestWithTies(q: QMode, p: int, n: int, d: int, r: int) {
    && 2 * Abs(p - n) <= d
    && (2 * Abs(p - n) == d ==>
          match q
          case RndZero => Abs(p) < Abs(n)
          case RndInf => Abs(p) > Abs(n)
          case RndMinInf => p < n
          case RndConv => r % 2 == 0
          case _ => p > n)
  }

  /** The rounding of `n / d`, computed: the quotient, or one more. */
  function Rounded(q: QMode, n: int, d: int): int
    requires d > 0
  {
    n / d + (if RoundsUp(q, n, n / d, n % d, d) then 1 else 0)
  }

  predicate RoundsUp(q: QMode, n: int, quot: int, rem: int, d: int) {
    match q
    case Trn => false
    case TrnZero => n < 0 && rem > 0
    case Rnd => 2 * rem >= d
    case RndZero => 2 * rem > d || (2 * rem == d && n < 0)
    case RndInf => 2 * rem > d || (2 * rem == d && n >= 0)
    case RndMinInf => 2 * rem > d
    case RndConv => 2 * rem > d || (2 * rem == d && quot % 2 == 1)
  }

  lemma RoundedIsRounded(q: QMode, n: int, d: int)
    requires d > 0
    ensures IsRounded(q, n, d, Rounded(q, n, d))
  {
    match q
    case Trn => QuotientOf(n, d);
    case TrnZero =>
      QuotientOf(n, d);
      Truncated(n, d, n / d, n % d);
    case _ => RoundedNearest(q, n, d);
  }

  lemma QuotientOf(n: int, d: int)
    requires d > 0
    ensures var f, low := n / d, (n / d) * d;
            && n == low + n % d && (f + 1) * d == low + d
            && (f < 0 <==> n < 0) && (low == 0 || d <= low || low <= 0 - d)
  {
    var f := n / d;
    if f < 0 { MulMono(f, -1, d); } else if f > 0 { MulMono(1, f, d); }
  }

  lemma RoundedNearest(q: QMode, n: int, d: int)
    requires d > 0 && q != Trn && q != TrnZero
    ensures var r := Rounded(q, n, d); NearestWithTies(q, r * d, n, d, r)
  {
    QuotientOf(n, d);
    NearestFound(q, n, d, n / d, (n / d) * d, n % d);
  }

  lemma Truncated(n: int, d: int, f: int, rem: int)
    requires d > 0 && 0 <= rem < d && n == f * d + rem && (f < 0 <==> n < 0)
    ensures IsRounded(TrnZero, n, d, if n < 0 && rem > 0 then f + 1 else f)
  {
    assert (f + 1) * d == f * d + d;
    if f < 0 {
      assert (0 - f) * d == 0 - f * d && (0 - f - 1) * d == 0 - f * d - d && (0 - f + 1) * d == 0 - f * d + d;
    }
  }

  /** One of the multiples on either side is the nearest; `low` is the lower one. */
  lemma NearestFound(q: QMode, n: int, d: int, f: int, low: int, rem: int)
    requires d > 0 && 0 <= rem < d && n == low + rem && (low < 0 <==> n < 0) && q != Trn && q != TrnZero
    requires low == 0 || d <= low || low <= 0 - d
    ensures if RoundsUp(q, n, f, rem, d) then NearestWithTies(q, low + d, n, d, f + 1) else NearestWithTies(q, low, n, d, f)
  {
  }

  lemma RoundedIsUnique(q: QMode, n: int, d: int, r: int, s: int)
    requires d > 0
    requires IsRounded(q, n, d, r) && IsRounded(q, n, d, s)
    requires r <= s
    ensures r == s
  {
    assert (r + 1) * d == r * d + d;
    if r < s {
      MulMono(r + 1, s, d);
      if q == TrnZero {
        assert (Abs(r) + 1) * d == Abs(r) * d + d;
        assert (Abs(s) + 1) * d == Abs(s) * d + d;
        if Abs(r) < Abs(s) { MulMono(Abs(r) + 1, Abs(s), d); }
        if Abs(s) < Abs(r) { MulMono(Abs(s) + 1, Abs(r), d); }
      } else if q != Trn {
        if s > r + 1 {
          assert (r + 2) * d == r * d + 2 * d;
          MulMono(r + 2, s, d);
        }
        if r >= 0 { MulMono(0, r, d); } else { MulMono(s, 0, d); }
      }
    }
  }

  /** The computed rounding is the one and only integer that is rounded right. */
  lemma RoundedExactly(q: QMode, n: int, d: int, r: int)
    requires d > 0
    ensures IsRounded(q, n, d, r) <==> r == Rounded(q, n, d)
  {
    RoundedIsRounded(q, n, d);
    if IsRounded(q, n, d, r) {
      if r <= Rounded(q, n, d) {
        RoundedIsUnique(q, n, d, r, Rounded(q, n, d));
      } else {
        RoundedIsUnique(q, n, d, Rounded(q, n, d), r);
      }
    }
  }

  /** The modes at two and a half, minus two and a half, and three and a half. */
  lemma ModesAtHalf()
    ensures IsRounded(Trn, 5, 2, 2) && IsRounded(Trn, -5, 2, -3)
    ensures IsRounded(TrnZero, 5, 2, 2) && IsRounded(TrnZero, -5, 2, -2)
    ensures IsRounded(Rnd, 5, 2, 3) && IsRounded(Rnd, -5, 2, -2)
    ensures IsRounded(RndZero, 5, 2, 2) && IsRounded(RndZero, -5, 2, -2)
    ensures IsRounded(RndInf, 5, 2, 3) && IsRounded(RndInf, -5, 2, -3)
    ensures IsRounded(RndMinInf, 5, 2, 2) && IsRounded(RndMinInf, -5, 2, -3)
    ensures IsRounded(RndConv, 5, 2, 2) && IsRounded(RndConv, -5, 2, -2) && IsRounded(RndConv, 7, 2, 4)
  {
  }

  /** An integer needs no rounding. */
  lemma RoundedInteger(q: QMode, k: int, d: int)
    requires d > 0
    ensures Rounded(q, k * d, d) == k
  {
    MulDiv(k, d);
  }

  /** A number below half of `m` is not rounded above half of `m`. */
  lemma RoundedBelow(q: QMode, n: int, d: int, m: int)
    requires d > 0
    requires 0 <= m && 2 * n < m * d
    ensures 2 * Rounded(q, n, d) <= m
  {
    var f, rem := n / d, n % d;
    assert n == f * d + rem;
    assert (2 * f) * d == 2 * (f * d);
    if n < 0 { DivMono(n, -1, d); DivModIs(-1, d, -1, d - 1); }
    if 2 * f == m - 1 {
      assert (m - 1) * d == m * d - d;
    } else if 2 * f > m - 1 {
      MulMono(m, 2 * f, d);
    }
  }

  // ----- range -----

  /** The largest and smallest content a target register may get in a mode. */
  function Highest(w: nat, signed: bool): int
    requires w > 0
  {
    if signed then Pow2(w - 1) - 1 else Pow2(w) - 1
  }

  function Lowest(o: OMode, w: nat, signed: bool): int
    requires w > 0
  {
    if !signed then 0 else if o == SatSym then -Highest(w, signed) else -1 - Highest(w, signed)
  }

  /** The integer `r` brought into the range of the target register. */
  function Limited(o: OMode, w: nat, signed: bool, r: int): int
    requires w > 0
  {
    if o == Around then Wrap(r, w, signed)
    else if Lowest(o, w, signed) <= r <= Highest(w, signed) then r
    else if o == SatZero then 0
    else if r > Highest(w, signed) then Highest(w, signed)
    else Lowest(o, w, signed)
  }

  /** The numbers a register may get in a mode; symmetric saturation leaves out the most
      negative one. */
  ghost predicate InModeRange(o: OMode, w: nat, signed: bool, y: int)
    requires w > 0
  {
    if !signed then 0 <= y < Pow2(w)
    else if o == SatSym then 0 - Pow2(w - 1) < y < Pow2(w - 1)
    else 0 - Pow2(w - 1) <= y < Pow2(w - 1)
  }

  /** `x` is what a register of a mode should hold for the integer `r`: the number itself
      if it is in range; otherwise the nearest number in range, or zero, or, wrapped around,
      the one number in range that differs by a multiple of the modulus. */
  ghost predicate IsLimited(o: OMode, w: nat, signed: bool, r: int, x: int)
    requires w > 0
  {
    match o
    case Around => InModeRange(o, w, signed, x) && (x - r) % Pow2(w) == 0
    case SatZero => x == if InModeRange(o, w, signed, r) then r else 0
    case _ =>
      && InModeRange(o, w, signed, x)
      && (forall y :: InModeRange(o, w, signed, y) ==> Abs(x - r) <= Abs(y - r))
  }

  lemma RangeIs(o: OMode, w: nat, signed: bool, y: int)
    requires w > 0
    ensures InModeRange(o, w, signed, y) <==> Lowest(o, w, signed) <= y <= Highest(w, signed)
  {
  }

  lemma LimitedIsLimited(o: OMode, w: nat, signed: bool, r: int)
    requires w > 0
    ensures IsLimited(o, w, signed, r, Limited(o, w, signed, r))
  {
    var x := Limited(o, w, signed, r);
    RangeIs(o, w, signed, r);
    if o == Around {
      WrapProps(r, w, signed);
      SameResidue(x, r, Pow2(w));
    } else if o != SatZero {
      RangeIs(o, w, signed, x);
      forall y | InModeRange(o, w, signed, y) ensures Abs(x - r) <= Abs(y - r) {
        RangeIs(o, w, signed, y);
      }
    }
  }

  lemma SameResidue(x: int, y: int, m: int)
    requires m > 0 && x % m == y % m
    ensures (x - y) % m == 0
  {
    ModAdd(x, y, 0 - y, m);
    DivModIs(0, m, 0, 0);
  }

  /** Two numbers in a window of `m` that differ by a multiple of `m` are the same. */
  lemma OneInWindow(x: int, y: int, r: int, m: int)
    requires m > 0 && (x - r) % m == 0 && (y - r) % m == 0 && 0 - m < x - y < m
    ensures x == y
  {
    var i, j := (x - r) / m, (y - r) / m;
    assert x - y == i * m - j * m;
    MulSub(i, j, m);
    if i > j { MulMono(1, i - j, m); }
    if i < j { MulMono(i - j, -1, m); }
  }

  /** The definition of saturation and wrap-around has one solution, the computed one. */
  lemma LimitedExactly(o: OMode, w: nat, signed: bool, r: int, x: int)
    requires w > 0
    ensures IsLimited(o, w, signed, r, x) <==> x == Limited(o, w, signed, r)
  {
    var l := Limited(o, w, signed, r);
    LimitedIsLimited(o, w, signed, r);
    if IsLimited(o, w, signed, r, x) {
      if o == Around {
        assert Pow2(w) == 2 * Pow2(w - 1);
        OneInWindow(x, l, r, Pow2(w));
      } else if o != SatZero {
        RangeIs(o, w, signed, x);
        RangeIs(o, w, signed, l);
        RangeIs(o, w, signed, r);
      }
    }
  }

  /** The value of content `v` with `f` fractional bits in units of the last place
      of a type with `g` fractional bits, as numerator and denominator. */
  function Numer(v: int, f: int, g: int): int {
    if g > f then v * Pow2(g - f) else v
  }

  function Denom(f: int, g: int): (d: int)
    ensures d > 0
  {
    if f > g then Pow2(f - g) else 1
  }

  /** The exact result of a conversion: content `v` with `f` fractional bits, rounded
      to an integer number of units of a type with `g` fractional bits. */
  function Exact(q: QMode, v: int, f: int, g: int): int {
    Rounded(q, Numer(v, f, g), Denom(f, g))
  }

  lemma ScaledAbs(x: int, c: int)
    requires c > 0
    ensures Abs(x * c) == Abs(x) * c
    ensures x * c < 0 <==> x < 0
    ensures x * c > 0 <==> x > 0
  {
    if x < 0 { MulMono(x, -1, c); } else if x > 0 { MulMono(1, x, c); }
    assert (0 - x) * c == 0 - x * c;
  }

  lemma ScaledOrder(x: int, y: int, c: int)
    requires c > 0
    ensures x <= y <==> x * c <= y * c
    ensures x == y <==> x * c == y * c
  {
    if x < y { MulMono(x + 1, y, c); }
    if y < x { MulMono(y + 1, x, c); }
  }

  /** Rounding depends on the rational only. */
  lemma RoundedScales(q: QMode, n: int, d: int, c: int)
    requires d > 0 && c > 0 && d * c > 0
    ensures Rounded(q, n * c, d * c) == Rounded(q, n, d)
  {
    var f, rem := n / d, n % d;
    Expand(f, d, rem, c);
    MulMono(rem, d - 1, c);
    MulMono(0, rem, c);
    MulSub(d, 1, c);
    DivModIs(n * c, d * c, f, rem * c);
    ScaledOrder(2 * rem, d, c);
    ScaledOrder(0, rem, c);
    ScaledAbs(n, c);
  }

  lemma Expand(f: int, d: int, rem: int, c: int)
    ensures (f * d + rem) * c == f * (d * c) + rem * c
  {
    MulAssoc(f, d, c);
  }

  /** What is computed is the exact value rounded, however that value is written: content
      `v` with `f` fractional bits is `v * 2^a / 2^b` units of a type with `g` fractional
      bits whenever `b - a` is `f - g`. */
  lemma ExactExactly(q: QMode, v: int, f: int, g: int, a: nat, b: nat, r: int)
    requires b - a == f - g
    ensures IsRounded(q, v * Pow2(a), Pow2(b), r) <==> r == Exact(q, v, f, g)
  {
    var k: nat := if f > g then a else b;
    var a0: nat, b0: nat := a - k, b - k;
    Pow2Add(a0, k);
    Pow2Add(b0, k);
    MulAssoc(v, Pow2(a0), Pow2(k));
    assert v * Pow2(0) == v;
    assert Numer(v, f, g) == v * Pow2(a0) && Denom(f, g) == Pow2(b0);
    RoundedScales(q, v * Pow2(a0), Pow2(b0), Pow2(k));
    RoundedExactly(q, v * Pow2(a), Pow2(b), r);
  }
}
