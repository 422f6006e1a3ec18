/** What the conversions between registers and doubles guarantee together. */
module DoubleTheorems {
  import opened Bits
  import opened FixedSpec
  import opened FixedFlags
  import opened ApFixed
  import opened Doubles
  import opened ToDouble

  // ----- the encoding is the nearest double -----

  /** A number rounded to a multiple of `d` is at least as near as any other multiple. */
  lemma NearestMultiple(t: int, d: int, r: int, j: int)
    requires d > 0 && IsRounded(RndConv, t, d, r)
    ensures Abs(r * d - t) <= Abs(j * d - t)
    ensures Abs(r * d - t) == Abs(j * d - t) && j != r ==> r % 2 == 0
  {
    MulSub(j, r, d);
    if j > r { MulMono(1, j - r, d); }
    if j < r { MulMono(j - r, -1, d); }
  }

  lemma AbsScale(x: int, y: int, u: int)
    requires u > 0
    ensures Abs(x * u - y * u) == Abs(x - y) * u
  {
    MulSub(x, y, u);
  }

  /** `near` is at least as near to `x` as `other`, and if it is not nearer, it is
      `other` or the tie was broken towards an even significand. */
  ghost predicate Nearer(near: int, other: int, x: int, even: bool) {
    Abs(near - x) <= Abs(other - x) && (Abs(near - x) == Abs(other - x) && near != other ==> even)
  }

  lemma NearestOnGrid(t: int, d: int, u: int, r: int, j: int)
    requires d > 0 && u > 0 && IsRounded(RndConv, t, d, r)
    ensures Abs((r * d) * u - t * u) <= Abs((j * d) * u - t * u)
    ensures Abs((r * d) * u - t * u) == Abs((j * d) * u - t * u) && j != r ==> r % 2 == 0
  {
    NearestMultiple(t, d, r, j);
    ScaledDistance(r * d, j * d, t, u);
  }

  /** Scaling keeps the order of distances. */
  lemma ScaledDistance(a: int, b: int, t: int, u: int)
    requires u > 0
    ensures Abs(a - t) <= Abs(b - t) ==> Abs(a * u - t * u) <= Abs(b * u - t * u)
    ensures Abs(a - t) < Abs(b - t) ==> Abs(a * u - t * u) < Abs(b * u - t * u)
  {
    AbsScale(a, t, u);
    AbsScale(b, t, u);
    ScaledOrder(Abs(a - t), Abs(b - t), u);
  }

  lemma ScaledOrder(x: int, y: int, u: int)
    requires u > 0
    ensures x <= y ==> x * u <= y * u
    ensures x < y ==> x * u < y * u
  {
    if x < y { MulMono(x + 1, y, u); }
  }

  lemma NearestAbove(t: int, d: int, u: int, r: int, j: int, y: int)
    requires d > 0 && u > 0 && IsRounded(RndConv, t, d, r)
    requires j * d <= t && y < (j * d) * u
    ensures Abs((r * d) * u - t * u) < Abs(y - t * u)
  {
    NearestOnGrid(t, d, u, r, j);
    MulMono(j * d, t, u);
  }

  /** The significand a double gets, against any other significand: the double
      `r / 2^(f - lsb)` is at least as near to `t / 2^f` as `sig2 / 2^scale2`, with any
      exponent; and when another double is equally near, the chosen one is even.  All
      values are scaled by `2^k`, which makes them integers. */
  lemma NearestDouble(t: nat, n: nat, p: nat, f: int, sig2: nat, scale2: int, k: int)
    requires n > 0 && Pow2(n - 1) <= t < Pow2(n)
    requires sig2 < Pow2(p + 1) && k >= scale2 && k >= f && k >= f - (n - 1 - p)
    ensures var lsb := n - 1 - p; var r := RoundedSignificand(t, lsb);
            var near, other, x := r * Pow2(k - f + lsb), sig2 * Pow2(k - scale2), t * Pow2(k - f);
            Nearer(near, other, x, r % 2 == 0)
  {
    var lsb := n - 1 - p;
    ExactIsShifted(RndConv, t, 0, -lsb);
    if lsb <= 0 {
      Pow2Add(-lsb, k - f + lsb);
      MulAssoc(t, Pow2(-lsb), Pow2(k - f + lsb));
    } else {
      NearestRounded(t, n, p, f, lsb, sig2, scale2, k);
    }
  }

  lemma NearestRounded(t: nat, n: nat, p: nat, f: int, lsb: nat, sig2: nat, scale2: int, k: int)
    requires n > 0 && Pow2(n - 1) <= t && lsb == n - 1 - p > 0
    requires sig2 < Pow2(p + 1) && k >= scale2 && k >= f
    ensures var r := Rounded(RndConv, t, Pow2(lsb));
            var near, other, x := r * Pow2(k - f + lsb), sig2 * Pow2(k - scale2), t * Pow2(k - f);
            Nearer(near, other, x, r % 2 == 0)
  {
    var r := Rounded(RndConv, t, Pow2(lsb));
    RoundedIsRounded(RndConv, t, Pow2(lsb));
    OnGrid(r, 0, lsb, k - f);
    assert r * Pow2(0) == r;
    if scale2 <= f - lsb {
      NearestFiner(t, r, f, lsb, sig2, scale2, k);
    } else {
      NearestCoarser(t, r, p, f, lsb, sig2, scale2, k);
    }
  }

  /** Against a double of the same binade or a higher one. */
  lemma NearestFiner(t: nat, r: int, f: int, lsb: nat, sig2: nat, scale2: int, k: int)
    requires IsRounded(RndConv, t, Pow2(lsb), r) && scale2 <= f - lsb && k >= scale2 && k >= f
    ensures Nearer((r * Pow2(lsb)) * Pow2(k - f), sig2 * Pow2(k - scale2), t * Pow2(k - f), r % 2 == 0)
  {
    OnGrid(sig2, f - lsb - scale2, lsb, k - f);
    assert f - lsb - scale2 + lsb + (k - f) == k - scale2;
    NearestOnGrid(t, Pow2(lsb), Pow2(k - f), r, sig2 * Pow2(f - lsb - scale2));
  }

  /** Against a double of a lower binade. */
  lemma NearestCoarser(t: nat, r: int, p: nat, f: int, lsb: nat, sig2: nat, scale2: int, k: int)
    requires IsRounded(RndConv, t, Pow2(lsb), r) && scale2 > f - lsb && k >= scale2 && k >= f
    requires Pow2(p + lsb) <= t && sig2 < Pow2(p + 1)
    ensures Nearer((r * Pow2(lsb)) * Pow2(k - f), sig2 * Pow2(k - scale2), t * Pow2(k - f), r % 2 == 0)
  {
    Pow2Add(p, lsb);
    OnGrid(1, p, lsb, k - f);
    BelowBinade(sig2, p, scale2, f - lsb, k);
    assert p + lsb + (k - f) == p + (k - (f - lsb));
    NearestAbove(t, Pow2(lsb), Pow2(k - f), r, Pow2(p), sig2 * Pow2(k - scale2));
  }

  lemma OnGrid(sig2: int, a: nat, lsb: nat, b: nat)
    ensures sig2 * Pow2(a + lsb + b) == ((sig2 * Pow2(a)) * Pow2(lsb)) * Pow2(b)
  {
    Pow2Add(a, lsb);
    Pow2Add(a + lsb, b);
    MulAssoc(sig2, Pow2(a), Pow2(lsb));
    MulAssoc(sig2, Pow2(a + lsb), Pow2(b));
  }

  /** A double of a lower binade is smaller than any number of this one. */
  lemma BelowBinade(sig2: nat, p: nat, scale2: int, scale: int, k: int)
    requires sig2 < Pow2(p + 1) && scale2 > scale && k >= scale2
    ensures sig2 * Pow2(k - scale2) < Pow2(p + (k - scale))
  {
    ScaledBounds(sig2, p + 1, k - scale2, p + (k - scale));
  }

  // ----- decoding the encoding -----

  /** The fields of a packed word. */
  lemma Unpack(p: nat, q: nat, neg: bool, e: int, r: nat)
    requires 0 <= e < Pow2(q)
    ensures var m := Packed(p, q, neg, e, r);
            && (m / Pow2(p)) % Pow2(q) == e
            && m % Pow2(p) == r % Pow2(p)
            && m / Pow2(p + q) == Int(neg)
            && m % Pow2(p + q) == e * Pow2(p) + r % Pow2(p)
  {
    Pow2Add(p, q);
    DivModIs(e, Pow2(q), 0, e);
    UnpackDigits(Pow2(p), Pow2(q), Int(neg), e, r % Pow2(p));
  }

  lemma UnpackDigits(d: nat, g: nat, s: nat, e: nat, r: nat)
    requires r < d && e < g
    ensures var m := s * (d * g) + e * d + r;
            (m / d) % g == e && m % d == r && m / (d * g) == s && m % (d * g) == e * d + r
  {
    UnpackLow(d, g, s, e, r);
    MulMono(e, g - 1, d);
    MulSub(g, 1, d);
    DivModIs(s * (d * g) + e * d + r, d * g, s, e * d + r);
  }

  lemma UnpackLow(d: nat, g: nat, s: nat, e: nat, r: nat)
    requires r < d && e < g
    ensures var m := s * (d * g) + e * d + r; (m / d) % g == e && m % d == r
  {
    MulAssoc(s, g, d);
    MulSub(s * g + e, e, d);
    DivModIs(s * (d * g) + e * d + r, d, s * g + e, r);
    DivModIs(s * g + e, g, s, e);
  }

  /** The exponent of an encoding, before it is squeezed into 11 bits. */
  function Exponent(v: int, f: int): int {
    var n := BitLength(Abs(v));
    n - f - 1 + BIAS + Int(RoundedSignificand(Abs(v), n - 1 - MAN) == 2 * Pow2(MAN))
  }

  /** The exponent is one of a normal double. */
  predicate Normal(v: int, f: int) {
    v != 0 && 1 <= Exponent(v, f) <= 2046
  }

  /** Decoding an encoding in the normal range gives back sign and magnitude: the
      53-bit significand `r` and its scale, or half of `r` with one less when `r`
      is the next power of two. */
  lemma EncodingDecodes(v: int, f: int)
    requires Normal(v, f)
    ensures var m, n := Encoding(v, f), BitLength(Abs(v));
            Decodes(m, v < 0, RoundedSignificand(Abs(v), n - 1 - MAN), f - (n - 1 - MAN))
  {
    BitLengthBounds(Abs(v));
    EncodeDecodes(v < 0, Abs(v), BitLength(Abs(v)), f);
  }

  /** The double `m` is `r / 2^scale` with the given sign, where `r` has 53 bits or is
      the next power of two. */
  ghost predicate Decodes(m: nat, neg: bool, r: int, scale: int) {
    && !IsZero(m) && (Significand(m) < 0 <==> neg)
    && SameNumber(Significand(m), Scale(m), r, scale, Pow2(MAN))
  }

  ghost predicate SameNumber(sig: int, sc: int, r: int, scale: int, d: int) {
    && d <= r <= 2 * d
    && (if r == 2 * d then Abs(sig) == d && sc == scale - 1 else Abs(sig) == r && sc == scale)
  }

  lemma EncodeDecodes(neg: bool, t: nat, n: nat, f: int)
    requires n > 0 && Pow2(n - 1) <= t < Pow2(n)
    requires 1 <= n - f - 1 + BIAS + Int(RoundedSignificand(t, n - 1 - MAN) == 2 * Pow2(MAN)) <= 2046
    ensures Decodes(Encode(neg, t, n, f, MAN), neg, RoundedSignificand(t, n - 1 - MAN), f - (n - 1 - MAN))
  {
    SignificandRange(t, n, MAN);
    EncodeIs(neg, t, n, f, MAN);
    WordDecodes(neg, n, f, RoundedSignificand(t, n - 1 - MAN));
  }

  lemma EncodeIs(neg: bool, t: nat, n: nat, f: int, p: nat)
    requires RoundedSignificand(t, n - 1 - p) >= 0
    ensures Encode(neg, t, n, f, p) == EncodeRounded(neg, RoundedSignificand(t, n - 1 - p), n, f, p)
  {
  }

  lemma WordDecodes(neg: bool, n: nat, f: int, r: nat)
    requires Pow2(MAN) <= r <= 2 * Pow2(MAN)
    requires 1 <= n - f - 1 + BIAS + Int(r == 2 * Pow2(MAN)) <= 2046
    ensures Decodes(EncodeRounded(neg, r, n, f, MAN), neg, r, f - (n - 1 - MAN))
  {
    FieldsDecode(EncodeRounded(neg, r, n, f, MAN), neg, n - f - 1 + BIAS + Int(r == 2 * Pow2(MAN)), r, Pow2(MAN), f - (n - 1 - MAN));
  }

  lemma FieldsDecode(m: nat, neg: bool, e: int, r: nat, d: nat, scale: int)
    requires d == Pow2(MAN) && d <= r <= 2 * d && scale == MAN + BIAS + Int(r == 2 * d) - e
    requires 1 <= e <= 2046 && m == Packed(MAN, 11, neg, e, r)
    ensures Decodes(m, neg, r, scale)
  {
    FieldsOf(neg, e, r, m);
    FractionOf(r, d);
    SignificandIs(neg, r, d, Significand(m));
  }

  lemma SignificandIs(neg: bool, r: nat, d: nat, sig: int)
    requires 0 < d <= r <= 2 * d && sig == (if neg then 0 - (d + r % d) else d + r % d)
    ensures (sig < 0 <==> neg) && Abs(sig) == if r == 2 * d then d else r
  {
    FractionOf(r, d);
  }

  lemma FieldsOf(neg: bool, e: int, r: nat, m: nat)
    requires 1 <= e <= 2046 && m == Packed(MAN, 11, neg, e, r)
    ensures !IsZero(m) && Negative(m) == neg && Biased(m) == e && Fraction(m) == r % Pow2(MAN)
  {
    assert Pow2(11) == 2048;
    FieldsAre(MAN, 11, neg, e, r, m);
  }

  /** The fields of a double, its field widths kept symbolic. */
  lemma FieldsAre(p: nat, q: nat, neg: bool, e: int, r: nat, m: nat)
    requires 1 <= e < Pow2(q) && q > 0 && m == Packed(p, q, neg, e, r)
    ensures Slice(m, p + q - 1, 0) != 0 && Bit(m, p + q) == neg && Slice(m, p + q - 1, p) == e
    ensures Slice(m, p - 1, 0) == r % Pow2(p)
  {
    Unpack(p, q, neg, e, r);
    assert p + q - 1 + 1 - p == q;
    LowSlice(m, p + q);
    LowSlice(m, p);
    MulMono(1, e, Pow2(p));
  }

  lemma FractionOf(r: nat, d: nat)
    requires 0 < d <= r <= 2 * d
    ensures r % d == if r == 2 * d then 0 else r - d
  {
    DivModIs(r, d, if r == 2 * d then 2 else 1, if r == 2 * d then 0 else r - d);
  }

  /** No double is nearer to the register's value than the one it is converted to,
      which is `sig / 2^sc`; and if another one is as near, the chosen one has an even
      significand.  The other double is any `sig2 / 2^sc2` with a significand of at
      most 53 bits; all values are scaled by `2^k`. */
  lemma ToDoubleIsNearest(v: int, f: int, sig: int, sc: int, sig2: int, sc2: int, k: int)
    requires Normal(v, f) && sig == Significand(Encoding(v, f)) && sc == Scale(Encoding(v, f))
    requires 0 < Abs(sig2) < Pow2(MAN + 1)
    requires k > sc && k >= sc2 && k >= f
    ensures Nearer(sig * Pow2(k - sc), sig2 * Pow2(k - sc2), v * Pow2(k - f), sig % 2 == 0)
  {
    EncodingDecodes(v, f);
    BitLengthBounds(Abs(v));
    NearestSigned(v, BitLength(Abs(v)), MAN, f, sig, sc, sig2, sc2, k);
  }

  /** The same for signed significands, with `p` fraction bits. */
  lemma NearestSigned(v: int, n: nat, p: nat, f: int, sig: int, sc: int, sig2: int, sc2: int, k: int)
    requires v != 0 && n > 0 && p > 0 && Pow2(n - 1) <= Abs(v) < Pow2(n)
    requires SameNumber(sig, sc, RoundedSignificand(Abs(v), n - 1 - p), f - (n - 1 - p), Pow2(p))
    requires (sig < 0 <==> v < 0) && 0 < Abs(sig2) < Pow2(p + 1)
    requires k > sc && k >= sc2 && k >= f
    ensures var a, b, x := sig * Pow2(k - sc), sig2 * Pow2(k - sc2), v * Pow2(k - f);
            Nearer(a, b, x, sig % 2 == 0)
  {
    var r, scale := RoundedSignificand(Abs(v), n - 1 - p), f - (n - 1 - p);
    NearestMagnitude(Abs(v), n, p, f, Abs(sig2), sc2, k, r, scale);
    DecodedMagnitude(sig, sc, r, scale, Pow2(p), k);
    EvenPower(p);
    SignedScales(v, Pow2(k - f), sig, Pow2(k - sc), sig2, Pow2(k - sc2), r * Pow2(k - scale), r % 2 == 0);
  }

  lemma EvenPower(p: nat)
    requires p > 0
    ensures Pow2(p) % 2 == 0
  {
  }

  /** The significand against another one and against zero. */
  lemma NearestMagnitude(t: nat, n: nat, p: nat, f: int, sig2: nat, sc2: int, k: int, r: int, scale: int)
    requires n > 0 && Pow2(n - 1) <= t < Pow2(n)
    requires r == RoundedSignificand(t, n - 1 - p) && scale == f - (n - 1 - p)
    requires sig2 < Pow2(p + 1) && k >= sc2 && k >= f && k >= scale
    ensures Nearer(r * Pow2(k - scale), sig2 * Pow2(k - sc2), t * Pow2(k - f), r % 2 == 0)
    ensures Nearer(r * Pow2(k - scale), 0, t * Pow2(k - f), r % 2 == 0)
  {
    assert k - f + (n - 1 - p) == k - scale;
    NearestDouble(t, n, p, f, sig2, sc2, k);
    NearestDouble(t, n, p, f, 0, sc2, k);
    MulZero(Pow2(k - sc2));
  }

  lemma MulZero(x: int)
    ensures 0 * x == 0
  {
  }

  lemma SignedScales(v: int, pv: nat, sig: int, p: nat, sig2: int, p2: nat, near: int, even: bool)
    requires v != 0 && sig2 != 0 && (sig < 0 <==> v < 0) && pv > 0 && p > 0 && p2 > 0
    requires Abs(sig) * p == near
    requires Nearer(near, Abs(sig2) * p2, Abs(v) * pv, even) && Nearer(near, 0, Abs(v) * pv, even)
    ensures Nearer(sig * p, sig2 * p2, v * pv, even)
  {
    Magnitude(v, pv);
    Magnitude(sig, p);
    Magnitude(sig2, p2);
    MulSign(sig2, p2);
    MulSign(v, pv);
    SignedNearest(sig * p, sig2 * p2, v * pv, even);
  }

  /** Nearness of magnitudes is nearness of numbers when the chosen one has the right
      sign and is at least as near as zero. */
  lemma SignedNearest(a: int, b: int, x: int, even: bool)
    requires (a < 0 <==> x < 0) && x != 0 && b != 0
    requires Nearer(Abs(a), Abs(b), Abs(x), even) && Nearer(Abs(a), 0, Abs(x), even)
    ensures Nearer(a, b, x, even)
  {
  }

  lemma Magnitude(x: int, p: int)
    requires p > 0
    ensures Abs(x * p) == Abs(x) * p && (x * p < 0 <==> x < 0)
  {
    MulSign(x, p);
    if x < 0 { assert (-x) * p == -(x * p); }
  }

  lemma DecodedMagnitude(sig: int, sc: int, r: int, scale: int, d: int, k: int)
    requires SameNumber(sig, sc, r, scale, d) && k > sc && k >= scale
    ensures Abs(sig) * Pow2(k - sc) == r * Pow2(k - scale)
    ensures r % 2 == 0 && d % 2 == 0 ==> sig % 2 == 0
  {
    if r == 2 * d {
      assert k - sc == (k - scale) + 1;
      DoubleScale(d, Pow2(k - scale));
    }
  }

  // ----- there and back -----

  /** What content `v` becomes when it is converted to a double and back. */
  function Returned(q: QMode, o: OMode, w: nat, s: bool, f: int, v: int): int
    requires w > 0
  {
    Constructed(q, o, w, s, f, Encoding(v, f))
  }

  /** The most negative number of a type that saturates symmetrically. */
  predicate Exceptional(o: OMode, w: nat, s: bool, v: int) {
    o == SatSym && s && w > 1 && v == -1 - Highest(w, s)
  }

  /** A register of at most 53 significant bits survives the trip through a double,
      in every mode, except for the most negative number of a type that saturates
      symmetrically and so does not count it among its values. */
  lemma RoundTrip(q: QMode, o: OMode, w: nat, s: bool, f: int, v: int)
    requires w > 0 && Fits(v, w, s)
    requires v != 0 ==> Normal(v, f) && BitLength(Abs(v)) <= MAN + 1
    ensures Returned(q, o, w, s, f, v) == v <==> !Exceptional(o, w, s, v)
    ensures Exceptional(o, w, s, v) ==> Returned(q, o, w, s, f, v) == v + 1
  {
    StoredInRange(o, w, s, v);
    if v == 0 {
      ZeroReturns(q, o, w, s, f);
    } else {
      NonzeroReturns(q, o, w, s, f, v);
    }
  }

  lemma ZeroReturns(q: QMode, o: OMode, w: nat, s: bool, f: int)
    requires w > 0
    ensures Returned(q, o, w, s, f, 0) == 0
  {
    DivModIs(0, Pow2(63), 0, 0);
    LowSlice(0, 63);
  }

  lemma NonzeroReturns(q: QMode, o: OMode, w: nat, s: bool, f: int, v: int)
    requires w > 0 && Normal(v, f) && BitLength(Abs(v)) <= MAN + 1
    ensures Returned(q, o, w, s, f, v) == Stored(o, w, s, v)
  {
    SmallEncoding(v, f);
    var m, k := Encoding(v, f), MAN + 1 - BitLength(Abs(v));
    ExactOfMultiple(q, v, k, f, Significand(m));
  }

  /** A multiple of a power of two with as many more fractional bits converts exactly. */
  lemma ExactOfMultiple(q: QMode, v: int, k: nat, f: int, sig: int)
    requires sig == v * Pow2(k)
    ensures Exact(q, sig, f + k, f) == v
  {
    ExactIsShifted(q, sig, f + k, f);
    RoundedInteger(q, v, Pow2(k));
  }

  /** No assignment and no construction from a double stores the exceptional number, so
      what they store survives the trip in every mode. */
  lemma AssignedSurvives(q: QMode, o: OMode, w: nat, s: bool, f: int, v2: int, f2: int)
    requires w > 0
    ensures var v := Assigned(q, o, w, s, f, v2, f2);
            && Fits(v, w, s)
            && ((v != 0 ==> Normal(v, f) && BitLength(Abs(v)) <= MAN + 1) ==>
                  Returned(q, o, w, s, f, v) == v)
  {
    var r := Exact(q, v2, f2, f);
    var v := Stored(o, w, s, r);
    StoredFits(o, w, s, r);
    if v != 0 ==> Normal(v, f) && BitLength(Abs(v)) <= MAN + 1 {
      RoundTrip(q, o, w, s, f, v);
    }
  }

  lemma ConstructedSurvives(q: QMode, o: OMode, w: nat, s: bool, f: int, raw: nat)
    requires w > 0
    ensures var v := Constructed(q, o, w, s, f, raw);
            (v != 0 ==> Normal(v, f) && BitLength(Abs(v)) <= MAN + 1) ==> Returned(q, o, w, s, f, v) == v
  {
    if IsZero(raw) {
      WrapProps(0, w, s);
      StoredFits(o, w, s, 0);
      if Constructed(q, o, w, s, f, raw) == 0 { RoundTrip(q, o, w, s, f, 0); }
    } else {
      AssignedSurvives(q, o, w, s, f, Significand(raw), Scale(raw));
    }
  }

  lemma StoredFits(o: OMode, w: nat, s: bool, r: int)
    requires w > 0
    ensures Fits(Stored(o, w, s, r), w, s) && !Exceptional(o, w, s, Stored(o, w, s, r))
  {
    WrapProps(r, w, s);
    assert Pow2(w) == 2 * Pow2(w - 1);
  }

  /** A left shift does leave it: one, shifted into the sign of a symmetric type, becomes
      the most negative number, and comes back from a double one larger. */
  lemma ShiftedIsExceptional(q: QMode, w: nat)
    requires w > 1
    ensures Exceptional(SatSym, w, true, Wrap(1 * Pow2(w - 1), w, true))
  {
    DivModAdd(0 - Pow2(w - 1), 1, Pow2(w));
    WrapCong(Pow2(w - 1), 0 - Pow2(w - 1), w, true);
    WrapProps(0 - Pow2(w - 1), w, true);
  }

  lemma MinusFourReturnsMinusThree(q: QMode)
    ensures Wrap(1 * Pow2(2), 3, true) == -4
    ensures Returned(q, SatSym, 3, true, 0, -4) == -3
  {
    ShiftedIsExceptional(q, 3);
    MinusFourNormal();
    RoundTrip(q, SatSym, 3, true, 0, -4);
  }

  lemma MinusFourNormal()
    ensures Normal(-4, 0) && BitLength(4) == 3
  {
    assert BitLength(4) == 3;
    SmallSignificand(4, 3, MAN);
  }

  lemma StoredInRange(o: OMode, w: nat, s: bool, v: int)
    requires w > 0 && Fits(v, w, s)
    ensures Stored(o, w, s, v) == if Exceptional(o, w, s, v) then v + 1 else v
  {
    WrapProps(v, w, s);
    if w > 1 { assert Pow2(w - 1) == 2 * Pow2(w - 2); }
  }

  /** The encoding of a number of at most 53 bits is exact. */
  lemma SmallEncoding(v: int, f: int)
    requires Normal(v, f) && BitLength(Abs(v)) <= MAN + 1
    ensures var m, k := Encoding(v, f), MAN + 1 - BitLength(Abs(v));
            !IsZero(m) && Significand(m) == v * Pow2(k) && Scale(m) == f + k
  {
    var m := Encoding(v, f);
    EncodingDecodes(v, f);
    SignificandFits(m);
    SmallDecoded(v, BitLength(Abs(v)), MAN, f, Significand(m), Scale(m));
  }

  lemma SmallDecoded(v: int, n: nat, p: nat, f: int, sig: int, sc: int)
    requires v != 0 && n == BitLength(Abs(v)) && n <= p + 1 && (sig < 0 <==> v < 0)
    requires SameNumber(sig, sc, RoundedSignificand(Abs(v), n - 1 - p), f - (n - 1 - p), Pow2(p))
    ensures sig == v * Pow2(p + 1 - n) && sc == f + (p + 1 - n)
  {
    BitLengthBounds(Abs(v));
    SmallSignificand(Abs(v), n, p);
    SameSign(sig, v, Pow2(p + 1 - n));
  }

  lemma SameSign(sig: int, v: int, p: int)
    requires p > 0 && Abs(sig) == Abs(v) * p && (sig < 0 <==> v < 0)
    ensures sig == v * p
  {
    Magnitude(v, p);
  }

  /** A number that fits the significand is only shifted into it. */
  lemma SmallSignificand(t: nat, n: nat, p: nat)
    requires 0 < n <= p + 1 && BitLength(t) == n && t > 0
    ensures RoundedSignificand(t, n - 1 - p) == t * Pow2(p + 1 - n) < 2 * Pow2(p)
  {
    BitLengthBounds(t);
    ExactIsShifted(RndConv, t, 0, p + 1 - n);
    ScaledBounds(t, n, p + 1 - n, p + 1);
  }

  /** Converting to a double and constructing a register of the same type from it. */
  method ThereAndBack(x: Fixed, y: Fixed)
    requires x.Valid() && y.Valid() && y.w == x.w && y.i == x.i && y.s == x.s && x != y
    requires x.v != 0 ==> Normal(x.v, x.w - x.i) && BitLength(Abs(x.v)) <= MAN + 1
    modifies y`v
    ensures y.Valid()
    ensures y.v == x.v <==> !Exceptional(y.o, x.w, x.s, x.v)
  {
    ghost var v, f := x.v, x.w - x.i;
    RoundTrip(y.q, y.o, x.w, x.s, f, v);
    Convert(x, y, f);
  }

  /** The two conversions, one after the other. */
  method Convert(x: Fixed, y: Fixed, ghost f: int)
    requires x.Valid() && y.Valid() && y.w == x.w && y.i == x.i && y.s == x.s && x != y
    requires f == x.w - x.i
    modifies y`v
    ensures y.Valid()
    ensures y.v == Returned(y.q, y.o, x.w, x.s, f, x.v)
  {
    var raw := ToDouble.ToDouble(x);
    SameReturn(y.q, y.o, x.w, x.s, f, x.v, y.w, y.s, y.w - y.i, raw);
    FromDouble(y, raw);
  }

  lemma SameReturn(q: QMode, o: OMode, w: nat, s: bool, f: int, v: int, w': nat, s': bool, f': int, raw: nat)
    requires w > 0 && w' == w && s' == s && f' == f && raw == Encoding(v, f)
    ensures Constructed(q, o, w', s', f', raw) == Returned(q, o, w, s, f, v)
  {
  }
}
