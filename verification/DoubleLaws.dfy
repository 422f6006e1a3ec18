/** The double a register is converted to, in the numbers of the format. */
module DoubleLaws {
  import opened Bits
  import opened FixedSpec
  import opened FixedFlags
  import opened ApFixed
  import opened Doubles
  import opened ToDouble
  import opened DoubleTheorems

  // ----- the word -----

  lemma PackedIsWord(raw: nat, p: nat, q: nat, neg: bool, e: nat, r: nat)
    requires e < Pow2(q) && raw == Packed(p, q, neg, e, r)
    ensures raw == (if neg then Pow2(p + q) else 0) + e * Pow2(p) + r % Pow2(p)
  {
    DivModIs(e, Pow2(q), 0, e);
  }

  /** In the normal range the word of a number is one with an exponent between 1 and 2046;
      its fields are those of the rounded magnitude. */
  lemma EncodingIsWord(v: int, f: int) returns (e: nat, frac: nat)
    requires Normal(v, f)
    ensures 1 <= e <= 2046 && e == Exponent(v, f) && IsWord(Encoding(v, f), v < 0, e, frac)
    ensures frac == RoundedSignificand(Abs(v), BitLength(Abs(v)) - 1 - MAN) % Pow2(MAN)
  {
    BitLengthBounds(Abs(v));
    e := Exponent(v, f);
    frac := MagnitudeWord(v < 0, Abs(v), BitLength(Abs(v)), f, e);
  }

  lemma MagnitudeWord(neg: bool, t: nat, n: nat, f: int, e: nat) returns (frac: nat)
    requires n > 0 && Pow2(n - 1) <= t < Pow2(n) && 1 <= e <= 2046
    requires e == n - f - 1 + BIAS + Int(RoundedSignificand(t, n - 1 - MAN) == 2 * Pow2(MAN))
    ensures IsWord(Encode(neg, t, n, f, MAN), neg, e, frac) && frac == RoundedSignificand(t, n - 1 - MAN) % Pow2(MAN)
  {
    SignificandRange(t, n, MAN);
    EncodeIs(neg, t, n, f, MAN);
    frac := PackedWord(Encode(neg, t, n, f, MAN), neg, e, RoundedSignificand(t, n - 1 - MAN));
  }

  lemma PackedWord(raw: nat, neg: bool, e: nat, r: nat) returns (frac: nat)
    requires 1 <= e <= 2046 && raw == Packed(MAN, 11, neg, e, r)
    ensures IsWord(raw, neg, e, frac) && frac == r % Pow2(MAN)
  {
    frac := r % Pow2(MAN);
    assert Pow2(11) == 2048;
    PackedIsWord(raw, MAN, 11, neg, e, r);
  }

  lemma SameParity(sig: int, frac: nat, d: nat, neg: bool)
    requires d % 2 == 0 && sig == if neg then 0 - (d + frac) else d + frac
    ensures sig % 2 == 0 <==> frac % 2 == 0
  {
  }

  /** The word a register is converted to stands for the double nearest to its value: no
      `sig2 / 2^sc2` with a significand of 53 bits is nearer than plus or minus
      `(2^52 + frac) * 2^(e - 1075)`, and on a tie the fraction is even. */
  lemma WordIsNearest(v: int, f: int, e: nat, frac: nat, sig: int, sig2: int, sc2: int, k: int)
    requires Normal(v, f) && IsWord(Encoding(v, f), v < 0, e, frac)
    requires sig == if v < 0 then 0 - (Pow2(52) + frac) else Pow2(52) + frac
    requires 0 < Abs(sig2) < Pow2(53)
    requires k > 1075 - e && k >= sc2 && k >= f
    ensures Nearer(sig * Pow2(k - (1075 - e)), sig2 * Pow2(k - sc2), v * Pow2(k - f), frac % 2 == 0)
  {
    WordValue(Encoding(v, f), v < 0, e, frac);
    ToDoubleIsNearest(v, f, sig, 1075 - e, sig2, sc2, k);
    EvenPower(52);
    SameParity(sig, frac, Pow2(52), v < 0);
  }

  // ----- powers of two -----

  lemma RoundedPower(j: nat, p: nat)
    ensures RoundedSignificand(Pow2(j), j - p) == Pow2(p)
  {
    ExactIsShifted(RndConv, Pow2(j), 0, p - j);
    if j > p {
      Pow2Add(p, j - p);
      RoundedInteger(RndConv, Pow2(p), Pow2(j - p));
    } else {
      Pow2Add(j, p - j);
    }
  }

  lemma {:induction false} PowerLength(j: nat)
    ensures BitLength(Pow2(j)) == j + 1
  {
    if j > 0 { PowerLength(j - 1); }
  }

  lemma PowerRounded(neg: bool, t: nat, j: nat, f: int, p: nat)
    requires t == Pow2(j)
    ensures Encode(neg, t, j + 1, f, p) == EncodeRounded(neg, Pow2(p), j + 1, f, p)
  {
    RoundedPower(j, p);
    EncodeIs(neg, t, j + 1, f, p);
  }

  lemma EncodingOf(v: int, f: int, t: nat, n: nat)
    requires v != 0 && t == Abs(v) && n == BitLength(t)
    ensures Encoding(v, f) == Encode(v < 0, t, n, f, MAN)
  {
  }

  /** A significand that is a power of two leaves only the exponent. */
  lemma ExponentOnly(raw: nat, neg: bool, j: nat, f: int, e: nat)
    requires e == j - f + 1023 < 2048 && raw == EncodeRounded(neg, Pow2(MAN), j + 1, f, MAN)
    ensures IsWord(raw, neg, e, 0)
  {
    var e' := j + 1 - f - 1 + BIAS + Int(Pow2(MAN) == 2 * Pow2(MAN));
    assert Pow2(11) == 2048;
    DivModIs(Pow2(MAN), Pow2(MAN), 1, 0);
    PackedIsWord(raw, MAN, 11, neg, e', Pow2(MAN));
  }

  /** A register that holds plus or minus `2^k`, in the normal range, is converted to the
      word with exponent `k + 1023` and fraction zero. */
  lemma PowerIsWord(v: int, j: nat, f: int, k: int)
    requires (v == Pow2(j) || v == 0 - Pow2(j)) && k == j - f && -1022 <= k <= 1023
    ensures IsWord(Encoding(v, f), v < 0, k + 1023, 0)
  {
    var t: nat := Abs(v);
    PowerLength(j);
    EncodingOf(v, f, t, j + 1);
    PowerRounded(v < 0, t, j, f, MAN);
    ExponentOnly(Encoding(v, f), v < 0, j, f, k + 1023);
  }

  // ----- the normal range -----

  /** Rounding a magnitude of `n` bits carries into the next power of two exactly from
      half a unit below it. */
  lemma CarriesExactly(t: nat, n: nat, p: nat)
    requires n > 0 && Pow2(n - 1) <= t < Pow2(n)
    ensures var lsb := n - 1 - p;
            && (lsb <= 0 ==> RoundedSignificand(t, lsb) < 2 * Pow2(p))
            && (lsb > 0 ==> (RoundedSignificand(t, lsb) == 2 * Pow2(p) <==> 2 * t >= (4 * Pow2(p) - 1) * Pow2(lsb)))
  {
    var lsb := n - 1 - p;
    ExactIsShifted(RndConv, t, 0, 0 - lsb);
    if lsb <= 0 {
      ScaledBounds(t, n, 0 - lsb, p + 1);
    } else {
      Pow2Add(p + 1, lsb);
      CarriesAt(t, Pow2(lsb), Pow2(p));
    }
  }

  lemma CarriesAt(t: nat, d: nat, m: nat)
    requires d > 0 && m > 0 && t < (2 * m) * d
    ensures Rounded(RndConv, t, d) == 2 * m <==> 2 * t >= (4 * m - 1) * d
  {
    var f, rem := t / d, t % d;
    assert t == f * d + rem;
    DivBounds(t, 0, 2 * m, d);
    assert (4 * m - 1) * d == 2 * ((2 * m - 1) * d) + d;
    if f < 2 * m - 1 {
      MulMono(f + 1, 2 * m - 1, d);
      assert (f + 1) * d == f * d + d;
    }
  }

  /** The number a quarter of a unit, in the last place of `p` fraction bits, below the next
      power of two, scaled so that this power is `2^(p + 2 + e)`. */
  function Border(p: nat, e: nat): int {
    (4 * Pow2(p) - 1) * Pow2(e)
  }

  lemma BorderBelow(p: nat, e: nat)
    ensures Pow2(p + 1 + e) <= Border(p, e) < Pow2(p + 2 + e)
  {
    Pow2Add(p + 1, e);
    Pow2Add(p + 2, e);
    MulMono(2 * Pow2(p), 4 * Pow2(p) - 1, Pow2(e));
    MulSub(4 * Pow2(p), 1, Pow2(e));
  }

  lemma AboveBorder(t: nat, n: nat, p: nat, a: nat, e: nat)
    requires n > 0 && Pow2(n - 1) <= t && n - 1 + a >= p + 2 + e
    ensures t * Pow2(a) >= Border(p, e)
  {
    BorderBelow(p, e);
    Pow2Add(n - 1, a);
    MulMono(Pow2(n - 1), t, Pow2(a));
    Pow2Mono(p + 2 + e, n - 1 + a);
  }

  lemma BelowBorder(t: nat, n: nat, p: nat, a: nat, e: nat)
    requires n > 0 && t < Pow2(n) && n + a <= p + 1 + e
    ensures t * Pow2(a) < Border(p, e)
  {
    BorderBelow(p, e);
    ScaledBounds(t, n, a, p + 1 + e);
  }

  /** In the binade below the power the carry decides. */
  lemma AtBorder(t: nat, n: nat, p: nat, a: nat, e: nat)
    requires n > 0 && Pow2(n - 1) <= t < Pow2(n) && n + a == p + 2 + e
    ensures t * Pow2(a) >= Border(p, e) <==> RoundedSignificand(t, n - 1 - p) == 2 * Pow2(p)
  {
    var lsb := n - 1 - p;
    CarriesExactly(t, n, p);
    if lsb > 0 {
      Pow2Add(lsb, a);
      TwiceBorder(t, 4 * Pow2(p) - 1, Pow2(lsb), Pow2(a), Pow2(e));
      assert lsb + a == e + 1;
    } else {
      assert a == (1 - lsb) + e;
      Pow2Add(1 - lsb, e);
      Pow2Add(n, 1 - lsb);
      assert n + (1 - lsb) == p + 2;
      ShortOfBorder(t, Pow2(n), Pow2(p), Pow2(0 - lsb), Pow2(e));
    }
  }

  lemma TwiceBorder(t: nat, b: nat, d: nat, u: nat, v: nat)
    requires u > 0 && d * u == 2 * v
    ensures t * u >= b * v <==> 2 * t >= b * d
  {
    MulAssoc(b, d, u);
    DoubleScale(b, v);
    FixedSpec.ScaledOrder(b * d, 2 * t, u);
    assert (2 * t) * u == 2 * (t * u);
  }

  lemma ShortOfBorder(t: nat, n: nat, m: nat, h: nat, v: nat)
    requires t < n && n * (2 * h) == 4 * m && h > 0 && v > 0
    ensures t * ((2 * h) * v) < (4 * m - 1) * v
  {
    MulMono(t, n - 1, 2 * h);
    MulSub(n, 1, 2 * h);
    MulAssoc(t, 2 * h, v);
    MulMono(t * (2 * h) + 1, 4 * m - 1, v);
    assert (t * (2 * h) + 1) * v == (t * (2 * h)) * v + v;
  }

  /** The magnitude `t / 2^f` reaches the border below `2^c`, by the length of `t`, `n`, and
      the carry of its rounding; all values are scaled by `2^k`. */
  lemma ReachesBorder(t: nat, n: nat, p: nat, f: int, c: int, k: int, carry: bool)
    requires n > 0 && Pow2(n - 1) <= t < Pow2(n) && k >= f && k + c >= p + 2
    requires carry <==> RoundedSignificand(t, n - 1 - p) == 2 * Pow2(p)
    ensures t * Pow2(k - f) >= Border(p, k + c - (p + 2)) <==> n - f - 1 + Int(carry) >= c
  {
    if n - f - 1 >= c {
      AboveBorder(t, n, p, k - f, k + c - (p + 2));
    } else if n - f - 1 == c - 1 {
      AtBorder(t, n, p, k - f, k + c - (p + 2));
    } else {
      BelowBorder(t, n, p, k - f, k + c - (p + 2));
    }
  }

  /** The normal range: magnitudes from `(2^54 - 1) * 2^-1076`, which rounds up to the
      smallest normal number, up to but not including `(2^54 - 1) * 2^970`, which rounds up
      beyond the largest. */
  lemma NormalExactly(v: int, f: int, k: int)
    requires k >= f && k >= 1076
    ensures Normal(v, f) <==> Border(52, k - 1076) <= Abs(v) * Pow2(k - f) < Border(52, k + 970)
  {
    if v == 0 {
      BorderBelow(52, k - 1076);
    } else {
      MagnitudeNormal(Abs(v), BitLength(Abs(v)), f, k);
    }
  }

  lemma MagnitudeNormal(t: nat, n: nat, f: int, k: int)
    requires t > 0 && n == BitLength(t) && k >= f && k >= 1076
    ensures 1 <= n - f - 1 + BIAS + Int(RoundedSignificand(t, n - 1 - MAN) == 2 * Pow2(MAN)) <= 2046
       <==> Border(52, k - 1076) <= t * Pow2(k - f) < Border(52, k + 970)
  {
    BitLengthBounds(t);
    var carry := RoundedSignificand(t, n - 1 - MAN) == 2 * Pow2(MAN);
    ReachesBorder(t, n, MAN, f, -1022, k, carry);
    ReachesBorder(t, n, MAN, f, 1024, k, carry);
  }
}
