/** Conversion of a fixed-point register to a double, and back. */
module ToDouble {
  import opened Bits
  import opened FixedSpec
  import opened FixedFlags
  import opened ApFixed
  import opened Doubles

  /** The number of bits of `t` without leading zeros. */
  function BitLength(t: nat): nat {
    if t == 0 then 0 else 1 + BitLength(t / 2)
  }

  lemma {:induction false} BitLengthBounds(t: nat)
    requires t > 0
    ensures BitLength(t) > 0 && Pow2(BitLength(t) - 1) <= t < Pow2(BitLength(t))
  {
    if t > 1 { BitLengthBounds(t / 2); }
  }

  /** A binary floating-point word: sign, `q` exponent bits, `p` fraction bits. */
  function Packed(p: nat, q: nat, neg: bool, e: int, r: nat): nat {
    Int(neg) * Pow2(p + q) + (e % Pow2(q)) * Pow2(p) + r % Pow2(p)
  }

  /** Setting sign and exponent over a significand packs the word; a significand that
      was rounded up to the next power of two leaves a fraction of zero. */
  lemma Pack(p: nat, q: nat, neg: bool, e: int, r: nat)
    requires q > 1 && Pow2(p) <= r <= 2 * Pow2(p)
    ensures var m := SetSlice(r, p + q, p + q, Int(neg));
            SetSlice(m, p + q - 1, p, e) == Packed(p, q, neg, e, r)
  {
    var d, g, sign := Pow2(p), Pow2(q), Int(neg);
    Pow2Add(p, q);
    Pow2Mono(2, q);
    assert g >= 4 by { assert Pow2(2) == 4; }
    SetSign(p + q, r, sign, d, g);
    PackedDigits(r, d, g, sign);
    SetExponent(r + sign * (d * g), p, q, e, r, sign * (d * g));
  }

  /** Writing the exponent over the bits above the fraction. */
  lemma SetExponent(m: int, p: nat, q: nat, e: int, r: int, top: int)
    requires q > 0 && m == r + top && ((m / Pow2(p)) % Pow2(q)) * Pow2(p) + r % Pow2(p) == r
    ensures SetSlice(m, p + q - 1, p, e) == top + (e % Pow2(q)) * Pow2(p) + r % Pow2(p)
  {
    assert p + q - 1 + 1 - p == q;
    PackSum(r, top, e % Pow2(q), (m / Pow2(p)) % Pow2(q), Pow2(p), r % Pow2(p));
  }

  lemma PackSum(r: int, top: int, e: int, mid: int, d: int, low: int)
    requires mid * d + low == r
    ensures (r + top) + (e - mid) * d == top + e * d + low
  {
    MulSub(e, mid, d);
  }

  lemma SetSign(b: nat, r: nat, sign: nat, d: nat, g: nat)
    requires sign <= 1 && r <= 2 * d && g >= 4 && d >= 1 && Pow2(b) == d * g
    ensures SetSlice(r, b, b, sign) == r + sign * Pow2(b)
  {
    assert b + 1 - b == 1 && Pow2(1) == 2;
    MulMono(4, g, d);
    DivModIs(r, Pow2(b), 0, r);
    assert Slice(r, b, b) == 0;
  }

  lemma PackedDigits(r: nat, d: nat, g: nat, sign: nat)
    requires d > 0 && g > 2 && d <= r <= 2 * d
    ensures (((r + sign * (d * g)) / d) % g) * d + r % d == r
  {
    var k := if r == 2 * d then 2 else 1;
    DivModIs(r, d, k, r - k * d);
    assert sign * (d * g) == (sign * g) * d;
    DivModAdd(r, sign * g, d);
    DivModAdd(k, sign, g);
    DivModIs(k, g, 0, k);
  }

  /** The bit above a significand is set exactly when rounding carried into it. */
  lemma CarryBit(p: nat, r: nat)
    requires Pow2(p) <= r <= 2 * Pow2(p)
    ensures Bit(r, p + 1) <==> r == 2 * Pow2(p)
  {
    DivModIs(r, Pow2(p + 1), if r == Pow2(p + 1) then 1 else 0, if r == Pow2(p + 1) then 0 else r);
  }

  /** The significand of a number of bit length `n`, rounded to `p + 1` bits with ties
      to even; `lsb` is the position of its last place. */
  function RoundedSignificand(t: nat, lsb: int): int {
    Exact(RndConv, t, 0, -lsb)
  }

  /** Shifting in a guard bit, adding the tie-breaking bit and dropping the guard bit
      rounds to nearest, ties to even. */
  lemma GuardBitRounds(t: nat, lsb: int, a: bool, m: nat)
    requires m == Guarded(t, lsb)
    requires a <==> (lsb >= 2 && Slice(t, lsb - 2, 0) != 0) || (lsb >= 0 && Bit(t, lsb))
    ensures (m + Int(a)) / 2 == RoundedSignificand(t, lsb)
  {
    ExactIsShifted(RndConv, t, 0, -lsb);
    if lsb >= 1 {
      GuardBitDrops(t, lsb, a, m);
    } else if lsb == 0 {
      DivModIs(t, 1, t, 0);
      assert t * Pow2(0) == t && t * Pow2(1) == 2 * t;
    } else {
      assert t * Pow2(1 - lsb) == 2 * (t * Pow2(-lsb));
    }
  }

  lemma GuardBitDrops(t: nat, lsb: nat, a: bool, m: nat)
    requires lsb >= 1 && m == t / Pow2(lsb - 1)
    requires a <==> (lsb >= 2 && Slice(t, lsb - 2, 0) != 0) || Bit(t, lsb)
    ensures (m + Int(a)) / 2 == Rounded(RndConv, t, Pow2(lsb))
  {
    DroppedBits(t, lsb);
    IncrementRounds(RndConv, t, Pow2(lsb), Bit(t, lsb - 1), lsb > 1 && Slice(t, lsb - 2, 0) != 0);
    DivDiv(t, Pow2(lsb - 1), 2);
    assert Pow2(lsb - 1) * 2 == Pow2(lsb);
  }

  /** The rounded significand has `p + 1` bits, or is the next power of two. */
  lemma SignificandRange(t: nat, n: nat, p: nat)
    requires n > 0 && Pow2(n - 1) <= t < Pow2(n)
    ensures Pow2(p) <= RoundedSignificand(t, n - 1 - p) <= 2 * Pow2(p)
  {
    var lsb := n - 1 - p;
    ExactIsShifted(RndConv, t, 0, -lsb);
    if lsb > 0 {
      Pow2Add(p, lsb);
      Pow2Add(p + 1, lsb);
      DivBounds(t, Pow2(p), Pow2(p + 1), Pow2(lsb));
    } else {
      Pow2Add(n - 1, -lsb);
      Pow2Add(n, -lsb);
      MulMono(Pow2(n - 1), t, Pow2(-lsb));
      MulMono(t, Pow2(n), Pow2(-lsb));
      assert Pow2(p + 1) == 2 * Pow2(p);
    }
  }

  /** The double encoding of the content `v` of a register with `f` fractional bits:
      the significand rounded to 53 bits, and the exponent of its leading bit. */
  function Encoding(v: int, f: int): nat {
    if v == 0 then 0 else Encode(v < 0, Abs(v), BitLength(Abs(v)), f, MAN)
  }

  function Encode(neg: bool, t: nat, n: nat, f: int, p: nat): nat {
    EncodeRounded(neg, Abs(RoundedSignificand(t, n - 1 - p)), n, f, p)
  }

  function EncodeRounded(neg: bool, r: nat, n: nat, f: int, p: nat): nat {
    Packed(p, 11, neg, n - f - 1 + BIAS + Int(r == 2 * Pow2(p)), r)
  }

  /** A magnitude of `n` bits, shifted so that one guard bit stays below the significand. */
  function Guarded(tmp: nat, lsb: int): int {
    if lsb >= 1 then tmp / Pow2(lsb - 1) else tmp * Pow2(1 - lsb)
  }

  lemma GuardedFits(tmp: nat, n: nat, p: nat)
    requires 0 < n && Pow2(n - 1) <= tmp < Pow2(n)
    ensures 0 <= Guarded(tmp, n - 1 - p) < Pow2(p + 2)
  {
    var lsb := n - 1 - p;
    if lsb >= 1 {
      Pow2Add(p + 2, lsb - 1);
      DivBounds(tmp, 0, Pow2(p + 2), Pow2(lsb - 1));
    } else {
      Pow2Add(n, 1 - lsb);
      assert n + (1 - lsb) == p + 2;
      ScaledWindow(tmp, Pow2(n), Pow2(1 - lsb));
      MulMono(0, tmp, Pow2(1 - lsb));
    }
  }

  /** The shift takes place in the register if it is wider than a word, and else in a
      word. */
  method ShiftToSignificand(tmp: nat, w: nat, n: nat, p: nat, word: nat) returns (m: nat)
    requires p + 2 <= word && 0 < n <= w && Pow2(n - 1) <= tmp < Pow2(n)
    ensures m == Guarded(tmp, n - 1 - p) < Pow2(p + 2)
  {
    var lsb := n - 1 - p;
    GuardedFits(tmp, n, p);
    if w > word {
      Pow2Mono(p + 2, w);
      WrapProps(Guarded(tmp, lsb), w, false);
      m := if lsb >= 1 then tmp / Pow2(lsb - 1) else Wrap(tmp * Pow2(1 - lsb), w, false);
    } else {
      Pow2Mono(n, word);
      Pow2Mono(p + 2, word);
      WrapProps(tmp, word, false);
      m := Wrap(tmp, word, false);
      WrapProps(Guarded(tmp, lsb), word, false);
      m := if lsb >= 1 then m / Pow2(lsb - 1) else Wrap(m * Pow2(1 - lsb), word, false);
    }
  }

  /** Conversion to a double's bit pattern. */
  method ToDouble(x: Fixed) returns (m: nat)
    requires x.Valid()
    ensures m == Encoding(x.v, x.w - x.i)
    ensures x.v == 0 ==> m == 0
  {
    if x.v == 0 { return 0; }
    var s := x.s && Bit(x.v, x.w - 1);
    SignOf(x.v, x.w, x.s);
    var tmp: nat := if s then -x.v else x.v;
    MagnitudeLength(x.v, x.w, x.s);
    var l := x.w - BitLength(tmp);
    m := EncodeMagnitude(s, tmp, x.w, x.i, l, MAN);
  }

  lemma MagnitudeLength(v: int, w: nat, s: bool)
    requires w > 0 && Fits(v, w, s) && v != 0
    ensures 0 < BitLength(Abs(v)) <= w
    ensures Pow2(BitLength(Abs(v)) - 1) <= Abs(v) < Pow2(BitLength(Abs(v)))
  {
    BitLengthBounds(Abs(v));
    if BitLength(Abs(v)) > w { Pow2Mono(w, BitLength(Abs(v)) - 1); }
  }

  /** The body of the conversion, for a magnitude with `l` leading zeros in `w` bits. */
  method EncodeMagnitude(s: bool, tmp: nat, w: nat, i: int, l: nat, p: nat) returns (m: nat)
    requires l < w && p <= 62 && Pow2(w - l - 1) <= tmp < Pow2(w - l)
    ensures m == Encode(s, tmp, w - l, w - i, p)
  {
    var e := i - l - 1 + BIAS;
    var b := RoundMagnitude(tmp, w, w - l, p);
    m := PackWord(s, e, b, p);
  }

  /** The magnitude, `n` bits long, rounded to the significand. */
  method RoundMagnitude(tmp: nat, w: nat, n: nat, p: nat) returns (b: nat)
    requires 0 < n <= w && p <= 62 && Pow2(n - 1) <= tmp < Pow2(n)
    ensures b == RoundedSignificand(tmp, n - 1 - p) && Pow2(p) <= b <= 2 * Pow2(p)
  {
    var lsb := n - 1 - p;
    var a := if lsb >= 2 then Slice(tmp, lsb - 2, 0) != 0 else false;
    a := a || (if lsb >= 0 then Bit(tmp, lsb) else false);
    b := ShiftToSignificand(tmp, w, n, p, 64);
    GuardBitRounds(tmp, lsb, a, b);
    SignificandRange(tmp, n, p);
    b := (b + Int(a)) / 2;
  }

  method PackWord(s: bool, e0: int, r: nat, p: nat) returns (m: nat)
    requires Pow2(p) <= r <= 2 * Pow2(p)
    ensures m == Packed(p, 11, s, e0 + Int(r == 2 * Pow2(p)), r)
  {
    var e := e0;
    CarryBit(p, r);
    if Bit(r, p + 1) {
      e := e + 1;
    }
    Pack(p, 11, s, e, r);
    var b := SetSlice(r, p + 11, p + 11, Int(s));
    m := SetSlice(b, p + 10, p, e);
  }
}
