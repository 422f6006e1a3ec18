/** Conversion between fixed-point registers and IEEE 754 double-precision bit
    patterns (binary64: 1 sign bit, 11 exponent bits, 52 fraction bits). */
module Doubles {
  import opened Bits
  import opened FixedSpec
  import opened FixedFlags
  import opened ApFixed

  const MAN := 52
  const BIAS := 1023

  function Biased(raw: nat): nat { Slice(raw, 62, 52) }
  function Fraction(raw: nat): nat { Slice(raw, 51, 0) }
  predicate Negative(raw: nat) { Bit(raw, 63) }
  predicate IsZero(raw: nat) { Slice(raw, 62, 0) == 0 }

  /** The signed significand with its leading one, and the number of its fractional
      bits: a normal double is `Significand / 2^Scale`. */
  function Significand(raw: nat): int {
    var m := Pow2(MAN) + Fraction(raw);
    if Negative(raw) then 0 - m else m
  }

  function Scale(raw: nat): int {
    MAN + BIAS - Biased(raw)
  }

  /** The significand fits the 54-bit signed register of the conversion. */
  lemma SignificandFits(raw: nat)
    ensures Pow2(MAN) <= Abs(Significand(raw)) < Pow2(MAN + 1)
    ensures Fits(Significand(raw), MAN + 2, true)
    ensures Significand(raw) < 0 <==> Negative(raw)
  {
    assert 51 + 1 - 0 == MAN;
    assert Fraction(raw) < Pow2(MAN);
  }

  /** A range is its lowest bit and the range above. */
  lemma RangeStep(x: int, w2: nat, p: nat)
    requires p + 1 < w2
    ensures Slice(x, w2 - 1, p) == 2 * Slice(x, w2 - 1, p + 1) + Int(Bit(x, p))
    ensures Slice(x, w2 - 1, p + 1) == (x % Pow2(w2)) / Pow2(p + 1)
  {
    var n := Pow2(w2 - p - 1);
    assert w2 - 1 + 1 - p == w2 - p && w2 - 1 + 1 - (p + 1) == w2 - p - 1;
    DivDiv(x, Pow2(p), 2);
    assert Pow2(p) * 2 == Pow2(p + 1);
    DivDiv(x / Pow2(p), 2, n);
    assert 2 * n == Pow2(w2 - p);
    RangeOfResidue(x, w2, p + 1);
  }

  lemma RangeOfResidue(x: int, w2: nat, p: nat)
    requires p <= w2
    ensures (x / Pow2(p)) % Pow2(w2 - p) == (x % Pow2(w2)) / Pow2(p)
  {
    Pow2Add(p, w2 - p);
    DivDiv(x, Pow2(p), Pow2(w2 - p));
    DivModIs(x % Pow2(w2), Pow2(p), (x / Pow2(p)) % Pow2(w2 - p), x % Pow2(p));
  }

  /** The conversion's two range tests, put together from the bit and the range above it. */
  lemma SplitRange(x: int, w2: nat, p: nat)
    requires p + 1 < w2
    ensures var range2 := (x % Pow2(w2)) / Pow2(p + 1);
            && (range2 == (Pow2(w2) - 1) / Pow2(p + 1) && Bit(x, p) <==> Slice(x, w2 - 1, p) == (Pow2(w2) - 1) / Pow2(p))
            && (range2 == 0 && !Bit(x, p) <==> Slice(x, w2 - 1, p) == 0)
  {
    RangeStep(x, w2, p);
    AllOnes(w2, p);
    AllOnes(w2, p + 1);
    assert Pow2(w2 - p) == 2 * Pow2(w2 - (p + 1));
  }

  /** The range tests for a double, which shift the significand instead of slicing it
      and build the longer range from its lowest bit and the shorter one. */
  method TestDoubleRanges(man: int, w2: nat, sh: int, w: nat, lD: bool)
    returns (range1AllOnes: bool, range1AllZeros: bool, range2AllOnes: bool)
    requires w > 0 && w2 > 0 && sh + w < w2 && Fits(man, w2, true)
    requires sh + w >= 0 ==> lD == Bit(man, sh + w)
    ensures man < 0 ==> (range1AllOnes <==> Shifted(man, sh) / Pow2(w) == -1)
    ensures man >= 0 ==> (range1AllZeros <==> Shifted(man, sh) / Pow2(w) == 0)
    ensures man >= 0 ==> !range1AllOnes
  {
    var pos1, pos2 := sh + w, sh + w + 1;
    var range2 := 0;
    range1AllOnes, range1AllZeros, range2AllOnes := true, true, true;
    if pos2 >= 0 && pos2 < w2 {
      range2 := man % Pow2(w2);
      range2 := range2 / Pow2(pos2);
      range2AllOnes := range2 == (Pow2(w2) - 1) / Pow2(pos2);
    } else if pos2 < 0 {
      range2AllOnes := false;
    }
    if pos1 >= 0 && pos2 < w2 {
      SplitRange(man, w2, pos1);
      range1AllOnes := range2AllOnes && lD;
      range1AllZeros := range2 == 0 && !lD;
    } else if pos2 == w2 {
      range1AllOnes := lD;
      range1AllZeros := !lD;
    } else if pos1 < 0 {
      range1AllZeros := man == 0;
      range1AllOnes := false;
    }
    DeletedRange(man, w2, true, sh, w, range1AllOnes, range1AllZeros);
  }

  /** Overflow detection for a double, whose `w2`-bit significand is `man`. */
  method DetectDouble(t: Fixed, man: int, w2: nat, sh: int, isneg: bool, carry: bool, ghost up: bool)
    returns (underflow: bool, overflow: bool)
    requires t.Valid() && w2 > 0 && Fits(man, w2, true) && (isneg <==> man < 0)
    requires t.v == Wrap(Shifted(man, sh) + Int(up), t.w, t.s)
    requires carry <==> up && Shifted(man, sh) % Pow2(t.w) == Pow2(t.w) - 1
    ensures overflow <==> Shifted(man, sh) + Int(up) > Highest(t.w, t.s)
    ensures underflow <==> Shifted(man, sh) + Int(up) < Lowest(if t.o == SatSym then SatSym else Sat, t.w, t.s)
  {
    var s2 := true;
    ghost var f := Facts(t.w, t.s, s2, t.o == SatSym, isneg, Shifted(man, sh), up, carry);
    ShiftedSign(man, sh);
    StoredSign(f, t.v);
    var newSignBit := Bit(t.v, t.w - 1);
    var deletedZeros, deletedOnes, negSrc := DeletedBits(t, man, w2, sh, isneg, carry, newSignBit, f);
    underflow, overflow := t.CombineFlags(deletedZeros, deletedOnes, negSrc, newSignBit, s2, isneg, f);
  }

  /** What the deleted bits of the significand tell. */
  method DeletedBits(t: Fixed, man: int, w2: nat, sh: int, isneg: bool, carry: bool, newSignBit: bool, ghost f: Facts)
    returns (deletedZeros: bool, deletedOnes: bool, negSrc: bool)
    requires t.Valid() && w2 > 0 && Fits(man, w2, true) && isneg == (man < 0) && f.Valid()
    requires f == Facts(t.w, t.s, true, t.o == SatSym, isneg, Shifted(man, sh), f.up, carry) && newSignBit == f.NewSign()
    ensures f.Overflow(deletedZeros) <==> f.Rounding() > Highest(t.w, t.s)
    ensures f.Underflow(deletedOnes, negSrc) <==> f.Rounding() < Lowest(if t.o == SatSym then SatSym else Sat, t.w, t.s)
  {
    AboveTarget(man, sh, t.w);
    deletedZeros, deletedOnes := true, true;
    negSrc := isneg;
    var lD := false;
    var pos1, pos2 := sh + t.w, sh + t.w + 1;
    if pos1 < w2 && pos1 >= 0 {
      lD := (man / Pow2(pos1)) % 2 == 1;
    }
    if pos1 < w2 {
      var range1AllOnes, range1AllZeros, range2AllOnes := TestDoubleRanges(man, w2, sh, t.w, lD);
      deletedZeros := deletedZeros && (if carry then range1AllOnes else range1AllZeros);
      deletedOnes := if carry then range2AllOnes && (pos1 < 0 || !lD) else range1AllOnes;
      negSrc := isneg && !(carry && range1AllOnes);
      DecideInside(f, range1AllOnes, range1AllZeros, deletedOnes);
    } else {
      negSrc := isneg && newSignBit;
      WithinTarget(man, w2, true, sh, t.w);
      DecideBeyond(f);
    }
  }

  /** What is stored for the bit pattern `raw`. */
  function Constructed(q: QMode, o: OMode, w: nat, s: bool, f: int, raw: nat): int
    requires w > 0
  {
    if IsZero(raw) then 0 else Assigned(q, o, w, s, f, Significand(raw), Scale(raw))
  }

  /** The word with the given sign, exponent and fraction fields. */
  ghost predicate IsWord(raw: nat, neg: bool, e: nat, frac: nat) {
    && e < 2048 && frac < Pow2(52)
    && raw == (if neg then Pow2(63) else 0) + e * Pow2(52) + frac
  }

  lemma WordFields(raw: nat, neg: bool, e: nat, frac: nat)
    requires IsWord(raw, neg, e, frac)
    ensures Biased(raw) == e && Fraction(raw) == frac && Negative(raw) == neg
    ensures IsZero(raw) <==> e == 0 && frac == 0
  {
    FieldsOfWord(raw, 52, 11, neg, e, frac);
  }

  lemma FieldsOfWord(raw: nat, p: nat, q: nat, neg: bool, e: nat, frac: nat)
    requires e < Pow2(q) && frac < Pow2(p) && p > 0 && q > 0
    requires raw == (if neg then Pow2(p + q) else 0) + e * Pow2(p) + frac
    ensures Slice(raw, p + q - 1, p) == e && Slice(raw, p - 1, 0) == frac
    ensures Bit(raw, p + q) <==> neg
    ensures Slice(raw, p + q - 1, 0) == 0 <==> e == 0 && frac == 0
  {
    Pow2Add(q, p);
    var d, g, low, sign := Pow2(p), Pow2(q), e * Pow2(p) + frac, Int(neg);
    LowPart(e, frac, d, g);
    DivModIs(raw, Pow2(p + q), sign, low);
    TopAndRest(raw, sign, e, frac, d, g);
    DivModIs(raw, 1, raw, 0);
    assert p + q - 1 + 1 - p == q && p + q - 1 + 1 - 0 == p + q && p - 1 + 1 - 0 == p;
  }

  lemma LowPart(e: nat, frac: nat, d: nat, g: nat)
    requires e < g && frac < d
    ensures 0 <= e * d + frac < g * d
    ensures e * d + frac == 0 <==> e == 0 && frac == 0
  {
    MulMono(0, e, d);
    MulMono(e, g - 1, d);
    MulSub(g, 1, d);
    if e > 0 { MulMono(1, e, d); }
  }

  lemma TopAndRest(raw: nat, sign: nat, e: nat, frac: nat, d: nat, g: nat)
    requires e < g && frac < d && raw == sign * (g * d) + e * d + frac
    ensures (raw / d) % g == e && raw % d == frac
  {
    MulAssoc(sign, g, d);
    assert raw == (sign * g + e) * d + frac;
    DivModIs(raw, d, sign * g + e, frac);
    DivModIs(sign * g + e, g, sign, e);
  }

  /** What a word stands for, in the numbers of the format: any word but the two zeros
      constructs the rounding of plus or minus `(2^52 + frac) * 2^(e - 1075)`. */
  lemma WordConstructs(q: QMode, o: OMode, w: nat, s: bool, f: int, raw: nat, neg: bool, e: nat, frac: nat, x: int)
    requires w > 0 && IsWord(raw, neg, e, frac)
    ensures e == 0 && frac == 0 ==> Constructed(q, o, w, s, f, raw) == 0
    ensures !(e == 0 && frac == 0) && !Degenerate(o, w, s) ==>
              (x == Constructed(q, o, w, s, f, raw)
               <==> Meets(q, o, w, s, f, if neg then 0 - (Pow2(52) + frac) else Pow2(52) + frac, 1075 - e, x))
  {
    WordValue(raw, neg, e, frac);
    if !(e == 0 && frac == 0) && !Degenerate(o, w, s) {
      ConstructedExactly(q, o, w, s, f, raw, if neg then 0 - (Pow2(52) + frac) else Pow2(52) + frac, 1075 - e, x);
    }
  }

  lemma WordValue(raw: nat, neg: bool, e: nat, frac: nat)
    requires IsWord(raw, neg, e, frac)
    ensures Significand(raw) == (if neg then 0 - (Pow2(52) + frac) else Pow2(52) + frac) && Scale(raw) == 1075 - e
    ensures IsZero(raw) <==> e == 0 && frac == 0
  {
    WordFields(raw, neg, e, frac);
  }

  lemma ConstructedExactly(q: QMode, o: OMode, w: nat, s: bool, f: int, raw: nat, sig: int, scale: int, x: int)
    requires w > 0 && !Degenerate(o, w, s) && !IsZero(raw) && Significand(raw) == sig && Scale(raw) == scale
    ensures x == Constructed(q, o, w, s, f, raw) <==> Meets(q, o, w, s, f, sig, scale, x)
  {
    MeetsExactly(q, o, w, s, f, sig, scale, x);
  }

  /** `x` is the rounding of what the word `raw` stands for. */
  ghost predicate StandsFor(q: QMode, o: OMode, w: nat, s: bool, f: int, raw: nat, x: int)
    requires w > 0
  {
    forall neg, e: nat, frac: nat :: IsWord(raw, neg, e, frac) && !Degenerate(o, w, s) ==>
      if e == 0 && frac == 0 then x == 0
      else Meets(q, o, w, s, f, if neg then 0 - (Pow2(52) + frac) else Pow2(52) + frac, 1075 - e, x)
  }

  lemma ConstructedStands(q: QMode, o: OMode, w: nat, s: bool, f: int, raw: nat)
    requires w > 0
    ensures StandsFor(q, o, w, s, f, raw, Constructed(q, o, w, s, f, raw))
  {
    forall neg, e: nat, frac: nat | IsWord(raw, neg, e, frac) && !Degenerate(o, w, s)
      ensures if e == 0 && frac == 0 then Constructed(q, o, w, s, f, raw) == 0
              else Meets(q, o, w, s, f, if neg then 0 - (Pow2(52) + frac) else Pow2(52) + frac, 1075 - e, Constructed(q, o, w, s, f, raw))
    {
      WordConstructs(q, o, w, s, f, raw, neg, e, frac, Constructed(q, o, w, s, f, raw));
    }
  }

  /** Construction of a register from a double's bit pattern.  Zero of either sign
      gives zero; any other pattern is taken as a normal number. */
  method FromDouble(t: Fixed, ireg: nat)
    requires t.Valid()
    modifies t`v
    ensures t.Valid()
    ensures t.v == Constructed(t.q, t.o, t.w, t.s, t.w - t.i, ireg)
    ensures StandsFor(t.q, t.o, t.w, t.s, t.w - t.i, ireg, t.v)
  {
    ConstructedStands(t.q, t.o, t.w, t.s, t.w - t.i, ireg);
    var isneg := Negative(ireg);
    var exp := Biased(ireg) - BIAS;
    var man := Significand(ireg);
    SignificandFits(ireg);
    if IsZero(ireg) {
      WrapProps(0, t.w, t.s);
      t.v := 0;
    } else {
      FromSignificand(t, man, MAN + 2, exp + 2, isneg, Scale(ireg));
    }
  }

  /** The conversion of a signed significand of `w2` bits with `i2` integer bits. */
  method FromSignificand(t: Fixed, man: int, w2: nat, i2: int, isneg: bool, ghost scale: int)
    requires scale == w2 - i2 && t.Valid() && w2 > 0 && Fits(man, w2, true) && (isneg <==> man < 0)
    modifies t`v
    ensures t.Valid()
    ensures t.v == Assigned(t.q, t.o, t.w, t.s, t.w - t.i, man, scale)
  {
    var f, f2 := t.w - t.i, w2 - i2;
    SignBit(man, w2);
    ExactIsShifted(t.q, man, f2, f);
    var carry, shAmt := false, if f2 > f then f2 - f else f - f2;
    ghost var up := false;
    WrapProps(man, t.w, t.s);
    if f2 == f {
      t.v := Wrap(man, t.w, t.s);
    } else if f2 > f {
      carry, up := t.ShiftRight(man, w2, true, shAmt, isneg, isneg);
    } else {
      WrapProps(man * Pow2(shAmt), t.w, t.s);
      t.v := Wrap(man, t.w, t.s);
      if shAmt < t.w {
        WrapMul(man, shAmt, t.w, t.s, t.w, t.s);
        t.v := Wrap(t.v * Pow2(shAmt), t.w, t.s);
      } else {
        ShiftedOut(man, shAmt, t.w, t.s);
        t.v := 0;
      }
    }
    SaturateDouble(t, man, w2, i2, isneg, carry, up);
  }

  method SaturateDouble(t: Fixed, man: int, w2: nat, i2: int, isneg: bool, carry: bool, ghost up: bool)
    requires t.Valid() && w2 > 0 && Fits(man, w2, true) && (isneg <==> man < 0)
    requires var sh := (w2 - i2) - (t.w - t.i);
             && t.v == Wrap(Shifted(man, sh) + Int(up), t.w, t.s)
             && Shifted(man, sh) + Int(up) == Exact(t.q, man, w2 - i2, t.w - t.i)
             && (carry <==> up && Shifted(man, sh) % Pow2(t.w) == Pow2(t.w) - 1)
    modifies t`v
    ensures t.Valid()
    ensures t.v == Stored(t.o, t.w, t.s, Exact(t.q, man, w2 - i2, t.w - t.i))
  {
    if Guard(t.w, t.i, t.s, t.q, t.o, w2, i2, true) {
      var underflow, overflow := DetectDouble(t, man, w2, (w2 - i2) - (t.w - t.i), isneg, carry, up);
      t.OverflowAdjust(underflow, overflow);
      AdjustedIsStored(t.o, t.w, t.s, Exact(t.q, man, w2 - i2, t.w - t.i), underflow, overflow);
    } else {
      UnguardedIsStored(t.w, t.i, t.s, t.q, t.o, w2, i2, true, man);
    }
  }
}
