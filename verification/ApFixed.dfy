/** Arbitrary-precision fixed-point registers: quantization, overflow handling and
    assignment between types of different widths. */
module ApFixed {
  import opened Bits
  import opened FixedSpec
  import opened FixedFlags

  /** What assignment stores for the exact rounded number `r`.  This is the
      saturation the mode asks for, but for one degenerate type. */
  function Stored(o: OMode, w: nat, s: bool, r: int): int
    requires w > 0
  {
    if Degenerate(o, w, s) then (if r < 0 then -1 else 0) else Limited(o, w, s, r)
  }

  /** The one-bit signed register with symmetric saturation. */
  predicate Degenerate(o: OMode, w: nat, s: bool) {
    o == SatSym && s && w == 1
  }

  /** What a register with `w` bits, `f` of them fractional, gets when content `v` with
      `f2` fractional bits is assigned to it. */
  function Assigned(q: QMode, o: OMode, w: nat, s: bool, f: int, v: int, f2: int): int
    requires w > 0
  {
    Stored(o, w, s, Exact(q, v, f2, f))
  }

  /** Storing meets the saturation mode except for negative numbers in the one-bit
      symmetric register, whose only symmetric content would be zero. */
  lemma StoredMeetsMode(o: OMode, w: nat, s: bool, r: int)
    requires w > 0
    ensures Stored(o, w, s, r) == Limited(o, w, s, r) <==> !(Degenerate(o, w, s) && r < 0)
  {
    if Degenerate(o, w, s) {
      assert Pow2(w - 1) == 1;
    }
  }

  /** `x` is what an assignment has to store: the exact value rounded in the mode `q`, and
      then limited to the register in the mode `o`.  The exact value is `v * 2^(f - f2)`
      units of the last place. */
  ghost predicate Meets(q: QMode, o: OMode, w: nat, s: bool, f: int, v: int, f2: int, x: int)
    requires w > 0
  {
    exists r :: RoundedTo(q, v, f - f2, r) && IsLimited(o, w, s, r, x)
  }

  /** `r` is `v * 2^up` rounded. */
  ghost predicate RoundedTo(q: QMode, v: int, up: int, r: int) {
    IsRounded(q, v * Pow2(if up > 0 then up else 0), Pow2(if up < 0 then 0 - up else 0), r)
  }

  /** What is stored is the only number that meets the definition, for all types but the
      degenerate one. */
  lemma MeetsExactly(q: QMode, o: OMode, w: nat, s: bool, f: int, v: int, f2: int, x: int)
    requires w > 0 && !Degenerate(o, w, s)
    ensures Meets(q, o, w, s, f, v, f2, x) <==> x == Assigned(q, o, w, s, f, v, f2)
  {
    var a: nat, b: nat := if f > f2 then f - f2 else 0, if f < f2 then f2 - f else 0;
    var e, up := Exact(q, v, f2, f), f - f2;
    LimitedExactly(o, w, s, e, x);
    ExactExactly(q, v, f2, f, a, b, e);
    assert RoundedTo(q, v, up, e);
    forall r | RoundedTo(q, v, up, r) ensures r == e {
      ExactExactly(q, v, f2, f, a, b, r);
    }
  }

  lemma AssignedMeets(q: QMode, o: OMode, w: nat, s: bool, f: int, v: int, f2: int)
    requires w > 0
    ensures !Degenerate(o, w, s) ==> Meets(q, o, w, s, f, v, f2, Assigned(q, o, w, s, f, v, f2))
  {
    if !Degenerate(o, w, s) { MeetsExactly(q, o, w, s, f, v, f2, Assigned(q, o, w, s, f, v, f2)); }
  }

  /** The same however the exact value is written. */
  lemma AssignedExactly(q: QMode, o: OMode, w: nat, s: bool, f: int, v: int, f2: int, a: nat, b: nat, r: int, x: int)
    requires w > 0 && !Degenerate(o, w, s) && b - a == f2 - f
    requires IsRounded(q, v * Pow2(a), Pow2(b), r)
    ensures IsLimited(o, w, s, r, x) <==> x == Assigned(q, o, w, s, f, v, f2)
  {
    ExactExactly(q, v, f2, f, a, b, r);
    LimitedExactly(o, w, s, r, x);
  }

  /** The register that falls short: minus one, assigned to the one-bit symmetric type,
      stays, although zero is all that type should hold. */
  lemma OneBitSymmetric(q: QMode)
    ensures Assigned(q, SatSym, 1, true, 0, -1, 0) == -1
    ensures Limited(SatSym, 1, true, -1) == 0
  {
    RoundedInteger(q, -1, 1);
  }

  /** What the flags of `OverflowAdjust` make of content `v`. */
  function Adjusted(o: OMode, w: nat, s: bool, v: int, underflow: bool, overflow: bool): int
    requires w > 0
  {
    if (!underflow && !overflow) || o == Around then v
    else if o == SatZero then 0
    else if overflow then Highest(w, s)
    else if !s then 0
    else if o == SatSym && w > 1 then -Highest(w, s)
    else -1 - Highest(w, s)
  }

  /** Shifting a one into the sign position gives the most negative number. */
  lemma MostNegative(w: nat)
    requires w > 0
    ensures Wrap(Wrap(1, w, true) * Pow2(w - 1), w, true) == -1 - Highest(w, true)
    ensures Bit(-1 - Highest(w, true), 0) <==> w == 1
  {
    var h: int := Pow2(w - 1);
    DivModAdd(-h, 1, Pow2(w));
    WrapCong(h, -h, w, true);
    WrapProps(-h, w, true);
    DivModIs(-h, 1, -h, 0);
    if w == 1 {
      DivModAdd(-1, 1, 2);
      WrapCong(1, -1, w, true);
      WrapProps(-1, w, true);
    } else {
      WrapProps(1, w, true);
      EvenNegative(Pow2(w - 2));
    }
  }

  lemma EvenNegative(k: int)
    ensures (-(2 * k)) % 2 == 0
  {
  }

  /** An increment clears the top bit exactly when it wraps a register full of ones. */
  lemma CarryOut(x: int, up: bool, w: nat, s: bool)
    requires w > 0
    ensures var m := Pow2(w);
            Bit(x, w - 1) && !Bit(Wrap(x + Int(up), w, s), w - 1) <==> up && x % m == m - 1
  {
    var m, y := Pow2(w), x + Int(up);
    TopBit(x, w);
    WrapProps(y, w, s);
    TopBit(Wrap(y, w, s), w);
    NextResidue(x, Int(up), m);
  }

  lemma NextResidue(x: int, k: int, m: int)
    requires m > 0 && 0 <= k <= 1
    ensures (x + k) % m == if x % m + k == m then 0 else x % m + k
  {
    if x % m + k == m {
      assert (x / m + 1) * m == (x / m) * m + m;
      DivModIs(x + k, m, x / m + 1, 0);
    } else {
      DivModIs(x + k, m, x / m, x % m + k);
    }
  }

  /** The lowest bit of a register is the parity of what was assigned. */
  lemma LowestBit(x: int, w: nat, s: bool)
    requires w > 0
    ensures Bit(Wrap(x, w, s), 0) <==> x % 2 == 1
  {
    var y := Wrap(x, w, s);
    WrapProps(x, w, s);
    DivModIs(y, 1, y, 0);
    assert Pow2(1) == 2;
    ModPow2(x, 1, w);
    ModPow2(y, 1, w);
  }

  /** Rounding by the dropped bits, as the assignment reads them. */
  lemma ShiftRounds(q: QMode, x: int, w2: nat, s2: bool, sh: nat, qb: bool, rest: bool)
    requires w2 > 0 && Fits(x, w2, s2) && sh > 0
    requires qb <==> if sh > w2 then x < 0 else Bit(x, sh - 1)
    requires rest <==> sh > 1 && Slice(x, if sh - 2 < w2 then sh - 2 else w2 - 1, 0) != 0
    ensures Rounded(q, x, Pow2(sh)) == Shifted(x, sh) + Int(Increment(q, qb, rest, x < 0, Shifted(x, sh) % 2 == 1))
  {
    if sh > w2 {
      DroppedAll(x, w2, s2, sh);
    } else {
      DroppedBits(x, sh);
    }
    IncrementRounds(q, x, Pow2(sh), qb, rest);
  }

  /** The exact result of a conversion, by the direction of the shift. */
  lemma ExactIsShifted(q: QMode, x: int, f2: int, f: int)
    ensures f2 > f ==> Exact(q, x, f2, f) == Rounded(q, x, Pow2(f2 - f))
    ensures f2 <= f ==> Exact(q, x, f2, f) == Shifted(x, f2 - f) == x * Pow2(f - f2)
  {
    assert x * Pow2(0) == x;
    DivModIs(x, 1, x, 0);
    DivModIs(x * Pow2(if f > f2 then f - f2 else 0), 1, x * Pow2(if f > f2 then f - f2 else 0), 0);
  }

  /** The deleted range, as the assignment reads it in its three cases. */
  lemma DeletedRange(x: int, w2: nat, s2: bool, sh: int, w: nat, ones: bool, zeros: bool)
    requires w > 0 && sh + w < w2 && Fits(x, w2, s2)
    requires var p := sh + w;
             if p < 0 then !ones && (zeros <==> x == 0)
             else if p + 1 < w2 then (ones <==> Slice(x, w2 - 1, p) == (Pow2(w2) - 1) / Pow2(p)) && (zeros <==> Slice(x, w2 - 1, p) == 0)
             else (ones <==> Bit(x, p)) && (zeros <==> !Bit(x, p))
    ensures x < 0 ==> (ones <==> Shifted(x, sh) / Pow2(w) == -1)
    ensures x >= 0 ==> (zeros <==> Shifted(x, sh) / Pow2(w) == 0)
    ensures x >= 0 && s2 ==> !ones
  {
    AboveTarget(x, sh, w);
    var p := sh + w;
    if p < 0 {
      assert Pow2(1) == 2;
      Pow2Mono(1, -p);
      MulSign(x, Pow2(-p));
      if x < 0 { MulMono(x, -1, Pow2(-p)); }
    } else {
      UpperRange(x, w2, s2, p);
      AllOnes(w2, p);
      if p + 1 == w2 {
        assert Pow2(1) == 2 && w2 - 1 + 1 - p == 1;
      }
    }
  }

  /** An operand no wider than the target after the shift. */
  lemma WithinTarget(x: int, w2: nat, s2: bool, sh: int, w: nat)
    requires w > 0 && w2 > 0 && sh + w >= w2 && Fits(x, w2, s2)
    ensures Shifted(x, sh) / Pow2(w) == if x < 0 then -1 else 0
    ensures s2 ==> Fits(Shifted(x, sh), w, true)
  {
    AboveTarget(x, sh, w);
    ShiftedAway(x, w2, s2, sh + w);
    if s2 { ShiftedFits(x, w2, sh, w); }
  }

  lemma ShiftedFits(x: int, w2: nat, sh: int, w: nat)
    requires w > 0 && w2 > 0 && sh + w >= w2 && Fits(x, w2, true)
    ensures Fits(Shifted(x, sh), w, true)
  {
    var e := w2 - 1;
    if sh < 0 {
      ScaledBounds(x, e, -sh, w - 1);
    } else {
      Pow2Add(w - 1, sh);
      Pow2Mono(e, w - 1 + sh);
      SignedQuotient(x, Pow2(w - 1), Pow2(sh));
    }
  }

  /** The bits below the sign bit, of the register and of the exact number. */
  lemma LowBits(v: int, r: int, w: nat)
    requires w > 1 && v % Pow2(w) == r % Pow2(w)
    ensures Slice(v, w - 2, 0) == r % Pow2(w - 1)
  {
    LowSlice(v, w - 1);
    ModPow2(v, w - 1, w);
    ModPow2(r, w - 1, w);
  }

  lemma SignOf(x: int, w2: nat, s2: bool)
    requires w2 > 0 && Fits(x, w2, s2)
    ensures (Bit(x, w2 - 1) && s2) <==> x < 0
  {
    if s2 { SignBit(x, w2); }
  }

  /** Truncating to a register before or after a left shift is the same, as long as
      the register in between is no narrower than the last one. */
  lemma WrapMul(x: int, k: nat, w2: nat, s2: bool, w: nat, s: bool)
    requires w <= w2
    ensures Wrap(Wrap(x * Pow2(k), w2, s2), w, s) == Wrap(x * Pow2(k), w, s)
    ensures Wrap(Wrap(x, w2, s2) * Pow2(k), w, s) == Wrap(x * Pow2(k), w, s)
  {
    WrapNarrow(x * Pow2(k), w2, s2, w);
    WrapCong(Wrap(x * Pow2(k), w2, s2), x * Pow2(k), w, s);
    WrapNarrow(x, w2, s2, w);
    ModMul(Wrap(x, w2, s2), x, Pow2(k), Pow2(w));
    WrapCong(Wrap(x, w2, s2) * Pow2(k), x * Pow2(k), w, s);
  }

  lemma WrapNarrow(x: int, w2: nat, s2: bool, w: nat)
    requires w <= w2
    ensures Wrap(x, w2, s2) % Pow2(w) == x % Pow2(w)
  {
    WrapProps(x, w2, s2);
    ModPow2(x, w, w2);
    ModPow2(Wrap(x, w2, s2), w, w2);
  }

  /** A left shift by at least the register's width leaves nothing. */
  lemma ShiftedOut(x: int, k: nat, w: nat, s: bool)
    requires w > 0 && k >= w
    ensures Wrap(x * Pow2(k), w, s) == 0
  {
    Pow2Add(k - w, w);
    MulAssoc(x, Pow2(k - w), Pow2(w));
    MulDiv(x * Pow2(k - w), Pow2(w));
    MulDiv(0, Pow2(w));
    WrapProps(0, w, s);
    WrapCong(x * Pow2(k), 0, w, s);
  }

  /** Acting on the right flags stores the right number. */
  lemma AdjustedIsStored(o: OMode, w: nat, s: bool, r: int, underflow: bool, overflow: bool)
    requires w > 0
    requires o != Around && (underflow || overflow || w > 1 || o != SatSym) ==>
               && (overflow <==> r > Highest(w, s))
               && (underflow <==> r < Lowest(o, w, s))
    requires o != Around && !underflow && !overflow ==> Lowest(Sat, w, s) <= r <= Highest(w, s)
    ensures Stored(o, w, s, r) == Adjusted(o, w, s, Wrap(r, w, s), underflow, overflow)
  {
    WrapProps(r, w, s);
  }

  lemma UnguardedIsStored(w: nat, i: int, s: bool, q: QMode, o: OMode, w2: nat, i2: int, s2: bool, x: int)
    requires w > 0 && w2 > 0 && Fits(x, w2, s2) && !Guard(w, i, s, q, o, w2, i2, s2)
    ensures var r := Exact(q, x, w2 - i2, w - i);
            Stored(o, w, s, r) == Wrap(r, w, s)
  {
    if o != Around { GuardIsSound(w, i, s, q, o, w2, i2, s2, x); }
    AdjustedIsStored(o, w, s, Exact(q, x, w2 - i2, w - i), false, false);
  }

  /** Test the operand bits above the target: from position `sh + w` up for all ones
      and all zeros, and from the position after that for all ones. */
  method TestRanges(x: int, w2: nat, s2: bool, sh: int, w: nat, lD: bool)
    returns (range1AllOnes: bool, range1AllZeros: bool, range2AllOnes: bool)
    requires w > 0 && w2 > 0 && sh + w < w2 && Fits(x, w2, s2)
    requires sh + w >= 0 ==> (lD <==> Bit(x, sh + w))
    ensures x < 0 ==> (range1AllOnes <==> Shifted(x, sh) / Pow2(w) == -1)
    ensures x >= 0 ==> (range1AllZeros <==> Shifted(x, sh) / Pow2(w) == 0)
    ensures x >= 0 && s2 ==> !range1AllOnes
  {
    var pos1, pos2 := sh + w, sh + w + 1;
    var allOnes := Pow2(w2) - 1;
    range1AllOnes, range1AllZeros, range2AllOnes := true, true, true;
    if 0 <= pos2 < w2 {
      range2AllOnes := Slice(x, w2 - 1, pos2) == allOnes / Pow2(pos2);
    } else if pos2 < 0 {
      range2AllOnes := false;
    }
    if pos1 >= 0 && pos2 < w2 {
      var range1 := Slice(x, w2 - 1, pos1);
      range1AllOnes := range1 == allOnes / Pow2(pos1);
      range1AllZeros := range1 == 0;
    } else if pos2 == w2 {
      range1AllOnes := lD;
      range1AllZeros := !lD;
    } else if pos1 < 0 {
      range1AllZeros := x == 0;
      range1AllOnes := false;
    }
    DeletedRange(x, w2, s2, sh, w, range1AllOnes, range1AllZeros);
  }

  class Fixed {
    const w: nat
    const i: int
    const s: bool
    const q: QMode
    const o: OMode
    var v: int

    ghost predicate Valid()
      reads this
    {
      w > 0 && Fits(v, w, s)
    }

    constructor (w: nat, i: int, s: bool, q: QMode, o: OMode)
      requires w > 0
      ensures Valid() && this.w == w && this.i == i && this.s == s && this.q == q && this.o == o && v == 0
    {
      this.w, this.i, this.s, this.q, this.o, this.v := w, i, s, q, o, 0;
      new;
      WrapProps(0, w, s);
    }

    /** Saturate, according to the flags. */
    method OverflowAdjust(underflow: bool, overflow: bool)
      requires Valid()
      modifies this`v
      ensures Valid()
      ensures v == Adjusted(o, w, s, old(v), underflow, overflow)
    {
      if !underflow && !overflow { return; }
      if s { MostNegative(w); }
      if o == Around {
        return;
      } else if o == SatZero {
        v := 0;
      } else if s {
        if overflow {
          v := Wrap(1, w, s);
          v := Wrap(v * Pow2(w - 1), w, s);
          v := -1 - v;
        } else if underflow {
          v := Wrap(1, w, s);
          v := Wrap(v * Pow2(w - 1), w, s);
          if o == SatSym {
            v := if Bit(v, 0) then v else v + 1;
          }
        }
      } else {
        if overflow {
          v := Pow2(w) - 1;
        } else if underflow {
          v := 0;
        }
      }
    }

    /** Round the content up if the quantization mode asks for it; say whether that
        wrapped a register full of ones. */
    method QuantizationAdjust(qb0: bool, r: bool, neg: bool) returns (carry: bool)
      requires Valid()
      modifies this`v
      ensures Valid()
      ensures var up := Increment(q, qb0, r, neg, Bit(old(v), 0));
              && v == Wrap(old(v) + Int(up), w, s)
              && (carry <==> up && old(v) % Pow2(w) == Pow2(w) - 1)
    {
      WrapProps(v, w, s);
      carry := Bit(v, w - 1);
      if q == Trn { return false; }
      var qb := qb0;
      if q == RndZero {
        qb := qb && (neg || r);
      } else if q == RndMinInf {
        qb := qb && r;
      } else if q == RndInf {
        qb := qb && (!neg || r);
      } else if q == RndConv {
        qb := qb && (Bit(v, 0) || r);
      } else if q == TrnZero {
        qb := neg && (qb || r);
      }
      CarryOut(v, qb, w, s);
      WrapProps(v + Int(qb), w, s);
      v := Wrap(v + Int(qb), w, s);
      carry := carry && !Bit(v, w - 1);
    }

    /** The last step of overflow detection, common to all conversions. */
    method CombineFlags(deletedZeros: bool, deletedOnes: bool, negSrc: bool, newSignBit: bool, s2: bool, isneg: bool, ghost f: Facts)
      returns (underflow: bool, overflow: bool)
      requires Valid() && f.w == w && f.s == s && f.s2 == s2 && f.sym == (o == SatSym) && f.neg == isneg
      requires v % Pow2(w) == f.Rounding() % Pow2(w) && newSignBit == f.NewSign()
      ensures overflow == f.Overflow(deletedZeros)
      ensures underflow == f.Underflow(deletedOnes, negSrc)
    {
      var negTrg := s && newSignBit;
      overflow := (negTrg || !deletedZeros) && !isneg;
      underflow := (!negTrg || !deletedOnes) && negSrc;
      if o == SatSym && s2 && s {
        if w > 1 { LowBits(v, f.Rounding(), w); }
        underflow := underflow || (negSrc && (if w > 1 then Slice(v, w - 2, 0) == 0 else true));
      }
    }

    /** Decide from the deleted bits of the operand, the carry and the new sign bit
        whether the exact number `fl + up` is out of range. */
    method DetectOverflow(x: int, w2: nat, s2: bool, sh: int, isneg: bool, carry: bool, ghost up: bool)
      returns (underflow: bool, overflow: bool)
      requires Valid() && w2 > 0 && Fits(x, w2, s2) && (isneg <==> x < 0)
      requires v == Wrap(Shifted(x, sh) + Int(up), w, s)
      requires carry <==> up && Shifted(x, sh) % Pow2(w) == Pow2(w) - 1
      ensures overflow <==> Shifted(x, sh) + Int(up) > Highest(w, s)
      ensures underflow <==> Shifted(x, sh) + Int(up) < Lowest(if o == SatSym then SatSym else Sat, w, s)
    {
      ghost var f := Facts(w, s, s2, o == SatSym, isneg, Shifted(x, sh), up, carry);
      ShiftedSign(x, sh);
      StoredSign(f, v);
      var newSignBit := Bit(v, w - 1);
      var deletedZeros, deletedOnes, negSrc := DeletedBits(x, w2, s2, sh, isneg, carry, newSignBit, f);
      underflow, overflow := CombineFlags(deletedZeros, deletedOnes, negSrc, newSignBit, s2, isneg, f);
    }

    /** What the deleted bits of the operand tell. */
    method DeletedBits(x: int, w2: nat, s2: bool, sh: int, isneg: bool, carry: bool, newSignBit: bool, ghost f: Facts)
      returns (deletedZeros: bool, deletedOnes: bool, negSrc: bool)
      requires Valid() && w2 > 0 && Fits(x, w2, s2) && isneg == (x < 0) && f.Valid()
      requires f == Facts(w, s, s2, o == SatSym, isneg, Shifted(x, sh), f.up, carry) && newSignBit == f.NewSign()
      ensures f.Overflow(deletedZeros) <==> f.Rounding() > Highest(w, s)
      ensures f.Underflow(deletedOnes, negSrc) <==> f.Rounding() < Lowest(if o == SatSym then SatSym else Sat, w, s)
    {
      AboveTarget(x, sh, w);
      deletedZeros := s2 || !carry;
      deletedOnes := true;
      negSrc := isneg;
      var pos1 := sh + w;
      var pos2 := sh + w + 1;
      var lD := 0 <= pos1 < w2 && Bit(x, pos1);
      if pos1 < w2 {
        var range1AllOnes, range1AllZeros, range2AllOnes := TestRanges(x, w2, s2, sh, w, lD);
        deletedZeros := deletedZeros && (if carry then range1AllOnes else range1AllZeros);
        deletedOnes := if carry then range2AllOnes && (pos1 < 0 || !lD) else range1AllOnes;
        negSrc := isneg && !(carry && range1AllOnes);
        DecideInside(f, range1AllOnes, range1AllZeros, deletedOnes);
      } else {
        negSrc := isneg && newSignBit;
        WithinTarget(x, w2, s2, sh, w);
        DecideBeyond(f);
      }
    }

    /** Align an operand with bits below the target's last place: drop them and round.
        The register then holds the exact number, wrapped. */
    method ShiftRight(x: int, w2: nat, s2: bool, shAmt: nat, isneg: bool, signbit: bool)
      returns (carry: bool, ghost up: bool)
      requires Valid() && w2 > 0 && Fits(x, w2, s2) && shAmt > 0
      requires signbit == Bit(x, w2 - 1) && isneg == (signbit && s2)
      modifies this`v
      ensures Valid()
      ensures v == Wrap(Shifted(x, shAmt) + Int(up), w, s)
      ensures Shifted(x, shAmt) + Int(up) == Rounded(q, x, Pow2(shAmt))
      ensures carry <==> up && Shifted(x, shAmt) % Pow2(w) == Pow2(w) - 1
    {
      ghost var fl := Shifted(x, shAmt);
      carry, up := false, false;
      SignOf(x, w2, s2);
      WrapProps(fl, w, s);
      if shAmt < w2 {
        v := Wrap(x / Pow2(shAmt), w, s);
      } else {
        ShiftedAway(x, w2, s2, shAmt);
        v := Wrap(if isneg then -1 else 0, w, s);
      }
      if q != Trn && !(q == TrnZero && !s2) {
        var qb := if shAmt > w2 then s2 && signbit else Bit(x, shAmt - 1);
        var hi := if shAmt - 2 < w2 then shAmt - 2 else w2 - 1;
        var r := if shAmt > 1 then Slice(x, hi, 0) != 0 else false;
        ShiftRounds(q, x, w2, s2, shAmt, qb, r);
        LowestBit(fl, w, s);
        up := Increment(q, qb, r, isneg, fl % 2 == 1);
        WrapAdd(fl, Int(up), w, s);
        carry := QuantizationAdjust(qb, r, isneg);
      }
    }

    /** Align an operand whose last place is above the target's. */
    method ShiftLeft(x: int, w2: nat, s2: bool, shAmt: nat)
      requires Valid() && w2 > 0
      modifies this`v
      ensures Valid()
      ensures v == Wrap(x * Pow2(shAmt), w, s)
    {
      WrapProps(x * Pow2(shAmt), w, s);
      if shAmt < w {
        if w > w2 {
          WrapMul(x, shAmt, w, s, w, s);
          v := Wrap(x, w, s);
          v := Wrap(v * Pow2(shAmt), w, s);
        } else {
          WrapMul(x, shAmt, w2, s2, w, s);
          v := Wrap(Wrap(x * Pow2(shAmt), w2, s2), w, s);
        }
      } else {
        ShiftedOut(x, shAmt, w, s);
        v := 0;
      }
    }

    /** The first half of an assignment: align the operand with this register's last
        place and round. */
    method AlignAndRound(x: int, w2: nat, i2: int, s2: bool, isneg: bool, signbit: bool)
      returns (carry: bool, ghost up: bool)
      requires Valid() && w2 > 0 && Fits(x, w2, s2)
      requires signbit == Bit(x, w2 - 1) && isneg == (signbit && s2)
      modifies this`v
      ensures Valid()
      ensures var sh := (w2 - i2) - (w - i);
              && v == Wrap(Shifted(x, sh) + Int(up), w, s)
              && Shifted(x, sh) + Int(up) == Exact(q, x, w2 - i2, w - i)
              && (carry <==> up && Shifted(x, sh) % Pow2(w) == Pow2(w) - 1)
    {
      var f, f2 := w - i, w2 - i2;
      carry, up := false, false;
      ExactIsShifted(q, x, f2, f);
      if f2 == f {
        WrapProps(x, w, s);
        v := Wrap(x, w, s);
      } else if f2 > f {
        carry, up := ShiftRight(x, w2, s2, f2 - f, isneg, signbit);
      } else {
        ShiftLeft(x, w2, s2, f - f2);
      }
    }

    /** The second half of an assignment: bring the rounded number into range. */
    method Saturate(x: int, w2: nat, i2: int, s2: bool, isneg: bool, carry: bool, ghost up: bool)
      requires Valid() && w2 > 0 && Fits(x, w2, s2) && (isneg <==> x < 0)
      requires var sh := (w2 - i2) - (w - i);
               && v == Wrap(Shifted(x, sh) + Int(up), w, s)
               && Shifted(x, sh) + Int(up) == Exact(q, x, w2 - i2, w - i)
               && (carry <==> up && Shifted(x, sh) % Pow2(w) == Pow2(w) - 1)
      modifies this`v
      ensures Valid()
      ensures v == Stored(o, w, s, Exact(q, x, w2 - i2, w - i))
    {
      if Guard(w, i, s, q, o, w2, i2, s2) {
        var underflow, overflow := DetectOverflow(x, w2, s2, (w2 - i2) - (w - i), isneg, carry, up);
        OverflowAdjust(underflow, overflow);
        AdjustedIsStored(o, w, s, Exact(q, x, w2 - i2, w - i), underflow, overflow);
      } else {
        UnguardedIsStored(w, i, s, q, o, w2, i2, s2, x);
      }
    }

    /** Assignment from a register of any other type, or from this one. */
    method Assign(op: Fixed)
      requires Valid() && op.Valid()
      modifies this`v
      ensures Valid()
      ensures v == Assigned(q, o, w, s, w - i, old(op.v), op.w - op.i)
      ensures !Degenerate(o, w, s) ==> Meets(q, o, w, s, w - i, old(op.v), op.w - op.i, v)
    {
      if op.v == 0 { v := 0; }
      AssignedMeets(q, o, w, s, w - i, op.v, op.w - op.i);
      Convert(op.v, op.w, op.i, op.s);
    }

    /** Both halves of an assignment, for an operand with content `x`. */
    method Convert(x: int, w2: nat, i2: int, s2: bool)
      requires Valid() && w2 > 0 && Fits(x, w2, s2)
      modifies this`v
      ensures Valid()
      ensures v == Assigned(q, o, w, s, w - i, x, w2 - i2)
    {
      var signbit := Bit(x, w2 - 1);
      var isneg := signbit && s2;
      SignOf(x, w2, s2);
      var carry, up := AlignAndRound(x, w2, i2, s2, isneg, signbit);
      Saturate(x, w2, i2, s2, isneg, carry, up);
    }

    /** Shifting left moves the content without a look at the modes. */
    method Shl(sh: nat) returns (r: Fixed)
      requires Valid()
      ensures r.Valid() && fresh(r)
      ensures r.w == w && r.i == i && r.s == s && r.q == q && r.o == o
      ensures r.v == Wrap(v * Pow2(sh), w, s)
    {
      WrapProps(v * Pow2(sh), w, s);
      r := new Fixed(w, i, s, q, o);
      r.v := Wrap(v * Pow2(sh), w, s);
    }
  }
}
