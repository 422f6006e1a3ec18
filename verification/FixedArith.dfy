/** Arithmetic on fixed-point registers: the result types lose nothing, and decimal
    printing of the fraction is exact. */
module FixedArith {
  import opened Bits
  import opened FixedSpec
  import opened FixedFlags
  import opened ApFixed

  /** The parameters of a fixed-point type. */
  datatype Type = Type(w: int, i: int, s: bool) {
    function F(): int { w - i }
  }

  /** The integer width both operands need once one of them is signed. */
  function CommonInteger(a: Type, b: Type): int {
    Max(a.i + Int(b.s && !a.s), b.i + Int(a.s && !b.s))
  }

  function PlusType(a: Type, b: Type): Type {
    Type(CommonInteger(a, b) + 1 + Max(a.F(), b.F()), CommonInteger(a, b) + 1, a.s || b.s)
  }

  function MinusType(a: Type, b: Type): Type {
    Type(CommonInteger(a, b) + 1 + Max(a.F(), b.F()), CommonInteger(a, b) + 1, true)
  }

  function MultType(a: Type, b: Type): Type {
    Type(a.w + b.w, a.i + b.i, a.s || b.s)
  }

  /** A content converted to a result type, which has the default modes. */
  function Operand(v: int, a: Type, r: Type): int
    requires r.w > 0
  {
    Assigned(Trn, Around, r.w, r.s, r.F(), v, a.F())
  }

  function Plus(v: int, a: Type, u: int, b: Type): int
    requires a.w > 0 && b.w > 0
  {
    var r := PlusType(a, b);
    Wrap(Operand(v, a, r) + Operand(u, b, r), r.w, r.s)
  }

  function Minus(v: int, a: Type, u: int, b: Type): int
    requires a.w > 0 && b.w > 0
  {
    var r := MinusType(a, b);
    Wrap(Operand(v, a, r) - Operand(u, b, r), r.w, r.s)
  }

  /** The product is taken in the result register, which first holds the left operand. */
  function Mult(v: int, a: Type, u: int, b: Type): int
    requires a.w > 0 && b.w > 0
  {
    var r := MultType(a, b);
    Wrap(Wrap(v, r.w, r.s) * u, r.w, r.s)
  }

  predicate Holds(v: int, a: Type) {
    a.w > 0 && Fits(v, a.w, a.s)
  }

  /** An operand of `e` value bits or fewer, once converted. */
  lemma OperandExact(v: int, a: Type, r: Type, e: nat)
    requires Holds(v, a) && r.w > 0 && r.F() >= a.F() && (a.s ==> r.s)
    requires a.w - Int(a.s) + (r.F() - a.F()) <= e <= r.w - Int(r.s)
    ensures var x := v * Pow2(r.F() - a.F());
            Operand(v, a, r) == x && x < Pow2(e) && (if a.s then 0 <= x + Pow2(e) else 0 <= x)
  {
    var k := r.F() - a.F();
    ExactIsShifted(Trn, v, a.F(), r.F());
    ScaledBounds(v, a.w - Int(a.s), k, e);
    if !a.s { MulMono(0, v, Pow2(k)); }
    Pow2Mono(e, r.w - Int(r.s));
    WrapProps(v * Pow2(k), r.w, r.s);
  }

  /** Sums and differences are exact, whatever the two operand types are. */
  lemma PlusExact(v: int, a: Type, u: int, b: Type)
    requires Holds(v, a) && Holds(u, b)
    ensures var r := PlusType(a, b);
            Holds(Plus(v, a, u, b), r) &&
            Plus(v, a, u, b) == v * Pow2(r.F() - a.F()) + u * Pow2(r.F() - b.F())
  {
    var r := PlusType(a, b);
    OperandExact(v, a, r, r.w - 1 - Int(r.s));
    OperandExact(u, b, r, r.w - 1 - Int(r.s));
    SumFits(v * Pow2(r.F() - a.F()), u * Pow2(r.F() - b.F()), r.w, r.s, r.w - 1 - Int(r.s));
  }

  lemma MinusExact(v: int, a: Type, u: int, b: Type)
    requires Holds(v, a) && Holds(u, b)
    ensures var r := MinusType(a, b);
            Holds(Minus(v, a, u, b), r) &&
            Minus(v, a, u, b) == v * Pow2(r.F() - a.F()) - u * Pow2(r.F() - b.F())
  {
    var r := MinusType(a, b);
    var e: nat := r.w - 1 - Int(a.s || b.s);
    OperandExact(v, a, r, e);
    OperandExact(u, b, r, e);
    DifferenceFits(v * Pow2(r.F() - a.F()), u * Pow2(r.F() - b.F()), r.w, e, a.s || b.s);
  }

  lemma SumFits(x: int, y: int, w: nat, s: bool, e: nat)
    requires e + 1 + Int(s) == w && x < Pow2(e) && y < Pow2(e)
    requires if s then 0 <= x + Pow2(e) && 0 <= y + Pow2(e) else 0 <= x && 0 <= y
    ensures Fits(x + y, w, s) && Wrap(x + y, w, s) == x + y
  {
    assert Pow2(e + 1) == 2 * Pow2(e);
    WrapProps(x + y, w, s);
  }

  lemma DifferenceFits(x: int, y: int, w: nat, e: nat, s: bool)
    requires e + 1 + Int(s) == w && x < Pow2(e) && y < Pow2(e)
    requires if s then 0 <= x + Pow2(e) && 0 <= y + Pow2(e) else 0 <= x && 0 <= y
    ensures Fits(x - y, w, true) && Wrap(x - y, w, true) == x - y
  {
    assert Pow2(e + 1) == 2 * Pow2(e);
    WrapProps(x - y, w, true);
  }

  /** So are products. */
  lemma MultExact(v: int, a: Type, u: int, b: Type)
    requires Holds(v, a) && Holds(u, b)
    ensures Holds(Mult(v, a, u, b), MultType(a, b)) && Mult(v, a, u, b) == v * u
    ensures MultType(a, b).F() == a.F() + b.F()
  {
    var r := MultType(a, b);
    ProductFits(v, u, a.w, a.s, b.w, b.s);
    InPlaceProduct(v, u, r.w, r.s);
  }

  lemma ProductFits(v: int, u: int, w1: nat, s1: bool, w2: nat, s2: bool)
    requires w1 > 0 && w2 > 0 && Fits(v, w1, s1) && Fits(u, w2, s2)
    ensures Fits(v, w1 + w2, s1 || s2) && Fits(v * u, w1 + w2, s1 || s2)
  {
    var e1: nat, e2: nat, e := w1 - Int(s1), w2 - Int(s2), w1 + w2 - Int(s1 || s2);
    ProductBits(v, u, e1, e2);
    Pow2Mono(e1 + e2, e);
    Pow2Mono(e1, e);
  }

  lemma InPlaceProduct(v: int, u: int, w: nat, s: bool)
    requires Fits(v, w, s) && Fits(v * u, w, s)
    ensures Wrap(Wrap(v, w, s) * u, w, s) == v * u
  {
    WrapProps(v, w, s);
    WrapProps(v * u, w, s);
  }

  lemma ProductBits(v: int, u: int, e1: nat, e2: nat)
    requires 0 <= v + Pow2(e1) && v < Pow2(e1) && 0 <= u + Pow2(e2) && u < Pow2(e2)
    ensures 0 <= v * u + Pow2(e1 + e2) && v * u <= Pow2(e1 + e2)
    ensures 0 <= u || 0 <= v ==> v * u < Pow2(e1 + e2)
    ensures 0 <= u && 0 <= v ==> 0 <= v * u
  {
    ProductBound(v, u, Pow2(e1), Pow2(e2));
    Pow2Add(e1, e2);
  }

  lemma ProductBound(v: int, u: int, p: nat, q: nat)
    requires 0 <= v + p && v < p && 0 <= u + q && u < q
    ensures 0 <= v * u + p * q && v * u <= p * q
    ensures 0 <= u || 0 <= v ==> v * u < p * q
    ensures 0 <= u && 0 <= v ==> 0 <= v * u
  {
    if 0 <= v {
      ProductBoundRight(v, u, p, q);
    } else if 0 <= u {
      ProductBoundRight(u, v, q, p);
    } else {
      ProductBoundLeft(-v, -u, p, q);
    }
  }

  lemma ProductBoundLeft(v: nat, u: nat, p: nat, q: nat)
    requires v <= p && u <= q
    ensures 0 <= v * u <= p * q
  {
    MulMono(v, p, u);
    MulMono(u, q, p);
    MulMono(0, u, v);
  }

  lemma ProductBoundRight(v: nat, u: int, p: nat, q: nat)
    requires v < p && -(q as int) <= u < q
    ensures -(p * q) <= v * u < p * q
    ensures 0 <= u ==> 0 <= v * u
  {
    if 0 <= u {
      ProductBoundLeft(v, u, p - 1, q);
      MulSub(p, 1, q);
    } else {
      ProductBoundLeft(v, -u, p, q);
      assert v * (-u) == -(v * u);
      MulMono(1, q, p);
    }
  }

  // ----- no wider than needed -----

  /** Every content of `a` fits a type with `i` integer and `f` fractional bits. */
  ghost predicate HoldsAll(a: Type, i: int, f: int, s: bool)
    requires f >= a.F() && i + f >= 1
  {
    forall v :: Holds(v, a) ==> Fits(v * Pow2(f - a.F()), i + f, s)
  }

  /** That takes as many integer bits as `a` has, and one more if only the result is
      signed. */
  lemma HoldsAllExactly(a: Type, i: int, f: int, s: bool)
    requires a.w > 0 && f >= a.F() && i + f >= 1 && (a.s ==> s)
    ensures HoldsAll(a, i, f, s) <==> a.i + Int(s && !a.s) <= i
  {
    var k: nat := f - a.F();
    if a.i + Int(s && !a.s) <= i {
      forall v | Holds(v, a) ensures Fits(v * Pow2(k), i + f, s) {
        ScaledFitsType(v, a.w, a.s, k, i + f, s);
      }
    } else {
      var v := Extreme(a);
      ExtremeFails(a, k, i + f, s);
      assert Holds(v, a) && !Fits(v * Pow2(k), i + f, s);
    }
  }

  lemma ScaledFitsType(v: int, w: nat, s: bool, k: nat, w': nat, s': bool)
    requires w > 0 && w' > 0 && Fits(v, w, s) && (s ==> s') && w + k + Int(s' && !s) <= w'
    ensures Fits(v * Pow2(k), w', s')
  {
    ScaledBounds(v, w - Int(s), k, w' - Int(s'));
    if !s { MulMono(0, v, Pow2(k)); }
    Pow2Mono(w' - Int(s'), w');
  }

  /** The content farthest from zero. */
  function Extreme(a: Type): int
    requires a.w > 0
  {
    if a.s then 0 - Pow2(a.w - 1) else Pow2(a.w) - 1
  }

  lemma ExtremeFails(a: Type, k: nat, w': nat, s: bool)
    requires a.w > 0 && w' > 0 && (a.s ==> s) && a.w + k + Int(s && !a.s) > w'
    ensures Holds(Extreme(a), a) && !Fits(Extreme(a) * Pow2(k), w', s)
  {
    if a.s {
      LowestFails(a.w, k, w');
    } else {
      HighestFails(a.w, k, w', s);
    }
  }

  lemma LowestFails(w: nat, k: nat, w': nat)
    requires w > 0 && w' > 0 && w + k > w'
    ensures !Fits((0 - Pow2(w - 1)) * Pow2(k), w', true)
  {
    Pow2Add(w - 1, k);
    MulSub(0, Pow2(w - 1), Pow2(k));
    Pow2Mono(w', w - 1 + k);
  }

  lemma HighestFails(w: nat, k: nat, w': nat, s: bool)
    requires w > 0 && w' > 0 && w + k + Int(s) > w'
    ensures !Fits((Pow2(w) - 1) * Pow2(k), w', s)
  {
    Pow2Add(w - 1, k);
    MulMono(Pow2(w - 1), Pow2(w) - 1, Pow2(k));
    Pow2Mono(w' - Int(s), w - 1 + k);
  }

  /** The type of sums has one integer bit more than the least that hold every content of
      both operands, with its sign, and the least fractional bits that hold both units. */
  lemma PlusTypeLeast(a: Type, b: Type, i: int, f: int)
    requires a.w > 0 && b.w > 0
    ensures var r := PlusType(a, b);
            && r.s == (a.s || b.s) && r.w == r.i + r.F()
            && (a.F() <= f && b.F() <= f <==> r.F() <= f)
            && (i + r.F() >= 1 ==> (HoldsAll(a, i, r.F(), r.s) && HoldsAll(b, i, r.F(), r.s) <==> r.i - 1 <= i))
  {
    var r := PlusType(a, b);
    if i + r.F() >= 1 {
      HoldsAllExactly(a, i, r.F(), r.s);
      HoldsAllExactly(b, i, r.F(), r.s);
    }
  }

  /** The type of differences is the same, but always signed. */
  lemma MinusTypeIs(a: Type, b: Type)
    ensures MinusType(a, b) == PlusType(a, b).(s := true)
  {
  }

  /** With operands of one type, one bit less than the sum's type has is too little. */
  lemma SumNeedsAll(t: Type) returns (v: int, u: int)
    requires t.w > 0
    ensures Holds(v, t) && Holds(u, t)
    ensures PlusType(t, t).w > 1 && !Fits(v + u, PlusType(t, t).w - 1, PlusType(t, t).s)
  {
    v, u := Extreme(t), Extreme(t);
    assert Pow2(t.w) == 2 * Pow2(t.w - 1);
  }

  lemma DifferenceNeedsAll(t: Type) returns (v: int, u: int)
    requires t.w > 0
    ensures Holds(v, t) && Holds(u, t)
    ensures MinusType(t, t).w > 1 && !Fits(v - u, MinusType(t, t).w - 1, MinusType(t, t).s)
  {
    v, u := if t.s then Pow2(t.w - 1) - 1 else Pow2(t.w) - 1, if t.s then 0 - Pow2(t.w - 1) else 0;
    assert Pow2(t.w) == 2 * Pow2(t.w - 1);
  }

  lemma ProductNeedsAll(t: Type) returns (v: int, u: int)
    requires t.w >= 2
    ensures Holds(v, t) && Holds(u, t)
    ensures MultType(t, t).w > 1 && !Fits(v * u, MultType(t, t).w - 1, MultType(t, t).s)
  {
    v, u := Extreme(t), Extreme(t);
    if t.s {
      Pow2Add(t.w - 1, t.w - 1);
      assert (0 - Pow2(t.w - 1)) * (0 - Pow2(t.w - 1)) == Pow2(t.w - 1) * Pow2(t.w - 1);
      assert 2 * t.w - 2 == t.w - 1 + (t.w - 1);
    } else {
      Pow2Add(t.w, t.w - 1);
      Pow2Mono(2, t.w);
      assert Pow2(2) == 4;
      SquareLarge(Pow2(t.w - 1));
    }
  }

  lemma SquareLarge(h: nat)
    requires h >= 2
    ensures (2 * h - 1) * (2 * h - 1) >= (2 * h) * h
  {
    assert (2 * h - 1) * (2 * h - 1) == 4 * (h * h) - 4 * h + 1;
    MulMono(2, h, h);
    assert (2 * h) * h == 2 * (h * h);
  }

  // ----- decimal digits of the fraction -----

  /** Digits spell a number in the usual way, in tens. */
  lemma {:induction false} SpelledTogether(a: seq<int>, b: seq<int>)
    ensures Spelled(a + b) == Spelled(a) * Pow10(|b|) + Spelled(b)
    ensures Pow10(1) == 10 && forall d :: Spelled([d]) == d
  {
    if b == [] {
      assert a + b == a;
    } else {
      var init, d := b[..|b| - 1], b[|b| - 1];
      SpelledTogether(a, init);
      assert (a + b)[..|a + b| - 1] == a + init;
      TensUp(Spelled(a), Pow10(|init|));
    }
  }

  lemma TensUp(x: int, p: int)
    ensures 10 * (x * p) == x * (10 * p)
  {
  }

  function Pow10(n: nat): (p: nat)
    ensures p > 0
  {
    if n == 0 then 1 else 10 * Pow10(n - 1)
  }

  /** The number that decimal digits after the point spell, in units of the last one. */
  function Spelled(digits: seq<int>): int {
    if digits == [] then 0 else 10 * Spelled(digits[..|digits| - 1]) + digits[|digits| - 1]
  }

  /** One step: a digit below ten, and a rest divisible by one more power of two. */
  lemma NextDigit(rest: nat, f: nat, k: nat)
    requires 0 < rest < Pow2(f) && k <= f && rest % Pow2(k) == 0
    ensures k < f
    ensures 0 <= (rest * 10) / Pow2(f) < 10
    ensures ((rest * 10) % Pow2(f)) % Pow2(k + 1) == 0
    ensures (rest * 10) % Pow2(f) == 0 ==> (rest * 10) / Pow2(f) != 0
  {
    if k == f { DivModIs(rest, Pow2(f), 0, rest); }
    DivBounds(rest * 10, 0, 10, Pow2(f));
    var j := rest / Pow2(k);
    assert rest * 10 == (5 * j) * Pow2(k + 1) by {
      assert rest == j * Pow2(k);
      DoubleFive(j, Pow2(k));
    }
    MulDiv(5 * j, Pow2(k + 1));
    ModPow2(rest * 10, k + 1, f);
  }

  lemma DoubleFive(j: int, p: int)
    ensures (j * p) * 10 == (5 * j) * (2 * p)
  {
  }

  ghost predicate Balanced(x: int, p: int, rest: int, frac: int, ten: int) {
    x * p + rest == frac * ten
  }

  /** What holds of the digits emitted and the rest that is left. */
  ghost predicate Emitted(digits: seq<int>, rest: int, frac: nat, f: nat) {
    && 0 <= rest < Pow2(f) && |digits| <= f
    && rest % Pow2(|digits|) == 0
    && (forall j :: 0 <= j < |digits| ==> 0 <= digits[j] < 10)
    && Balanced(Spelled(digits), Pow2(f), rest, frac, Pow10(|digits|))
    && (rest == 0 && digits != [] ==> digits[|digits| - 1] != 0)
  }

  lemma EmitStep(digits: seq<int>, rest: int, frac: nat, f: nat)
    requires Emitted(digits, rest, frac, f) && rest != 0
    ensures |digits| < f
    ensures Emitted(digits + [(rest * 10) / Pow2(f)], (rest * 10) % Pow2(f), frac, f)
  {
    var digit := (rest * 10) / Pow2(f);
    NextDigit(rest, f, |digits|);
    SpelledValue(Spelled(digits), digit, Pow2(f), rest, frac, Pow10(|digits|));
    SpelledNext(digits, digit);
    var more, rest1 := digits + [digit], (rest * 10) % Pow2(f);
    assert |more| == |digits| + 1 && more[|more| - 1] == digit;
    assert Balanced(Spelled(more), Pow2(f), rest1, frac, Pow10(|more|));
  }

  lemma SpelledNext(digits: seq<int>, digit: int)
    ensures Spelled(digits + [digit]) == 10 * Spelled(digits) + digit
    ensures Pow10(|digits + [digit]|) == 10 * Pow10(|digits|)
  {
    assert (digits + [digit])[..|digits|] == digits;
  }

  lemma SpelledValue(x: int, digit: int, p: int, rest: int, frac: int, ten: int)
    requires p > 0 && digit == (rest * 10) / p
    requires Balanced(x, p, rest, frac, ten)
    ensures Balanced(10 * x + digit, p, (rest * 10) % p, frac, 10 * ten)
  {
    assert rest * 10 == digit * p + (rest * 10) % p;
    SpellMul(x, digit, p, frac, ten);
  }

  lemma SpellMul(x: int, digit: int, p: int, frac: int, ten: int)
    ensures (10 * x + digit) * p == 10 * (x * p) + digit * p
    ensures frac * (10 * ten) == 10 * (frac * ten)
  {
  }

  /** The decimal digits of the fraction `frac / 2^f`: multiply by ten, emit the
      integer part, keep the rest.  It stops after at most `f` digits, and what it
      has printed is the fraction itself. */
  method DecimalFraction(frac: nat, f: nat) returns (digits: seq<int>)
    requires frac < Pow2(f)
    ensures |digits| <= f
    ensures forall j :: 0 <= j < |digits| ==> 0 <= digits[j] < 10
    ensures Spelled(digits) * Pow2(f) == frac * Pow10(|digits|)
    ensures digits != [] ==> digits[|digits| - 1] != 0
  {
    var rest: int := frac;
    digits := [];
    DivModIs(frac, 1, frac, 0);
    while rest != 0
      invariant Emitted(digits, rest, frac, f)
      decreases f - |digits|
    {
      EmitStep(digits, rest, frac, f);
      var digit := (rest * 10) / Pow2(f);
      digits := digits + [digit];
      rest := (rest * 10) % Pow2(f);
    }
  }
}
