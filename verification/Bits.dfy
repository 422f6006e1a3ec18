/** Powers of two, and the bits and slices of two's-complement integers.

    The sources keep numbers in fixed-width registers.  A register's content is
    modelled here by the integer it denotes; because Dafny's division by a
    positive number rounds down, `(x / 2^i) % 2` is bit `i` of the infinite
    two's-complement representation of `x`, negative numbers included. */
module Bits {

  function Pow2(n: nat): (p: nat)
    ensures 1 <= p
  {
    if n == 0 then 1 else 2 * Pow2(n - 1)
  }

  /** Bit `i` of `x`. */
  predicate Bit(x: int, i: nat) {
    (x / Pow2(i)) % 2 == 1
  }

  /** Bits `lo` to `hi` of `x`, read as an unsigned number. */
  function Slice(x: int, hi: int, lo: nat): (s: nat)
    requires lo <= hi + 1
  {
    (x / Pow2(lo)) % Pow2(hi + 1 - lo)
  }

  /** `x` with its bits `lo` to `hi` replaced by the lowest bits of `y`. */
  function SetSlice(x: int, hi: int, lo: nat, y: int): int
    requires lo <= hi + 1
  {
    x + (y % Pow2(hi + 1 - lo) - Slice(x, hi, lo)) * Pow2(lo)
  }

  /** What is stored when `x` is assigned to a register of `w` bits, signed or not. */
  function Wrap(x: int, w: nat, signed: bool): int {
    Residue(x, if signed && w > 0 then Pow2(w - 1) else 0, Pow2(w))
  }

  /** The number congruent to `x` modulo `m` in the window from `-h` to `m - h - 1`. */
  function Residue(x: int, h: nat, m: nat): int
    requires m > 0
  {
    (x + h) % m - h
  }

  /** The numbers a register of `w` bits holds. */
  predicate Fits(x: int, w: nat, signed: bool) {
    if signed && w > 0 then 0 <= x + Pow2(w - 1) < Pow2(w) else 0 <= x < Pow2(w)
  }

  // ----- arithmetic -----

  function Min(x: int, y: int): int {
    if x < y then x else y
  }

  function Max(x: int, y: int): int {
    if x < y then y else x
  }

  lemma MulSub(x: int, y: int, z: int)
    ensures (x - y) * z == x * z - y * z
  {
  }

  lemma MulAssoc(x: int, y: int, z: int)
    ensures x * (y * z) == (x * y) * z
  {
  }

  lemma DoubleScale(x: int, y: int)
    ensures x * (2 * y) == (2 * x) * y
  {
  }

  lemma {:induction false} Pow2Add(a: nat, b: nat)
    ensures Pow2(a + b) == Pow2(a) * Pow2(b)
  {
    if a != 0 {
      Pow2Add(a - 1, b);
      assert Pow2(a + b) == 2 * (Pow2(a - 1) * Pow2(b));
    }
  }

  lemma {:induction false} Pow2Mono(a: nat, b: nat)
    requires a <= b
    ensures Pow2(a) <= Pow2(b)
    ensures a < b ==> 2 * Pow2(a) <= Pow2(b)
    decreases b
  {
    if a < b {
      Pow2Mono(a, b - 1);
    }
  }

  lemma MulMono(a: int, b: int, c: int)
    requires a <= b && 0 <= c
    ensures a * c <= b * c
    ensures c * a <= c * b
  {
  }

  /** Division is determined by its quotient and remainder. */
  lemma DivModIs(x: int, d: int, q: int, r: int)
    requires 0 <= r < d
    requires x == q * d + r
    ensures x / d == q
    ensures x % d == r
  {
    var q', r' := x / d, x % d;
    assert x == q' * d + r';
    assert (q - q') * d == r' - r;
    if q > q' {
      MulMono(1, q - q', d);
    } else if q < q' {
      MulMono(q - q', -1, d);
    }
  }

  /** Multiples of the divisor pass through division and remainder. */
  lemma DivModAdd(x: int, k: int, d: int)
    requires d > 0
    ensures (x + k * d) / d == x / d + k
    ensures (x + k * d) % d == x % d
  {
    assert x == (x / d) * d + x % d;
    assert x + k * d == (x / d + k) * d + x % d by {
      assert (x / d + k) * d == (x / d) * d + k * d;
    }
    DivModIs(x + k * d, d, x / d + k, x % d);
  }

  lemma MulDiv(k: int, d: int)
    requires d > 0
    ensures (k * d) / d == k
    ensures (k * d) % d == 0
  {
    DivModIs(k * d, d, k, 0);
  }

  /** Dividing twice is dividing by the product, and the remainder splits. */
  lemma DivDiv(x: int, a: int, b: int)
    requires a > 0 && b > 0
    ensures a * b > 0
    ensures x / (a * b) == (x / a) / b
    ensures x % (a * b) == ((x / a) % b) * a + x % a
  {
    var q, r := x / a, x % a;
    var q2, r2 := q / b, q % b;
    assert a * b > 0 by { MulMono(1, b, a); }
    assert x == q2 * (a * b) + (r2 * a + r) by {
      assert x == q * a + r;
      assert q == q2 * b + r2;
      assert (q2 * b + r2) * a == q2 * (b * a) + r2 * a by {
        assert (q2 * b) * a == q2 * (b * a);
      }
      assert b * a == a * b;
    }
    MulMono(r2, b - 1, a);
    assert (b - 1) * a == a * b - a;
    MulMono(0, r2, a);
    DivModIs(x, a * b, q2, r2 * a + r);
  }

  /** Dividing is monotone. */
  lemma DivMono(x: int, y: int, d: int)
    requires x <= y && d > 0
    ensures x / d <= y / d
  {
    assert (y / d + 1) * d == (y / d) * d + d;
    if x / d > y / d {
      MulMono(y / d + 1, x / d, d);
    }
  }

  /** Bounds carry over to the quotient. */
  lemma DivBounds(x: int, lo: int, hi: int, d: int)
    requires d > 0
    requires lo * d <= x < hi * d
    ensures lo <= x / d < hi
  {
    MulDiv(lo, d);
    DivMono(lo * d, x, d);
    if x / d >= hi {
      MulMono(hi, x / d, d);
    }
  }

  // ----- registers -----

  /** Shifting by `h` before and after reducing modulo `m` is still reducing. */
  lemma ResidueProps(x: int, h: nat, m: nat)
    requires m > 0
    ensures 0 <= Residue(x, h, m) + h < m
    ensures Residue(x, h, m) % m == x % m
    ensures 0 <= x + h < m ==> Residue(x, h, m) == x
  {
    var k := -((x + h) / m);
    assert (x + h) % m - h == x + k * m;
    DivModAdd(x, k, m);
    if 0 <= x + h < m {
      DivModIs(x + h, m, 0, x + h);
    }
  }

  lemma WrapProps(x: int, w: nat, signed: bool)
    ensures Fits(Wrap(x, w, signed), w, signed)
    ensures Wrap(x, w, signed) % Pow2(w) == x % Pow2(w)
    ensures Fits(x, w, signed) ==> Wrap(x, w, signed) == x
  {
    ResidueProps(x, if signed && w > 0 then Pow2(w - 1) else 0, Pow2(w));
  }

  /** A register's content depends on the assigned value only modulo `2^w`. */
  lemma WrapCong(x: int, y: int, w: nat, signed: bool)
    requires x % Pow2(w) == y % Pow2(w)
    ensures Wrap(x, w, signed) == Wrap(y, w, signed)
  {
    ModAdd(x, y, if signed && w > 0 then Pow2(w - 1) else 0, Pow2(w));
  }

  /** Storing a sum: what was stored before matters only through its register. */
  lemma WrapAdd(x: int, k: int, w: nat, signed: bool)
    ensures Wrap(Wrap(x, w, signed) + k, w, signed) == Wrap(x + k, w, signed)
  {
    WrapProps(x, w, signed);
    ModAdd(Wrap(x, w, signed), x, k, Pow2(w));
    WrapCong(Wrap(x, w, signed) + k, x + k, w, signed);
  }

  lemma ModAdd(x: int, y: int, k: int, m: int)
    requires m > 0 && x % m == y % m
    ensures (x + k) % m == (y + k) % m
  {
    var j := x / m - y / m;
    assert x == (x / m) * m + x % m;
    assert y == (y / m) * m + y % m;
    assert j * m == (x / m) * m - (y / m) * m;
    assert x + k == (y + k) + j * m;
    DivModAdd(y + k, j, m);
  }

  lemma ModMul(x: int, y: int, k: int, m: int)
    requires m > 0 && x % m == y % m
    ensures (x * k) % m == (y * k) % m
  {
    var j := x / m - y / m;
    assert x == (x / m) * m + x % m;
    assert y == (y / m) * m + y % m;
    assert x == y + j * m by {
      assert j * m == (x / m) * m - (y / m) * m;
    }
    assert x * k == y * k + (j * k) * m by {
      assert (j * m) * k == (j * k) * m;
    }
    DivModAdd(y * k, j * k, m);
  }

  /** Reducing modulo a larger power first does not matter. */
  lemma ModPow2(x: int, a: nat, b: nat)
    requires a <= b
    ensures (x % Pow2(b)) % Pow2(a) == x % Pow2(a)
  {
    Pow2Add(a, b - a);
    DivDiv(x, Pow2(a), Pow2(b - a));
    var k := (x / Pow2(a)) % Pow2(b - a);
    DivModAdd(x % Pow2(a), k, Pow2(a));
    DivModIs(x % Pow2(a), Pow2(a), 0, x % Pow2(a));
  }

  /** The top bit of a `w`-bit register, from the residue it holds. */
  lemma TopBit(x: int, w: nat)
    requires w > 0
    ensures Bit(x, w - 1) <==> x % Pow2(w) >= Pow2(w - 1)
  {
    var h := Pow2(w - 1);
    DivDiv(x, h, 2);
    assert h * 2 == Pow2(w);
    assert x % Pow2(w) == ((x / h) % 2) * h + x % h;
    if Bit(x, w - 1) {
      assert (x / h) % 2 == 1;
    } else {
      assert (x / h) % 2 == 0;
    }
  }

  /** Of a signed register that fits, the top bit is the sign. */
  lemma SignBit(x: int, w: nat)
    requires w > 0 && Fits(x, w, true)
    ensures Bit(x, w - 1) <==> x < 0
  {
    TopBit(x, w);
    if x < 0 {
      DivModIs(x, Pow2(w), -1, x + Pow2(w));
    } else {
      DivModIs(x, Pow2(w), 0, x);
    }
  }
}
