/** Machine words as integers: powers of two, the bitwise operators of C on
    non-negative integers, and the wrap-around of 32-bit conversions. */
module Bits {
  const TWO32: int := 0x1_0000_0000

  type UInt8 = x: int | 0 <= x < 0x100
  type UInt16 = x: int | 0 <= x < 0x1_0000
  type UInt32 = x: int | 0 <= x < 0x1_0000_0000
  type Int32 = x: int | -0x8000_0000 <= x < 0x8000_0000

  /** Conversion to an unsigned 32-bit word. */
  function U32(x: int): UInt32 {
    x % TWO32
  }

  /** Conversion to a signed 32-bit word. */
  function S32(x: int): Int32 {
    var u := x % TWO32;
    if u < 0x8000_0000 then u else u - TWO32
  }

  function Pow2(n: nat): (p: nat)
    ensures p >= 1
  {
    if n == 0 then 1 else 2 * Pow2(n - 1)
  }

  lemma QuotientOfNat(x: nat, d: nat)
    requires d > 0
    ensures x / d >= 0
  {
  }

  /** x >> n */
  function ShiftDown(x: nat, n: nat): (q: nat) {
    QuotientOfNat(x, Pow2(n));
    x / Pow2(n)
  }

  function AndBit(a: nat, b: nat): nat {
    if a == 1 && b == 1 then 1 else 0
  }

  function OrBit(a: nat, b: nat): nat {
    if a == 1 || b == 1 then 1 else 0
  }

  /** x & y */
  function And(x: nat, y: nat): (r: nat)
    ensures r <= x && r <= y
  {
    if x == 0 || y == 0 then 0 else 2 * And(x / 2, y / 2) + AndBit(x % 2, y % 2)
  }

  /** x | y */
  function Or(x: nat, y: nat): (r: nat)
    ensures r >= x && r >= y
  {
    if x == 0 then y
    else if y == 0 then x
    else 2 * Or(x / 2, y / 2) + OrBit(x % 2, y % 2)
  }

  /** x ^ y */
  function Xor(x: nat, y: nat): nat {
    if x == 0 then y
    else if y == 0 then x
    else 2 * Xor(x / 2, y / 2) + (x % 2 + y % 2) % 2
  }

  // ----- powers of two -----

  lemma {:induction false} PowAdd(m: nat, n: nat)
    ensures Pow2(m + n) == Pow2(m) * Pow2(n)
  {
    if m > 0 {
      PowAdd(m - 1, n);
      Reassociate(2, Pow2(m - 1), Pow2(n));
    }
  }

  lemma {:induction false} PowMonotone(m: nat, n: nat)
    requires m <= n
    ensures Pow2(m) <= Pow2(n)
    decreases n
  {
    if m < n {
      PowMonotone(m, n - 1);
    }
  }

  lemma {:induction false} PowValues()
    ensures Pow2(1) == 2 && Pow2(2) == 4 && Pow2(3) == 8 && Pow2(4) == 16
    ensures Pow2(5) == 0x20 && Pow2(7) == 0x80 && Pow2(8) == 0x100
    ensures Pow2(16) == 0x1_0000 && Pow2(23) == 0x80_0000 && Pow2(24) == 0x100_0000
    ensures Pow2(30) == 0x4000_0000 && Pow2(31) == 0x8000_0000 && Pow2(32) == TWO32
  {
    assert Pow2(8) == 0x100;
    PowAdd(8, 8);
    PowAdd(7, 16);
    PowAdd(8, 16);
    PowAdd(6, 24);
    PowAdd(7, 24);
    PowAdd(8, 24);
  }

  // ----- division facts the solver does not find alone -----

  lemma MulAtLeast(k: int, d: int)
    requires k >= 1 && d >= 0
    ensures k * d >= d
  {
  }

  lemma Distribute(a: int, b: int, d: int)
    ensures (a - b) * d == a * d - b * d
    ensures (a + b) * d == a * d + b * d
  {
  }

  lemma QuotientRemainder(x: int, d: int)
    requires d > 0
    ensures x == (x / d) * d + x % d && 0 <= x % d < d
  {
  }

  lemma SameQuotient(d: int, q: int, r: int, q': int, r': int)
    requires 0 <= r < d && 0 <= r' < d && q * d + r == q' * d + r'
    ensures q == q' && r == r'
  {
    Distribute(q, q', d);
    Distribute(q', q, d);
    if q > q' {
      MulAtLeast(q - q', d);
    } else if q < q' {
      MulAtLeast(q' - q, d);
    }
  }

  /** The quotient is the only q that leaves a remainder in range. */
  lemma DivUnique(x: int, d: int, q: int, r: int)
    requires 0 <= r < d && x == q * d + r
    ensures x / d == q && x % d == r
  {
    QuotientRemainder(x, d);
    SameQuotient(d, q, r, x / d, x % d);
  }

  lemma DivDiv(x: int, a: int, b: int)
    requires a > 0 && b > 0
    ensures a * b > 0 && x / a / b == x / (a * b)
  {
    var q, s := x / a, x % a;
    var p, t := q / b, q % b;
    QuotientRemainder(x, a);
    QuotientRemainder(q, b);
    Distribute(p * b, t, a);
    Reassociate(p, b, a);
    MulBounds(t, a, 0, b - 1);
    Distribute(b, 1, a);
    DivUnique(x, a * b, p, t * a + s);
  }

  lemma Reassociate(p: int, b: int, a: int)
    ensures p * b * a == p * (a * b)
  {
  }

  lemma MulBounds(a: int, b: int, lo: int, hi: int)
    requires lo <= a <= hi && 0 <= b
    ensures lo * b <= a * b <= hi * b
  {
    MulAtLeastZero(a - lo, b);
    MulAtLeastZero(hi - a, b);
    Distribute(a, lo, b);
    Distribute(hi, a, b);
  }

  lemma MulAtLeastZero(a: int, b: int)
    requires a >= 0 && b >= 0
    ensures a * b >= 0
  {
  }

  /** Adding a multiple of the modulus changes nothing. */
  lemma ModPlus(x: int, k: int, d: int)
    requires d > 0
    ensures (x + k * d) % d == x % d && (x + k * d) / d == x / d + k
  {
    QuotientRemainder(x, d);
    Distribute(x / d, k, d);
    DivUnique(x + k * d, d, x / d + k, x % d);
  }

  /** Reducing modulo a multiple of d first makes no difference. */
  lemma ModMod(x: int, d: int, k: int)
    requires d > 0 && k > 0
    ensures k * d > 0 && x % (k * d) % d == x % d
  {
    MulAtLeast(k, d);
    var q := x / (k * d);
    QuotientRemainder(x, k * d);
    Reassociate(q, k, d);
    ModPlus(x % (k * d), q * k, d);
  }

  // ----- bitwise operators -----

  /** a + b == (a | b) + (a & b), the identity behind carry tests. */
  lemma {:induction false} OrPlusAnd(x: nat, y: nat)
    ensures Or(x, y) + And(x, y) == x + y
  {
    if x != 0 && y != 0 {
      OrPlusAnd(x / 2, y / 2);
    }
  }

  lemma {:induction false} AndCommutes(x: nat, y: nat)
    ensures And(x, y) == And(y, x)
  {
    if x != 0 && y != 0 {
      AndCommutes(x / 2, y / 2);
    }
  }

  lemma ModDouble(x: nat, p: nat)
    requires p > 0
    ensures x % (2 * p) == 2 * (x / 2 % p) + x % 2
  {
    var q := x / 2 / p;
    QuotientRemainder(x / 2, p);
    assert q * (2 * p) == 2 * (q * p);
    DivUnique(x, 2 * p, q, 2 * (x / 2 % p) + x % 2);
  }

  /** Masking with 2^n - 1 keeps the low n bits. */
  lemma {:induction false} AndLow(x: nat, n: nat)
    ensures And(x, Pow2(n) - 1) == x % Pow2(n)
  {
    hide And;
    AndStep(x, 0);
    if n > 0 {
      var p := Pow2(n - 1);
      AndLow(x / 2, n - 1);
      AndStep(x, 2 * p - 1);
      assert (2 * p - 1) / 2 == p - 1 && (2 * p - 1) % 2 == 1;
      ModDouble(x, p);
    }
  }

  /** Words made of a high and a low part are combined part by part. */
  lemma {:induction false} AndSplit(x: nat, hx: nat, lx: nat, y: nat, hy: nat, ly: nat, n: nat)
    requires lx < Pow2(n) && ly < Pow2(n)
    requires x == hx * Pow2(n) + lx && y == hy * Pow2(n) + ly
    ensures And(x, y) == And(hx, hy) * Pow2(n) + And(lx, ly)
  {
    hide And;
    AndStep(lx, ly);
    if n > 0 {
      var p := Pow2(n - 1);
      Halves(x, hx, lx, p);
      Halves(y, hy, ly, p);
      AndSplit(x / 2, hx, lx / 2, y / 2, hy, ly / 2, n - 1);
      AndStep(x, y);
      var h := And(hx, hy);
      assert And(x, y) == 2 * (h * p) + And(lx, ly);
      Double(h, p);
    }
  }

  lemma Double(a: int, p: int)
    ensures a * (2 * p) == 2 * (a * p)
  {
  }

  lemma Halves(x: nat, h: nat, l: nat, p: nat)
    requires x == h * (2 * p) + l
    ensures x / 2 == h * p + l / 2 && x % 2 == l % 2
  {
    Double(h, p);
  }

  lemma {:induction false} AndStep(x: nat, y: nat)
    ensures And(x, y) == 2 * And(x / 2, y / 2) + AndBit(x % 2, y % 2)
  {
    if x == 0 || y == 0 {
      assert And(x / 2, y / 2) == 0;
    }
  }

  /** Words with no bit in common: | is +. */
  lemma {:induction false} OrDisjoint(h: nat, l: nat, n: nat)
    requires l < Pow2(n)
    ensures Or(h * Pow2(n), l) == h * Pow2(n) + l
    ensures Or(l, h * Pow2(n)) == h * Pow2(n) + l
  {
    var x := h * Pow2(n);
    assert And(x, l) == 0 by {
      AndSplit(x, h, 0, l, 0, l, n);
    }
    AndCommutes(x, l);
    OrPlusAnd(x, l);
    OrPlusAnd(l, x);
  }

  // ----- bit by bit -----

  function Bit(x: nat, i: nat): nat {
    x / Pow2(i) % 2
  }

  lemma {:induction false} BitHalf(x: nat, i: nat)
    ensures i > 0 ==> Bit(x, i) == Bit(x / 2, i - 1)
    ensures i == 0 ==> Bit(x, i) == x % 2
    ensures Bit(x, i) == 0 || Bit(x, i) == 1
  {
    if i > 0 {
      HalfDown(x, i);
    }
  }

  lemma HalfDown(x: nat, i: nat)
    requires i > 0
    ensures x / Pow2(i) == x / 2 / Pow2(i - 1)
  {
    DivDiv(x, 2, Pow2(i - 1));
  }

  lemma {:induction false} OrStep(x: nat, y: nat)
    ensures Or(x, y) / 2 == Or(x / 2, y / 2) && Or(x, y) % 2 == OrBit(x % 2, y % 2)
  {
  }

  lemma {:induction false} XorStep(x: nat, y: nat)
    ensures Xor(x, y) / 2 == Xor(x / 2, y / 2) && Xor(x, y) % 2 == (x % 2 + y % 2) % 2
  {
  }

  lemma {:induction false} AndAt(x: nat, y: nat, i: nat)
    ensures Bit(And(x, y), i) == 1 <==> Bit(x, i) == 1 && Bit(y, i) == 1
  {
    AndStep(x, y);
    BitHalf(x, i);
    BitHalf(y, i);
    BitHalf(And(x, y), i);
    hide And, Bit;
    if i > 0 {
      AndAt(x / 2, y / 2, i - 1);
    }
  }

  /** Bit i of x & y is set exactly if it is in both. */
  lemma {:induction false} AndBits(x: nat, y: nat, i: nat)
    ensures And(x, y) / Pow2(i) % 2 == 1 <==> x / Pow2(i) % 2 == 1 && y / Pow2(i) % 2 == 1
  {
    hide And, Pow2;
    AndAt(x, y, i);
  }

  lemma {:induction false} OrAt(x: nat, y: nat, i: nat)
    ensures Bit(Or(x, y), i) == 1 <==> Bit(x, i) == 1 || Bit(y, i) == 1
  {
    OrStep(x, y);
    BitHalf(x, i);
    BitHalf(y, i);
    BitHalf(Or(x, y), i);
    hide Or, Bit;
    if i > 0 {
      OrAt(x / 2, y / 2, i - 1);
    }
  }

  /** Bit i of x | y is set exactly if it is in one of them. */
  lemma {:induction false} OrBits(x: nat, y: nat, i: nat)
    ensures Or(x, y) / Pow2(i) % 2 == 1 <==> x / Pow2(i) % 2 == 1 || y / Pow2(i) % 2 == 1
  {
    hide Or, Pow2;
    OrAt(x, y, i);
  }

  lemma {:induction false} XorAt(x: nat, y: nat, i: nat)
    ensures Bit(Xor(x, y), i) == 1 <==> Bit(x, i) != Bit(y, i)
  {
    XorStep(x, y);
    BitHalf(x, i);
    BitHalf(y, i);
    BitHalf(Xor(x, y), i);
    hide Xor, Bit;
    if i > 0 {
      XorAt(x / 2, y / 2, i - 1);
    }
  }

  /** Bit i of x ^ y is set exactly if the two differ there. */
  lemma {:induction false} XorBits(x: nat, y: nat, i: nat)
    ensures Xor(x, y) / Pow2(i) % 2 == 1 <==> x / Pow2(i) % 2 != y / Pow2(i) % 2
  {
    hide Xor, Pow2;
    XorAt(x, y, i);
  }

  /** The conversions change a number by a multiple of 2^32 only. */
  lemma WordsCongruent(x: int)
    ensures 0 <= U32(x) < 0x1_0000_0000 && (U32(x) - x) % 0x1_0000_0000 == 0
    ensures -0x8000_0000 <= S32(x) < 0x8000_0000 && (S32(x) - x) % 0x1_0000_0000 == 0
  {
    QuotientRemainder(x, TWO32);
    ModPlus(0, -(x / TWO32), TWO32);
    ModPlus(0, -(x / TWO32) - 1, TWO32);
  }
}
