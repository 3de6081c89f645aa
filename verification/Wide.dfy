/** The 64-bit integer of hsWide.h, held as a signed high and an unsigned low
    32-bit word and updated in place. */
module Wide {
  import opened Bits

  const TWO64: int := 0x1_0000_0000_0000_0000
  const POS_INFINITY_32: Int32 := 0x7fff_ffff
  const NEG_INFINITY_32: Int32 := -0x8000_0000

  /** The signed 64-bit number congruent to x. */
  function S64(x: int): (r: int)
    ensures -0x8000_0000_0000_0000 <= r < 0x8000_0000_0000_0000
  {
    var u := x % TWO64;
    if u < 0x8000_0000_0000_0000 then u else u - TWO64
  }

  /** The number held by a pair of words. */
  function ValueOf(hi: Int32, lo: UInt32): int {
    hi * TWO32 + lo
  }

  function Clamp32(x: int): Int32 {
    if x > POS_INFINITY_32 then POS_INFINITY_32
    else if x < NEG_INFINITY_32 then NEG_INFINITY_32
    else x
  }

  /** x / 2^shift rounded to the nearest integer, halves upwards. */
  function RoundHalfUp(x: int, shift: nat): int
    requires shift > 0
  {
    (x + Pow2(shift - 1)) / Pow2(shift)
  }

  /** Which pairs of words are beyond an Int32, and what the low word of the others is. */
  lemma PinnedWords(hi: Int32, lo: UInt32)
    ensures hi > 0 || (hi == 0 && S32(lo) < 0) <==> ValueOf(hi, lo) > POS_INFINITY_32
    ensures hi < -1 || (hi == -1 && S32(lo) >= 0) <==> ValueOf(hi, lo) < NEG_INFINITY_32
    ensures S32(ValueOf(hi, lo)) == S32(lo)
    ensures NEG_INFINITY_32 <= ValueOf(hi, lo) <= POS_INFINITY_32 ==> S32(lo) == ValueOf(hi, lo)
  {
  }

  class HsWide {
    var fHi: Int32
    var fLo: UInt32

    constructor (hi: Int32, lo: UInt32)
      ensures fHi == hi && fLo == lo && Value() == hi * 0x1_0000_0000 + lo
    {
      fHi, fLo := hi, lo;
    }

    function Value(): (v: int)
      reads this
      ensures -0x8000_0000_0000_0000 <= v < 0x8000_0000_0000_0000
    {
      ValueOf(fHi, fLo)
    }

    // ----- comparisons -----

    predicate IsNeg()
      reads this
      ensures IsNeg() <==> Value() < 0
    {
      fHi < 0
    }

    predicate IsPos()
      reads this
      ensures IsPos() <==> Value() > 0
    {
      fHi > 0 || (fHi == 0 && fLo != 0)
    }

    predicate LessThan(b: HsWide)
      reads this, b
      ensures LessThan(b) <==> Value() < b.Value()
    {
      fHi < b.fHi || (fHi == b.fHi && fLo < b.fLo)
    }

    predicate GreaterThan(b: HsWide)
      reads this, b
      ensures GreaterThan(b) <==> Value() > b.Value()
    {
      fHi > b.fHi || (fHi == b.fHi && fLo > b.fLo)
    }

    predicate Equals(b: HsWide)
      reads this, b
      ensures Equals(b) <==> Value() == b.Value()
    {
      fHi == b.fHi && fLo == b.fLo
    }

    // ----- arithmetic, exact modulo 2^64 -----

    method SetLong(lo: Int32)
      modifies this
      ensures Value() == lo
    {
      fLo := U32(lo);
      if lo < 0 {
        fHi := -1;
      } else {
        fHi := 0;
      }
    }

    method Negate()
      modifies this
      ensures Value() == S64(-old(Value()))
    {
      hide S32, U32, S64;
      ghost var hi: int, lo: int := fHi, fLo;
      fHi := -1 - fHi;
      fLo := U32(0 - S32(fLo));
      NegatedLow(lo);
      if fLo == 0 {
        fHi := S32(fHi + 1);
      }
      InRange32(fHi);
      PairWraps(-hi, -lo, fHi, fLo);
    }

    method AddLong(scaler: Int32)
      modifies this
      ensures Value() == S64(old(Value()) + scaler)
    {
      hide S32, U32, S64;
      ghost var hi: int, lo: int := fHi, fLo;
      InRange32(hi);
      Carry(lo, scaler);
      if scaler >= 0 {
        var tmp := U32(fLo + scaler);
        if tmp < fLo {
          fHi := S32(fHi + 1);
        }
        fLo := tmp;
      } else {
        var s := S32(0 - scaler);
        NegatedScaler(lo, scaler);
        if fLo < U32(s) {
          fHi := S32(fHi - 1);
        }
        fLo := U32(fLo - s);
      }
      PairWraps(hi, lo + scaler, fHi, fLo);
    }

    /** The argument may be this object. */
    method Add(a: HsWide)
      modifies this
      ensures Value() == S64(old(Value()) + old(a.Value()))
      ensures a != this ==> a.Value() == old(a.Value())
    {
      hide S32, U32, S64, Or;
      ghost var hi: int, lo: int, ahi: int, alo: int := fHi, fLo, a.fHi, a.fLo;
      CarryTest(fLo, a.fLo);
      Carry(lo, alo);
      Nested32(hi + ahi, 1);
      var newLo := U32(fLo + a.fLo);
      fHi := S32(fHi + a.fHi);
      if newLo < Or(fLo, a.fLo) {
        fHi := S32(fHi + 1);
      }
      fLo := newLo;
      PairWraps(hi + ahi, lo + alo, fHi, fLo);
    }

    /** The argument may be this object. */
    method Sub(a: HsWide)
      modifies this
      ensures Value() == S64(old(Value()) - old(a.Value()))
      ensures a != this ==> a.Value() == old(a.Value())
    {
      hide S32, U32, S64;
      ghost var hi: int, lo: int, ahi: int, alo: int := fHi, fLo, a.fHi, a.fLo;
      Carry(lo, 0 - alo);
      Nested32(hi - ahi, -1);
      fHi := S32(fHi - a.fHi);
      if fLo < a.fLo {
        fHi := S32(fHi - 1);
      }
      fLo := U32(fLo - a.fLo);
      PairWraps(hi - ahi, lo - alo, fHi, fLo);
    }

    // ----- shifts; a shift by 0 or 32 is undefined in C -----

    method ShiftLeft(shift: nat)
      requires 1 <= shift <= 31
      modifies this
      ensures Value() == S64(old(Value()) * Pow2(shift))
    {
      hide S32, U32, S64, Or, Pow2;
      ghost var hi: int, lo: int := fHi, fLo;
      fHi := S32(Or(U32(fHi * Pow2(shift)), ShiftDown(fLo, 32 - shift)));
      fLo := U32(fLo * Pow2(shift));
      ShiftedLeft(hi, lo, shift);
    }

    method ShiftRight(shift: nat)
      requires 1 <= shift <= 31
      modifies this
      ensures Value() == old(Value()) / Pow2(shift)
    {
      hide S32, U32, S64, Or, Pow2;
      ShiftedRight(fHi, fLo, shift);
      fLo := Or(ShiftDown(fLo, shift), U32(fHi * Pow2(32 - shift)));
      fHi := fHi / Pow2(shift);
    }

    method RoundRight(shift: nat)
      requires 1 <= shift <= 31
      modifies this
      ensures Value() == S64(old(Value()) + Pow2(shift - 1)) / Pow2(shift)
    {
      PowMonotone(shift - 1, 30);
      PowValues();
      AddLong(Pow2(shift - 1));
      ShiftRight(shift);
    }

    // ----- conversions -----

    predicate IsWide()
      reads this
      ensures IsWide() <==> Clamp32(Value()) != Value()
    {
      (fHi > 0 || (fHi == 0 && S32(fLo) < 0)) || (fHi < -1 || (fHi == -1 && S32(fLo) >= 0))
    }

    /** Bits 31 to 0; pin is HS_PIN_MATH_OVERFLOW. */
    function AsLong(pin: bool): (r: Int32)
      reads this
      ensures r == if pin then Clamp32(Value()) else S32(Value())
    {
      PinnedWords(fHi, fLo);
      if pin && (fHi > 0 || (fHi == 0 && S32(fLo) < 0)) then POS_INFINITY_32
      else if pin && (fHi < -1 || (fHi == -1 && S32(fLo) >= 0)) then NEG_INFINITY_32
      else S32(fLo)
    }

    /** Bits 47 to 16, rounded, on a copy. Without pinning the wrap of the rounding sum does
        not show; with pinning it turns the largest values into the smallest Int32. */
    method AsFixed(pin: bool) returns (r: Int32)
      ensures r == Narrow(Value(), 16, pin)
      ensures !pin ==> r == S32((Value() + 0x8000) / 0x1_0000)
      ensures pin && Value() + 0x8000 < 0x8000_0000_0000_0000 ==> r == Clamp32((Value() + 0x8000) / 0x1_0000)
      ensures pin && Value() + 0x8000 >= 0x8000_0000_0000_0000 ==> r == -0x8000_0000
    {
      hide Pow2, S64, S32, Clamp32, Narrow, ValueOf;
      NarrowBy(Value(), 16, 0x8000, 0x1_0000);
      var tmp := new HsWide(fHi, fLo);
      tmp.RoundRight(16);
      NarrowIs(Value(), 16, pin, tmp.Value());
      r := tmp.AsLong(pin);
    }

    /** Bits 61 to 30, in the same way. */
    method AsFract(pin: bool) returns (r: Int32)
      ensures r == Narrow(Value(), 30, pin)
      ensures !pin ==> r == S32((Value() + 0x2000_0000) / 0x4000_0000)
      ensures pin && Value() + 0x2000_0000 < 0x8000_0000_0000_0000 ==>
        r == Clamp32((Value() + 0x2000_0000) / 0x4000_0000)
      ensures pin && Value() + 0x2000_0000 >= 0x8000_0000_0000_0000 ==> r == -0x8000_0000
    {
      hide Pow2, S64, S32, Clamp32, Narrow, ValueOf;
      NarrowBy(Value(), 30, 0x2000_0000, 0x4000_0000);
      var tmp := new HsWide(fHi, fLo);
      tmp.RoundRight(30);
      NarrowIs(Value(), 30, pin, tmp.Value());
      r := tmp.AsLong(pin);
    }
  }

  /** What AsFixed and AsFract make of the number v. */
  function Narrow(v: int, shift: nat, pin: bool): Int32
    requires shift > 0
  {
    var q := S64(v + Pow2(shift - 1)) / Pow2(shift);
    if pin then Clamp32(q) else S32(q)
  }

  lemma NarrowIs(v: int, shift: nat, pin: bool, q: int)
    requires shift > 0 && q == S64(v + Pow2(shift - 1)) / Pow2(shift)
    ensures Narrow(v, shift, pin) == if pin then Clamp32(q) else S32(q)
  {
  }

  // ----- pairs of words -----

  /** A pair that agrees with h and l word by word, the carry out of l included,
      holds the number h * 2^32 + l modulo 2^64. */
  lemma PairWraps(h: int, l: int, hi: Int32, lo: UInt32)
    requires lo == U32(l) && hi == S32(h + l / TWO32)
    ensures ValueOf(hi, lo) == S64(h * TWO32 + l)
  {
    var q, v := l / TWO32, ValueOf(hi, lo);
    QuotientRemainder(l, TWO32);
    QuotientRemainder(h + q, TWO32);
    var k := (h + q) / TWO32 + if (h + q) % TWO32 < 0x8000_0000 then 0 else 1;
    assert hi == h + q - k * TWO32;
    assert h * TWO32 + l == v + k * TWO64;
    SignedOf(v, k);
  }

  lemma SignedOf(v: int, k: int)
    requires -0x8000_0000_0000_0000 <= v < 0x8000_0000_0000_0000
    ensures S64(v + k * TWO64) == v
  {
    if v >= 0 {
      DivUnique(v + k * TWO64, TWO64, k, v);
    } else {
      DivUnique(v + k * TWO64, TWO64, k - 1, v + TWO64);
    }
  }

  lemma InRange32(x: Int32)
    ensures S32(x) == x && S32(S32(x + 1) + 0) == S32(x + 1)
  {
  }

  lemma Nested32(x: int, k: int)
    requires -1 <= k <= 1
    ensures S32(S32(x) + k) == S32(x + k)
  {
  }

  /** The carry or borrow out of a low word. */
  lemma Carry(lo: UInt32, d: int)
    requires -TWO32 < d < TWO32
    ensures (lo + d) / TWO32 == if lo + d < 0 then -1 else if lo + d >= TWO32 then 1 else 0
    ensures d >= 0 ==> (U32(lo + d) < lo <==> lo + d >= TWO32)
  {
  }

  lemma NegatedLow(lo: UInt32)
    ensures U32(0 - S32(lo)) == U32(0 - lo)
    ensures U32(0 - lo) == 0 <==> lo == 0
    ensures (0 - lo) / TWO32 == if lo == 0 then 0 else -1
  {
  }

  /** Negating the smallest Int32 wraps, and the tests still agree. */
  lemma NegatedScaler(lo: UInt32, scaler: Int32)
    requires scaler < 0
    ensures U32(S32(0 - scaler)) == 0 - scaler
    ensures U32(lo - S32(0 - scaler)) == U32(lo + scaler)
  {
    var d: int := scaler;
    if d == -0x8000_0000 {
      assert S32(0 - d) == d && U32(d) == 0 - d;
      ModPlus(lo + d, 1, TWO32);
    } else {
      assert S32(0 - d) == 0 - d;
    }
  }

  /** The carry test of Add: the low words overflow exactly when the wrapped sum
      is below their bitwise or. */
  lemma {:induction false} CarryTest(a: UInt32, b: UInt32)
    ensures U32(a + b) < Or(a, b) <==> a + b >= TWO32
  {
    hide Or, And;
    OrPlusAnd(a, b);
  }

  // ----- shifts -----

  /** Multiplying a word by 2^shift splits it into a carry and a remainder. */
  lemma WordsOfProduct(lo: UInt32, shift: nat)
    requires 1 <= shift <= 31
    ensures TWO32 == Pow2(32 - shift) * Pow2(shift)
    ensures lo * Pow2(shift) / TWO32 == lo / Pow2(32 - shift) < Pow2(shift)
  {
    hide Pow2;
    PowAdd(32 - shift, shift);
    PowValues();
    var a, b := Pow2(32 - shift), Pow2(shift);
    var q, r := lo / a, lo % a;
    QuotientRemainder(lo, a);
    Distribute(q * a, r, b);
    Reassociate(q, a, b);
    MulBounds(r, b, 0, a - 1);
    Distribute(a, 1, b);
    DivUnique(lo * b, TWO32, q, r * b);
    if q >= b {
      MulBounds(q, a, b, q);
    }
  }

  lemma {:induction false} ShiftedLeft(hi: Int32, lo: UInt32, shift: nat)
    requires 1 <= shift <= 31
    ensures var h := S32(Or(U32(hi * Pow2(shift)), ShiftDown(lo, 32 - shift)));
      ValueOf(h, U32(lo * Pow2(shift))) == S64(ValueOf(hi, lo) * Pow2(shift))
  {
    hide Pow2, Or, S64, S32, U32;
    var b, x: int, y: int := Pow2(shift), hi, lo;
    WordsOfProduct(lo, shift);
    var q := ShiftDown(lo, 32 - shift);
    WordOfMultiple(hi, shift);
    NonNegative(U32(x * b), b);
    var g: nat := U32(x * b) / b;
    OrDisjoint(g, q, shift);
    S32Plus(x * b, q);
    PairWraps(x * b, y * b, S32(U32(x * b) + q), U32(y * b));
    ScaledPair(x, y, b);
  }

  lemma NonNegative(w: UInt32, b: nat)
    requires b > 0
    ensures w / b >= 0
  {
  }

  lemma ScaledPair(hi: int, lo: int, b: int)
    ensures (hi * TWO32 + lo) * b == hi * b * TWO32 + lo * b
  {
    Distribute(hi * TWO32, lo, b);
    Reassociate(hi, TWO32, b);
    Reassociate(hi, b, TWO32);
  }

  /** A multiple of 2^shift stays one when reduced to 32 bits. */
  lemma {:induction false} WordOfMultiple(x: int, shift: nat)
    requires shift <= 32
    ensures U32(x * Pow2(shift)) == (U32(x * Pow2(shift)) / Pow2(shift)) * Pow2(shift)
  {
    hide Pow2;
    PowAdd(32 - shift, shift);
    PowValues();
    var b := Pow2(shift);
    ModMod(x * b, b, Pow2(32 - shift));
    ModPlus(0, x, b);
    QuotientRemainder(U32(x * b), b);
  }

  lemma S32Plus(x: int, q: int)
    ensures S32(U32(x) + q) == S32(x + q)
  {
  }

  /** The high word's low bits, moved to the top of the low word. */
  lemma MovedBits(hi: Int32, shift: nat)
    requires 1 <= shift <= 31
    ensures TWO32 == Pow2(shift) * Pow2(32 - shift)
    ensures U32(hi * Pow2(32 - shift)) == hi % Pow2(shift) * Pow2(32 - shift)
  {
    hide Pow2;
    var a, b := Pow2(32 - shift), Pow2(shift);
    PowAdd(shift, 32 - shift);
    PowValues();
    var q, r := hi / b, hi % b;
    QuotientRemainder(hi, b);
    Distribute(q * b, r, a);
    Reassociate(q, b, a);
    MulBounds(r, a, 0, b - 1);
    Distribute(b, 1, a);
    DivUnique(hi * a, TWO32, q, r * a);
  }

  /** A quotient is no larger than what it comes from. */
  lemma QuotientRange(hi: Int32, b: nat)
    requires b >= 1
    ensures -0x8000_0000 <= hi / b < 0x8000_0000
  {
    QuotientRemainder(hi, b);
    var q := hi / b;
    if q >= 0x8000_0000 {
      MulBounds(b, q, 1, b);
    } else if q < -0x8000_0000 {
      MulBounds(b, -q - 1, 1, b);
      Distribute(-q, 1, b);
    }
  }

  lemma ShiftedRight(hi: Int32, lo: UInt32, shift: nat)
    requires 1 <= shift <= 31
    ensures -0x8000_0000 <= hi / Pow2(shift) < 0x8000_0000
    ensures Or(ShiftDown(lo, shift), U32(hi * Pow2(32 - shift))) < TWO32
    ensures ValueOf(hi / Pow2(shift), Or(ShiftDown(lo, shift), U32(hi * Pow2(32 - shift))))
         == ValueOf(hi, lo) / Pow2(shift)
  {
    hide Pow2, Or;
    var a, b := Pow2(32 - shift), Pow2(shift);
    MovedBits(hi, shift);
    QuotientRange(hi, b);
    var q, r := hi / b, hi % b;
    WordsOfProduct(lo, 32 - shift);
    OrDisjoint(r, lo / b, 32 - shift);
    DividePair(hi, lo, a, b);
  }

  /** Dividing a pair of words by b = 2^32 / a. */
  lemma DividePair(hi: int, lo: UInt32, a: int, b: int)
    requires a > 0 && b > 0 && TWO32 == b * a
    ensures (hi / b) * TWO32 + (hi % b * a + lo / b) == (hi * TWO32 + lo) / b
    ensures 0 <= hi % b * a + lo / b < TWO32
  {
    var q, r := hi / b, hi % b;
    var t, u := lo / b, lo % b;
    QuotientRemainder(hi, b);
    QuotientRemainder(lo, b);
    assert t < a by {
      if t >= a {
        MulBounds(t, b, a, t);
      }
    }
    MulBounds(r, a, 0, b - 1);
    Distribute(b, 1, a);
    var x := q * TWO32 + (r * a + t);
    ExpandPair(q, r, t, a, b, hi);
    DivUnique(hi * TWO32 + lo, b, x, u);
  }

  lemma ExpandPair(q: int, r: int, t: int, a: int, b: int, hi: int)
    requires TWO32 == b * a && hi == q * b + r
    ensures (q * TWO32 + (r * a + t)) * b == hi * TWO32 + t * b
  {
    Distribute(q * TWO32, r * a + t, b);
    Distribute(r * a, t, b);
    Reassociate(r, a, b);
    assert a * b == TWO32;
    Reassociate(q, TWO32, b);
    Distribute(q * b, r, TWO32);
    Reassociate(q, b, TWO32);
  }

  // ----- rounding conversions -----

  lemma {:induction false} DivideLarge(x: int, shift: nat)
    requires 1 <= shift <= 31
    ensures x >= 0x8000_0000_0000_0000 ==> x / Pow2(shift) > 0x7fff_ffff
    ensures x < -0x4000_0000_0000_0000 ==> x / Pow2(shift) < -0x8000_0000
    ensures -0x8000_0000_0000_0000 <= x < 0x8000_0000_0000_0000 ==> S64(x) == x
  {
    hide Pow2;
    PowMonotone(shift, 31);
    PowValues();
    LargeQuotient(x, Pow2(shift));
  }

  lemma LargeQuotient(x: int, b: nat)
    requires 0 < b <= 0x8000_0000
    ensures x >= 0x8000_0000_0000_0000 ==> x / b > 0x7fff_ffff
    ensures x < -0x4000_0000_0000_0000 ==> x / b < -0x8000_0000
  {
    QuotientRemainder(x, b);
    var q, r := x / b, x % b;
    if q <= 0x7fff_ffff {
      MulBounds(q, b, q, 0x7fff_ffff);
    }
    if q >= -0x8000_0000 {
      MulBounds(q, b, -0x8000_0000, q);
    }
  }

  /** Main theorem: with pinning on, AsFixed (shift 16) and AsFract (shift 30)
      are the quotient rounded half up and clamped, exactly when adding the
      rounding constant does not pass 2^63 - 1. */
  lemma {:induction false} NarrowIsRoundedClamp(v: int, shift: nat)
    requires 1 <= shift <= 31 && -0x8000_0000_0000_0000 <= v < 0x8000_0000_0000_0000
    ensures Narrow(v, shift, true) == Clamp32(RoundHalfUp(v, shift))
       <==> v + Pow2(shift - 1) < 0x8000_0000_0000_0000
  {
    hide Pow2;
    PowMonotone(shift - 1, 30);
    PowValues();
    var x := v + Pow2(shift - 1);
    DivideLarge(x, shift);
    if x >= 0x8000_0000_0000_0000 {
      assert S64(x) == x - TWO64;
      DivideLarge(x - TWO64, shift);
    }
  }

  /** The signed number is congruent to x modulo 2^64. */
  lemma S64Congruent(x: int) returns (k: int)
    ensures S64(x) == x + k * 0x1_0000_0000_0000_0000
  {
    QuotientRemainder(x, TWO64);
    k := -(x / TWO64) - (if x % TWO64 < 0x8000_0000_0000_0000 then 0 else 1);
  }

  /** Clamping gives the nearest Int32. */
  lemma ClampIsNearest(x: int, y: Int32)
    ensures var c := Clamp32(x);
      (if x < c then c - x else x - c) <= (if x < y then y - x else x - y)
  {
  }

  /** A multiple of 2^64 is still a multiple of 2^32 after a shift by up to 31. */
  lemma {:induction false} WrapShifted(w: int, k: int, p: nat, r: nat)
    requires p > 0 && r * p == TWO32
    ensures S32((w + k * TWO64) / p) == S32(w / p)
  {
    Reassociate(k * TWO32, r, p);
    assert k * TWO32 * r * p == k * TWO64;
    ModPlus(w, k * TWO32 * r, p);
    SameLowWord(w / p, k * r);
    assert k * r * TWO32 == k * TWO32 * r;
  }

  lemma SameLowWord(x: int, k: int)
    ensures S32(x + k * TWO32) == S32(x)
  {
    ModPlus(x, k, TWO32);
  }

  /** Main theorem: without pinning, narrowing is the quotient rounded half up modulo 2^32,
      whether or not the rounding sum wraps. */
  lemma {:induction false} NarrowWraps(v: int, shift: nat)
    requires 1 <= shift <= 31
    ensures Narrow(v, shift, false) == S32((v + Pow2(shift - 1)) / Pow2(shift))
  {
    hide S64, S32, Pow2;
    var w := v + Pow2(shift - 1);
    var k := S64Congruent(w);
    PowAdd(32 - shift, shift);
    PowValues();
    WrapShifted(w, k, Pow2(shift), Pow2(32 - shift));
  }

  /** With pinning, a rounding sum that wraps comes out as the smallest Int32. */
  lemma {:induction false} NarrowPinned(v: int, shift: nat)
    requires 1 <= shift <= 31 && -0x8000_0000_0000_0000 <= v < 0x8000_0000_0000_0000
    ensures var w := v + Pow2(shift - 1);
      && (w < 0x8000_0000_0000_0000 ==> Narrow(v, shift, true) == Clamp32(w / Pow2(shift)))
      && (w >= 0x8000_0000_0000_0000 ==> Narrow(v, shift, true) == -0x8000_0000)
  {
    hide Pow2;
    PowMonotone(shift - 1, 30);
    PowValues();
    var w := v + Pow2(shift - 1);
    DivideLarge(w, shift);
    if w >= 0x8000_0000_0000_0000 {
      assert S64(w) == w - TWO64;
      DivideLarge(w - TWO64, shift);
    }
  }

  /** Both, for a half and a divisor given as numbers. */
  lemma {:induction false} NarrowBy(v: int, shift: nat, half: nat, p: nat)
    requires -0x8000_0000_0000_0000 <= v < 0x8000_0000_0000_0000
    requires (shift == 16 && half == 0x8000 && p == 0x1_0000)
          || (shift == 30 && half == 0x2000_0000 && p == 0x4000_0000)
    ensures Narrow(v, shift, false) == S32((v + half) / p)
    ensures v + half < 0x8000_0000_0000_0000 ==> Narrow(v, shift, true) == Clamp32((v + half) / p)
    ensures v + half >= 0x8000_0000_0000_0000 ==> Narrow(v, shift, true) == -0x8000_0000
  {
    assert Pow2(15) == 0x8000 && Pow2(29) == 0x2000_0000 by {
      PowValues();
      PowAdd(7, 8);
      PowAdd(5, 24);
    }
    PowValues();
    hide Narrow, S32, Pow2;
    NarrowWraps(v, shift);
    NarrowPinned(v, shift);
  }
}
