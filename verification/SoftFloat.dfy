/** The single-precision software multiply of src/float-mul-fix, on IEEE 754
    binary32 words held as unsigned integers. */
module SoftFloat {
  import opened Bits

  /** The test that picks the normalisation branch: the one compiled at line 52
      of float-mul-test.c, and the one at line 53, which is what the assembly
      routine _mulsf3.s does. */
  datatype Guard = Line52 | Line53

  const EXCESS := 126
  const IMPLICIT_BIT := 0x80_0000
  const SIGN_BIT := 0x8000_0000

  // ----- the fields of a word -----

  function Fraction(u: UInt32): int { u % 0x80_0000 }

  function Exponent(u: UInt32): int { u / 0x80_0000 % 0x100 }

  predicate Negative(u: UInt32) { u >= SIGN_BIT }

  /** The significand of a normal word, with its implicit bit. */
  function Mantissa(u: UInt32): (m: int)
    ensures IMPLICIT_BIT <= m < 2 * IMPLICIT_BIT
  {
    IMPLICIT_BIT + Fraction(u)
  }

  predicate Normal(u: UInt32) { 1 <= Exponent(u) <= 254 }

  predicate Finite(u: UInt32) { Exponent(u) <= 254 }

  /** The exact value of a finite word, zeros and subnormals included, in
      units of 2^-149. */
  function Units(u: UInt32): int
    requires Finite(u)
  {
    if Negative(u) then -Magnitude(u) else Magnitude(u)
  }

  function Magnitude(u: UInt32): (r: int)
    requires Finite(u)
    ensures r >= 0
  {
    if Exponent(u) == 0 then Fraction(u) else Mantissa(u) * Pow2(Exponent(u) - 1)
  }

  // ----- the routine -----

  /** The full 48-bit product of the significands. */
  function FullProduct(uA: UInt32, uB: UInt32): (p: int)
    ensures 0x4000_0000_0000 <= p <= 0xff_ffff * 0xff_ffff
  {
    ProductRange(Mantissa(uA), Mantissa(uB));
    Mantissa(uA) * Mantissa(uB)
  }

  /** The product with its 16 low bits dropped. */
  function Truncated(uA: UInt32, uB: UInt32): (t: int)
    ensures 0x4000_0000 <= t < TWO32
  {
    FullProduct(uA, uB) / 0x1_0000
  }

  /** The biased exponent of the top branch, modulo 2^32. */
  function ExponentSum(uA: UInt32, uB: UInt32): int {
    U32(U32(Exponent(uA) - EXCESS) + Exponent(uB))
  }

  function ProductSign(uA: UInt32, uB: UInt32): nat {
    if Negative(uA) != Negative(uB) then SIGN_BIT else 0
  }

  predicate TakesTop(truncated: nat, guard: Guard) {
    match guard
    case Line52 => truncated / 0x8000_0000 % 2 == 1
    case Line53 => (truncated + 0x40) / 0x8000_0000 % 2 == 1
  }

  /** The word the routine puts together from a rounded significand. */
  function Assemble(m: nat, e: int, sign: nat): nat {
    Or(Or(And(m, 0xffff_ffff_ffff_ffff - IMPLICIT_BIT) % TWO32, U32(e * 0x80_0000)), sign)
  }

  /** Normalising, rounding and packing a truncated product. */
  function RoundAndPack(t: nat, e: int, sign: nat, guard: Guard): nat {
    if TakesTop(t, guard) then Assemble((t + 0x80) / 0x100, e, sign)
    else Assemble((t + 0x40) / 0x80, U32(e - 1), sign)
  }

  function Product(uA: UInt32, uB: UInt32, guard: Guard): nat {
    if uA == 0 || uB == 0 then 0
    else
      RoundAndPack(Truncated(uA, uB), ExponentSum(uA, uB), ProductSign(uA, uB), guard)
  }

  method MulSF3(uA: UInt32, uB: UInt32, guard: Guard) returns (resU: nat)
    ensures resU == Product(uA, uB, guard)
    ensures uA == 0 || uB == 0 ==> resU == 0
    ensures uA != 0 && uB != 0 && guard == Line53 ==>
      && resU < 0x1_0000_0000
      && resU % 0x80_0000 == RoundedMantissa(FullProduct(uA, uB)) - 0x80_0000
      && resU / 0x80_0000 % 0x100 == ResultExponent(uA, uB) % 0x100
      && (resU >= 0x8000_0000 <==> Negative(uA) != Negative(uB) || ResultExponent(uA, uB) / 0x100 % 2 == 1)
  {
    hide And, Or, Xor, RoundAndPack, RoundedMantissa, ResultExponent, FullProduct, Exponent, Negative;
    if uA == 0 || uB == 0 {
      return 0;
    }
    var signRes := Xor(And(uA, SIGN_BIT), And(uB, SIGN_BIT));
    SignByXor(uA, uB);
    var mantissaA: int := Or(And(uA, 0x7f_ffff), IMPLICIT_BIT);
    var mantissaB: int := Or(And(uB, 0x7f_ffff), IMPLICIT_BIT);
    var expA := And(uA / 0x80_0000, 0xff);
    var expB := And(uB / 0x80_0000, 0xff);
    FieldsByMasking(uA);
    FieldsByMasking(uB);
    var expSum: int := U32(U32(expA - EXCESS) + expB);
    var mantissaProd: int := mantissaA * mantissaB / 0x1_0000;
    TruncatedIs(uA, uB);
    resU := RoundProduct(mantissaProd, expSum, signRes, guard);
    AnyProduct(uA, uB);
  }

  lemma TruncatedIs(uA: UInt32, uB: UInt32)
    ensures Truncated(uA, uB) == Mantissa(uA) * Mantissa(uB) / 0x1_0000 >= 0
  {
    hide Exponent, Negative;
  }

  /** Lines 52 to 64. */
  method RoundProduct(truncated: nat, exponent: int, signRes: nat, guard: Guard) returns (resU: nat)
    ensures resU == RoundAndPack(truncated, exponent, signRes, guard)
  {
    hide And, Or;
    var mantissaProd, expSum := truncated, exponent;
    var top: bool;
    match guard {
      case Line52 =>
        top := And(mantissaProd, SIGN_BIT) != 0;
        Bit31(mantissaProd);
      case Line53 =>
        top := And(mantissaProd + 0x40, SIGN_BIT) != 0;
        Bit31(mantissaProd + 0x40);
    }
    if top {
      mantissaProd := mantissaProd + 0x80;
      mantissaProd := mantissaProd / 0x100;
    } else {
      mantissaProd := mantissaProd + 0x40;
      mantissaProd := mantissaProd / 0x80;
      expSum := U32(expSum - 1);
    }
    resU := Or(Or(And(mantissaProd, 0xffff_ffff_ffff_ffff - IMPLICIT_BIT) % TWO32,
                  U32(expSum * 0x80_0000)), signRes);
  }

  // ----- what the masks select -----

  lemma ProductRange(a: int, b: int)
    requires 0x80_0000 <= a <= 0xff_ffff && 0x80_0000 <= b <= 0xff_ffff
    ensures 0x4000_0000_0000 <= a * b <= 0xff_ffff * 0xff_ffff
  {
    MulBounds(a, b, 0x80_0000, 0xff_ffff);
    MulBounds(b, 0x80_0000, 0x80_0000, 0xff_ffff);
  }

  lemma {:induction false} FieldsByMasking(u: UInt32)
    ensures Or(And(u, 0x7f_ffff), IMPLICIT_BIT) == Mantissa(u)
    ensures And(u / 0x80_0000, 0xff) == Exponent(u)
    ensures And(u, SIGN_BIT) == if Negative(u) then SIGN_BIT else 0
  {
    PowValues();
    AndLow(u, 23);
    OrDisjoint(1, Fraction(u), 23);
    AndLow(u / 0x80_0000, 8);
    AndSplit(u, u / SIGN_BIT, u % SIGN_BIT, SIGN_BIT, 1, 0, 31);
  }

  lemma {:induction false} SignByXor(uA: UInt32, uB: UInt32)
    ensures Xor(And(uA, SIGN_BIT), And(uB, SIGN_BIT))
         == ProductSign(uA, uB)
  {
    FieldsByMasking(uA);
    FieldsByMasking(uB);
    XorSelf(SIGN_BIT);
  }

  lemma {:induction false} XorSelf(x: nat)
    ensures Xor(x, x) == 0
  {
    if x > 0 {
      XorSelf(x / 2);
    }
  }

  lemma {:induction false} Bit31(t: nat)
    ensures And(t, SIGN_BIT) != 0 <==> t / SIGN_BIT % 2 == 1
  {
    PowValues();
    var h := t / SIGN_BIT;
    AndSplit(t, h, t % SIGN_BIT, SIGN_BIT, 1, 0, 31);
    AndStep(h, 1);
  }

  // ----- packing -----

  const CLEAR_MASK := 0xffff_ffff_ffff_ffff - 0x80_0000

  lemma {:induction false} ClearImplicitBit(m: nat, mask: nat)
    requires IMPLICIT_BIT <= m <= 2 * IMPLICIT_BIT && mask == CLEAR_MASK
    ensures And(m, mask) == if m == 2 * IMPLICIT_BIT then m else m - IMPLICIT_BIT
  {
    hide And;
    PowValues();
    var h, f, mh := m / IMPLICIT_BIT, m % IMPLICIT_BIT, mask / IMPLICIT_BIT;
    assert mask % IMPLICIT_BIT == Pow2(23) - 1;
    AndSplit(m, h, f, mask, mh, Pow2(23) - 1, 23);
    AndLow(f, 23);
    AndEven(h, mh);
  }

  lemma {:induction false} AndEven(h: nat, mh: nat)
    requires 1 <= h <= 2 && mh % 4 == 2
    ensures And(h, mh) == if h == 2 then 2 else 0
  {
    AndStep(h, mh);
    AndStep(h / 2, mh / 2);
  }

  /** Disjoint fields: | is +. */
  lemma OrFields(f: nat, e: nat, sign: nat)
    requires f < IMPLICIT_BIT && e <= 255 && (sign == 0 || sign == SIGN_BIT)
    ensures Or(f, e * IMPLICIT_BIT) == e * IMPLICIT_BIT + f
    ensures Or(e * IMPLICIT_BIT + f, sign) == sign + e * IMPLICIT_BIT + f
  {
    hide Or;
    PowValues();
    OrDisjoint(e, f, 23);
    OrDisjoint(if sign == 0 then 0 else 1, e * IMPLICIT_BIT + f, 31);
  }

  /** Fields in range do not disturb each other. */
  lemma AssembledWord(m: nat, e: int, sign: nat)
    requires IMPLICIT_BIT <= m < 2 * IMPLICIT_BIT && 0 <= e <= 255
    requires sign == 0 || sign == SIGN_BIT
    ensures Assemble(m, e, sign) == sign + e * IMPLICIT_BIT + (m - IMPLICIT_BIT)
  {
    hide And, Or;
    ClearImplicitBit(m, CLEAR_MASK);
    assert And(m, CLEAR_MASK) % TWO32 == m - IMPLICIT_BIT;
    assert U32(e * 0x80_0000) == e * IMPLICIT_BIT;
    OrFields(m - IMPLICIT_BIT, e, sign);
  }

  lemma FieldsOf(w: int, m: int, e: int, sign: int)
    requires IMPLICIT_BIT <= m < 2 * IMPLICIT_BIT && 0 <= e <= 255
    requires sign == 0 || sign == SIGN_BIT
    requires w == sign + e * IMPLICIT_BIT + (m - IMPLICIT_BIT)
    ensures 0 <= w < TWO32 && Exponent(w) == e && Mantissa(w) == m
    ensures Negative(w) <==> sign != 0
  {
  }

  // ----- the line-53 routine rounds correctly -----

  /** The exponent of the correctly rounded product, if it is in range. */
  function ResultExponent(uA: UInt32, uB: UInt32): int {
    Exponent(uA) + Exponent(uB) - EXCESS
      - (if FullProduct(uA, uB) >= 0x8000_0000_0000 - 0x40_0000 then 0 else 1)
  }

  predicate InRange(uA: UInt32, uB: UInt32) {
    Normal(uA) && Normal(uB) && 1 <= ResultExponent(uA, uB) <= 254
  }

  /** The 24-bit significand nearest to the full product, ties upwards. */
  function RoundedMantissa(p: int): int {
    if p >= 0x8000_0000_0000 - 0x40_0000 then (p + 0x80_0000) / 0x100_0000
    else (p + 0x40_0000) / 0x80_0000
  }

  /** Dropping 16 bits first loses nothing: the rounded significand is the one
      of the full product, and rounding never carries into a 25th bit. */
  lemma TruncationIsHarmless(p: nat)
    requires 0x4000_0000_0000 <= p <= 0xff_ffff * 0xff_ffff
    ensures var t := p / 0x1_0000;
      && (TakesTop(t, Line53) <==> p >= 0x8000_0000_0000 - 0x40_0000)
      && RoundedMantissa(p) == (if TakesTop(t, Line53) then (t + 0x80) / 0x100 else (t + 0x40) / 0x80)
    ensures IMPLICIT_BIT <= RoundedMantissa(p) < 2 * IMPLICIT_BIT
  {
  }

  /** Wrapping on the way does not matter when the result is in range. */
  lemma ExponentSumInRange(uA: UInt32, uB: UInt32)
    requires 1 <= Exponent(uA) + Exponent(uB) - EXCESS <= 255
    ensures ExponentSum(uA, uB) == Exponent(uA) + Exponent(uB) - EXCESS
    ensures U32(ExponentSum(uA, uB) - 1) == Exponent(uA) + Exponent(uB) - EXCESS - 1
  {
    hide Exponent;
    WrappedSum(Exponent(uA) - EXCESS, Exponent(uB));
  }

  lemma WrappedSum(x: int, y: int)
    requires 0 <= x + y < TWO32
    ensures U32(U32(x) + y) == x + y
  {
    QuotientRemainder(x, TWO32);
    DivUnique(x % TWO32 + y, TWO32, 0 - x / TWO32, x + y);
  }

  lemma TruncatedFacts(uA: UInt32, uB: UInt32)
    ensures var t, m := Truncated(uA, uB), RoundedMantissa(FullProduct(uA, uB));
      && m == (if TakesTop(t, Line53) then (t + 0x80) / 0x100 else (t + 0x40) / 0x80)
      && IMPLICIT_BIT <= m < 2 * IMPLICIT_BIT
      && ResultExponent(uA, uB)
         == Exponent(uA) + Exponent(uB) - EXCESS - (if TakesTop(t, Line53) then 0 else 1)
  {
    hide TakesTop, RoundedMantissa, FullProduct, Exponent;
    TruncationIsHarmless(FullProduct(uA, uB));
  }

  lemma ProductWord(uA: UInt32, uB: UInt32)
    requires InRange(uA, uB)
    ensures Product(uA, uB, Line53)
         == ProductSign(uA, uB) + ResultExponent(uA, uB) * IMPLICIT_BIT
            + (RoundedMantissa(FullProduct(uA, uB)) - IMPLICIT_BIT)
  {
    hide RoundAndPack, TakesTop, RoundedMantissa, FullProduct, Truncated, ExponentSum, ResultExponent;
    assert Product(uA, uB, Line53)
        == RoundAndPack(Truncated(uA, uB), ExponentSum(uA, uB), ProductSign(uA, uB), Line53);
    assert 1 <= ResultExponent(uA, uB) <= 254;
    hide Product, InRange, Exponent;
    TruncatedFacts(uA, uB);
    ExponentSumInRange(uA, uB);
    PackedInRange(Truncated(uA, uB), ExponentSum(uA, uB), ProductSign(uA, uB));
  }

  // ----- the word for any operands -----

  lemma WrappedOnce(x: int, y: int)
    ensures U32(U32(x) + y) == U32(x + y)
  {
    QuotientRemainder(x, TWO32);
    ModPlus(U32(x) + y, x / TWO32, TWO32);
  }

  /** The exponent field of a wrapped exponent: nine bits of it survive the shift. */
  lemma ShiftedExponent(r: int)
    ensures U32(U32(r) * 0x80_0000) == r % 0x200 * 0x80_0000
  {
    QuotientRemainder(r, TWO32);
    assert U32(r) * 0x80_0000 == r * 0x80_0000 - (r / TWO32) * 0x80_0000 * TWO32;
    ModPlus(r * 0x80_0000, -((r / TWO32) * 0x80_0000), TWO32);
    QuotientRemainder(r, 0x200);
    DivUnique(r * 0x80_0000, TWO32, r / 0x200, r % 0x200 * 0x80_0000);
  }

  /** ORing the sign onto a word that may have its top bit set already. */
  lemma {:induction false} OrSign(h: nat, y: nat, s: nat)
    requires h <= 1 && s <= 1 && y < SIGN_BIT
    ensures Or(h * SIGN_BIT + y, s * SIGN_BIT) == (if h == 1 || s == 1 then SIGN_BIT else 0) + y
  {
    hide And, Or;
    PowValues();
    AndSplit(h * SIGN_BIT + y, h, y, s * SIGN_BIT, s, 0, 31);
    assert And(h, s) == if h == 1 && s == 1 then 1 else 0 by {
      AndStep(h, s);
    }
    OrPlusAnd(h * SIGN_BIT + y, s * SIGN_BIT);
  }

  lemma {:induction false} AssembledAny(m: nat, r: int, s: nat)
    requires IMPLICIT_BIT <= m < 2 * IMPLICIT_BIT && s <= 1
    ensures Assemble(m, U32(r), s * SIGN_BIT)
         == (if r % 0x200 >= 0x100 || s == 1 then SIGN_BIT else 0) + r % 0x100 * IMPLICIT_BIT + (m - IMPLICIT_BIT)
  {
    hide And, Or;
    var f, k := m - IMPLICIT_BIT, r % 0x200;
    ClearImplicitBit(m, CLEAR_MASK);
    assert And(m, CLEAR_MASK) % TWO32 == f;
    ShiftedExponent(r);
    PowValues();
    OrDisjoint(k, f, 23);
    var h := k / 0x100;
    ModMod(r, 0x100, 2);
    OrSign(h, k % 0x100 * IMPLICIT_BIT + f, s);
  }

  /** Main theorem: for any operands other than +0, zeros, subnormals, infinities and NaNs
      included, the line-53 routine returns the rounded fraction, the low eight bits of the
      exponent and the sign, which a ninth bit of the exponent sets as well. */
  lemma {:induction false} AnyProduct(uA: UInt32, uB: UInt32)
    requires uA != 0 && uB != 0
    ensures var w, r := Product(uA, uB, Line53), ResultExponent(uA, uB);
      && w < 0x1_0000_0000
      && w % 0x80_0000 == RoundedMantissa(FullProduct(uA, uB)) - 0x80_0000
      && w / 0x80_0000 % 0x100 == r % 0x100
      && (w >= 0x8000_0000 <==> Negative(uA) != Negative(uB) || r / 0x100 % 2 == 1)
  {
    hide RoundedMantissa, FullProduct, Truncated, ResultExponent, Assemble, TakesTop, Exponent, Negative;
    var t, m, r := Truncated(uA, uB), RoundedMantissa(FullProduct(uA, uB)), ResultExponent(uA, uB);
    var s := if Negative(uA) != Negative(uB) then 1 else 0;
    TruncatedFacts(uA, uB);
    WrappedOnce(Exponent(uA) - EXCESS, Exponent(uB));
    WrappedOnce(Exponent(uA) + Exponent(uB) - EXCESS, -1);
    AssembledAny(m, r, s);
    assert Product(uA, uB, Line53) == Assemble(m, U32(r), s * SIGN_BIT);
    NinthBit(r);
    FieldsOf(Product(uA, uB, Line53), m, r % 0x100, if r % 0x200 >= 0x100 || s == 1 then SIGN_BIT else 0);
    FieldValues(Product(uA, uB, Line53));
  }

  lemma NinthBit(r: int)
    ensures r % 0x200 >= 0x100 <==> r / 0x100 % 2 == 1
  {
    QuotientRemainder(r, 0x100);
    QuotientRemainder(r / 0x100, 2);
    DivUnique(r, 0x200, r / 0x100 / 2, r / 0x100 % 2 * 0x100 + r % 0x100);
  }

  lemma FieldValues(w: UInt32)
    ensures w % 0x80_0000 == Mantissa(w) - 0x80_0000 && w / 0x80_0000 % 0x100 == Exponent(w)
    ensures w >= 0x8000_0000 <==> Negative(w)
  {
  }

  lemma PackedInRange(t: nat, e: int, sign: nat)
    requires sign == 0 || sign == SIGN_BIT
    requires var m := if TakesTop(t, Line53) then (t + 0x80) / 0x100 else (t + 0x40) / 0x80;
      IMPLICIT_BIT <= m < 2 * IMPLICIT_BIT
    requires 1 <= (if TakesTop(t, Line53) then e else e - 1) <= 254
    ensures RoundAndPack(t, e, sign, Line53)
         == sign + (if TakesTop(t, Line53) then e else e - 1) * IMPLICIT_BIT
            + ((if TakesTop(t, Line53) then (t + 0x80) / 0x100 else (t + 0x40) / 0x80) - IMPLICIT_BIT)
  {
    hide Assemble;
    if TakesTop(t, Line53) {
      AssembledWord((t + 0x80) / 0x100, e, sign);
    } else {
      AssembledWord((t + 0x40) / 0x80, e - 1, sign);
    }
  }

  /** The word has the sign, exponent and significand of the rounded product. */
  lemma ProductFields(uA: UInt32, uB: UInt32)
    requires InRange(uA, uB)
    ensures var w := Product(uA, uB, Line53);
      && w < TWO32
      && Exponent(w) == ResultExponent(uA, uB)
      && Mantissa(w) == RoundedMantissa(FullProduct(uA, uB))
      && (Negative(w) <==> Negative(uA) != Negative(uB))
  {
    ProductWord(uA, uB);
    TruncationIsHarmless(FullProduct(uA, uB));
    FieldsOf(Product(uA, uB, Line53), RoundedMantissa(FullProduct(uA, uB)),
             ResultExponent(uA, uB), ProductSign(uA, uB));
  }

  /** Distance of a word from the exact product, in units of 2^-298. */
  function Distance(w: UInt32, uA: UInt32, uB: UInt32): int
    requires Finite(w) && Finite(uA) && Finite(uB)
  {
    Abs(Units(w) * Pow2(149) - Units(uA) * Units(uB))
  }

  function Abs(x: int): int { if x < 0 then -x else x }

  /** Section 4.3.1 of IEEE 754-2008, roundTiesToAway: no finite word is nearer
      to the exact product, and none as near is larger in magnitude. */
  ghost predicate RoundsToNearestTiesAway(r: UInt32, uA: UInt32, uB: UInt32)
    requires Finite(uA) && Finite(uB)
  {
    Finite(r) && forall w: UInt32 | Finite(w) ::
      && Distance(r, uA, uB) <= Distance(w, uA, uB)
      && (Distance(r, uA, uB) == Distance(w, uA, uB) ==> Magnitude(w) <= Magnitude(r))
  }

  lemma MulStrict(a: int, b: int, d: int)
    requires a < b && d >= 0
    ensures a * d + d <= b * d
  {
    Distribute(b, a, d);
    MulAtLeast(b - a, d);
  }

  /** A multiple of the grid 4v is no nearer to q than the rounded m * 4v. */
  lemma NearestOnGrid(q: int, m: int, k: int, v: int)
    requires v > 0 && (m * v) * 4 - 2 * v <= q < (m * v) * 4 + 2 * v
    ensures Abs((m * v) * 4 - q) <= Abs((k * v) * 4 - q)
    ensures Abs((m * v) * 4 - q) == Abs((k * v) * 4 - q) ==> k <= m
  {
    if k < m {
      MulStrict(k, m, v);
    } else if k > m {
      MulStrict(m, k, v);
    }
  }

  /** Neither is a value of a finer binade, which stays below 2^23 steps. */
  lemma NearestOffGrid(q: int, m: int, v: int, w: int)
    requires v > 0 && (m * v) * 4 - 2 * v <= q < (m * v) * 4 + 2 * v
    requires m >= IMPLICIT_BIT && (m == IMPLICIT_BIT ==> q >= (m * v) * 4 - v)
    requires w <= (IMPLICIT_BIT * v) * 4 - 2 * v
    ensures Abs((m * v) * 4 - q) <= Abs(w - q) && w <= (m * v) * 4
  {
    if m > IMPLICIT_BIT {
      MulStrict(IMPLICIT_BIT, m, v);
    }
  }

  /** |w| scaled to units of 2^-298 is a small integer times a power of two. */
  lemma ScaledMagnitude(w: UInt32) returns (k: nat, x: nat)
    requires Finite(w)
    ensures k < 2 * IMPLICIT_BIT && x >= 149
    ensures Exponent(w) >= 1 ==> k == Mantissa(w) && x == Exponent(w) + 148
    ensures Magnitude(w) * Pow2(149) == k * Pow2(x)
  {
    hide Pow2;
    if Exponent(w) == 0 {
      k, x := Fraction(w), 149;
    } else {
      k, x := Mantissa(w), Exponent(w) + 148;
      Reassociate(k, Pow2(Exponent(w) - 1), Pow2(149));
      PowAdd(Exponent(w) - 1, 149);
    }
  }

  /** The exact product is the full product times a power of two. */
  lemma ExactProduct(uA: UInt32, uB: UInt32)
    requires Normal(uA) && Normal(uB)
    ensures Magnitude(uA) * Magnitude(uB)
         == FullProduct(uA, uB) * Pow2(Exponent(uA) + Exponent(uB) - 2)
  {
    hide Pow2;
    PowAdd(Exponent(uA) - 1, Exponent(uB) - 1);
    Interchange(Mantissa(uA), Pow2(Exponent(uA) - 1), Mantissa(uB), Pow2(Exponent(uB) - 1));
  }

  lemma Interchange(a: int, b: int, c: int, d: int)
    ensures (a * b) * (c * d) == (a * c) * (b * d)
  {
  }

  /** No k * 2^x with a 24-bit k is nearer to q than (m * v) * 4, where 4v is the
      weight of the last place of the result. */
  lemma {:induction false} NearestMagnitude(q: int, m: int, v: int, g: nat, k: nat, x: nat)
    requires v == Pow2(g) && k < 2 * IMPLICIT_BIT
    requires (m * v) * 4 - 2 * v <= q < (m * v) * 4 + 2 * v
    requires m >= IMPLICIT_BIT && (m == IMPLICIT_BIT ==> q >= (m * v) * 4 - v)
    ensures Abs((m * v) * 4 - q) <= Abs(k * Pow2(x) - q)
    ensures Abs((m * v) * 4 - q) == Abs(k * Pow2(x) - q) ==> k * Pow2(x) <= (m * v) * 4
  {
    hide Pow2;
    if x >= g + 2 {
      OnGrid(k, x, g);
      var j := k * Pow2(x - g - 2);
      NearestOnGrid(q, m, j, v);
      if j <= m {
        MulBounds(j, v, j, m);
      }
    } else {
      OffGrid(k, x, g);
      NearestOffGrid(q, m, v, k * Pow2(x));
    }
  }

  lemma OnGrid(k: nat, x: nat, g: nat)
    requires x >= g + 2
    ensures k * Pow2(x) == (k * Pow2(x - g - 2) * Pow2(g)) * 4
  {
    var y := x - g - 2;
    PowAdd(y, g + 2);
    PowAdd(g, 2);
    Reassociate(k, Pow2(y), Pow2(g));
    Reassociate(k, Pow2(y) * Pow2(g), 4);
    Reassociate(Pow2(y), Pow2(g), 4);
  }

  lemma {:induction false} OffGrid(k: nat, x: nat, g: nat)
    requires x < g + 2 && k < 2 * IMPLICIT_BIT
    ensures k * Pow2(x) <= (IMPLICIT_BIT * Pow2(g)) * 4 - 2 * Pow2(g)
  {
    PowMonotone(x, g + 1);
    MulBounds(Pow2(x), k, 0, Pow2(g + 1));
    MulBounds(k, Pow2(g + 1), 0, 2 * IMPLICIT_BIT - 1);
  }

  /** The bounds of rounding, scaled by the common power of two. */
  lemma RoundingBounds(p: int, c: int, u: int, v: int)
    requires 0x4000_0000_0000 <= p <= 0xff_ffff * 0xff_ffff && c > 0
    requires u == if p >= 0x8000_0000_0000 - 0x40_0000 then 0x40_0000 else 0x20_0000
    requires v == u * c
    ensures var m := RoundedMantissa(p);
      && v > 0
      && (m * v) * 4 - 2 * v <= p * c < (m * v) * 4 + 2 * v
      && IMPLICIT_BIT <= m && (m == IMPLICIT_BIT ==> p * c >= (m * v) * 4 - v)
  {
    TruncationIsHarmless(p);
    var m := RoundedMantissa(p);
    assert 4 * (m * u) - 2 * u <= p <= 4 * (m * u) + 2 * u - 1;
    assert m == IMPLICIT_BIT ==> p >= 4 * (m * u) - u;
    Reassociate(m, u, c);
    ScaledBounds(p, m * u, u, c, m == IMPLICIT_BIT);
  }

  lemma ScaledBounds(p: int, a: int, u: int, c: int, tight: bool)
    requires c > 0 && u > 0 && 4 * a - 2 * u <= p <= 4 * a + 2 * u - 1
    requires tight ==> p >= 4 * a - u
    ensures u * c > 0
    ensures 4 * (a * c) - 2 * (u * c) <= p * c < 4 * (a * c) + 2 * (u * c)
    ensures tight ==> p * c >= 4 * (a * c) - u * c
  {
    MulAtLeast(u, c);
    MulBounds(p, c, 4 * a - 2 * u, 4 * a + 2 * u - 1);
    if tight {
      MulBounds(p, c, 4 * a - u, p);
    }
  }

  lemma SignedProduct(uA: UInt32, uB: UInt32)
    requires Finite(uA) && Finite(uB)
    ensures Units(uA) * Units(uB)
         == (if Negative(uA) != Negative(uB) then -(Magnitude(uA) * Magnitude(uB))
             else Magnitude(uA) * Magnitude(uB))
  {
    hide Magnitude;
  }

  /** A word of the product's sign is at the distance of the magnitudes, one of
      the other sign is no nearer. */
  lemma SignedDistance(w: UInt32, uA: UInt32, uB: UInt32)
    requires Finite(w) && Finite(uA) && Finite(uB)
    ensures var d := Abs(Magnitude(w) * Pow2(149) - Magnitude(uA) * Magnitude(uB));
      && Distance(w, uA, uB) >= d
      && ((Negative(w) <==> Negative(uA) != Negative(uB)) ==> Distance(w, uA, uB) == d)
  {
    hide Pow2, Magnitude;
    SignedProduct(uA, uB);
    var a, q := Magnitude(w) * Pow2(149), Magnitude(uA) * Magnitude(uB);
    MulAtLeastZero(Magnitude(w), Pow2(149));
    MulAtLeastZero(Magnitude(uA), Magnitude(uB));
    assert Units(w) * Pow2(149) == if Negative(w) then -a else a by { Distribute(0, Magnitude(w), Pow2(149)); }
  }

  /** Main theorem: whenever the rounded result is a normal number, the routine
      with the line-53 test returns the exact product rounded to nearest, ties
      away from zero. */
  lemma CorrectlyRounded(uA: UInt32, uB: UInt32)
    requires InRange(uA, uB)
    ensures Product(uA, uB, Line53) < TWO32
    ensures RoundsToNearestTiesAway(Product(uA, uB, Line53), uA, uB)
  {
    ProductFields(uA, uB);
    forall w: UInt32 | Finite(w)
      ensures Distance(Product(uA, uB, Line53), uA, uB) <= Distance(w, uA, uB)
      ensures Distance(Product(uA, uB, Line53), uA, uB) == Distance(w, uA, uB) ==>
        Magnitude(w) <= Magnitude(Product(uA, uB, Line53))
    {
      NoneNearer(uA, uB, w);
    }
  }

  lemma SmallPowers()
    ensures Pow2(21) == 0x20_0000 && Pow2(22) == 0x40_0000
  {
    PowAdd(16, 5);
    PowAdd(16, 6);
  }

  lemma NoneNearer(uA: UInt32, uB: UInt32, w: UInt32)
    requires InRange(uA, uB) && Finite(w)
    requires Product(uA, uB, Line53) < TWO32
    requires Exponent(Product(uA, uB, Line53)) == ResultExponent(uA, uB)
    requires Mantissa(Product(uA, uB, Line53)) == RoundedMantissa(FullProduct(uA, uB))
    requires Negative(Product(uA, uB, Line53)) <==> Negative(uA) != Negative(uB)
    ensures var r := Product(uA, uB, Line53);
      && Distance(r, uA, uB) <= Distance(w, uA, uB)
      && (Distance(r, uA, uB) == Distance(w, uA, uB) ==> Magnitude(w) <= Magnitude(r))
  {
    hide Pow2, Product, Magnitude, FullProduct, Distance, RoundedMantissa;
    var r: UInt32 := Product(uA, uB, Line53);
    var p, c := FullProduct(uA, uB), Exponent(uA) + Exponent(uB) - 2;
    var m, e := RoundedMantissa(p), ResultExponent(uA, uB);
    ExactProduct(uA, uB);
    SignedDistance(r, uA, uB);
    SignedDistance(w, uA, uB);
    var k, x := ScaledMagnitude(w);
    var mr, xr := ScaledMagnitude(r);
    var g := e + 146;
    var u := if e == c - 124 then 0x40_0000 else 0x20_0000;
    assert Pow2(g) == u * Pow2(c) by {
      PowAdd(g - c, c);
      SmallPowers();
    }
    RoundingBounds(p, Pow2(c), u, Pow2(g));
    PowValues();
    PowAdd(g, 2);
    Reassociate(m, Pow2(g), 4);
    NearestMagnitude(p * Pow2(c), m, Pow2(g), g, k, x);
    ScaleOrder(Magnitude(w), Magnitude(r), Pow2(149));
  }

  lemma ScaleOrder(a: int, b: int, d: int)
    requires d > 0
    ensures a * d <= b * d ==> a <= b
  {
    if a > b {
      MulStrict(b, a, d);
    }
  }

  // ----- what goes wrong with the line-52 test -----

  /** The truncated products that round up to 2^31 without reaching it. */
  predicate InBand(uA: UInt32, uB: UInt32) {
    0x8000_0000 - 0x40 <= Truncated(uA, uB) < 0x8000_0000
  }

  /** ORing 2^24 sets bit 1 of the exponent field instead of adding one to it. */
  lemma CarryIntoExponent(e: nat, sign: nat)
    requires e <= 253 && (sign == 0 || sign == SIGN_BIT)
    ensures Assemble(2 * IMPLICIT_BIT, e, sign) == sign + (if e / 2 % 2 == 1 then e else e + 2) * IMPLICIT_BIT
  {
    hide And, Or;
    ClearImplicitBit(2 * IMPLICIT_BIT, CLEAR_MASK);
    assert And(2 * IMPLICIT_BIT, CLEAR_MASK) % TWO32 == 2 * IMPLICIT_BIT;
    assert U32(e * 0x80_0000) == e * IMPLICIT_BIT;
    assert e / 2 % 2 == 1 ==> e >= 2;
    var e' := if e / 2 % 2 == 1 then e else e + 2;
    assert Or(2 * IMPLICIT_BIT, e * IMPLICIT_BIT) == e' * IMPLICIT_BIT by {
      PowValues();
      AndSplit(2 * IMPLICIT_BIT, 2, 0, e * IMPLICIT_BIT, e, 0, 23);
      AndBitOne(e);
      OrPlusAnd(2 * IMPLICIT_BIT, e * IMPLICIT_BIT);
    }
    assert e' <= 255;
    OrFields(0, e', sign);
  }

  lemma {:induction false} AndBitOne(e: nat)
    ensures And(2, e) == (if e / 2 % 2 == 1 then 2 else 0) && And(0, 0) == 0
  {
    AndStep(2, e);
    AndStep(1, e / 2);
  }

  /** In the band the two tests give words whose exponents differ by one. */
  lemma BandWords(uA: UInt32, uB: UInt32)
    requires InRange(uA, uB) && InBand(uA, uB)
    ensures var e := ResultExponent(uA, uB);
      && Product(uA, uB, Line53) == ProductSign(uA, uB) + e * IMPLICIT_BIT
      && Product(uA, uB, Line52) == ProductSign(uA, uB)
           + (if (e - 1) / 2 % 2 == 1 then e - 1 else e + 1) * IMPLICIT_BIT
  {
    hide Assemble, FullProduct, RoundedMantissa;
    ProductWord(uA, uB);
    ExponentSumInRange(uA, uB);
    BandRoundsUp(FullProduct(uA, uB));
    CarryIntoExponent(ResultExponent(uA, uB) - 1, ProductSign(uA, uB));
  }

  lemma BandRoundsUp(p: int)
    requires 0x8000_0000 - 0x40 <= p / 0x1_0000 < 0x8000_0000
    ensures RoundedMantissa(p) == IMPLICIT_BIT && p >= 0x8000_0000_0000 - 0x40_0000
    ensures !TakesTop(p / 0x1_0000, Line52) && (p / 0x1_0000 + 0x40) / 0x80 == 2 * IMPLICIT_BIT
  {
  }

  /** Outside the band the two tests choose the same branch. */
  lemma SameOutsideBand(uA: UInt32, uB: UInt32)
    requires !InBand(uA, uB)
    ensures Product(uA, uB, Line52) == Product(uA, uB, Line53)
  {
    hide Assemble, FullProduct;
  }

  /** Main theorem: the routine as compiled, with the line-52 test, rounds
      correctly exactly when the truncated product is outside the band. */
  lemma CompiledTestCorrectIff(uA: UInt32, uB: UInt32)
    requires InRange(uA, uB)
    ensures Product(uA, uB, Line52) < TWO32
    ensures RoundsToNearestTiesAway(Product(uA, uB, Line52), uA, uB) <==> !InBand(uA, uB)
  {
    hide Assemble, FullProduct, Pow2, Product;
    CorrectlyRounded(uA, uB);
    if InBand(uA, uB) {
      BandWords(uA, uB);
      var e := ResultExponent(uA, uB);
      var e' := if (e - 1) / 2 % 2 == 1 then e - 1 else e + 1;
      FieldsOf(Product(uA, uB, Line53), IMPLICIT_BIT, e, ProductSign(uA, uB));
      assert 1 <= e' <= 255;
      FieldsOf(Product(uA, uB, Line52), IMPLICIT_BIT, e', ProductSign(uA, uB));
      if e' <= 254 {
        MagnitudesDiffer(Product(uA, uB, Line53), Product(uA, uB, Line52));
      }
    } else {
      SameOutsideBand(uA, uB);
    }
  }

  /** Normal words with the same fraction and adjacent exponents differ by a
      factor of two. */
  lemma MagnitudesDiffer(u: UInt32, w: UInt32)
    requires Normal(u) && Normal(w) && Mantissa(u) == Mantissa(w)
    requires Exponent(w) == Exponent(u) + 1 || Exponent(w) == Exponent(u) - 1
    ensures Magnitude(w) == 2 * Magnitude(u) || Magnitude(u) == 2 * Magnitude(w)
    ensures Magnitude(u) != Magnitude(w)
  {
    var e := if Exponent(u) < Exponent(w) then Exponent(u) else Exponent(w);
    Double(Mantissa(u), Pow2(e - 1));
    MulAtLeast(Pow2(e - 1), Mantissa(u));
  }

  const INFINITY := 0x7f80_0000

  /** Main theorem: in the band the compiled test is wrong by a factor of two, half the
      right result where bit 1 of the exponent before the carry is set and twice it
      otherwise; for the largest exponent the double is an infinity. */
  lemma BandFactor(uA: UInt32, uB: UInt32)
    requires InRange(uA, uB) && InBand(uA, uB)
    ensures var e, right, wrong := ResultExponent(uA, uB), Product(uA, uB, Line53), Product(uA, uB, Line52);
      && right < TWO32 && wrong < TWO32
      && (e <= 253 ==>
           && Normal(right) && Normal(wrong) && Negative(right) == Negative(wrong)
           && if (e - 1) / 2 % 2 == 1 then Magnitude(right) == 2 * Magnitude(wrong)
              else Magnitude(wrong) == 2 * Magnitude(right))
      && (e == 254 ==> wrong == ProductSign(uA, uB) + INFINITY)
  {
    hide Assemble, FullProduct, Pow2, Product, ResultExponent;
    BandWords(uA, uB);
    var e, sign := ResultExponent(uA, uB), ProductSign(uA, uB);
    var e' := if (e - 1) / 2 % 2 == 1 then e - 1 else e + 1;
    assert 1 <= e' <= 255;
    FieldsOf(Product(uA, uB, Line53), IMPLICIT_BIT, e, sign);
    FieldsOf(Product(uA, uB, Line52), IMPLICIT_BIT, e', sign);
    if e <= 253 {
      OneStepLarger(if e < e' then Product(uA, uB, Line53) else Product(uA, uB, Line52),
                    if e < e' then Product(uA, uB, Line52) else Product(uA, uB, Line53));
    }
  }

  lemma OneStepLarger(u: UInt32, w: UInt32)
    requires Normal(u) && Normal(w) && Mantissa(u) == Mantissa(w) && Exponent(w) == Exponent(u) + 1
    ensures Magnitude(w) == 2 * Magnitude(u)
  {
    Double(Mantissa(u), Pow2(Exponent(u) - 1));
  }

  /** The test program's first case, 50.0f * 0.08f: the compiled test gives 8.0,
      the other one 4.0. */
  lemma FiftyTimesEightHundredths()
    ensures Product(0x4248_0000, 0x3da3_d70a, Line52) == 0x4100_0000
    ensures Product(0x4248_0000, 0x3da3_d70a, Line53) == 0x4080_0000
    ensures InRange(0x4248_0000, 0x3da3_d70a) && InBand(0x4248_0000, 0x3da3_d70a)
  {
    hide Assemble, Product;
    var a: UInt32, b: UInt32 := 0x4248_0000, 0x3da3_d70a;
    assert Mantissa(a) == 0xc8_0000 && Mantissa(b) == 0xa3_d70a;
    assert FullProduct(a, b) == 0xc8_0000 * 0xa3_d70a;
    assert Exponent(a) == 132 && Exponent(b) == 123;
    assert ResultExponent(a, b) == 129;
    BandWords(a, b);
  }
}
