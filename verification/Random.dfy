/** The linear congruential generator of hsRandom.h and its full period. */
module Random {
  import opened Bits

  const MUL := 1664525
  const ADD := 1013904223

  /** One step of the recurrence. */
  function Step(x: UInt32): UInt32 {
    U32(MUL * x + ADD)
  }

  /** The seed after n steps. */
  function Iterate(x: UInt32, n: nat): UInt32 {
    if n == 0 then x else Step(Iterate(x, n - 1))
  }

  class HsRandom {
    var fSeed: UInt32

    method GetSeed() returns (seed: UInt32)
      ensures seed == fSeed
    {
      seed := fSeed;
    }

    method SetSeed(seed: UInt32)
      modifies this
      ensures fSeed == seed
    {
      fSeed := seed;
    }

    /** The next word; stepping back from it, with the inverse of the multiplier modulo
        2^32, gives the seed there was. */
    method NextU() returns (r: UInt32)
      modifies this
      ensures fSeed == Step(old(fSeed)) && r == fSeed
      ensures old(fSeed) == (4276115653 * (r - 1013904223)) % 0x1_0000_0000
    {
      StepBack(fSeed);
      fSeed := U32(MUL * fSeed + ADD);
      r := fSeed;
    }

    /** The same step, read as a signed word. */
    method NextS() returns (r: Int32)
      modifies this
      ensures fSeed == Step(old(fSeed)) && r == S32(fSeed)
      ensures old(fSeed) == (4276115653 * (r - 1013904223)) % 0x1_0000_0000
    {
      StepBack(fSeed);
      S32Back(Step(fSeed));
      fSeed := U32(MUL * fSeed + ADD);
      r := S32(fSeed);
    }

    /** A signed 16.16 value; the shift is arithmetic. */
    method NextSFixed() returns (r: Int32)
      modifies this
      ensures fSeed == Step(old(fSeed)) && r == SignedHalf(fSeed)
      ensures -0x8000 <= r < 0x8000 && 0 <= fSeed - 0x1_0000 * (if r < 0 then r + 0x1_0000 else r) < 0x1_0000
      ensures old(fSeed) == (4276115653 * (fSeed - 1013904223)) % 0x1_0000_0000
    {
      StepBack(fSeed);
      HighHalf(Step(fSeed));
      var s := NextS();
      r := s / 0x1_0000;
    }
  }

  /** The high half of a word as a signed number. */
  function SignedHalf(x: UInt32): int {
    S32(x) / 0x1_0000
  }

  lemma HighHalf(x: UInt32)
    ensures var r := SignedHalf(x);
      -0x8000 <= r < 0x8000 && 0 <= x - 0x1_0000 * (if r < 0 then r + 0x1_0000 else r) < 0x1_0000
  {
  }

  // ----- the step backwards -----

  /** The inverse of the multiplier modulo 2^32. */
  const INVERSE := 4276115653

  /** Main theorem: the recurrence is undone by the inverse multiplier, and from seed 0
      it yields the increment: together these fix both constants. */
  lemma StepBack(x: UInt32)
    ensures (4276115653 * (Step(x) - 1013904223)) % 0x1_0000_0000 == x
    ensures Step(0) == 1013904223
  {
    var y := MUL * x + ADD;
    var q := y / TWO32;
    QuotientRemainder(y, TWO32);
    // INVERSE * MUL == 1657219 * 2^32 + 1
    assert INVERSE * MUL == 1657219 * TWO32 + 1;
    assert INVERSE * (Step(x) - ADD) == x + (1657219 * x - INVERSE * q) * TWO32;
    ModPlus(x, 1657219 * x - INVERSE * q, TWO32);
  }

  /** The signed reading of a word steps back to the same seed. */
  lemma S32Back(y: UInt32)
    ensures (4276115653 * (S32(y) - 1013904223)) % 0x1_0000_0000 == (4276115653 * (y - 1013904223)) % 0x1_0000_0000
  {
    if y >= 0x8000_0000 {
      ModPlus(INVERSE * (S32(y) - ADD), INVERSE, TWO32);
    }
  }

  // ----- n steps as one affine map -----

  /** Factor and offset of 2^k steps: x becomes Factor(k) * x + Offset(k). */
  function Factor(k: nat): nat {
    if k == 0 then MUL else Factor(k - 1) * Factor(k - 1)
  }

  function Offset(k: nat): nat {
    if k == 0 then ADD else Offset(k - 1) * (Factor(k - 1) + 1)
  }

  lemma {:induction false} IterateAdd(x: UInt32, m: nat, n: nat)
    ensures Iterate(x, m + n) == Iterate(Iterate(x, m), n)
  {
    if n > 0 {
      IterateAdd(x, m, n - 1);
    }
  }

  /** A word congruent to f * y + c is found from any y congruent to the word x. */
  lemma AffineMod(x: int, y: int, f: int, c: int)
    requires y == U32(x)
    ensures U32(f * y + c) == U32(f * x + c)
  {
    var q := x / TWO32;
    QuotientRemainder(x, TWO32);
    Distribute2(f, q * TWO32, y);
    Reassociate(f, q, TWO32);
    ModPlus(f * y + c, f * q, TWO32);
  }

  lemma Distribute2(f: int, a: int, b: int)
    ensures f * (a + b) == f * a + f * b
  {
  }

  lemma {:induction false} PowerOfTwoSteps(x: UInt32, k: nat)
    ensures Iterate(x, Pow2(k)) == U32(Factor(k) * x + Offset(k))
    decreases k
  {
    hide U32;
    if k == 0 {
      assert Iterate(x, 1) == Step(Iterate(x, 0));
    } else {
      var h := Pow2(k - 1);
      var y := Iterate(x, h);
      IterateAdd(x, h, h);
      PowerOfTwoSteps(x, k - 1);
      PowerOfTwoSteps(y, k - 1);
      var f, c := Factor(k - 1), Offset(k - 1);
      AffineMod(f * x + c, y, f, c);
      Compose(f, c, x);
      assert Iterate(x, h + h) == U32(f * y + c);
    }
  }

  lemma Compose(f: int, c: int, x: int)
    ensures f * (f * x + c) + c == (f * f) * x + c * (f + 1)
  {
  }

  /** The factor of 2^k steps is 1 modulo 2^(k+2), the offset is an odd multiple
      of 2^k: here the multiplier is 1 modulo 4 and the increment is odd. */
  lemma {:induction false} FactorAndOffset(k: nat) returns (a: int, b: int)
    ensures Factor(k) == 4 * (Pow2(k) * a) + 1
    ensures Offset(k) == Pow2(k) * (2 * b + 1)
  {
    if k == 0 {
      a, b := 416131, 506952111;
    } else {
      var p := Pow2(k - 1);
      var a', b' := FactorAndOffset(k - 1);
      var u := p * a';
      a, b := a' * (2 * u + 1), u * (2 * b' + 1) + b';
      SquareFactor(p, a', u, Factor(k - 1));
      DoubleOffset(p, u, b', Offset(k - 1), Factor(k - 1));
    }
  }

  lemma SquareFactor(p: int, a: int, u: int, f: int)
    requires u == p * a && f == 4 * u + 1
    ensures f * f == 4 * ((2 * p) * (a * (2 * u + 1))) + 1
  {
    assert f * f == 16 * (u * u) + 8 * u + 1;
    Distribute2(u, 2 * u, 1);
    Reassociate(p, a, 2 * u + 1);
    Reassociate(2, p, a * (2 * u + 1));
  }

  lemma DoubleOffset(p: int, u: int, b: int, c: int, f: int)
    requires f == 4 * u + 1 && c == p * (2 * b + 1)
    ensures c * (f + 1) == (2 * p) * (2 * (u * (2 * b + 1) + b) + 1)
  {
    var o := 2 * b + 1;
    assert o * (2 * u + 1) == 2 * (u * o) + o;
    assert c * (f + 1) == 2 * (c * (2 * u + 1));
    Reassociate(p, o, 2 * u + 1);
    Reassociate(2, p, o * (2 * u + 1));
  }

  // ----- the full period -----

  /** 2^k steps add 2^k modulo 2^(k+1). */
  lemma {:induction false} HalfTurn(x: UInt32, k: nat)
    requires k < 32
    ensures Iterate(x, Pow2(k)) % Pow2(k + 1) == (x + Pow2(k)) % Pow2(k + 1)
  {
    hide Iterate, U32, Factor, Offset;
    var p := Pow2(k);
    var a, b := FactorAndOffset(k);
    PowerOfTwoSteps(x, k);
    WordMod(Factor(k) * x + Offset(k), k + 1);
    HalfTurnSum(x, Factor(k), Offset(k), p, a, b);
  }

  lemma HalfTurnSum(x: int, f: int, c: int, p: int, a: int, b: int)
    requires p > 0 && f == 4 * (p * a) + 1 && c == p * (2 * b + 1)
    ensures (f * x + c) % (2 * p) == (x + p) % (2 * p)
  {
    OffsetMod(p, b, c);
    Spread(p, a, x, f);
    var j := 2 * (a * x);
    Distribute(j, b, 2 * p);
    ModPlus(x + p, j + b, 2 * p);
  }

  lemma OffsetMod(p: int, b: int, c: int)
    requires c == p * (2 * b + 1)
    ensures c == p + b * (2 * p)
  {
    Distribute2(p, 2 * b, 1);
  }

  lemma Spread(p: int, a: int, x: int, f: int)
    requires f == 4 * (p * a) + 1
    ensures f * x == x + (2 * (a * x)) * (2 * p)
  {
    Distribute(4 * (p * a), 1, x);
    Reassociate(4, p * a, x);
    Reassociate(p, a, x);
    assert (2 * (a * x)) * (2 * p) == 4 * (p * (a * x));
  }

  /** Reducing to 32 bits keeps the low bits. */
  lemma {:induction false} WordMod(v: int, n: nat)
    requires n <= 32
    ensures U32(v) % Pow2(n) == v % Pow2(n)
  {
    PowValues();
    PowAdd(32 - n, n);
    ModMod(v, Pow2(n), Pow2(32 - n));
  }

  /** j half turns add j * 2^k modulo 2^(k+1). */
  lemma {:induction false} HalfTurns(x: UInt32, j: nat, k: nat)
    requires k < 32
    ensures Iterate(x, j * Pow2(k)) % Pow2(k + 1) == (x + j * Pow2(k)) % Pow2(k + 1)
    decreases j
  {
    var p, q := Pow2(k), Pow2(k + 1);
    if j > 0 {
      var y := Iterate(x, (j - 1) * p);
      HalfTurns(x, j - 1, k);
      Distribute(j, 1, p);
      IterateAdd(x, (j - 1) * p, p);
      HalfTurn(y, k);
      AddCongruent(y, x + (j - 1) * p, p, q);
    }
  }

  lemma AddCongruent(y: int, z: int, p: int, q: int)
    requires q > 0 && y % q == z % q
    ensures (y + p) % q == (z + p) % q
  {
    QuotientRemainder(y, q);
    QuotientRemainder(z, q);
    Distribute(z / q, y / q, q);
    ModPlus(y + p, z / q - y / q, q);
  }

  /** Main theorem: the low k bits return after exactly the multiples of 2^k
      steps, for every k up to 32 and from every seed. */
  lemma {:induction false} LowBitsPeriod(x: UInt32, d: nat, k: nat)
    requires k <= 32
    ensures Iterate(x, d) % Pow2(k) == x % Pow2(k) <==> d % Pow2(k) == 0
    decreases k
  {
    hide Iterate;
    if k > 0 {
      var p := Pow2(k - 1);
      LowBitsPeriod(x, d, k - 1);
      if d % p == 0 {
        QuotientRemainder(d, p);
        HalfTurns(x, d / p, k - 1);
      }
      PeriodDoubles(x, Iterate(x, d), d, p);
    }
  }

  lemma PeriodDoubles(x: int, y: int, d: nat, p: int)
    requires p > 0 && (y % p == x % p <==> d % p == 0)
    requires d % p == 0 ==> y % (2 * p) == (x + d) % (2 * p)
    ensures y % (2 * p) == x % (2 * p) <==> d % (2 * p) == 0
  {
    ModMod(y, p, 2);
    ModMod(x, p, 2);
    ModMod(d, p, 2);
    if d % p == 0 {
      QuotientRemainder(d, p);
      EvenTurns(x, d / p, p);
    } else {
      DivUnique(0, p, 0, 0);
    }
  }

  /** j half turns are whole turns exactly when j is even. */
  lemma EvenTurns(x: int, j: nat, p: nat)
    requires p > 0
    ensures (x + j * p) % (2 * p) == x % (2 * p) <==> (j * p) % (2 * p) == 0
  {
    var i, q := j / 2, 2 * p;
    Reassociate(i, 2, p);
    if j % 2 == 0 {
      assert j * p == i * q;
      ModPlus(x, i, q);
      ModPlus(0, i, q);
    } else {
      assert j * p == p + i * q by { Distribute(2 * i, 1, p); }
      ModPlus(x + p, i, q);
      ModPlus(p, i, q);
      DivUnique(p, q, 0, p);
      HalfAway(x, p);
    }
  }

  lemma HalfAway(x: int, p: int)
    requires p > 0
    ensures (x + p) % (2 * p) != x % (2 * p)
  {
    var q := 2 * p;
    QuotientRemainder(x, q);
    var r := x % q;
    if r < p {
      DivUnique(x + p, q, x / q, r + p);
    } else {
      Distribute(x / q, 1, q);
      DivUnique(x + p, q, x / q + 1, r - p);
    }
  }

  /** Some n below 2^k agrees with v in the low k bits. */
  lemma {:induction false} ReachLowBits(x: UInt32, v: UInt32, k: nat) returns (n: nat)
    requires k <= 32
    ensures n < Pow2(k) && Iterate(x, n) % Pow2(k) == v % Pow2(k)
  {
    if k == 0 {
      n := 0;
    } else {
      var p := Pow2(k - 1);
      n := ReachLowBits(x, v, k - 1);
      var y := Iterate(x, n);
      if y % (2 * p) != v % (2 * p) {
        OppositeHalf(y, v, p);
        IterateAdd(x, n, p);
        HalfTurn(y, k - 1);
        n := n + p;
      }
    }
  }

  /** Equal modulo p but not modulo 2p: p apart modulo 2p. */
  lemma OppositeHalf(y: int, v: int, p: int)
    requires p > 0 && y % p == v % p && y % (2 * p) != v % (2 * p)
    ensures (y + p) % (2 * p) == v % (2 * p)
  {
    var q := 2 * p;
    ModMod(y, p, 2);
    ModMod(v, p, 2);
    var r, s := y % q, v % q;
    QuotientRemainder(y, q);
    LowHalf(r, p);
    LowHalf(s, p);
    if r < p {
      DivUnique(y + p, q, y / q, r + p);
    } else {
      Distribute(y / q, 1, q);
      DivUnique(y + p, q, y / q + 1, r - p);
    }
  }

  lemma LowHalf(r: int, p: int)
    requires 0 <= r < 2 * p
    ensures r % p == if r < p then r else r - p
  {
    DivUnique(r, p, if r < p then 0 else 1, if r < p then r else r - p);
  }

  ghost predicate ReachedAt(x: UInt32, v: UInt32, n: nat) {
    n < TWO32 && Iterate(x, n) == v
  }

  /** Main theorem: from every seed, every word is produced exactly once in the
      first 2^32 steps, and the seed then returns. */
  lemma {:induction false} FullPeriod(x: UInt32, v: UInt32)
    ensures exists n: nat :: ReachedAt(x, v, n)
    ensures forall m: nat, n: nat | ReachedAt(x, v, m) && ReachedAt(x, v, n) :: m == n
    ensures Iterate(x, TWO32) == x
  {
    hide Iterate, Pow2;
    PowValues();
    var n := ReachLowBits(x, v, 32);
    assert ReachedAt(x, v, n);
    forall m: nat, n: nat | ReachedAt(x, v, m) && ReachedAt(x, v, n)
      ensures m == n
    {
      if m <= n {
        SameWord(x, m, n);
      } else {
        SameWord(x, n, m);
      }
    }
    LowBitsPeriod(x, TWO32, 32);
  }

  lemma {:induction false} SameWord(x: UInt32, m: nat, n: nat)
    requires m <= n < TWO32 && Iterate(x, m) == Iterate(x, n)
    ensures m == n
  {
    hide Iterate, Pow2;
    PowValues();
    IterateAdd(x, m, n - m);
    LowBitsPeriod(Iterate(x, m), n - m, 32);
  }

  /** NextSFixed is documented to return -1..1. From every seed it returns
      exactly the values of -32768..32767, which is -1/2 up to 1/2. */
  lemma SignedFixedRange(x: UInt32, v: int)
    ensures (exists n: nat :: SignedHalf(Iterate(x, n)) == v) <==> -0x8000 <= v <= 0x7fff
  {
    hide Iterate;
    if -0x8000 <= v <= 0x7fff {
      FullPeriod(x, U32(v * 0x1_0000));
      var n: nat :| ReachedAt(x, U32(v * 0x1_0000), n);
      assert SignedHalf(Iterate(x, n)) == v;
    }
  }
}
