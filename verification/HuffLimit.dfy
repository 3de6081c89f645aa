/** Limiting code lengths to 16 bits: the Kraft sum, and the adjustment of section K.2
    of ITU-T T.81 as jpeg_gen_optimal_table of jchuff.c does it. */
module HuffLimit {
  import opened Bits
  import opened HuffTable
  import opened HuffCounts

  // ----- the Kraft sum -----

  /** What the code words of lengths up to n take up of the code space, in units of
      2^-32. */
  function Kraft(b: seq<int>, n: nat): int
    requires n < |b| && n <= MAX_CLEN
  {
    if n == 0 then 0 else Kraft(b, n - 1) + b[n] * Pow2(MAX_CLEN - n)
  }

  function CodeCount(b: seq<int>, n: nat): int
    requires n < |b|
  {
    if n == 0 then 0 else CodeCount(b, n - 1) + b[n]
  }

  ghost predicate NonNegative(b: seq<int>) {
    forall k :: 0 <= k < |b| ==> b[k] >= 0
  }

  lemma {:induction false} KraftUpdate(b: seq<int>, j: nat, v: int, n: nat)
    requires n < |b| && n <= MAX_CLEN && 1 <= j < |b| && j <= MAX_CLEN
    ensures Kraft(b[j := v], n) == Kraft(b, n) + if j <= n then (v - b[j]) * Pow2(MAX_CLEN - j) else 0
    ensures CodeCount(b[j := v], n) == CodeCount(b, n) + if j <= n then v - b[j] else 0
  {
    hide Pow2;
    if n > 0 {
      KraftUpdate(b, j, v, n - 1);
      if j == n {
        Distribute(b[j], v - b[j], Pow2(MAX_CLEN - j));
      }
    }
  }

  ghost function Plus(b: seq<int>, k: nat, d: int): (r: seq<int>)
    requires k < |b|
    ensures |r| == |b|
  {
    b[k := b[k] + d]
  }

  lemma {:induction false} KraftAdd(b: seq<int>, j: nat, d: int, n: nat)
    requires j <= n < |b| && n <= MAX_CLEN && 1 <= j
    ensures CodeCount(Plus(b, j, d), n) == CodeCount(b, n) + d
    ensures d == 1 ==> Kraft(Plus(b, j, d), n) == Kraft(b, n) + Pow2(MAX_CLEN - j)
    ensures d == -1 ==> Kraft(Plus(b, j, d), n) == Kraft(b, n) - Pow2(MAX_CLEN - j)
    ensures d == 2 ==> Kraft(Plus(b, j, d), n) == Kraft(b, n) + 2 * Pow2(MAX_CLEN - j)
    ensures d == -2 ==> Kraft(Plus(b, j, d), n) == Kraft(b, n) - 2 * Pow2(MAX_CLEN - j)
  {
    hide Pow2, Kraft, CodeCount;
    KraftUpdate(b, j, b[j] + d, n);
  }

  lemma {:induction false} KraftGrows(b: seq<int>, m: nat, n: nat)
    requires m <= n < |b| && n <= MAX_CLEN && NonNegative(b)
    ensures 0 <= Kraft(b, m) <= Kraft(b, n) && 0 <= CodeCount(b, m) <= CodeCount(b, n)
    decreases n
  {
    hide Pow2;
    if n > 0 {
      KraftGrows(b, if m < n then m else n - 1, n - 1);
      MulAtLeastZero(b[n], Pow2(MAX_CLEN - n));
    }
  }

  /** The code is complete up to length l exactly in the sense of Annex C: the next
      free code word marks how much of the code space is taken. */
  lemma {:induction false} KraftIsNextCode(t: Table, b: seq<int>, l: nat)
    requires |t.bits| == 17 && 17 <= |b| && 1 <= l <= 16
    requires forall k :: 1 <= k <= 16 ==> b[k] == t.bits[k]
    ensures Kraft(b, l) == (FirstCode(t, l) + t.bits[l]) * Pow2(MAX_CLEN - l)
  {
    if l > 1 {
      KraftIsNextCode(t, b, l - 1);
      PowDoubles(MAX_CLEN - (l - 1), MAX_CLEN - l);
      NextFree(FirstCode(t, l - 1) + t.bits[l - 1], t.bits[l], Pow2(MAX_CLEN - l), Pow2(MAX_CLEN - (l - 1)));
    } else {
      assert Kraft(b, 0) == 0 && FirstCode(t, 1) == 0;
    }
    hide Pow2;
  }

  lemma NextFree(c: int, n: int, p: nat, w: nat)
    requires w == 2 * p
    ensures c * w + n * p == (2 * c + n) * p
  {
    Double(c, p);
    Distribute(2 * c, n, p);
  }

  lemma {:induction false} PowDoubles(m: nat, n: nat)
    requires m == n + 1
    ensures Pow2(m) == 2 * Pow2(n)
  {
  }

  /** Main theorem: a table is a prefix code exactly if its Kraft sum is at most one,
      and leaves the code words of all ones free exactly if the sum is below one. */
  lemma {:induction false} PrefixCodeIff(t: Table, b: seq<int>)
    requires |t.bits| == 17 && 17 <= |b| && NonNegative(b)
    requires forall k :: 1 <= k <= 16 ==> b[k] == t.bits[k]
    ensures PrefixCode(t) <==> Kraft(b, 16) <= TWO32
    ensures SparesOnes(t) <==> Kraft(b, 16) < TWO32
  {
    hide Pow2, Kraft, FirstCode;
    forall l | 1 <= l <= 16
      ensures LengthFits(t, l) <==> Kraft(b, l) <= TWO32
      ensures FirstCode(t, l) + t.bits[l] < Pow2(l) <==> Kraft(b, l) < TWO32
      ensures Kraft(b, l) <= Kraft(b, 16)
    {
      KraftIsNextCode(t, b, l);
      KraftGrows(b, l, 16);
      PowAdd(l, MAX_CLEN - l);
      PowValues();
      ScaleBoth(FirstCode(t, l) + t.bits[l], Pow2(l), Pow2(MAX_CLEN - l));
    }
    assert LengthFits(t, 16) <==> Kraft(b, 16) <= TWO32;
  }

  /** No code word consists of ones only. */
  ghost predicate SparesOnes(t: Table)
    requires |t.bits| == 17
  {
    forall l :: 1 <= l <= 16 ==> FirstCode(t, l) + t.bits[l] < Pow2(l)
  }

  lemma ScaleBoth(x: int, y: int, p: nat)
    requires p > 0
    ensures x <= y <==> x * p <= y * p
    ensures x < y <==> x * p < y * p
  {
    if x < y {
      MulBounds(y - x, p, 1, y - x);
      Distribute(y, x, p);
    } else {
      MulAtLeastZero(x - y, p);
      Distribute(x, y, p);
    }
    if x > y {
      MulBounds(x - y, p, 1, x - y);
      Distribute(x, y, p);
    }
  }

  // ----- no code word longer than 16 bits -----

  ghost predicate NoneAbove(b: seq<int>, i: nat)
    requires |b| == MAX_CLEN + 1
  {
    forall k :: i < k <= MAX_CLEN ==> b[k] == 0
  }

  lemma {:induction false} KraftBelow(b: seq<int>, i: nat, n: nat)
    requires |b| == MAX_CLEN + 1 && i <= n <= MAX_CLEN && NoneAbove(b, i)
    ensures Kraft(b, n) == Kraft(b, i) && CodeCount(b, n) == CodeCount(b, i)
    decreases n
  {
    hide Pow2;
    if i < n {
      KraftBelow(b, i, n - 1);
    }
  }

  lemma {:induction false} KraftMultiple(b: seq<int>, n: nat) returns (q: int)
    requires n < |b| && n <= MAX_CLEN
    ensures Kraft(b, n) == q * Pow2(MAX_CLEN - n)
  {
    hide Pow2;
    if n == 0 {
      q := 0;
    } else {
      var r := KraftMultiple(b, n - 1);
      PowDoubles(MAX_CLEN - (n - 1), MAX_CLEN - n);
      q := 2 * r + b[n];
      Double(r, Pow2(MAX_CLEN - n));
      Distribute(2 * r, b[n], Pow2(MAX_CLEN - n));
    }
  }

  /** The longest code words of a complete code come in pairs. */
  lemma {:induction false} LongestPaired(b: seq<UInt8>, i: nat)
    requires |b| == MAX_CLEN + 1 && 1 <= i <= MAX_CLEN && NoneAbove(b, i) && Kraft(b, MAX_CLEN) == TWO32
    ensures b[i] % 2 == 0
  {
    KraftBelow(b, i, MAX_CLEN);
    KraftStep(b, i);
    hide *;
    var q := KraftMultiple(b, i - 1);
    PowDoubles(MAX_CLEN - (i - 1), MAX_CLEN - i);
    PowAdd(i - 1, MAX_CLEN - (i - 1));
    PowValues();
    TwiceSomething(b[i], q, Pow2(i - 1), Pow2(MAX_CLEN - i), Pow2(MAX_CLEN - (i - 1)));
  }

  lemma KraftStep(b: seq<int>, i: nat)
    requires 1 <= i < |b| && i <= MAX_CLEN
    ensures |b| > 0 && MAX_CLEN == 32 && Pow2(32) == TWO32
    ensures Kraft(b, i) == Kraft(b, i - 1) + b[i] * Pow2(MAX_CLEN - i)
  {
    PowValues();
  }

  lemma TwiceSomething(x: int, q: int, r: int, p: nat, w: nat)
    requires p > 0 && w == 2 * p && q * w + x * p == r * w
    ensures x == 2 * (r - q)
  {
    Double(q, p);
    Double(r, p);
    Distribute(2 * r, 2 * q, p);
    EvenFactor(x, 2 * (r - q), p);
  }

  lemma EvenFactor(x: int, y: int, p: nat)
    requires p > 0 && x * p == y * p
    ensures x == y
  {
    ScaleBoth(x, y, p);
    ScaleBoth(y, x, p);
  }

  lemma {:induction false} SomeCode(b: seq<UInt8>, n: nat) returns (w: nat)
    requires |b| == MAX_CLEN + 1 && n <= MAX_CLEN && Kraft(b, n) > 0
    ensures 1 <= w <= n && b[w] > 0
  {
    if b[n] > 0 && n > 0 {
      w := n;
    } else {
      w := SomeCode(b, n - 1);
    }
  }

  /** Above 16 bits there is always a shorter code word to split. */
  lemma ShorterCode(b: seq<UInt8>, i: nat) returns (w: nat)
    requires |b| == MAX_CLEN + 1 && 17 <= i <= MAX_CLEN && NoneAbove(b, i) && Kraft(b, MAX_CLEN) == TWO32
    ensures 1 <= w <= i - 2 && b[w] > 0
  {
    assert Kraft(b, i) == Kraft(b, i - 2) + b[i - 1] * Pow2(MAX_CLEN - (i - 1)) + b[i] * Pow2(MAX_CLEN - i);
    hide Pow2, Kraft;
    KraftBelow(b, i, MAX_CLEN);
    PowMonotone(MAX_CLEN - (i - 1), 16);
    PowMonotone(MAX_CLEN - i, 16);
    PowValues();
    MulBounds(b[i - 1], Pow2(MAX_CLEN - (i - 1)), 0, 0x100);
    MulBounds(b[i], Pow2(MAX_CLEN - i), 0, 0x100);
    w := SomeCode(b, i - 2);
  }

  lemma {:induction false} ThreeEntries(b: seq<UInt8>, j: nat, i: nat)
    requires |b| == MAX_CLEN + 1 && 1 <= j && j + 2 <= i <= MAX_CLEN
    ensures b[j] + b[j + 1] + b[i] <= CodeCount(b, MAX_CLEN)
    ensures b[j] + b[i - 1] + b[i] <= CodeCount(b, MAX_CLEN)
  {
    KraftGrows(b, 0, j - 1);
    KraftGrows(b, j + 1, i - 1);
    KraftGrows(b, j, i - 2);
    KraftGrows(b, i, MAX_CLEN);
  }

  /** Two code words of length i give way to their prefix. */
  ghost function PairRemoved(b: seq<int>, i: nat): (r: seq<int>)
    requires 2 <= i < |b|
    ensures |r| == |b|
  {
    Plus(Plus(b, i, -2), i - 1, 1)
  }

  /** A code word of length j becomes a prefix of two. */
  ghost function CodeSplit(b: seq<int>, j: nat): (r: seq<int>)
    requires 1 <= j < |b| - 1
    ensures |r| == |b|
  {
    Plus(Plus(b, j + 1, 2), j, -1)
  }

  lemma {:induction false} PairRemovedKraft(b: seq<int>, i: nat)
    requires 2 <= i < |b| == MAX_CLEN + 1
    ensures Kraft(PairRemoved(b, i), MAX_CLEN) == Kraft(b, MAX_CLEN)
    ensures CodeCount(PairRemoved(b, i), MAX_CLEN) == CodeCount(b, MAX_CLEN) - 1
  {
    hide Pow2, Kraft, CodeCount, Plus;
    PowDoubles(MAX_CLEN - (i - 1), MAX_CLEN - i);
    KraftAdd(b, i, -2, MAX_CLEN);
    KraftAdd(Plus(b, i, -2), i - 1, 1, MAX_CLEN);
  }

  lemma {:induction false} CodeSplitKraft(b: seq<int>, j: nat)
    requires 1 <= j < |b| - 1 == MAX_CLEN
    ensures Kraft(CodeSplit(b, j), MAX_CLEN) == Kraft(b, MAX_CLEN)
    ensures CodeCount(CodeSplit(b, j), MAX_CLEN) == CodeCount(b, MAX_CLEN) + 1
  {
    hide Pow2, Kraft, CodeCount, Plus;
    PowDoubles(MAX_CLEN - j, MAX_CLEN - (j + 1));
    KraftAdd(b, j + 1, 2, MAX_CLEN);
    KraftAdd(Plus(b, j + 1, 2), j, -1, MAX_CLEN);
  }

  /** The greatest length up to j that is in use. */
  ghost function InUse(b: seq<int>, j: nat): (w: nat)
    requires j < |b|
    ensures w <= j && (forall k :: w < k <= j ==> b[k] == 0) && (w > 0 ==> b[w] != 0)
  {
    if j == 0 || b[j] != 0 then j else InUse(b, j - 1)
  }

  /** The adjustment of section K.2, from length i down: pairs of the longest code
      words give way, and the next shorter one in use below their prefix is split. */
  ghost function Limited(b: seq<int>, i: nat): (r: seq<int>)
    requires |b| == MAX_CLEN + 1 && 16 <= i <= MAX_CLEN
    ensures |r| == |b|
    decreases i, b[i]
  {
    if i == 16 then b
    else if b[i] <= 0 then Limited(b, i - 1)
    else
      var j := InUse(b, i - 2);
      if j == 0 then b else Limited(CodeSplit(PairRemoved(b, i), j), i)
  }

  lemma {:induction false} LimitedNext(b: seq<int>, i: nat)
    requires |b| == MAX_CLEN + 1 && 16 <= i <= MAX_CLEN && (i == 16 || b[i] == 0)
    ensures i == 16 ==> Limited(b, i) == b
    ensures i > 16 ==> Limited(b, i) == Limited(b, i - 1)
  {
  }

  lemma {:induction false} LimitedStep(b: seq<int>, i: nat, j: nat)
    requires |b| == MAX_CLEN + 1 && 17 <= i <= MAX_CLEN && b[i] > 0 && j == InUse(b, i - 2) && j > 0
    ensures Limited(b, i) == Limited(CodeSplit(PairRemoved(b, i), j), i)
  {
  }

  /** A complete code for up to 255 symbols, without code words of more than i bits. */
  ghost predicate CompleteUpTo(b: seq<UInt8>, i: nat) {
    && |b| == MAX_CLEN + 1 && i <= MAX_CLEN && NoneAbove(b, i)
    && Kraft(b, MAX_CLEN) == TWO32 && CodeCount(b, MAX_CLEN) <= 0xff
  }

  /** b' is b with two code words less of length i and one more of length i - 1, with
      one less of length j and two more of length j + 1. */
  ghost predicate TurnOf(b: seq<int>, b': seq<int>, i: nat, j: nat) {
    && |b| == |b'|
    && forall k :: 0 <= k < |b| ==>
         b'[k] == b[k] + (if k == i - 1 then 1 else 0) - (if k == i then 2 else 0)
                       + (if k == j + 1 then 2 else 0) - (if k == j then 1 else 0)
  }

  /** One turn: a pair of the longest length i goes, the next shorter code word in use
      below their prefix is split, and the code stays complete. */
  lemma {:induction false} Turn(b: seq<UInt8>, i: nat) returns (j: nat, b': seq<UInt8>)
    requires CompleteUpTo(b, i) && 17 <= i && b[i] > 0
    ensures b[i] >= 2 && 1 <= j <= i - 2 && b[j] > 0 && forall k :: j < k <= i - 2 ==> b[k] == 0
    ensures b' == CodeSplit(PairRemoved(b, i), j) && Limited(b, i) == Limited(b', i)
    ensures CompleteUpTo(b', i) && CodeCount(b', MAX_CLEN) == CodeCount(b, MAX_CLEN)
    ensures TurnOf(b, b', i, j)
  {
    hide Kraft, CodeCount, Limited, InUse;
    LongestPaired(b, i);
    var w := ShorterCode(b, i);
    j := InUse(b, i - 2);
    LimitedStep(b, i, j);
    ThreeEntries(b, j, i);
    PairRemovedKraft(b, i);
    CodeSplitKraft(PairRemoved(b, i), j);
    b' := CodeSplit(PairRemoved(b, i), j);
  }

  // ----- what the adjustment leaves -----

  /** Up to length e, r is b below length m and has fewer code words of length m; of
      each length from there on it has one at most, or two if none longer is in use. */
  ghost predicate Trimmed(b: seq<int>, r: seq<int>, m: nat, e: nat) {
    && |b| == |r| > e && 1 <= m <= e + 1
    && (forall l :: 0 <= l < m ==> r[l] == b[l])
    && (m <= e ==> r[m] < b[m])
    && (forall k :: m < k <= e ==> r[k] <= 2)
    && (forall k, l :: m < k < l <= e && r[k] == 2 ==> r[l] == 0)
  }

  lemma TrimmedTurn(b: seq<int>, r: seq<UInt8>, r': seq<UInt8>, m: nat, i: nat, j: nat)
    requires i >= 3 && Trimmed(b, r, m, i - 2) && |r| > i && TurnOf(r, r', i, j)
    requires 1 <= j <= i - 2 && r[j] > 0 && forall k :: j < k <= i - 2 ==> r[k] == 0
    ensures Trimmed(b, r', if j < m then j else m, i - 2)
  {
  }

  lemma TrimmedDown(b: seq<int>, r: seq<UInt8>, m: nat, e: nat)
    requires Trimmed(b, r, m, e) && e >= 1
    ensures Trimmed(b, r, if m <= e then m else e, e - 1)
  {
  }

  /** Main theorem: whatever the lengths, the adjustment keeps the numbers of the short
      code words up to some length, takes from that length, and leaves at most one code
      word, or two, of each length between that one and 16. */
  lemma {:induction false} LimitedTrims(b: seq<int>, c: seq<UInt8>, i: nat, n: nat) returns (m: nat, r: seq<UInt8>)
    requires CompleteUpTo(c, i) && 17 <= i && Trimmed(b, c, n, i - 2)
    ensures r == Limited(c, i) && Trimmed(b, r, m, 15)
    ensures CompleteUpTo(r, 16) && CodeCount(r, MAX_CLEN) == CodeCount(c, MAX_CLEN)
    decreases i, c[i]
  {
    hide Kraft, CodeCount, Limited, InUse, Trimmed, TurnOf;
    if c[i] > 0 {
      var j, c' := Turn(c, i);
      TrimmedTurn(b, c, c', n, i, j);
      assert c'[i] < c[i] by { TurnTakes(c, c', i, j); }
      m, r := LimitedTrims(b, c', i, if j < n then j else n);
    } else {
      LimitedNext(c, i);
      if i == 17 {
        LimitedNext(c, 16);
        m, r := n, c;
      } else {
        TrimmedDown(b, c, n, i - 2);
        m, r := LimitedTrims(b, c, i - 1, if n <= i - 2 then n else i - 2);
      }
    }
  }

  lemma TurnTakes(b: seq<int>, b': seq<int>, i: nat, j: nat)
    requires i < |b| && TurnOf(b, b', i, j) && j <= i - 2
    ensures b'[i] == b[i] - 2
  {
  }

  // ----- only one code is trimmed so -----

  /** What the code words of lengths from k to 15 take up in excess of as many code
      words of 16 bits, in units of 2^-16. */
  function Excess(r: seq<int>, k: nat): int
    requires |r| == MAX_CLEN + 1 && k <= 16
    decreases 16 - k
  {
    if k == 16 then 0 else r[k] * (Pow2(16 - k) - 1) + Excess(r, k + 1)
  }

  lemma {:induction false} ExcessFrom(r: seq<int>, n: nat)
    requires |r| == MAX_CLEN + 1 && n <= 15
    ensures Kraft(r, n) - 0x1_0000 * CodeCount(r, n) + 0x1_0000 * Excess(r, n + 1) == 0x1_0000 * Excess(r, 1)
  {
    hide Pow2;
    if n > 0 {
      ExcessFrom(r, n - 1);
      PowAdd(16, 16 - n);
      PowValues();
      ExcessOne(r[n], Pow2(16 - n), Pow2(MAX_CLEN - n));
    }
  }

  lemma ExcessOne(x: int, p: int, q: int)
    requires q == 0x1_0000 * p
    ensures x * q == 0x1_0000 * (x * p) && x * (p - 1) == x * p - x
  {
  }

  /** A complete code of up to 16 bits has the excess that its number of symbols
      determines. */
  lemma {:induction false} ExcessOfComplete(r: seq<UInt8>)
    requires CompleteUpTo(r, 16)
    ensures Excess(r, 1) == 0x1_0000 - CodeCount(r, MAX_CLEN)
  {
    KraftStep(r, 16);
    CodeCountStep(r, 16);
    PowValues();
    hide *;
    ExcessFrom(r, 15);
    KraftBelow(r, 16, MAX_CLEN);
    NoExcess(r, 16);
  }

  lemma CodeCountStep(b: seq<int>, i: nat)
    requires 1 <= i < |b|
    ensures CodeCount(b, i) == CodeCount(b, i - 1) + b[i]
  {
  }

  /** From length k on at most one code word of each length up to 15, or two if none
      longer is in use. */
  ghost predicate Sparse(r: seq<UInt8>, k: nat) {
    && |r| == MAX_CLEN + 1
    && (forall l :: k <= l <= 15 ==> r[l] <= 2)
    && (forall l, l' :: k <= l < l' <= 15 && r[l] == 2 ==> r[l'] == 0)
  }

  lemma {:induction false} SparseExcess(r: seq<UInt8>, k: nat)
    requires Sparse(r, k) && 1 <= k <= 16
    ensures 0 <= Excess(r, k) <= 2 * (Pow2(16 - k) - 1)
    ensures k <= 15 && r[k] == 0 ==> Excess(r, k) < Pow2(16 - k) - 1
    ensures k <= 15 && r[k] == 1 ==> Pow2(16 - k) - 1 <= Excess(r, k) < 2 * (Pow2(16 - k) - 1)
    ensures k <= 15 && r[k] == 2 ==> Excess(r, k) == 2 * (Pow2(16 - k) - 1)
    decreases 16 - k
  {
    hide Pow2, Excess;
    if k <= 15 {
      ExcessStep(r, k);
      SparseExcess(r, k + 1);
      PowDoubles(16 - k, 15 - k);
      SparseDigit(r[k], Pow2(16 - k) - 1);
      if r[k] == 2 {
        NoExcess(r, k + 1);
      }
    } else {
      NoExcess(r, k);
      PowZero();
    }
  }

  lemma SparseDigit(x: nat, w: int)
    requires x <= 2
    ensures x * w == if x == 0 then 0 else if x == 1 then w else 2 * w
  {
  }

  lemma {:induction false} PowZero()
    ensures Pow2(0) == 1
  {
  }

  lemma {:induction false} NoExcess(r: seq<UInt8>, k: nat)
    requires |r| == MAX_CLEN + 1 && k <= 16 && forall l :: k <= l <= 15 ==> r[l] == 0
    ensures Excess(r, k) == 0
    decreases 16 - k
  {
    hide Pow2;
    if k < 16 {
      NoExcess(r, k + 1);
    }
  }

  /** The excess of sparse lengths determines them, as a binary number does its digits. */
  lemma {:induction false} SparseUnique(r: seq<UInt8>, s: seq<UInt8>, k: nat)
    requires Sparse(r, k) && Sparse(s, k) && 1 <= k <= 16 && Excess(r, k) == Excess(s, k)
    ensures forall l :: k <= l <= 15 ==> r[l] == s[l]
    decreases 16 - k
  {
    hide Pow2, Excess;
    if k <= 15 {
      SparseExcess(r, k);
      SparseExcess(s, k);
      assert r[k] == s[k];
      ExcessStep(r, k);
      ExcessStep(s, k);
      SparseUnique(r, s, k + 1);
    }
  }

  lemma ExcessStep(r: seq<int>, k: nat)
    requires |r| == MAX_CLEN + 1 && k <= 15
    ensures Excess(r, k) == r[k] * (Pow2(16 - k) - 1) + Excess(r, k + 1)
  {
  }

  lemma {:induction false} SameExcess(r: seq<int>, s: seq<int>, k: nat)
    requires |r| == |s| == MAX_CLEN + 1 && 1 <= k <= 16 && forall l :: 1 <= l < k ==> r[l] == s[l]
    ensures Excess(r, 1) - Excess(r, k) == Excess(s, 1) - Excess(s, k)
  {
    hide Pow2, Excess;
    if k > 1 {
      SameExcess(r, s, k - 1);
      ExcessStep(r, k - 1);
      ExcessStep(s, k - 1);
    }
  }

  lemma {:induction false} ExcessAtLeastZero(r: seq<UInt8>, k: nat)
    requires |r| == MAX_CLEN + 1 && k <= 16
    ensures Excess(r, k) >= 0
    decreases 16 - k
  {
    hide Pow2;
    if k < 16 {
      ExcessAtLeastZero(r, k + 1);
      MulAtLeastZero(r[k], Pow2(16 - k) - 1);
    }
  }

  /** Trimming further down leaves less room than it takes. */
  lemma {:induction false} TrimmedAlike(b: seq<int>, r: seq<UInt8>, s: seq<UInt8>, m: nat, n: nat)
    requires Trimmed(b, r, m, 15) && Trimmed(b, s, n, 15) && |r| == |s| == MAX_CLEN + 1
    requires Excess(r, 1) == Excess(s, 1)
    ensures m >= n
  {
    hide Pow2, Excess;
    if m < n {
      assert Sparse(r, m + 1) && r[m] < b[m] == s[m];
      SparseExcess(r, m + 1);
      SameExcess(r, s, m);
      ExcessStep(r, m);
      ExcessStep(s, m);
      ExcessAtLeastZero(s, m + 1);
      PowDoubles(16 - m, 15 - m);
      MoreExcess(r[m], s[m], Pow2(16 - m) - 1);
    }
  }

  lemma MoreExcess(x: int, y: int, w: int)
    requires x < y && w >= 0
    ensures x * w + w <= y * w
  {
    MulAtLeastZero(y - x - 1, w);
    Distribute(y, x, w);
    Distribute(y - x, 1, w);
  }

  /** Main theorem: one code only is trimmed so. For any lengths b, a complete code of up
      to 16 bits for a given number of symbols that keeps the short lengths of b, and is
      sparse from where it does not, is determined. */
  lemma {:induction false} TrimmedUnique(b: seq<int>, r: seq<UInt8>, s: seq<UInt8>, m: nat, n: nat)
    requires CompleteUpTo(r, 16) && CompleteUpTo(s, 16) && CodeCount(r, MAX_CLEN) == CodeCount(s, MAX_CLEN)
    requires Trimmed(b, r, m, 15) && Trimmed(b, s, n, 15)
    ensures m == n && r == s
  {
    hide Pow2, Excess, Kraft;
    ExcessOfComplete(r);
    ExcessOfComplete(s);
    TrimmedAlike(b, r, s, m, n);
    TrimmedAlike(b, s, r, n, m);
    SameExcess(r, s, m);
    if m <= 15 {
      assert Sparse(r, m + 1) && Sparse(s, m + 1);
      SameAt(r, s, m);
      SparseUnique(r, s, m + 1);
    }
    SameLast(r, s);
  }

  lemma {:induction false} SameAt(r: seq<UInt8>, s: seq<UInt8>, m: nat)
    requires Sparse(r, m + 1) && Sparse(s, m + 1) && 1 <= m <= 15 && Excess(r, m) == Excess(s, m)
    ensures r[m] == s[m] && Excess(r, m + 1) == Excess(s, m + 1)
  {
    hide Pow2, Excess;
    SparseExcess(r, m + 1);
    SparseExcess(s, m + 1);
    ExcessStep(r, m);
    ExcessStep(s, m);
    PowDoubles(16 - m, 15 - m);
    SameQuotient(Pow2(16 - m) - 1, r[m], Excess(r, m + 1), s[m], Excess(s, m + 1));
  }

  lemma {:induction false} SameLast(r: seq<UInt8>, s: seq<UInt8>)
    requires CompleteUpTo(r, 16) && CompleteUpTo(s, 16) && CodeCount(r, MAX_CLEN) == CodeCount(s, MAX_CLEN)
    requires forall l :: 0 <= l <= 15 ==> r[l] == s[l]
    ensures r == s
  {
    hide Pow2, Kraft;
    KraftBelow(r, 16, MAX_CLEN);
    KraftBelow(s, 16, MAX_CLEN);
    SameCodeCount(r, s, 15);
  }

  lemma {:induction false} SameCodeCount(r: seq<int>, s: seq<int>, n: nat)
    requires n < |r| && n < |s| && forall l :: 1 <= l <= n ==> r[l] == s[l]
    ensures CodeCount(r, n) == CodeCount(s, n)
  {
    if n > 0 {
      SameCodeCount(r, s, n - 1);
    }
  }

  // ----- where 15 bits are room enough -----

  lemma {:induction false} EntriesWithin(b: seq<int>, k: nat, n: nat)
    requires NonNegative(b) && 1 <= k <= n < |b| && n <= MAX_CLEN
    ensures b[k] <= CodeCount(b, n)
  {
    KraftGrows(b, 0, k - 1);
    KraftGrows(b, k, n);
  }

  /** h pairs of length 17 less, h code words of length 15 less, and 3 h of length 16 more. */
  ghost function PairsSplit(b: seq<int>, h: int): (r: seq<int>)
    requires |b| == MAX_CLEN + 1
    ensures |r| == |b|
  {
    b[17 := b[17] - 2 * h][16 := b[16] + 3 * h][15 := b[15] - h]
  }

  lemma {:induction false} PairsSplitKraft(b: seq<int>, h: int)
    requires |b| == MAX_CLEN + 1
    ensures Kraft(PairsSplit(b, h), MAX_CLEN) == Kraft(b, MAX_CLEN)
    ensures CodeCount(PairsSplit(b, h), MAX_CLEN) == CodeCount(b, MAX_CLEN)
  {
    hide Pow2, Kraft, CodeCount;
    var c := b[17 := b[17] - 2 * h];
    var d := c[16 := b[16] + 3 * h];
    KraftUpdate(b, 17, b[17] - 2 * h, MAX_CLEN);
    KraftUpdate(c, 16, b[16] + 3 * h, MAX_CLEN);
    KraftUpdate(d, 15, b[15] - h, MAX_CLEN);
    PowDoubles(MAX_CLEN - 15, MAX_CLEN - 16);
    PowDoubles(MAX_CLEN - 16, MAX_CLEN - 17);
    PairsWeigh(h, Pow2(MAX_CLEN - 17));
  }

  lemma PairsWeigh(h: int, p: int)
    ensures (0 - 2 * h) * p + 3 * h * (2 * p) + (0 - h) * (2 * (2 * p)) == 0
  {
  }

  /** Main theorem: when no code word is longer than 17 bits and there are enough of 15
      bits, one of these is split for each pair of 17 bits, and nothing else changes. */
  lemma {:induction false} LimitedFrom17(b: seq<UInt8>)
    requires CompleteUpTo(b, 17) && b[15] >= b[17] / 2
    ensures b[17] % 2 == 0
    ensures var s: seq<int> := b;
      Limited(b, MAX_CLEN) == s[17 := 0][16 := s[16] + 3 * (s[17] / 2)][15 := s[15] - s[17] / 2]
  {
    hide Pow2, Kraft, CodeCount, Limited;
    LongestPaired(b, 17);
    var h := b[17] / 2;
    PairsSplitKraft(b, h);
    var c := PairsSplit(b, h);
    assert NonNegative(c);
    EntriesWithin(c, 16, MAX_CLEN);
    var s: seq<UInt8> := c;
    assert NoneAbove(s, 16);
    assert Trimmed(b, s, if h > 0 then 15 else 16, 15);
    assert Trimmed(b, b, 31, 30);
    var m, r := LimitedTrims(b, b, MAX_CLEN, 31);
    TrimmedUnique(b, r, s, m, if h > 0 then 15 else 16);
  }

  // ----- the routine -----

  /** From a complete code of up to 32 bits, the complete code of as many symbols with up
      to 16 that keeps its numbers of code words of lengths below m. */
  method LimitLengths(bits: array<UInt8>) returns (ghost m: nat)
    requires bits.Length == MAX_CLEN + 1 && Kraft(bits[..], MAX_CLEN) == TWO32 && CodeCount(bits[..], MAX_CLEN) <= 0xff
    modifies bits
    ensures bits[..] == Limited(old(bits[..]), MAX_CLEN)
    ensures NoneAbove(bits[..], 16) && Kraft(bits[..], MAX_CLEN) == TWO32
    ensures CodeCount(bits[..], MAX_CLEN) == CodeCount(old(bits[..]), MAX_CLEN)
    ensures 1 <= m <= 16 && (forall l :: 0 <= l < m ==> bits[l] == old(bits[l])) && (m < 16 ==> bits[m] < old(bits[m]))
    ensures forall k :: m < k <= 15 ==> bits[k] <= 2
    ensures forall k, l :: m < k < l <= 15 && bits[k] == 2 ==> bits[l] == 0
    ensures var b: seq<int> := old(bits[..]);
      (forall k :: 17 < k <= 32 ==> b[k] == 0) && b[15] >= b[17] / 2 ==>
        bits[..] == b[17 := 0][16 := b[16] + 3 * (b[17] / 2)][15 := b[15] - b[17] / 2]
  {
    hide Kraft, CodeCount, Limited;
    ghost var b: seq<UInt8> := bits[..];
    ghost var r;
    m, r := LimitedTrims(b, b, MAX_CLEN, 31);
    if NoneAbove(b, 17) && b[15] >= b[17] / 2 {
      LimitedFrom17(b);
    }
    var i := MAX_CLEN;
    while i > 16
      invariant 16 <= i <= MAX_CLEN && CompleteUpTo(bits[..], i)
      invariant CodeCount(bits[..], MAX_CLEN) == CodeCount(b, MAX_CLEN)
      invariant Limited(bits[..], i) == r
    {
      while bits[i] > 0
        invariant CompleteUpTo(bits[..], i) && CodeCount(bits[..], MAX_CLEN) == CodeCount(b, MAX_CLEN)
        invariant Limited(bits[..], i) == r
        decreases bits[i]
      {
        var j := SplitShorter(bits, i);
      }
      LimitedNext(bits[..], i);
      i := i - 1;
    }
    LimitedNext(bits[..], 16);
  }

  /** One pair of the longest length i goes, and of the shorter code words in use below
      their prefix it is a longest one that is split. */
  method SplitShorter(bits: array<UInt8>, i: nat) returns (j: nat)
    requires bits.Length == MAX_CLEN + 1 && Kraft(bits[..], MAX_CLEN) == TWO32 && CodeCount(bits[..], MAX_CLEN) <= 0xff
    requires 17 <= i <= MAX_CLEN && NoneAbove(bits[..], i) && bits[i] > 0
    modifies bits
    ensures Limited(bits[..], i) == Limited(old(bits[..]), i)
    ensures NoneAbove(bits[..], i) && Kraft(bits[..], MAX_CLEN) == TWO32 && bits[i] < old(bits[i])
    ensures CodeCount(bits[..], MAX_CLEN) == CodeCount(old(bits[..]), MAX_CLEN)
    ensures 1 <= j <= i - 2 && old(bits[j]) > 0 && forall k :: j < k <= i - 2 ==> old(bits[k]) == 0
    ensures var b: seq<int> := old(bits[..]);
      forall k :: 0 <= k <= 32 ==>
        bits[k] == b[k] + (if k == i - 1 then 1 else 0) - (if k == i then 2 else 0)
                        + (if k == j + 1 then 2 else 0) - (if k == j then 1 else 0)
  {
    hide Kraft, CodeCount, Limited, InUse, PairRemoved, CodeSplit;
    ghost var b: seq<UInt8> := bits[..];
    ghost var w, b' := Turn(b, i);
    j := i - 2;
    while bits[j] == 0
      invariant w <= j <= i - 2 && bits[..] == b
      decreases j
    {
      j := j - 1;
    }
    bits[i] := bits[i] - 2;
    bits[i - 1] := bits[i - 1] + 1;
    bits[j + 1] := bits[j + 1] + 2;
    bits[j] := bits[j] - 1;
    assert bits[..] == b';
  }

  lemma {:induction false} InUseBelow(b: seq<int>, j: nat)
    requires 0 < j < |b| && b[j] == 0
    ensures InUse(b, j) == InUse(b, j - 1)
  {
  }

  lemma {:induction false} InUseHere(b: seq<int>, j: nat)
    requires j < |b| && b[j] != 0
    ensures InUse(b, j) == j
  {
  }

  /** The pseudo-symbol's code word, one of the longest, is given up. */
  ghost function PseudoRemoved(b: seq<int>): (r: seq<int>)
    requires |b| == MAX_CLEN + 1
    ensures |r| == |b|
  {
    Plus(b, InUse(b, 16), -1)
  }

  method RemovePseudo(bits: array<UInt8>)
    requires bits.Length == MAX_CLEN + 1 && NoneAbove(bits[..], 16) && Kraft(bits[..], MAX_CLEN) == TWO32
    modifies bits
    ensures bits[..] == PseudoRemoved(old(bits[..]))
    ensures Kraft(bits[..], 16) < TWO32
    ensures CodeCount(bits[..], 16) == CodeCount(old(bits[..]), MAX_CLEN) - 1
  {
    hide Kraft, CodeCount, InUse;
    ghost var b := bits[..];
    KraftBelow(b, 16, MAX_CLEN);
    ghost var w := SomeCode(b, 16);
    var i := 16;
    while bits[i] == 0
      invariant w <= i <= 16 && bits[..] == b && InUse(b, i) == InUse(b, 16)
      decreases i
    {
      InUseBelow(b, i);
      i := i - 1;
    }
    InUseHere(b, i);
    KraftAdd(b, i, -1, 16);
    bits[i] := bits[i] - 1;
    assert bits[..] == Plus(b, i, -1);
  }

  lemma {:induction false} LimitedKeeps(b: seq<int>, i: nat)
    requires |b| == MAX_CLEN + 1 && 16 <= i <= MAX_CLEN && NoneAbove(b, 16)
    ensures Limited(b, i) == b
  {
    LimitedNext(b, i);
    if i > 16 {
      LimitedKeeps(b, i - 1);
    }
  }

  lemma {:induction false} InUseIs(b: seq<int>, j: nat, h: nat)
    requires h <= j < |b| && b[h] != 0 && forall k :: h < k <= j ==> b[k] == 0
    ensures InUse(b, j) == h
  {
    if j > h {
      InUseIs(b, j - 1, h);
    }
  }
}
