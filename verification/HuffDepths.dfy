/** How deep Huffman's algorithm puts a symbol: the pseudo-symbol of
    jpeg_gen_optimal_table is nowhere above another symbol, and Fibonacci numbers
    bound the code lengths. */
module HuffDepths {
  import opened HuffCounts
  import opened HuffLengths

  // ----- the pseudo-symbol is among the deepest -----

  /** No leaf is below the pseudo-symbol, and a tree that reaches as deep without it is
      taken after its own tree. */
  ghost predicate PseudoLowest(freq: seq<nat>, owner: seq<int>, size: seq<nat>) {
    && Owned(freq, owner) && |size| == SYMBOLS && owner[PSEUDO_SYMBOL] >= 0
    && var t, h := owner[PSEUDO_SYMBOL], size[PSEUDO_SYMBOL];
    && (forall x :: 0 <= x < SYMBOLS ==> size[x] <= h)
    && (forall x :: 0 <= x < SYMBOLS && 0 <= owner[x] != t && size[x] == h ==> Ahead(freq, t, owner[x]))
  }

  /** Any two other trees weigh as much as the pseudo-symbol's; more, if one of them
      reaches nearly as deep and that tree is no longer named after it. */
  ghost predicate PairsHeavier(freq: seq<nat>, owner: seq<int>, size: seq<nat>)
    requires Owned(freq, owner) && |size| == SYMBOLS && owner[PSEUDO_SYMBOL] >= 0
  {
    && var t := owner[PSEUDO_SYMBOL];
    && (forall y, z ::
         0 <= y < SYMBOLS && 0 <= z < SYMBOLS && y != z && y != t && z != t && freq[y] > 0 && freq[z] > 0 ==>
           freq[y] + freq[z] >= freq[t])
    && (t != PSEUDO_SYMBOL ==>
         forall x, z :: 0 <= x < SYMBOLS && 0 <= z < SYMBOLS && NearlyAsDeep(owner, size, x) && freq[z] > 0 ==>
           z == t || z == owner[x] || freq[owner[x]] + freq[z] > freq[t])
  }

  /** x belongs to another tree, at most one step above the pseudo-symbol. */
  ghost predicate NearlyAsDeep(owner: seq<int>, size: seq<nat>, x: nat)
    requires |owner| == |size| == SYMBOLS > x
  {
    0 <= owner[x] != owner[PSEUDO_SYMBOL] && size[x] + 1 >= size[PSEUDO_SYMBOL]
  }

  /** The algorithm takes the tree t before the tree y. */
  ghost predicate Ahead(freq: seq<nat>, t: int, y: int)
    requires |freq| == SYMBOLS && 0 <= t < SYMBOLS && 0 <= y < SYMBOLS
  {
    freq[t] < freq[y] || (freq[t] == freq[y] && t == PSEUDO_SYMBOL)
  }

  lemma MergedOwned(freq: seq<nat>, owner: seq<int>, c1: nat, c2: nat)
    requires Owned(freq, owner) && LeastTwo(freq, c1, c2)
    ensures Owned(Joined(freq, c1, c2), OwnerMerged(owner, c1, c2))
  {
  }

  /** The pseudo-symbol's own tree is merged: it gets ahead of all the others. */
  lemma PseudoMerged(freq: seq<nat>, owner: seq<int>, size: seq<nat>, c1: nat, c2: nat)
    requires PseudoLowest(freq, owner, size) && LeastTwo(freq, c1, c2)
    requires owner[PSEUDO_SYMBOL] == c1 || owner[PSEUDO_SYMBOL] == c2
    ensures PseudoLowest(Joined(freq, c1, c2), OwnerMerged(owner, c1, c2), LoweredBy(size, owner, c1, c2))
    ensures PairsHeavier(Joined(freq, c1, c2), OwnerMerged(owner, c1, c2), LoweredBy(size, owner, c1, c2))
  {
    MergedOwned(freq, owner, c1, c2);
  }

  /** Trees that are taken before the pseudo-symbol's are not as deep as it. */
  lemma TakenAreShallow(freq: seq<nat>, owner: seq<int>, size: seq<nat>, c1: nat, c2: nat)
    requires PseudoLowest(freq, owner, size) && LeastTwo(freq, c1, c2)
    requires owner[PSEUDO_SYMBOL] != c1 && owner[PSEUDO_SYMBOL] != c2
    ensures forall x :: 0 <= x < SYMBOLS && (owner[x] == c1 || owner[x] == c2) ==> size[x] < size[PSEUDO_SYMBOL]
  {
  }

  /** Two other trees are merged. */
  lemma OthersMerged(freq: seq<nat>, owner: seq<int>, size: seq<nat>, c1: nat, c2: nat)
    requires PseudoLowest(freq, owner, size) && PairsHeavier(freq, owner, size) && LeastTwo(freq, c1, c2)
    requires owner[PSEUDO_SYMBOL] != c1 && owner[PSEUDO_SYMBOL] != c2
    ensures PseudoLowest(Joined(freq, c1, c2), OwnerMerged(owner, c1, c2), LoweredBy(size, owner, c1, c2))
    ensures PairsHeavier(Joined(freq, c1, c2), OwnerMerged(owner, c1, c2), LoweredBy(size, owner, c1, c2))
  {
    hide LeastTwo, PairsHeavier;
    StillLowest(freq, owner, size, c1, c2);
    StillHeavier(freq, owner, size, c1, c2);
  }

  lemma StillLowest(freq: seq<nat>, owner: seq<int>, size: seq<nat>, c1: nat, c2: nat)
    requires PseudoLowest(freq, owner, size) && PairsHeavier(freq, owner, size) && LeastTwo(freq, c1, c2)
    requires owner[PSEUDO_SYMBOL] != c1 && owner[PSEUDO_SYMBOL] != c2
    ensures PseudoLowest(Joined(freq, c1, c2), OwnerMerged(owner, c1, c2), LoweredBy(size, owner, c1, c2))
  {
    MergedOwned(freq, owner, c1, c2);
    TakenAreShallow(freq, owner, size, c1, c2);
    assert c1 != c2 && freq[c1] > 0 && freq[c2] > 0;
    hide IsLeast, LeastTwo;
  }

  lemma StillHeavier(freq: seq<nat>, owner: seq<int>, size: seq<nat>, c1: nat, c2: nat)
    requires Owned(freq, owner) && |size| == SYMBOLS && owner[PSEUDO_SYMBOL] >= 0
    requires PairsHeavier(freq, owner, size) && LeastTwo(freq, c1, c2)
    requires owner[PSEUDO_SYMBOL] != c1 && owner[PSEUDO_SYMBOL] != c2
    ensures Owned(Joined(freq, c1, c2), OwnerMerged(owner, c1, c2))
    ensures PairsHeavier(Joined(freq, c1, c2), OwnerMerged(owner, c1, c2), LoweredBy(size, owner, c1, c2))
  {
    MergedOwned(freq, owner, c1, c2);
    assert c1 != c2 && freq[c1] > 0 && freq[c2] > 0;
    hide IsLeast, LeastTwo;
  }

  lemma {:induction false} PseudoStaysLowest(freq: seq<nat>, owner: seq<int>, size: seq<nat>)
    requires PseudoLowest(freq, owner, size) && PairsHeavier(freq, owner, size)
    ensures |freq| == |owner| == |size| == SYMBOLS
    ensures forall x :: 0 <= x < SYMBOLS ==> Sizes(freq, owner, size)[x] <= Sizes(freq, owner, size)[PSEUDO_SYMBOL]
    decreases Used(freq, SYMBOLS)
  {
    assert PseudoLowest(freq, owner, size) && PairsHeavier(freq, owner, size);
    hide Used, Least, IsLeast, LeastTwo, Joined, OwnerMerged, LoweredBy, Sizes, PairsHeavier;
    var c1 := Least(freq, SYMBOLS, -1);
    var c2 := Least(freq, SYMBOLS, c1);
    SizesStep(freq, owner, size, c1, c2);
    if c2 >= 0 {
      TwoInRange(freq, c1, c2);
      if owner[PSEUDO_SYMBOL] == c1 || owner[PSEUDO_SYMBOL] == c2 {
        PseudoMerged(freq, owner, size, c1, c2);
      } else {
        OthersMerged(freq, owner, size, c1, c2);
      }
      PseudoStaysLowest(Joined(freq, c1, c2), OwnerMerged(owner, c1, c2), LoweredBy(size, owner, c1, c2));
    }
  }

  lemma TwoInRange(freq: seq<nat>, c1: int, c2: int)
    requires LeastTwo(freq, c1, c2)
    ensures 0 <= c1 < SYMBOLS && 0 <= c2 < SYMBOLS && c1 != c2
  {
  }

  /** Main theorem: with a count of 1 the last symbol gets a code word of the greatest
      length. */
  lemma {:induction false} PseudoDeepest(freq: seq<nat>)
    requires |freq| == SYMBOLS && freq[PSEUDO_SYMBOL] == 1
    ensures forall x :: 0 <= x < SYMBOLS ==> HuffSizes(freq)[x] <= HuffSizes(freq)[PSEUDO_SYMBOL]
  {
    hide Sizes;
    PseudoStaysLowest(freq, Leaves(freq), seq(SYMBOLS, _ => 0));
  }

  // ----- long code words need high counts -----

  function Fib(n: nat): (f: nat) {
    if n < 2 then n else Fib(n - 2) + Fib(n - 1)
  }

  lemma {:induction false} FibMonotone(m: nat, n: nat)
    requires m <= n
    ensures Fib(m) <= Fib(n)
    ensures n > 0 ==> Fib(n) > 0
    ensures 2 <= m < n ==> Fib(m) < Fib(n)
    decreases n
  {
    if n >= 2 {
      FibMonotone(if m < n then m else n - 1, n - 1);
      FibMonotone(n - 2, n - 2);
    }
  }

  lemma {:induction false} FibEight(n: nat, a: nat, b: nat)
    requires Fib(n) == a && Fib(n + 1) == b
    ensures Fib(n + 2) == a + b && Fib(n + 3) == a + 2 * b
    ensures Fib(n + 8) == 13 * a + 21 * b && Fib(n + 9) == 21 * a + 34 * b
  {
    assert Fib(n + 4) == 2 * a + 3 * b && Fib(n + 5) == 3 * a + 5 * b;
    assert Fib(n + 6) == 5 * a + 8 * b && Fib(n + 7) == 8 * a + 13 * b;
  }

  lemma {:induction false} FibValues()
    ensures Fib(19) == 4181 && Fib(33) == 3524578 && Fib(35) == 9227465
  {
    assert Fib(0) == 0 && Fib(1) == 1;
    hide Fib;
    FibEight(0, 0, 1);
    FibEight(8, 21, 34);
    FibEight(16, 987, 1597);
    FibEight(24, 46368, 75025);
    FibEight(32, 2178309, 3524578);
  }

  /** The tree of x is heavy for its depth, and so is every other tree. */
  ghost predicate HeavyAt(freq: seq<nat>, owner: seq<int>, size: seq<nat>, x: nat) {
    && Owned(freq, owner) && |size| == SYMBOLS && x < SYMBOLS && owner[x] >= 0
    && freq[owner[x]] >= Fib(size[x] + 2)
    && (forall y :: 0 <= y < SYMBOLS && y != owner[x] && freq[y] > 0 ==> freq[y] >= Fib(size[x] + 1))
  }

  lemma {:induction false} HeavyMerged(freq: seq<nat>, owner: seq<int>, size: seq<nat>, x: nat, c1: nat, c2: nat)
    requires HeavyAt(freq, owner, size, x) && LeastTwo(freq, c1, c2)
    ensures HeavyAt(Joined(freq, c1, c2), OwnerMerged(owner, c1, c2), LoweredBy(size, owner, c1, c2), x)
  {
    assert Fib(size[x] + 3) == Fib(size[x] + 1) + Fib(size[x] + 2);
    hide Fib;
    MergedOwned(freq, owner, c1, c2);
  }

  lemma {:induction false} HeavyEnd(freq: seq<nat>, owner: seq<int>, size: seq<nat>, x: nat)
    requires HeavyAt(freq, owner, size, x)
    ensures |freq| == |owner| == |size| == SYMBOLS > x
    ensures Fib(Sizes(freq, owner, size)[x] + 2) <= Sum(freq, SYMBOLS)
    decreases Used(freq, SYMBOLS)
  {
    assert Owned(freq, owner) && |size| == SYMBOLS > x && 0 <= owner[x] < SYMBOLS;
    assert freq[owner[x]] >= Fib(size[x] + 2);
    hide Used, Least, IsLeast, LeastTwo, Joined, OwnerMerged, LoweredBy, Sizes, Sum, Fib, HeavyAt, Owned;
    var c1 := Least(freq, SYMBOLS, -1);
    var c2 := Least(freq, SYMBOLS, c1);
    SizesStep(freq, owner, size, c1, c2);
    if c2 >= 0 {
      TwoFacts(freq, c1, c2);
      HeavyMerged(freq, owner, size, x, c1, c2);
      CountsMerged(freq, c1, c2);
      HeavyEnd(Joined(freq, c1, c2), OwnerMerged(owner, c1, c2), LoweredBy(size, owner, c1, c2), x);
    } else {
      SumAtLeast(freq, owner[x], SYMBOLS);
    }
  }

  lemma TwoFacts(freq: seq<nat>, c1: int, c2: int)
    requires LeastTwo(freq, c1, c2)
    ensures |freq| == SYMBOLS && 0 <= c1 < SYMBOLS && 0 <= c2 < SYMBOLS && c1 != c2 && freq[c1] > 0 && freq[c2] > 0
  {
  }

  /** Main theorem: a code word of k + 1 bits needs counts of at least the Fibonacci
      number k + 3 in all. */
  lemma {:induction false} LengthBound(freq: seq<nat>, k: nat)
    requires |freq| == SYMBOLS && Sum(freq, SYMBOLS) < Fib(k + 3)
    ensures forall x :: 0 <= x < SYMBOLS ==> HuffSizes(freq)[x] <= k
  {
    assert Fib(1) == Fib(2) == 1;
    hide Fib, Sum, Depths, Sizes;
    HuffSizesAreDepths(freq);
    forall x: nat | x < SYMBOLS && freq[x] > 0
      ensures HuffSizes(freq)[x] <= k
    {
      HeavyEnd(freq, Leaves(freq), seq(SYMBOLS, _ => 0), x);
      if HuffSizes(freq)[x] > k {
        FibMonotone(k + 3, HuffSizes(freq)[x] + 2);
      }
    }
  }

  /** No code word is longer than the number of the other symbols. */
  lemma {:induction false} UsedBound(freq: seq<nat>)
    requires |freq| == SYMBOLS
    ensures forall x :: 0 <= x < SYMBOLS && freq[x] > 0 ==> Depths(freq)[x] < Used(freq, SYMBOLS)
    decreases Used(freq, SYMBOLS)
  {
    hide Used, Least, IsLeast, Depths;
    var c1 := Least(freq, SYMBOLS, -1);
    var c2 := Least(freq, SYMBOLS, c1);
    DepthsStep(freq, c1, c2);
    if c2 >= 0 {
      CountsMerged(freq, c1, c2);
      UsedBound(Joined(freq, c1, c2));
    } else {
      forall x: nat | x < SYMBOLS && freq[x] > 0
        ensures Used(freq, SYMBOLS) >= 1
      {
        UsedAtLeast(freq, x, SYMBOLS);
      }
    }
  }

  // ----- and with such counts they occur -----

  /** n symbols with the first n Fibonacci numbers as counts, the greatest first. */
  ghost function Ladder(n: nat): (counts: seq<nat>)
    requires n <= 256
    ensures |counts| == SYMBOLS
  {
    seq(SYMBOLS, x requires 0 <= x < SYMBOLS => if x < n then Fib(n - x) else 0)
  }

  lemma {:induction false} LadderSum(n: nat, m: nat)
    requires n <= 256 && m <= SYMBOLS
    ensures Sum(Ladder(n), m) == Fib(n + 2) - if m < n then Fib(n - m + 2) else 1
  {
    if m == 0 {
      assert n == 0 ==> Fib(2) == 1;
    } else {
      LadderSum(n, m - 1);
      if m <= n {
        assert Fib(n - m + 3) == Fib(n - m + 1) + Fib(n - m + 2);
        assert m == n ==> Fib(2) == 1 && Fib(1) == 1;
      }
    }
  }

  /** The trees above r have become one, which is behind the symbols from r on. */
  ghost predicate Climbed(freq: seq<nat>, owner: seq<int>, size: seq<nat>, n: nat, r: nat) {
    && r <= n <= 256 && Owned(freq, owner) && |size| == SYMBOLS
    && r <= owner[PSEUDO_SYMBOL] && size[PSEUDO_SYMBOL] == n - r
    && (r == n ==> owner[PSEUDO_SYMBOL] == PSEUDO_SYMBOL)
    && freq[owner[PSEUDO_SYMBOL]] == Fib(n - r + 2)
    && (forall x :: 0 <= x < r ==> freq[x] == Fib(n - x))
    && (forall x :: r <= x < SYMBOLS && x != owner[PSEUDO_SYMBOL] ==> freq[x] == 0)
  }

  /** The pseudo-symbol's tree and the next symbol are the two least. */
  lemma {:induction false} NextRung(freq: seq<nat>, owner: seq<int>, size: seq<nat>, n: nat, r: nat, c1: nat, c2: nat)
    requires Climbed(freq, owner, size, n, r) && LeastTwo(freq, c1, c2)
    ensures r > 0
    ensures var t := owner[PSEUDO_SYMBOL]; (c1 == r - 1 && c2 == t) || (c1 == t && c2 == r - 1)
  {
    assert Fib(1) == Fib(2) == 1;
    var t := owner[PSEUDO_SYMBOL];
    forall x: nat | x < r - 1
      ensures Fib(n - r + 2) <= freq[x]
    {
      FibMonotone(n - r + 2, n - x);
    }
    if r > 0 {
      FibMonotone(n - r + 1, n - r + 2);
      assert freq[r - 1] == Fib(n - r + 1);
    }
    hide Fib;
  }

  lemma {:induction false} Climb(freq: seq<nat>, owner: seq<int>, size: seq<nat>, n: nat, r: nat, c1: nat, c2: nat)
    requires Climbed(freq, owner, size, n, r) && LeastTwo(freq, c1, c2)
    ensures r > 0
    ensures Climbed(Joined(freq, c1, c2), OwnerMerged(owner, c1, c2), LoweredBy(size, owner, c1, c2), n, r - 1)
  {
    NextRung(freq, owner, size, n, r, c1, c2);
    assert Fib(n - r + 3) == Fib(n - r + 1) + Fib(n - r + 2);
    hide Fib, IsLeast;
    MergedOwned(freq, owner, c1, c2);
  }

  lemma {:induction false} ClimbEnd(freq: seq<nat>, owner: seq<int>, size: seq<nat>, n: nat, r: nat)
    requires Climbed(freq, owner, size, n, r)
    ensures |freq| == |owner| == |size| == SYMBOLS
    ensures Sizes(freq, owner, size)[PSEUDO_SYMBOL] == n
    decreases Used(freq, SYMBOLS)
  {
    assert Owned(freq, owner) && |size| == SYMBOLS && size[PSEUDO_SYMBOL] == n - r;
    assert r > 0 ==> freq[r - 1] > 0 && freq[owner[PSEUDO_SYMBOL]] > 0 && r - 1 != owner[PSEUDO_SYMBOL] by {
      FibMonotone(1, n - r + 1);
      FibMonotone(1, n - r + 2);
    }
    hide Used, Least, LeastTwo, IsLeast, Joined, OwnerMerged, LoweredBy, Sizes, Fib, Climbed;
    var c1 := Least(freq, SYMBOLS, -1);
    var c2 := Least(freq, SYMBOLS, c1);
    SizesStep(freq, owner, size, c1, c2);
    if c2 >= 0 {
      TwoInRange(freq, c1, c2);
      Climb(freq, owner, size, n, r, c1, c2);
      ClimbEnd(Joined(freq, c1, c2), OwnerMerged(owner, c1, c2), LoweredBy(size, owner, c1, c2), n, r - 1);
    } else {
      LeastPair(freq, c1, c2);
    }
  }

  lemma {:induction false} LadderFoot(n: nat, freq: seq<nat>)
    requires n <= 256 && freq == Ladder(n)[PSEUDO_SYMBOL := 1]
    ensures |freq| == SYMBOLS && Climbed(freq, Leaves(freq), seq(SYMBOLS, _ => 0), n, n)
  {
    forall x: nat | x < n
      ensures freq[x] == Fib(n - x) > 0
    {
      FibMonotone(1, n - x);
    }
    assert Fib(2) == 1;
    hide Fib;
  }

  lemma {:induction false} LadderTotal(n: nat, freq: seq<nat>)
    requires n <= 256 && freq == Ladder(n)[PSEUDO_SYMBOL := 1]
    ensures |freq| == SYMBOLS && Sum(freq, SYMBOLS) == Fib(n + 2)
  {
    assert Fib(2) == 1 && Ladder(n)[PSEUDO_SYMBOL] == 0;
    hide Fib, Sum, Ladder;
    LadderSum(n, SYMBOLS);
    SumUpdate(Ladder(n), PSEUDO_SYMBOL, 1, SYMBOLS);
  }

  /** Main theorem: counts that reach the bound do lead to code words of that length. */
  lemma {:induction false} LadderDepth(n: nat)
    requires n <= 256
    ensures HuffSizes(Ladder(n)[PSEUDO_SYMBOL := 1])[PSEUDO_SYMBOL] == n
    ensures Sum(Ladder(n)[PSEUDO_SYMBOL := 1], SYMBOLS) == Fib(n + 2)
  {
    hide Fib, Sizes, Sum, Climbed, Ladder;
    var freq := Ladder(n)[PSEUDO_SYMBOL := 1];
    LadderFoot(n, freq);
    LadderTotal(n, freq);
    ClimbEnd(freq, Leaves(freq), seq(SYMBOLS, _ => 0), n, n);
  }
}
