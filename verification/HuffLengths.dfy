/** Huffman's algorithm as jpeg_gen_optimal_table of jchuff.c runs it, on the map from
    symbols to trees, and the proof that no prefix code for the counts is cheaper. */
module HuffLengths {
  import opened Bits
  import opened HuffCounts

  // ----- the algorithm -----

  function Half(k: nat): (h: real)
    ensures h > 0.0
  {
    if k == 0 then 1.0 else Half(k - 1) / 2.0
  }

  /** The weight of the symbols below n that have a code length: a leaf at depth k
      weighs 2^-k. */
  function Weight(size: seq<nat>, n: nat): real
    requires n <= |size|
  {
    if n == 0 then 0.0 else Weight(size, n - 1) + if size[n - 1] > 0 then Half(size[n - 1]) else 0.0
  }

  /** owner[x] is the root of the tree that x is a leaf of, or -1 for a symbol
      without a count. At first every symbol is a tree by itself. */
  ghost function Leaves(freq: seq<nat>): (owner: seq<int>)
    requires |freq| == SYMBOLS
    ensures |owner| == SYMBOLS
  {
    seq(SYMBOLS, x requires 0 <= x < SYMBOLS => if freq[x] > 0 then x else -1)
  }

  ghost function OwnerMerged(owner: seq<int>, c1: nat, c2: nat): (r: seq<int>)
    requires |owner| == SYMBOLS
    ensures |r| == SYMBOLS
  {
    seq(SYMBOLS, x requires 0 <= x < SYMBOLS => if owner[x] == c2 then c1 else owner[x])
  }

  /** size' is size with the leaves of c1 and c2 one step lower. */
  ghost predicate Lowered(size: seq<nat>, size': seq<nat>, owner: seq<int>, c1: int, c2: int)
    requires |size| == |size'| == |owner|
  {
    forall x :: 0 <= x < |size| ==> size'[x] == size[x] + if owner[x] == c1 || owner[x] == c2 then 1 else 0
  }

  ghost function LoweredBy(size: seq<nat>, owner: seq<int>, c1: int, c2: int): (r: seq<nat>)
    requires |size| == |owner| == SYMBOLS
    ensures |r| == SYMBOLS && Lowered(size, r, owner, c1, c2)
  {
    seq(SYMBOLS, x requires 0 <= x < SYMBOLS => size[x] + if owner[x] == c1 || owner[x] == c2 then 1 else 0)
  }

  /** Huffman's algorithm: the two trees with the least counts are merged, and their
      symbols go one step down, until one is left. */
  ghost function Sizes(freq: seq<nat>, owner: seq<int>, size: seq<nat>): (r: seq<nat>)
    requires |freq| == |owner| == |size| == SYMBOLS
    ensures |r| == SYMBOLS
    decreases Used(freq, SYMBOLS)
  {
    var c1 := Least(freq, SYMBOLS, -1);
    var c2 := Least(freq, SYMBOLS, c1);
    LeastPair(freq, c1, c2);
    if c2 < 0 then size
    else Sizes(Joined(freq, c1, c2), OwnerMerged(owner, c1, c2), LoweredBy(size, owner, c1, c2))
  }

  /** The code lengths that Huffman's algorithm gives to the symbols. */
  ghost function HuffSizes(freq: seq<nat>): (r: seq<nat>)
    requires |freq| == SYMBOLS
    ensures |r| == SYMBOLS
  {
    Sizes(freq, Leaves(freq), seq(SYMBOLS, _ => 0))
  }

  lemma {:induction false} SizesStep(freq: seq<nat>, owner: seq<int>, size: seq<nat>, c1: int, c2: int)
    requires |freq| == |owner| == |size| == SYMBOLS && c1 == Least(freq, SYMBOLS, -1) && c2 == Least(freq, SYMBOLS, c1)
    ensures c2 < 0 ==> Sizes(freq, owner, size) == size
    ensures c2 >= 0 ==> LeastTwo(freq, c1, c2) && Used(Joined(freq, c1, c2), SYMBOLS) < Used(freq, SYMBOLS)
    ensures c2 >= 0 ==>
      Sizes(freq, owner, size)
      == Sizes(Joined(freq, c1, c2), OwnerMerged(owner, c1, c2), LoweredBy(size, owner, c1, c2))
    ensures IsLeast(freq, SYMBOLS, -1, c1) && IsLeast(freq, SYMBOLS, c1, c2)
  {
    hide Least, OwnerMerged, LoweredBy, Used, IsLeast, Joined, LeastTwo;
    LeastPair(freq, c1, c2);
  }

  // ----- the depths of the trees -----

  /** How far the algorithm pushes each tree down. */
  ghost function Depths(freq: seq<nat>): (d: seq<nat>)
    requires |freq| == SYMBOLS
    ensures |d| == SYMBOLS
    decreases Used(freq, SYMBOLS)
  {
    var c1 := Least(freq, SYMBOLS, -1);
    var c2 := Least(freq, SYMBOLS, c1);
    LeastPair(freq, c1, c2);
    if c2 < 0 then seq(SYMBOLS, _ => 0)
    else
      var d := Depths(Joined(freq, c1, c2));
      d[c1 := d[c1] + 1][c2 := d[c1] + 1]
  }

  ghost predicate Owned(freq: seq<nat>, owner: seq<int>) {
    && |freq| == |owner| == SYMBOLS
    && (forall x :: 0 <= x < SYMBOLS ==> -1 <= owner[x] < SYMBOLS)
    && (forall x :: 0 <= x < SYMBOLS && owner[x] >= 0 ==> freq[owner[x]] > 0)
  }

  ghost predicate SunkBy(r: seq<nat>, size: seq<nat>, owner: seq<int>, d: seq<nat>)
    requires |r| == |size| == |owner| == |d| == SYMBOLS
  {
    forall x :: 0 <= x < SYMBOLS && owner[x] < SYMBOLS ==> r[x] == size[x] + if owner[x] >= 0 then d[owner[x]] else 0
  }

  lemma SunkStep(r: seq<nat>, size: seq<nat>, owner: seq<int>, c1: nat, c2: nat, d: seq<nat>)
    requires |r| == |size| == |owner| == |d| == SYMBOLS && c1 < SYMBOLS && c2 < SYMBOLS && c1 != c2
    requires SunkBy(r, LoweredBy(size, owner, c1, c2), OwnerMerged(owner, c1, c2), d)
    ensures SunkBy(r, size, owner, d[c1 := d[c1] + 1][c2 := d[c1] + 1])
  {
    var owner', size' := OwnerMerged(owner, c1, c2), LoweredBy(size, owner, c1, c2);
    var d' := d[c1 := d[c1] + 1][c2 := d[c1] + 1];
    forall x | 0 <= x < SYMBOLS && owner[x] < SYMBOLS
      ensures r[x] == size[x] + if owner[x] >= 0 then d'[owner[x]] else 0
    {
      assert r[x] == size'[x] + if owner'[x] >= 0 then d[owner'[x]] else 0;
    }
  }

  /** A symbol ends as far below where it is as its tree is pushed down. */
  lemma {:induction false} SizesAreDepths(freq: seq<nat>, owner: seq<int>, size: seq<nat>)
    requires Owned(freq, owner) && |size| == SYMBOLS
    ensures |freq| == |owner| == SYMBOLS && SunkBy(Sizes(freq, owner, size), size, owner, Depths(freq))
    decreases Used(freq, SYMBOLS)
  {
    hide Used, Least, IsLeast;
    var c1 := Least(freq, SYMBOLS, -1);
    var c2 := Least(freq, SYMBOLS, c1);
    SizesStep(freq, owner, size, c1, c2);
    if c2 >= 0 {
      SizesAreDepths(Joined(freq, c1, c2), OwnerMerged(owner, c1, c2), LoweredBy(size, owner, c1, c2));
      SunkStep(Sizes(freq, owner, size), size, owner, c1, c2, Depths(Joined(freq, c1, c2)));
    }
  }

  lemma {:induction false} HuffSizesAreDepths(freq: seq<nat>)
    requires |freq| == SYMBOLS
    ensures forall x :: 0 <= x < SYMBOLS ==> HuffSizes(freq)[x] == if freq[x] > 0 then Depths(freq)[x] else 0
  {
    hide Sizes, Depths;
    SizesAreDepths(freq, Leaves(freq), seq(SYMBOLS, _ => 0));
  }

  // ----- what a code costs -----

  function Bill(f: nat, s: nat): nat {
    f * s
  }

  /** The number of bits that the symbols below n take with the code lengths size. */
  function Cost(freq: seq<nat>, size: seq<nat>, n: nat): nat
    requires n <= |freq| == |size|
  {
    if n == 0 then 0 else Cost(freq, size, n - 1) + Bill(freq[n - 1], size[n - 1])
  }

  /** What the symbols below n that have a count weigh. */
  function Load(freq: seq<nat>, size: seq<nat>, n: nat): real
    requires n <= |freq| == |size|
  {
    if n == 0 then 0.0 else Load(freq, size, n - 1) + if freq[n - 1] > 0 then Half(size[n - 1]) else 0.0
  }

  lemma {:induction false} CostUpdate(freq: seq<nat>, d: seq<nat>, i: nat, v: nat, k: nat, n: nat)
    requires n <= |freq| == |d| && i < |freq|
    ensures Cost(freq[i := v], d[i := k], n) == Cost(freq, d, n) + if i < n then Bill(v, k) - Bill(freq[i], d[i]) else 0
  {
    hide Bill;
    if n > 0 {
      CostUpdate(freq, d, i, v, k, n - 1);
    }
  }

  lemma {:induction false} LoadUpdate(freq: seq<nat>, d: seq<nat>, i: nat, v: nat, k: nat, n: nat)
    requires n <= |freq| == |d| && i < |freq|
    ensures Load(freq[i := v], d[i := k], n) == Load(freq, d, n)
         + if i < n then (if v > 0 then Half(k) else 0.0) - (if freq[i] > 0 then Half(d[i]) else 0.0) else 0.0
  {
    hide Half;
    if n > 0 {
      LoadUpdate(freq, d, i, v, k, n - 1);
    }
  }

  /** Only the depth changes. */
  lemma {:induction false} DepthUpdate(freq: seq<nat>, d: seq<nat>, i: nat, k: nat)
    requires |freq| == |d| == SYMBOLS && i < SYMBOLS && freq[i] > 0
    ensures Cost(freq, d[i := k], SYMBOLS) == Cost(freq, d, SYMBOLS) + Bill(freq[i], k) - Bill(freq[i], d[i])
    ensures Load(freq, d[i := k], SYMBOLS) == Load(freq, d, SYMBOLS) + Half(k) - Half(d[i])
  {
    hide Cost, Load, Bill, Half;
    assert freq[i := freq[i]] == freq;
    CostUpdate(freq, d, i, freq[i], k, SYMBOLS);
    LoadUpdate(freq, d, i, freq[i], k, SYMBOLS);
  }

  ghost function Swapped(d: seq<nat>, i: nat, j: nat): (e: seq<nat>)
    requires i < |d| && j < |d|
    ensures |e| == |d|
  {
    d[i := d[j]][j := d[i]]
  }

  lemma BillSwap(a: nat, b: nat, x: nat, y: nat)
    requires a <= b && x <= y
    ensures Bill(a, y) + Bill(b, x) <= Bill(a, x) + Bill(b, y)
  {
    MulAtLeastZero(b - a, y - x);
    assert (b - a) * (y - x) == b * y - b * x - a * y + a * x;
  }

  lemma BillGrows(a: nat, x: nat, y: nat)
    requires x <= y
    ensures Bill(a, x) <= Bill(a, y)
  {
    MulAtLeastZero(a, y - x);
    assert a * (y - x) == a * y - a * x;
  }

  /** Exchanging two depths so that the rarer symbol is the deeper one costs nothing. */
  lemma {:induction false} SwapCost(freq: seq<nat>, d: seq<nat>, i: nat, j: nat)
    requires |freq| == |d| == SYMBOLS && i < SYMBOLS && j < SYMBOLS && 0 < freq[i] <= freq[j] && d[i] <= d[j]
    ensures Cost(freq, Swapped(d, i, j), SYMBOLS) <= Cost(freq, d, SYMBOLS)
    ensures Load(freq, Swapped(d, i, j), SYMBOLS) == Load(freq, d, SYMBOLS)
  {
    hide Cost, Load, Bill, Half;
    if i == j {
      assert Swapped(d, i, j) == d;
    } else {
      DepthUpdate(freq, d, i, d[j]);
      DepthUpdate(freq, d[i := d[j]], j, d[i]);
      BillSwap(freq[i], freq[j], d[i], d[j]);
    }
  }

  // ----- there is room above a deepest leaf that is alone -----

  lemma {:induction false} HalfMultiple(a: nat, m: nat)
    requires a <= m
    ensures Half(a) == Times(Pow2(m - a), Half(m))
    decreases m
  {
    if a < m {
      HalfMultiple(a, m - 1);
      DoubleHalf(Pow2(m - 1 - a), Half(m));
    } else {
      AddTimes(1, 0, Half(m));
    }
  }

  /** k times the unit h. */
  function Times(k: int, h: real): real {
    k as real * h
  }

  lemma DoubleHalf(k: int, h: real)
    ensures Times(k, 2.0 * h) == Times(2 * k, h)
  {
  }

  lemma AddTimes(a: int, b: int, h: real)
    ensures Times(a, h) + Times(b, h) == Times(a + b, h)
    ensures Times(1, h) == h
  {
  }

  lemma TimesOrdered(a: int, b: int, h: real)
    requires h > 0.0
    ensures a <= b <==> Times(a, h) <= Times(b, h)
  {
    if a <= b {
      AddTimes(a, b - a, h);
    } else {
      AddTimes(b, a - b, h);
      AddTimes(1, a - b - 1, h);
    }
  }

  lemma {:induction false} OddLoad(freq: seq<nat>, d: seq<nat>, c: nat, m: nat, n: nat) returns (k: int)
    requires n <= |freq| == |d| && c < |freq| && freq[c] > 0 && d[c] == m + 1
    requires forall x :: 0 <= x < |freq| && x != c && freq[x] > 0 ==> d[x] <= m
    ensures Load(freq, d, n) == Times(k, Half(m)) + if c < n then Half(m + 1) else 0.0
  {
    hide Half, Pow2, Times;
    if n == 0 {
      k := 0;
      AddTimes(0, 0, Half(m));
    } else {
      k := OddLoad(freq, d, c, m, n - 1);
      if n - 1 != c && freq[n - 1] > 0 {
        HalfMultiple(d[n - 1], m);
        AddTimes(k, Pow2(m - d[n - 1]), Half(m));
        k := k + Pow2(m - d[n - 1]);
      }
    }
  }

  lemma UnitFits(load: real, k: int, p: int, h: real)
    requires h > 0.0 && load == Times(k, h) + h / 2.0 && load <= Times(p, h)
    ensures load + h / 2.0 <= Times(p, h)
  {
    hide Times;
    TimesOrdered(p, k, h);
    TimesOrdered(k + 1, p, h);
    AddTimes(k, 1, h);
  }

  /** An odd number of units below one leaves room for one more. */
  lemma {:induction false} RoomForUnit(load: real, k: int, m: nat)
    requires load == Times(k, Half(m)) + Half(m + 1) && load <= 1.0
    ensures load + Half(m + 1) <= 1.0
  {
    assert Half(0) == 1.0 && Half(m + 1) == Half(m) / 2.0;
    HalfMultiple(0, m);
    hide Half, Pow2, Times;
    UnitFits(load, k, Pow2(m - 0), Half(m));
  }

  lemma {:induction false} RoomAbove(freq: seq<nat>, d: seq<nat>, c: nat, m: nat)
    requires |freq| == |d| == SYMBOLS && c < SYMBOLS && freq[c] > 0 && d[c] == m + 1
    requires forall x :: 0 <= x < SYMBOLS && x != c && freq[x] > 0 ==> d[x] <= m
    requires Load(freq, d, SYMBOLS) <= 1.0
    ensures Load(freq, d[c := m], SYMBOLS) <= 1.0
  {
    assert Half(m + 1) == Half(m) / 2.0;
    hide Half, Load;
    var k := OddLoad(freq, d, c, m, SYMBOLS);
    RoomForUnit(Load(freq, d, SYMBOLS), k, m);
    DepthUpdate(freq, d, c, m);
  }

  // ----- the two rarest symbols can be made siblings -----

  ghost predicate NoneDeeper(freq: seq<nat>, d: seq<nat>, m: nat)
    requires |freq| == |d| == SYMBOLS
  {
    forall x :: 0 <= x < SYMBOLS && freq[x] > 0 ==> d[x] <= m
  }

  lemma {:induction false} LoadAtLeast(freq: seq<nat>, d: seq<nat>, i: nat, n: nat)
    requires i < n <= |freq| == |d| && freq[i] > 0
    ensures Load(freq, d, n) >= Half(d[i])
  {
    hide Half;
    LoadNotNegative(freq, d, n - 1);
    if i < n - 1 {
      LoadAtLeast(freq, d, i, n - 1);
    }
  }

  lemma {:induction false} LoadNotNegative(freq: seq<nat>, d: seq<nat>, n: nat)
    requires n <= |freq| == |d|
    ensures Load(freq, d, n) >= 0.0
  {
    hide Half;
    if n > 0 {
      LoadNotNegative(freq, d, n - 1);
    }
  }

  /** Two symbols cannot both be the root. */
  lemma {:induction false} NotBothAtRoot(freq: seq<nat>, d: seq<nat>, i: nat, j: nat)
    requires |freq| == |d| == SYMBOLS && i < SYMBOLS && j < SYMBOLS && i != j && freq[i] > 0 && freq[j] > 0
    requires Load(freq, d, SYMBOLS) <= 1.0
    ensures d[i] + d[j] > 0
  {
    if d[i] == 0 && d[j] == 0 {
      assert Half(0) == 1.0;
      hide Load, Half;
      LoadUpdate(freq, d, i, 0, 0, SYMBOLS);
      assert d[i := 0] == d;
      LoadAtLeast(freq[i := 0], d, j, SYMBOLS);
      assert false;
    }
  }

  /** A cheapest code has the two rarest symbols side by side. */
  lemma {:induction false} Siblings(freq: seq<nat>, c1: nat, c2: nat, d: seq<nat>, m: nat) returns (e: seq<nat>)
    requires LeastTwo(freq, c1, c2) && |d| == SYMBOLS && NoneDeeper(freq, d, m) && Load(freq, d, SYMBOLS) <= 1.0
    ensures |e| == SYMBOLS && Load(freq, e, SYMBOLS) <= 1.0 && Cost(freq, e, SYMBOLS) <= Cost(freq, d, SYMBOLS)
    ensures e[c1] == e[c2] > 0
    decreases m
  {
    hide Load, Cost, Half, Bill;
    NotBothAtRoot(freq, d, c1, c2);
    if p :| 0 <= p < SYMBOLS && freq[p] > 0 && d[p] == m {
      SwapCost(freq, d, c1, p);
      e := Swapped(d, c1, p);
      if q :| 0 <= q < SYMBOLS && freq[q] > 0 && q != c1 && e[q] == m {
        SwapCost(freq, e, c2, q);
        e := Swapped(e, c2, q);
      } else {
        RoomAbove(freq, e, c1, m - 1);
        DepthUpdate(freq, e, c1, m - 1);
        BillGrows(freq[c1], m - 1, m);
        e := Siblings(freq, c1, c2, e[c1 := m - 1], m - 1);
      }
    } else {
      e := Siblings(freq, c1, c2, d, m - 1);
    }
  }

  lemma {:induction false} Deepest(freq: seq<nat>, d: seq<nat>, n: nat) returns (m: nat)
    requires n <= |d| == |freq| == SYMBOLS
    ensures forall x :: 0 <= x < n ==> d[x] <= m
  {
    if n == 0 {
      m := 0;
    } else {
      m := Deepest(freq, d, n - 1);
      m := if d[n - 1] > m then d[n - 1] else m;
    }
  }

  // ----- optimality -----

  lemma BillJoined(a: nat, b: nat, m: nat)
    ensures Bill(a, m + 1) + Bill(b, m + 1) == Bill(a + b, m) + a + b
    ensures Bill(0, m) == 0
  {
  }

  /** Merging two siblings saves their counts and keeps the weight. */
  lemma SiblingsMerged(freq: seq<nat>, c1: nat, c2: nat, e: seq<nat>, m: nat, k: nat)
    requires |freq| == |e| == SYMBOLS && c1 < SYMBOLS && c2 < SYMBOLS && c1 != c2 && freq[c1] > 0 && freq[c2] > 0
    requires e[c1] == e[c2] == m + 1
    ensures Cost(freq, e, SYMBOLS) == Cost(Joined(freq, c1, c2), e[c1 := m][c2 := k], SYMBOLS) + freq[c1] + freq[c2]
    ensures Load(freq, e, SYMBOLS) == Load(Joined(freq, c1, c2), e[c1 := m][c2 := k], SYMBOLS)
  {
    assert Half(m + 1) == Half(m) / 2.0;
    hide Load, Cost, Half, Bill;
    var v := freq[c1] + freq[c2];
    CostUpdate(freq, e, c1, v, m, SYMBOLS);
    CostUpdate(freq[c1 := v], e[c1 := m], c2, 0, k, SYMBOLS);
    LoadUpdate(freq, e, c1, v, m, SYMBOLS);
    LoadUpdate(freq[c1 := v], e[c1 := m], c2, 0, k, SYMBOLS);
    BillJoined(freq[c1], freq[c2], m);
    BillJoined(0, 0, k);
  }

  lemma {:induction false} DepthsStep(freq: seq<nat>, c1: int, c2: int)
    requires |freq| == SYMBOLS && c1 == Least(freq, SYMBOLS, -1) && c2 == Least(freq, SYMBOLS, c1)
    ensures c2 < 0 ==> Depths(freq) == seq(SYMBOLS, _ => 0)
    ensures c2 >= 0 ==> LeastTwo(freq, c1, c2) && Used(Joined(freq, c1, c2), SYMBOLS) < Used(freq, SYMBOLS)
    ensures c2 >= 0 ==>
      var d := Depths(Joined(freq, c1, c2));
      Depths(freq) == d[c1 := d[c1] + 1][c2 := d[c1] + 1]
    ensures IsLeast(freq, SYMBOLS, -1, c1) && IsLeast(freq, SYMBOLS, c1, c2)
  {
    hide Least, Used, IsLeast, Joined, LeastTwo;
    LeastPair(freq, c1, c2);
  }

  lemma {:induction false} NoCost(freq: seq<nat>, n: nat)
    requires n <= |freq| == SYMBOLS
    ensures Cost(freq, seq(SYMBOLS, _ => 0), n) == 0
  {
    if n > 0 {
      NoCost(freq, n - 1);
    }
  }

  lemma {:induction false} DepthsOptimal(freq: seq<nat>, d: seq<nat>)
    requires |freq| == |d| == SYMBOLS && Load(freq, d, SYMBOLS) <= 1.0
    ensures Cost(freq, Depths(freq), SYMBOLS) <= Cost(freq, d, SYMBOLS)
    decreases Used(freq, SYMBOLS)
  {
    hide Load, Cost, Used, Least, IsLeast, Joined, Depths;
    var c1 := Least(freq, SYMBOLS, -1);
    var c2 := Least(freq, SYMBOLS, c1);
    DepthsStep(freq, c1, c2);
    if c2 < 0 {
      NoCost(freq, SYMBOLS);
    } else {
      var g := Joined(freq, c1, c2);
      var m := Deepest(freq, d, SYMBOLS);
      var e := Siblings(freq, c1, c2, d, m);
      var below := e[c1 := e[c1] - 1][c2 := 0];
      SiblingsMerged(freq, c1, c2, e, e[c1] - 1, 0);
      DepthsOptimal(g, below);
      var t := Depths(g);
      SiblingsMerged(freq, c1, c2, Depths(freq), t[c1], t[c2]);
      assert Depths(freq)[c1 := t[c1]][c2 := t[c2]] == t;
    }
  }

  // ----- the code is complete -----

  lemma {:induction false} LoneLoad(freq: seq<nat>, d: seq<nat>, c: nat, n: nat)
    requires n <= |freq| == |d| && c < |freq| && freq[c] > 0 && d[c] == 0
    requires forall x :: 0 <= x < |freq| && freq[x] > 0 ==> x == c
    ensures Load(freq, d, n) == if c < n then 1.0 else 0.0
  {
    if n > 0 {
      LoneLoad(freq, d, c, n - 1);
    }
  }

  /** With two symbols or more, the leaves fill the tree and none is the root. */
  lemma {:induction false} DepthsFill(freq: seq<nat>, a: nat, b: nat)
    requires |freq| == SYMBOLS && a < SYMBOLS && b < SYMBOLS && a != b && freq[a] > 0 && freq[b] > 0
    ensures Load(freq, Depths(freq), SYMBOLS) == 1.0
    ensures forall x :: 0 <= x < SYMBOLS && freq[x] > 0 ==> Depths(freq)[x] > 0
    decreases Used(freq, SYMBOLS)
  {
    hide Load, Used, Least, IsLeast, Depths;
    var c1 := Least(freq, SYMBOLS, -1);
    var c2 := Least(freq, SYMBOLS, c1);
    LeastPair(freq, c1, c2);
    DepthsStep(freq, c1, c2);
    var g, t := Joined(freq, c1, c2), Depths(Joined(freq, c1, c2));
    if y :| 0 <= y < SYMBOLS && freq[y] > 0 && y != c1 && y != c2 {
      DepthsFill(g, c1, y);
    } else {
      var d1 := Least(g, SYMBOLS, -1);
      var d2 := Least(g, SYMBOLS, d1);
      DepthsStep(g, d1, d2);
      LoneLoad(g, t, c1, SYMBOLS);
    }
    SiblingsMerged(freq, c1, c2, Depths(freq), t[c1], t[c2]);
    assert Depths(freq)[c1 := t[c1]][c2 := t[c2]] == t;
  }

  /** size gives every symbol that has a count the length of a code word of some
      prefix code. */
  ghost predicate Feasible(size: seq<nat>, freq: seq<nat>) {
    && |size| == |freq| == SYMBOLS && Weight(size, SYMBOLS) <= 1.0
    && forall x :: 0 <= x < SYMBOLS && freq[x] > 0 ==> size[x] > 0
  }

  lemma {:induction false} WeightIsLoad(freq: seq<nat>, size: seq<nat>, n: nat)
    requires n <= |freq| == |size| && forall x :: 0 <= x < |freq| ==> (freq[x] > 0 <==> size[x] > 0)
    ensures Weight(size, n) == Load(freq, size, n)
  {
    hide Half;
    if n > 0 {
      WeightIsLoad(freq, size, n - 1);
    }
  }

  lemma {:induction false} SameLoad(freq: seq<nat>, a: seq<nat>, b: seq<nat>, n: nat)
    requires n <= |freq| == |a| == |b| && forall x :: 0 <= x < |freq| && freq[x] > 0 ==> a[x] == b[x]
    ensures Load(freq, a, n) == Load(freq, b, n)
  {
    hide Half;
    if n > 0 {
      SameLoad(freq, a, b, n - 1);
    }
  }

  /** Huffman's algorithm gives exactly the symbols with a count a code word, and the
      code is complete. */
  lemma {:induction false} HuffmanIsComplete(freq: seq<nat>, a: nat, b: nat)
    requires |freq| == SYMBOLS && a < SYMBOLS && b < SYMBOLS && a != b && freq[a] > 0 && freq[b] > 0
    ensures Feasible(HuffSizes(freq), freq) && Weight(HuffSizes(freq), SYMBOLS) == 1.0
    ensures forall x :: 0 <= x < SYMBOLS ==> (HuffSizes(freq)[x] > 0 <==> freq[x] > 0)
  {
    hide Load, Weight, Depths, HuffSizes;
    DepthsFill(freq, a, b);
    HuffSizesAreDepths(freq);
    SameLoad(freq, HuffSizes(freq), Depths(freq), SYMBOLS);
    WeightIsLoad(freq, HuffSizes(freq), SYMBOLS);
  }

  lemma {:induction false} LoadWithinWeight(freq: seq<nat>, size: seq<nat>, n: nat)
    requires n <= |freq| == |size| && forall x :: 0 <= x < |freq| && freq[x] > 0 ==> size[x] > 0
    ensures Load(freq, size, n) <= Weight(size, n)
  {
    hide Half;
    if n > 0 {
      LoadWithinWeight(freq, size, n - 1);
    }
  }

  lemma {:induction false} SameCost(freq: seq<nat>, a: seq<nat>, b: seq<nat>, n: nat)
    requires n <= |freq| == |a| == |b| && forall x :: 0 <= x < |freq| && freq[x] > 0 ==> a[x] == b[x]
    ensures Cost(freq, a, n) == Cost(freq, b, n)
  {
    if n > 0 {
      SameCost(freq, a, b, n - 1);
    }
  }

  /** Main theorem: no prefix code for the counts takes fewer bits than the code of
      Huffman's algorithm. */
  lemma {:induction false} HuffmanIsOptimal(freq: seq<nat>, size: seq<nat>)
    requires Feasible(size, freq)
    ensures |size| == |freq| == SYMBOLS && Cost(freq, HuffSizes(freq), SYMBOLS) <= Cost(freq, size, SYMBOLS)
  {
    hide Load, Cost, Weight, Depths, HuffSizes;
    LoadWithinWeight(freq, size, SYMBOLS);
    DepthsOptimal(freq, size);
    HuffSizesAreDepths(freq);
    SameCost(freq, HuffSizes(freq), Depths(freq), SYMBOLS);
  }
}
