/** Optimal Huffman tables: jpeg_gen_optimal_table of jchuff.c, the procedure of
    section K.2 of ITU-T T.81 with its limit of 16 bits. */
module HuffOptimal {
  import opened Bits
  import opened HuffTable
  import opened HuffLimit
  import opened HuffCounts
  import opened HuffLengths
  import opened HuffDepths

  // ----- the search for the least count -----

  method LeastCount(freq: array<nat>, except: int) returns (c: int)
    requires freq.Length == SYMBOLS && forall i :: 0 <= i < SYMBOLS ==> freq[i] <= MAX_COUNT
    ensures c == Least(freq[..], SYMBOLS, except)
  {
    c := -1;
    var v := MAX_COUNT;
    for i := 0 to SYMBOLS
      invariant c == Least(freq[..], i, except)
      invariant v == if c >= 0 then freq[c] else MAX_COUNT
    {
      if freq[i] != 0 && freq[i] <= v && i != except {
        v := freq[i];
        c := i;
      }
    }
  }

  // ----- the trees -----

  /** s lists the leaves of the tree c, in the order of the links. */
  ghost predicate ChainOf(s: seq<int>, c: int, owner: seq<int>, others: seq<int>)
    requires |owner| == |others| == SYMBOLS
  {
    && s != [] && s[0] == c
    && (forall i :: 0 <= i < |s| ==> 0 <= s[i] < SYMBOLS && owner[s[i]] == c)
    && (forall i :: 0 <= i < |s| - 1 ==> others[s[i]] == s[i + 1])
    && others[s[|s| - 1]] == -1
    && (forall i, j :: 0 <= i < j < |s| ==> s[i] != s[j])
    && (forall x :: 0 <= x < SYMBOLS && owner[x] == c ==> x in s)
  }

  /** owner[x] is the root of the tree that x is a leaf of, or -1 for a symbol
      without a count; chain[c] lists the leaves of the tree c. */
  datatype Trees = Trees(owner: seq<int>, chain: seq<seq<int>>)

  ghost predicate Roots(freq: seq<nat>, f: Trees) {
    && |freq| == |f.owner| == |f.chain| == SYMBOLS
    && (forall x :: 0 <= x < SYMBOLS ==> -1 <= f.owner[x] < SYMBOLS)
    && (forall c :: 0 <= c < SYMBOLS ==> (freq[c] > 0 <==> f.owner[c] == c))
  }

  ghost predicate Linked(others: seq<int>, f: Trees)
    requires |f.owner| == |f.chain| == |others| == SYMBOLS
  {
    forall c :: 0 <= c < SYMBOLS && f.owner[c] == c ==> ChainOf(f.chain[c], c, f.owner, others)
  }

  ghost predicate Forest(freq: seq<nat>, others: seq<int>, f: Trees) {
    Roots(freq, f) && |others| == SYMBOLS && Linked(others, f)
  }

  /** Every symbol with a count is a tree by itself. */
  ghost function Saplings(freq: seq<nat>): Trees
    requires |freq| == SYMBOLS
  {
    Trees(Leaves(freq), seq(SYMBOLS, x => [x]))
  }

  lemma Planted(freq: seq<nat>, others: seq<int>)
    requires |freq| == |others| == SYMBOLS
    requires forall x :: 0 <= x < SYMBOLS ==> others[x] == -1
    ensures Forest(freq, others, Saplings(freq))
  {
  }

  /** The first n leaves of s are one step lower. */
  ghost predicate LeavesLowered(before: seq<nat>, now: seq<nat>, s: seq<int>, n: nat) {
    && |before| == |now| && n <= |s|
    && forall x :: 0 <= x < |now| ==> now[x] == before[x] + if x in s[..n] then 1 else 0
  }

  lemma OneMoreLeaf(before: seq<nat>, now: seq<nat>, s: seq<int>, n: nat)
    requires LeavesLowered(before, now, s, n) && n < |s| && 0 <= s[n] < |now| && s[n] !in s[..n]
    ensures LeavesLowered(before, now[s[n] := now[s[n]] + 1], s, n + 1)
  {
    assert s[..n + 1] == s[..n] + [s[n]];
  }

  lemma AllLeaves(before: seq<nat>, now: seq<nat>, s: seq<int>, c: int, owner: seq<int>, others: seq<int>)
    requires |owner| == |others| == |before| == SYMBOLS && ChainOf(s, c, owner, others)
    requires LeavesLowered(before, now, s, |s|)
    ensures |now| == SYMBOLS
    ensures forall x :: 0 <= x < SYMBOLS ==> now[x] == before[x] + if owner[x] == c then 1 else 0
  {
    assert s[..|s|] == s;
  }

  /** One more step down for every leaf of the tree that starts at c. */
  method LowerBranch(size: array<nat>, others: array<int>, c: nat, ghost s: seq<int>, ghost owner: seq<int>)
    returns (last: nat)
    requires size.Length == others.Length == |owner| == SYMBOLS
    requires ChainOf(s, c, owner, others[..])
    modifies size
    ensures forall x :: 0 <= x < SYMBOLS ==> size[x] == old(size[x]) + if owner[x] == c then 1 else 0
    ensures last == s[|s| - 1] < SYMBOLS
  {
    ghost var i, o, before := 0, others[..], size[..];
    NextLeaf(s, c, owner, o, i);
    assert s[0] == c && LeavesLowered(before, before, s, 0);
    hide *;
    OneMoreLeaf(before, before, s, 0);
    last := c;
    size[last] := size[last] + 1;
    assert size[..] == before[s[0] := before[s[0]] + 1];
    while others[last] >= 0
      invariant 0 <= i < |s| && last == s[i] && others[..] == o
      invariant (i < |s| - 1 ==> o[last] == s[i + 1] >= 0) && (i == |s| - 1 ==> o[last] == -1)
      invariant LeavesLowered(before, size[..], s, i + 1)
      decreases |s| - i
    {
      i := i + 1;
      ghost var now := size[..];
      NextLeaf(s, c, owner, o, i);
      OneMoreLeaf(before, now, s, i);
      last := others[last];
      size[last] := size[last] + 1;
      assert size[..] == now[s[i] := now[s[i]] + 1];
    }
    AllLeaves(before, size[..], s, c, owner, o);
  }

  lemma NextLeaf(s: seq<int>, c: int, owner: seq<int>, others: seq<int>, i: nat)
    requires |owner| == |others| == SYMBOLS && ChainOf(s, c, owner, others) && i < |s|
    ensures 0 <= s[i] < SYMBOLS && s[i] !in s[..i]
    ensures if i < |s| - 1 then others[s[i]] == s[i + 1] >= 0 else others[s[i]] == -1
  {
  }

  /** The trees after c2 has been hung beside c1. */
  ghost function Merged(f: Trees, c1: nat, c2: nat): Trees
    requires |f.owner| == |f.chain| == SYMBOLS && c1 < SYMBOLS && c2 < SYMBOLS
  {
    Trees(OwnerMerged(f.owner, c1, c2), f.chain[c1 := f.chain[c1] + f.chain[c2]])
  }

  lemma MergedRoots(freq: seq<nat>, f: Trees, c1: nat, c2: nat)
    requires Roots(freq, f) && c1 < SYMBOLS && c2 < SYMBOLS && c1 != c2 && freq[c1] > 0 && freq[c2] > 0
    ensures Roots(Joined(freq, c1, c2), Merged(f, c1, c2))
  {
  }

  lemma ChainUnlinked(s: seq<int>, c: int, owner: seq<int>, owner': seq<int>, others: seq<int>, l: nat, v: int)
    requires |owner| == |owner'| == |others| == SYMBOLS && l < SYMBOLS
    requires ChainOf(s, c, owner, others) && owner[l] != c
    requires forall x :: 0 <= x < SYMBOLS ==> (owner'[x] == c <==> owner[x] == c)
    ensures ChainOf(s, c, owner', others[l := v])
  {
  }

  lemma JoinedLink(s: seq<int>, t: seq<int>, c1: int, c2: int, owner: seq<int>, others: seq<int>, i: nat)
    requires |owner| == |others| == SYMBOLS && c1 != c2 && i < |s| + |t|
    requires ChainOf(s, c1, owner, others) && ChainOf(t, c2, owner, others)
    ensures var u, o := s + t, others[s[|s| - 1] := c2];
      && 0 <= u[i] < SYMBOLS && owner[u[i]] == (if i < |s| then c1 else c2)
      && o[u[i]] == if i < |u| - 1 then u[i + 1] else -1
  {
    LastLeaf(s, c1, owner, others);
    if i < |s| {
      NextLeaf(s, c1, owner, others, i);
      if i < |s| - 1 {
        assert s[|s| - 1] !in s[..|s| - 1] && s[..|s| - 1][i] == s[i];
      }
    } else {
      NextLeaf(t, c2, owner, others, i - |s|);
    }
  }

  lemma JoinedApart(s: seq<int>, t: seq<int>, c1: int, c2: int, owner: seq<int>, others: seq<int>, i: nat, j: nat)
    requires |owner| == |others| == SYMBOLS && c1 != c2 && i < j < |s| + |t|
    requires ChainOf(s, c1, owner, others) && ChainOf(t, c2, owner, others)
    ensures (s + t)[i] != (s + t)[j]
  {
    if i < |s| <= j {
      assert owner[s[i]] == c1 && owner[t[j - |s|]] == c2;
    }
  }

  lemma ChainsJoined(s: seq<int>, t: seq<int>, c1: int, c2: int, owner: seq<int>, owner': seq<int>, others: seq<int>)
    requires |owner| == |owner'| == |others| == SYMBOLS && c1 != c2
    requires ChainOf(s, c1, owner, others) && ChainOf(t, c2, owner, others)
    requires forall x :: 0 <= x < SYMBOLS ==> (owner'[x] == c1 <==> owner[x] == c1 || owner[x] == c2)
    ensures ChainOf(s + t, c1, owner', others[s[|s| - 1] := c2])
  {
    var u, o := s + t, others[s[|s| - 1] := c2];
    assert u != [] && u[0] == c1;
    forall x | 0 <= x < SYMBOLS && owner'[x] == c1
      ensures x in u
    {
      assert x in s || x in t;
    }
    forall i: nat | i < |u|
      ensures 0 <= u[i] < SYMBOLS && owner'[u[i]] == c1
      ensures o[u[i]] == if i < |u| - 1 then u[i + 1] else -1
    {
      JoinedLink(s, t, c1, c2, owner, others, i);
    }
    forall i: nat, j: nat | i < j < |u|
      ensures u[i] != u[j]
    {
      JoinedApart(s, t, c1, c2, owner, others, i, j);
    }
  }

  lemma MergedLinked(f: Trees, others: seq<int>, c1: nat, c2: nat)
    requires |f.owner| == |f.chain| == |others| == SYMBOLS && Linked(others, f)
    requires c1 < SYMBOLS && c2 < SYMBOLS && c1 != c2 && f.owner[c1] == c1 && f.owner[c2] == c2
    ensures ChainOf(f.chain[c1], c1, f.owner, others)
    ensures Linked(others[f.chain[c1][|f.chain[c1]| - 1] := c2], Merged(f, c1, c2))
  {
    hide ChainOf;
    assert ChainOf(f.chain[c1], c1, f.owner, others) && ChainOf(f.chain[c2], c2, f.owner, others);
    LastLeaf(f.chain[c1], c1, f.owner, others);
    var g, l := Merged(f, c1, c2), f.chain[c1][|f.chain[c1]| - 1];
    forall c | 0 <= c < SYMBOLS && g.owner[c] == c
      ensures ChainOf(g.chain[c], c, g.owner, others[l := c2])
    {
      if c == c1 {
        ChainsJoined(f.chain[c1], f.chain[c2], c1, c2, f.owner, g.owner, others);
      } else {
        ChainUnlinked(f.chain[c], c, f.owner, g.owner, others, l, c2);
      }
    }
  }

  lemma LastLeaf(s: seq<int>, c: int, owner: seq<int>, others: seq<int>)
    requires |owner| == |others| == SYMBOLS && ChainOf(s, c, owner, others)
    ensures s != [] && 0 <= s[|s| - 1] < SYMBOLS && owner[s[|s| - 1]] == c
  {
  }

  /** One step: the two trees become one, a step further down. */
  method MergeTrees(freq: array<nat>, codesize: array<nat>, others: array<int>, c1: int, c2: int, ghost f: Trees)
    returns (ghost g: Trees)
    requires freq.Length == codesize.Length == others.Length == SYMBOLS && freq != codesize
    requires Forest(freq[..], others[..], f) && LeastTwo(freq[..], c1, c2)
    modifies freq, codesize, others
    ensures 0 <= c1 < SYMBOLS && 0 <= c2 < SYMBOLS && |f.owner| == SYMBOLS
    ensures Forest(freq[..], others[..], g) && freq[..] == Joined(old(freq[..]), c1, c2)
    ensures g.owner == OwnerMerged(f.owner, c1, c2) && codesize[..] == LoweredBy(old(codesize[..]), f.owner, c1, c2)
  {
    hide Forest, ChainOf, LeastTwo, Joined, Merged, LoweredBy, OwnerMerged;
    ghost var counts, size, links := freq[..], codesize[..], others[..];
    TwoTrees(counts, links, f, c1, c2);
    TreesMerged(counts, links, f, c1, c2);
    JoinedTwice(counts, c1, c2);
    freq[c1] := freq[c1] + freq[c2];
    freq[c2] := 0;
    assert freq[..] == Joined(counts, c1, c2);
    var last1 := LowerBranch(codesize, others, c1, f.chain[c1], f.owner);
    ChainUnlinked(f.chain[c2], c2, f.owner, f.owner, links, last1, c2);
    others[last1] := c2;
    assert others[..] == links[last1 := c2];
    var last2 := LowerBranch(codesize, others, c2, f.chain[c2], f.owner);
    LoweredOnce(size, codesize[..], f.owner, c1, c2);
    g := Merged(f, c1, c2);
  }

  lemma LoweredOnce(size: seq<nat>, size': seq<nat>, owner: seq<int>, c1: nat, c2: nat)
    requires |size| == |size'| == |owner| == SYMBOLS && Lowered(size, size', owner, c1, c2)
    ensures size' == LoweredBy(size, owner, c1, c2)
  {
  }

  /** Huffman's algorithm with linked lists of leaves. Main theorem: the code lengths
      are those of the algorithm on the map; they make a complete prefix code for the
      symbols with a count, and no prefix code for them is cheaper. */
  method AssignSizes(freq: array<nat>, ghost a: nat, ghost b: nat) returns (codesize: array<nat>)
    requires freq.Length == SYMBOLS && Sum(freq[..], SYMBOLS) <= MAX_COUNT
    requires a < b < SYMBOLS && freq[a] > 0 && freq[b] > 0
    modifies freq
    ensures fresh(codesize) && codesize.Length == SYMBOLS && codesize[..] == HuffSizes(old(freq[..]))
    ensures forall x :: 0 <= x < SYMBOLS ==> (codesize[x] > 0 <==> old(freq[x]) > 0)
    ensures Weight(codesize[..], SYMBOLS) == 1.0
    ensures Cheapest(codesize[..], old(freq[..]))
  {
    hide Sum, Used, Forest, Weight, Sizes, Least, IsLeast, OwnerMerged, LoweredBy, Saplings, Joined, LeastTwo, Cheapest;
    hide HuffSizes;
    codesize := new nat[SYMBOLS](_ => 0);
    var others := new int[SYMBOLS](_ => -1);
    ghost var f, counts := Saplings(freq[..]), freq[..];
    Planted(freq[..], others[..]);
    assert codesize[..] == seq(SYMBOLS, _ => 0);
    SizesStart(counts);
    while true
      invariant Forest(freq[..], others[..], f) && Sum(freq[..], SYMBOLS) <= MAX_COUNT && |f.owner| == SYMBOLS
      invariant Sizes(freq[..], f.owner, codesize[..]) == HuffSizes(counts)
      decreases Used(freq[..], SYMBOLS)
    {
      CountsFit(freq[..]);
      var c1 := LeastCount(freq, -1);
      var c2 := LeastCount(freq, c1);
      SizesStep(freq[..], f.owner, codesize[..], c1, c2);
      if c2 < 0 {
        break;
      }
      TwoFacts(freq[..], c1, c2);
      CountsMerged(freq[..], c1, c2);
      f := MergeTrees(freq, codesize, others, c1, c2, f);
    }
    HuffmanIsComplete(counts, a, b);
    HuffmanCheapest(counts);
  }

  /** No prefix code for the symbols with a count takes fewer bits for them than the
      code lengths size. */
  ghost predicate Cheapest(size: seq<nat>, counts: seq<nat>) {
    && |size| == |counts| == SYMBOLS
    && forall other :: Feasible(other, counts) ==> Cost(counts, size, SYMBOLS) <= Cost(counts, other, SYMBOLS)
  }

  lemma {:induction false} HuffmanCheapest(counts: seq<nat>)
    requires |counts| == SYMBOLS
    ensures Cheapest(HuffSizes(counts), counts)
  {
    hide HuffSizes, Cost, Feasible;
    forall other | Feasible(other, counts)
      ensures |other| == SYMBOLS && Cost(counts, HuffSizes(counts), SYMBOLS) <= Cost(counts, other, SYMBOLS)
    {
      HuffmanIsOptimal(counts, other);
    }
  }

  lemma {:induction false} SizesStart(freq: seq<nat>)
    requires |freq| == SYMBOLS
    ensures |Saplings(freq).owner| == SYMBOLS
    ensures Sizes(freq, Saplings(freq).owner, seq(SYMBOLS, _ => 0)) == HuffSizes(freq)
  {
    hide Sizes;
  }

  lemma {:induction false} CountsFit(freq: seq<nat>)
    requires |freq| == SYMBOLS && Sum(freq, SYMBOLS) <= MAX_COUNT
    ensures forall i :: 0 <= i < SYMBOLS ==> freq[i] <= MAX_COUNT
  {
    forall i | 0 <= i < SYMBOLS
      ensures freq[i] <= MAX_COUNT
    {
      SumAtLeast(freq, i, SYMBOLS);
    }
  }

  lemma TwoTrees(freq: seq<nat>, others: seq<int>, f: Trees, c1: int, c2: int)
    requires Forest(freq, others, f) && LeastTwo(freq, c1, c2)
    ensures 0 <= c1 < SYMBOLS && 0 <= c2 < SYMBOLS && c1 != c2 && freq[c1] > 0 && freq[c2] > 0
    ensures |f.owner| == |f.chain| == |others| == SYMBOLS && f.owner[c1] == c1 && f.owner[c2] == c2
    ensures ChainOf(f.chain[c1], c1, f.owner, others) && ChainOf(f.chain[c2], c2, f.owner, others)
    ensures f.chain[c1] != [] && 0 <= f.chain[c1][|f.chain[c1]| - 1] < SYMBOLS
    ensures f.owner[f.chain[c1][|f.chain[c1]| - 1]] == c1
  {
    assert ChainOf(f.chain[c1], c1, f.owner, others) && ChainOf(f.chain[c2], c2, f.owner, others);
    LastLeaf(f.chain[c1], c1, f.owner, others);
  }

  lemma TreesMerged(freq: seq<nat>, others: seq<int>, f: Trees, c1: nat, c2: nat)
    requires Forest(freq, others, f) && c1 < SYMBOLS && c2 < SYMBOLS && c1 != c2 && freq[c1] > 0 && freq[c2] > 0
    ensures f.chain[c1] != [] && 0 <= f.chain[c1][|f.chain[c1]| - 1] < SYMBOLS
    ensures Forest(Joined(freq, c1, c2), others[f.chain[c1][|f.chain[c1]| - 1] := c2], Merged(f, c1, c2))
    ensures Merged(f, c1, c2).owner == OwnerMerged(f.owner, c1, c2)
  {
    hide ChainOf;
    MergedLinked(f, others, c1, c2);
    LastLeaf(f.chain[c1], c1, f.owner, others);
    MergedRoots(freq, f, c1, c2);
  }

  // ----- counting the code lengths -----

  /** The weight of the symbols below n, in units of 2^-32. */
  function Units(size: seq<nat>, n: nat): int
    requires n <= |size| && forall x :: 0 <= x < n ==> size[x] <= MAX_CLEN
  {
    if n == 0 then 0 else Units(size, n - 1) + if size[n - 1] > 0 then Pow2(MAX_CLEN - size[n - 1]) else 0
  }

  lemma {:induction false} HalfIsPower(k: nat)
    requires k <= MAX_CLEN
    ensures Half(k) * 4294967296.0 == Pow2(MAX_CLEN - k) as real
  {
    if k == 0 {
      PowValues();
    } else {
      HalfIsPower(k - 1);
      PowDoubles(MAX_CLEN - (k - 1), MAX_CLEN - k);
    }
  }

  lemma {:induction false} UnitsOfWeight(size: seq<nat>, n: nat)
    requires n <= |size| && forall x :: 0 <= x < n ==> size[x] <= MAX_CLEN
    ensures Weight(size, n) * 4294967296.0 == Units(size, n) as real
  {
    hide Half, Pow2;
    if n > 0 {
      UnitsOfWeight(size, n - 1);
      HalfIsPower(size[n - 1]);
    }
  }

  /** The number of symbols below n of each length from 1 to 32. */
  ghost function LengthCounts(size: seq<nat>, n: nat): (b: seq<int>)
    requires n <= |size|
    ensures |b| == MAX_CLEN + 1
  {
    seq(MAX_CLEN + 1, k requires 0 <= k <= MAX_CLEN => if k == 0 then 0 else Equal(size, n, k))
  }

  lemma {:induction false} NoLengths(b: seq<int>, size: seq<nat>)
    requires |b| == MAX_CLEN + 1 && forall k :: 0 <= k < |b| ==> b[k] == 0
    ensures b == LengthCounts(size, 0)
  {
    assert forall k :: 0 <= k < |b| ==> LengthCounts(size, 0)[k] == 0;
  }

  lemma {:induction false} OneMoreLength(size: seq<nat>, i: nat)
    requires i < |size|
    ensures size[i] == 0 || size[i] > MAX_CLEN ==> LengthCounts(size, i + 1) == LengthCounts(size, i)
    ensures 0 < size[i] <= MAX_CLEN ==> LengthCounts(size, i + 1) == Plus(LengthCounts(size, i), size[i], 1)
  {
    var a, b := LengthCounts(size, i), LengthCounts(size, i + 1);
    forall k | 0 <= k <= MAX_CLEN
      ensures b[k] == a[k] + if k > 0 && size[i] == k then 1 else 0
    {
    }
  }

  /** They take up what the symbols do, and there are as many. */
  lemma {:induction false} LengthsCounted(size: seq<nat>, n: nat)
    requires n <= |size| && forall x :: 0 <= x < n ==> size[x] <= MAX_CLEN
    ensures Kraft(LengthCounts(size, n), MAX_CLEN) == Units(size, n)
    ensures CodeCount(LengthCounts(size, n), MAX_CLEN) == Used(size, n)
    ensures NonNegative(LengthCounts(size, n))
  {
    hide Pow2, Kraft, CodeCount, Units, Used;
    var b := LengthCounts(size, n);
    if n == 0 {
      NoLengths(seq(MAX_CLEN + 1, _ => 0), size);
      NothingCounted(b, MAX_CLEN);
      NothingUsed(size);
    } else {
      LengthsCounted(size, n - 1);
      OneMoreLength(size, n - 1);
      OneMoreUsed(size, n - 1);
      hide LengthCounts;
      if size[n - 1] > 0 {
        KraftAdd(LengthCounts(size, n - 1), size[n - 1], 1, MAX_CLEN);
      }
    }
  }

  /** Every length has its number of symbols. It fails for a length over 32. */
  method CountSizes(codesize: array<nat>) returns (ok: bool, bits: array<UInt8>)
    requires codesize.Length == SYMBOLS && Used(codesize[..], SYMBOLS) <= 0xff
    ensures fresh(bits) && bits.Length == MAX_CLEN + 1
    ensures ok <==> forall x :: 0 <= x < SYMBOLS ==> codesize[x] <= MAX_CLEN
    ensures ok ==> bits[..] == LengthCounts(codesize[..], SYMBOLS)
    ensures ok ==> Kraft(bits[..], MAX_CLEN) == Units(codesize[..], SYMBOLS)
    ensures ok ==> CodeCount(bits[..], MAX_CLEN) == Used(codesize[..], SYMBOLS)
  {
    hide Kraft, CodeCount, Units, Used, NonNegative, LengthCounts;
    bits := new UInt8[MAX_CLEN + 1](_ => 0);
    NoLengths(bits[..], codesize[..]);
    for i := 0 to SYMBOLS
      invariant forall x :: 0 <= x < i ==> codesize[x] <= MAX_CLEN
      invariant bits[..] == LengthCounts(codesize[..], i)
    {
      var k: nat := codesize[i];
      OneMoreLength(codesize[..], i);
      if k != 0 {
        if k > MAX_CLEN {
          return false, bits;
        }
        ghost var b := bits[..];
        LengthsCounted(codesize[..], i);
        OneMoreUsed(codesize[..], i);
        UsedGrows(codesize[..], i + 1, SYMBOLS);
        EntriesWithin(b, k, MAX_CLEN);
        bits[k] := bits[k] + 1;
        assert bits[..] == Plus(b, k, 1);
      }
    }
    ok := true;
    LengthsCounted(codesize[..], SYMBOLS);
  }

  lemma {:induction false} NothingCounted(b: seq<int>, n: nat)
    requires n < |b| && n <= MAX_CLEN && forall k :: 0 <= k < |b| ==> b[k] == 0
    ensures Kraft(b, n) == 0 && CodeCount(b, n) == 0
  {
    if n > 0 {
      NothingCounted(b, n - 1);
    }
  }

  lemma {:induction false} NothingUsed(size: seq<nat>)
    ensures Units(size, 0) == 0 && Used(size, 0) == 0
  {
  }

  lemma OneMoreUsed(size: seq<nat>, i: nat)
    requires i < |size| && forall x :: 0 <= x <= i ==> size[x] <= MAX_CLEN
    ensures Units(size, i + 1) == Units(size, i) + if size[i] > 0 then Pow2(MAX_CLEN - size[i]) else 0
    ensures Used(size, i + 1) == Used(size, i) + if size[i] > 0 then 1 else 0
  {
  }

  lemma {:induction false} UsedGrows(size: seq<nat>, m: nat, n: nat)
    requires m <= n <= |size|
    ensures Used(size, m) <= Used(size, n)
    decreases n
  {
    if m < n {
      UsedGrows(size, m, n - 1);
    }
  }

  // ----- the symbols in order of code length -----

  /** The number of symbols below n with lengths from 1 to i. */
  function Within(size: seq<nat>, n: nat, i: nat): (c: nat)
    requires n <= |size|
    ensures c <= n
  {
    if n == 0 then 0 else Within(size, n - 1, i) + if 1 <= size[n - 1] <= i then 1 else 0
  }

  function Equal(size: seq<nat>, n: nat, i: nat): (c: nat)
    requires n <= |size|
  {
    if n == 0 then 0 else Equal(size, n - 1, i) + if size[n - 1] == i then 1 else 0
  }

  lemma {:induction false} EqualIsCount(size: seq<nat>, n: nat, i: nat)
    requires n <= |size|
    ensures Equal(size, n, i) == |set x: nat | x < n && size[x] == i|
  {
    var s := set x: nat | x < n && size[x] == i;
    if n > 0 {
      EqualIsCount(size, n - 1, i);
      var s' := set x: nat | x < n - 1 && size[x] == i;
      assert s == s' + if size[n - 1] == i then {n - 1} else {};
    } else {
      assert s == {};
    }
  }

  lemma {:induction false} WithinStep(size: seq<nat>, n: nat, i: nat)
    requires n <= |size| && i >= 1
    ensures Within(size, n, i) == Within(size, n, i - 1) + Equal(size, n, i)
  {
    if n > 0 {
      WithinStep(size, n - 1, i);
    }
  }

  lemma {:induction false} EqualGrows(size: seq<nat>, m: nat, n: nat, i: nat)
    requires m <= n <= |size|
    ensures Equal(size, m, i) <= Equal(size, n, i)
    decreases n
  {
    if m < n {
      EqualGrows(size, m, n - 1, i);
    }
  }

  lemma {:induction false} WithinAll(size: seq<nat>, n: nat, i: nat)
    requires n <= |size|
    ensures i == 0 ==> Within(size, n, i) == 0
    ensures (forall x :: 0 <= x < n ==> size[x] <= i) ==> Within(size, n, i) == Used(size, n)
  {
    if n > 0 {
      WithinAll(size, n - 1, i);
    }
  }

  /** The first p entries are the symbols with lengths below i, and those below j with
      length i, the shorter code words first, and smaller symbols before larger ones. */
  ghost predicate InOrder(val: seq<UInt8>, p: nat, size: seq<nat>, i: nat, j: nat)
    requires |val| == 256 && |size| == SYMBOLS && p <= 256
  {
    && (forall q :: 0 <= q < p ==> 1 <= size[val[q]] <= i)
    && (forall q, r :: 0 <= q < r < p ==>
         size[val[q]] < size[val[r]] || (size[val[q]] == size[val[r]] && val[q] < val[r]))
    && (forall q :: 0 <= q < p && size[val[q]] == i ==> val[q] < j)
    && (forall x :: 0 <= x < 256 && 1 <= size[x] && (size[x] < i || (size[x] == i && x < j)) ==>
         x in val[..p])
  }

  /** Every entry stands among those of its length. */
  ghost predicate Placed(val: seq<UInt8>, p: nat, size: seq<nat>)
    requires |val| == 256 && |size| == SYMBOLS && p <= 256
  {
    forall q :: 0 <= q < p ==>
      size[val[q]] >= 1 && Within(size, 256, size[val[q]] - 1) <= q < Within(size, 256, size[val[q]])
  }

  method ListSymbols(codesize: array<nat>) returns (huffval: array<UInt8>, p: nat)
    requires codesize.Length == SYMBOLS && forall x :: 0 <= x < SYMBOLS ==> codesize[x] <= MAX_CLEN
    ensures fresh(huffval) && huffval.Length == 256 && p <= 256
    ensures p == Used(codesize[..], 256) && InOrder(huffval[..], p, codesize[..], MAX_CLEN, 256)
    ensures Placed(huffval[..], p, codesize[..])
    ensures forall q, r :: 0 <= q < r < p ==>
      || codesize[huffval[q]] < codesize[huffval[r]]
      || (codesize[huffval[q]] == codesize[huffval[r]] && huffval[q] < huffval[r])
    ensures forall x :: 0 <= x < 256 ==> (x in huffval[..p] <==> codesize[x] > 0)
  {
    hide Within, Equal, InOrder, Used, Placed;
    huffval := new UInt8[256];
    p := 0;
    ghost var size := codesize[..];
    WithinAll(size, 256, 0);
    assert InOrder(huffval[..], 0, size, 0, 256) && Placed(huffval[..], 0, size) by {
      NothingListed(huffval[..], size);
    }
    for i := 1 to MAX_CLEN + 1
      invariant p == Within(size, 256, i - 1) && codesize[..] == size
      invariant p <= 256 && InOrder(huffval[..], p, size, i - 1, 256) && Placed(huffval[..], p, size)
    {
      WithinStep(size, 256, i);
      NextLength(huffval[..], p, size, i);
      assert Equal(size, 0, i) == 0 by { EqualNone(size, i); }
      for j := 0 to 256
        invariant p == Within(size, 256, i - 1) + Equal(size, j, i) && codesize[..] == size
        invariant p <= 256 && InOrder(huffval[..], p, size, i, j) && Placed(huffval[..], p, size)
      {
        EqualOne(size, j, i);
        EqualGrows(size, j + 1, 256, i);
        ghost var val := huffval[..];
        if codesize[j] == i {
          huffval[p] := j;
          assert huffval[..] == val[p := j];
          OneMorePlaced(val, p, size, i, j, huffval[..]);
          p := p + 1;
        }
        OneMoreListed(val, size, i, j, huffval[..], p);
      }
    }
    WithinAll(size, 256, MAX_CLEN);
    AllListed(huffval[..], p, size);
  }

  lemma AllListed(val: seq<UInt8>, p: nat, size: seq<nat>)
    requires |val| == 256 && |size| == SYMBOLS && p <= 256 && InOrder(val, p, size, MAX_CLEN, 256)
    requires forall x :: 0 <= x < SYMBOLS ==> size[x] <= MAX_CLEN
    ensures forall q, r :: 0 <= q < r < p ==>
      size[val[q]] < size[val[r]] || (size[val[q]] == size[val[r]] && val[q] < val[r])
    ensures forall x :: 0 <= x < 256 ==> (x in val[..p] <==> size[x] > 0)
  {
    forall x | 0 <= x < 256 && x in val[..p]
      ensures size[x] > 0
    {
      var q :| 0 <= q < p && val[..p][q] == x;
      assert val[q] == x;
    }
  }

  lemma {:induction false} EqualNone(size: seq<nat>, i: nat)
    ensures Equal(size, 0, i) == 0
  {
  }

  lemma EqualOne(size: seq<nat>, j: nat, i: nat)
    requires j < |size|
    ensures Equal(size, j + 1, i) == Equal(size, j, i) + if size[j] == i then 1 else 0
  {
  }

  lemma NothingListed(val: seq<UInt8>, size: seq<nat>)
    requires |val| == 256 && |size| == SYMBOLS
    ensures InOrder(val, 0, size, 0, 256) && Placed(val, 0, size)
  {
  }

  lemma OneMorePlaced(val: seq<UInt8>, p: nat, size: seq<nat>, i: nat, j: nat, val': seq<UInt8>)
    requires |val| == |val'| == 256 && |size| == SYMBOLS && p < 256 && j < 256 && 1 <= i == size[j]
    requires Placed(val, p, size) && val' == val[p := j]
    requires Within(size, 256, i - 1) <= p < Within(size, 256, i)
    ensures Placed(val', p + 1, size)
  {
    hide Within;
  }

  lemma NextLength(val: seq<UInt8>, p: nat, size: seq<nat>, i: nat)
    requires |val| == 256 && |size| == SYMBOLS && p <= 256 && i >= 1 && InOrder(val, p, size, i - 1, 256)
    ensures InOrder(val, p, size, i, 0)
  {
  }

  lemma OneMoreListed(val: seq<UInt8>, size: seq<nat>, i: nat, j: nat, val': seq<UInt8>, p': nat)
    requires |val| == |val'| == 256 && |size| == SYMBOLS && i >= 1 && j < 256 && p' <= 256
    requires if size[j] == i then p' > 0 && InOrder(val, p' - 1, size, i, j) && val' == val[p' - 1 := j]
             else InOrder(val, p', size, i, j) && val' == val
    ensures InOrder(val', p', size, i, j + 1)
  {
    if size[j] == i {
      assert val'[..p'] == val[..p' - 1] + [j];
    }
  }

  // ----- the table -----

  /** t is a prefix code without a code word of all ones; it lists exactly the symbols
      that have a count, with as many entries as there are such symbols. */
  ghost predicate TableFor(t: Table, counts: seq<nat>)
    requires |counts| == SYMBOLS
  {
    && HuffTable.Valid(t) && PrefixCode(t) && SparesOnes(t)
    && Start(t, 17) == Used(counts, 256)
    && forall v :: 0 <= v < 256 ==> (Listed(t, v) <==> counts[v] > 0)
  }

  lemma {:induction false} StartIsCodes(t: Table, b: seq<int>, l: nat)
    requires |t.bits| == 17 && 17 <= |b| && 1 <= l <= 17
    requires forall k :: 1 <= k <= 16 ==> b[k] == t.bits[k]
    ensures Start(t, l) == CodeCount(b, l - 1)
  {
    if l > 1 {
      StartIsCodes(t, b, l - 1);
    }
  }

  lemma {:induction false} SameUsed(f: seq<nat>, g: seq<nat>, n: nat)
    requires n <= |f| && n <= |g| && forall x :: 0 <= x < n ==> (f[x] > 0 <==> g[x] > 0)
    ensures Used(f, n) == Used(g, n)
  {
    if n > 0 {
      SameUsed(f, g, n - 1);
    }
  }

  lemma {:induction false} PseudoCounted(counts: seq<nat>, freq: seq<nat>)
    requires |counts| == SYMBOLS && freq == counts[PSEUDO_SYMBOL := 1]
    ensures Sum(freq, SYMBOLS) == Sum(counts, 256) + 1
    ensures Used(freq, SYMBOLS) == Used(counts, 256) + 1 && Used(freq, 256) == Used(counts, 256)
  {
    SumUpdate(counts, PSEUDO_SYMBOL, 1, 256);
    UsedUpdate(counts, PSEUDO_SYMBOL, 1, 256);
  }

  lemma {:induction false} TableMade(t: Table, b: seq<UInt8>, size: seq<nat>, counts: seq<nat>)
    requires |b| == MAX_CLEN + 1 && |t.bits| == 17 && t.bits == b[..17] && |t.huffval| == 256
    requires |size| == |counts| == SYMBOLS && forall x :: 0 <= x < 256 ==> (size[x] > 0 <==> counts[x] > 0)
    requires forall x :: 0 <= x < SYMBOLS ==> size[x] <= MAX_CLEN
    requires Kraft(b, 16) < TWO32 && CodeCount(b, 16) == Used(counts, 256)
    requires InOrder(t.huffval, Used(counts, 256), size, MAX_CLEN, 256)
    ensures TableFor(t, counts)
  {
    hide Kraft, CodeCount, Used, Start, FirstCode, Pow2, PrefixCode, SparesOnes;
    PrefixCodeIff(t, b);
    StartIsCodes(t, b, 17);
    var p := Used(counts, 256);
    forall v: nat | v < 256
      ensures Listed(t, v) <==> counts[v] > 0
    {
      if Listed(t, v) {
        var q :| 0 <= q < Start(t, 17) && q < 256 && t.huffval[q] == v;
        assert size[t.huffval[q]] >= 1;
      }
      if counts[v] > 0 {
        assert v in t.huffval[..p];
        var q :| 0 <= q < p && t.huffval[..p][q] == v;
        assert t.huffval[q] == v;
      }
    }
  }

  /** The counts with the pseudo-symbol's. */
  ghost function WithPseudo(counts: seq<nat>): (f: seq<nat>)
    requires |counts| == SYMBOLS
    ensures |f| == SYMBOLS
  {
    counts[PSEUDO_SYMBOL := 1]
  }

  /** Huffman's algorithm needs no code word of more than 32 bits. */
  ghost predicate ShortCodes(counts: seq<nat>)
    requires |counts| == SYMBOLS
  {
    forall x :: 0 <= x < SYMBOLS ==> HuffSizes(WithPseudo(counts))[x] <= MAX_CLEN
  }

  /** The table has the lengths of Huffman's algorithm, limited, less the
      pseudo-symbol's, and the symbols in the order of their depths. */
  ghost predicate FromHuffman(t: Table, counts: seq<nat>)
    requires |counts| == SYMBOLS && |t.bits| == 17 && |t.huffval| == 256
  {
    var size := HuffSizes(WithPseudo(counts));
    && t.bits == PseudoRemoved(Limited(LengthCounts(size, SYMBOLS), MAX_CLEN))[..17]
    && InOrder(t.huffval, Used(counts, 256), size, MAX_CLEN, 256)
    && Placed(t.huffval, Used(counts, 256), size)
  }

  // ----- the table is optimal where no length has to be limited -----

  /** The code word of every symbol v of the table has size[v] bits. */
  ghost predicate LengthsAre(t: Table, size: seq<nat>)
    requires HuffTable.Valid(t) && |size| == SYMBOLS
  {
    forall l: nat, c: nat :: IsCode(t, l, c) ==> size[Symbol(t, l, c)] == l
  }

  /** Huffman's algorithm needs no code word of more than 16 bits. */
  ghost predicate Unlimited(counts: seq<nat>)
    requires |counts| == SYMBOLS
  {
    forall x :: 0 <= x < SYMBOLS ==> HuffSizes(WithPseudo(counts))[x] <= 16
  }

  /** No prefix code for the counts and the pseudo-symbol takes fewer bits than the
      table does, unless some length had to be limited. */
  ghost predicate OptimalFor(t: Table, counts: seq<nat>)
    requires |counts| == SYMBOLS && HuffTable.Valid(t)
  {
    Unlimited(counts) ==>
      var size := HuffSizes(WithPseudo(counts));
      LengthsAre(t, size) && Cheapest(size, WithPseudo(counts))
  }

  lemma {:induction false} EqualTo(size: seq<nat>, n: nat, k: nat, m: nat)
    requires n <= |size|
    ensures (forall x :: 0 <= x < n ==> size[x] <= m) && k > m ==> Equal(size, n, k) == 0
  {
    if n > 0 {
      EqualTo(size, n - 1, k, m);
    }
  }

  /** The pseudo-symbol is one of the longest, so it is its code word that goes. */
  lemma {:induction false} PseudoGone(size: seq<nat>, l: nat)
    requires |size| == SYMBOLS && 1 <= l <= 16 && 1 <= size[PSEUDO_SYMBOL] <= 16
    requires forall x :: 0 <= x < SYMBOLS ==> size[x] <= size[PSEUDO_SYMBOL]
    ensures PseudoRemoved(Limited(LengthCounts(size, SYMBOLS), MAX_CLEN))[l] == Equal(size, 256, l)
  {
    var b, h := LengthCounts(size, SYMBOLS), size[PSEUDO_SYMBOL];
    forall k | h < k <= MAX_CLEN
      ensures b[k] == 0
    {
      EqualTo(size, SYMBOLS, k, h);
    }
    assert b[h] == Equal(size, 256, h) + 1 && b[l] == Equal(size, 256, l) + if l == h then 1 else 0;
    hide Equal, LengthCounts, Limited, InUse;
    LimitedKeeps(b, MAX_CLEN);
    InUseIs(b, 16, h);
  }

  lemma {:induction false} WithinMonotone(size: seq<nat>, n: nat, i: nat, j: nat)
    requires n <= |size| && i <= j
    ensures Within(size, n, i) <= Within(size, n, j)
  {
    if n > 0 {
      WithinMonotone(size, n - 1, i, j);
    }
  }

  lemma {:induction false} StartIsWithin(t: Table, size: seq<nat>, l: nat)
    requires |t.bits| == 17 && |size| == SYMBOLS && 1 <= l <= 17
    requires forall k :: 1 <= k <= 16 ==> t.bits[k] == Equal(size, 256, k)
    ensures Start(t, l) == Within(size, 256, l - 1)
  {
    hide Equal, Within;
    if l > 1 {
      StartIsWithin(t, size, l - 1);
      WithinStep(size, 256, l - 1);
    } else {
      WithinAll(size, 256, 0);
    }
  }

  lemma {:induction false} CodeLength(t: Table, size: seq<nat>, l: nat, c: nat)
    requires HuffTable.Valid(t) && |size| == SYMBOLS && Placed(t.huffval, Start(t, 17), size) && IsCode(t, l, c)
    requires forall k :: 1 <= k <= 16 ==> t.bits[k] == Equal(size, 256, k)
    ensures size[Symbol(t, l, c)] == l
  {
    hide Equal, Within, FirstCode, Start;
    StartMonotone(t, l, 17);
    var q := Start(t, l) + (c - FirstCode(t, l));
    var s := size[t.huffval[q]];
    assert Within(size, 256, s - 1) <= q < Within(size, 256, s);
    StartIsWithin(t, size, l);
    StartIsWithin(t, size, l + 1);
    NextStart(t, l);
    if s < l {
      WithinMonotone(size, 256, s, l - 1);
    } else if s > l {
      WithinMonotone(size, 256, l, s - 1);
    }
  }

  lemma NextStart(t: Table, l: nat)
    requires |t.bits| == 17 && 1 <= l <= 16
    ensures Start(t, l + 1) == Start(t, l) + t.bits[l]
  {
  }

  /** Main theorem: unless lengths had to be limited, every symbol gets the code length
      that Huffman's algorithm gives it, and no prefix code for the counts and the
      pseudo-symbol is cheaper. */
  lemma {:induction false} TableIsOptimal(t: Table, counts: seq<nat>, a: nat)
    requires |counts| == SYMBOLS && a < 256 && counts[a] > 0 && TableFor(t, counts) && FromHuffman(t, counts)
    ensures HuffTable.Valid(t) && OptimalFor(t, counts)
  {
    assert HuffTable.Valid(t);
    hide Used, Start, FirstCode, PrefixCode, SparesOnes, Listed, HuffSizes, InOrder, Placed, Cheapest, LengthsAre;
    hide PseudoRemoved, Limited, LengthCounts, Equal;
    var size := HuffSizes(WithPseudo(counts));
    HuffmanIsComplete(WithPseudo(counts), a, PSEUDO_SYMBOL);
    PseudoDeepest(WithPseudo(counts));
    HuffmanCheapest(WithPseudo(counts));
    if Unlimited(counts) {
      assert Placed(t.huffval, Start(t, 17), size);
      BitsAre(t, size);
      AllLengths(t, size);
    }
  }

  lemma {:induction false} BitsAre(t: Table, size: seq<nat>)
    requires |t.bits| == 17 && |size| == SYMBOLS && 1 <= size[PSEUDO_SYMBOL] <= 16
    requires t.bits == PseudoRemoved(Limited(LengthCounts(size, SYMBOLS), MAX_CLEN))[..17]
    requires forall x :: 0 <= x < SYMBOLS ==> size[x] <= size[PSEUDO_SYMBOL]
    ensures forall k :: 1 <= k <= 16 ==> t.bits[k] == Equal(size, 256, k)
  {
    hide PseudoRemoved, Limited, LengthCounts, Equal;
    forall k | 1 <= k <= 16
      ensures t.bits[k] == Equal(size, 256, k)
    {
      PseudoGone(size, k);
    }
  }

  lemma {:induction false} AllLengths(t: Table, size: seq<nat>)
    requires HuffTable.Valid(t) && |size| == SYMBOLS && Placed(t.huffval, Start(t, 17), size)
    requires forall k :: 1 <= k <= 16 ==> t.bits[k] == Equal(size, 256, k)
    ensures LengthsAre(t, size)
  {
    hide Equal, Start, FirstCode, Placed;
    forall l: nat, c: nat | IsCode(t, l, c)
      ensures size[Symbol(t, l, c)] == l
    {
      CodeLength(t, size, l, c);
    }
  }

  // ----- the lengths of the table -----

  /** Main theorem: the numbers of code words of the table and the pseudo-symbol together.
      Below some length m each is the number of symbols of that depth in Huffman's tree;
      at m it is less, and from there to length 15 it is one at most, or two if no longer
      one is in use. When no symbol is deeper than 17 and enough of them have depth 15,
      only 15 and 16 change. The pseudo-symbol gives up one of the longest code words. */
  lemma {:induction false} TableLengths(t: Table, counts: seq<nat>, a: nat) returns (r: seq<UInt8>, h: nat, m: nat)
    requires |counts| == SYMBOLS && a < 256 && counts[a] > 0 && Used(counts, 256) < 0xff && ShortCodes(counts)
    requires |t.bits| == 17 && |t.huffval| == 256 && FromHuffman(t, counts)
    ensures |r| == 33 && 1 <= h <= 16 && r[h] > 0 && forall k :: h < k <= 32 ==> r[k] == 0
    ensures forall k :: 0 <= k <= 16 ==> t.bits[k] == if k == h then r[k] - 1 else r[k]
    ensures Kraft(r, 32) == 0x1_0000_0000 && CodeCount(r, 32) == Used(counts, 256) + 1
    ensures var size := HuffSizes(counts[256 := 1]);
      && 1 <= m <= 16 && |size| == 257
      && (forall l :: 1 <= l < m ==> r[l] == |set x: nat | x < 257 && size[x] == l|)
      && (m < 16 ==> r[m] < |set x: nat | x < 257 && size[x] == m|)
      && (forall k :: m < k <= 15 ==> r[k] <= 2)
      && (forall k, l :: m < k < l <= 15 && r[k] == 2 ==> r[l] == 0)
    ensures var size := HuffSizes(counts[256 := 1]);
      var n15, n17 := |set x: nat | x < 257 && size[x] == 15|, |set x: nat | x < 257 && size[x] == 17|;
      && |size| == 257
      && ((forall x :: 0 <= x < 257 ==> size[x] <= 17) && n15 >= n17 / 2 ==>
           && (forall l :: 1 <= l < 15 ==> r[l] == |set x: nat | x < 257 && size[x] == l|)
           && r[15] as int == n15 - n17 / 2
           && r[16] as int == |set x: nat | x < 257 && size[x] == 16| + 3 * (n17 / 2))
  {
    hide Kraft, CodeCount, Used, Sum, Weight, Units, HuffSizes, Limited, Placed, InOrder, InUse, LengthCounts;
    var size := HuffSizes(WithPseudo(counts));
    var b := HuffmanLengths(counts, a);
    var n;
    assert Trimmed(b, b, 31, 30);
    n, r := LimitedTrims(b, b, MAX_CLEN, 31);
    m := n;
    h := InUse(r, 16);
    KraftBelow(r, 16, MAX_CLEN);
    var w := SomeCode(r, 16);
    if (forall x :: 0 <= x < 257 ==> size[x] <= 17) && b[15] >= b[17] / 2 {
      NoDeeper(size, 17);
      LimitedFrom17(b);
    }
  }

  /** In terms of the table alone: a length has fewer code words than the tree has symbols
      of that depth only if at most two of each longer length up to 15 are left. */
  lemma {:induction false} TableKeeps(t: Table, counts: seq<nat>, a: nat)
    requires |counts| == SYMBOLS && a < 256 && counts[a] > 0 && Used(counts, 256) < 0xff && ShortCodes(counts)
    requires |t.bits| == 17 && |t.huffval| == 256 && FromHuffman(t, counts)
    ensures var size := HuffSizes(counts[256 := 1]);
      && |size| == 257
      && (forall l, k :: 1 <= l < k <= 15 && t.bits[l] < |set x: nat | x < 257 && size[x] == l| ==> t.bits[k] <= 2)
      && forall q, r :: 0 <= q < r < Used(counts, 256) ==>
           || size[t.huffval[q]] < size[t.huffval[r]]
           || (size[t.huffval[q]] == size[t.huffval[r]] && t.huffval[q] < t.huffval[r])
    ensures var size := HuffSizes(counts[256 := 1]);
      var n15, n17 := |set x: nat | x < 257 && size[x] == 15|, |set x: nat | x < 257 && size[x] == 17|;
      && |size| == 257
      && ((forall x :: 0 <= x < 257 ==> size[x] <= 17) && n15 >= n17 / 2 > 0 ==>
           && (forall l :: 1 <= l < 15 ==> t.bits[l] == |set x: nat | x < 257 && size[x] == l|)
           && t.bits[15] as int == n15 - n17 / 2
           && t.bits[16] as int == |set x: nat | x < 257 && size[x] == 16| + 3 * (n17 / 2) - 1)
  {
    hide HuffSizes, Used, PseudoRemoved, Limited, LengthCounts, Placed;
    var r, h, m := TableLengths(t, counts, a);
  }

  /** The numbers of symbols of each depth in Huffman's tree for the counts and the
      pseudo-symbol's. */
  lemma {:induction false} HuffmanLengths(counts: seq<nat>, a: nat) returns (b: seq<UInt8>)
    requires |counts| == SYMBOLS && a < 256 && counts[a] > 0 && Used(counts, 256) < 0xff && ShortCodes(counts)
    ensures var size := HuffSizes(WithPseudo(counts));
      && b == LengthCounts(size, SYMBOLS) && |b| == 33 && |size| == 257
      && forall l :: 1 <= l <= 32 ==> b[l] == |set x: nat | x < 257 && size[x] == l|
    ensures CompleteUpTo(b, MAX_CLEN) && CodeCount(b, MAX_CLEN) == Used(counts, 256) + 1
  {
    hide Kraft, CodeCount, Used, Sum, Weight, Units, HuffSizes;
    var f := WithPseudo(counts);
    var size := HuffSizes(f);
    HuffmanIsComplete(f, a, PSEUDO_SYMBOL);
    PseudoCounted(counts, f);
    SameUsed(size, f, SYMBOLS);
    UnitsOfWeight(size, SYMBOLS);
    LengthsCounted(size, SYMBOLS);
    var c := LengthCounts(size, SYMBOLS);
    forall l | 1 <= l <= 32
      ensures 0 <= c[l] <= 0xff && c[l] == |set x: nat | x < 257 && size[x] == l|
    {
      EntriesWithin(c, l, MAX_CLEN);
      EqualIsCount(size, 257, l);
    }
    b := c;
  }

  lemma {:induction false} NoDeeper(size: seq<nat>, m: nat)
    requires |size| == SYMBOLS && 1 <= m && forall x :: 0 <= x < SYMBOLS ==> size[x] <= m
    ensures m <= MAX_CLEN ==> NoneAbove(LengthCounts(size, SYMBOLS), m)
  {
    hide Equal;
    forall k | m < k <= MAX_CLEN
      ensures LengthCounts(size, SYMBOLS)[k] == 0
    {
      EqualTo(size, SYMBOLS, k, m);
    }
  }

  // ----- when the lengths stay short -----

  /** What jpeg_gen_optimal_table can take. */
  ghost predicate Countable(c: seq<nat>) {
    && |c| == SYMBOLS && Sum(c, 256) < MAX_COUNT && Used(c, 256) < 0xff
    && exists a :: 0 <= a < 256 && c[a] > 0
  }

  lemma {:induction false} ShortIf(counts: seq<nat>, k: nat)
    requires |counts| == SYMBOLS && Sum(counts, 256) + 1 < Fib(k + 3)
    ensures forall x :: 0 <= x < SYMBOLS ==> HuffSizes(WithPseudo(counts))[x] <= k
  {
    hide Sum, Used, Fib, HuffSizes;
    PseudoCounted(counts, WithPseudo(counts));
    LengthBound(WithPseudo(counts), k);
  }

  /** Counts below the Fibonacci numbers 35 and 19 in all need no code word of more than
      32 and 16 bits. */
  lemma {:induction false} FewCounts(counts: seq<nat>)
    requires |counts| == SYMBOLS
    ensures Sum(counts, 256) + 1 < 9227465 ==> ShortCodes(counts)
    ensures Sum(counts, 256) + 1 < 4181 ==> Unlimited(counts)
  {
    hide Sum, Used, Fib, HuffSizes;
    FibValues();
    if Sum(counts, 256) + 1 < 9227465 {
      ShortIf(counts, 32);
    }
    if Sum(counts, 256) + 1 < 4181 {
      ShortIf(counts, 16);
    }
  }

  /** Up to 32 symbols need no code word of more than 32 bits, up to 16 none of more
      than 16. */
  lemma {:induction false} FewSymbols(counts: seq<nat>)
    requires |counts| == SYMBOLS
    ensures Used(counts, 256) <= 32 ==> ShortCodes(counts)
    ensures Used(counts, 256) <= 16 ==> Unlimited(counts)
  {
    hide Sum, Used, Depths, HuffSizes;
    PseudoCounted(counts, WithPseudo(counts));
    UsedBound(WithPseudo(counts));
    HuffSizesAreDepths(WithPseudo(counts));
  }

  lemma LadderEntries()
    ensures Ladder(33)[0] == Fib(33) && Ladder(33)[40] == Ladder(33)[41] == 0
  {
    hide Fib;
  }

  /** Main theorem: the bound is sharp. These counts reach it, and the table generator,
      which they satisfy, gives up on them. */
  lemma {:induction false} LongCodesOccur()
    ensures Countable(Ladder(33)) && Sum(Ladder(33), 256) + 1 == 9227465
    ensures !ShortCodes(Ladder(33))
  {
    hide Sum, Used, Fib, HuffSizes;
    FibValues();
    LadderEntries();
    hide Ladder;
    LadderDepth(33);
    PseudoCounted(Ladder(33), WithPseudo(Ladder(33)));
    UsedWithoutTwo(Ladder(33), 40, 41, 256);
  }

  // ----- the whole of it -----

  /** jpeg_gen_optimal_table. Main theorem: from any counts, unless Huffman's algorithm
      needs a code word of more than 32 bits, the table is a prefix code of at most 16
      bits for exactly the symbols with a count, and an optimal one unless Huffman's
      algorithm needs a code word of more than 16 bits. */
  method GenOptimalTable(freq: array<nat>, ghost a: nat) returns (ok: bool, t: Table)
    requires freq.Length == SYMBOLS && a < 256 && freq[a] > 0
    requires Sum(freq[..], 256) < MAX_COUNT && Used(freq[..], 256) < 0xff
    modifies freq
    ensures ok <==> ShortCodes(old(freq[..]))
    ensures ok ==> TableFor(t, old(freq[..]))
    ensures ok ==> |t.bits| == 17 && |t.huffval| == 256 && FromHuffman(t, old(freq[..]))
    ensures ok ==> HuffTable.Valid(t) && OptimalFor(t, old(freq[..]))
    ensures var size := HuffSizes(old(freq[..])[256 := 1]);
      && |size| == 257
      && (ok <==> forall x :: 0 <= x < 257 ==> size[x] <= 32)
      && (ok ==>
           && (forall l, k :: 1 <= l < k <= 15 && t.bits[l] < |set x: nat | x < 257 && size[x] == l| ==> t.bits[k] <= 2)
           && forall q, r :: 0 <= q < r < Used(old(freq[..]), 256) ==>
                || size[t.huffval[q]] < size[t.huffval[r]]
                || (size[t.huffval[q]] == size[t.huffval[r]] && t.huffval[q] < t.huffval[r]))
    ensures var size := HuffSizes(old(freq[..])[256 := 1]);
      var n15, n17 := |set x: nat | x < 257 && size[x] == 15|, |set x: nat | x < 257 && size[x] == 17|;
      && |size| == 257
      && (ok && (forall x :: 0 <= x < 257 ==> size[x] <= 17) && n15 >= n17 / 2 > 0 ==>
           && (forall l :: 1 <= l < 15 ==> t.bits[l] == |set x: nat | x < 257 && size[x] == l|)
           && t.bits[15] as int == n15 - n17 / 2
           && t.bits[16] as int == |set x: nat | x < 257 && size[x] == 16| + 3 * (n17 / 2) - 1)
  {
    hide Sum, Used, Weight, Kraft, CodeCount, Units, InOrder, NoneAbove, TableFor, HuffSizes, Limited, LengthCounts;
    hide PseudoRemoved, Placed, Cheapest, OptimalFor;
    ghost var counts := freq[..];
    freq[PSEUDO_SYMBOL] := 1;
    PseudoCounted(counts, freq[..]);
    ghost var used := freq[..];
    assert used == WithPseudo(counts);
    var codesize := AssignSizes(freq, a, PSEUDO_SYMBOL);
    ghost var size := codesize[..];
    SameUsed(size, used, SYMBOLS);
    SameUsed(size, used, 256);
    var bits;
    ok, bits := CountSizes(codesize);
    if !ok {
      return false, Table([], []);
    }
    UnitsOfWeight(size, SYMBOLS);
    ghost var m := LimitLengths(bits);
    RemovePseudo(bits);
    var huffval, p := ListSymbols(codesize);
    t := Table(bits[..17], huffval[..]);
    TableMade(t, bits[..], size, counts);
    TableIsOptimal(t, counts, a);
    TableKeeps(t, counts, a);
  }
}
