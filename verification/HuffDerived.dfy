/** Building the derived Huffman tables: jpeg_make_d_derived_tbl of jdhuff.c and
    jpeg_make_c_derived_tbl of jchuff.c. */
module HuffDerived {
  import opened Bits
  import opened HuffTable

  // ----- figures C.1 and C.2 of T.81 -----

  /** Entries up to length l are the code lengths in order. */
  ghost predicate SizesListed(t: Table, huffsize: seq<nat>, l: nat)
    requires Valid(t) && 1 <= l <= 17 && |huffsize| == 257
  {
    forall m, p {:trigger Start(t, m), huffsize[p]} ::
      1 <= m < l && Start(t, m) <= p < Start(t, m) + t.bits[m] && p <= 256 ==> huffsize[p] == m
  }

  /** Entries up to length l are the code words in order. */
  ghost predicate CodesListed(t: Table, huffcode: seq<nat>, l: nat)
    requires Valid(t) && 1 <= l <= 17 && |huffcode| == 257
  {
    forall m, p {:trigger Start(t, m), huffcode[p]} ::
      1 <= m < l && Start(t, m) <= p < Start(t, m) + t.bits[m] && p <= 256 ==>
        huffcode[p] == FirstCode(t, m) + (p - Start(t, m))
  }

  /** Figure C.1: a code length for each symbol, and a terminating zero. */
  method FigureC1(t: Table) returns (huffsize: array<nat>, p: nat)
    requires Valid(t)
    ensures fresh(huffsize) && huffsize.Length == 257 && p == Start(t, 17)
    ensures SizesListed(t, huffsize[..], 17) && huffsize[p] == 0
  {
    huffsize := new nat[257];
    p := 0;
    for l := 1 to 17
      invariant p == Start(t, l) && SizesListed(t, huffsize[..], l)
    {
      StartMonotone(t, l + 1, 17);
      for i := 0 to t.bits[l]
        invariant p == Start(t, l) + i && SizesListed(t, huffsize[..], l)
        invariant forall q :: Start(t, l) <= q < p ==> huffsize[q] == l
      {
        ghost var before := huffsize[..];
        huffsize[p] := l;
        SizesKept(t, before, huffsize[..], l);
        p := p + 1;
      }
      SizesExtended(t, huffsize[..], l);
    }
    ghost var before := huffsize[..];
    huffsize[p] := 0;
    SizesKept(t, before, huffsize[..], 17);
  }

  lemma {:induction false} SizesKept(t: Table, a: seq<nat>, b: seq<nat>, l: nat)
    requires Valid(t) && 1 <= l <= 17 && |a| == |b| == 257 && SizesListed(t, a, l)
    requires forall q :: 0 <= q < Start(t, l) && q <= 256 ==> b[q] == a[q]
    ensures SizesListed(t, b, l)
  {
    forall m, p | 1 <= m < l && Start(t, m) <= p < Start(t, m) + t.bits[m] && p <= 256
      ensures b[p] == m
    {
      StartMonotone(t, m, l);
      assert a[p] == m;
    }
  }

  lemma SizesExtended(t: Table, a: seq<nat>, l: nat)
    requires Valid(t) && 1 <= l <= 16 && |a| == 257 && SizesListed(t, a, l)
    requires forall q :: Start(t, l) <= q < Start(t, l) + t.bits[l] && q <= 256 ==> a[q] == l
    ensures SizesListed(t, a, l + 1)
  {
  }

  /** Figure C.2: the code words. */
  method FigureC2(t: Table, huffsize: array<nat>, ghost lastp: nat) returns (huffcode: array<nat>)
    requires Valid(t) && huffsize.Length == 257 && lastp == Start(t, 17)
    requires SizesListed(t, huffsize[..], 17) && huffsize[lastp] == 0
    ensures fresh(huffcode) && huffcode.Length == 257 && CodesListed(t, huffcode[..], 17)
    ensures huffsize[..] == old(huffsize[..])
  {
    hide SizesListed, CodesListed, Start, FirstCode;
    huffcode := new nat[257];
    var code: nat, si, p := 0, huffsize[0], 0;
    assert si >= 1 ==> CodesListed(t, huffcode[..], si) && Start(t, si) == 0 && FirstCode(t, si) == 0 by {
      FirstSize(t, huffsize[..], huffcode[..]);
    }
    if huffsize[0] == 0 {
      NoCodes(t, huffsize[..], huffcode[..]);
    }
    while huffsize[p] != 0
      invariant p <= 256 && si <= 17
      invariant huffsize[0] != 0 ==> 1 <= si && p == Start(t, si) && code == FirstCode(t, si)
      invariant huffsize[0] != 0 ==> CodesListed(t, huffcode[..], si)
      invariant huffsize[0] == 0 ==> p == 0 && CodesListed(t, huffcode[..], 17)
      decreases 17 - si
    {
      SizeAtStart(t, huffsize[..], si);
      ghost var first := code;
      while huffsize[p] == si
        invariant 1 <= si <= 16 && Start(t, si) <= p <= Start(t, si) + t.bits[si] && p <= 256
        invariant code == first + (p - Start(t, si))
        invariant CodesListed(t, huffcode[..], si)
        invariant forall q :: Start(t, si) <= q < p && q <= 256 ==> huffcode[q] == first + (q - Start(t, si))
        decreases Start(t, si) + t.bits[si] - p
      {
        SizeRun(t, huffsize[..], si, p);
        ghost var before := huffcode[..];
        huffcode[p] := code;
        CodesKept(t, before, huffcode[..], si);
        p := p + 1;
        code := code + 1;
        SizeRun(t, huffsize[..], si, p);
      }
      SizeRun(t, huffsize[..], si, p);
      CodesExtended(t, huffcode[..], si);
      code := 2 * code;
      si := si + 1;
    }
    if huffsize[0] != 0 {
      NoMoreCodes(t, huffsize[..], huffcode[..], si);
    }
  }

  lemma {:induction false} CodesKept(t: Table, a: seq<nat>, b: seq<nat>, l: nat)
    requires Valid(t) && 1 <= l <= 17 && |a| == |b| == 257 && CodesListed(t, a, l)
    requires forall q :: 0 <= q < Start(t, l) && q <= 256 ==> b[q] == a[q]
    ensures CodesListed(t, b, l)
  {
    forall m, p | 1 <= m < l && Start(t, m) <= p < Start(t, m) + t.bits[m] && p <= 256
      ensures b[p] == FirstCode(t, m) + (p - Start(t, m))
    {
      StartMonotone(t, m, l);
      assert a[p] == FirstCode(t, m) + (p - Start(t, m));
    }
  }

  lemma CodesExtended(t: Table, a: seq<nat>, l: nat)
    requires Valid(t) && 1 <= l <= 16 && |a| == 257 && CodesListed(t, a, l)
    requires forall q :: Start(t, l) <= q < Start(t, l) + t.bits[l] && q <= 256 ==>
      a[q] == FirstCode(t, l) + (q - Start(t, l))
    ensures CodesListed(t, a, l + 1)
    ensures Start(t, l + 1) == Start(t, l) + t.bits[l]
    ensures FirstCode(t, l + 1) == 2 * (FirstCode(t, l) + t.bits[l])
  {
  }

  /** Which length the entry at p has: the one whose range p lies in. */
  lemma {:induction false} LengthOf(t: Table, huffsize: seq<nat>, l: nat, p: nat) returns (m: nat)
    requires Valid(t) && |huffsize| == 257 && SizesListed(t, huffsize, 17)
    requires 1 <= l <= 17 && p < Start(t, l)
    ensures 1 <= m < l && Start(t, m) <= p < Start(t, m) + t.bits[m] && p <= 256 && huffsize[p] == m
  {
    StartMonotone(t, l, 17);
    if p >= Start(t, l - 1) {
      m := l - 1;
    } else {
      m := LengthOf(t, huffsize, l - 1, p);
    }
  }

  lemma {:induction false} EmptyBelow(t: Table, l: nat)
    requires Valid(t) && 1 <= l <= 17 && Start(t, l) == 0
    ensures FirstCode(t, l) == 0 && forall m :: 1 <= m < l ==> t.bits[m] == 0
    ensures forall a: seq<nat> :: |a| == 257 ==> CodesListed(t, a, l)
    decreases l
  {
    if l > 1 {
      EmptyBelow(t, l - 1);
    }
  }

  lemma {:induction false} FirstSize(t: Table, huffsize: seq<nat>, a: seq<nat>)
    requires Valid(t) && |huffsize| == |a| == 257 && SizesListed(t, huffsize, 17) && huffsize[Start(t, 17)] == 0
    ensures huffsize[0] <= 16
    ensures huffsize[0] >= 1 ==>
      Start(t, huffsize[0]) == 0 && FirstCode(t, huffsize[0]) == 0 && CodesListed(t, a, huffsize[0])
  {
    if Start(t, 17) > 0 {
      var m := LengthOf(t, huffsize, 17, 0);
      EmptyBelow(t, m);
    }
  }

  lemma NoCodes(t: Table, huffsize: seq<nat>, a: seq<nat>)
    requires Valid(t) && |huffsize| == |a| == 257 && SizesListed(t, huffsize, 17) && huffsize[0] == 0
    ensures CodesListed(t, a, 17)
  {
    if Start(t, 17) > 0 {
      var m := LengthOf(t, huffsize, 17, 0);
    }
    EmptyBelow(t, 17);
  }

  /** At the start of length si, a non-zero entry means that si is a length. */
  lemma {:induction false} SizeAtStart(t: Table, huffsize: seq<nat>, si: nat)
    requires Valid(t) && |huffsize| == 257 && SizesListed(t, huffsize, 17) && huffsize[Start(t, 17)] == 0
    requires 1 <= si <= 17 && Start(t, si) <= 256 && huffsize[Start(t, si)] != 0
    ensures si <= 16
  {
  }

  /** Within and at the end of the range of length si. */
  lemma {:induction false} SizeRun(t: Table, huffsize: seq<nat>, si: nat, p: nat)
    requires Valid(t) && |huffsize| == 257 && SizesListed(t, huffsize, 17) && huffsize[Start(t, 17)] == 0
    requires 1 <= si <= 16 && Start(t, si) <= p <= Start(t, si) + t.bits[si]
    ensures p <= 256
    ensures huffsize[p] == si <==> p < Start(t, si) + t.bits[si]
  {
    assert Start(t, 17) <= 256;
    StartMonotone(t, si, 17);
    if p < Start(t, si) + t.bits[si] {
      assert huffsize[p] == si;
    } else if p < Start(t, 17) {
      hide SizesListed, Start, Valid;
      var m := LengthOf(t, huffsize, 17, p);
    }
  }

  lemma {:induction false} NoMoreCodes(t: Table, huffsize: seq<nat>, a: seq<nat>, si: nat)
    requires Valid(t) && |huffsize| == |a| == 257 && SizesListed(t, huffsize, 17)
    requires 1 <= si <= 17 && Start(t, si) <= 256 && huffsize[Start(t, si)] == 0 && CodesListed(t, a, si)
    ensures CodesListed(t, a, 17)
  {
    StartMonotone(t, si, 17);
    if Start(t, si) < Start(t, 17) {
      var m := LengthOf(t, huffsize, 17, Start(t, si));
    } else {
      forall m, p | 1 <= m < 17 && Start(t, m) <= p < Start(t, m) + t.bits[m] && p <= 256
        ensures a[p] == FirstCode(t, m) + (p - Start(t, m))
      {
        if m >= si {
          StartMonotone(t, si, m);
          StartMonotone(t, m, 17);
        }
      }
    }
  }

  // ----- the decoder's table -----

  const SENTINEL := 0xf_ffff

  /** d_derived_tbl, once built. Entries of mincode and valptr for lengths
      without codes, and lookSym where lookNbits is 0, are left open. */
  datatype DTable = DTable(mincode: seq<int>, maxcode: seq<int>, valptr: seq<int>, lookNbits: seq<int>,
                           lookSym: seq<UInt8>, pub: Table)

  /** The entries for lengths below l are those of figure F.15. */
  ghost predicate LimitsSet(t: Table, mincode: seq<int>, maxcode: seq<int>, valptr: seq<int>, l: nat)
    requires Valid(t) && |mincode| == 17 && |maxcode| == 18 && |valptr| == 17 && 1 <= l <= 17
  {
    forall m :: 1 <= m < l ==>
      if t.bits[m] > 0 then
        mincode[m] == FirstCode(t, m) && maxcode[m] == FirstCode(t, m) + t.bits[m] - 1 && valptr[m] == Start(t, m)
      else maxcode[m] == -1
  }

  /** The first l of the LOOKAHEAD bits of i. */
  function LeadBits(i: nat, l: nat): nat
    requires l <= LOOKAHEAD
  {
    ShiftDown(i, LOOKAHEAD - l)
  }

  /** i is an index whose first l bits are a code word of length l. */
  predicate StartsWithCode(t: Table, i: nat, l: nat)
    requires Valid(t)
  {
    1 <= l <= LOOKAHEAD && IsCode(t, l, LeadBits(i, l))
  }

  /** Every entry below n names a code word its index starts with; every entry
      from n on is 0. */
  ghost predicate LookaheadSet(t: Table, nbits: seq<int>, sym: seq<UInt8>, n: nat)
    requires Valid(t) && |nbits| == |sym| == 256
  {
    && (forall i :: 0 <= i < n && i < 256 ==>
         nbits[i] >= 0 && StartsWithCode(t, i, nbits[i]) && sym[i] == Symbol(t, nbits[i], LeadBits(i, nbits[i])))
    && (forall i :: n <= i < 256 ==> nbits[i] == 0)
  }

  /** d is what jpeg_make_d_derived_tbl makes of t. */
  ghost predicate DerivedFrom(d: DTable, t: Table) {
    && Valid(t) && d.pub == t
    && |d.mincode| == 17 && |d.maxcode| == 18 && |d.valptr| == 17 && |d.lookNbits| == |d.lookSym| == 256
    && LimitsSet(t, d.mincode, d.maxcode, d.valptr, 17) && d.maxcode[17] == SENTINEL
    && LookaheadSet(t, d.lookNbits, d.lookSym, FirstCode(t, LOOKAHEAD + 1) / 2)
  }

  /** Figure F.15: the limits for bit-sequential decoding. */
  method FigureF15(t: Table, huffcode: array<nat>) returns (mincode: seq<int>, maxcode: seq<int>, valptr: seq<int>)
    requires Valid(t) && huffcode.Length == 257 && CodesListed(t, huffcode[..], 17)
    ensures |mincode| == 17 && |maxcode| == 18 && |valptr| == 17
    ensures LimitsSet(t, mincode, maxcode, valptr, 17) && maxcode[17] == SENTINEL
  {
    hide CodesListed, FirstCode, LimitsSet;
    var mins, maxs, vals := new int[17], new int[18], new int[17];
    var p: int := 0;
    assert LimitsSet(t, mins[..], maxs[..], vals[..], 1) by { NoLimits(t, mins[..], maxs[..], vals[..]); }
    for l := 1 to 17
      invariant p == Start(t, l)
      invariant LimitsSet(t, mins[..], maxs[..], vals[..], l)
      invariant huffcode[..] == old(huffcode[..])
    {
      ghost var a, b, c := mins[..], maxs[..], vals[..];
      StartMonotone(t, l + 1, 17);
      if t.bits[l] != 0 {
        ListedCode(t, huffcode[..], l, p);
        ListedCode(t, huffcode[..], l, p + t.bits[l] - 1);
        vals[l] := p;
        mins[l] := huffcode[p];
        p := p + t.bits[l];
        maxs[l] := huffcode[p - 1];
      } else {
        maxs[l] := -1;
      }
      OneMoreLimit(t, a, b, c, mins[..], maxs[..], vals[..], l);
    }
    ghost var a, b, c := mins[..], maxs[..], vals[..];
    maxs[17] := SENTINEL;
    SentinelSet(t, a, b, c, maxs[..]);
    mincode, maxcode, valptr := mins[..], maxs[..], vals[..];
  }

  lemma NoLimits(t: Table, a: seq<int>, b: seq<int>, c: seq<int>)
    requires Valid(t) && |a| == 17 && |b| == 18 && |c| == 17
    ensures LimitsSet(t, a, b, c, 1)
  {
  }

  lemma {:induction false} OneMoreLimit(t: Table, a: seq<int>, b: seq<int>, c: seq<int>, a': seq<int>, b': seq<int>,
          c': seq<int>, l: nat)
    requires Valid(t) && |a| == |c| == |a'| == |c'| == 17 && |b| == |b'| == 18
    requires 1 <= l <= 16 && LimitsSet(t, a, b, c, l)
    requires forall m :: 1 <= m < l ==> a'[m] == a[m] && b'[m] == b[m] && c'[m] == c[m]
    requires if t.bits[l] > 0 then
               a'[l] == FirstCode(t, l) && b'[l] == FirstCode(t, l) + t.bits[l] - 1 && c'[l] == Start(t, l)
             else b'[l] == -1
    ensures LimitsSet(t, a', b', c', l + 1)
  {
    hide FirstCode, Start;
  }

  lemma SentinelSet(t: Table, a: seq<int>, b: seq<int>, c: seq<int>, b': seq<int>)
    requires Valid(t) && |a| == 17 && |b| == 18 && |c| == 17 && LimitsSet(t, a, b, c, 17)
    requires b' == b[17 := SENTINEL]
    ensures LimitsSet(t, a, b', c, 17)
  {
    hide FirstCode, Start;
  }

  lemma {:induction false} ListedCode(t: Table, huffcode: seq<nat>, l: nat, p: nat)
    requires Valid(t) && |huffcode| == 257 && CodesListed(t, huffcode, 17)
    requires 1 <= l <= 16 && Start(t, l) <= p < Start(t, l) + t.bits[l]
    ensures p <= 255 && huffcode[p] == FirstCode(t, l) + (p - Start(t, l))
  {
    StartMonotone(t, l, 17);
  }

  /** All the entries that start with code word i of length l, symbol p. */
  method FillEntries(t: Table, nbits: array<int>, sym: array<UInt8>, first: nat, l: nat, p: nat, ghost i: nat)
    requires Valid(t) && nbits.Length == sym.Length == 256 && p <= 255
    requires 1 <= l <= LOOKAHEAD && i < t.bits[l] && p == Start(t, l) + i
    requires first == (FirstCode(t, l) + i) * Pow2(LOOKAHEAD - l) && first + Pow2(LOOKAHEAD - l) <= 256
    requires LookaheadSet(t, nbits[..], sym[..], first)
    modifies nbits, sym
    ensures LookaheadSet(t, nbits[..], sym[..], first + Pow2(LOOKAHEAD - l))
  {
    hide LookaheadSet, FirstCode, Start, Pow2;
    var lookbits := first;
    var ctr: nat := Pow2(LOOKAHEAD - l);
    while ctr > 0
      invariant ctr <= Pow2(LOOKAHEAD - l) && lookbits == first + (Pow2(LOOKAHEAD - l) - ctr)
      invariant LookaheadSet(t, nbits[..], sym[..], lookbits)
    {
      ghost var a, b := nbits[..], sym[..];
      nbits[lookbits] := l;
      sym[lookbits] := t.huffval[p];
      OneMoreEntry(t, a, b, nbits[..], sym[..], l, i, lookbits - first, lookbits);
      lookbits := lookbits + 1;
      ctr := ctr - 1;
    }
  }

  /** The lookahead table. The codes are visited in order, and their left-justified
      values follow each other without a gap, so the table fills from 0 up; it is big
      enough as long as those of up to 8 bits fit in their lengths. */
  method FillLookahead(t: Table, huffcode: array<nat>) returns (lookNbits: seq<int>, lookSym: seq<UInt8>)
    requires Valid(t) && LookaheadFits(t) && huffcode.Length == 257 && CodesListed(t, huffcode[..], 17)
    ensures |lookNbits| == |lookSym| == 256
    ensures LookaheadSet(t, lookNbits, lookSym, FirstCode(t, LOOKAHEAD + 1) / 2)
  {
    hide CodesListed, LookaheadSet, StartsWithCode, FirstCode, Symbol, Start, Pow2, LookaheadFits;
    var nbits, sym := new int[256](_ => 0), new UInt8[256];
    var p := 0;
    ghost var n := 0;
    NothingSet(t, nbits[..], sym[..]);
    for l := 1 to LOOKAHEAD + 1
      invariant p == Start(t, l)
      invariant n == FirstCode(t, l) * Pow2(LOOKAHEAD + 1 - l) / 2
      invariant LookaheadSet(t, nbits[..], sym[..], n)
      invariant huffcode[..] == old(huffcode[..])
    {
      JustifiedStart(t, l);
      for i := 0 to t.bits[l]
        invariant p == Start(t, l) + i
        invariant n == (FirstCode(t, l) + i) * Pow2(LOOKAHEAD - l)
        invariant LookaheadSet(t, nbits[..], sym[..], n)
        invariant huffcode[..] == old(huffcode[..])
      {
        ListedCode(t, huffcode[..], l, p);
        JustifiedRoom(t, l, i);
        FillEntries(t, nbits, sym, huffcode[p] * Pow2(LOOKAHEAD - l), l, p, i);
        NextCode(FirstCode(t, l), i, Pow2(LOOKAHEAD - l));
        n := n + Pow2(LOOKAHEAD - l);
        p := p + 1;
      }
      JustifiedEnd(t, l);
    }
    assert n == FirstCode(t, LOOKAHEAD + 1) * 1 / 2 by { ZeroPower(); }
    lookNbits, lookSym := nbits[..], sym[..];
  }

  lemma NextCode(first: int, i: int, k: int)
    ensures (first + (i + 1)) * k == (first + i) * k + k
  {
  }

  lemma ZeroPower()
    ensures Pow2(0) == 1
  {
  }

  lemma {:induction false} NothingSet(t: Table, nbits: seq<int>, sym: seq<UInt8>)
    requires Valid(t) && |nbits| == |sym| == 256 && forall i :: 0 <= i < 256 ==> nbits[i] == 0
    ensures LookaheadSet(t, nbits, sym, 0) && Start(t, 1) == 0 && FirstCode(t, 1) == 0
  {
  }

  /** Left-justified, a length starts where the previous one ended. */
  lemma {:induction false} JustifiedStart(t: Table, l: nat)
    requires Valid(t) && 1 <= l <= LOOKAHEAD
    ensures FirstCode(t, l) * Pow2(LOOKAHEAD + 1 - l) / 2 == FirstCode(t, l) * Pow2(LOOKAHEAD - l)
  {
    Double(FirstCode(t, l), Pow2(LOOKAHEAD - l));
  }

  lemma JustifiedEnd(t: Table, l: nat)
    requires Valid(t) && 1 <= l <= LOOKAHEAD
    ensures FirstCode(t, l + 1) * Pow2(LOOKAHEAD - l) / 2 == (FirstCode(t, l) + t.bits[l]) * Pow2(LOOKAHEAD - l)
    ensures Start(t, l + 1) == Start(t, l) + t.bits[l]
  {
    HalfOfDouble(FirstCode(t, l + 1), FirstCode(t, l) + t.bits[l], Pow2(LOOKAHEAD - l));
  }

  lemma HalfOfDouble(g: int, f: int, k: int)
    requires g == 2 * f
    ensures g * k / 2 == f * k
  {
    Reassociate(2, f, k);
  }

  /** A code's entries lie inside the table, because the code fits its length. */
  lemma {:induction false} JustifiedRoom(t: Table, l: nat, i: nat)
    requires Valid(t) && LookaheadFits(t) && 1 <= l <= LOOKAHEAD && i < t.bits[l]
    ensures (FirstCode(t, l) + i) * Pow2(LOOKAHEAD - l) + Pow2(LOOKAHEAD - l) <= 256
  {
    hide Pow2, FirstCode;
    PowAdd(l, LOOKAHEAD - l);
    PowValues();
    var c, k := FirstCode(t, l) + i, Pow2(LOOKAHEAD - l);
    Distribute(c, 1, k);
    assert LengthFits(t, l);
    MulBounds(c + 1, k, 0, Pow2(l));
  }

  lemma {:induction false} OneMoreEntry(t: Table, a: seq<int>, b: seq<UInt8>, a': seq<int>, b': seq<UInt8>, l: nat,
          i: nat, j: nat, n: nat)
    requires Valid(t) && |a| == |b| == 256 && LookaheadSet(t, a, b, n)
    requires 1 <= l <= LOOKAHEAD && i < t.bits[l] && j < Pow2(LOOKAHEAD - l)
    requires n == (FirstCode(t, l) + i) * Pow2(LOOKAHEAD - l) + j && n < 256
    requires Start(t, l) + i <= 255 && a' == a[n := l] && b' == b[n := t.huffval[Start(t, l) + i]]
    ensures LookaheadSet(t, a', b', n + 1)
  {
    hide Start, FirstCode, Pow2;
    DivUnique(n, Pow2(LOOKAHEAD - l), FirstCode(t, l) + i, j);
  }

  /** An index that starts with a short code word has an entry, and it is that
      code word's: nbits is its length, or 0 if there is none. */
  lemma LookaheadComplete(d: DTable, t: Table, i: nat, l: nat)
    requires DerivedFrom(d, t) && i < 256 && StartsWithCode(t, i, l)
    ensures d.lookNbits[i] >= 1
  {
    hide FirstCode, Pow2, DerivedFrom;
    EntryFilled(d, t, i);
    FirstCodeGrows(t, l, LOOKAHEAD + 1);
    PowStep(LOOKAHEAD - l);
    LeadBelow(i, Pow2(LOOKAHEAD - l), FirstCode(t, l) + t.bits[l], FirstCode(t, LOOKAHEAD + 1));
  }

  lemma LeadBelow(i: nat, k: nat, a: nat, f: nat)
    requires k > 0 && i / k < a && f >= a * (2 * k)
    ensures i < f / 2
  {
    QuotientRemainder(i, k);
    MulBounds(i / k + 1, k, 0, a);
    Distribute(i / k, 1, k);
    Double(a, k);
  }

  lemma {:induction false} EntryFilled(d: DTable, t: Table, i: nat)
    requires DerivedFrom(d, t) && i < 256
    ensures |t.bits| == 17 && |d.lookNbits| == 256
    ensures i < FirstCode(t, LOOKAHEAD + 1) / 2 ==> d.lookNbits[i] >= 1
  {
    hide FirstCode, Pow2, LimitsSet, Start;
  }

  lemma PowStep(n: nat)
    ensures Pow2(n + 1) == 2 * Pow2(n)
  {
  }

  /** jpeg_make_d_derived_tbl */
  method MakeDDerivedTbl(t: Table) returns (d: DTable)
    requires Valid(t) && LookaheadFits(t)
    ensures DerivedFrom(d, t)
  {
    hide LimitsSet, LookaheadSet, SizesListed, CodesListed;
    var huffsize, lastp := FigureC1(t);
    var huffcode := FigureC2(t, huffsize, lastp);
    var mincode, maxcode, valptr := FigureF15(t, huffcode);
    var lookNbits, lookSym := FillLookahead(t, huffcode);
    d := DTable(mincode, maxcode, valptr, lookNbits, lookSym, t);
  }

  // ----- the encoder's table -----

  /** c_derived_tbl, once built: code word and length of each symbol, length 0
      for a symbol without a code. */
  datatype CTable = CTable(ehufco: seq<int>, ehufsi: seq<int>)

  /** The symbol v has no length, or a code word of the table that stands for it. */
  ghost predicate EntryEncodes(c: CTable, t: Table, v: int)
    requires Valid(t) && |c.ehufco| == |c.ehufsi| == 256 && 0 <= v < 256
  {
    && 0 <= c.ehufsi[v] <= 16
    && (c.ehufsi[v] > 0 ==> c.ehufco[v] >= 0 && IsCode(t, c.ehufsi[v], c.ehufco[v])
                            && Symbol(t, c.ehufsi[v], c.ehufco[v]) == v)
  }

  ghost predicate EncodesFor(c: CTable, t: Table) {
    && Valid(t) && |c.ehufco| == |c.ehufsi| == 256
    && forall v :: 0 <= v < 256 ==> EntryEncodes(c, t, v)
  }

  /** Every symbol listed in the table has a length. */
  ghost predicate CoversTable(c: CTable, t: Table, n: nat)
    requires Valid(t) && |c.ehufsi| == 256 && n <= 256
  {
    forall p :: 0 <= p < n ==> c.ehufsi[t.huffval[p]] > 0
  }

  /** jpeg_make_c_derived_tbl */
  method MakeCDerivedTbl(t: Table) returns (c: CTable)
    requires Valid(t)
    ensures EncodesFor(c, t) && CoversTable(c, t, Start(t, 17))
  {
    hide SizesListed, CodesListed, EncodesFor, CoversTable, Start, IsCode;
    var huffsize, lastp := FigureC1(t);
    var huffcode := FigureC2(t, huffsize, lastp);
    var co, si := new int[256](_ => 0), new int[256](_ => 0);
    NoSymbols(t, CTable(co[..], si[..]));
    for p := 0 to lastp
      invariant CodesListed(t, huffcode[..], 17) && SizesListed(t, huffsize[..], 17)
      invariant EncodesFor(CTable(co[..], si[..]), t) && CoversTable(CTable(co[..], si[..]), t, p)
    {
      ghost var before := CTable(co[..], si[..]);
      ghost var l := LengthOf(t, huffsize[..], 17, p);
      ListedCode(t, huffcode[..], l, p);
      co[t.huffval[p]] := huffcode[p];
      si[t.huffval[p]] := huffsize[p];
      OneMoreSymbol(t, before, CTable(co[..], si[..]), l, p, huffcode[p]);
    }
    c := CTable(co[..], si[..]);
  }

  lemma NoSymbols(t: Table, c: CTable)
    requires Valid(t) && |c.ehufco| == |c.ehufsi| == 256
    requires forall v :: 0 <= v < 256 ==> c.ehufsi[v] == 0
    ensures EncodesFor(c, t) && CoversTable(c, t, 0)
  {
  }

  lemma {:induction false} OneMoreSymbol(t: Table, c: CTable, c': CTable, l: nat, p: nat, code: nat)
    requires EncodesFor(c, t) && p <= 255 && CoversTable(c, t, p)
    requires 1 <= l <= 16 && Start(t, l) <= p < Start(t, l) + t.bits[l]
    requires code == FirstCode(t, l) + (p - Start(t, l))
    requires c' == CTable(c.ehufco[t.huffval[p] := code], c.ehufsi[t.huffval[p] := l])
    ensures EncodesFor(c', t) && CoversTable(c', t, p + 1)
  {
    hide Start, FirstCode;
    forall v | 0 <= v < 256
      ensures EntryEncodes(c', t, v)
    {
      assert EntryEncodes(c, t, v);
    }
  }
}
