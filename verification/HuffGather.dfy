/** The symbols of one block: htest_one_block of jchuff.c, which counts them, and the
    proof that a block can be encoded exactly if all that are counted have code words. */
module HuffGather {
  import opened HuffBlock
  import opened HuffCodec
  import opened HuffCounts
  import opened HuffDerived

  // ----- the symbols of a block -----

  /** How often the coefficients from zigzag position k on, with r zeros pending, need
      the AC symbol v. */
  function AcUses(b: Block, k: nat, r: nat, v: nat): nat
    decreases DCTSIZE2 - k
  {
    if k >= DCTSIZE2 then
      if r > 0 && v == 0 then 1 else 0
    else
      var x := b[NaturalOrder(k)];
      if x == 0 then AcUses(b, k + 1, r + 1, v)
      else
        (if v == 0xf0 then r / 16 else 0) + (if v == 16 * (r % 16) + NBits(x) then 1 else 0) + AcUses(b, k + 1, 0, v)
  }

  /** Main theorem: a block can be coded exactly if every symbol that is counted for
      it has a code word. */
  lemma {:induction false} AcCodedIff(c: CTable, b: Block, k: nat, r: nat)
    ensures AcCoded(c, b, k, r) <==> forall v: nat :: AcUses(b, k, r, v) > 0 ==> HasCode(c, v)
    decreases DCTSIZE2 - k
  {
    hide HasCode, NaturalOrder, NBits;
    if k >= DCTSIZE2 {
      assert r > 0 ==> AcUses(b, k, r, 0) > 0;
    } else {
      var x := b[NaturalOrder(k)];
      if x == 0 {
        AcCodedIff(c, b, k + 1, r + 1);
      } else {
        AcCodedIff(c, b, k + 1, 0);
        var s: nat := 16 * (r % 16) + NBits(x);
        if AcCoded(c, b, k, r) {
          forall v: nat | AcUses(b, k, r, v) > 0
            ensures HasCode(c, v)
          {
            assert AcUses(b, k + 1, 0, v) > 0 || v == s || (v == 0xf0 && r >= 16);
          }
        } else {
          assert r >= 16 ==> AcUses(b, k, r, 0xf0) > 0;
          assert AcUses(b, k, r, s) > 0;
          forall v: nat | AcUses(b, k + 1, 0, v) > 0
            ensures AcUses(b, k, r, v) > 0
          {
          }
        }
      }
    }
  }

  /** Only coefficients of 16 bits have symbols of size 0 other than the two special
      ones. */
  lemma {:induction false} NoOtherZeroSizes(b: Block, k: nat, r: nat, v: nat)
    requires Coefs(b) && NoSixteenBits(b, 1) && k >= 1 && (v % 16 == 0 || v >= 0x100) && v != 0 && v != 0xf0
    ensures AcUses(b, k, r, v) == 0
    decreases DCTSIZE2 - k
  {
    hide NBits, NaturalOrder;
    if k < DCTSIZE2 {
      var x := b[NaturalOrder(k)];
      if x == 0 {
        NoOtherZeroSizes(b, k + 1, r + 1, v);
      } else {
        SizeOf(x);
        NoOtherZeroSizes(b, k + 1, 0, v);
      }
    }
  }

  /** All symbols of a block that can be indexed are among the 256. */
  lemma {:induction false} OnlyIndexable(b: Block, k: nat, r: nat, v: nat)
    requires Indexable(b, k, r) && v >= 0x100
    ensures AcUses(b, k, r, v) == 0
    decreases DCTSIZE2 - k
  {
    hide NBits, NaturalOrder;
    if k < DCTSIZE2 {
      if b[NaturalOrder(k)] == 0 {
        OnlyIndexable(b, k + 1, r + 1, v);
      } else {
        OnlyIndexable(b, k + 1, 0, v);
      }
    }
  }

  /** Every block needs some AC symbol. */
  lemma {:induction false} SomeSymbol(b: Block, k: nat, r: nat) returns (v: nat)
    requires Indexable(b, k, r) && (k < DCTSIZE2 || r > 0)
    ensures v < 256 && AcUses(b, k, r, v) > 0
    decreases DCTSIZE2 - k
  {
    hide NBits, NaturalOrder;
    if k >= DCTSIZE2 {
      v := 0;
    } else {
      var x := b[NaturalOrder(k)];
      if x == 0 {
        v := SomeSymbol(b, k + 1, r + 1);
      } else {
        v := 16 * (r % 16) + NBits(x);
      }
    }
  }

  /** counts is before with the uses added. */
  ghost predicate CountedAc(before: seq<nat>, counts: seq<nat>, b: Block, k: nat, r: nat) {
    && |before| == |counts| == SYMBOLS
    && forall v :: 0 <= v < SYMBOLS ==> counts[v] + AcUses(b, k, r, v) == before[v] + AcUses(b, 1, 0, v)
  }

  /** One more use of the symbol v. */
  method CountSymbol(counts: array<nat>, v: nat)
    requires counts.Length == SYMBOLS && v < SYMBOLS
    modifies counts
    ensures counts[..] == old(counts[..])[v := old(counts[v]) + 1]
    ensures Sum(counts[..], SYMBOLS) == Sum(old(counts[..]), SYMBOLS) + 1
  {
    SumUpdate(counts[..], v, counts[v] + 1, SYMBOLS);
    counts[v] := counts[v] + 1;
    assert counts[..] == old(counts[..])[v := old(counts[v]) + 1];
  }

  /** The symbols of a non-zero coefficient behind r zeros have been counted. */
  ghost predicate CountedCoef(before: seq<nat>, counts: seq<nat>, x: int, r: nat)
    requires |before| == |counts| == SYMBOLS
  {
    forall v :: 0 <= v < SYMBOLS ==>
      counts[v] == before[v] + (if v == 0xf0 then r / 16 else 0) + (if v == 16 * (r % 16) + NBits(x) then 1 else 0)
  }

  method CountCoef(x: int, r0: nat, acCounts: array<nat>)
    requires acCounts.Length == SYMBOLS && x != 0 && -0x1_0000 < x < 0x1_0000
    modifies acCounts
    ensures CountedCoef(old(acCounts[..]), acCounts[..], x, r0)
    ensures Sum(acCounts[..], SYMBOLS) <= Sum(old(acCounts[..]), SYMBOLS) + r0 + 1
  {
    hide Sum, NBits;
    var r := CountRuns(r0, acCounts);
    var nbits := CountCoefBits(if x < 0 then 0 - x else x);
    MagnitudeBits(x, nbits);
    var symbol: nat := 16 * r + nbits;
    CountSymbol(acCounts, symbol);
  }

  method CountRuns(r0: nat, acCounts: array<nat>) returns (r: nat)
    requires acCounts.Length == SYMBOLS
    modifies acCounts
    ensures r == r0 % 16 && acCounts[..] == old(acCounts[..])[0xf0 := old(acCounts[0xf0]) + r0 / 16]
    ensures Sum(acCounts[..], SYMBOLS) + r <= Sum(old(acCounts[..]), SYMBOLS) + r0
  {
    hide Sum;
    r := r0;
    ghost var c0 := acCounts[..];
    while r > 15
      invariant r % 16 == r0 % 16 && r <= r0
      invariant acCounts[..] == c0[0xf0 := c0[0xf0] + (r0 / 16 - r / 16)]
      invariant Sum(acCounts[..], SYMBOLS) + r <= Sum(c0, SYMBOLS) + r0
    {
      CountSymbol(acCounts, 0xf0);
      r := r - 16;
    }
  }

  /** The AC part of htest_one_block. */
  method CountAc(block: Block, acCounts: array<nat>)
    requires acCounts.Length == SYMBOLS && Coefs(block)
    modifies acCounts
    ensures forall v :: 0 <= v < SYMBOLS ==> acCounts[v] == old(acCounts[v]) + AcUses(block, 1, 0, v)
    ensures Sum(acCounts[..], SYMBOLS) <= Sum(old(acCounts[..]), SYMBOLS) + 63
  {
    hide CountedAc, Sum, NaturalOrder, NBits;
    ghost var before := acCounts[..];
    var r: nat := 0;
    assert CountedAc(before, acCounts[..], block, 1, 0) by { NothingCountedYet(before, block); }
    for k := 1 to DCTSIZE2
      invariant r < k && CountedAc(before, acCounts[..], block, k, r)
      invariant Sum(acCounts[..], SYMBOLS) + r + 1 <= Sum(before, SYMBOLS) + k
    {
      var temp: int := block[NaturalOrder(k)];
      if temp == 0 {
        ZeroSkipped(before, acCounts[..], block, k, r);
        r := r + 1;
      } else {
        ghost var c0 := acCounts[..];
        CountCoef(temp, r, acCounts);
        CoefCounted(before, c0, acCounts[..], block, k, r);
        r := 0;
      }
    }
    if r > 0 {
      ghost var c0 := acCounts[..];
      CountSymbol(acCounts, 0);
      EndCounted(before, c0, acCounts[..], block, r);
    } else {
      AllCounted(before, acCounts[..], block);
    }
  }

  lemma NothingCountedYet(before: seq<nat>, b: Block)
    requires |before| == SYMBOLS
    ensures CountedAc(before, before, b, 1, 0)
  {
  }

  lemma ZeroSkipped(before: seq<nat>, counts: seq<nat>, b: Block, k: nat, r: nat)
    requires CountedAc(before, counts, b, k, r) && k < DCTSIZE2 && b[NaturalOrder(k)] == 0
    ensures CountedAc(before, counts, b, k + 1, r + 1)
  {
    hide NaturalOrder, NBits;
    forall v | 0 <= v < SYMBOLS
      ensures AcUses(b, k, r, v) == AcUses(b, k + 1, r + 1, v)
    {
    }
    hide AcUses;
  }

  lemma CoefCounted(before: seq<nat>, c0: seq<nat>, c1: seq<nat>, b: Block, k: nat, r: nat)
    requires CountedAc(before, c0, b, k, r) && k < DCTSIZE2 && b[NaturalOrder(k)] != 0 && |c1| == SYMBOLS
    requires CountedCoef(c0, c1, b[NaturalOrder(k)], r)
    ensures CountedAc(before, c1, b, k + 1, 0)
  {
    hide NaturalOrder, NBits;
    var s: nat := 16 * (r % 16) + NBits(b[NaturalOrder(k)]);
    forall v | 0 <= v < SYMBOLS
      ensures AcUses(b, k, r, v)
           == (if v == 0xf0 then r / 16 else 0) + (if v == s then 1 else 0) + AcUses(b, k + 1, 0, v)
    {
    }
    hide AcUses;
  }

  lemma {:induction false} EndCounted(before: seq<nat>, c0: seq<nat>, c1: seq<nat>, b: Block, r: nat)
    requires CountedAc(before, c0, b, DCTSIZE2, r) && r > 0 && c1 == c0[0 := c0[0] + 1]
    ensures forall v :: 0 <= v < SYMBOLS ==> c1[v] == before[v] + AcUses(b, 1, 0, v)
  {
    forall v | 0 <= v < SYMBOLS
      ensures AcUses(b, DCTSIZE2, r, v) == if v == 0 then 1 else 0
    {
    }
    hide AcUses;
  }

  lemma {:induction false} AllCounted(before: seq<nat>, counts: seq<nat>, b: Block)
    requires CountedAc(before, counts, b, DCTSIZE2, 0)
    ensures forall v :: 0 <= v < SYMBOLS ==> counts[v] == before[v] + AcUses(b, 1, 0, v)
  {
    forall v | 0 <= v < SYMBOLS
      ensures AcUses(b, DCTSIZE2, 0, v) == 0
    {
    }
    hide AcUses;
  }

  function DcUse(b: Block, last: int, v: nat): nat {
    if NBits(b[0] - last) == v then 1 else 0
  }

  /** htest_one_block: each symbol that encode_one_block would emit is counted. */
  method HtestOneBlock(block: Block, last: int, dcCounts: array<nat>, acCounts: array<nat>)
    requires dcCounts.Length == acCounts.Length == SYMBOLS && dcCounts != acCounts
    requires Coefs(block) && -0x8000 <= last < 0x8000
    modifies dcCounts, acCounts
    ensures forall v :: 0 <= v < SYMBOLS ==> dcCounts[v] == old(dcCounts[v]) + DcUse(block, last, v)
    ensures forall v :: 0 <= v < SYMBOLS ==> acCounts[v] == old(acCounts[v]) + AcUses(block, 1, 0, v)
    ensures Sum(dcCounts[..], SYMBOLS) <= Sum(old(dcCounts[..]), SYMBOLS) + 63
    ensures Sum(acCounts[..], SYMBOLS) <= Sum(old(acCounts[..]), SYMBOLS) + 63
  {
    hide Sum, NBits;
    var temp := block[0] - last;
    if temp < 0 {
      temp := 0 - temp;
    }
    var nbits := CountBits(temp);
    MagnitudeBits(block[0] - last, nbits);
    ghost var before := dcCounts[..];
    CountSymbol(dcCounts, nbits);
    assert forall v :: 0 <= v < SYMBOLS ==> dcCounts[..][v] == before[v] + DcUse(block, last, v);
    CountAc(block, acCounts);
  }
}
