/** Two-pass coding: encode_mcu_gather and finish_pass_gather of jchuff.c over whole
    scans, and the proof that the tables they lead to never lack a code word when the
    same blocks are then encoded. */
module HuffTwoPass {
  import opened Bits
  import opened HuffTable
  import opened HuffDerived
  import opened HuffBlock
  import opened HuffCodec
  import opened HuffScan
  import opened HuffCoder
  import opened HuffCounts
  import opened HuffGather
  import opened HuffLimit
  import opened HuffOptimal

  // ----- the symbols that the blocks of a scan need -----

  /** How often a block with DC prediction last needs the DC or AC symbol v. */
  function BlockUses(ac: bool, b: Block, last: int, v: nat): nat {
    if ac then AcUses(b, 1, 0, v) else DcUse(b, last, v)
  }

  /** How often the blocks from i on need the symbol v of the table n; tbl[m] is the
      table number of the component m. */
  function McuUses(ac: bool, tbl: seq<nat>, members: seq<nat>, mcu: seq<Block>, last: seq<int>, i: nat, n: nat,
          v: nat): nat
    requires |tbl| == |last| && |mcu| == |members| && Members(members, |tbl|) && i <= |mcu|
    decreases |mcu| - i
  {
    if i == |mcu| then 0
    else
      var m := members[i];
      (if tbl[m] == n then BlockUses(ac, mcu[i], last[m], v) else 0)
      + McuUses(ac, tbl, members, mcu, last[m := mcu[i][0]], i + 1, n, v)
  }

  function ScanUses(ac: bool, tbl: seq<nat>, members: seq<nat>, mcus: seq<seq<Block>>, last: seq<int>, i: nat, n: nat,
          v: nat): nat
    requires |tbl| == |last| && Members(members, |tbl|) && Shaped(mcus, |members|) && i <= |mcus|
    decreases |mcus| - i
  {
    if i == |mcus| then 0
    else
      McuUses(ac, tbl, members, mcus[i], last, 0, n, v)
      + ScanUses(ac, tbl, members, mcus, McuLast(members, mcus[i], last, 0), i + 1, n, v)
  }

  function CodingOf(g: Coding, ac: bool): CTable {
    if ac then g.ac else g.dc
  }

  /** The symbols of the blocks from i on all have code words. */
  ghost predicate McuServed(ac: bool, cs: seq<Coding>, tbl: seq<nat>, members: seq<nat>, mcu: seq<Block>,
          last: seq<int>, i: nat)
    requires |tbl| == |last| == |cs| && |mcu| == |members| && Members(members, |tbl|) && i <= |mcu|
  {
    forall m: nat, v: nat :: m < |cs| && McuUses(ac, tbl, members, mcu, last, i, tbl[m], v) > 0 ==>
      HasCode(CodingOf(cs[m], ac), v)
  }

  ghost predicate ScanServed(ac: bool, cs: seq<Coding>, tbl: seq<nat>, members: seq<nat>, mcus: seq<seq<Block>>,
          last: seq<int>, i: nat)
    requires |tbl| == |last| == |cs| && Members(members, |tbl|) && Shaped(mcus, |members|) && i <= |mcus|
  {
    forall m: nat, v: nat :: m < |cs| && ScanUses(ac, tbl, members, mcus, last, i, tbl[m], v) > 0 ==>
      HasCode(CodingOf(cs[m], ac), v)
  }

  lemma McuServedStep(ac: bool, cs: seq<Coding>, tbl: seq<nat>, members: seq<nat>, mcu: seq<Block>, last: seq<int>,
          i: nat)
    requires |tbl| == |last| == |cs| && |mcu| == |members| && Members(members, |tbl|) && i < |mcu|
    requires McuServed(ac, cs, tbl, members, mcu, last, i)
    ensures forall v: nat :: BlockUses(ac, mcu[i], last[members[i]], v) > 0 ==> HasCode(CodingOf(cs[members[i]], ac), v)
    ensures McuServed(ac, cs, tbl, members, mcu, last[members[i] := mcu[i][0]], i + 1)
  {
    hide HasCode, BlockUses, CodingOf;
    var m := members[i];
    forall v: nat | BlockUses(ac, mcu[i], last[m], v) > 0
      ensures HasCode(CodingOf(cs[m], ac), v)
    {
      assert McuUses(ac, tbl, members, mcu, last, i, tbl[m], v) > 0;
    }
    forall c: nat, v: nat | c < |cs| && McuUses(ac, tbl, members, mcu, last[m := mcu[i][0]], i + 1, tbl[c], v) > 0
      ensures HasCode(CodingOf(cs[c], ac), v)
    {
      assert McuUses(ac, tbl, members, mcu, last, i, tbl[c], v) > 0;
    }
  }

  lemma BlockServed(g: Coding, b: Block, last: int)
    requires forall v: nat :: BlockUses(false, b, last, v) > 0 ==> HasCode(CodingOf(g, false), v)
    requires forall v: nat :: BlockUses(true, b, last, v) > 0 ==> HasCode(CodingOf(g, true), v)
    ensures BlockCoded(g.dc, g.ac, b, last)
  {
    hide HasCode, NBits, AcUses;
    AcCodedIff(g.ac, b, 1, 0);
    assert BlockUses(false, b, last, NBits(b[0] - last)) > 0;
    assert CodingOf(g, true) == g.ac && CodingOf(g, false) == g.dc;
    forall v: nat | AcUses(b, 1, 0, v) > 0
      ensures HasCode(g.ac, v)
    {
      assert BlockUses(true, b, last, v) > 0;
    }
  }

  lemma {:induction false} McuServedCoded(cs: seq<Coding>, dcTbl: seq<nat>, acTbl: seq<nat>, members: seq<nat>,
          mcu: seq<Block>, last: seq<int>, i: nat)
    requires |dcTbl| == |acTbl| == |last| == |cs| && |mcu| == |members| && Members(members, |cs|) && i <= |mcu|
    requires McuServed(false, cs, dcTbl, members, mcu, last, i) && McuServed(true, cs, acTbl, members, mcu, last, i)
    ensures McuCoded(cs, members, mcu, last, i)
    decreases |mcu| - i
  {
    hide McuServed, McuUses, BlockUses, BlockCoded, HasCode;
    if i < |mcu| {
      McuServedStep(false, cs, dcTbl, members, mcu, last, i);
      McuServedStep(true, cs, acTbl, members, mcu, last, i);
      BlockServed(cs[members[i]], mcu[i], last[members[i]]);
      McuServedCoded(cs, dcTbl, acTbl, members, mcu, last[members[i] := mcu[i][0]], i + 1);
    }
  }

  lemma {:induction false} ScanServedStep(ac: bool, cs: seq<Coding>, tbl: seq<nat>, members: seq<nat>,
          mcus: seq<seq<Block>>, last: seq<int>, i: nat)
    requires |tbl| == |last| == |cs| && Members(members, |tbl|) && Shaped(mcus, |members|) && i < |mcus|
    requires ScanServed(ac, cs, tbl, members, mcus, last, i)
    ensures McuServed(ac, cs, tbl, members, mcus[i], last, 0)
    ensures ScanServed(ac, cs, tbl, members, mcus, McuLast(members, mcus[i], last, 0), i + 1)
  {
    hide HasCode, CodingOf, McuUses, McuLast;
    forall c: nat, v: nat | c < |cs| && McuUses(ac, tbl, members, mcus[i], last, 0, tbl[c], v) > 0
      ensures HasCode(CodingOf(cs[c], ac), v)
    {
      assert ScanUses(ac, tbl, members, mcus, last, i, tbl[c], v) > 0;
    }
    var after := McuLast(members, mcus[i], last, 0);
    forall c: nat, v: nat | c < |cs| && ScanUses(ac, tbl, members, mcus, after, i + 1, tbl[c], v) > 0
      ensures HasCode(CodingOf(cs[c], ac), v)
    {
      assert ScanUses(ac, tbl, members, mcus, last, i, tbl[c], v) > 0;
    }
  }

  /** If every symbol that is counted for a scan has a code word, the scan can be
      encoded. */
  lemma {:induction false} ScanServedCoded(cs: seq<Coding>, dcTbl: seq<nat>, acTbl: seq<nat>, members: seq<nat>,
          mcus: seq<seq<Block>>, last: seq<int>, i: nat)
    requires |dcTbl| == |acTbl| == |last| == |cs| && Members(members, |cs|) && Shaped(mcus, |members|) && i <= |mcus|
    requires ScanServed(false, cs, dcTbl, members, mcus, last, i) && ScanServed(true, cs, acTbl, members, mcus, last, i)
    ensures ScanCoded(cs, members, mcus, last, i)
    decreases |mcus| - i
  {
    hide ScanServed, McuServed, McuCoded, McuLast;
    if i < |mcus| {
      ScanServedStep(false, cs, dcTbl, members, mcus, last, i);
      ScanServedStep(true, cs, acTbl, members, mcus, last, i);
      McuServedCoded(cs, dcTbl, acTbl, members, mcus[i], last, 0);
      ScanServedCoded(cs, dcTbl, acTbl, members, mcus, McuLast(members, mcus[i], last, 0), i + 1);
    }
  }

  // ----- which symbols are never counted, and which tables always have some -----

  /** The DC differences of the blocks from i on fit 15 bits. */
  ghost predicate McuDcFits(members: seq<nat>, mcu: seq<Block>, last: seq<int>, i: nat)
    requires |mcu| == |members| && Members(members, |last|) && i <= |mcu|
    decreases |mcu| - i
  {
    if i == |mcu| then true
    else
      && -0x8000 < mcu[i][0] - last[members[i]] < 0x8000
      && McuDcFits(members, mcu, last[members[i] := mcu[i][0]], i + 1)
  }

  ghost predicate ScanDcFits(members: seq<nat>, mcus: seq<seq<Block>>, last: seq<int>, i: nat)
    requires Members(members, |last|) && Shaped(mcus, |members|) && i <= |mcus|
    decreases |mcus| - i
  {
    if i == |mcus| then true
    else
      McuDcFits(members, mcus[i], last, 0) && ScanDcFits(members, mcus, McuLast(members, mcus[i], last, 0), i + 1)
  }

  lemma {:induction false} LastInRange(members: seq<nat>, mcu: seq<Block>, last: seq<int>, i: nat)
    requires |mcu| == |members| && Members(members, |last|) && i <= |mcu| && AllCoefs(mcu) && Predictions(last)
    ensures Predictions(McuLast(members, mcu, last, i))
    decreases |mcu| - i
  {
    if i < |mcu| {
      LastInRange(members, mcu, last[members[i] := mcu[i][0]], i + 1);
    }
  }

  /** No size over 16 occurs, and none over 15 where the differences fit. */
  lemma {:induction false} McuDcSizes(tbl: seq<nat>, members: seq<nat>, mcu: seq<Block>, last: seq<int>, i: nat,
          n: nat, v: nat)
    requires |tbl| == |last| && |mcu| == |members| && Members(members, |tbl|) && i <= |mcu|
    requires AllCoefs(mcu) && Predictions(last) && (v > 16 || (v == 16 && McuDcFits(members, mcu, last, i)))
    ensures McuUses(false, tbl, members, mcu, last, i, n, v) == 0
    decreases |mcu| - i
  {
    hide NBits;
    if i < |mcu| {
      var m := members[i];
      DcInRange(mcu[i]);
      hide Coefs;
      SizeOf(mcu[i][0] - last[m]);
      McuDcSizes(tbl, members, mcu, last[m := mcu[i][0]], i + 1, n, v);
    }
  }

  lemma {:induction false} ScanDcSizes(tbl: seq<nat>, members: seq<nat>, mcus: seq<seq<Block>>, last: seq<int>,
          i: nat, n: nat, v: nat)
    requires |tbl| == |last| && Members(members, |tbl|) && Shaped(mcus, |members|) && i <= |mcus|
    requires ScanCoefs(mcus) && Predictions(last) && (v > 16 || (v == 16 && ScanDcFits(members, mcus, last, i)))
    ensures ScanUses(false, tbl, members, mcus, last, i, n, v) == 0
    decreases |mcus| - i
  {
    hide McuUses, McuLast, AllCoefs, McuDcFits, Predictions, Members;
    if i < |mcus| {
      McuDcSizes(tbl, members, mcus[i], last, 0, n, v);
      LastInRange(members, mcus[i], last, 0);
      ScanDcSizes(tbl, members, mcus, McuLast(members, mcus[i], last, 0), i + 1, n, v);
    }
  }

  /** AC symbols that are not among those of T.81: a value of size 0 but for the two
      special ones. */
  predicate Stray(v: nat) {
    (v % 16 == 0 || v >= 0x100) && v != 0 && v != 0xf0
  }

  /** No AC symbol over 255 occurs, and without -32768 none that is not in T.81. */
  lemma {:induction false} McuAcSymbols(tbl: seq<nat>, members: seq<nat>, mcu: seq<Block>, last: seq<int>, i: nat,
          n: nat, v: nat)
    requires |tbl| == |last| && |mcu| == |members| && Members(members, |tbl|) && i <= |mcu|
    requires Encodable(mcu) && (v >= 0x100 || (Stray(v) && NoneLost(mcu, 0)))
    ensures McuUses(true, tbl, members, mcu, last, i, n, v) == 0
    decreases |mcu| - i
  {
    hide AcUses, Coefs, NoSixteenBits, Indexable, DcUse;
    if i < |mcu| {
      if v >= 0x100 {
        OnlyIndexable(mcu[i], 1, 0, v);
      } else {
        NoOtherZeroSizes(mcu[i], 1, 0, v);
      }
      McuAcSymbols(tbl, members, mcu, last[members[i] := mcu[i][0]], i + 1, n, v);
    }
  }

  lemma {:induction false} ScanAcSymbols(tbl: seq<nat>, members: seq<nat>, mcus: seq<seq<Block>>, last: seq<int>,
          i: nat, n: nat, v: nat)
    requires |tbl| == |last| && Members(members, |tbl|) && Shaped(mcus, |members|) && i <= |mcus|
    requires AllEncodable(mcus) && (v >= 0x100 || (Stray(v) && ScanNoneLost(mcus, 0)))
    ensures ScanUses(true, tbl, members, mcus, last, i, n, v) == 0
    decreases |mcus| - i
  {
    hide McuUses, McuLast, Encodable, NoneLost, Stray, Members;
    if i < |mcus| {
      McuAcSymbols(tbl, members, mcus[i], last, 0, n, v);
      ScanAcSymbols(tbl, members, mcus, McuLast(members, mcus[i], last, 0), i + 1, n, v);
    }
  }

  /** The table of every component of an MCU is needed for some symbol. */
  lemma {:induction false} SomeUse(ac: bool, tbl: seq<nat>, members: seq<nat>, mcu: seq<Block>, last: seq<int>,
          i: nat, j: nat)
    returns (v: nat)
    requires |tbl| == |last| && |mcu| == |members| && Members(members, |tbl|) && i <= j < |mcu|
    requires Encodable(mcu) && Predictions(last)
    ensures v < 256 && McuUses(ac, tbl, members, mcu, last, i, tbl[members[j]], v) > 0
    decreases j - i
  {
    hide AcUses, NBits, Indexable;
    var m := members[i];
    DcInRange(mcu[i]);
    if i < j {
      v := SomeUse(ac, tbl, members, mcu, last[m := mcu[i][0]], i + 1, j);
    } else if ac {
      v := SomeSymbol(mcu[i], 1, 0);
    } else {
      SizeOf(mcu[i][0] - last[m]);
      v := NBits(mcu[i][0] - last[m]);
    }
  }

  // ----- the count tables -----

  ghost function Snapshot(a: seq<array<nat>>): (s: seq<seq<nat>>)
    reads a
    ensures |s| == |a| && forall i :: 0 <= i < |a| ==> s[i] == a[i][..]
  {
    if a == [] then [] else Snapshot(a[..|a| - 1]) + [a[|a| - 1][..]]
  }

  /** Count tables that share no storage. */
  ghost predicate CountTables(a: seq<array<nat>>) {
    && (forall i :: 0 <= i < |a| ==> a[i].Length == SYMBOLS)
    && (forall i, j :: 0 <= i < j < |a| ==> a[i] != a[j])
  }

  ghost predicate CountArrays(dc: seq<array<nat>>, ac: seq<array<nat>>) {
    && CountTables(dc) && CountTables(ac)
    && (forall i, j :: 0 <= i < |dc| && 0 <= j < |ac| ==> dc[i] != ac[j])
  }

  ghost predicate Sized(counts: seq<seq<nat>>) {
    forall n :: 0 <= n < |counts| ==> |counts[n]| == SYMBOLS
  }

  /** One table has the uses of one block added, the others are as before. */
  ghost predicate BlockAdded(before: seq<seq<nat>>, now: seq<seq<nat>>, k: nat, ac: bool, b: Block, last: int) {
    && |before| == |now| && k < |now| && Sized(before) && Sized(now)
    && (forall n :: 0 <= n < |now| && n != k ==> now[n] == before[n])
    && (forall v :: 0 <= v < SYMBOLS ==> now[k][v] == before[k][v] + BlockUses(ac, b, last, v))
    && Sum(now[k], SYMBOLS) <= Sum(before[k], SYMBOLS) + 63
  }

  method CountBlock(block: Block, last: int, dc: seq<array<nat>>, ac: seq<array<nat>>, d: nat, a: nat)
    requires CountArrays(dc, ac) && d < |dc| && a < |ac| && Coefs(block) && -0x8000 <= last < 0x8000
    modifies dc[d], ac[a]
    ensures BlockAdded(old(Snapshot(dc)), Snapshot(dc), d, false, block, last)
    ensures BlockAdded(old(Snapshot(ac)), Snapshot(ac), a, true, block, last)
  {
    hide Sum, AcUses, DcUse, Snapshot;
    HtestOneBlock(block, last, dc[d], ac[a]);
  }

  /** What has been counted and what is still to come add up to all the uses. */
  ghost predicate McuTally(ac: bool, tbl: seq<nat>, members: seq<nat>, mcu: seq<Block>, last: seq<int>, i: nat,
          first: seq<int>, before: seq<seq<nat>>, now: seq<seq<nat>>)
    requires |tbl| == |last| == |first| && |mcu| == |members| && Members(members, |tbl|) && i <= |mcu|
  {
    && |before| == |now| && Sized(before) && Sized(now)
    && (forall n, v :: 0 <= n < |now| && 0 <= v < SYMBOLS ==>
         now[n][v] + McuUses(ac, tbl, members, mcu, last, i, n, v)
         == before[n][v] + McuUses(ac, tbl, members, mcu, first, 0, n, v))
    && (forall n :: 0 <= n < |now| ==> Sum(now[n], SYMBOLS) <= Sum(before[n], SYMBOLS) + 63 * i)
  }

  lemma TallyStart(ac: bool, tbl: seq<nat>, members: seq<nat>, mcu: seq<Block>, last: seq<int>, before: seq<seq<nat>>)
    requires |tbl| == |last| && |mcu| == |members| && Members(members, |tbl|) && Sized(before)
    ensures McuTally(ac, tbl, members, mcu, last, 0, last, before, before)
  {
  }

  lemma TallyStep(ac: bool, tbl: seq<nat>, members: seq<nat>, mcu: seq<Block>, last: seq<int>, i: nat,
          first: seq<int>, before: seq<seq<nat>>, now: seq<seq<nat>>, now': seq<seq<nat>>)
    requires |tbl| == |last| == |first| && |mcu| == |members| && Members(members, |tbl|) && i < |mcu|
    requires McuTally(ac, tbl, members, mcu, last, i, first, before, now)
    requires BlockAdded(now, now', tbl[members[i]], ac, mcu[i], last[members[i]])
    ensures McuTally(ac, tbl, members, mcu, last[members[i] := mcu[i][0]], i + 1, first, before, now')
  {
    hide Sum, BlockUses;
    var m := members[i];
    forall n, v | 0 <= n < |now'| && 0 <= v < SYMBOLS
      ensures now'[n][v] + McuUses(ac, tbl, members, mcu, last[m := mcu[i][0]], i + 1, n, v)
           == before[n][v] + McuUses(ac, tbl, members, mcu, first, 0, n, v)
    {
      assert now[n][v] + McuUses(ac, tbl, members, mcu, last, i, n, v)
          == before[n][v] + McuUses(ac, tbl, members, mcu, first, 0, n, v);
    }
  }

  /** A whole MCU has been counted. */
  ghost predicate McuCounted(ac: bool, tbl: seq<nat>, members: seq<nat>, mcu: seq<Block>, last: seq<int>,
          before: seq<seq<nat>>, now: seq<seq<nat>>)
    requires |tbl| == |last| && |mcu| == |members| && Members(members, |tbl|)
  {
    && |before| == |now| && Sized(before) && Sized(now)
    && (forall n, v :: 0 <= n < |now| && 0 <= v < SYMBOLS ==>
         now[n][v] == before[n][v] + McuUses(ac, tbl, members, mcu, last, 0, n, v))
    && (forall n :: 0 <= n < |now| ==> Sum(now[n], SYMBOLS) <= Sum(before[n], SYMBOLS) + 63 * |mcu|)
  }

  lemma TallyEnd(ac: bool, tbl: seq<nat>, members: seq<nat>, mcu: seq<Block>, last: seq<int>, first: seq<int>,
          before: seq<seq<nat>>, now: seq<seq<nat>>)
    requires |tbl| == |last| == |first| && |mcu| == |members| && Members(members, |tbl|)
    requires McuTally(ac, tbl, members, mcu, last, |mcu|, first, before, now)
    ensures McuCounted(ac, tbl, members, mcu, first, before, now)
  {
    hide Sum;
    forall n, v | 0 <= n < |now| && 0 <= v < SYMBOLS
      ensures now[n][v] == before[n][v] + McuUses(ac, tbl, members, mcu, first, 0, n, v)
    {
      assert McuUses(ac, tbl, members, mcu, last, |mcu|, n, v) == 0;
    }
  }

  // ----- the statistics pass -----

  class HuffGatherer {
    const members: seq<nat>
    const dcTbl: seq<nat>
    const acTbl: seq<nat>
    const dcCounts: seq<array<nat>>
    const acCounts: seq<array<nat>>
    var lastDcVal: seq<int>

    constructor (members: seq<nat>, dcTbl: seq<nat>, acTbl: seq<nat>, dcCounts: seq<array<nat>>,
            acCounts: seq<array<nat>>)
      requires |dcTbl| == |acTbl| && Members(members, |dcTbl|)
      requires Members(dcTbl, |dcCounts|) && Members(acTbl, |acCounts|) && CountArrays(dcCounts, acCounts)
      ensures this.members == members && this.dcTbl == dcTbl && this.acTbl == acTbl
      ensures this.dcCounts == dcCounts && this.acCounts == acCounts
      ensures Valid() && lastDcVal == seq(|dcTbl|, _ => 0)
    {
      this.members, this.dcTbl, this.acTbl := members, dcTbl, acTbl;
      this.dcCounts, this.acCounts := dcCounts, acCounts;
      lastDcVal := seq(|dcTbl|, _ => 0);
    }

    ghost predicate Valid()
      reads this
    {
      && |dcTbl| == |acTbl| == |lastDcVal| && Members(members, |dcTbl|) && Predictions(lastDcVal)
      && Members(dcTbl, |dcCounts|) && Members(acTbl, |acCounts|) && CountArrays(dcCounts, acCounts)
    }

    /** encode_mcu_gather */
    method EncodeMcuGather(mcu: seq<Block>)
      requires Valid() && |mcu| == |members| && AllCoefs(mcu)
      modifies this, dcCounts, acCounts
      ensures Valid() && lastDcVal == McuLast(members, mcu, old(lastDcVal), 0)
      ensures McuCounted(false, dcTbl, members, mcu, old(lastDcVal), old(Snapshot(dcCounts)), Snapshot(dcCounts))
      ensures McuCounted(true, acTbl, members, mcu, old(lastDcVal), old(Snapshot(acCounts)), Snapshot(acCounts))
    {
      hide McuUses, McuTally, McuCounted, BlockAdded, CountArrays, Sum, Coefs;
      ghost var first, dc0, ac0 := lastDcVal, Snapshot(dcCounts), Snapshot(acCounts);
      SnapshotSized(dcCounts, acCounts);
      TallyStart(false, dcTbl, members, mcu, first, dc0);
      TallyStart(true, acTbl, members, mcu, first, ac0);
      var blkn := 0;
      while blkn < |mcu|
        invariant blkn <= |mcu| && Valid()
        invariant McuTally(false, dcTbl, members, mcu, lastDcVal, blkn, first, dc0, Snapshot(dcCounts))
        invariant McuTally(true, acTbl, members, mcu, lastDcVal, blkn, first, ac0, Snapshot(acCounts))
        invariant McuLast(members, mcu, lastDcVal, blkn) == McuLast(members, mcu, first, 0)
      {
        var ci := members[blkn];
        ghost var dc1, ac1, last := Snapshot(dcCounts), Snapshot(acCounts), lastDcVal;
        CountBlock(mcu[blkn], lastDcVal[ci], dcCounts, acCounts, dcTbl[ci], acTbl[ci]);
        TallyStep(false, dcTbl, members, mcu, last, blkn, first, dc0, dc1, Snapshot(dcCounts));
        TallyStep(true, acTbl, members, mcu, last, blkn, first, ac0, ac1, Snapshot(acCounts));
        DcInRange(mcu[blkn]);
        lastDcVal := lastDcVal[ci := mcu[blkn][0]];
        blkn := blkn + 1;
      }
      TallyEnd(false, dcTbl, members, mcu, lastDcVal, first, dc0, Snapshot(dcCounts));
      TallyEnd(true, acTbl, members, mcu, lastDcVal, first, ac0, Snapshot(acCounts));
    }
  }

  lemma {:induction false} SnapshotSized(dc: seq<array<nat>>, ac: seq<array<nat>>)
    requires CountArrays(dc, ac)
    ensures Sized(Snapshot(dc)) && Sized(Snapshot(ac))
  {
  }

  // ----- counting a scan -----

  ghost function NoPredictions(n: nat): (last: seq<int>)
    ensures |last| == n && Predictions(last)
  {
    seq(n, _ => 0)
  }

  ghost predicate ScanTally(ac: bool, tbl: seq<nat>, members: seq<nat>, mcus: seq<seq<Block>>, last: seq<int>, i: nat,
          now: seq<seq<nat>>)
    requires |tbl| == |last| && Members(members, |tbl|) && Shaped(mcus, |members|) && i <= |mcus|
  {
    && Sized(now)
    && (forall n, v :: 0 <= n < |now| && 0 <= v < SYMBOLS ==>
         now[n][v] + ScanUses(ac, tbl, members, mcus, last, i, n, v)
         == ScanUses(ac, tbl, members, mcus, NoPredictions(|tbl|), 0, n, v))
    && (forall n :: 0 <= n < |now| ==> Sum(now[n], SYMBOLS) <= 63 * (i * |members|))
  }

  lemma {:induction false} NoneCounted(f: seq<nat>, n: nat)
    requires n <= |f| && forall x :: 0 <= x < |f| ==> f[x] == 0
    ensures Sum(f, n) == 0
  {
    if n > 0 {
      NoneCounted(f, n - 1);
    }
  }

  lemma ScanTallyStart(ac: bool, tbl: seq<nat>, members: seq<nat>, mcus: seq<seq<Block>>, now: seq<seq<nat>>)
    requires Members(members, |tbl|) && Shaped(mcus, |members|) && Sized(now)
    requires forall n, v :: 0 <= n < |now| && 0 <= v < SYMBOLS ==> now[n][v] == 0
    ensures ScanTally(ac, tbl, members, mcus, NoPredictions(|tbl|), 0, now)
  {
    forall n | 0 <= n < |now|
      ensures Sum(now[n], SYMBOLS) == 0
    {
      NoneCounted(now[n], SYMBOLS);
    }
    hide Sum, ScanUses;
  }

  lemma {:induction false} ScanTallyStep(ac: bool, tbl: seq<nat>, members: seq<nat>, mcus: seq<seq<Block>>,
          last: seq<int>, i: nat, now: seq<seq<nat>>, now': seq<seq<nat>>)
    requires |tbl| == |last| && Members(members, |tbl|) && Shaped(mcus, |members|) && i < |mcus|
    requires ScanTally(ac, tbl, members, mcus, last, i, now) && McuCounted(ac, tbl, members, mcus[i], last, now, now')
    ensures ScanTally(ac, tbl, members, mcus, McuLast(members, mcus[i], last, 0), i + 1, now')
  {
    hide Sum, McuUses, McuLast;
    var after := McuLast(members, mcus[i], last, 0);
    forall n, v | 0 <= n < |now'| && 0 <= v < SYMBOLS
      ensures now'[n][v] + ScanUses(ac, tbl, members, mcus, after, i + 1, n, v)
           == ScanUses(ac, tbl, members, mcus, NoPredictions(|tbl|), 0, n, v)
    {
      assert now[n][v] + ScanUses(ac, tbl, members, mcus, last, i, n, v)
          == ScanUses(ac, tbl, members, mcus, NoPredictions(|tbl|), 0, n, v);
    }
    Distribute(i, 1, |members|);
  }

  /** The counts are exactly the uses of the scan. */
  ghost predicate ScanCounted(ac: bool, tbl: seq<nat>, members: seq<nat>, mcus: seq<seq<Block>>, now: seq<seq<nat>>)
    requires Members(members, |tbl|) && Shaped(mcus, |members|)
  {
    && Sized(now)
    && (forall n, v :: 0 <= n < |now| && 0 <= v < SYMBOLS ==>
         now[n][v] == ScanUses(ac, tbl, members, mcus, NoPredictions(|tbl|), 0, n, v))
    && (forall n :: 0 <= n < |now| ==> Sum(now[n], SYMBOLS) <= 63 * (|mcus| * |members|))
  }

  lemma ScanTallyEnd(ac: bool, tbl: seq<nat>, members: seq<nat>, mcus: seq<seq<Block>>, last: seq<int>,
          now: seq<seq<nat>>)
    requires |tbl| == |last| && Members(members, |tbl|) && Shaped(mcus, |members|)
    requires ScanTally(ac, tbl, members, mcus, last, |mcus|, now)
    ensures ScanCounted(ac, tbl, members, mcus, now)
  {
    hide Sum;
    forall n, v | 0 <= n < |now| && 0 <= v < SYMBOLS
      ensures now[n][v] == ScanUses(ac, tbl, members, mcus, NoPredictions(|tbl|), 0, n, v)
    {
      assert ScanUses(ac, tbl, members, mcus, last, |mcus|, n, v) == 0;
    }
  }

  ghost predicate Blank(counts: seq<seq<nat>>)
    requires Sized(counts)
  {
    forall n, v :: 0 <= n < |counts| && 0 <= v < SYMBOLS ==> counts[n][v] == 0
  }

  /** The statistics pass over all MCUs. */
  method GatherScan(g: HuffGatherer, mcus: seq<seq<Block>>)
    requires g.Valid() && g.lastDcVal == NoPredictions(|g.dcTbl|)
    requires Shaped(mcus, |g.members|) && ScanCoefs(mcus)
    requires Sized(Snapshot(g.dcCounts)) && Sized(Snapshot(g.acCounts))
    requires Blank(Snapshot(g.dcCounts)) && Blank(Snapshot(g.acCounts))
    modifies g, g.dcCounts, g.acCounts
    ensures g.Valid()
    ensures ScanCounted(false, g.dcTbl, g.members, mcus, Snapshot(g.dcCounts))
    ensures ScanCounted(true, g.acTbl, g.members, mcus, Snapshot(g.acCounts))
  {
    hide ScanUses, ScanTally, ScanCounted, McuCounted, CountArrays, NoPredictions, McuLast, AllCoefs;
    ScanTallyStart(false, g.dcTbl, g.members, mcus, Snapshot(g.dcCounts));
    ScanTallyStart(true, g.acTbl, g.members, mcus, Snapshot(g.acCounts));
    var j := 0;
    while j < |mcus|
      invariant j <= |mcus| && g.Valid()
      invariant ScanTally(false, g.dcTbl, g.members, mcus, g.lastDcVal, j, Snapshot(g.dcCounts))
      invariant ScanTally(true, g.acTbl, g.members, mcus, g.lastDcVal, j, Snapshot(g.acCounts))
    {
      ghost var dc, ac, last := Snapshot(g.dcCounts), Snapshot(g.acCounts), g.lastDcVal;
      g.EncodeMcuGather(mcus[j]);
      ScanTallyStep(false, g.dcTbl, g.members, mcus, last, j, dc, Snapshot(g.dcCounts));
      ScanTallyStep(true, g.acTbl, g.members, mcus, last, j, ac, Snapshot(g.acCounts));
      j := j + 1;
    }
    ScanTallyEnd(false, g.dcTbl, g.members, mcus, g.lastDcVal, Snapshot(g.dcCounts));
    ScanTallyEnd(true, g.acTbl, g.members, mcus, g.lastDcVal, Snapshot(g.acCounts));
  }

  // ----- making the tables -----

  /** How often a scan needs each symbol of the table n. */
  ghost function CountsOf(ac: bool, tbl: seq<nat>, members: seq<nat>, mcus: seq<seq<Block>>, n: nat): (c: seq<nat>)
    requires Members(members, |tbl|) && Shaped(mcus, |members|)
    ensures |c| == SYMBOLS
  {
    seq(SYMBOLS, v requires 0 <= v < SYMBOLS => ScanUses(ac, tbl, members, mcus, NoPredictions(|tbl|), 0, n, v))
  }

  lemma CountsAre(ac: bool, tbl: seq<nat>, members: seq<nat>, mcus: seq<seq<Block>>, now: seq<seq<nat>>, n: nat)
    requires Members(members, |tbl|) && Shaped(mcus, |members|) && ScanCounted(ac, tbl, members, mcus, now) && n < |now|
    ensures now[n] == CountsOf(ac, tbl, members, mcus, n) && Sum(now[n], SYMBOLS) <= 63 * (|mcus| * |members|)
  {
    hide ScanUses, Sum, NoPredictions;
  }

  ghost predicate EveryComponent(members: seq<nat>, n: nat) {
    forall m: nat :: m < n ==> m in members
  }

  /** No AC table is needed for more than 254 symbols. */
  ghost predicate FewAcSymbols(tbl: seq<nat>, members: seq<nat>, mcus: seq<seq<Block>>)
    requires Members(members, |tbl|) && Shaped(mcus, |members|)
  {
    forall m :: 0 <= m < |tbl| ==> Used(CountsOf(true, tbl, members, mcus, tbl[m]), 256) < 0xff
  }

  /** Without -32768 there are no more symbols than that. */
  lemma FewAcSymbolsIf(tbl: seq<nat>, members: seq<nat>, mcus: seq<seq<Block>>)
    requires Members(members, |tbl|) && Shaped(mcus, |members|) && AllEncodable(mcus) && ScanNoneLost(mcus, 0)
    ensures FewAcSymbols(tbl, members, mcus)
  {
    hide Used, ScanUses, AllEncodable, ScanNoneLost, NoPredictions;
    forall m | 0 <= m < |tbl|
      ensures Used(CountsOf(true, tbl, members, mcus, tbl[m]), 256) < 0xff
    {
      var c := CountsOf(true, tbl, members, mcus, tbl[m]);
      assert Stray(16) && Stray(32);
      ScanAcSymbols(tbl, members, mcus, NoPredictions(|tbl|), 0, tbl[m], 16);
      ScanAcSymbols(tbl, members, mcus, NoPredictions(|tbl|), 0, tbl[m], 32);
      assert c[16] == 0 && c[32] == 0;
      UsedWithoutTwo(c, 16, 32, 256);
    }
  }

  lemma {:induction false} UsedBelow(f: seq<nat>, k: nat, n: nat)
    requires n <= |f| && forall x :: k <= x < |f| ==> f[x] == 0
    ensures Used(f, n) <= k
  {
    if n > k {
      UsedBelow(f, k, n - 1);
    }
  }

  /** A DC table is needed for at most 17 symbols, so its code words never get too long;
      for at most 16 where the differences fit, and then no length is limited. */
  lemma {:induction false} DcCounts(tbl: seq<nat>, members: seq<nat>, mcus: seq<seq<Block>>, n: nat)
    requires Members(members, |tbl|) && Shaped(mcus, |members|) && ScanCoefs(mcus)
    ensures var c := CountsOf(false, tbl, members, mcus, n);
      && Used(c, 256) < 0xff && ShortCodes(c)
      && (ScanDcFits(members, mcus, NoPredictions(|tbl|), 0) ==>
           Unlimited(c) && forall v :: 16 <= v < SYMBOLS ==> c[v] == 0)
  {
    hide Used, ScanUses, ScanCoefs, ScanDcFits, NoPredictions, ShortCodes, Unlimited;
    var c, last := CountsOf(false, tbl, members, mcus, n), NoPredictions(|tbl|);
    forall v: nat | 17 <= v < SYMBOLS
      ensures c[v] == 0
    {
      ScanDcSizes(tbl, members, mcus, last, 0, n, v);
    }
    UsedBelow(c, 17, 256);
    if ScanDcFits(members, mcus, last, 0) {
      ScanDcSizes(tbl, members, mcus, last, 0, n, 16);
      assert c[16] == 0;
      UsedBelow(c, 16, 256);
    }
    FewSymbols(c);
  }

  /** The counts of a scan are such that a table can be made for them. */
  lemma CountableIf(ac: bool, tbl: seq<nat>, members: seq<nat>, mcus: seq<seq<Block>>, m: nat)
    requires Members(members, |tbl|) && Shaped(mcus, |members|) && AllEncodable(mcus) && mcus != []
    requires m < |tbl| && m in members && (ac ==> FewAcSymbols(tbl, members, mcus))
    requires Sum(CountsOf(ac, tbl, members, mcus, tbl[m]), SYMBOLS) < MAX_COUNT
    ensures Countable(CountsOf(ac, tbl, members, mcus, tbl[m]))
  {
    var c, last := CountsOf(ac, tbl, members, mcus, tbl[m]), NoPredictions(|tbl|);
    assert Used(c, 256) < 0xff by {
      if !ac {
        EncodableCoefs(mcus);
        DcCounts(tbl, members, mcus, tbl[m]);
      }
    }
    assert Sum(c, 256) <= Sum(c, SYMBOLS) by { SumStep(c); }
    hide Used, Sum, McuUses, FewAcSymbols;
    var j :| 0 <= j < |members| && members[j] == m;
    assert Encodable(mcus[0]);
    var a := SomeUse(ac, tbl, members, mcus[0], last, 0, j);
    assert c[a] > 0;
  }

  lemma {:induction false} SumStep(f: seq<nat>)
    requires |f| == SYMBOLS
    ensures Sum(f, 256) <= Sum(f, SYMBOLS)
  {
  }

  /** t is a table for the counts, and optimal for them unless a length was limited. */
  ghost predicate MadeFor(t: Table, counts: seq<nat>) {
    |counts| == SYMBOLS && TableFor(t, counts) && ShortCodes(counts) && OptimalFor(t, counts)
  }

  /** The tables that are done are for the counts there were; the other counts are
      untouched. */
  ghost predicate Made(did: seq<bool>, tables: seq<Table>, before: seq<seq<nat>>, now: seq<seq<nat>>) {
    && |did| == |tables| == |before| == |now| && Sized(before)
    && (forall n :: 0 <= n < |did| && did[n] ==> MadeFor(tables[n], before[n]))
    && (forall n :: 0 <= n < |did| && !did[n] ==> now[n] == before[n])
  }

  /** A table is generated at most once, since that spoils its counts. */
  method GenOnce(counts: seq<array<nat>>, n: nat, did0: seq<bool>, tables0: seq<Table>, ghost before: seq<seq<nat>>)
    returns (ok: bool, did: seq<bool>, tables: seq<Table>)
    requires CountTables(counts)
    requires Made(did0, tables0, before, Snapshot(counts)) && n < |counts| && Countable(before[n])
    modifies counts[n]
    ensures ok ==> did == did0[n := true] && Made(did, tables, before, Snapshot(counts))
    ensures !ok ==> |before[n]| == SYMBOLS && !ShortCodes(before[n])
  {
    hide TableFor, Sum, Used, ShortCodes, FromHuffman, OptimalFor;
    ok, did, tables := true, did0, tables0;
    if did[n] {
      assert did0[n := true] == did0;
      return;
    }
    ghost var a :| 0 <= a < 256 && before[n][a] > 0;
    assert counts[n][..] == before[n] by { assert Snapshot(counts)[n] == counts[n][..]; }
    var t;
    ok, t := GenOptimalTable(counts[n], a);
    did, tables := did[n := true], tables[n := t];
  }

  ghost predicate TooLong(counts: seq<seq<nat>>, n: nat) {
    n < |counts| && |counts[n]| == SYMBOLS && !ShortCodes(counts[n])
  }

  ghost predicate SomeTooLong(dc: seq<seq<nat>>, ac: seq<seq<nat>>, dcTbl: seq<nat>, acTbl: seq<nat>)
    requires |dcTbl| == |acTbl|
  {
    exists m :: 0 <= m < |dcTbl| && (TooLong(dc, dcTbl[m]) || TooLong(ac, acTbl[m]))
  }

  /** The tables of one component. */
  method GenBoth(dc: seq<array<nat>>, ac: seq<array<nat>>, d: nat, a: nat, didDc0: seq<bool>, dcTables0: seq<Table>,
          didAc0: seq<bool>, acTables0: seq<Table>, ghost dc0: seq<seq<nat>>, ghost ac0: seq<seq<nat>>)
    returns (ok: bool, didDc: seq<bool>, dcTables: seq<Table>, didAc: seq<bool>, acTables: seq<Table>)
    requires CountArrays(dc, ac) && d < |dc| && a < |ac| && |didDc0| == |dc| && |didAc0| == |ac|
    requires Made(didDc0, dcTables0, dc0, Snapshot(dc)) && d < |dc0| && Countable(dc0[d])
    requires Made(didAc0, acTables0, ac0, Snapshot(ac)) && a < |ac0| && Countable(ac0[a])
    modifies dc, ac
    ensures ok ==> didDc == didDc0[d := true] && Made(didDc, dcTables, dc0, Snapshot(dc))
    ensures ok ==> didAc == didAc0[a := true] && Made(didAc, acTables, ac0, Snapshot(ac))
    ensures !ok ==> TooLong(dc0, d) || TooLong(ac0, a)
  {
    hide MadeFor, Countable, Made, Snapshot, CountTables, ShortCodes;
    didAc, acTables := didAc0, acTables0;
    ghost var now := Snapshot(ac);
    ok, didDc, dcTables := GenOnce(dc, d, didDc0, dcTables0, dc0);
    if !ok {
      return;
    }
    assert Snapshot(ac) == now;
    ghost var made := Snapshot(dc);
    ok, didAc, acTables := GenOnce(ac, a, didAc0, acTables0, ac0);
    assert Snapshot(dc) == made;
  }

  /** finish_pass_gather. It fails only if a code word comes out longer than 32 bits. */
  method FinishPassGather(g: HuffGatherer) returns (ok: bool, dcTables: seq<Table>, acTables: seq<Table>)
    requires g.Valid()
    requires AllCountable(Snapshot(g.dcCounts), g.dcTbl) && AllCountable(Snapshot(g.acCounts), g.acTbl)
    modifies g.dcCounts, g.acCounts
    ensures ok ==> TablesFor(dcTables, old(Snapshot(g.dcCounts)), g.dcTbl)
    ensures ok ==> TablesFor(acTables, old(Snapshot(g.acCounts)), g.acTbl)
    ensures !ok ==> SomeTooLong(old(Snapshot(g.dcCounts)), old(Snapshot(g.acCounts)), g.dcTbl, g.acTbl)
  {
    hide MadeFor, Countable, AllCountable, TablesFor, Made, Done, Predictions, CountTables, Snapshot, TooLong;
    ghost var dc0, ac0 := Snapshot(g.dcCounts), Snapshot(g.acCounts);
    var didDc, didAc := seq(|g.dcCounts|, _ => false), seq(|g.acCounts|, _ => false);
    dcTables, acTables := seq(|g.dcCounts|, _ => Table([], [])), seq(|g.acCounts|, _ => Table([], []));
    SnapshotSized(g.dcCounts, g.acCounts);
    NoneMade(didDc, dcTables, dc0, g.dcTbl);
    NoneMade(didAc, acTables, ac0, g.acTbl);
    hide CountArrays;
    ok := true;
    for ci := 0 to |g.dcTbl|
      invariant Made(didDc, dcTables, dc0, Snapshot(g.dcCounts)) && Made(didAc, acTables, ac0, Snapshot(g.acCounts))
      invariant Done(didDc, g.dcTbl, ci) && Done(didAc, g.acTbl, ci)
      invariant |didDc| == |g.dcCounts| && |didAc| == |g.acCounts|
    {
      CountableAt(dc0, g.dcTbl, ci);
      CountableAt(ac0, g.acTbl, ci);
      DoneStep(didDc, g.dcTbl, ci);
      DoneStep(didAc, g.acTbl, ci);
      ok, didDc, dcTables, didAc, acTables := GenBoth(g.dcCounts, g.acCounts, g.dcTbl[ci], g.acTbl[ci],
        didDc, dcTables, didAc, acTables, dc0, ac0);
      if !ok {
        return;
      }
    }
    AllMade(didDc, dcTables, dc0, Snapshot(g.dcCounts), g.dcTbl);
    AllMade(didAc, acTables, ac0, Snapshot(g.acCounts), g.acTbl);
  }

  /** The tables of the first n components are done. */
  ghost predicate Done(did: seq<bool>, tbl: seq<nat>, n: nat)
    requires n <= |tbl|
  {
    forall m :: 0 <= m < n ==> tbl[m] < |did| && did[tbl[m]]
  }

  lemma DoneStep(did: seq<bool>, tbl: seq<nat>, n: nat)
    requires n < |tbl| && tbl[n] < |did| && Done(did, tbl, n)
    ensures Done(did[tbl[n] := true], tbl, n + 1)
  {
  }

  lemma NoneMade(did: seq<bool>, tables: seq<Table>, before: seq<seq<nat>>, tbl: seq<nat>)
    requires |did| == |tables| == |before| && Sized(before) && forall n :: 0 <= n < |did| ==> !did[n]
    ensures Made(did, tables, before, before) && Done(did, tbl, 0)
  {
  }

  ghost predicate AllCountable(counts: seq<seq<nat>>, tbl: seq<nat>) {
    forall m :: 0 <= m < |tbl| ==> tbl[m] < |counts| && Countable(counts[tbl[m]])
  }

  lemma CountableAt(counts: seq<seq<nat>>, tbl: seq<nat>, m: nat)
    requires AllCountable(counts, tbl) && m < |tbl|
    ensures tbl[m] < |counts| && Countable(counts[tbl[m]])
  {
    hide Countable;
  }

  /** The tables of all components are made for their counts. */
  ghost predicate TablesFor(tables: seq<Table>, counts: seq<seq<nat>>, tbl: seq<nat>) {
    && |tables| == |counts|
    && forall m :: 0 <= m < |tbl| ==> tbl[m] < |counts| && MadeFor(tables[tbl[m]], counts[tbl[m]])
  }

  lemma AllMade(did: seq<bool>, tables: seq<Table>, before: seq<seq<nat>>, now: seq<seq<nat>>, tbl: seq<nat>)
    requires Made(did, tables, before, now) && Done(did, tbl, |tbl|)
    ensures TablesFor(tables, before, tbl)
  {
    hide MadeFor;
  }

  // ----- both passes -----

  /** A DC table made for counts without sizes over 15 lists none. */
  lemma DcListed(t: Table, counts: seq<nat>)
    requires |counts| == SYMBOLS && TableFor(t, counts) && forall v :: 16 <= v < SYMBOLS ==> counts[v] == 0
    ensures HuffTable.Valid(t) && DcSymbols(t)
  {
    hide Used, Start, PrefixCode, SparesOnes;
    forall p | 0 <= p < Start(t, 17)
      ensures t.huffval[p] <= 15
    {
      assert Listed(t, t.huffval[p]);
    }
  }

  /** Every symbol with a count has a code word. */
  ghost predicate HasCodes(c: CTable, counts: seq<nat>)
    requires |counts| == SYMBOLS
  {
    forall v: nat :: v < 256 && counts[v] > 0 ==> HasCode(c, v)
  }

  lemma {:induction false} ServesCounts(c: CTable, t: Table, counts: seq<nat>)
    requires |counts| == SYMBOLS && TableFor(t, counts)
    requires EncodesFor(c, t) && CoversTable(c, t, Start(t, 17))
    ensures Coder(c, t) && HasCodes(c, counts)
  {
    assert HuffTable.Valid(t) && PrefixCode(t);
    hide HasCode, Used, PrefixCode, SparesOnes, EncodesFor, CoversTable, Listed, HuffTable.Valid;
    forall v: nat | v < 256 && counts[v] > 0
      ensures HasCode(c, v)
    {
      HasCodeIff(c, t, v);
    }
  }

  ghost predicate AllServe(ac: bool, codings: seq<Coding>, tbl: seq<nat>, counts: seq<seq<nat>>)
    requires |codings| <= |tbl| && Members(tbl, |counts|) && Sized(counts)
  {
    forall m :: 0 <= m < |codings| ==> HasCodes(CodingOf(codings[m], ac), counts[tbl[m]])
  }

  lemma CountsServed(ac: bool, codings: seq<Coding>, tbl: seq<nat>, members: seq<nat>, mcus: seq<seq<Block>>,
          now: seq<seq<nat>>)
    requires |codings| == |tbl| && Members(members, |tbl|) && Members(tbl, |now|) && Shaped(mcus, |members|)
    requires AllEncodable(mcus) && ScanCounted(ac, tbl, members, mcus, now) && AllServe(ac, codings, tbl, now)
    ensures ScanServed(ac, codings, tbl, members, mcus, NoPredictions(|tbl|), 0)
  {
    hide HasCode, CodingOf, Sum, ScanUses, NoPredictions, AllEncodable, ScanCoefs;
    var last := NoPredictions(|tbl|);
    EncodableCoefs(mcus);
    forall m: nat, v: nat | m < |codings| && ScanUses(ac, tbl, members, mcus, last, 0, tbl[m], v) > 0
      ensures HasCode(CodingOf(codings[m], ac), v)
    {
      if v >= 256 && ac {
        ScanAcSymbols(tbl, members, mcus, last, 0, tbl[m], v);
      } else if v >= 256 {
        ScanDcSizes(tbl, members, mcus, last, 0, tbl[m], v);
      }
      assert now[tbl[m]][v] > 0;
    }
  }

  /** The derived tables of one component. */
  method DeriveTables(c: Component, ghost dc: seq<nat>, ghost ac: seq<nat>) returns (g: Coding, d: Decoding)
    requires |dc| == |ac| == SYMBOLS && TableFor(c.dc, dc) && TableFor(c.ac, ac)
    ensures Coder(g.dc, c.dc) && Coder(g.ac, c.ac) && HasCodes(g.dc, dc) && HasCodes(g.ac, ac)
    ensures d.use == c.use && DerivedFrom(d.dc, c.dc) && DerivedFrom(d.ac, c.ac)
  {
    hide Used, SparesOnes, Listed, Coder, HasCodes, DerivedFrom, EncodesFor, CoversTable;
    var cdc := MakeCDerivedTbl(c.dc);
    var cac := MakeCDerivedTbl(c.ac);
    ServesCounts(cdc, c.dc, dc);
    ServesCounts(cac, c.ac, ac);
    var ddc := MakeDDerivedTbl(c.dc);
    var dac := MakeDDerivedTbl(c.ac);
    g, d := Coding(cdc, cac), Decoding(ddc, dac, c.use);
  }

  /** The tables of all components are made for the counts of the scan. */
  ghost predicate MadeForScan(comps: seq<Component>, dcTbl: seq<nat>, acTbl: seq<nat>, dc: seq<seq<nat>>,
          ac: seq<seq<nat>>)
    requires |comps| <= |dcTbl| == |acTbl| && Members(dcTbl, |dc|) && Members(acTbl, |ac|)
  {
    forall m :: 0 <= m < |comps| ==> MadeFor(comps[m].dc, dc[dcTbl[m]]) && MadeFor(comps[m].ac, ac[acTbl[m]])
  }

  /** The coder of all components, from tables made for the counts of a scan. */
  method DeriveAll(dcTbl: seq<nat>, acTbl: seq<nat>, uses: seq<Use>, dcTables: seq<Table>, acTables: seq<Table>,
          ghost dc: seq<seq<nat>>, ghost ac: seq<seq<nat>>)
    returns (comps: seq<Component>, codings: seq<Coding>, decodings: seq<Decoding>)
    requires |dcTbl| == |acTbl| == |uses| && Members(dcTbl, |dc|) && Members(acTbl, |ac|) && Sized(dc) && Sized(ac)
    requires TablesFor(dcTables, dc, dcTbl) && TablesFor(acTables, ac, acTbl)
    ensures |comps| == |dcTbl| && Codes(codings, comps) && Decodes(decodings, comps)
    ensures MadeForScan(comps, dcTbl, acTbl, dc, ac)
    ensures forall m :: 0 <= m < |comps| ==> comps[m].use == uses[m]
    ensures AllServe(false, codings, dcTbl, dc) && AllServe(true, codings, acTbl, ac)
  {
    hide TableFor, ShortCodes, OptimalFor, Coder, HasCodes, DerivedFrom;
    comps, codings, decodings := [], [], [];
    for m := 0 to |dcTbl|
      invariant |comps| == m && Codes(codings, comps) && Decodes(decodings, comps)
      invariant MadeForScan(comps, dcTbl, acTbl, dc, ac)
      invariant forall k :: 0 <= k < m ==> comps[k].use == uses[k]
      invariant AllServe(false, codings, dcTbl, dc) && AllServe(true, codings, acTbl, ac)
    {
      var c := Component(dcTables[dcTbl[m]], acTables[acTbl[m]], uses[m]);
      var g, d := DeriveTables(c, dc[dcTbl[m]], ac[acTbl[m]]);
      comps, codings, decodings := comps + [c], codings + [g], decodings + [d];
    }
  }

  /** n zeroed count tables. */
  method NewCounts(n: nat) returns (counts: seq<array<nat>>)
    ensures |counts| == n && fresh(counts)
    ensures CountTables(counts)
    ensures forall i :: 0 <= i < n ==> forall v :: 0 <= v < SYMBOLS ==> counts[i][v] == 0
  {
    counts := [];
    while |counts| < n
      invariant |counts| <= n && fresh(counts)
      invariant forall i :: 0 <= i < |counts| ==>
        counts[i].Length == SYMBOLS && forall v :: 0 <= v < SYMBOLS ==> counts[i][v] == 0
      invariant forall i, j :: 0 <= i < j < |counts| ==> counts[i] != counts[j]
    {
      var c := new nat[SYMBOLS](_ => 0);
      counts := counts + [c];
    }
  }

  const NUM_HUFF_TBLS := 4

  /** The blocks that the decoder is to show. */
  ghost predicate AllShown(uses: seq<Use>, members: seq<nat>, mcus: seq<seq<Block>>, result: seq<seq<Block>>) {
    && |result| == |mcus|
    && forall j :: 0 <= j < |mcus| ==>
      && |result[j]| == |mcus[j]| == |members|
      && forall i :: 0 <= i < |members| ==>
        members[i] < |uses| && result[j][i] == Shown(uses[members[i]], mcus[j][i])
  }

  /** What every block shows: all coefficients, the DC coefficient, or nothing. */
  lemma AllShownIs(uses: seq<Use>, members: seq<nat>, mcus: seq<seq<Block>>, result: seq<seq<Block>>, j: nat, i: nat)
    requires Shaped(mcus, |members|) && AllShown(uses, members, mcus, result) && j < |mcus| && i < |members|
    ensures |result| == |mcus| && |result[j]| == |mcus[j]| == |members| && members[i] < |uses|
    ensures uses[members[i]] == Full ==> result[j][i] == mcus[j][i]
    ensures uses[members[i]] == DcOnly ==>
      result[j][i][0] == mcus[j][i][0] && forall k :: 1 <= k < 64 ==> result[j][i][k] == 0
    ensures uses[members[i]] == Unneeded ==> forall k :: 0 <= k < 64 ==> result[j][i][k] == 0
  {
    hide Shown;
    assert |result[j]| == |mcus[j]|;
    assert members[i] < |uses| && result[j][i] == Shown(uses[members[i]], mcus[j][i]);
    ShownIs(uses[members[i]], mcus[j][i]);
  }

  lemma {:induction false} ShownPointwise(comps: seq<Component>, uses: seq<Use>, members: seq<nat>,
          mcus: seq<seq<Block>>)
    requires Members(members, |comps|) && Shaped(mcus, |members|) && |comps| == |uses|
    requires forall m :: 0 <= m < |comps| ==> comps[m].use == uses[m]
    ensures AllShown(uses, members, mcus, ScanShown(comps, members, mcus, 0))
  {
    hide McuShown, ScanShown, Shown;
    ScanShownAt(comps, members, mcus, 0, 0);
    var result := ScanShown(comps, members, mcus, 0);
    forall j | 0 <= j < |mcus|
      ensures |result[j]| == |mcus[j]|
      ensures forall i :: 0 <= i < |members| ==> result[j][i] == Shown(uses[members[i]], mcus[j][i])
    {
      ScanShownAt(comps, members, mcus, 0, j);
      assert result[j - 0] == McuShown(comps, members, mcus[j], 0);
      McuShownAt(comps, members, mcus[j], 0, 0);
      forall i | 0 <= i < |members|
        ensures result[j][i] == Shown(uses[members[i]], mcus[j][i])
      {
        McuShownAt(comps, members, mcus[j], 0, i);
        assert McuShown(comps, members, mcus[j], 0)[i - 0] == Shown(comps[members[i]].use, mcus[j][i]);
      }
    }
  }

  /** The statistics of a scan. */
  method Gather(members: seq<nat>, dcTbl: seq<nat>, acTbl: seq<nat>, mcus: seq<seq<Block>>) returns (g: HuffGatherer)
    requires |dcTbl| == |acTbl| && Members(dcTbl, NUM_HUFF_TBLS) && Members(acTbl, NUM_HUFF_TBLS)
    requires Members(members, |dcTbl|) && Shaped(mcus, |members|) && ScanCoefs(mcus)
    ensures fresh(g) && fresh(g.dcCounts) && fresh(g.acCounts) && g.Valid()
    ensures g.members == members && g.dcTbl == dcTbl && g.acTbl == acTbl
    ensures |g.dcCounts| == |g.acCounts| == NUM_HUFF_TBLS
    ensures ScanCounted(false, dcTbl, members, mcus, Snapshot(g.dcCounts))
    ensures ScanCounted(true, acTbl, members, mcus, Snapshot(g.acCounts))
  {
    hide ScanCounted, CountArrays, ScanCoefs, NoPredictions;
    var dcCounts := NewCounts(NUM_HUFF_TBLS);
    var acCounts := NewCounts(NUM_HUFF_TBLS);
    Apart(dcCounts, acCounts);
    g := new HuffGatherer(members, dcTbl, acTbl, dcCounts, acCounts);
    ZeroPredictions(|dcTbl|);
    GatherScan(g, mcus);
  }

  /** Huffman's algorithm needs no code word of more than 32 bits for any AC table. */
  ghost predicate ScanShort(acTbl: seq<nat>, members: seq<nat>, mcus: seq<seq<Block>>)
    requires Members(members, |acTbl|) && Shaped(mcus, |members|)
  {
    forall m :: 0 <= m < |acTbl| ==> ShortCodes(CountsOf(true, acTbl, members, mcus, acTbl[m]))
  }

  /** A scan of up to 146467 blocks never leads to code words that are too long. */
  lemma ScanShortIf(acTbl: seq<nat>, members: seq<nat>, mcus: seq<seq<Block>>, ac: seq<seq<nat>>)
    requires Members(members, |acTbl|) && Shaped(mcus, |members|) && Members(acTbl, |ac|)
    requires ScanCounted(true, acTbl, members, mcus, ac) && 63 * (|mcus| * |members|) < 9227464
    ensures ScanShort(acTbl, members, mcus)
  {
    hide ScanCounted, ShortCodes, Unlimited, CountsOf, Sum;
    forall m | 0 <= m < |acTbl|
      ensures ShortCodes(CountsOf(true, acTbl, members, mcus, acTbl[m]))
    {
      CountsAre(true, acTbl, members, mcus, ac, acTbl[m]);
      SumStep(ac[acTbl[m]]);
      FewCounts(ac[acTbl[m]]);
    }
  }

  /** All the tables that were made are for the counts of the scan. */
  lemma ShortSince(acTbl: seq<nat>, members: seq<nat>, mcus: seq<seq<Block>>, acTables: seq<Table>, ac: seq<seq<nat>>)
    requires Members(members, |acTbl|) && Shaped(mcus, |members|)
    requires ScanCounted(true, acTbl, members, mcus, ac) && TablesFor(acTables, ac, acTbl)
    ensures ScanShort(acTbl, members, mcus)
  {
    hide ScanCounted, TableFor, ShortCodes, CountsOf, OptimalFor;
    forall m | 0 <= m < |acTbl|
      ensures ShortCodes(CountsOf(true, acTbl, members, mcus, acTbl[m]))
    {
      CountsAre(true, acTbl, members, mcus, ac, acTbl[m]);
    }
  }

  /** If some table cannot be made, it is an AC table. */
  lemma LongSince(dcTbl: seq<nat>, acTbl: seq<nat>, members: seq<nat>, mcus: seq<seq<Block>>, dc: seq<seq<nat>>,
          ac: seq<seq<nat>>)
    requires |dcTbl| == |acTbl| && Members(members, |dcTbl|) && Shaped(mcus, |members|) && ScanCoefs(mcus)
    requires ScanCounted(false, dcTbl, members, mcus, dc) && ScanCounted(true, acTbl, members, mcus, ac)
    requires SomeTooLong(dc, ac, dcTbl, acTbl)
    ensures !ScanShort(acTbl, members, mcus)
  {
    hide ScanCounted, ShortCodes, CountsOf, ScanCoefs;
    var m :| 0 <= m < |dcTbl| && (TooLong(dc, dcTbl[m]) || TooLong(ac, acTbl[m]));
    if TooLong(dc, dcTbl[m]) {
      CountsAre(false, dcTbl, members, mcus, dc, dcTbl[m]);
      DcCounts(dcTbl, members, mcus, dcTbl[m]);
      assert false;
    }
    CountsAre(true, acTbl, members, mcus, ac, acTbl[m]);
  }

  /** Every component has its tables made for what the scan needs of them. */
  ghost predicate TablesMade(comps: seq<Component>, dcTbl: seq<nat>, acTbl: seq<nat>, members: seq<nat>,
          mcus: seq<seq<Block>>)
    requires |comps| == |dcTbl| == |acTbl| && Members(members, |dcTbl|) && Shaped(mcus, |members|)
  {
    forall m :: 0 <= m < |comps| ==>
      && MadeFor(comps[m].dc, CountsOf(false, dcTbl, members, mcus, dcTbl[m]))
      && MadeFor(comps[m].ac, CountsOf(true, acTbl, members, mcus, acTbl[m]))
  }

  lemma TablesMadeIf(comps: seq<Component>, dcTbl: seq<nat>, acTbl: seq<nat>, members: seq<nat>,
          mcus: seq<seq<Block>>, dc: seq<seq<nat>>, ac: seq<seq<nat>>)
    requires |comps| == |dcTbl| == |acTbl| && Members(members, |dcTbl|) && Shaped(mcus, |members|)
    requires Members(dcTbl, |dc|) && Members(acTbl, |ac|) && MadeForScan(comps, dcTbl, acTbl, dc, ac)
    requires ScanCounted(false, dcTbl, members, mcus, dc) && ScanCounted(true, acTbl, members, mcus, ac)
    ensures TablesMade(comps, dcTbl, acTbl, members, mcus)
  {
    hide ScanCounted, MadeFor, CountsOf;
    forall m | 0 <= m < |comps|
      ensures MadeFor(comps[m].dc, CountsOf(false, dcTbl, members, mcus, dcTbl[m]))
      ensures MadeFor(comps[m].ac, CountsOf(true, acTbl, members, mcus, acTbl[m]))
    {
      CountsAre(false, dcTbl, members, mcus, dc, dcTbl[m]);
      CountsAre(true, acTbl, members, mcus, ac, acTbl[m]);
    }
  }

  /** Where the DC differences fit, the decoder can use the tables. */
  lemma {:induction false} UsableIf(comps: seq<Component>, dcTbl: seq<nat>, acTbl: seq<nat>, members: seq<nat>,
          mcus: seq<seq<Block>>)
    requires |comps| == |dcTbl| == |acTbl| && Members(members, |dcTbl|) && Shaped(mcus, |members|) && ScanCoefs(mcus)
    requires TablesMade(comps, dcTbl, acTbl, members, mcus) && ScanDcFits(members, mcus, NoPredictions(|dcTbl|), 0)
    ensures AllUsable(comps)
  {
    hide CountsOf, ScanDcFits, NoPredictions, ScanCoefs, ShortCodes, OptimalFor, Used, Listed, PrefixCode, SparesOnes;
    forall m | 0 <= m < |comps|
      ensures Usable(comps[m])
    {
      DcCounts(dcTbl, members, mcus, dcTbl[m]);
      DcListed(comps[m].dc, CountsOf(false, dcTbl, members, mcus, dcTbl[m]));
    }
  }

  /** The first pass and the tables it leads to. They are optimal for the scan as far as
      no length had to be limited, and with them the scan can be encoded. */
  method FirstPass(members: seq<nat>, dcTbl: seq<nat>, acTbl: seq<nat>, uses: seq<Use>, mcus: seq<seq<Block>>)
    returns (ok: bool, comps: seq<Component>, codings: seq<Coding>, decodings: seq<Decoding>)
    requires |dcTbl| == |acTbl| == |uses| && Members(dcTbl, NUM_HUFF_TBLS) && Members(acTbl, NUM_HUFF_TBLS)
    requires Members(members, |uses|) && EveryComponent(members, |uses|)
    requires mcus != [] && Shaped(mcus, |members|) && AllEncodable(mcus) && 63 * (|mcus| * |members|) < MAX_COUNT
    requires FewAcSymbols(acTbl, members, mcus)
    ensures ok <==> ScanShort(acTbl, members, mcus)
    ensures 63 * (|mcus| * |members|) < 9227464 ==> ok
    ensures ok ==> |comps| == |uses| && Codes(codings, comps) && Decodes(decodings, comps)
    ensures ok ==> TablesMade(comps, dcTbl, acTbl, members, mcus)
    ensures ok ==> forall m :: 0 <= m < |comps| ==> comps[m].use == uses[m]
    ensures ok ==> |codings| == |uses| && ScanCoded(codings, members, mcus, NoPredictions(|uses|), 0)
  {
    hide *;
    comps, codings, decodings := [], [], [];
    EncodableCoefs(mcus);
    var g := Gather(members, dcTbl, acTbl, mcus);
    ghost var dc, ac := Snapshot(g.dcCounts), Snapshot(g.acCounts);
    CountsUsable(false, dcTbl, members, mcus, dc);
    CountsUsable(true, acTbl, members, mcus, ac);
    if 63 * (|mcus| * |members|) < 9227464 {
      ScanShortIf(acTbl, members, mcus, ac);
    }
    var dcTables, acTables;
    ok, dcTables, acTables := FinishPassGather(g);
    if !ok {
      LongSince(dcTbl, acTbl, members, mcus, dc, ac);
      return;
    }
    ShortSince(acTbl, members, mcus, acTables, ac);
    comps, codings, decodings := DeriveAll(dcTbl, acTbl, uses, dcTables, acTables, dc, ac);
    TablesMadeIf(comps, dcTbl, acTbl, members, mcus, dc, ac);
    SameCount(codings, comps);
    CountsServed(false, codings, dcTbl, members, mcus, dc);
    CountsServed(true, codings, acTbl, members, mcus, ac);
    ScanServedCoded(codings, dcTbl, acTbl, members, mcus, NoPredictions(|dcTbl|), 0);
  }

  ghost predicate SmallDc(mcu: seq<Block>) {
    forall i :: 0 <= i < |mcu| ==> -0x4000 <= mcu[i][0] < 0x4000
  }

  ghost predicate SmallPredictions(last: seq<int>) {
    forall m :: 0 <= m < |last| ==> -0x4000 <= last[m] < 0x4000
  }

  lemma {:induction false} McuDcFitsIf(members: seq<nat>, mcu: seq<Block>, last: seq<int>, i: nat)
    requires |mcu| == |members| && Members(members, |last|) && i <= |mcu| && SmallDc(mcu) && SmallPredictions(last)
    ensures McuDcFits(members, mcu, last, i) && SmallPredictions(McuLast(members, mcu, last, i))
    decreases |mcu| - i
  {
    if i < |mcu| {
      McuDcFitsIf(members, mcu, last[members[i] := mcu[i][0]], i + 1);
    }
  }

  lemma {:induction false} ScanDcFitsIf(members: seq<nat>, mcus: seq<seq<Block>>, last: seq<int>, i: nat)
    requires Members(members, |last|) && Shaped(mcus, |members|) && i <= |mcus| && SmallPredictions(last)
    requires forall j :: 0 <= j < |mcus| ==> SmallDc(mcus[j])
    ensures ScanDcFits(members, mcus, last, i)
    decreases |mcus| - i
  {
    hide McuDcFits, McuLast, SmallDc, SmallPredictions, Members;
    if i < |mcus| {
      McuDcFitsIf(members, mcus[i], last, 0);
      ScanDcFitsIf(members, mcus, McuLast(members, mcus[i], last, 0), i + 1);
    }
  }

  /** What the passes ask of the blocks is met by all blocks of 16-bit coefficients without
      -32768 whose DC coefficients have 15 bits, more than any JPEG file needs. */
  lemma {:induction false} OrdinaryBlocks(acTbl: seq<nat>, members: seq<nat>, mcus: seq<seq<Block>>)
    requires forall i :: 0 <= i < |members| ==> members[i] < |acTbl|
    requires forall j :: 0 <= j < |mcus| ==> |mcus[j]| == |members|
    requires forall j, i, k :: 0 <= j < |mcus| && 0 <= i < |mcus[j]| && 1 <= k < 64 ==>
      -0x8000 < mcus[j][i][k] < 0x8000
    requires forall j, i :: 0 <= j < |mcus| && 0 <= i < |mcus[j]| ==> -0x4000 <= mcus[j][i][0] < 0x4000
    ensures Members(members, |acTbl|) && Shaped(mcus, |members|) && AllEncodable(mcus) && ScanNoneLost(mcus, 0)
    ensures FewAcSymbols(acTbl, members, mcus) && ScanDcFits(members, mcus, NoPredictions(|acTbl|), 0)
  {
    hide FewAcSymbols, ScanDcFits, AllEncodable, ScanNoneLost;
    NoneLostIs(mcus);
    forall j | 0 <= j < |mcus|
      ensures AllCoefs(mcus[j]) && SmallDc(mcus[j])
    {
      forall i | 0 <= i < |mcus[j]|
        ensures Coefs(mcus[j][i])
      {
        assert -0x8000 <= mcus[j][i][0] < 0x8000;
      }
    }
    EncodableIf(mcus);
    FewAcSymbolsIf(acTbl, members, mcus);
    ScanDcFitsIf(members, mcus, NoPredictions(|acTbl|), 0);
  }

  /** The scan came through, or a code word longer than 32 bits came out. */
  datatype Outcome = Through(mcus: seq<seq<Block>>) | CodeTooLong

  /** Main theorem: count the symbols of a scan, make optimal tables, encode with them
      and decode the bytes. No symbol ever lacks a code word. If no AC coefficient is
      -32768, every block shows what the use of its component calls for; with all
      components wanted, the blocks come back exactly then. */
  method TwoPass(members: seq<nat>, dcTbl: seq<nat>, acTbl: seq<nat>, uses: seq<Use>, mcus: seq<seq<Block>>,
          marker: UInt8, tail: seq<UInt8>)
    returns (r: Outcome)
    requires |dcTbl| == |acTbl| == |uses| && Members(dcTbl, NUM_HUFF_TBLS) && Members(acTbl, NUM_HUFF_TBLS)
    requires Members(members, |uses|) && EveryComponent(members, |uses|)
    requires mcus != [] && Shaped(mcus, |members|) && AllEncodable(mcus) && 63 * (|mcus| * |members|) < MAX_COUNT
    requires FewAcSymbols(acTbl, members, mcus) && ScanDcFits(members, mcus, NoPredictions(|uses|), 0)
    requires marker != 0 && marker != 0xff
    ensures r.Through? <==> ScanShort(acTbl, members, mcus)
    ensures 63 * (|mcus| * |members|) < 9227464 ==> r.Through?
    ensures r.Through? && ScanNoneLost(mcus, 0) ==> AllShown(uses, members, mcus, r.mcus)
    ensures r.Through? && (forall m :: 0 <= m < |uses| ==> uses[m] == Full) ==>
      (r.mcus == mcus <==>
        forall j, i, k :: 0 <= j < |mcus| && 0 <= i < |mcus[j]| && 1 <= k < 64 ==> mcus[j][i][k] != -0x8000)
  {
    hide ScanShort, Codes, Decodes, AllUsable, ScanCoded, ScanShown, AllShown, EveryComponent, AllEncodable;
    hide ScanNoneLost, TablesMade, FewAcSymbols, ScanDcFits, ScanCoefs;
    var ok, comps, codings, decodings := FirstPass(members, dcTbl, acTbl, uses, mcus);
    if !ok {
      return CodeTooLong;
    }
    EncodableCoefs(mcus);
    UsableIf(comps, dcTbl, acTbl, members, mcus);
    var result;
    ok, result := ThereAndBack(codings, decodings, comps, members, mcus, marker, tail);
    assert ok;
    ShownPointwise(comps, uses, members, mcus);
    return Through(result);
  }

  lemma Apart(dc: seq<array<nat>>, ac: seq<array<nat>>)
    requires CountTables(dc) && CountTables(ac)
    requires forall i, j :: 0 <= i < |dc| && 0 <= j < |ac| ==> dc[i] != ac[j]
    ensures CountArrays(dc, ac)
  {
  }

  lemma ZeroPredictions(n: nat)
    ensures NoPredictions(n) == seq(n, _ => 0)
  {
  }

  lemma CountsUsable(ac: bool, tbl: seq<nat>, members: seq<nat>, mcus: seq<seq<Block>>, now: seq<seq<nat>>)
    requires Members(members, |tbl|) && Shaped(mcus, |members|) && AllEncodable(mcus) && mcus != []
    requires EveryComponent(members, |tbl|) && Members(tbl, |now|) && 63 * (|mcus| * |members|) < MAX_COUNT
    requires ScanCounted(ac, tbl, members, mcus, now) && (ac ==> FewAcSymbols(tbl, members, mcus))
    ensures Sized(now) && AllCountable(now, tbl)
  {
    assert Sized(now);
    hide ScanCounted, Countable, AllEncodable, Sum, CountsOf, FewAcSymbols;
    forall m | 0 <= m < |tbl|
      ensures Countable(now[tbl[m]])
    {
      CountsAre(ac, tbl, members, mcus, now, tbl[m]);
      CountableIf(ac, tbl, members, mcus, m);
    }
  }
}
