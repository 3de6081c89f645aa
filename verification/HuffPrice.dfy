/** What a scan costs: the number of bits that the encoder of jchuff.c writes for it, in
    terms of the symbols that the statistics pass counts, and the proof that no other
    Huffman tables would make it noticeably shorter than those made from the counts. */
module HuffPrice {
  import opened Bits
  import opened HuffTable
  import opened HuffDerived
  import opened HuffBlock
  import opened HuffCodec
  import opened HuffScan
  import opened HuffCoder
  import opened HuffCounts
  import opened HuffGather
  import opened HuffLengths
  import opened HuffLimit
  import opened HuffOptimal
  import opened HuffTwoPass

  // ----- adding up costs -----

  ghost function Plus(f: seq<nat>, g: seq<nat>): (h: seq<nat>)
    requires |f| == |g|
    ensures |h| == |f|
  {
    seq(|f|, v requires 0 <= v < |f| => f[v] + g[v])
  }

  lemma BillAdds(a: nat, b: nat, s: nat)
    ensures Bill(a + b, s) == Bill(a, s) + Bill(b, s) && Bill(0, s) == 0 && Bill(1, s) == s
  {
  }

  lemma {:induction false} CostPlus(f: seq<nat>, g: seq<nat>, size: seq<nat>, n: nat)
    requires n <= |f| == |g| == |size|
    ensures Cost(Plus(f, g), size, n) == Cost(f, size, n) + Cost(g, size, n)
  {
    hide Bill;
    if n > 0 {
      CostPlus(f, g, size, n - 1);
      BillAdds(f[n - 1], g[n - 1], size[n - 1]);
    }
  }

  lemma {:induction false} CostOfNone(f: seq<nat>, size: seq<nat>, n: nat)
    requires n <= |f| == |size| && forall v :: 0 <= v < |f| ==> f[v] == 0
    ensures Cost(f, size, n) == 0
  {
    hide Bill;
    if n > 0 {
      CostOfNone(f, size, n - 1);
      BillAdds(0, 0, size[n - 1]);
    }
  }

  /** m more uses of the symbol v. */
  lemma {:induction false} CostMore(f: seq<nat>, size: seq<nat>, v: nat, m: nat)
    requires |f| == |size| == SYMBOLS && v < SYMBOLS
    ensures Cost(f[v := f[v] + m], size, SYMBOLS) == Cost(f, size, SYMBOLS) + Bill(m, size[v])
  {
    hide Bill, Cost;
    assert size[v := size[v]] == size;
    CostUpdate(f, size, v, f[v] + m, size[v], SYMBOLS);
    BillAdds(f[v], m, size[v]);
  }

  // ----- the bits of a block -----

  /** size has the lengths of the code words that c has. */
  ghost predicate SizesOf(c: CTable, size: seq<nat>) {
    |size| == SYMBOLS && forall v: nat :: HasCode(c, v) ==> v < SYMBOLS && size[v] == |CodeBits(c, v)|
  }

  ghost function AcCounts(b: Block, k: nat, r: nat): (f: seq<nat>)
    ensures |f| == SYMBOLS
  {
    seq(SYMBOLS, v requires 0 <= v < SYMBOLS => AcUses(b, k, r, v))
  }

  /** The value bits of the coefficients from zigzag position k on, which no table changes. */
  function AcExtra(b: Block, k: nat): nat
    decreases DCTSIZE2 - k
  {
    if k >= DCTSIZE2 then 0 else NBits(b[NaturalOrder(k)]) + AcExtra(b, k + 1)
  }

  lemma {:induction false} ZrlLength(c: CTable, m: nat)
    ensures |ZrlBits(c, m)| == Bill(m, |CodeBits(c, 0xf0)|)
  {
    hide CodeBits, Bill;
    if m > 0 {
      ZrlLength(c, m - 1);
      BillAdds(m - 1, 1, |CodeBits(c, 0xf0)|);
    } else {
      BillAdds(0, 0, |CodeBits(c, 0xf0)|);
    }
  }

  lemma AcCountsNext(b: Block, k: nat, r: nat)
    requires Indexable(b, k, r)
    ensures k >= DCTSIZE2 ==> forall v :: 0 <= v < SYMBOLS ==> AcCounts(b, k, r)[v] == if r > 0 && v == 0 then 1 else 0
    ensures k < DCTSIZE2 && b[NaturalOrder(k)] == 0 ==> AcCounts(b, k, r) == AcCounts(b, k + 1, r + 1)
    ensures k < DCTSIZE2 && b[NaturalOrder(k)] != 0 ==>
      var s, f := 16 * (r % 16) + NBits(b[NaturalOrder(k)]), AcCounts(b, k + 1, 0);
      && s < 256 && Indexable(b, k + 1, 0)
      && var g := f[0xf0 := f[0xf0] + r / 16];
      AcCounts(b, k, r) == g[s := g[s] + 1]
    ensures k < DCTSIZE2 && b[NaturalOrder(k)] == 0 ==> Indexable(b, k + 1, r + 1)
  {
    hide NaturalOrder, NBits;
  }

  /** One more non-zero coefficient. */
  lemma {:induction false} CoefCost(c: CTable, f: seq<nat>, size: seq<nat>, r: nat, x: int)
    requires |f| == SYMBOLS && SizesOf(c, size) && x != 0 && 16 * (r % 16) + NBits(x) < 256
    requires (r >= 16 ==> HasCode(c, 0xf0)) && HasCode(c, 16 * (r % 16) + NBits(x))
    ensures var g, s := f[0xf0 := f[0xf0] + r / 16], 16 * (r % 16) + NBits(x);
      |ZrlBits(c, r / 16) + CoefBits(c, r % 16, x)| + Cost(f, size, SYMBOLS)
      == Cost(g[s := g[s] + 1], size, SYMBOLS) + NBits(x)
  {
    assert size[16 * (r % 16) + NBits(x)] == |CodeBits(c, 16 * (r % 16) + NBits(x))|;
    assert r >= 16 ==> size[0xf0] == |CodeBits(c, 0xf0)|;
    hide NBits, Cost, Bill, CodeBits, HasCode, ZrlBits, SizesOf, ValueBits;
    var s := 16 * (r % 16) + NBits(x);
    ZrlLength(c, r / 16);
    NoBitsForZero(x);
    CostMore(f, size, 0xf0, r / 16);
    CostMore(f[0xf0 := f[0xf0] + r / 16], size, s, 1);
    BillAdds(0, 0, size[s]);
    BillAdds(0, 0, size[0xf0]);
    BillAdds(0, 0, |CodeBits(c, 0xf0)|);
  }

  /** The end of a block. */
  lemma {:induction false} EndCost(c: CTable, f: seq<nat>, size: seq<nat>, r: nat)
    requires |f| == SYMBOLS && SizesOf(c, size) && (r > 0 ==> HasCode(c, 0))
    requires forall v :: 0 <= v < SYMBOLS ==> f[v] == if r > 0 && v == 0 then 1 else 0
    ensures Cost(f, size, SYMBOLS) == |if r > 0 then CodeBits(c, 0) else []|
  {
    assert r > 0 ==> size[0] == |CodeBits(c, 0)|;
    hide Cost, Bill, CodeBits, HasCode, SizesOf;
    var none := seq(SYMBOLS, _ => 0);
    CostOfNone(none, size, SYMBOLS);
    CostMore(none, size, 0, 1);
    BillAdds(0, 0, size[0]);
    assert f == if r > 0 then none[0 := none[0] + 1] else none;
  }

  lemma {:induction false} ExtraStep(b: Block, k: nat)
    ensures AcExtra(b, k) == if k >= DCTSIZE2 then 0 else NBits(b[NaturalOrder(k)]) + AcExtra(b, k + 1)
    ensures NBits(0) == 0
  {
    hide NaturalOrder;
  }

  /** The AC code of a block takes what its counts cost, and the value bits. */
  lemma {:induction false} AcLength(c: CTable, b: Block, k: nat, r: nat, size: seq<nat>)
    requires AcCoded(c, b, k, r) && Coefs(b) && Indexable(b, k, r) && SizesOf(c, size) && k <= DCTSIZE2
    ensures |AcBits(c, b, k, r)| == Cost(AcCounts(b, k, r), size, SYMBOLS) + AcExtra(b, k)
    decreases DCTSIZE2 - k
  {
    hide NaturalOrder, NBits, AcCounts, Cost, Bill, CodeBits, HasCode, Indexable, ZrlBits, CoefBits, SizesOf, Coefs;
    hide AcBits, AcCoded, AcExtra;
    AcCountsNext(b, k, r);
    ExtraStep(b, k);
    if k == DCTSIZE2 {
      NoMoreCoefs(c, b, k, r);
      EndCost(c, AcCounts(b, k, r), size, r);
    } else {
      NextCoef(c, b, k, r);
      if b[NaturalOrder(k)] == 0 {
        AcLength(c, b, k + 1, r + 1, size);
      } else {
        AcLength(c, b, k + 1, 0, size);
        CoefCost(c, AcCounts(b, k + 1, 0), size, r, b[NaturalOrder(k)]);
      }
    }
  }

  ghost function BlockCounts(ac: bool, b: Block, last: int): (f: seq<nat>)
    ensures |f| == SYMBOLS
  {
    seq(SYMBOLS, v requires 0 <= v < SYMBOLS => BlockUses(ac, b, last, v))
  }

  function BlockExtra(b: Block, last: int): nat {
    NBits(b[0] - last) + AcExtra(b, 1)
  }

  lemma {:induction false} DcLength(c: CTable, b: Block, last: int, size: seq<nat>)
    requires HasCode(c, NBits(b[0] - last)) && SizesOf(c, size)
    ensures |DcBits(c, b[0] - last)| == Cost(BlockCounts(false, b, last), size, SYMBOLS) + NBits(b[0] - last)
  {
    var n := NBits(b[0] - last);
    assert n < SYMBOLS && size[n] == |CodeBits(c, n)|;
    var none := seq(SYMBOLS, _ => 0);
    assert BlockCounts(false, b, last) == none[n := none[n] + 1];
    hide NBits, Cost, Bill, CodeBits, HasCode, SizesOf, BlockCounts, ValueBits;
    CostOfNone(none, size, SYMBOLS);
    CostMore(none, size, n, 1);
    BillAdds(0, 0, size[n]);
    NoBitsForZero(b[0] - last);
  }

  lemma {:induction false} BlockLength(g: Coding, b: Block, last: int, dcSize: seq<nat>, acSize: seq<nat>)
    requires BlockCoded(g.dc, g.ac, b, last) && Coefs(b) && Indexable(b, 1, 0)
    requires SizesOf(g.dc, dcSize) && SizesOf(g.ac, acSize)
    ensures |BlockBits(g.dc, g.ac, b, last)|
         == Cost(BlockCounts(false, b, last), dcSize, SYMBOLS) + Cost(BlockCounts(true, b, last), acSize, SYMBOLS)
            + BlockExtra(b, last)
  {
    assert BlockCounts(true, b, last) == AcCounts(b, 1, 0);
    hide NBits, Cost, HasCode, SizesOf, BlockCounts, AcCounts, AcBits, DcBits, AcCoded, Coefs, Indexable, AcExtra;
    DcLength(g.dc, b, last, dcSize);
    AcLength(g.ac, b, 1, 0, acSize);
  }

  // ----- the bits of a scan -----

  /** What the counts of all tables cost with the sizes of all tables. */
  ghost function Total(counts: seq<seq<nat>>, sizes: seq<seq<nat>>, n: nat): nat
    requires Sized(counts) && Sized(sizes) && n <= |counts| == |sizes|
  {
    if n == 0 then 0 else Total(counts, sizes, n - 1) + Cost(counts[n - 1], sizes[n - 1], SYMBOLS)
  }

  lemma {:induction false} TotalPlus(a: seq<seq<nat>>, b: seq<seq<nat>>, c: seq<seq<nat>>, sizes: seq<seq<nat>>,
          n: nat)
    requires Sized(a) && Sized(b) && Sized(c) && Sized(sizes) && n <= |a| == |b| == |c| == |sizes|
    requires forall k :: 0 <= k < n ==> c[k] == Plus(a[k], b[k])
    ensures Total(c, sizes, n) == Total(a, sizes, n) + Total(b, sizes, n)
  {
    hide Cost, Plus;
    if n > 0 {
      TotalPlus(a, b, c, sizes, n - 1);
      CostPlus(a[n - 1], b[n - 1], sizes[n - 1], SYMBOLS);
    }
  }

  /** Only the counts of the table k differ, by f. */
  lemma {:induction false} TotalOne(a: seq<seq<nat>>, c: seq<seq<nat>>, f: seq<nat>, k: nat, sizes: seq<seq<nat>>,
          n: nat)
    requires Sized(a) && Sized(c) && Sized(sizes) && n <= |a| == |c| == |sizes| && |f| == SYMBOLS && k < |a|
    requires c[k] == Plus(f, a[k]) && forall j :: 0 <= j < |a| && j != k ==> c[j] == a[j]
    ensures Total(c, sizes, n) == Total(a, sizes, n) + if k < n then Cost(f, sizes[k], SYMBOLS) else 0
  {
    hide Cost, Plus;
    if n > 0 {
      TotalOne(a, c, f, k, sizes, n - 1);
      if n - 1 == k {
        CostPlus(f, a[k], sizes[k], SYMBOLS);
      }
    }
  }

  lemma {:induction false} TotalOfNone(a: seq<seq<nat>>, sizes: seq<seq<nat>>, n: nat)
    requires Sized(a) && Sized(sizes) && n <= |a| == |sizes|
    requires forall k, v :: 0 <= k < |a| && 0 <= v < SYMBOLS ==> a[k][v] == 0
    ensures Total(a, sizes, n) == 0
  {
    hide Cost;
    if n > 0 {
      TotalOfNone(a, sizes, n - 1);
      CostOfNone(a[n - 1], sizes[n - 1], SYMBOLS);
    }
  }

  /** The tables of the codings have the code lengths in sizes. */
  ghost predicate AllSizes(ac: bool, cs: seq<Coding>, tbl: seq<nat>, sizes: seq<seq<nat>>) {
    && |cs| == |tbl| && Members(tbl, |sizes|) && Sized(sizes)
    && forall m :: 0 <= m < |cs| ==> SizesOf(CodingOf(cs[m], ac), sizes[tbl[m]])
  }

  /** The counts of the blocks from i on, table by table. */
  ghost function McuCounts(ac: bool, tbl: seq<nat>, members: seq<nat>, mcu: seq<Block>, last: seq<int>, i: nat,
          tables: nat): (c: seq<seq<nat>>)
    requires |tbl| == |last| && |mcu| == |members| && Members(members, |tbl|) && i <= |mcu|
    ensures |c| == tables && Sized(c)
  {
    seq(tables, n requires 0 <= n < tables =>
      seq(SYMBOLS, v requires 0 <= v < SYMBOLS => McuUses(ac, tbl, members, mcu, last, i, n, v)))
  }

  /** What the counts of the blocks from i on cost. */
  ghost function McuCost(ac: bool, tbl: seq<nat>, members: seq<nat>, mcu: seq<Block>, last: seq<int>, i: nat,
          sizes: seq<seq<nat>>): nat
    requires |tbl| == |last| && |mcu| == |members| && Members(members, |tbl|) && i <= |mcu| && Sized(sizes)
  {
    Total(McuCounts(ac, tbl, members, mcu, last, i, |sizes|), sizes, |sizes|)
  }

  function McuExtra(members: seq<nat>, mcu: seq<Block>, last: seq<int>, i: nat): nat
    requires |mcu| == |members| && Members(members, |last|) && i <= |mcu|
    decreases |mcu| - i
  {
    if i == |mcu| then 0
    else
      BlockExtra(mcu[i], last[members[i]]) + McuExtra(members, mcu, last[members[i] := mcu[i][0]], i + 1)
  }

  lemma {:induction false} McuCountsNext(ac: bool, tbl: seq<nat>, members: seq<nat>, mcu: seq<Block>, last: seq<int>,
          i: nat, sizes: seq<seq<nat>>)
    requires |tbl| == |last| && |mcu| == |members| && Members(members, |tbl|) && i < |mcu|
    requires Members(tbl, |sizes|) && Sized(sizes)
    ensures var m := members[i];
      McuCost(ac, tbl, members, mcu, last, i, sizes)
      == McuCost(ac, tbl, members, mcu, last[m := mcu[i][0]], i + 1, sizes)
         + Cost(BlockCounts(ac, mcu[i], last[m]), sizes[tbl[m]], SYMBOLS)
  {
    hide Total, Cost, BlockUses;
    var m := members[i];
    var c := McuCounts(ac, tbl, members, mcu, last, i, |sizes|);
    var a := McuCounts(ac, tbl, members, mcu, last[m := mcu[i][0]], i + 1, |sizes|);
    var f := BlockCounts(ac, mcu[i], last[m]);
    forall n | 0 <= n < |sizes|
      ensures c[n] == if n == tbl[m] then Plus(f, a[n]) else a[n]
    {
      forall v | 0 <= v < SYMBOLS
        ensures c[n][v] == a[n][v] + if n == tbl[m] then f[v] else 0
      {
      }
    }
    TotalOne(a, c, f, tbl[m], sizes, |sizes|);
  }

  lemma {:induction false} McuStep(cs: seq<Coding>, members: seq<nat>, mcu: seq<Block>, last: seq<int>, i: nat)
    requires |cs| == |last| && |mcu| == |members| && Members(members, |cs|) && i < |mcu|
    requires Encodable(mcu) && McuCoded(cs, members, mcu, last, i)
    ensures var m := members[i];
      var next := last[m := mcu[i][0]];
      && BlockCoded(cs[m].dc, cs[m].ac, mcu[i], last[m]) && Coefs(mcu[i]) && Indexable(mcu[i], 1, 0)
      && McuCoded(cs, members, mcu, next, i + 1)
      && McuBits(cs, members, mcu, last, i)
         == BlockBits(cs[m].dc, cs[m].ac, mcu[i], last[m]) + McuBits(cs, members, mcu, next, i + 1)
      && McuExtra(members, mcu, last, i) == BlockExtra(mcu[i], last[m]) + McuExtra(members, mcu, next, i + 1)
  {
    hide BlockExtra, BlockBits, BlockCoded, Coefs, Indexable;
  }

  lemma SizesAt(cs: seq<Coding>, dcTbl: seq<nat>, acTbl: seq<nat>, dcSizes: seq<seq<nat>>, acSizes: seq<seq<nat>>,
          m: nat)
    requires AllSizes(false, cs, dcTbl, dcSizes) && AllSizes(true, cs, acTbl, acSizes) && m < |cs|
    ensures |cs| == |dcTbl| == |acTbl| && Members(dcTbl, |dcSizes|) && Members(acTbl, |acSizes|)
    ensures SizesOf(cs[m].dc, dcSizes[dcTbl[m]]) && SizesOf(cs[m].ac, acSizes[acTbl[m]])
  {
    hide SizesOf;
    assert CodingOf(cs[m], false) == cs[m].dc && CodingOf(cs[m], true) == cs[m].ac;
  }

  lemma {:induction false} NoBlocksLeft(cs: seq<Coding>, tbl: seq<nat>, members: seq<nat>, mcu: seq<Block>,
          last: seq<int>, sizes: seq<seq<nat>>, ac: bool)
    requires |cs| == |last| == |tbl| && |mcu| == |members| && Members(members, |cs|) && Sized(sizes)
    ensures McuCost(ac, tbl, members, mcu, last, |mcu|, sizes) == 0
    ensures McuBits(cs, members, mcu, last, |mcu|) == [] && McuExtra(members, mcu, last, |mcu|) == 0
  {
    hide Total;
    TotalOfNone(McuCounts(ac, tbl, members, mcu, last, |mcu|, |sizes|), sizes, |sizes|);
  }

  /** What the blocks from i on cost in all. */
  ghost function McuPrice(dcTbl: seq<nat>, acTbl: seq<nat>, members: seq<nat>, mcu: seq<Block>, last: seq<int>,
          i: nat, dcSizes: seq<seq<nat>>, acSizes: seq<seq<nat>>): nat
    requires |dcTbl| == |acTbl| == |last| && |mcu| == |members| && Members(members, |last|) && i <= |mcu|
    requires Sized(dcSizes) && Sized(acSizes)
  {
    McuCost(false, dcTbl, members, mcu, last, i, dcSizes) + McuCost(true, acTbl, members, mcu, last, i, acSizes)
    + McuExtra(members, mcu, last, i)
  }

  lemma {:induction false} BlockPaid(cs: seq<Coding>, dcTbl: seq<nat>, acTbl: seq<nat>, members: seq<nat>,
          mcu: seq<Block>, last: seq<int>, i: nat, dcSizes: seq<seq<nat>>, acSizes: seq<seq<nat>>)
    requires |cs| == |last| && |mcu| == |members| && Members(members, |cs|) && i < |mcu|
    requires AllSizes(false, cs, dcTbl, dcSizes) && AllSizes(true, cs, acTbl, acSizes)
    requires Encodable(mcu) && McuCoded(cs, members, mcu, last, i)
    ensures var m := members[i];
      McuPrice(dcTbl, acTbl, members, mcu, last, i, dcSizes, acSizes)
      == |BlockBits(cs[m].dc, cs[m].ac, mcu[i], last[m])|
         + McuPrice(dcTbl, acTbl, members, mcu, last[m := mcu[i][0]], i + 1, dcSizes, acSizes)
  {
    var m := members[i];
    McuStep(cs, members, mcu, last, i);
    SizesAt(cs, dcTbl, acTbl, dcSizes, acSizes, m);
    hide McuCost, Cost, BlockCounts, BlockExtra, BlockBits, BlockCoded, Coefs, Indexable, SizesOf;
    hide McuCoded, McuBits, Encodable, CodingOf, McuExtra;
    McuCountsNext(false, dcTbl, members, mcu, last, i, dcSizes);
    McuCountsNext(true, acTbl, members, mcu, last, i, acSizes);
    BlockLength(cs[m], mcu[i], last[m], dcSizes[dcTbl[m]], acSizes[acTbl[m]]);
  }

  lemma {:induction false} NothingToPay(cs: seq<Coding>, dcTbl: seq<nat>, acTbl: seq<nat>, members: seq<nat>,
          mcu: seq<Block>, last: seq<int>, dcSizes: seq<seq<nat>>, acSizes: seq<seq<nat>>)
    requires |cs| == |dcTbl| == |acTbl| == |last| && |mcu| == |members| && Members(members, |cs|)
    requires Sized(dcSizes) && Sized(acSizes)
    ensures McuPrice(dcTbl, acTbl, members, mcu, last, |mcu|, dcSizes, acSizes) == 0
    ensures McuBits(cs, members, mcu, last, |mcu|) == []
  {
    hide McuCost, McuBits, McuExtra;
    NoBlocksLeft(cs, dcTbl, members, mcu, last, dcSizes, false);
    NoBlocksLeft(cs, acTbl, members, mcu, last, acSizes, true);
  }

  /** The code of an MCU takes what its counts cost, and the value bits. */
  lemma {:induction false} McuLength(cs: seq<Coding>, dcTbl: seq<nat>, acTbl: seq<nat>, members: seq<nat>,
          mcu: seq<Block>, last: seq<int>, i: nat, dcSizes: seq<seq<nat>>, acSizes: seq<seq<nat>>)
    requires |cs| == |last| && |mcu| == |members| && Members(members, |cs|) && i <= |mcu|
    requires AllSizes(false, cs, dcTbl, dcSizes) && AllSizes(true, cs, acTbl, acSizes)
    requires Encodable(mcu) && McuCoded(cs, members, mcu, last, i)
    ensures |McuBits(cs, members, mcu, last, i)|
         == McuPrice(dcTbl, acTbl, members, mcu, last, i, dcSizes, acSizes)
    decreases |mcu| - i
  {
    hide McuPrice, BlockBits, BlockCoded, Encodable, SizesOf, Coefs, Indexable;
    if i == |mcu| {
      NothingToPay(cs, dcTbl, acTbl, members, mcu, last, dcSizes, acSizes);
    } else {
      BlockPaid(cs, dcTbl, acTbl, members, mcu, last, i, dcSizes, acSizes);
      McuLength(cs, dcTbl, acTbl, members, mcu, last[members[i] := mcu[i][0]], i + 1, dcSizes, acSizes);
    }
  }

  ghost function ScanCounts(ac: bool, tbl: seq<nat>, members: seq<nat>, mcus: seq<seq<Block>>, last: seq<int>, i: nat,
          tables: nat): (c: seq<seq<nat>>)
    requires |tbl| == |last| && Members(members, |tbl|) && Shaped(mcus, |members|) && i <= |mcus|
    ensures |c| == tables && Sized(c)
  {
    seq(tables, n requires 0 <= n < tables =>
      seq(SYMBOLS, v requires 0 <= v < SYMBOLS => ScanUses(ac, tbl, members, mcus, last, i, n, v)))
  }

  /** What the counts of the MCUs from i on cost. */
  ghost function ScanCost(ac: bool, tbl: seq<nat>, members: seq<nat>, mcus: seq<seq<Block>>, last: seq<int>, i: nat,
          sizes: seq<seq<nat>>): nat
    requires |tbl| == |last| && Members(members, |tbl|) && Shaped(mcus, |members|) && i <= |mcus| && Sized(sizes)
  {
    Total(ScanCounts(ac, tbl, members, mcus, last, i, |sizes|), sizes, |sizes|)
  }

  /** The value bits of the MCUs from i on. */
  ghost function ScanExtra(members: seq<nat>, mcus: seq<seq<Block>>, last: seq<int>, i: nat): nat
    requires Members(members, |last|) && Shaped(mcus, |members|) && i <= |mcus|
    decreases |mcus| - i
  {
    if i == |mcus| then 0
    else
      McuExtra(members, mcus[i], last, 0) + ScanExtra(members, mcus, McuLast(members, mcus[i], last, 0), i + 1)
  }

  lemma {:induction false} ScanCountsNext(ac: bool, tbl: seq<nat>, members: seq<nat>, mcus: seq<seq<Block>>,
          last: seq<int>, i: nat, sizes: seq<seq<nat>>)
    requires |tbl| == |last| && Members(members, |tbl|) && Shaped(mcus, |members|) && i < |mcus| && Sized(sizes)
    ensures ScanCost(ac, tbl, members, mcus, last, i, sizes)
         == McuCost(ac, tbl, members, mcus[i], last, 0, sizes)
            + ScanCost(ac, tbl, members, mcus, McuLast(members, mcus[i], last, 0), i + 1, sizes)
  {
    hide Total, McuUses, McuLast;
    var after := McuLast(members, mcus[i], last, 0);
    var c := ScanCounts(ac, tbl, members, mcus, last, i, |sizes|);
    var a := McuCounts(ac, tbl, members, mcus[i], last, 0, |sizes|);
    var b := ScanCounts(ac, tbl, members, mcus, after, i + 1, |sizes|);
    forall n | 0 <= n < |sizes|
      ensures c[n] == Plus(a[n], b[n])
    {
      forall v | 0 <= v < SYMBOLS
        ensures c[n][v] == a[n][v] + b[n][v]
      {
      }
    }
    TotalPlus(a, b, c, sizes, |sizes|);
  }

  /** Main theorem: the code of a scan takes what its counts cost, and the value bits,
      which no table changes. */
  lemma {:induction false} ScanLength(cs: seq<Coding>, dcTbl: seq<nat>, acTbl: seq<nat>, members: seq<nat>,
          mcus: seq<seq<Block>>, last: seq<int>, i: nat, dcSizes: seq<seq<nat>>, acSizes: seq<seq<nat>>)
    requires |cs| == |last| && Members(members, |cs|) && Shaped(mcus, |members|) && i <= |mcus|
    requires AllSizes(false, cs, dcTbl, dcSizes) && AllSizes(true, cs, acTbl, acSizes)
    requires AllEncodable(mcus) && ScanCoded(cs, members, mcus, last, i)
    ensures |ScanBits(cs, members, mcus, last, i)|
         == ScanCost(false, dcTbl, members, mcus, last, i, dcSizes)
            + ScanCost(true, acTbl, members, mcus, last, i, acSizes) + ScanExtra(members, mcus, last, i)
    decreases |mcus| - i
  {
    assert Sized(dcSizes) && Sized(acSizes) && |cs| == |dcTbl| == |acTbl|;
    hide ScanCost, McuCost, McuBits, McuCoded, McuLast, McuExtra, AllSizes, Encodable, Members;
    if i == |mcus| {
      NoMcusLeft(dcTbl, members, mcus, last, dcSizes, false);
      NoMcusLeft(acTbl, members, mcus, last, acSizes, true);
    } else {
      ScanLength(cs, dcTbl, acTbl, members, mcus, McuLast(members, mcus[i], last, 0), i + 1, dcSizes, acSizes);
      ScanCountsNext(false, dcTbl, members, mcus, last, i, dcSizes);
      ScanCountsNext(true, acTbl, members, mcus, last, i, acSizes);
      McuLength(cs, dcTbl, acTbl, members, mcus[i], last, 0, dcSizes, acSizes);
    }
  }

  lemma {:induction false} NoMcusLeft(tbl: seq<nat>, members: seq<nat>, mcus: seq<seq<Block>>, last: seq<int>,
          sizes: seq<seq<nat>>, ac: bool)
    requires |last| == |tbl| && Members(members, |tbl|) && Shaped(mcus, |members|) && Sized(sizes)
    ensures ScanCost(ac, tbl, members, mcus, last, |mcus|, sizes) == 0
  {
    hide Total;
    TotalOfNone(ScanCounts(ac, tbl, members, mcus, last, |mcus|, |sizes|), sizes, |sizes|);
  }

  // ----- what the code words of any table weigh -----

  /** The lengths of the code words of c; the pseudo-symbol is given 16 bits. */
  ghost function Lengths(c: CTable): (size: seq<nat>)
    ensures |size| == SYMBOLS
  {
    seq(SYMBOLS, v requires 0 <= v < SYMBOLS =>
      if v == PSEUDO_SYMBOL then 16 else if HasCode(c, v) then |CodeBits(c, v)| else 0)
  }

  /** Where the table lists the symbol v with the code word that c has for it. */
  ghost function Place(c: CTable, t: Table, v: nat): int
    requires EncodesFor(c, t) && v < 256 && HasCode(c, v) && 1 <= c.ehufsi[v] <= 16
  {
    Start(t, c.ehufsi[v]) + (c.ehufco[v] - FirstCode(t, c.ehufsi[v]))
  }

  lemma {:induction false} PlaceFacts(c: CTable, t: Table, v: nat)
    requires EncodesFor(c, t) && v < 256 && HasCode(c, v)
    ensures 1 <= c.ehufsi[v] <= 16
    ensures var p, l := Place(c, t, v), c.ehufsi[v];
      Start(t, l) <= p < Start(t, l) + t.bits[l] && 0 <= p < 256 && p < Start(t, 17) && t.huffval[p] == v
  {
    assert EntryEncodes(c, t, v);
    hide FirstCode, Start;
    StartMonotone(t, c.ehufsi[v], 17);
  }

  /** v has a code word, and it is listed among the first n. */
  ghost predicate PlacedBelow(c: CTable, t: Table, v: nat, n: nat)
    requires EncodesFor(c, t) && v < 256
  {
    HasCode(c, v) && 1 <= c.ehufsi[v] <= 16 && Place(c, t, v) < n
  }

  /** The lengths of the code words that are listed among the first n. */
  ghost function LengthsBelow(c: CTable, t: Table, n: nat): (size: seq<nat>)
    requires EncodesFor(c, t)
    ensures |size| == SYMBOLS && forall v :: 0 <= v < SYMBOLS ==> size[v] <= 16
  {
    seq(SYMBOLS, v requires 0 <= v < SYMBOLS =>
      if v < 256 && PlacedBelow(c, t, v, n) then c.ehufsi[v] as nat else 0)
  }

  lemma {:induction false} UnitsUpdate(size: seq<nat>, v: nat, l: nat, n: nat)
    requires n <= |size| && v < |size| && l <= MAX_CLEN && forall x :: 0 <= x < |size| ==> size[x] <= MAX_CLEN
    ensures Units(size[v := l], n) == Units(size, n)
      + if v < n then (if l > 0 then Pow2(MAX_CLEN - l) else 0) - (if size[v] > 0 then Pow2(MAX_CLEN - size[v]) else 0)
        else 0
  {
    hide Pow2;
    if n > 0 {
      UnitsUpdate(size, v, l, n - 1);
    }
  }

  lemma {:induction false} NoUnits(size: seq<nat>, n: nat)
    requires n <= |size| && forall x :: 0 <= x < |size| ==> size[x] == 0
    ensures Units(size, n) == 0
  {
    if n > 0 {
      NoUnits(size, n - 1);
    }
  }

  /** At most one more symbol is listed one place further on. */
  lemma {:induction false} OneMorePlace(c: CTable, t: Table, n: nat, l: nat)
    requires EncodesFor(c, t) && n < 256 && 1 <= l <= 16 && Start(t, l) <= n < Start(t, l) + t.bits[l]
    ensures var a, b, v := LengthsBelow(c, t, n), LengthsBelow(c, t, n + 1), t.huffval[n];
      b == a || (a[v] == 0 && b == a[v := l])
  {
    assert |t.bits| == 17 && |t.huffval| == 256;
    hide HasCode, Start, FirstCode, Place, HuffTable.Valid;
    var v := t.huffval[n];
    forall x: nat | x < 256 && HasCode(c, x)
      ensures 1 <= c.ehufsi[x] <= 16 && (Place(c, t, x) == n ==> x == v && c.ehufsi[x] == l)
    {
      PlaceFacts(c, t, x);
      if Place(c, t, x) == n {
        SameLength(t, c.ehufsi[x], l, n);
      }
    }
  }

  lemma {:induction false} SameLength(t: Table, l: nat, m: nat, n: nat)
    requires |t.bits| == 17 && 1 <= l <= 16 && 1 <= m <= 16
    requires Start(t, l) <= n < Start(t, l) + t.bits[l] && Start(t, m) <= n < Start(t, m) + t.bits[m]
    ensures l == m
  {
    hide Start;
    if l < m {
      StartMonotone(t, l, m);
    } else if m < l {
      StartMonotone(t, m, l);
    }
  }

  /** One place more is at most one code word more. */
  lemma {:induction false} UnitsStep(c: CTable, t: Table, l: nat, n: nat)
    requires EncodesFor(c, t) && 1 <= l <= 16 && Start(t, l) <= n < Start(t, l) + t.bits[l]
    ensures Units(LengthsBelow(c, t, n + 1), SYMBOLS) <= Units(LengthsBelow(c, t, n), SYMBOLS) + Pow2(MAX_CLEN - l)
  {
    assert HuffTable.Valid(t) && |t.bits| == 17 && |t.huffval| == 256;
    hide Pow2, Start, Units, LengthsBelow, HuffTable.Valid, EncodesFor;
    ListedBelow(t, l, n);
    OneMorePlace(c, t, n, l);
    UnitsUpdate(LengthsBelow(c, t, n), t.huffval[n], l, SYMBOLS);
  }

  /** The code words among the first i of length l take no more than figure C.2 gives out. */
  lemma {:induction false} UnitsBelow(c: CTable, t: Table, l: nat, i: nat, n: nat)
    requires EncodesFor(c, t) && 1 <= l <= 16 && i <= t.bits[l] && n == Start(t, l) + i
    ensures Units(LengthsBelow(c, t, n), SYMBOLS) <= Kraft(t.bits, l - 1) + i * Pow2(MAX_CLEN - l)
    decreases l, i
  {
    assert |t.bits| == 17 && SYMBOLS == 257 && MAX_CLEN == 32;
    hide *;
    if i > 0 {
      UnitsBelow(c, t, l, i - 1, n - 1);
      UnitsStep(c, t, l, n - 1);
      Distribute(i - 1, 1, Pow2(MAX_CLEN - l));
    } else if l > 1 {
      NextStart(t, l - 1);
      KraftStep(t.bits, l - 1);
      UnitsBelow(c, t, l - 1, t.bits[l - 1], n);
    } else {
      NothingBelow(c, t);
    }
  }

  lemma {:induction false} ListedBelow(t: Table, l: nat, n: nat)
    requires HuffTable.Valid(t) && 1 <= l <= 16 && n < Start(t, l) + t.bits[l]
    ensures n < 256
  {
    StartMonotone(t, l, 17);
  }

  lemma {:induction false} NothingBelow(c: CTable, t: Table)
    requires EncodesFor(c, t)
    ensures Start(t, 1) == 0 && Kraft(t.bits, 0) == 0 && Units(LengthsBelow(c, t, 0), SYMBOLS) == 0
  {
    hide FirstCode, HasCode;
    forall v: nat | v < 256 && HasCode(c, v)
      ensures !PlacedBelow(c, t, v, 0)
    {
      PlaceFacts(c, t, v);
    }
    NoUnits(LengthsBelow(c, t, 0), SYMBOLS);
  }

  lemma {:induction false} AllPlaced(c: CTable, t: Table)
    requires EncodesFor(c, t)
    ensures Lengths(c)[PSEUDO_SYMBOL := 0] == LengthsBelow(c, t, Start(t, 17))
  {
    hide FirstCode, Start, Place;
    var a, b := Lengths(c), LengthsBelow(c, t, Start(t, 17));
    forall v: nat | v < 256
      ensures a[v] == b[v]
    {
      if HasCode(c, v) {
        PlaceFacts(c, t, v);
      }
    }
  }

  lemma {:induction false} UnitsOfTable(c: CTable, t: Table, n: nat)
    requires EncodesFor(c, t) && n == Start(t, 17)
    ensures Units(LengthsBelow(c, t, n), SYMBOLS) <= Kraft(t.bits, 16)
  {
    assert |t.bits| == 17 && SYMBOLS == 257 && MAX_CLEN == 32;
    hide *;
    NextStart(t, 16);
    KraftStep(t.bits, 16);
    UnitsBelow(c, t, 16, t.bits[16], n);
  }

  /** Where the word of all ones is spared, there is room for a word of 16 bits. */
  lemma {:induction false} RoomForPseudo(t: Table)
    requires HuffTable.Valid(t) && SparesOnes(t)
    ensures |t.bits| == 17 && Kraft(t.bits, 16) <= TWO32 - 0x1_0000
  {
    hide Kraft, FirstCode, Start;
    PrefixCodeIff(t, t.bits);
    var q := KraftMultiple(t.bits, 16);
    PowValues();
  }

  /** Adding the pseudo-symbol's word of 16 bits. */
  lemma {:induction false} PseudoAdded(below: seq<nat>)
    requires |below| == SYMBOLS && below[PSEUDO_SYMBOL] == 0 && forall v :: 0 <= v < SYMBOLS ==> below[v] <= 16
    requires Units(below, SYMBOLS) <= TWO32 - 0x1_0000
    ensures Weight(below[PSEUDO_SYMBOL := 16], SYMBOLS) <= 1.0
  {
    hide Units, Weight;
    UnitsUpdate(below, PSEUDO_SYMBOL, 16, SYMBOLS);
    PowValues();
    assert Pow2(MAX_CLEN - 16) == 0x1_0000;
    hide Pow2;
    UnitsOfWeight(below[PSEUDO_SYMBOL := 16], SYMBOLS);
  }

  lemma LengthsSplit(c: CTable)
    ensures Lengths(c) == Lengths(c)[PSEUDO_SYMBOL := 0][PSEUDO_SYMBOL := 16]
  {
  }

  /** The lengths of a table that spares the code word of all ones leave room for the
      pseudo-symbol. */
  lemma {:induction false} TableWeight(c: CTable, t: Table)
    requires Coder(c, t) && SparesOnes(t)
    ensures Weight(Lengths(c), SYMBOLS) <= 1.0
  {
    assert HuffTable.Valid(t) && EncodesFor(c, t) && |t.bits| == 17;
    hide Pow2, Start, Kraft, Units, Weight, Lengths, PrefixCode, SparesOnes, HuffTable.Valid, EncodesFor, LengthsBelow;
    LengthsSplit(c);
    UnitsOfTable(c, t, Start(t, 17));
    AllPlaced(c, t);
    RoomForPseudo(t);
    PseudoAdded(LengthsBelow(c, t, Start(t, 17)));
  }

  // ----- which symbols a coded scan needs -----

  /** A coding of each component by the tables with its numbers. */
  function CodingsBy(dc: seq<CTable>, ac: seq<CTable>, dcTbl: seq<nat>, acTbl: seq<nat>): (cs: seq<Coding>)
    requires |dcTbl| == |acTbl| && Members(dcTbl, |dc|) && Members(acTbl, |ac|)
    ensures |cs| == |dcTbl| && forall m :: 0 <= m < |cs| ==> cs[m] == Coding(dc[dcTbl[m]], ac[acTbl[m]])
  {
    seq(|dcTbl|, m requires 0 <= m < |dcTbl| => Coding(dc[dcTbl[m]], ac[acTbl[m]]))
  }

  /** Every component is coded by the table with its number. */
  ghost predicate ByTable(ac: bool, cs: seq<Coding>, tbl: seq<nat>, tables: seq<CTable>) {
    && |cs| == |tbl| && Members(tbl, |tables|)
    && forall m :: 0 <= m < |cs| ==> CodingOf(cs[m], ac) == tables[tbl[m]]
  }

  lemma {:induction false} BlockNeeds(ac: bool, g: Coding, b: Block, last: int, v: nat)
    requires BlockCoded(g.dc, g.ac, b, last) && BlockUses(ac, b, last, v) > 0
    ensures HasCode(CodingOf(g, ac), v)
  {
    hide HasCode, NBits, AcUses;
    AcCodedIff(g.ac, b, 1, 0);
  }

  lemma {:induction false} McuNeeds(ac: bool, cs: seq<Coding>, tbl: seq<nat>, tables: seq<CTable>, members: seq<nat>,
          mcu: seq<Block>, last: seq<int>, i: nat, n: nat, v: nat)
    requires |cs| == |last| && |mcu| == |members| && Members(members, |cs|) && i <= |mcu|
    requires ByTable(ac, cs, tbl, tables) && McuCoded(cs, members, mcu, last, i) && n < |tables|
    requires McuUses(ac, tbl, members, mcu, last, i, n, v) > 0
    ensures HasCode(tables[n], v)
    decreases |mcu| - i
  {
    hide HasCode, BlockUses, BlockCoded, CodingOf;
    var m := members[i];
    if tbl[m] == n && BlockUses(ac, mcu[i], last[m], v) > 0 {
      BlockNeeds(ac, cs[m], mcu[i], last[m], v);
    } else {
      McuNeeds(ac, cs, tbl, tables, members, mcu, last[m := mcu[i][0]], i + 1, n, v);
    }
  }

  /** If a scan can be coded, every symbol that is counted for it has a code word. */
  lemma {:induction false} ScanNeeds(ac: bool, cs: seq<Coding>, tbl: seq<nat>, tables: seq<CTable>, members: seq<nat>,
          mcus: seq<seq<Block>>, last: seq<int>, i: nat, n: nat, v: nat)
    requires |cs| == |last| && Members(members, |cs|) && Shaped(mcus, |members|) && i <= |mcus|
    requires ByTable(ac, cs, tbl, tables) && ScanCoded(cs, members, mcus, last, i) && n < |tables|
    requires ScanUses(ac, tbl, members, mcus, last, i, n, v) > 0
    ensures HasCode(tables[n], v)
    decreases |mcus| - i
  {
    assert |cs| == |tbl|;
    hide HasCode, McuUses, McuCoded, McuLast, ByTable, Members;
    if McuUses(ac, tbl, members, mcus[i], last, 0, n, v) > 0 {
      McuNeeds(ac, cs, tbl, tables, members, mcus[i], last, 0, n, v);
    } else {
      ScanNeeds(ac, cs, tbl, tables, members, mcus, McuLast(members, mcus[i], last, 0), i + 1, n, v);
    }
  }

  // ----- no other tables are better -----

  lemma {:induction false} CostWithPseudo(counts: seq<nat>, size: seq<nat>)
    requires |counts| == |size| == SYMBOLS && counts[PSEUDO_SYMBOL] == 0
    ensures Cost(WithPseudo(counts), size, SYMBOLS) == Cost(counts, size, SYMBOLS) + size[PSEUDO_SYMBOL]
  {
    hide Cost, Bill;
    CostMore(counts, size, PSEUDO_SYMBOL, 1);
    BillAdds(0, 0, size[PSEUDO_SYMBOL]);
  }

  /** c codes with the words of t, none of which is all ones. */
  ghost predicate SparingCoder(c: CTable, t: Table) {
    Coder(c, t) && SparesOnes(t)
  }

  lemma {:induction false} OthersFeasible(counts: seq<nat>, c: CTable, t: Table)
    requires |counts| == SYMBOLS && SparingCoder(c, t)
    requires forall v: nat :: v < 256 && counts[v] > 0 ==> HasCode(c, v)
    ensures Feasible(Lengths(c), WithPseudo(counts)) && Lengths(c)[PSEUDO_SYMBOL] == 16
  {
    assert HuffTable.Valid(t) && Coder(c, t);
    hide Weight, SparesOnes, Coder;
    TableWeight(c, t);
    var f := WithPseudo(counts);
    forall v: nat | v < SYMBOLS && f[v] > 0
      ensures Lengths(c)[v] > 0
    {
      if v < 256 {
        CodeFits(c, t, v);
      }
    }
  }

  /** Compared with any other table, the lengths of Huffman's algorithm cost at most the
      bits that the pseudo-symbol may be deeper there. */
  lemma {:induction false} TableNotDearer(counts: seq<nat>, c: CTable, t: Table)
    requires |counts| == SYMBOLS && counts[PSEUDO_SYMBOL] == 0 && SparingCoder(c, t)
    requires forall v: nat :: v < 256 && counts[v] > 0 ==> HasCode(c, v)
    ensures Cost(counts, HuffSizes(WithPseudo(counts)), SYMBOLS) <= Cost(counts, Lengths(c), SYMBOLS) + 15
  {
    hide Cost, Weight, HuffSizes, Lengths, SparingCoder, HasCode, Feasible;
    var f, size := WithPseudo(counts), HuffSizes(WithPseudo(counts));
    OthersFeasible(counts, c, t);
    if a :| 0 <= a < 256 && counts[a] > 0 {
      HuffmanIsOptimal(f, Lengths(c));
      HuffmanIsComplete(f, a, PSEUDO_SYMBOL);
      CostWithPseudo(counts, size);
      CostWithPseudo(counts, Lengths(c));
    } else {
      CostOfNone(counts, size, SYMBOLS);
    }
  }

  /** The lengths of Huffman's algorithm for every table's counts. */
  ghost function BestSizes(counts: seq<seq<nat>>): (sizes: seq<seq<nat>>)
    requires Sized(counts)
    ensures |sizes| == |counts| && Sized(sizes)
  {
    seq(|counts|, n requires 0 <= n < |counts| => HuffSizes(WithPseudo(counts[n])))
  }

  ghost function AllLengths(tables: seq<CTable>): (sizes: seq<seq<nat>>)
    ensures |sizes| == |tables| && Sized(sizes)
  {
    seq(|tables|, n requires 0 <= n < |tables| => Lengths(tables[n]))
  }

  ghost predicate Coders(tables: seq<CTable>, ts: seq<Table>) {
    |tables| == |ts| && forall n :: 0 <= n < |ts| ==> SparingCoder(tables[n], ts[n])
  }

  lemma {:induction false} TotalNotDearer(counts: seq<seq<nat>>, tables: seq<CTable>, ts: seq<Table>, n: nat)
    requires Sized(counts) && |counts| == |tables| && Coders(tables, ts) && n <= |counts|
    requires forall k :: 0 <= k < |counts| ==> counts[k][PSEUDO_SYMBOL] == 0
    requires forall k: nat, v: nat :: k < |counts| && v < 256 && counts[k][v] > 0 ==> HasCode(tables[k], v)
    ensures Total(counts, BestSizes(counts), n) <= Total(counts, AllLengths(tables), n) + 15 * n
  {
    hide Cost, HuffSizes, Lengths, SparingCoder, HasCode;
    if n > 0 {
      TotalNotDearer(counts, tables, ts, n - 1);
      TableNotDearer(counts[n - 1], tables[n - 1], ts[n - 1]);
    }
  }

  /** The DC or AC counts of a scan: what the tables made from them cost, and any others. */
  lemma {:induction false} CostNotDearer(ac: bool, cs: seq<Coding>, tbl: seq<nat>, members: seq<nat>,
          mcus: seq<seq<Block>>, tables: seq<CTable>, ts: seq<Table>)
    requires |cs| == |tbl| && Members(members, |cs|) && Shaped(mcus, |members|) && AllEncodable(mcus)
    requires Coders(tables, ts) && ByTable(ac, cs, tbl, tables)
    requires ScanCoded(cs, members, mcus, NoPredictions(|cs|), 0)
    ensures var last := NoPredictions(|cs|);
      var best := BestSizes(ScanCounts(ac, tbl, members, mcus, last, 0, |tables|));
      ScanCost(ac, tbl, members, mcus, last, 0, best)
      <= ScanCost(ac, tbl, members, mcus, last, 0, AllLengths(tables)) + 15 * |tables|
  {
    var last := NoPredictions(|cs|);
    var counts := ScanCounts(ac, tbl, members, mcus, last, 0, |tables|);
    hide ScanCoded, ScanUses, ByTable, HasCode, AllEncodable, ScanCoefs, Total, BestSizes, AllLengths, Coders;
    hide NoPredictions, HasCode;
    EncodableCoefs(mcus);
    forall k: nat | k < |tables|
      ensures counts[k][PSEUDO_SYMBOL] == 0
    {
      if ac {
        ScanAcSymbols(tbl, members, mcus, last, 0, k, PSEUDO_SYMBOL);
      } else {
        ScanDcSizes(tbl, members, mcus, last, 0, k, PSEUDO_SYMBOL);
      }
    }
    forall k: nat, v: nat | k < |tables| && v < 256 && counts[k][v] > 0
      ensures HasCode(tables[k], v)
    {
      ScanNeeds(ac, cs, tbl, tables, members, mcus, last, 0, k, v);
    }
    TotalNotDearer(counts, tables, ts, |tables|);
  }

  lemma {:induction false} LengthsAreSizes(c: CTable, t: Table)
    requires Coder(c, t)
    ensures SizesOf(c, Lengths(c))
  {
  }

  lemma {:induction false} MadeSizes(c: CTable, t: Table, counts: seq<nat>)
    requires Coder(c, t) && MadeFor(t, counts) && Unlimited(counts)
    ensures SizesOf(c, HuffSizes(WithPseudo(counts)))
  {
    hide Used, Start, FirstCode, PrefixCode, SparesOnes, Listed, HuffSizes, Cheapest, ShortCodes;
    forall v: nat | HasCode(c, v)
      ensures v < SYMBOLS && HuffSizes(WithPseudo(counts))[v] == |CodeBits(c, v)|
    {
      CodeFits(c, t, v);
    }
  }

  /** No table of the scan needed its lengths limited. */
  ghost predicate NoneLimited(dcTbl: seq<nat>, acTbl: seq<nat>, members: seq<nat>, mcus: seq<seq<Block>>)
    requires |dcTbl| == |acTbl| && Members(members, |dcTbl|) && Shaped(mcus, |members|)
  {
    forall m :: 0 <= m < |dcTbl| ==>
      && Unlimited(CountsOf(false, dcTbl, members, mcus, dcTbl[m]))
      && Unlimited(CountsOf(true, acTbl, members, mcus, acTbl[m]))
  }

  /** The code lengths of Huffman's algorithm for the counts of a scan. */
  ghost function BestFor(ac: bool, tbl: seq<nat>, members: seq<nat>, mcus: seq<seq<Block>>,
          n: nat): (sizes: seq<seq<nat>>)
    requires Members(members, |tbl|) && Shaped(mcus, |members|)
    ensures |sizes| == n && Sized(sizes)
  {
    BestSizes(ScanCounts(ac, tbl, members, mcus, NoPredictions(|tbl|), 0, n))
  }

  lemma {:induction false} BestAllSizes(comps: seq<Component>, cs: seq<Coding>, dcTbl: seq<nat>, acTbl: seq<nat>,
          members: seq<nat>, mcus: seq<seq<Block>>, dcTables: nat, acTables: nat)
    requires |comps| == |dcTbl| == |acTbl| && Members(members, |dcTbl|) && Shaped(mcus, |members|)
    requires Codes(cs, comps) && TablesMade(comps, dcTbl, acTbl, members, mcus)
    requires NoneLimited(dcTbl, acTbl, members, mcus) && Members(dcTbl, dcTables) && Members(acTbl, acTables)
    ensures |cs| == |dcTbl|
    ensures AllSizes(false, cs, dcTbl, BestFor(false, dcTbl, members, mcus, dcTables))
    ensures AllSizes(true, cs, acTbl, BestFor(true, acTbl, members, mcus, acTables))
  {
    hide Coder, MadeFor, Unlimited, ScanUses, SizesOf, HuffSizes;
    var dc := ScanCounts(false, dcTbl, members, mcus, NoPredictions(|cs|), 0, dcTables);
    var ac := ScanCounts(true, acTbl, members, mcus, NoPredictions(|cs|), 0, acTables);
    forall m | 0 <= m < |cs|
      ensures SizesOf(CodingOf(cs[m], false), BestSizes(dc)[dcTbl[m]])
      ensures SizesOf(CodingOf(cs[m], true), BestSizes(ac)[acTbl[m]])
    {
      assert dc[dcTbl[m]] == CountsOf(false, dcTbl, members, mcus, dcTbl[m]);
      assert ac[acTbl[m]] == CountsOf(true, acTbl, members, mcus, acTbl[m]);
      MadeSizes(cs[m].dc, comps[m].dc, dc[dcTbl[m]]);
      MadeSizes(cs[m].ac, comps[m].ac, ac[acTbl[m]]);
    }
  }

  lemma {:induction false} AllLengthsAreSizes(dc: seq<CTable>, ac: seq<CTable>, dcTs: seq<Table>, acTs: seq<Table>,
          dcTbl: seq<nat>, acTbl: seq<nat>)
    requires |dcTbl| == |acTbl| && Members(dcTbl, |dc|) && Members(acTbl, |ac|) && Coders(dc, dcTs) && Coders(ac, acTs)
    ensures var cs := CodingsBy(dc, ac, dcTbl, acTbl);
      && AllSizes(false, cs, dcTbl, AllLengths(dc)) && AllSizes(true, cs, acTbl, AllLengths(ac))
      && ByTable(false, cs, dcTbl, dc) && ByTable(true, cs, acTbl, ac)
  {
    hide Coder, SizesOf, Lengths;
    forall m | 0 <= m < |dcTbl|
      ensures SizesOf(dc[dcTbl[m]], Lengths(dc[dcTbl[m]])) && SizesOf(ac[acTbl[m]], Lengths(ac[acTbl[m]]))
    {
      LengthsAreSizes(dc[dcTbl[m]], dcTs[dcTbl[m]]);
      LengthsAreSizes(ac[acTbl[m]], acTs[acTbl[m]]);
    }
  }

  /** What a scan costs in all with the given code lengths. */
  ghost function ScanPrice(dcTbl: seq<nat>, acTbl: seq<nat>, members: seq<nat>, mcus: seq<seq<Block>>,
          dcSizes: seq<seq<nat>>, acSizes: seq<seq<nat>>): nat
    requires |dcTbl| == |acTbl| && Members(members, |dcTbl|) && Shaped(mcus, |members|)
    requires Sized(dcSizes) && Sized(acSizes)
  {
    var last := NoPredictions(|dcTbl|);
    ScanCost(false, dcTbl, members, mcus, last, 0, dcSizes) + ScanCost(true, acTbl, members, mcus, last, 0, acSizes)
    + ScanExtra(members, mcus, last, 0)
  }

  lemma {:induction false} WholeScanLength(cs: seq<Coding>, dcTbl: seq<nat>, acTbl: seq<nat>, members: seq<nat>,
          mcus: seq<seq<Block>>, dcSizes: seq<seq<nat>>, acSizes: seq<seq<nat>>)
    requires |cs| == |dcTbl| == |acTbl| && Members(members, |cs|) && Shaped(mcus, |members|) && AllEncodable(mcus)
    requires AllSizes(false, cs, dcTbl, dcSizes) && AllSizes(true, cs, acTbl, acSizes)
    requires ScanCoded(cs, members, mcus, NoPredictions(|cs|), 0)
    ensures Sized(dcSizes) && Sized(acSizes)
    ensures |ScanBits(cs, members, mcus, NoPredictions(|cs|), 0)|
         == ScanPrice(dcTbl, acTbl, members, mcus, dcSizes, acSizes)
  {
    assert Sized(dcSizes) && Sized(acSizes);
    hide ScanBits, ScanCoded, ScanCost, ScanExtra, AllSizes, AllEncodable, NoPredictions, Members, Shaped;
    ScanLength(cs, dcTbl, acTbl, members, mcus, NoPredictions(|cs|), 0, dcSizes, acSizes);
  }

  lemma {:induction false} PriceNotDearer(cs: seq<Coding>, dcTbl: seq<nat>, acTbl: seq<nat>, members: seq<nat>,
          mcus: seq<seq<Block>>, dc: seq<CTable>, ac: seq<CTable>, dcTs: seq<Table>, acTs: seq<Table>)
    requires |cs| == |dcTbl| == |acTbl| && Members(members, |cs|) && Shaped(mcus, |members|) && AllEncodable(mcus)
    requires Coders(dc, dcTs) && Coders(ac, acTs) && ByTable(false, cs, dcTbl, dc) && ByTable(true, cs, acTbl, ac)
    requires ScanCoded(cs, members, mcus, NoPredictions(|cs|), 0)
    ensures ScanPrice(dcTbl, acTbl, members, mcus, BestFor(false, dcTbl, members, mcus, |dc|),
                      BestFor(true, acTbl, members, mcus, |ac|))
         <= ScanPrice(dcTbl, acTbl, members, mcus, AllLengths(dc), AllLengths(ac)) + 15 * (|dc| + |ac|)
  {
    hide ScanCoded, ScanCost, ScanExtra, ScanCounts, BestSizes, AllLengths, Coders, ByTable, AllEncodable;
    hide NoPredictions, Members, Shaped;
    CostNotDearer(false, cs, dcTbl, members, mcus, dc, dcTs);
    CostNotDearer(true, cs, acTbl, members, mcus, ac, acTs);
  }

  /** Main theorem: with the tables that were made from its counts, none of whose lengths
      had to be limited, a scan takes at most 15 bits a table more than with any other
      tables that can code it. */
  lemma {:induction false} NoTablesBetter(comps: seq<Component>, cs: seq<Coding>, dcTbl: seq<nat>, acTbl: seq<nat>,
          members: seq<nat>, mcus: seq<seq<Block>>, dc: seq<CTable>, ac: seq<CTable>, dcTs: seq<Table>,
          acTs: seq<Table>)
    requires |comps| == |dcTbl| == |acTbl| && Members(members, |dcTbl|) && Shaped(mcus, |members|) && AllEncodable(mcus)
    requires Codes(cs, comps) && TablesMade(comps, dcTbl, acTbl, members, mcus)
    requires NoneLimited(dcTbl, acTbl, members, mcus)
    requires Members(dcTbl, |dc|) && Members(acTbl, |ac|) && Coders(dc, dcTs) && Coders(ac, acTs)
    requires |cs| == |comps| && ScanCoded(cs, members, mcus, NoPredictions(|cs|), 0)
    requires ScanCoded(CodingsBy(dc, ac, dcTbl, acTbl), members, mcus, NoPredictions(|cs|), 0)
    ensures |ScanBits(cs, members, mcus, NoPredictions(|cs|), 0)|
         <= |ScanBits(CodingsBy(dc, ac, dcTbl, acTbl), members, mcus, NoPredictions(|cs|), 0)| + 15 * (|dc| + |ac|)
  {
    hide *;
    var others := CodingsBy(dc, ac, dcTbl, acTbl);
    BestAllSizes(comps, cs, dcTbl, acTbl, members, mcus, |dc|, |ac|);
    AllLengthsAreSizes(dc, ac, dcTs, acTs, dcTbl, acTbl);
    WholeScanLength(cs, dcTbl, acTbl, members, mcus, BestFor(false, dcTbl, members, mcus, |dc|),
                    BestFor(true, acTbl, members, mcus, |ac|));
    WholeScanLength(others, dcTbl, acTbl, members, mcus, AllLengths(dc), AllLengths(ac));
    PriceNotDearer(others, dcTbl, acTbl, members, mcus, dc, ac, dcTs, acTs);
  }
}
