/** Whole scans: encode_mcu_huff of jchuff.c and decode_mcu of jdhuff.c, which
    carry a DC prediction per component from block to block, and the proof that
    decoding the bytes of an encoded scan gives its blocks back. */
module HuffScan {
  import opened Bits
  import opened BitStream
  import opened HuffTable
  import opened HuffDerived
  import opened BitReader
  import opened BitWriter
  import opened HuffBlock
  import opened HuffCodec

  /** What the decoder wants of a component: everything, only DC (a scaled size of
      1), or nothing. */
  datatype Use = Full | DcOnly | Unneeded

  /** A component: its two Huffman tables and how it is used. */
  datatype Component = Component(dc: Table, ac: Table, use: Use)

  /** The tables that the encoder and the decoder derive for a component. */
  datatype Coding = Coding(dc: CTable, ac: CTable)
  datatype Decoding = Decoding(dc: DTable, ac: DTable, use: Use)

  ghost predicate Usable(c: Component) {
    HuffTable.Valid(c.dc) && HuffTable.Valid(c.ac) && DcSymbols(c.dc)
  }

  ghost predicate Codes(cs: seq<Coding>, comps: seq<Component>) {
    && |cs| == |comps|
    && forall i :: 0 <= i < |cs| ==> Coder(cs[i].dc, comps[i].dc) && Coder(cs[i].ac, comps[i].ac)
  }

  ghost predicate Decodes(ds: seq<Decoding>, comps: seq<Component>) {
    && |ds| == |comps|
    && forall i :: 0 <= i < |ds| ==>
      && ds[i].use == comps[i].use
      && DerivedFrom(ds[i].dc, comps[i].dc) && DerivedFrom(ds[i].ac, comps[i].ac)
  }

  ghost predicate AllUsable(comps: seq<Component>) {
    forall i :: 0 <= i < |comps| ==> Usable(comps[i])
  }

  /** members[i] is the component of the block i of an MCU. */
  ghost predicate Members(members: seq<nat>, n: nat) {
    forall i :: 0 <= i < |members| ==> members[i] < n
  }

  // ----- one block -----

  function Zeros(): (b: Block)
    ensures forall i :: 0 <= i < DCTSIZE2 ==> b[i] == 0
  {
    seq(DCTSIZE2, _ => 0)
  }

  /** A block with only a DC coefficient. */
  function DcBlock(v: int): (b: Block)
    ensures b[0] == v && forall i :: 0 < i < DCTSIZE2 ==> b[i] == 0
  {
    Zeros()[0 := v]
  }

  datatype BlockResult = BlockResult(block: Block, pos: nat, last: int)

  /** Reading one block with DC prediction last. */
  function BlockDecode(c: Component, s: seq<bool>, pos: nat, last: int): BlockResult
    requires HuffTable.Valid(c.dc) && HuffTable.Valid(c.ac)
  {
    var d := DcDecode(c.dc, s, pos);
    if c.use == Unneeded then BlockResult(Zeros(), AcDecode(c.ac, s, d.pos, 1, Zeros()).pos, last)
    else
      var value := last + d.v;
      var b := DcBlock(S16(value));
      var r := AcDecode(c.ac, s, d.pos, 1, b);
      BlockResult(if c.use == Full then r.block else b, r.pos, value)
  }

  /** What the decoder is to show of a block. */
  function Shown(use: Use, b: Block): Block {
    match use
    case Full => b
    case DcOnly => DcBlock(b[0])
    case Unneeded => Zeros()
  }

  lemma PartialDc(b: Block)
    ensures Partial(DcBlock(b[0]), b, 1)
  {
    assert NaturalOrder(0) == 0;
    forall i | 1 <= i < DCTSIZE2
      ensures NaturalOrder(i) != 0
    {
      ZigzagOfNatural(i);
      assert ZigzagTable(0) == 0;
    }
    hide NaturalOrder;
  }

  /** Main theorem: a wanted block comes back exactly if no AC coefficient of it
      is -32768. */
  lemma BlockRoundTripIff(g: Coding, c: Component, s: seq<bool>, pos: nat, b: Block, last: int)
    requires Coder(g.dc, c.dc) && Coder(g.ac, c.ac) && Coefs(b) && c.use == Full
    requires BlockCoded(g.dc, g.ac, b, last) && HasAt(s, pos, BlockBits(g.dc, g.ac, b, last))
    ensures HuffTable.Valid(c.dc) && HuffTable.Valid(c.ac)
    ensures BlockDecode(c, s, pos, last).block == b <==> NoSixteenBits(b, 1)
  {
    hide Coder, HuffTable.Valid, DcDecode, AcDecode, HasAt, BlockCoded, BlockBits, S16, NoSixteenBits, Coefs;
    AcPartRoundTrip(g, c, s, pos, b, last);
  }

  lemma {:induction false} BlockParts(g: Coding, b: Block, last: int)
    requires Coefs(b) && BlockCoded(g.dc, g.ac, b, last)
    ensures |b| == DCTSIZE2 == 64 && S16(b[0]) == b[0]
    ensures HasCode(g.dc, NBits(b[0] - last)) && AcCoded(g.ac, b, 1, 0)
    ensures BlockBits(g.dc, g.ac, b, last) == DcBits(g.dc, b[0] - last) + AcBits(g.ac, b, 1, 0)
  {
    hide HasCode, NBits, AcCoded, DcBits, AcBits;
  }

  lemma {:induction false} AcPartRoundTrip(g: Coding, c: Component, s: seq<bool>, pos: nat, b: Block, last: int)
    requires Coder(g.dc, c.dc) && Coder(g.ac, c.ac) && Coefs(b)
    requires BlockCoded(g.dc, g.ac, b, last) && HasAt(s, pos, BlockBits(g.dc, g.ac, b, last))
    ensures HuffTable.Valid(c.dc) && HuffTable.Valid(c.ac)
    ensures var d := DcDecode(c.dc, s, pos);
      var r := AcDecode(c.ac, s, d.pos, 1, DcBlock(b[0]));
      && d.v == b[0] - last && S16(b[0]) == b[0]
      && (r.block == b <==> NoSixteenBits(b, 1))
      && (NoSixteenBits(b, 1) ==> r.pos == pos + |BlockBits(g.dc, g.ac, b, last)|)
  {
    hide *;
    BlockParts(g, b, last);
    var dc, ac := DcBits(g.dc, b[0] - last), AcBits(g.ac, b, 1, 0);
    HasAtParts(s, pos, dc, ac);
    DcRoundTrip(g.dc, c.dc, s, pos, b[0] - last);
    PartialDc(b);
    AcRoundTripIff(g.ac, c.ac, s, pos + |dc|, b, 1, 0, DcBlock(b[0]));
  }

  /** Whatever the component is used for, its blocks show what they should, and
      reading goes on behind them. */
  lemma BlockRoundTrip(g: Coding, c: Component, s: seq<bool>, pos: nat, b: Block, last: int, seen: int)
    requires Coder(g.dc, c.dc) && Coder(g.ac, c.ac) && Coefs(b) && NoSixteenBits(b, 1)
    requires BlockCoded(g.dc, g.ac, b, last) && HasAt(s, pos, BlockBits(g.dc, g.ac, b, last))
    requires c.use != Unneeded ==> seen == last
    ensures HuffTable.Valid(c.dc) && HuffTable.Valid(c.ac)
    ensures BlockDecode(c, s, pos, seen)
         == BlockResult(Shown(c.use, b), pos + |BlockBits(g.dc, g.ac, b, last)|,
                        if c.use == Unneeded then seen else b[0])
  {
    hide Coder, HuffTable.Valid, DcDecode, AcDecode, HasAt, BlockCoded, BlockBits, S16, NoSixteenBits, Coefs;
    AcPartRoundTrip(g, c, s, pos, b, last);
    AcPosIndependent(c.ac, s, DcDecode(c.dc, s, pos).pos, 1, Zeros(), DcBlock(b[0]));
  }

  // ----- the blocks of an MCU -----

  /** The code of the blocks from i on. */
  function McuBits(cs: seq<Coding>, members: seq<nat>, mcu: seq<Block>, last: seq<int>, i: nat): seq<bool>
    requires |cs| == |last| && |mcu| == |members| && Members(members, |cs|) && i <= |mcu|
    decreases |mcu| - i
  {
    if i == |mcu| then []
    else
      var m := members[i];
      BlockBits(cs[m].dc, cs[m].ac, mcu[i], last[m]) + McuBits(cs, members, mcu, last[m := mcu[i][0]], i + 1)
  }

  predicate McuCoded(cs: seq<Coding>, members: seq<nat>, mcu: seq<Block>, last: seq<int>, i: nat)
    requires |cs| == |last| && |mcu| == |members| && Members(members, |cs|) && i <= |mcu|
    decreases |mcu| - i
  {
    if i == |mcu| then true
    else
      var m := members[i];
      && BlockCoded(cs[m].dc, cs[m].ac, mcu[i], last[m])
      && McuCoded(cs, members, mcu, last[m := mcu[i][0]], i + 1)
  }

  /** The DC predictions after the blocks from i on. */
  function McuLast(members: seq<nat>, mcu: seq<Block>, last: seq<int>, i: nat): (after: seq<int>)
    requires |mcu| == |members| && Members(members, |last|) && i <= |mcu|
    ensures |after| == |last|
    decreases |mcu| - i
  {
    if i == |mcu| then last else McuLast(members, mcu, last[members[i] := mcu[i][0]], i + 1)
  }

  datatype McuResult = McuResult(mcu: seq<Block>, pos: nat, last: seq<int>)

  /** Reading the blocks from i on. */
  function McuDecode(comps: seq<Component>, members: seq<nat>, s: seq<bool>, pos: nat, last: seq<int>,
          i: nat): (r: McuResult)
    requires AllUsable(comps) && |comps| == |last| && Members(members, |comps|) && i <= |members|
    ensures |r.last| == |last| && |r.mcu| == |members| - i
    decreases |members| - i
  {
    if i == |members| then McuResult([], pos, last)
    else
      var m := members[i];
      var r := BlockDecode(comps[m], s, pos, last[m]);
      var rest := McuDecode(comps, members, s, r.pos, last[m := r.last], i + 1);
      McuResult([r.block] + rest.mcu, rest.pos, rest.last)
  }

  function McuShown(comps: seq<Component>, members: seq<nat>, mcu: seq<Block>, i: nat): seq<Block>
    requires |mcu| == |members| && Members(members, |comps|) && i <= |mcu|
    decreases |mcu| - i
  {
    if i == |mcu| then [] else [Shown(comps[members[i]].use, mcu[i])] + McuShown(comps, members, mcu, i + 1)
  }

  ghost predicate AllCoefs(mcu: seq<Block>) {
    forall i :: 0 <= i < |mcu| ==> Coefs(mcu[i])
  }

  /** No AC coefficient of the blocks from i on is -32768. */
  ghost predicate NoneLost(mcu: seq<Block>, i: nat) {
    forall j :: i <= j < |mcu| ==> NoSixteenBits(mcu[j], 1)
  }

  ghost predicate AllFull(comps: seq<Component>) {
    forall m :: 0 <= m < |comps| ==> comps[m].use == Full
  }

  /** The decoder has the encoder's predictions, for the components it needs. */
  ghost predicate SamePredictions(comps: seq<Component>, seen: seq<int>, last: seq<int>) {
    && |seen| == |last| == |comps|
    && forall m :: 0 <= m < |comps| && comps[m].use != Unneeded ==> seen[m] == last[m]
  }

  lemma {:induction false} NextBlock(cs: seq<Coding>, members: seq<nat>, mcu: seq<Block>, last: seq<int>, i: nat)
    requires |cs| == |last| && |mcu| == |members| && Members(members, |cs|) && i < |mcu|
    ensures members[i] < |cs|
    ensures var m := members[i];
      var last' := last[m := mcu[i][0]];
      && McuBits(cs, members, mcu, last, i)
         == BlockBits(cs[m].dc, cs[m].ac, mcu[i], last[m]) + McuBits(cs, members, mcu, last', i + 1)
      && (McuCoded(cs, members, mcu, last, i)
          <==> BlockCoded(cs[m].dc, cs[m].ac, mcu[i], last[m]) && McuCoded(cs, members, mcu, last', i + 1))
      && McuLast(members, mcu, last, i) == McuLast(members, mcu, last', i + 1)
  {
    hide BlockBits, BlockCoded;
  }

  lemma {:induction false} McuRoundTrip(cs: seq<Coding>, comps: seq<Component>, members: seq<nat>, s: seq<bool>,
          pos: nat, mcu: seq<Block>, last: seq<int>, seen: seq<int>, i: nat)
    requires AllUsable(comps) && Codes(cs, comps) && Members(members, |cs|) && |mcu| == |members| && i <= |mcu|
    requires AllCoefs(mcu) && NoneLost(mcu, i) && SamePredictions(comps, seen, last)
    requires McuCoded(cs, members, mcu, last, i) && HasAt(s, pos, McuBits(cs, members, mcu, last, i))
    ensures var r := McuDecode(comps, members, s, pos, seen, i);
      && r.mcu == McuShown(comps, members, mcu, i)
      && r.pos == pos + |McuBits(cs, members, mcu, last, i)|
      && SamePredictions(comps, r.last, McuLast(members, mcu, last, i))
    decreases |mcu| - i
  {
    hide BlockDecode, BlockBits, BlockCoded, Coder, HasAt, Coefs, NoSixteenBits, Usable, Shown;
    if i < |mcu| {
      var m := members[i];
      var g, c, b := cs[m], comps[m], mcu[i];
      var last', r := last[m := b[0]], McuBits(cs, members, mcu, last[m := b[0]], i + 1);
      var bits := BlockBits(g.dc, g.ac, b, last[m]);
      NextBlock(cs, members, mcu, last, i);
      hide McuBits, McuCoded, McuLast;
      HasAtParts(s, pos, bits, r);
      BlockRoundTrip(g, c, s, pos, b, last[m], seen[m]);
      var seen' := seen[m := if c.use == Unneeded then seen[m] else b[0]];
      assert AllCoefs(mcu) && NoneLost(mcu, i + 1) && SamePredictions(comps, seen', last');
      hide AllCoefs, NoneLost, SamePredictions;
      McuRoundTrip(cs, comps, members, s, pos + |bits|, mcu, last', seen', i + 1);
    }
  }

  lemma HeadAndTail<T>(s: seq<T>, i: nat, x: T, rest: seq<T>)
    requires i < |s|
    ensures [x] + rest == s[i..] <==> x == s[i] && rest == s[i + 1..]
  {
    assert s[i..] == [s[i]] + s[i + 1..];
    if [x] + rest == s[i..] {
      assert ([x] + rest)[0] == s[i..][0] && ([x] + rest)[1..] == s[i..][1..];
    }
  }

  /** With all components wanted, an MCU comes back exactly if no AC coefficient of it
      is -32768. */
  lemma {:induction false} McuRoundTripIff(cs: seq<Coding>, comps: seq<Component>, members: seq<nat>, s: seq<bool>,
          pos: nat, mcu: seq<Block>, last: seq<int>, i: nat)
    requires AllUsable(comps) && Codes(cs, comps) && Members(members, |cs|) && |mcu| == |members| && i <= |mcu|
    requires AllCoefs(mcu) && AllFull(comps) && |last| == |cs|
    requires McuCoded(cs, members, mcu, last, i) && HasAt(s, pos, McuBits(cs, members, mcu, last, i))
    ensures McuDecode(comps, members, s, pos, last, i).mcu == mcu[i..] <==> NoneLost(mcu, i)
    decreases |mcu| - i
  {
    hide BlockDecode, BlockBits, BlockCoded, Coder, HasAt, Coefs, NoSixteenBits, Usable, Shown;
    if i < |mcu| {
      var m := members[i];
      var g, c, b := cs[m], comps[m], mcu[i];
      var last', r := last[m := b[0]], McuBits(cs, members, mcu, last[m := b[0]], i + 1);
      var bits := BlockBits(g.dc, g.ac, b, last[m]);
      NextBlock(cs, members, mcu, last, i);
      hide McuBits, McuCoded, McuLast;
      HasAtParts(s, pos, bits, r);
      BlockRoundTripIff(g, c, s, pos, b, last[m]);
      var first := BlockDecode(c, s, pos, last[m]);
      var rest := McuDecode(comps, members, s, first.pos, last[m := first.last], i + 1).mcu;
      HeadAndTail(mcu, i, first.block, rest);
      if NoSixteenBits(b, 1) {
        BlockRoundTrip(g, c, s, pos, b, last[m], last[m]);
        McuRoundTripIff(cs, comps, members, s, pos + |bits|, mcu, last', i + 1);
      }
    }
  }

  // ----- the predictions -----

  /** A component's prediction is the DC coefficient of its last block, if there was one. */
  lemma {:induction false} PredictionIs(members: seq<nat>, mcu: seq<Block>, last: seq<int>, i: nat, m: nat, p: int)
    requires |mcu| == |members| && Members(members, |last|) && i <= |mcu| && m < |last|
    requires (forall k :: i <= k < |mcu| ==> members[k] != m) ==> p == last[m]
    requires forall j :: i <= j < |mcu| && members[j] == m && (forall k :: j < k < |mcu| ==> members[k] != m) ==>
      p == mcu[j][0]
    ensures McuLast(members, mcu, last, i)[m] == p
    decreases |mcu| - i
  {
    if i < |mcu| {
      var last' := last[members[i] := mcu[i][0]];
      assert (forall k :: i + 1 <= k < |mcu| ==> members[k] != m) ==> p == last'[m];
      PredictionIs(members, mcu, last', i + 1, m, p);
    }
  }

  lemma {:induction false} McuAppend(cs: seq<Coding>, members: seq<nat>, mcu: seq<Block>, last: seq<int>, i: nat,
          m: nat, b: Block)
    requires |cs| == |last| && |mcu| == |members| && Members(members, |cs|) && i <= |mcu| && m < |cs|
    ensures Members(members + [m], |cs|)
    ensures McuBits(cs, members + [m], mcu + [b], last, i)
         == McuBits(cs, members, mcu, last, i) + BlockBits(cs[m].dc, cs[m].ac, b, McuLast(members, mcu, last, i)[m])
    decreases |mcu| - i
  {
    hide BlockBits;
    var more, blocks := members + [m], mcu + [b];
    if i < |mcu| {
      assert more[i] == members[i] && blocks[i] == mcu[i];
      var last' := last[members[i] := mcu[i][0]];
      McuAppend(cs, members, mcu, last', i + 1, m, b);
      var x, y := BlockBits(cs[members[i]].dc, cs[members[i]].ac, mcu[i], last[members[i]]),
        McuBits(cs, members, mcu, last', i + 1);
      var z := BlockBits(cs[m].dc, cs[m].ac, b, McuLast(members, mcu, last', i + 1)[m]);
      assert x + (y + z) == (x + y) + z;
    } else {
      LastBlock(cs, more, blocks, last, i);
    }
  }

  lemma {:induction false} LastBlock(cs: seq<Coding>, members: seq<nat>, mcu: seq<Block>, last: seq<int>, i: nat)
    requires |cs| == |last| && |mcu| == |members| == i + 1 && Members(members, |cs|)
    ensures McuBits(cs, members, mcu, last, i)
         == BlockBits(cs[members[i]].dc, cs[members[i]].ac, mcu[i], last[members[i]])
  {
    hide BlockBits;
    var bits := BlockBits(cs[members[i]].dc, cs[members[i]].ac, mcu[i], last[members[i]]);
    assert McuBits(cs, members, mcu, last[members[i] := mcu[i][0]], i + 1) == [];
    assert bits + [] == bits;
  }

  /** The code of one more block b of the component m, whose last block had the DC
      coefficient p: the size of the difference, the difference, and the AC coefficients. */
  lemma {:induction false} OneBlockMore(cs: seq<Coding>, members: seq<nat>, mcu: seq<Block>, last: seq<int>, m: nat,
          b: Block, p: int)
    requires |cs| == |last| && |mcu| == |members| && Members(members, |cs|) && m < |cs|
    requires m !in members ==> p == last[m]
    requires forall j :: 0 <= j < |mcu| && members[j] == m && m !in members[j + 1..] ==> p == mcu[j][0]
    ensures Members(members + [m], |cs|)
    ensures McuBits(cs, members + [m], mcu + [b], last, 0)
         == McuBits(cs, members, mcu, last, 0)
            + (CodeBits(cs[m].dc, NBits(b[0] - p)) + ValueBits(b[0] - p) + AcBits(cs[m].ac, b, 1, 0))
  {
    hide CodeBits, NBits, ValueBits, AcBits, McuBits;
    forall j | 0 <= j < |mcu| && members[j] == m && forall k :: j < k < |mcu| ==> members[k] != m
      ensures p == mcu[j][0]
    {
      assert m !in members[j + 1..];
    }
    assert (forall k :: 0 <= k < |mcu| ==> members[k] != m) ==> m !in members;
    PredictionIs(members, mcu, last, 0, m, p);
    hide McuLast;
    McuAppend(cs, members, mcu, last, 0, m, b);
  }

  // ----- the MCUs of a scan -----

  ghost predicate ScanCoefs(mcus: seq<seq<Block>>) {
    forall j :: 0 <= j < |mcus| ==> AllCoefs(mcus[j])
  }

  /** No AC coefficient of the MCUs from i on is -32768. */
  ghost predicate ScanNoneLost(mcus: seq<seq<Block>>, i: nat) {
    forall j :: i <= j < |mcus| ==> NoneLost(mcus[j], 0)
  }

  ghost predicate Shaped(mcus: seq<seq<Block>>, n: nat) {
    forall j :: 0 <= j < |mcus| ==> |mcus[j]| == n
  }

  function ScanBits(cs: seq<Coding>, members: seq<nat>, mcus: seq<seq<Block>>, last: seq<int>, i: nat): seq<bool>
    requires |cs| == |last| && Members(members, |cs|) && i <= |mcus|
    requires Shaped(mcus, |members|)
    decreases |mcus| - i
  {
    if i == |mcus| then []
    else McuBits(cs, members, mcus[i], last, 0) + ScanBits(cs, members, mcus, McuLast(members, mcus[i], last, 0), i + 1)
  }

  predicate ScanCoded(cs: seq<Coding>, members: seq<nat>, mcus: seq<seq<Block>>, last: seq<int>, i: nat)
    requires |cs| == |last| && Members(members, |cs|) && i <= |mcus|
    requires Shaped(mcus, |members|)
    decreases |mcus| - i
  {
    if i == |mcus| then true
    else
      && McuCoded(cs, members, mcus[i], last, 0)
      && ScanCoded(cs, members, mcus, McuLast(members, mcus[i], last, 0), i + 1)
  }

  /** p has every component's prediction after the blocks of mcu: last where it has none. */
  ghost predicate PredictionsAfter(members: seq<nat>, mcu: seq<Block>, last: seq<int>, p: seq<int>) {
    && |p| == |last| && |mcu| == |members|
    && forall m: nat :: m < |p| ==>
      && (m !in members ==> p[m] == last[m])
      && forall j :: 0 <= j < |mcu| && members[j] == m && m !in members[j + 1..] ==> p[m] == mcu[j][0]
  }

  lemma {:induction false} McuLastIs(members: seq<nat>, mcu: seq<Block>, last: seq<int>, p: seq<int>)
    requires |mcu| == |members| && Members(members, |last|) && PredictionsAfter(members, mcu, last, p)
    ensures McuLast(members, mcu, last, 0) == p
  {
    hide McuLast;
    forall m: nat | m < |p|
      ensures McuLast(members, mcu, last, 0)[m] == p[m]
    {
      forall j | 0 <= j < |mcu| && members[j] == m && forall k :: j < k < |mcu| ==> members[k] != m
        ensures p[m] == mcu[j][0]
      {
        assert m !in members[j + 1..];
      }
      assert (forall k :: 0 <= k < |mcu| ==> members[k] != m) ==> m !in members;
      PredictionIs(members, mcu, last, 0, m, p[m]);
    }
  }

  lemma {:induction false} McuLastFrame(members: seq<nat>, mcu: seq<Block>, last: seq<int>, i: nat, m: nat)
    requires |mcu| == |members| && Members(members, |last|) && i <= |mcu| && m < |last| && m !in members
    ensures McuLast(members, mcu, last, i)[m] == last[m]
    decreases |mcu| - i
  {
    if i < |mcu| {
      McuLastFrame(members, mcu, last[members[i] := mcu[i][0]], i + 1, m);
    }
  }

  /** The code of one more MCU: its first blocks are predicted by the last ones of their
      components in the MCU before it. */
  lemma {:induction false} OneMcuMore(cs: seq<Coding>, members: seq<nat>, mcus: seq<seq<Block>>, last: seq<int>,
          i: nat, mcu: seq<Block>, p: seq<int>)
    requires |cs| == |last| && Members(members, |cs|) && i < |mcus| && Shaped(mcus + [mcu], |members|)
    requires Shaped(mcus, |members|) && PredictionsAfter(members, mcus[|mcus| - 1], last, p)
    ensures |p| == |cs| && |mcu| == |members|
    ensures ScanBits(cs, members, mcus + [mcu], last, i)
         == ScanBits(cs, members, mcus, last, i) + McuBits(cs, members, mcu, p, 0)
    decreases |mcus| - i
  {
    hide McuBits, McuLast, Members;
    var more := mcus + [mcu];
    assert more[i] == mcus[i] && more[|mcus|] == mcu;
    var last' := McuLast(members, mcus[i], last, 0);
    var x := McuBits(cs, members, mcus[i], last, 0);
    if i == |mcus| - 1 {
      McuLastIs(members, mcus[i], last, p);
      NoMcusLeft(cs, members, mcus, p, |mcus|);
      NoMcusLeft(cs, members, more, McuLast(members, mcu, p, 0), |more|);
      assert x + [] == x && McuBits(cs, members, mcu, p, 0) + [] == McuBits(cs, members, mcu, p, 0);
    } else {
      forall m: nat | m < |p| && m !in members
        ensures p[m] == last'[m]
      {
        McuLastFrame(members, mcus[i], last, 0, m);
      }
      OneMcuMore(cs, members, mcus, last', i + 1, mcu, p);
      var y, z := ScanBits(cs, members, mcus, last', i + 1), McuBits(cs, members, mcu, p, 0);
      assert x + (y + z) == (x + y) + z;
    }
  }

  lemma {:induction false} NoMcusLeft(cs: seq<Coding>, members: seq<nat>, mcus: seq<seq<Block>>, last: seq<int>,
          i: nat)
    requires |cs| == |last| && Members(members, |cs|) && i == |mcus| && Shaped(mcus, |members|)
    ensures ScanBits(cs, members, mcus, last, i) == []
  {
  }

  /** Reading n MCUs. */
  function ScanDecode(comps: seq<Component>, members: seq<nat>, s: seq<bool>, pos: nat, last: seq<int>,
          n: nat): seq<seq<Block>>
    requires AllUsable(comps) && |comps| == |last| && Members(members, |comps|)
    decreases n
  {
    if n == 0 then []
    else
      var r := McuDecode(comps, members, s, pos, last, 0);
      [r.mcu] + ScanDecode(comps, members, s, r.pos, r.last, n - 1)
  }

  function ScanShown(comps: seq<Component>, members: seq<nat>, mcus: seq<seq<Block>>, i: nat): seq<seq<Block>>
    requires Members(members, |comps|) && i <= |mcus|
    requires Shaped(mcus, |members|)
    decreases |mcus| - i
  {
    if i == |mcus| then [] else [McuShown(comps, members, mcus[i], 0)] + ScanShown(comps, members, mcus, i + 1)
  }

  lemma {:induction false} McuShownAt(comps: seq<Component>, members: seq<nat>, mcu: seq<Block>, i: nat, k: nat)
    requires |mcu| == |members| && Members(members, |comps|) && i <= |mcu|
    ensures |McuShown(comps, members, mcu, i)| == |mcu| - i
    ensures i <= k < |mcu| ==> McuShown(comps, members, mcu, i)[k - i] == Shown(comps[members[k]].use, mcu[k])
    decreases |mcu| - i
  {
    hide Shown;
    if i < |mcu| {
      McuShownAt(comps, members, mcu, i + 1, k);
    }
  }

  lemma {:induction false} ScanShownAt(comps: seq<Component>, members: seq<nat>, mcus: seq<seq<Block>>, i: nat,
          k: nat)
    requires Members(members, |comps|) && Shaped(mcus, |members|) && i <= |mcus|
    ensures |ScanShown(comps, members, mcus, i)| == |mcus| - i
    ensures i <= k < |mcus| ==> ScanShown(comps, members, mcus, i)[k - i] == McuShown(comps, members, mcus[k], 0)
    decreases |mcus| - i
  {
    hide McuShown;
    if i < |mcus| {
      ScanShownAt(comps, members, mcus, i + 1, k);
    }
  }

  lemma ShownIs(use: Use, b: Block)
    ensures use == Full ==> Shown(use, b) == b
    ensures use == DcOnly ==> Shown(use, b)[0] == b[0] && forall k :: 1 <= k < 64 ==> Shown(use, b)[k] == 0
    ensures use == Unneeded ==> forall k :: 0 <= k < 64 ==> Shown(use, b)[k] == 0
  {
  }

  /** What every block shows: all coefficients, the DC coefficient, or nothing. */
  lemma {:induction false} ShownBlocks(comps: seq<Component>, members: seq<nat>, mcus: seq<seq<Block>>,
          result: seq<seq<Block>>)
    requires Members(members, |comps|) && Shaped(mcus, |members|) && result == ScanShown(comps, members, mcus, 0)
    ensures |result| == |mcus|
    ensures forall j :: 0 <= j < |mcus| ==>
      && |mcus[j]| == |result[j]| == |members|
      && forall i :: 0 <= i < |members| ==>
        && members[i] < |comps|
        && (comps[members[i]].use == Full ==> result[j][i] == mcus[j][i])
        && (comps[members[i]].use == DcOnly ==>
             result[j][i][0] == mcus[j][i][0] && forall k :: 1 <= k < 64 ==> result[j][i][k] == 0)
        && (comps[members[i]].use == Unneeded ==> forall k :: 0 <= k < 64 ==> result[j][i][k] == 0)
  {
    hide ScanShown, McuShown, Shown;
    ScanShownAt(comps, members, mcus, 0, 0);
    forall j | 0 <= j < |mcus|
      ensures
        && |mcus[j]| == |result[j]| == |members|
        && forall i :: 0 <= i < |members| ==>
          && members[i] < |comps|
          && (comps[members[i]].use == Full ==> result[j][i] == mcus[j][i])
          && (comps[members[i]].use == DcOnly ==>
               result[j][i][0] == mcus[j][i][0] && forall k :: 1 <= k < 64 ==> result[j][i][k] == 0)
          && (comps[members[i]].use == Unneeded ==> forall k :: 0 <= k < 64 ==> result[j][i][k] == 0)
    {
      ScanShownAt(comps, members, mcus, 0, j);
      assert result[j - 0] == McuShown(comps, members, mcus[j], 0);
      McuShownAt(comps, members, mcus[j], 0, 0);
      forall i | 0 <= i < |members|
        ensures result[j][i] == Shown(comps[members[i]].use, mcus[j][i])
      {
        McuShownAt(comps, members, mcus[j], 0, i);
        assert McuShown(comps, members, mcus[j], 0)[i - 0] == Shown(comps[members[i]].use, mcus[j][i]);
      }
      forall i | 0 <= i < |members|
        ensures comps[members[i]].use == Full ==> result[j][i] == mcus[j][i]
        ensures comps[members[i]].use == DcOnly ==>
          result[j][i][0] == mcus[j][i][0] && forall k :: 1 <= k < 64 ==> result[j][i][k] == 0
        ensures comps[members[i]].use == Unneeded ==> forall k :: 0 <= k < 64 ==> result[j][i][k] == 0
      {
        ShownIs(comps[members[i]].use, mcus[j][i]);
      }
    }
  }

  /** No AC coefficient is -32768. */
  lemma NoneLostIs(mcus: seq<seq<Block>>)
    ensures ScanNoneLost(mcus, 0) <==>
      forall j, i, k :: 0 <= j < |mcus| && 0 <= i < |mcus[j]| && 1 <= k < 64 ==> mcus[j][i][k] != -0x8000
  {
    hide NoSixteenBits;
    forall j, i | 0 <= j < |mcus| && 0 <= i < |mcus[j]|
      ensures NoSixteenBits(mcus[j][i], 1) <==> forall k :: 1 <= k < 64 ==> mcus[j][i][k] != -0x8000
    {
      NoSixteenBitsIs(mcus[j][i]);
    }
    if forall j, i, k :: 0 <= j < |mcus| && 0 <= i < |mcus[j]| && 1 <= k < 64 ==> mcus[j][i][k] != -0x8000 {
      forall j | 0 <= j < |mcus|
        ensures NoneLost(mcus[j], 0)
      {
      }
    } else {
      var j, i, k :| 0 <= j < |mcus| && 0 <= i < |mcus[j]| && 1 <= k < 64 && mcus[j][i][k] == -0x8000;
      assert !NoneLost(mcus[j], 0);
    }
  }

  lemma {:induction false} ScanRoundTrip(cs: seq<Coding>, comps: seq<Component>, members: seq<nat>, s: seq<bool>,
          pos: nat, mcus: seq<seq<Block>>, last: seq<int>, seen: seq<int>, i: nat)
    requires AllUsable(comps) && Codes(cs, comps) && Members(members, |cs|) && i <= |mcus|
    requires Shaped(mcus, |members|)
    requires ScanCoefs(mcus) && ScanNoneLost(mcus, i) && SamePredictions(comps, seen, last)
    requires ScanCoded(cs, members, mcus, last, i) && HasAt(s, pos, ScanBits(cs, members, mcus, last, i))
    ensures ScanDecode(comps, members, s, pos, seen, |mcus| - i) == ScanShown(comps, members, mcus, i)
    decreases |mcus| - i
  {
    hide McuBits, McuCoded, McuLast, McuDecode, McuShown, AllUsable, Codes, Members, AllCoefs, NoneLost, HasAt;
    if i < |mcus| {
      assert |cs| == |comps| by { SameCount(cs, comps); }
      var mcu := mcus[i];
      var bits, last' := McuBits(cs, members, mcu, last, 0), McuLast(members, mcu, last, 0);
      HasAtParts(s, pos, bits, ScanBits(cs, members, mcus, last', i + 1));
      McuRoundTrip(cs, comps, members, s, pos, mcu, last, seen, 0);
      var r := McuDecode(comps, members, s, pos, seen, 0);
      ScanRoundTrip(cs, comps, members, s, pos + |bits|, mcus, last', r.last, i + 1);
    }
  }

  lemma SameForAll(comps: seq<Component>, seen: seq<int>, last: seq<int>)
    requires |seen| == |last| == |comps| && AllFull(comps)
    ensures SamePredictions(comps, seen, last) <==> seen == last
  {
  }

  lemma NoneLostStep(mcus: seq<seq<Block>>, i: nat)
    requires i < |mcus|
    ensures ScanNoneLost(mcus, i) <==> NoneLost(mcus[i], 0) && ScanNoneLost(mcus, i + 1)
    ensures ScanCoefs(mcus) ==> AllCoefs(mcus[i])
  {
    hide NoneLost, AllCoefs;
  }

  lemma {:induction false} NextMcu(cs: seq<Coding>, members: seq<nat>, mcus: seq<seq<Block>>, last: seq<int>, i: nat)
    requires |cs| == |last| && Members(members, |cs|) && Shaped(mcus, |members|) && i < |mcus|
    ensures |mcus[i]| == |members|
    ensures var last' := McuLast(members, mcus[i], last, 0);
      && ScanBits(cs, members, mcus, last, i)
         == McuBits(cs, members, mcus[i], last, 0) + ScanBits(cs, members, mcus, last', i + 1)
      && (ScanCoded(cs, members, mcus, last, i)
          <==> McuCoded(cs, members, mcus[i], last, 0) && ScanCoded(cs, members, mcus, last', i + 1))
  {
    hide McuBits, McuCoded, McuLast;
  }

  /** One MCU of it, and where reading goes on. */
  lemma {:induction false} WholeMcuBack(cs: seq<Coding>, comps: seq<Component>, members: seq<nat>, s: seq<bool>,
          pos: nat, mcu: seq<Block>, last: seq<int>)
    requires AllUsable(comps) && Codes(cs, comps) && Members(members, |cs|) && |mcu| == |members|
    requires AllCoefs(mcu) && AllFull(comps) && |last| == |cs| == |comps|
    requires McuCoded(cs, members, mcu, last, 0) && HasAt(s, pos, McuBits(cs, members, mcu, last, 0))
    ensures var r := McuDecode(comps, members, s, pos, last, 0);
      && (r.mcu == mcu <==> NoneLost(mcu, 0))
      && (NoneLost(mcu, 0) ==>
           r.pos == pos + |McuBits(cs, members, mcu, last, 0)| && r.last == McuLast(members, mcu, last, 0))
  {
    SameForAll(comps, last, last);
    hide *;
    McuRoundTripIff(cs, comps, members, s, pos, mcu, last, 0);
    assert mcu[0..] == mcu;
    if NoneLost(mcu, 0) {
      McuRoundTrip(cs, comps, members, s, pos, mcu, last, last, 0);
      SameForAll(comps, McuDecode(comps, members, s, pos, last, 0).last, McuLast(members, mcu, last, 0));
    }
  }

  lemma NextDecoded(comps: seq<Component>, members: seq<nat>, s: seq<bool>, pos: nat, last: seq<int>, n: nat)
    requires AllUsable(comps) && |comps| == |last| && Members(members, |comps|)
    ensures n == 0 ==> ScanDecode(comps, members, s, pos, last, n) == []
    ensures n > 0 ==>
      var r := McuDecode(comps, members, s, pos, last, 0);
      ScanDecode(comps, members, s, pos, last, n) == [r.mcu] + ScanDecode(comps, members, s, r.pos, r.last, n - 1)
  {
  }

  lemma {:induction false} NothingDecoded(comps: seq<Component>, members: seq<nat>, s: seq<bool>, pos: nat,
          last: seq<int>, mcus: seq<seq<Block>>)
    requires AllUsable(comps) && |comps| == |last| && Members(members, |comps|)
    ensures ScanDecode(comps, members, s, pos, last, 0) == mcus[|mcus|..] == [] && ScanNoneLost(mcus, |mcus|)
  {
  }

  /** Main theorem: with all components wanted, a scan comes back exactly if no AC
      coefficient of it is -32768. */
  lemma {:induction false} ScanRoundTripIff(cs: seq<Coding>, comps: seq<Component>, members: seq<nat>, s: seq<bool>,
          pos: nat, mcus: seq<seq<Block>>, last: seq<int>, i: nat)
    requires AllUsable(comps) && Codes(cs, comps) && Members(members, |cs|) && i <= |mcus| && |last| == |cs|
    requires Shaped(mcus, |members|)
    requires ScanCoefs(mcus) && AllFull(comps)
    requires ScanCoded(cs, members, mcus, last, i) && HasAt(s, pos, ScanBits(cs, members, mcus, last, i))
    ensures |last| == |comps|
    ensures ScanDecode(comps, members, s, pos, last, |mcus| - i) == mcus[i..] <==> ScanNoneLost(mcus, i)
    decreases |mcus| - i
  {
    hide *;
    SameCount(cs, comps);
    if i < |mcus| {
      NextDecoded(comps, members, s, pos, last, |mcus| - i);
      NextMcu(cs, members, mcus, last, i);
      NoneLostStep(mcus, i);
      var mcu := mcus[i];
      var bits, last' := McuBits(cs, members, mcu, last, 0), McuLast(members, mcu, last, 0);
      HasAtParts(s, pos, bits, ScanBits(cs, members, mcus, last', i + 1));
      WholeMcuBack(cs, comps, members, s, pos, mcu, last);
      var r := McuDecode(comps, members, s, pos, last, 0);
      HeadAndTail(mcus, i, r.mcu, ScanDecode(comps, members, s, r.pos, r.last, |mcus| - (i + 1)));
      if NoneLost(mcu, 0) {
        ScanRoundTripIff(cs, comps, members, s, pos + |bits|, mcus, last', i + 1);
      }
    } else {
      NothingDecoded(comps, members, s, pos, last, mcus);
    }
  }

  lemma SameCount(cs: seq<Coding>, comps: seq<Component>)
    requires Codes(cs, comps)
    ensures |cs| == |comps|
  {
  }

  /** Main theorem: the bytes of an encoded scan - coded, padded with ones, packed
      and stuffed - followed by any marker and any other bytes, decode to what is to
      be shown of the blocks that were encoded, if no AC coefficient is -32768; with
      all components wanted, exactly then to those blocks. */
  lemma {:induction false} BytesRoundTrip(cs: seq<Coding>, comps: seq<Component>, members: seq<nat>,
          mcus: seq<seq<Block>>, last: seq<int>, e: seq<bool>, m: UInt8, tail: seq<UInt8>)
    requires AllUsable(comps) && Codes(cs, comps) && Members(members, |cs|) && |last| == |comps|
    requires Shaped(mcus, |members|)
    requires ScanCoefs(mcus)
    requires ScanCoded(cs, members, mcus, last, 0) && e == Padded(ScanBits(cs, members, mcus, last, 0))
    requires m != 0 && m != 0xff
    ensures var data := Stuffed(Packed(e, |e| / 8)) + [0xff, m] + tail;
      && EndsInMarker(data, 0)
      && var result := ScanDecode(comps, members, BytesToBits(Payload(data, 0)), 0, last, |mcus|);
      && (ScanNoneLost(mcus, 0) ==> result == ScanShown(comps, members, mcus, 0))
      && (AllFull(comps) ==> (result == mcus <==> ScanNoneLost(mcus, 0)))
  {
    hide ScanBits, ScanCoded, ScanDecode, ScanShown, AllUsable, Codes, AllFull, ScanCoefs, ScanNoneLost;
    hide Members, HasAt, Packed, Stuffed, Payload, EndsInMarker;
    SameCount(cs, comps);
    var p := Packed(e, |e| / 8);
    var data := Stuffed(p) + [0xff, m] + tail;
    assert data[0..0 + |Stuffed(p)|] == Stuffed(p);
    PayloadOfStuffed(data, 0, p, m);
    UnpackPacked(e, |e| / 8);
    assert e[..8 * (|e| / 8)] == e;
    var bits := ScanBits(cs, members, mcus, last, 0);
    assert e[0..0 + |bits|] == bits;
    assert HasAt(e, 0, bits) by { PrefixAt(e, bits); }
    if ScanNoneLost(mcus, 0) {
      ScanRoundTrip(cs, comps, members, e, 0, mcus, last, last, 0);
    }
    if AllFull(comps) {
      ScanRoundTripIff(cs, comps, members, e, 0, mcus, last, 0);
      assert mcus[0..] == mcus;
    }
  }

  lemma PrefixAt(s: seq<bool>, e: seq<bool>)
    requires |e| <= |s| && s[0..0 + |e|] == e
    ensures HasAt(s, 0, e)
  {
  }
}
