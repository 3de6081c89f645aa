/** The entropy coder objects: encode_mcu_huff, finish_pass_huff and decode_mcu,
    which work on a copy of the saved state and save it back only on success. */
module HuffCoder {
  import opened Bits
  import opened BitStream
  import opened HuffTable
  import opened HuffDerived
  import opened BitReader
  import opened BitWriter
  import opened HuffBlock
  import opened HuffCodec
  import opened HuffScan

  /** What encode_one_block can take. */
  ghost predicate Encodable(mcu: seq<Block>) {
    forall i :: 0 <= i < |mcu| ==> Coefs(mcu[i]) && Indexable(mcu[i], 1, 0)
  }

  ghost predicate Predictions(last: seq<int>) {
    forall m :: 0 <= m < |last| ==> -0x8000 <= last[m] < 0x8000
  }

  class HuffEncoder {
    const codings: seq<Coding>
    const members: seq<nat>
    ghost const comps: seq<Component>
    var saved: Writer
    var lastDcVal: seq<int>

    constructor (codings: seq<Coding>, members: seq<nat>, ghost comps: seq<Component>)
      requires Codes(codings, comps) && Members(members, |codings|)
      ensures this.codings == codings && this.members == members && this.comps == comps
      ensures Valid() && fresh(saved) && saved.emitted == [] && lastDcVal == seq(|codings|, _ => 0)
    {
      this.codings, this.members, this.comps := codings, members, comps;
      saved := new Writer();
      lastDcVal := seq(|codings|, _ => 0);
    }

    ghost predicate Valid()
      reads this, saved
    {
      && saved.Valid() && Codes(codings, comps) && Members(members, |codings|)
      && |lastDcVal| == |codings| && Predictions(lastDcVal)
    }

    /** encode_mcu_huff. It fails exactly if a symbol has no code word, and then
        leaves the state as it was. */
    method EncodeMcu(mcu: seq<Block>) returns (ok: bool)
      requires Valid() && |mcu| == |members| && Encodable(mcu)
      modifies this
      ensures Valid()
      ensures ok <==> McuCoded(codings, members, mcu, old(lastDcVal), 0)
      ensures !ok ==> unchanged(this)
      ensures ok ==>
        && fresh(saved)
        && saved.emitted == old(saved.emitted) + McuBits(codings, members, mcu, old(lastDcVal), 0)
        && lastDcVal == McuLast(members, mcu, old(lastDcVal), 0)
    {
      hide Writer.Valid, Codes, Coder, Coefs, Indexable, BlockBits, BlockCoded;
      var state := new Writer.Load(saved);
      var last := lastDcVal;
      ghost var bits := McuBits(codings, members, mcu, last, 0);
      ghost var coded := McuCoded(codings, members, mcu, last, 0);
      ghost var after := McuLast(members, mcu, last, 0);
      var blkn := 0;
      while blkn < |mcu|
        invariant blkn <= |mcu| && |last| == |codings| && Predictions(last)
        invariant state.Valid() && fresh(state)
        invariant state.emitted + McuBits(codings, members, mcu, last, blkn) == saved.emitted + bits
        invariant McuCoded(codings, members, mcu, last, blkn) == coded
        invariant McuLast(members, mcu, last, blkn) == after
        modifies state
      {
        var ci := members[blkn];
        ghost var e := state.emitted;
        OneComponent(codings, comps, ci);
        ok := EncodeOneBlock(state, mcu[blkn], last[ci], codings[ci].dc, codings[ci].ac, comps[ci].dc, comps[ci].ac);
        if !ok {
          return;
        }
        DcInRange(mcu[blkn]);
        ghost var rest := McuBits(codings, members, mcu, last[ci := mcu[blkn][0]], blkn + 1);
        assert state.emitted + rest == e + (BlockBits(codings[ci].dc, codings[ci].ac, mcu[blkn], last[ci]) + rest);
        last := last[ci := mcu[blkn][0]];
        blkn := blkn + 1;
      }
      ok := true;
      assert state.emitted + [] == state.emitted;
      saved := state;
      lastDcVal := last;
    }

    /** finish_pass_huff: the bytes of the scan are complete. */
    method FinishPass()
      requires Valid()
      modifies this
      ensures Valid() && fresh(saved) && lastDcVal == old(lastDcVal)
      ensures saved.emitted == Padded(old(saved.emitted))
      ensures saved.out == Stuffed(Packed(saved.emitted, |saved.emitted| / 8))
      ensures old(saved.emitted) <= saved.emitted && |saved.emitted| % 8 == 0
      ensures |saved.emitted| < |old(saved.emitted)| + 8
      ensures forall i :: |old(saved.emitted)| <= i < |saved.emitted| ==> saved.emitted[i]
    {
      hide Writer.Valid, Codes, Stuffed, Packed;
      var state := new Writer.Load(saved);
      state.FlushBits();
      saved := state;
    }
  }

  lemma OneComponent(cs: seq<Coding>, comps: seq<Component>, i: nat)
    requires Codes(cs, comps) && i < |cs|
    ensures |comps| == |cs| && Coder(cs[i].dc, comps[i].dc) && Coder(cs[i].ac, comps[i].ac)
  {
  }

  lemma DcInRange(b: Block)
    requires Coefs(b)
    ensures -0x8000 <= b[0] < 0x8000
  {
  }

  class HuffDecoder {
    const decodings: seq<Decoding>
    const members: seq<nat>
    ghost const comps: seq<Component>
    var bitstate: Reader
    var lastDcVal: seq<int>

    constructor (data: seq<UInt8>, decodings: seq<Decoding>, members: seq<nat>, ghost comps: seq<Component>)
      requires Decodes(decodings, comps) && AllUsable(comps) && Members(members, |comps|)
      ensures this.decodings == decodings && this.members == members && this.comps == comps
      ensures Valid() && fresh(bitstate) && bitstate.data == data && bitstate.Pos() == 0
      ensures lastDcVal == seq(|comps|, _ => 0)
    {
      this.decodings, this.members, this.comps := decodings, members, comps;
      bitstate := new Reader(data);
      lastDcVal := seq(|decodings|, _ => 0);
    }

    ghost predicate Valid()
      reads this, bitstate
    {
      && bitstate.Valid() && Decodes(decodings, comps) && AllUsable(comps) && Members(members, |comps|)
      && |lastDcVal| == |comps|
    }

    /** decode_mcu, into zeroed blocks. It fails only if the data run dry, and then
        leaves the state as it was. */
    method DecodeMcu(mcuData: seq<array<int>>) returns (ok: bool)
      requires Valid() && |mcuData| == |members|
      requires forall i, j :: 0 <= i < j < |mcuData| ==> mcuData[i] != mcuData[j]
      requires forall i :: 0 <= i < |mcuData| ==> mcuData[i].Length == DCTSIZE2 && mcuData[i][..] == Zeros()
      modifies this, mcuData
      ensures Valid() && bitstate.data == old(bitstate.data)
      ensures !ok ==> unchanged(this) && !EndsInMarker(bitstate.data, 0)
      ensures ok ==>
        var r := McuDecode(comps, members, bitstate.Stream(), old(bitstate.Pos()), old(lastDcVal), 0);
        && fresh(bitstate) && bitstate.Pos() == r.pos && lastDcVal == r.last
        && forall i :: 0 <= i < |mcuData| ==> mcuData[i][..] == r.mcu[i]
    {
      hide Reader.Valid, Reader.Stream, EndsInMarker, Decodes, AllUsable, BlockDecode;
      hide Zeros, DerivedFrom, Usable, McuDecode, Behind, DcSymbols;
      var state := new Reader.Load(bitstate);
      var last := lastDcVal;
      ghost var stream := state.Stream();
      ghost var all := McuDecode(comps, members, stream, state.Pos(), last, 0);
      ghost var done: seq<Block> := [];
      NoBlocksYet(comps, members, stream, state.Pos(), last);
      var blkn := 0;
      while blkn < |mcuData|
        invariant blkn <= |mcuData| && |last| == |comps| && |done| == blkn
        invariant fresh(state) && state.Valid() && state.data == bitstate.data && state.Stream() == stream
        invariant all == Behind(done, McuDecode(comps, members, stream, state.Pos(), last, blkn))
        invariant forall i :: 0 <= i < blkn ==> mcuData[i][..] == done[i]
        invariant forall i :: blkn <= i < |mcuData| ==> mcuData[i][..] == Zeros()
        modifies state, mcuData
      {
        var ci := members[blkn];
        ghost var pos := state.Pos();
        OneDecoding(decodings, comps, ci);
        var dc;
        ok, dc := DecodeBlock(state, decodings[ci], comps[ci], last[ci], mcuData[blkn]);
        if !ok {
          return;
        }
        OneMoreBlock(comps, members, stream, pos, last, blkn, done, BlockResult(mcuData[blkn][..], state.Pos(), dc));
        last := last[ci := dc];
        done := done + [mcuData[blkn][..]];
        blkn := blkn + 1;
      }
      ok := true;
      AllBlocks(comps, members, stream, state.Pos(), last, done);
      bitstate := state;
      lastDcVal := last;
    }
  }

  lemma OneDecoding(ds: seq<Decoding>, comps: seq<Component>, i: nat)
    requires Decodes(ds, comps) && AllUsable(comps) && i < |comps|
    ensures |ds| == |comps| && ds[i].use == comps[i].use
    ensures HuffTable.Valid(comps[i].dc) && HuffTable.Valid(comps[i].ac) && DcSymbols(comps[i].dc)
    ensures DerivedFrom(ds[i].dc, comps[i].dc) && DerivedFrom(ds[i].ac, comps[i].ac)
  {
    hide DerivedFrom, HuffTable.Valid, DcSymbols, PrefixCode;
  }

  /** The result r with the blocks done in front. */
  ghost function Behind(done: seq<Block>, r: McuResult): McuResult {
    McuResult(done + r.mcu, r.pos, r.last)
  }

  lemma {:induction false} NoBlocksYet(comps: seq<Component>, members: seq<nat>, s: seq<bool>, pos: nat,
          last: seq<int>)
    requires AllUsable(comps) && |comps| == |last| && Members(members, |comps|)
    ensures Behind([], McuDecode(comps, members, s, pos, last, 0)) == McuDecode(comps, members, s, pos, last, 0)
  {
    hide AllUsable, Members;
    var r := McuDecode(comps, members, s, pos, last, 0);
    assert [] + r.mcu == r.mcu;
  }

  lemma OneMoreBlock(comps: seq<Component>, members: seq<nat>, s: seq<bool>, pos: nat, last: seq<int>, i: nat,
          done: seq<Block>, r: BlockResult)
    requires AllUsable(comps) && |comps| == |last| && Members(members, |comps|) && i < |members|
    requires HuffTable.Valid(comps[members[i]].dc) && HuffTable.Valid(comps[members[i]].ac)
    requires r == BlockDecode(comps[members[i]], s, pos, last[members[i]])
    ensures Behind(done, McuDecode(comps, members, s, pos, last, i))
         == Behind(done + [r.block], McuDecode(comps, members, s, r.pos, last[members[i] := r.last], i + 1))
  {
    hide AllUsable, HuffTable.Valid, BlockDecode;
    var rest := McuDecode(comps, members, s, r.pos, last[members[i] := r.last], i + 1);
    assert done + ([r.block] + rest.mcu) == (done + [r.block]) + rest.mcu;
  }

  lemma {:induction false} AllBlocks(comps: seq<Component>, members: seq<nat>, s: seq<bool>, pos: nat, last: seq<int>,
          done: seq<Block>)
    requires AllUsable(comps) && |comps| == |last| && Members(members, |comps|)
    ensures Behind(done, McuDecode(comps, members, s, pos, last, |members|)) == McuResult(done, pos, last)
  {
    hide AllUsable, Members;
  }

  /** The body of the block loop of decode_mcu. */
  method DecodeBlock(br: Reader, d: Decoding, ghost c: Component, last: int, block: array<int>)
    returns (ok: bool, dc: int)
    requires HuffTable.Valid(c.dc) && HuffTable.Valid(c.ac) && DcSymbols(c.dc)
    requires br.Valid() && d.use == c.use && DerivedFrom(d.dc, c.dc) && DerivedFrom(d.ac, c.ac)
    requires block.Length == DCTSIZE2 && block[..] == Zeros()
    modifies br, block
    ensures !ok ==> !EndsInMarker(br.data, 0)
    ensures ok ==> br.Valid()
    ensures ok ==> BlockResult(block[..], br.Pos(), dc) == BlockDecode(c, br.Stream(), old(br.Pos()), last)
  {
    hide Reader.Valid, Reader.Stream, EndsInMarker, DerivedFrom, DcDecode;
    hide AcDecode, Zeros, DcBlock, S16, HuffTable.Valid;
    var s;
    ok, s := DecodeDc(br, d.dc, c.dc);
    dc := last;
    if !ok {
      return;
    }
    if d.use == Unneeded {
      ok := SkipAc(br, d.ac, c.ac, Zeros());
      return;
    }
    s := s + last;
    dc := s;
    block[0] := S16(s);
    assert block[..] == DcBlock(S16(s)) by { DcOnlyBlock(block[..], S16(s)); }
    if d.use == Full {
      ok := DecodeAc(br, d.ac, block, c.ac);
    } else {
      ok := SkipAc(br, d.ac, c.ac, DcBlock(S16(s)));
    }
  }

  lemma DcOnlyBlock(b: Block, v: int)
    requires b == Zeros()[0 := v]
    ensures b == DcBlock(v)
  {
  }

  // ----- a scan there and back -----

  ghost predicate AllEncodable(mcus: seq<seq<Block>>) {
    forall j :: 0 <= j < |mcus| ==> Encodable(mcus[j])
  }

  lemma {:induction false} IndexableFrom(b: Block, k: nat, r: nat)
    requires Coefs(b) && NoSixteenBits(b, 1) && k >= 1
    ensures Indexable(b, k, r)
    decreases DCTSIZE2 - k
  {
    hide NBits, NaturalOrder;
    if k < DCTSIZE2 {
      SizeOf(b[NaturalOrder(k)]);
      IndexableFrom(b, k + 1, r + 1);
      IndexableFrom(b, k + 1, 0);
    }
  }

  /** Blocks without an AC coefficient of -32768 can always be taken. */
  lemma EncodableIf(mcus: seq<seq<Block>>)
    requires ScanCoefs(mcus) && ScanNoneLost(mcus, 0)
    ensures AllEncodable(mcus)
  {
    hide Coefs, NoSixteenBits, Indexable;
    forall j, i | 0 <= j < |mcus| && 0 <= i < |mcus[j]|
      ensures Coefs(mcus[j][i]) && Indexable(mcus[j][i], 1, 0)
    {
      assert AllCoefs(mcus[j]) && NoneLost(mcus[j], 0);
      IndexableFrom(mcus[j][i], 1, 0);
    }
  }

  lemma EncodableCoefs(mcus: seq<seq<Block>>)
    requires AllEncodable(mcus)
    ensures ScanCoefs(mcus)
  {
    hide Coefs, Indexable;
    forall j | 0 <= j < |mcus|
      ensures AllCoefs(mcus[j])
    {
      assert Encodable(mcus[j]);
    }
  }

  /** All the MCUs of a scan, then the end of the pass. */
  method EncodeScan(enc: HuffEncoder, mcus: seq<seq<Block>>) returns (ok: bool)
    requires enc.Valid() && Shaped(mcus, |enc.members|) && AllEncodable(mcus)
    modifies enc
    ensures enc.Valid()
    ensures ok <==> ScanCoded(enc.codings, enc.members, mcus, old(enc.lastDcVal), 0)
    ensures ok ==>
      && enc.saved.emitted
           == Padded(old(enc.saved.emitted) + ScanBits(enc.codings, enc.members, mcus, old(enc.lastDcVal), 0))
      && enc.saved.out == Stuffed(Packed(enc.saved.emitted, |enc.saved.emitted| / 8))
  {
    hide Writer.Valid, Codes, Predictions, McuBits, McuCoded, McuLast, Encodable, Stuffed, Packed, Padded;
    ghost var e, bits := enc.saved.emitted, ScanBits(enc.codings, enc.members, mcus, enc.lastDcVal, 0);
    ghost var coded := ScanCoded(enc.codings, enc.members, mcus, enc.lastDcVal, 0);
    var j := 0;
    while j < |mcus|
      invariant j <= |mcus| && enc.Valid()
      invariant enc.saved.emitted + ScanBits(enc.codings, enc.members, mcus, enc.lastDcVal, j) == e + bits
      invariant ScanCoded(enc.codings, enc.members, mcus, enc.lastDcVal, j) == coded
    {
      ghost var before, last := enc.saved.emitted, enc.lastDcVal;
      ok := enc.EncodeMcu(mcus[j]);
      if !ok {
        return;
      }
      ghost var rest := ScanBits(enc.codings, enc.members, mcus, enc.lastDcVal, j + 1);
      assert enc.saved.emitted + rest == before + (McuBits(enc.codings, enc.members, mcus[j], last, 0) + rest);
      j := j + 1;
    }
    ok := true;
    assert enc.saved.emitted + [] == enc.saved.emitted;
    enc.FinishPass();
  }

  /** Zeroed blocks for one MCU. */
  method NewBlocks(n: nat) returns (mcuData: seq<array<int>>)
    ensures |mcuData| == n && fresh(mcuData)
    ensures forall i, j :: 0 <= i < j < n ==> mcuData[i] != mcuData[j]
    ensures forall i :: 0 <= i < n ==> mcuData[i].Length == DCTSIZE2 && mcuData[i][..] == Zeros()
  {
    mcuData := [];
    while |mcuData| < n
      invariant |mcuData| <= n && fresh(mcuData)
      invariant forall i, j :: 0 <= i < j < |mcuData| ==> mcuData[i] != mcuData[j]
      invariant forall i :: 0 <= i < |mcuData| ==> mcuData[i].Length == DCTSIZE2 && mcuData[i][..] == Zeros()
    {
      var block := new int[DCTSIZE2](_ => 0);
      assert block[..] == Zeros();
      mcuData := mcuData + [block];
    }
  }

  /** The contents of the blocks of one MCU. */
  method Contents(mcuData: seq<array<int>>) returns (mcu: seq<Block>)
    requires forall i :: 0 <= i < |mcuData| ==> mcuData[i].Length == DCTSIZE2
    ensures |mcu| == |mcuData| && forall i :: 0 <= i < |mcu| ==> mcu[i] == mcuData[i][..]
  {
    mcu := [];
    while |mcu| < |mcuData|
      invariant |mcu| <= |mcuData| && forall i :: 0 <= i < |mcu| ==> mcu[i] == mcuData[i][..]
    {
      mcu := mcu + [mcuData[|mcu|][..]];
    }
  }

  lemma {:induction false} ScanDecodeStep(comps: seq<Component>, members: seq<nat>, s: seq<bool>, pos: nat,
          last: seq<int>, n: nat, done: seq<seq<Block>>)
    requires AllUsable(comps) && |comps| == |last| && Members(members, |comps|)
    ensures n == 0 ==> done + ScanDecode(comps, members, s, pos, last, n) == done
    ensures n > 0 ==>
      var r := McuDecode(comps, members, s, pos, last, 0);
      done + ScanDecode(comps, members, s, pos, last, n)
      == (done + [r.mcu]) + ScanDecode(comps, members, s, r.pos, r.last, n - 1)
  {
    hide AllUsable, Members, McuDecode;
    if n > 0 {
      var r := McuDecode(comps, members, s, pos, last, 0);
      var rest := ScanDecode(comps, members, s, r.pos, r.last, n - 1);
      assert done + ([r.mcu] + rest) == (done + [r.mcu]) + rest;
    }
  }

  /** The next n MCUs. */
  method DecodeScan(dec: HuffDecoder, n: nat) returns (ok: bool, mcus: seq<seq<Block>>)
    requires dec.Valid()
    modifies dec
    ensures dec.Valid() && dec.bitstate.data == old(dec.bitstate.data)
    ensures !ok ==> !EndsInMarker(dec.bitstate.data, 0)
    ensures ok ==>
      mcus == ScanDecode(dec.comps, dec.members, dec.bitstate.Stream(), old(dec.bitstate.Pos()), old(dec.lastDcVal), n)
  {
    hide Reader.Valid, Payload, BytesToBits, EndsInMarker, Decodes, AllUsable, Members, McuDecode, Zeros, ScanDecode;
    mcus := [];
    ghost var stream := dec.bitstate.Stream();
    ghost var all := ScanDecode(dec.comps, dec.members, stream, dec.bitstate.Pos(), dec.lastDcVal, n);
    var left := n;
    assert [] + all == all;
    while left > 0
      invariant dec.Valid() && dec.bitstate.data == old(dec.bitstate.data) && dec.bitstate.Stream() == stream
      invariant all == mcus + ScanDecode(dec.comps, dec.members, stream, dec.bitstate.Pos(), dec.lastDcVal, left)
    {
      ScanDecodeStep(dec.comps, dec.members, stream, dec.bitstate.Pos(), dec.lastDcVal, left, mcus);
      ghost var r := McuDecode(dec.comps, dec.members, stream, dec.bitstate.Pos(), dec.lastDcVal, 0);
      var mcuData := NewBlocks(|dec.members|);
      ok := dec.DecodeMcu(mcuData);
      if !ok {
        return;
      }
      var mcu := Contents(mcuData);
      assert mcu == r.mcu;
      mcus := mcus + [mcu];
      left := left - 1;
    }
    ok := true;
    ScanDecodeStep(dec.comps, dec.members, stream, dec.bitstate.Pos(), dec.lastDcVal, 0, mcus);
  }

  /** Main theorem, for the coder as it runs: whatever is encoded without an error is
      decoded without starving. If no AC coefficient is -32768, every component shows
      what it should; with all components wanted, the blocks come back exactly then. */
  method ThereAndBack(codings: seq<Coding>, decodings: seq<Decoding>, ghost comps: seq<Component>, members: seq<nat>,
          mcus: seq<seq<Block>>, marker: UInt8, tail: seq<UInt8>)
    returns (ok: bool, result: seq<seq<Block>>)
    requires Codes(codings, comps) && Decodes(decodings, comps) && AllUsable(comps) && Members(members, |codings|)
    requires Shaped(mcus, |members|) && AllEncodable(mcus) && marker != 0 && marker != 0xff
    ensures ok <==> ScanCoded(codings, members, mcus, seq(|codings|, _ => 0), 0)
    ensures ok ==> |codings| == |comps|
    ensures ok && ScanNoneLost(mcus, 0) ==> result == ScanShown(comps, members, mcus, 0)
    ensures ok && AllFull(comps) ==> (result == mcus <==> ScanNoneLost(mcus, 0))
    ensures ok && (forall m :: 0 <= m < |comps| ==> comps[m].use == Full) ==>
      (result == mcus <==>
        forall j, i, k :: 0 <= j < |mcus| && 0 <= i < |mcus[j]| && 1 <= k < 64 ==> mcus[j][i][k] != -0x8000)
  {
    NoneLostIs(mcus);
    FullIs(comps);
    hide Codes, Decodes, AllUsable, Members, Stuffed, Packed, Padded, Reader.Valid, Writer.Valid, AllFull;
    hide ScanBits, ScanCoded, ScanDecode, ScanShown, EndsInMarker, Payload, BytesToBits, AllEncodable;
    hide ScanCoefs, ScanNoneLost;
    result := [];
    ghost var zeros := seq(|codings|, _ => 0);
    SameCount(codings, comps);
    EncodableCoefs(mcus);
    var enc := new HuffEncoder(codings, members, comps);
    ok := EncodeScan(enc, mcus);
    if ok {
      var data := enc.saved.out + [0xff, marker] + tail;
      ghost var bits := ScanBits(codings, members, mcus, zeros, 0);
      assert [] + bits == bits;
      BytesRoundTrip(codings, comps, members, mcus, zeros, enc.saved.emitted, marker, tail);
      var dec := new HuffDecoder(data, decodings, members, comps);
      ok, result := DecodeScan(dec, |mcus|);
    }
  }

  lemma FullIs(comps: seq<Component>)
    ensures AllFull(comps) <==> forall m :: 0 <= m < |comps| ==> comps[m].use == Full
  {
  }

  // ----- a coefficient that is lost -----

  /** A DC table for the size 0, and an AC table for 0x10, a run of one zero with a
      value of size 0, and the end of a block. */
  function LossyTables(): (c: Component) {
    var dc := Table(seq(17, l => if l == 1 then 1 else 0), seq(256, _ => 0));
    var ac := Table(seq(17, l => if l == 2 then 2 else 0), seq(256, p => if p == 0 then 0x10 else 0));
    Component(dc, ac, Full)
  }

  /** One block whose only coefficient is -32768. */
  function LossyBlock(): (b: Block) {
    Zeros()[NaturalOrder(1) := -0x8000]
  }

  /** A table with all its code words of one length m, half of those possible. */
  ghost predicate HalfOfLength(t: Table, m: nat) {
    && |t.bits| == 17 && 1 <= m <= 16
    && forall k :: 0 <= k < 17 ==> t.bits[k] == if k == m then Pow2(m - 1) else 0
  }

  lemma {:induction false} OneStart(t: Table, m: nat, l: nat)
    requires HalfOfLength(t, m) && 1 <= l <= 17
    ensures Start(t, l) == if l > m then Pow2(m - 1) else 0
  {
    hide Pow2;
    if l > 1 {
      OneStart(t, m, l - 1);
    }
  }

  lemma {:induction false} OneFirstCode(t: Table, m: nat, l: nat)
    requires HalfOfLength(t, m) && 1 <= l <= 17
    ensures FirstCode(t, l) == if l > m then Pow2(l - 1) else 0
  {
    assert l > 1 ==> Pow2(l - 1) == 2 * Pow2(l - 2);
    hide Pow2;
    if l > 1 {
      OneFirstCode(t, m, l - 1);
    }
  }

  lemma {:induction false} OneLengthFits(t: Table, m: nat)
    requires HalfOfLength(t, m)
    ensures |t.bits| == 17 && PrefixCode(t) && Start(t, 17) == Pow2(m - 1)
  {
    OneStart(t, m, 17);
    forall l | 1 <= l <= 16
      ensures LengthFits(t, l)
    {
      assert Pow2(l) == 2 * Pow2(l - 1) && Pow2(l - 1) > 0;
      hide Pow2, FirstCode;
      OneFirstCode(t, m, l);
    }
  }

  lemma LossyTablesUsable(c: Component)
    requires c == LossyTables()
    ensures Usable(c) && PrefixCode(c.dc) && PrefixCode(c.ac)
    ensures Listed(c.dc, 0) && Listed(c.ac, 0) && Listed(c.ac, 0x10)
  {
    assert Pow2(0) == 1 && Pow2(1) == 2;
    hide Pow2, FirstCode, Start;
    OneLengthFits(c.dc, 1);
    OneLengthFits(c.ac, 2);
    assert c.dc.huffval[0] == 0 && c.ac.huffval[0] == 0x10 && c.ac.huffval[1] == 0;
  }

  lemma {:induction false} OnlyZeros(c: CTable, b: Block, k: nat, r: nat)
    requires HasCode(c, 0) && forall i :: k <= i < DCTSIZE2 ==> b[NaturalOrder(i)] == 0
    ensures AcCoded(c, b, k, r) && Indexable(b, k, r)
    decreases DCTSIZE2 - k
  {
    hide HasCode, NaturalOrder, NBits;
    if k < DCTSIZE2 {
      OnlyZeros(c, b, k + 1, r + 1);
    }
  }

  lemma {:induction false} LossyBlockCoded(g: Coding, b: Block)
    requires b == LossyBlock() && HasCode(g.dc, 0) && HasCode(g.ac, 0) && HasCode(g.ac, 0x10)
    ensures Coefs(b) && Indexable(b, 1, 0) && BlockCoded(g.dc, g.ac, b, 0) && !NoSixteenBits(b, 1)
  {
    assert NaturalOrder(0) == 0 && NaturalOrder(1) == 1;
    forall i | 2 <= i < DCTSIZE2
      ensures NaturalOrder(i) != 1
    {
      ZigzagOfNatural(i);
      assert ZigzagTable(1) == 1;
    }
    hide HasCode, NaturalOrder, BitLength;
    SizeOf(b[1]);
    SizeOf(0);
    OnlyZeros(g.ac, b, 2, 0);
    assert b[NaturalOrder(1)] == -0x8000;
  }

  method DeriveLossy() returns (g: Coding, d: Decoding)
    ensures Codes([g], [LossyTables()]) && Decodes([d], [LossyTables()])
    ensures HasCode(g.dc, 0) && HasCode(g.ac, 0) && HasCode(g.ac, 0x10)
  {
    hide Start, Listed, HasCode, LossyTables, EncodesFor, DerivedFrom, DcSymbols, CoversTable, LengthFits;
    var c := LossyTables();
    LossyTablesUsable(c);
    var dc, ddc := DeriveBoth(c.dc);
    var ac, dac := DeriveBoth(c.ac);
    g, d := Coding(dc, ac), Decoding(ddc, dac, c.use);
  }

  /** The encoder's and the decoder's tables for one prefix code. */
  method DeriveBoth(t: Table) returns (c: CTable, d: DTable)
    requires HuffTable.Valid(t) && PrefixCode(t)
    ensures Coder(c, t) && DerivedFrom(d, t) && forall v :: 0 <= v < 256 ==> (HasCode(c, v) <==> Listed(t, v))
  {
    hide Start, Listed, HasCode, EncodesFor, DerivedFrom, CoversTable, LengthFits;
    c := MakeCDerivedTbl(t);
    d := MakeDDerivedTbl(t);
    forall v | 0 <= v < 256
      ensures HasCode(c, v) <==> Listed(t, v)
    {
      HasCodeIff(c, t, v);
    }
  }

  lemma {:induction false} OneBlockScan(g: Coding, b: Block)
    requires Coefs(b) && Indexable(b, 1, 0) && BlockCoded(g.dc, g.ac, b, 0) && !NoSixteenBits(b, 1)
    ensures Members([0], 1) && Shaped([[b]], 1) && AllEncodable([[b]]) && !ScanNoneLost([[b]], 0)
    ensures ScanCoded([g], [0], [[b]], [0], 0)
  {
    hide BlockCoded, Coefs, NoSixteenBits, Indexable;
    var mcus := [[b]];
    assert mcus[0] == [b] && mcus[0][0] == b;
    assert Encodable(mcus[0]);
    assert !NoneLost(mcus[0], 0);
    assert McuCoded([g], [0], mcus[0], [0][0 := b[0]], 1);
    assert McuCoded([g], [0], mcus[0], [0], 0);
  }

  lemma {:induction false} LossyScan(g: Coding, b: Block)
    requires b == LossyBlock() && HasCode(g.dc, 0) && HasCode(g.ac, 0) && HasCode(g.ac, 0x10)
    ensures Members([0], 1) && Shaped([[b]], 1) && AllEncodable([[b]]) && !ScanNoneLost([[b]], 0)
    ensures AllUsable([LossyTables()]) && AllFull([LossyTables()])
    ensures seq(1, _ => 0) == [0] && ScanCoded([g], [0], [[b]], [0], 0)
  {
    LossyTablesUsable(LossyTables());
    LossyUse();
    LossyBlockCoded(g, b);
    hide HasCode, LossyTables, LossyBlock, BlockCoded, Coefs, NoSixteenBits, Indexable, Usable;
    hide ScanCoded, ScanNoneLost, AllEncodable, Shaped, Members;
    OneBlockScan(g, b);
  }

  lemma LossyUse()
    ensures LossyTables().use == Full
  {
  }

  /** The condition is not idle: here is a block that the encoder accepts and the decoder
      gets wrong. */
  method LossyRun(marker: UInt8, tail: seq<UInt8>) returns (ok: bool, result: seq<seq<Block>>)
    requires marker != 0 && marker != 0xff
    ensures ok && result != [[LossyBlock()]]
  {
    hide *;
    var g, d := DeriveLossy();
    var b := LossyBlock();
    LossyScan(g, b);
    ok, result := ThereAndBack([g], [d], [LossyTables()], [0], [[b]], marker, tail);
  }
}
