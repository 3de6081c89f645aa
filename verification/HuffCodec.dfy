/** The loops of encode_one_block (jchuff.c) and decode_mcu (jdhuff.c) over one
    block, proved against the functions of HuffBlock. */
module HuffCodec {
  import opened Bits
  import opened BitStream
  import opened HuffTable
  import opened HuffDerived
  import opened BitReader
  import opened BitWriter
  import opened HuffBlock

  // ----- encoding -----

  /** Counting the bits of a DC difference. */
  method CountBits(m: nat) returns (nbits: nat)
    ensures nbits == BitLength(m)
  {
    var temp: nat := m;
    nbits := 0;
    while temp != 0
      invariant nbits + BitLength(temp) == BitLength(m)
    {
      nbits := nbits + 1;
      temp := temp / 2;
    }
  }

  /** Counting the bits of a non-zero coefficient. */
  method CountCoefBits(m: nat) returns (nbits: nat)
    requires m > 0
    ensures nbits == BitLength(m)
  {
    nbits := 1;
    var temp: nat := m / 2;
    while temp != 0
      invariant nbits + BitLength(temp) == BitLength(m)
    {
      nbits := nbits + 1;
      temp := temp / 2;
    }
  }

  /** Emitting the code word of a symbol, an error if it has none. */
  method EmitSymbol(w: Writer, c: CTable, v: nat, ghost t: Table) returns (ok: bool)
    requires w.Valid() && Coder(c, t) && v < 256
    modifies w
    ensures w.Valid() && (ok <==> HasCode(c, v))
    ensures ok ==> w.emitted == old(w.emitted) + CodeBits(c, v)
  {
    hide Writer.Valid, HuffTable.Valid, PrefixCode, ToBits;
    SymbolEntry(c, t, v);
    var size: nat := c.ehufsi[v];
    if size == 0 {
      ok := w.EmitBits(0, 0);
    } else {
      WordFits(c, t, v);
      ok := w.EmitBits(c.ehufco[v], size);
    }
  }

  lemma SymbolEntry(c: CTable, t: Table, v: nat)
    requires Coder(c, t) && v < 256
    ensures HuffTable.Valid(t)
    ensures |c.ehufsi| == |c.ehufco| == 256 && 0 <= c.ehufsi[v] <= 16 && (HasCode(c, v) <==> c.ehufsi[v] > 0)
  {
    hide HuffTable.Valid, PrefixCode;
    assert EntryEncodes(c, t, v);
  }

  lemma WordFits(c: CTable, t: Table, v: nat)
    requires Coder(c, t) && HasCode(c, v) && HuffTable.Valid(t)
    ensures v < 256 && 0 <= c.ehufco[v] < TWO32 && c.ehufco[v] % Pow2(c.ehufsi[v]) == c.ehufco[v]
  {
    hide Coder, Pow2;
    CodeFits(c, t, v);
    PowMonotone(c.ehufsi[v], 16);
    PowValues();
    DivUnique(c.ehufco[v], Pow2(c.ehufsi[v]), 0, c.ehufco[v]);
  }

  /** Emitting the low bits of a value: (unsigned int) temp2, nbits of it. */
  method EmitValue(w: Writer, v: int, nbits: nat) returns (ok: bool)
    requires w.Valid() && nbits == NBits(v) <= 16 && v != 0
    modifies w
    ensures w.Valid() && ok && w.emitted == old(w.emitted) + ValueBits(v)
  {
    hide Writer.Valid, BitLength, U32;
    NoBitsForZero(v);
    var temp2 := v;
    if v < 0 {
      temp2 := temp2 - 1;
    }
    LowBitsOfU32(temp2, nbits);
    ok := w.EmitBits(U32(temp2), nbits);
  }

  /** The run-length-16 codes before a coefficient. */
  method EmitRuns(w: Writer, c: CTable, r0: nat, ghost t: Table) returns (ok: bool, r: nat)
    requires w.Valid() && Coder(c, t)
    modifies w
    ensures w.Valid() && (ok <==> (r0 >= 16 ==> HasCode(c, 0xf0)))
    ensures ok ==> r == r0 % 16 && w.emitted == old(w.emitted) + ZrlBits(c, r0 / 16)
  {
    hide Writer.Valid, Coder, HasCode, CodeBits;
    r := r0;
    ghost var before := w.emitted;
    while r > 15
      invariant w.Valid() && r % 16 == r0 % 16 && r <= r0
      invariant r < r0 ==> HasCode(c, 0xf0)
      invariant w.emitted + ZrlBits(c, r / 16) == before + ZrlBits(c, r0 / 16)
    {
      ok := EmitSymbol(w, c, 0xf0, t);
      if !ok {
        return;
      }
      r := r - 16;
      assert w.emitted + ZrlBits(c, r / 16) == before + ZrlBits(c, r0 / 16) by {
        assert ZrlBits(c, r / 16 + 1) == CodeBits(c, 0xf0) + ZrlBits(c, r / 16);
      }
    }
    ok := true;
    assert w.emitted + [] == w.emitted;
  }

  /** The run and size of every coefficient make one of the 256 symbols; only
      -32768 behind fifteen zeros (modulo sixteen) does not. */
  predicate Indexable(b: Block, k: nat, r: nat)
    decreases DCTSIZE2 - k
  {
    if k >= DCTSIZE2 then true
    else
      var v := b[NaturalOrder(k)];
      if v == 0 then Indexable(b, k + 1, r + 1) else 16 * (r % 16) + NBits(v) < 256 && Indexable(b, k + 1, 0)
  }

  /** One non-zero coefficient behind r zeros. */
  method EncodeCoef(w: Writer, v: int, r0: nat, c: CTable, ghost t: Table) returns (ok: bool)
    requires w.Valid() && Coder(c, t) && v != 0 && -0x1_0000 < v < 0x1_0000 && 16 * (r0 % 16) + NBits(v) < 256
    modifies w
    ensures w.Valid() && (ok <==> (r0 >= 16 ==> HasCode(c, 0xf0)) && HasCode(c, 16 * (r0 % 16) + NBits(v)))
    ensures ok ==> w.emitted == old(w.emitted) + (ZrlBits(c, r0 / 16) + CoefBits(c, r0 % 16, v))
  {
    hide Writer.Valid, Coder, HasCode, CodeBits, NBits, ValueBits, ZrlBits;
    var temp, r := v, r0;
    ghost var e := w.emitted;
    ok, r := EmitRuns(w, c, r, t);
    if !ok {
      return;
    }
    if temp < 0 {
      temp := 0 - temp;
    }
    var nbits := CountCoefBits(temp);
    MagnitudeBits(v, nbits);
    ok := EmitSymbol(w, c, 16 * r + nbits, t);
    if !ok {
      return;
    }
    ok := EmitValue(w, v, nbits);
    Associate(e, ZrlBits(c, r0 / 16), CodeBits(c, 16 * r + nbits), ValueBits(v));
  }

  lemma Associate(e: seq<bool>, z: seq<bool>, c: seq<bool>, v: seq<bool>)
    ensures e + z + c + v == e + (z + (c + v))
  {
  }

  /** The AC part of encode_one_block. */
  method EncodeAc(w: Writer, block: Block, c: CTable, ghost t: Table) returns (ok: bool)
    requires w.Valid() && Coder(c, t) && Coefs(block) && Indexable(block, 1, 0)
    modifies w
    ensures w.Valid() && (ok <==> AcCoded(c, block, 1, 0))
    ensures ok ==> w.emitted == old(w.emitted) + AcBits(c, block, 1, 0)
  {
    hide Writer.Valid, Coder, HasCode, CodeBits, NaturalOrder, NBits, CoefBits, ZrlBits, AcBits, AcCoded, Indexable;
    var r: nat := 0;
    ghost var before := w.emitted;
    for k := 1 to DCTSIZE2
      invariant w.Valid() && Indexable(block, k, r)
      invariant AcCoded(c, block, k, r) == AcCoded(c, block, 1, 0)
      invariant w.emitted + AcBits(c, block, k, r) == before + AcBits(c, block, 1, 0)
    {
      var temp: int := block[NaturalOrder(k)];
      NextCoef(c, block, k, r);
      if temp == 0 {
        r := r + 1;
      } else {
        ghost var e := w.emitted;
        ok := EncodeCoef(w, temp, r, c, t);
        if !ok {
          return;
        }
        RestAfter(e, ZrlBits(c, r / 16), CoefBits(c, r % 16, temp), AcBits(c, block, k + 1, 0));
        r := 0;
      }
    }
    ok := true;
    NoMoreCoefs(c, block, DCTSIZE2, r);
    if r > 0 {
      ok := EmitSymbol(w, c, 0, t);
    }
    assert w.emitted + [] == w.emitted;
  }

  lemma {:induction false} NextCoef(c: CTable, b: Block, k: nat, r: nat)
    requires k < DCTSIZE2 && Coefs(b)
    ensures -0x8000 <= b[NaturalOrder(k)] < 0x8000
    ensures b[NaturalOrder(k)] == 0 ==>
      && AcBits(c, b, k, r) == AcBits(c, b, k + 1, r + 1)
      && AcCoded(c, b, k, r) == AcCoded(c, b, k + 1, r + 1)
      && Indexable(b, k, r) == Indexable(b, k + 1, r + 1)
    ensures b[NaturalOrder(k)] != 0 ==>
      var v := b[NaturalOrder(k)];
      && AcBits(c, b, k, r) == ZrlBits(c, r / 16) + (CoefBits(c, r % 16, v) + AcBits(c, b, k + 1, 0))
      && (AcCoded(c, b, k, r) <==>
           (r >= 16 ==> HasCode(c, 0xf0)) && HasCode(c, 16 * (r % 16) + NBits(v)) && AcCoded(c, b, k + 1, 0))
      && (Indexable(b, k, r) <==> 16 * (r % 16) + NBits(v) < 256 && Indexable(b, k + 1, 0))
  {
    hide HasCode, NaturalOrder, NBits, CoefBits, ZrlBits;
  }

  lemma {:induction false} NoMoreCoefs(c: CTable, b: Block, k: nat, r: nat)
    requires k == DCTSIZE2
    ensures AcBits(c, b, k, r) == if r > 0 then CodeBits(c, 0) else []
    ensures AcCoded(c, b, k, r) <==> (r > 0 ==> HasCode(c, 0))
  {
    hide HasCode, CodeBits;
  }

  lemma RestAfter(e: seq<bool>, z: seq<bool>, v: seq<bool>, rest: seq<bool>)
    ensures e + (z + v) + rest == e + (z + (v + rest))
  {
  }

  lemma {:induction false} MagnitudeBits(v: int, nbits: nat)
    requires nbits == BitLength(if v < 0 then 0 - v else v) && -0x1_0000 < v < 0x1_0000
    ensures nbits == NBits(v) <= 16 && (nbits == 0 <==> v == 0)
  {
    SizeOf(v);
  }

  /** The code of a block whose DC prediction is last. */
  function BlockBits(dc: CTable, ac: CTable, b: Block, last: int): seq<bool> {
    DcBits(dc, b[0] - last) + AcBits(ac, b, 1, 0)
  }

  predicate BlockCoded(dc: CTable, ac: CTable, b: Block, last: int) {
    HasCode(dc, NBits(b[0] - last)) && AcCoded(ac, b, 1, 0)
  }

  /** encode_one_block. It fails exactly if a symbol it needs has no code word. */
  method EncodeOneBlock(w: Writer, block: Block, last: int, dctbl: CTable, actbl: CTable, ghost dt: Table,
          ghost at: Table)
    returns (ok: bool)
    requires w.Valid() && Coder(dctbl, dt) && Coder(actbl, at)
    requires Coefs(block) && -0x8000 <= last < 0x8000 && Indexable(block, 1, 0)
    modifies w
    ensures w.Valid() && (ok <==> BlockCoded(dctbl, actbl, block, last))
    ensures ok ==> w.emitted == old(w.emitted) + BlockBits(dctbl, actbl, block, last)
  {
    hide Writer.Valid, Coder, HasCode, CodeBits, ValueBits, AcBits, AcCoded, Indexable, NBits;
    var temp := block[0] - last;
    ghost var e := w.emitted;
    var nbits := CountBits(if temp < 0 then 0 - temp else temp);
    MagnitudeBits(temp, nbits);
    ok := EmitSymbol(w, dctbl, nbits, dt);
    if !ok {
      return;
    }
    NoBitsForZero(temp);
    if nbits != 0 {
      ok := EmitValue(w, temp, nbits);
    }
    assert w.emitted == e + DcBits(dctbl, temp);
    ok := EncodeAc(w, block, actbl, at);
  }

  // ----- decoding -----

  const EXTEND_TEST: seq<int> := [0, 0x0001, 0x0002, 0x0004, 0x0008, 0x0010, 0x0020, 0x0040, 0x0080,
                                  0x0100, 0x0200, 0x0400, 0x0800, 0x1000, 0x2000, 0x4000]

  const EXTEND_OFFSET: seq<int> := [0, -0x0001, -0x0003, -0x0007, -0x000f, -0x001f, -0x003f, -0x007f, -0x00ff,
                                    -0x01ff, -0x03ff, -0x07ff, -0x0fff, -0x1fff, -0x3fff, -0x7fff]

  /** HUFF_EXTEND, by table. */
  function HuffExtend(x: int, n: nat): int
    requires 1 <= n <= 15
  {
    if x < EXTEND_TEST[n] then x + EXTEND_OFFSET[n] else x
  }

  lemma ExtendDoubles(n: nat)
    requires 2 <= n <= 15
    ensures |EXTEND_TEST| == |EXTEND_OFFSET| == 16
    ensures EXTEND_TEST[n] == 2 * EXTEND_TEST[n - 1] && EXTEND_TEST[n - 1] <= 0x2000
    ensures EXTEND_OFFSET[n] == 2 * EXTEND_OFFSET[n - 1] - 1
  {
  }

  lemma {:induction false} ExtendEntries(n: nat)
    requires 1 <= n <= 15
    ensures |EXTEND_TEST| == |EXTEND_OFFSET| == 16
    ensures EXTEND_TEST[n] == Pow2(n - 1) && EXTEND_OFFSET[n] == 1 - Pow2(n) && Pow2(n) <= 0x8000
  {
    if n == 1 {
      assert Pow2(0) == 1;
    } else {
      hide *;
      ExtendDoubles(n);
      ExtendEntries(n - 1);
      PowStep(n - 1);
      PowStep(n - 2);
    }
  }

  /** (JCOEF) x */
  function S16(x: int): (r: int)
    ensures -0x8000 <= r < 0x8000
  {
    (x + 0x8000) % 0x1_0000 - 0x8000
  }

  lemma S16Congruent(x: int)
    ensures (S16(x) - x) % 0x1_0000 == 0
  {
    QuotientRemainder(x + 0x8000, 0x1_0000);
    DivUnique(S16(x) - x, 0x1_0000, 0 - (x + 0x8000) / 0x1_0000, 0);
  }

  /** The tables are figure F.12, and no extended value is cut off by the cast. */
  lemma {:induction false} HuffExtendIsExtend(x: nat, n: nat)
    requires 1 <= n <= 15 && x < Pow2(n)
    ensures HuffExtend(x, n) == Extend(x, n) && -0x8000 < Extend(x, n) < 0x8000
    ensures S16(Extend(x, n)) == Extend(x, n)
  {
    ExtendEntries(n);
    assert Pow2(n) == 2 * Pow2(n - 1);
  }

  /** The symbols of a DC table are size categories that figure F.12 covers. */
  ghost predicate DcSymbols(t: Table)
    requires HuffTable.Valid(t)
  {
    forall p :: 0 <= p < Start(t, 17) ==> t.huffval[p] <= 15
  }

  lemma {:induction false} DecodedDcSymbol(t: Table, s: seq<bool>, pos: nat, l: nat)
    requires HuffTable.Valid(t) && DcSymbols(t) && 1 <= l <= 17
    ensures DecodeFrom(t, s, pos, l).symbol <= 15
    decreases 17 - l
  {
    hide Val, FirstCode, Start;
    if l < 17 {
      StartMonotone(t, l, 17);
      DecodedDcSymbol(t, s, pos, l + 1);
    }
  }

  /** The symbols that can be coded are those that the table lists. */
  lemma {:induction false} HasCodeIff(c: CTable, t: Table, v: nat)
    requires EncodesFor(c, t) && CoversTable(c, t, Start(t, 17)) && v < 256
    ensures HasCode(c, v) <==> Listed(t, v)
  {
    hide Start, FirstCode;
    assert EntryEncodes(c, t, v);
    if HasCode(c, v) {
      var l: nat := c.ehufsi[v];
      StartMonotone(t, l, 17);
      assert t.huffval[Start(t, l) + (c.ehufco[v] - FirstCode(t, l))] == v;
    }
  }

  /** A DC difference that would need 16 bits, which the decoder could not extend,
      is refused by the encoder already. */
  lemma LargeDifferenceRefused(c: CTable, t: Table, diff: int)
    requires Coder(c, t) && DcSymbols(t) && -0x1_0000 < diff < 0x1_0000 && !(-0x8000 < diff < 0x8000)
    ensures !HasCode(c, NBits(diff))
  {
    hide Start, FirstCode, BitLength, PrefixCode;
    SizeOf(diff);
    assert EntryEncodes(c, t, 16);
    if HasCode(c, 16) {
      var l: nat := c.ehufsi[16];
      StartMonotone(t, l, 17);
    }
  }

  /** The bits of a value, extended: CHECK_BIT_BUFFER, GET_BITS, HUFF_EXTEND. */
  method ReadValue(br: Reader, n: nat) returns (ok: bool, v: int)
    requires br.Valid() && 1 <= n <= 15
    modifies br
    ensures !ok ==> !EndsInMarker(br.data, 0)
    ensures ok ==> br.Valid() && br.Pos() == old(br.Pos()) + n
    ensures ok ==> v == Extend(Val(br.Stream(), old(br.Pos()), n), n) == S16(v)
  {
    hide Reader.Valid, Reader.Stream, EndsInMarker, S16, Pow2, HuffExtend, Extend;
    assert MIN_GET_BITS == 25;
    ghost var pos := br.Pos();
    v := 0;
    ok := br.CheckBitBuffer(n);
    if ok {
      var r := br.GetBits(n);
      ValBound(br.Stream(), pos, n);
      HuffExtendIsExtend(r, n);
      v := HuffExtend(r, n);
    }
  }

  /** Section F.2.2.1: the DC difference. */
  method DecodeDc(br: Reader, d: DTable, ghost t: Table) returns (ok: bool, s: int)
    requires br.Valid() && DerivedFrom(d, t) && DcSymbols(t)
    modifies br
    ensures !ok ==> !EndsInMarker(br.data, 0)
    ensures ok ==> br.Valid() && Value(s, br.Pos()) == DcDecode(t, br.Stream(), old(br.Pos()))
  {
    hide Reader.Valid, Reader.Stream, EndsInMarker, Decode, Val, Extend, S16;
    ghost var pos := br.Pos();
    var symbol: UInt8;
    ok, symbol := br.HuffDecode(d, t);
    s := symbol;
    DcSymbolRange(t, br.Stream(), pos);
    if ok && s != 0 {
      ok, s := ReadValue(br, s);
    }
  }

  lemma DcSymbolRange(t: Table, s: seq<bool>, pos: nat)
    requires HuffTable.Valid(t) && DcSymbols(t)
    ensures Decode(t, s, pos).symbol <= 15
  {
    hide DcSymbols, HuffTable.Valid;
    DecodedDcSymbol(t, s, pos, 1);
  }

  /** Section F.2.2.2: the AC coefficients, stored in natural order. */
  method DecodeAc(br: Reader, d: DTable, block: array<int>, ghost t: Table) returns (ok: bool)
    requires br.Valid() && DerivedFrom(d, t) && block.Length == DCTSIZE2
    modifies br, block
    ensures !ok ==> !EndsInMarker(br.data, 0)
    ensures ok ==> br.Valid()
    ensures ok ==> AcResult(block[..], br.Pos()) == AcDecode(t, br.Stream(), old(br.Pos()), 1, old(block[..]))
  {
    hide Reader.Valid, Reader.Stream, EndsInMarker, Decode, Val;
    hide Extend, S16, NaturalOrder, DerivedFrom, HuffTable.Valid;
    Shape(d, t);
    ghost var stream, result := br.Stream(), AcDecode(t, br.Stream(), br.Pos(), 1, block[..]);
    var k: nat := 1;
    while k < DCTSIZE2
      invariant br.Valid() && br.Stream() == stream && HuffTable.Valid(t)
      invariant result == AcDecode(t, stream, br.Pos(), k, block[..])
      decreases DCTSIZE2 - k
    {
      var symbol;
      ok, symbol := br.HuffDecode(d, t);
      if !ok {
        return;
      }
      var r: nat, s: int := symbol / 16, symbol % 16;
      if s != 0 {
        k := k + r;
        ok, s := ReadValue(br, s);
        if !ok {
          return;
        }
        block[NaturalOrder(k)] := S16(s);
      } else {
        if r != 15 {
          break;
        }
        k := k + 15;
      }
      k := k + 1;
    }
    ok := true;
  }

  /** The same, only to get past the coefficients of a component that is not
      wanted: it stops where decoding them would, whatever block they were for. */
  method SkipAc(br: Reader, d: DTable, ghost t: Table, ghost b: Block) returns (ok: bool)
    requires br.Valid() && DerivedFrom(d, t)
    modifies br
    ensures !ok ==> !EndsInMarker(br.data, 0)
    ensures ok ==> br.Valid() && br.Pos() == AcDecode(t, br.Stream(), old(br.Pos()), 1, b).pos
  {
    hide Reader.Valid, Reader.Stream, EndsInMarker, Decode, Val, Extend, NaturalOrder, DerivedFrom, HuffTable.Valid;
    Shape(d, t);
    ghost var stream, end := br.Stream(), AcDecode(t, br.Stream(), br.Pos(), 1, b).pos;
    var k: nat := 1;
    while k < DCTSIZE2
      invariant br.Valid() && br.Stream() == stream && HuffTable.Valid(t)
      invariant end == AcDecode(t, stream, br.Pos(), k, b).pos
      decreases DCTSIZE2 - k
    {
      ghost var pos := br.Pos();
      var symbol;
      ok, symbol := br.HuffDecode(d, t);
      if !ok {
        return;
      }
      var r: nat, s: nat := symbol / 16, symbol % 16;
      if s != 0 {
        ghost var a := b[NaturalOrder(k + r) := Extend(Val(stream, br.Pos(), s), s)];
        AcPosIndependent(t, stream, br.Pos() + s, k + r + 1, a, b);
        k := k + r;
        ok := br.CheckBitBuffer(s);
        if !ok {
          return;
        }
        br.DropBits(s);
      } else {
        if r != 15 {
          break;
        }
        k := k + 15;
      }
      k := k + 1;
    }
    ok := true;
  }
}
