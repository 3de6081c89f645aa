/** The bit reader of jdhuff.h and jdhuff.c: filling the buffer from a stuffed
    byte stream, fetching bits, and decoding Huffman symbols. */
module BitReader {
  import opened Bits
  import opened BitStream
  import opened HuffTable
  import opened HuffDerived

  const MIN_GET_BITS := 25

  // ----- the bytes of a segment -----

  /** The next data byte, or the marker that ends the segment, or neither because
      the source has run dry. */
  datatype Fetch = Byte(value: UInt8, next: nat) | Marker(code: UInt8, next: nat) | Starved

  /** The first position from i on that is not FF. */
  function SkipFF(data: seq<UInt8>, i: nat): (j: nat)
    requires i <= |data|
    ensures i <= j <= |data| && (j < |data| ==> data[j] != 0xff)
    decreases |data| - i
  {
    if i < |data| && data[i] == 0xff then SkipFF(data, i + 1) else i
  }

  function FetchAt(data: seq<UInt8>, i: nat): (f: Fetch)
    requires i <= |data|
    ensures f.Byte? ==> i < f.next <= |data|
    ensures f.Marker? ==> i < f.next <= |data| && f.code != 0
  {
    if i == |data| then Starved
    else if data[i] != 0xff then Byte(data[i], i + 1)
    else
      var j := SkipFF(data, i + 1);
      if j == |data| then Starved
      else if data[j] == 0 then Byte(0xff, j + 1)
      else Marker(data[j], j + 1)
  }

  lemma {:induction false} SkipFFTo(data: seq<UInt8>, i: nat, j: nat)
    requires i <= j <= |data| && forall k :: i <= k < j ==> data[k] == 0xff
    requires j < |data| ==> data[j] != 0xff
    ensures SkipFF(data, i) == j
    decreases j - i
  {
    if i < j {
      SkipFFTo(data, i + 1, j);
    }
  }

  /** What a run of FF bytes means is told by the byte that ends it: FF 00 is the data byte
      FF, however many FF precede the zero, and any other byte is a marker code. */
  lemma {:induction false} FetchRun(data: seq<UInt8>, i: nat, j: nat)
    requires i <= j <= |data| && forall k :: i <= k < j ==> data[k] == 0xff
    requires j < |data| ==> data[j] != 0xff
    ensures FetchAt(data, i) ==
      if j == |data| then Starved
      else if j == i then Byte(data[i], i + 1)
      else if data[j] == 0 then Byte(0xff, j + 1)
      else Marker(data[j], j + 1)
  {
    hide SkipFF;
    if i < j {
      SkipFFTo(data, i + 1, j);
    }
  }

  /** The data bytes from i on, with stuffing removed. */
  function Payload(data: seq<UInt8>, i: nat): (p: seq<UInt8>)
    requires i <= |data|
    decreases |data| - i
  {
    match FetchAt(data, i)
    case Byte(v, n) => [v] + Payload(data, n)
    case _ => []
  }

  /** Whether the bytes from i on end with a marker. */
  predicate EndsInMarker(data: seq<UInt8>, i: nat)
    requires i <= |data|
    decreases |data| - i
  {
    match FetchAt(data, i)
    case Byte(_, n) => EndsInMarker(data, n)
    case Marker(_, _) => true
    case Starved => false
  }

  /** Reads one data byte or a marker (lines 252 to 280), from the first byte at j that is
      not FF. */
  method ReadByte(data: seq<UInt8>, start: nat) returns (f: Fetch, ghost j: nat)
    requires start <= |data|
    ensures f == FetchAt(data, start)
    ensures start <= j <= |data| && (forall k :: start <= k < j ==> data[k] == 0xff) && (j < |data| ==> data[j] != 0xff)
    ensures f == if j == |data| then Starved
                 else if j == start then Byte(data[j], j + 1)
                 else if data[j] == 0 then Byte(0xff, j + 1)
                 else Marker(data[j], j + 1)
  {
    hide FetchAt;
    var i := start;
    j := start;
    if i == |data| {
      FetchRun(data, start, j);
      return Starved, j;
    }
    var c := data[i];
    i := i + 1;
    if c != 0xff {
      FetchRun(data, start, j);
      return Byte(c, i), j;
    }
    while c == 0xff
      invariant start <= j < i == j + 1 <= |data| && c == data[j] && data[start] == 0xff
      invariant forall k :: start <= k < j ==> data[k] == 0xff
      decreases |data| - i, c == 0xff
    {
      j := i;
      if i == |data| {
        FetchRun(data, start, j);
        return Starved, j;
      }
      c := data[i];
      i := i + 1;
    }
    FetchRun(data, start, j);
    if c == 0 {
      return Byte(0xff, i), j;
    }
    return Marker(c, i), j;
  }

  // ----- the bit buffer -----

  /** The low bitsLeft bits of the buffer are the stream bits before 8 * loaded. */
  ghost predicate BufferHolds(s: seq<bool>, buffer: int, bitsLeft: int, loaded: nat) {
    && 0 <= bitsLeft <= 32 && bitsLeft <= 8 * loaded
    && buffer % Pow2(bitsLeft) == Val(s, 8 * loaded - bitsLeft, bitsLeft)
  }

  /** (getBuffer << 8) | c */
  function ShiftIn(buffer: Int32, c: UInt8): Int32 {
    S32(OrWord(U32(buffer * 0x100), c))
  }

  function OrWord(x: UInt32, c: UInt8): nat { Or(x, c) }

  lemma ShiftInValue(buffer: Int32, c: UInt8)
    ensures ShiftIn(buffer, c) == S32(buffer * 0x100 + c)
  {
    hide Or, S32;
    PowValues();
    var w := U32(buffer * 0x100);
    assert w % 0x100 == 0;
    OrDisjoint(w / 0x100, c, 8);
    S32OfSum(buffer * 0x100, c);
  }

  lemma S32OfSum(x: int, c: UInt8)
    ensures S32(U32(x) + c) == S32(x + c)
  {
  }

  /** Reducing to 32 bits, signed, keeps the low bits. */
  lemma {:induction false} LowBitsOfS32(x: int, n: nat)
    requires n <= 32
    ensures S32(x) % Pow2(n) == x % Pow2(n)
  {
    hide Pow2, S32;
    PowAdd(32 - n, n);
    PowValues();
    var k := S32Multiple(x);
    Congruent(x, S32(x), k, Pow2(32 - n), Pow2(n));
  }

  lemma Congruent(x: int, y: int, k: int, a: int, b: int)
    requires b > 0 && a * b == TWO32 && y == x + k * TWO32
    ensures y % b == x % b
  {
    Reassociate(k, a, b);
    ModPlus(x, k * a, b);
  }

  lemma S32Multiple(x: int) returns (k: int)
    ensures S32(x) == x + k * TWO32
  {
    k := -(x / TWO32) - (if x % TWO32 < 0x8000_0000 then 0 else 1);
  }

  /** A byte more. */
  lemma {:induction false} ByteShiftedIn(p: seq<UInt8>, buffer: Int32, bitsLeft: int, loaded: nat, c: UInt8)
    requires BufferHolds(BytesToBits(p), buffer, bitsLeft, loaded) && bitsLeft <= 24 && c == ByteAt(p, loaded)
    ensures BufferHolds(BytesToBits(p), ShiftIn(buffer, c), bitsLeft + 8, loaded + 1)
  {
    hide Val, Pow2, S32, ShiftIn;
    var s, pos, k := BytesToBits(p), 8 * loaded - bitsLeft, Pow2(bitsLeft);
    ShiftInValue(buffer, c);
    LowBitsOfS32(buffer * 0x100 + c, bitsLeft + 8);
    PowAdd(bitsLeft, 8);
    PowValues();
    ValSplit(s, pos, bitsLeft, 8);
    ValOfByte(p, loaded);
    ScaledRemainder(buffer, k, c);
  }

  lemma ScaledRemainder(x: int, k: int, c: int)
    requires k > 0 && 0 <= c < 0x100
    ensures (x * 0x100 + c) % (k * 0x100) == x % k * 0x100 + c
  {
    QuotientRemainder(x, k);
    Reassociate(x / k, k, 0x100);
    DivUnique(x * 0x100 + c, k * 0x100, x / k, x % k * 0x100 + c);
  }

  /** (int)(getBuffer >> (bitsLeft - n)) & ((1 << n) - 1) */
  function Extract(buffer: Int32, bitsLeft: nat, n: nat): (v: nat)
    requires n <= bitsLeft <= 32
  {
    And(U32(buffer / Pow2(bitsLeft - n)), Pow2(n) - 1)
  }

  /** Neither stale high bits nor the sign of the buffer are ever visible. */
  lemma {:induction false} ExtractIsVal(s: seq<bool>, buffer: Int32, bitsLeft: nat, loaded: nat, n: nat)
    requires BufferHolds(s, buffer, bitsLeft, loaded) && n <= bitsLeft
    ensures Extract(buffer, bitsLeft, n) == Val(s, 8 * loaded - bitsLeft, n)
  {
    hide And, Val, Pow2, U32;
    var m := bitsLeft - n;
    var a, b := Pow2(m), Pow2(n);
    AndLow(U32(buffer / a), n);
    LowBitsOfU32(buffer / a, n);
    PowAdd(m, n);
    RemainderQuotient(buffer, a, b);
    ValPrefix(s, 8 * loaded - bitsLeft, n, m);
  }

  lemma {:induction false} LowBitsOfU32(x: int, n: nat)
    requires n <= 32
    ensures U32(x) % Pow2(n) == x % Pow2(n)
  {
    hide Pow2;
    PowValues();
    PowAdd(32 - n, n);
    ModMod(x, Pow2(n), Pow2(32 - n));
  }

  lemma RemainderQuotient(x: int, a: int, b: int)
    requires a > 0 && b > 0
    ensures a * b > 0 && x % (a * b) / a == x / a % b
  {
    MulAtLeast(a, b);
    var q, r := x / a, x % a;
    QuotientRemainder(x, a);
    QuotientRemainder(q, b);
    var p, t := q / b, q % b;
    Distribute(p * b, t, a);
    Reassociate(p, b, a);
    MulBounds(t, a, 0, b - 1);
    Distribute(b, 1, a);
    DivUnique(x, a * b, p, t * a + r);
    DivUnique(t * a + r, a, t, r);
  }

  /** Dropping bits. */
  lemma Dropped(s: seq<bool>, buffer: Int32, bitsLeft: nat, loaded: nat, n: nat)
    requires BufferHolds(s, buffer, bitsLeft, loaded) && n <= bitsLeft
    ensures BufferHolds(s, buffer, bitsLeft - n, loaded)
  {
    hide Val, Pow2;
    var m := bitsLeft - n;
    PowAdd(n, m);
    ModMod(buffer, Pow2(m), Pow2(n));
    ValPrefix(s, 8 * loaded - bitsLeft, n, m);
  }

  // ----- the reader -----

  /** The working state of a scan: source position, pending marker, bit buffer,
      and the flag that stops repeated warnings. */
  class Reader {
    const data: seq<UInt8>
    var nextInputByte: nat
    var unreadMarker: int
    var getBuffer: Int32
    var bitsLeft: int
    var printedEod: bool
    /** Bytes shifted into the buffer so far, invented zeros included. */
    ghost var loaded: nat

    constructor (data: seq<UInt8>)
      ensures this.data == data && Valid() && Pos() == 0
    {
      assert Payload(data, 0)[0..] == Payload(data, 0);
      assert Pow2(0) == 1;
      this.data := data;
      nextInputByte, unreadMarker, getBuffer, bitsLeft, printedEod := 0, 0, 0, 0, false;
      loaded := 0;
    }

    /** BITREAD_LOAD_STATE: a working copy. */
    constructor Load(from: Reader)
      requires from.Valid()
      ensures data == from.data && Valid() && Pos() == from.Pos()
    {
      data := from.data;
      nextInputByte, unreadMarker, getBuffer := from.nextInputByte, from.unreadMarker, from.getBuffer;
      bitsLeft, printedEod, loaded := from.bitsLeft, from.printedEod, from.loaded;
    }

    /** All data bits of the segment; zeros follow them. */
    ghost function Stream(): seq<bool> {
      BytesToBits(Payload(data, 0))
    }

    /** The number of bits consumed. */
    ghost function Pos(): nat
      requires Valid()
      reads this
    {
      8 * loaded - bitsLeft
    }

    ghost predicate Valid()
      reads this
    {
      && nextInputByte <= |data|
      && BufferHolds(Stream(), getBuffer, bitsLeft, loaded)
      && SourceAt(data, nextInputByte, unreadMarker, loaded)
      && (loaded > |Payload(data, 0)| ==> printedEod)
    }

    /** jpeg_fill_bit_buffer. It fails only where the source runs dry before a
        marker, and then changes nothing. */
    method FillBitBuffer(nbits: nat) returns (ok: bool)
      requires Valid() && nbits <= MIN_GET_BITS
      modifies this
      ensures Valid() && Pos() == old(Pos())
      ensures ok ==> bitsLeft >= nbits && bitsLeft >= old(bitsLeft)
      ensures ok && bitsLeft < MIN_GET_BITS ==> EndsInMarker(data, 0) && loaded >= |Payload(data, 0)|
      ensures !ok ==> !EndsInMarker(data, 0)
      ensures !ok ==> unchanged(this)
    {
      hide BufferHolds, SourceAt, Payload, EndsInMarker;
      var buffer, left, next, marker, warned;
      ghost var n;
      ok, buffer, left, next, marker, warned, n := FillLoop(
        data, nbits, getBuffer, bitsLeft, nextInputByte, unreadMarker, printedEod, loaded);
      if ok {
        FillingFacts(data, buffer, left, next, marker, warned, n);
        getBuffer, bitsLeft, nextInputByte, unreadMarker, printedEod := buffer, left, next, marker, warned;
        loaded := n;
      }
    }

    /** CHECK_BIT_BUFFER */
    method CheckBitBuffer(nbits: nat) returns (ok: bool)
      requires Valid() && nbits <= MIN_GET_BITS
      modifies this
      ensures Valid() && Pos() == old(Pos())
      ensures ok ==> bitsLeft >= nbits
      ensures !ok ==> !EndsInMarker(data, 0)
    {
      if bitsLeft < nbits {
        ok := FillBitBuffer(nbits);
      } else {
        ok := true;
      }
    }

    /** PEEK_BITS: the next bits of the stream, left in place. */
    method PeekBits(nbits: nat) returns (v: nat)
      requires Valid() && 1 <= nbits <= bitsLeft
      ensures v == Val(Stream(), Pos(), nbits)
    {
      assert bitsLeft <= 32;
      hide BufferHolds, SourceAt, Extract;
      ExtractIsVal(Stream(), getBuffer, bitsLeft, loaded, nbits);
      v := Extract(getBuffer, bitsLeft, nbits);
    }

    /** DROP_BITS */
    method DropBits(nbits: nat)
      requires Valid() && nbits <= bitsLeft
      modifies this`bitsLeft
      ensures Valid() && Pos() == old(Pos()) + nbits
      ensures bitsLeft == old(bitsLeft) - nbits
    {
      hide BufferHolds, SourceAt;
      Dropped(Stream(), getBuffer, bitsLeft, loaded, nbits);
      bitsLeft := bitsLeft - nbits;
    }

    /** GET_BITS: peek and drop in one. */
    method GetBits(nbits: nat) returns (v: nat)
      requires Valid() && 1 <= nbits <= bitsLeft
      modifies this`bitsLeft
      ensures v == Val(Stream(), old(Pos()), nbits)
      ensures Valid() && Pos() == old(Pos()) + nbits
      ensures bitsLeft == old(bitsLeft) - nbits
    {
      assert bitsLeft <= 32;
      hide BufferHolds, SourceAt, Extract;
      ExtractIsVal(Stream(), getBuffer, bitsLeft, loaded, nbits);
      Dropped(Stream(), getBuffer, bitsLeft, loaded, nbits);
      v := Extract(getBuffer, bitsLeft, nbits);
      bitsLeft := bitsLeft - nbits;
    }

    /** One more bit of the code. */
    method CollectBit(code: int, ghost s: seq<bool>, ghost pos: nat, ghost l: nat) returns (ok: bool, longer: int)
      requires Valid() && s == Stream() && Pos() == pos + l && code == Val(s, pos, l)
      modifies this
      ensures !ok ==> !EndsInMarker(data, 0)
      ensures ok ==> Valid() && Pos() == pos + l + 1 && longer == Val(s, pos, l + 1)
    {
      assert MIN_GET_BITS == 25;
      hide *;
      var shifted: nat := 2 * code;
      ok := CheckBitBuffer(1);
      if !ok {
        return false, 0;
      }
      var bit := GetBits(1);
      AppendBit(s, pos, l, bit);
      return true, Or(shifted, bit);
    }

    /** jpeg_huff_decode: starts at a length that no shorter code word forestalls.
        The sentinel maxcode[17] ends the loop on garbage, which yields 0. */
    method SlowDecode(d: DTable, minBits: nat, ghost t: Table) returns (result: int)
      requires Valid() && DerivedFrom(d, t) && 1 <= minBits <= LOOKAHEAD + 1
      requires NoneShorter(t, Stream(), Pos(), minBits)
      modifies this
      ensures result < 0 ==> !EndsInMarker(data, 0)
      ensures result >= 0 ==> Valid() && result == Decode(t, Stream(), old(Pos())).symbol
      ensures result >= 0 ==> Pos() == old(Pos()) + Decode(t, Stream(), old(Pos())).length
    {
      hide *;
      ghost var s, pos := Stream(), Pos();
      Shape(d, t);
      var l := minBits;
      var ok := CheckBitBuffer(l);
      if !ok {
        return -1;
      }
      var code: int := GetBits(l);
      BelowSentinel(d, t, s, pos, l);
      while code > d.maxcode[l]
        invariant Valid() && Pos() == pos + l && 1 <= l <= 17
        invariant code == Val(s, pos, l) && NoneShorter(t, s, pos, l)
        invariant |d.maxcode| == 18 && (l == 17 ==> code <= d.maxcode[l])
        decreases 17 - l
      {
        NotThisLength(d, t, s, pos, l);
        ok, code := CollectBit(code, s, pos, l);
        if !ok {
          return -1;
        }
        l := l + 1;
        BelowSentinel(d, t, s, pos, l);
      }
      ThisLength(d, t, s, pos, l);
      if l > 16 {
        return 0;
      }
      result := d.pub.huffval[d.valptr[l] + (code - d.mincode[l])];
    }

    /** HUFF_DECODE. Main theorem: on each of its three routes - lookahead hit,
        slow decode from 9 bits after a miss, slow decode from 1 bit near the end
        of the data - the macro returns the symbol and consumes the bits that
        bit-by-bit decoding would. It fails only if the source runs dry. */
    method HuffDecode(d: DTable, ghost t: Table) returns (ok: bool, result: UInt8)
      requires Valid() && DerivedFrom(d, t)
      modifies this
      ensures !ok ==> !EndsInMarker(data, 0)
      ensures ok ==> Valid() && result == Decode(t, Stream(), old(Pos())).symbol
      ensures ok ==> Pos() == old(Pos()) + Decode(t, Stream(), old(Pos())).length
    {
      hide *;
      ghost var s, pos := Stream(), Pos();
      Shape(d, t);
      var nb := 1;
      NothingShorter(t, s, pos);
      if bitsLeft < LOOKAHEAD {
        ok := FillBitBuffer(0);
        if !ok {
          return false, 0;
        }
      }
      if bitsLeft >= LOOKAHEAD {
        var look := PeekBits(LOOKAHEAD);
        LookaheadAgrees(d, t, s, pos, look);
        nb := d.lookNbits[look];
        if nb != 0 {
          DropBits(nb);
          return true, d.lookSym[look];
        }
        nb := LOOKAHEAD + 1;
      }
      var r := SlowDecode(d, nb, t);
      if r < 0 {
        return false, 0;
      }
      return true, r;
    }
  }

  // ----- why the routes agree -----

  lemma Shape(d: DTable, t: Table)
    requires DerivedFrom(d, t)
    ensures LOOKAHEAD == 8 && MIN_GET_BITS == 25
    ensures HuffTable.Valid(t) && |t.bits| == 17 && |t.huffval| == 256 && d.pub == t
    ensures |d.mincode| == 17 && |d.maxcode| == 18 && |d.valptr| == 17 && |d.lookNbits| == |d.lookSym| == 256
  {
  }

  lemma NothingShorter(t: Table, s: seq<bool>, pos: nat)
    requires |t.bits| == 17
    ensures NoneShorter(t, s, pos, 1)
  {
  }

  lemma {:induction false} AppendBit(s: seq<bool>, pos: nat, l: nat, bit: nat)
    requires bit == Val(s, pos + l, 1)
    ensures Or(2 * Val(s, pos, l), bit) == Val(s, pos, l + 1)
  {
    hide Or;
    PowValues();
    ValBound(s, pos + l, 1);
    ValSplit(s, pos, l, 1);
    OrDisjoint(Val(s, pos, l), bit, 1);
  }

  /** 17 bits are never above the sentinel. */
  lemma {:induction false} BelowSentinel(d: DTable, t: Table, s: seq<bool>, pos: nat, l: nat)
    requires DerivedFrom(d, t) && 1 <= l <= 17
    ensures |d.maxcode| == 18 && (l == 17 ==> Val(s, pos, l) <= d.maxcode[l])
  {
    hide Val, LimitsSet, LookaheadSet;
    ValBound(s, pos, l);
    PowAdd(1, 16);
    PowValues();
  }

  /** A value above maxcode is no code word of its length. */
  lemma NotThisLength(d: DTable, t: Table, s: seq<bool>, pos: nat, l: nat)
    requires DerivedFrom(d, t) && 1 <= l <= 16 && NoneShorter(t, s, pos, l)
    requires Val(s, pos, l) > d.maxcode[l]
    ensures NoneShorter(t, s, pos, l + 1)
  {
    hide Val, LookaheadSet, FirstCode, Start;
  }

  /** The first value not above its maxcode is a code word, unless it is the
      sentinel's. */
  lemma {:induction false} ThisLength(d: DTable, t: Table, s: seq<bool>, pos: nat, l: nat)
    requires DerivedFrom(d, t) && 1 <= l <= 17 && NoneShorter(t, s, pos, l)
    requires Val(s, pos, l) <= d.maxcode[l]
    ensures Decode(t, s, pos).length == l
    ensures l == 17 ==> Decode(t, s, pos).symbol == 0
    ensures l <= 16 ==> var i := d.valptr[l] + (Val(s, pos, l) - d.mincode[l]);
      0 <= i < 256 && d.pub.huffval[i] == Decode(t, s, pos).symbol
  {
    hide Val, LookaheadSet, FirstCode, Start;
    SkipTo(t, s, pos, l);
    NotBelowFirst(t, s, pos, l);
    if l <= 16 {
      StartMonotone(t, l, 17);
      assert IsCode(t, l, Val(s, pos, l));
    }
  }

  /** The lookahead entry is the code word the stream has, or there is none of up
      to 8 bits. */
  lemma {:induction false} LookaheadAgrees(d: DTable, t: Table, s: seq<bool>, pos: nat, look: nat)
    requires DerivedFrom(d, t) && look == Val(s, pos, LOOKAHEAD)
    ensures look < 256 && 0 <= d.lookNbits[look] <= LOOKAHEAD
    ensures d.lookNbits[look] != 0 ==> Decode(t, s, pos) == Decoded(d.lookSym[look], d.lookNbits[look])
    ensures d.lookNbits[look] == 0 ==> NoneShorter(t, s, pos, LOOKAHEAD + 1)
  {
    hide Val, LimitsSet, FirstCode, Start, IsCode, Pow2, Decode;
    ValBound(s, pos, LOOKAHEAD);
    PowValues();
    var nb := d.lookNbits[look];
    EntryFacts(d, t, look);
    if nb != 0 {
      ValPrefix(s, pos, nb, LOOKAHEAD - nb);
      DecodeFinds(t, s, pos, nb);
    } else {
      forall l | 1 <= l < LOOKAHEAD + 1
        ensures !IsCode(t, l, Val(s, pos, l))
      {
        ValPrefix(s, pos, l, LOOKAHEAD - l);
        if IsCode(t, l, Val(s, pos, l)) {
          LookaheadComplete(d, t, look, l);
        }
      }
    }
  }

  lemma EntryFacts(d: DTable, t: Table, i: nat)
    requires DerivedFrom(d, t) && i < 256
    ensures |d.lookNbits| == |d.lookSym| == 256 && 0 <= d.lookNbits[i] <= LOOKAHEAD
    ensures d.lookNbits[i] != 0 ==>
      StartsWithCode(t, i, d.lookNbits[i]) && d.lookSym[i] == Symbol(t, d.lookNbits[i], LeadBits(i, d.lookNbits[i]))
  {
    hide LimitsSet, FirstCode, Start, Pow2;
  }

  /** After n loaded bytes the source stands at next, or behind the marker. */
  ghost predicate SourceAt(data: seq<UInt8>, next: nat, marker: int, n: nat) {
    && next <= |data|
    && (marker == 0 ==>
         && n <= |Payload(data, 0)| && Payload(data, next) == Payload(data, 0)[n..]
         && EndsInMarker(data, next) == EndsInMarker(data, 0))
    && (marker != 0 ==> n >= |Payload(data, 0)| && EndsInMarker(data, 0))
  }

  /** The state of the loop of jpeg_fill_bit_buffer. */
  ghost predicate Filling(data: seq<UInt8>, buffer: Int32, left: int, next: nat, marker: int, warned: bool, n: nat) {
    && BufferHolds(BytesToBits(Payload(data, 0)), buffer, left, n) && SourceAt(data, next, marker, n)
    && (n > |Payload(data, 0)| ==> warned)
  }

  lemma {:induction false} FillStep(data: seq<UInt8>, buffer: Int32, left: int, next: nat, marker: int, warned: bool,
          n: nat, c: UInt8, next': nat, marker': int, warned': bool)
    requires Filling(data, buffer, left, next, marker, warned, n) && left <= 24
    requires c == ByteAt(Payload(data, 0), n) && SourceAt(data, next', marker', n + 1)
    requires warned' || (n < |Payload(data, 0)| && warned' == warned)
    ensures Filling(data, ShiftIn(buffer, c), left + 8, next', marker', warned', n + 1)
  {
    hide SourceAt, Payload, ShiftIn, Val;
    ByteShiftedIn(Payload(data, 0), buffer, left, n, c);
  }

  /** Behind the marker the state is the same with the marker noted. */
  lemma FillMarker(data: seq<UInt8>, buffer: Int32, left: int, next: nat, marker: int, warned: bool, n: nat,
          next': nat, marker': int)
    requires Filling(data, buffer, left, next, marker, warned, n) && SourceAt(data, next', marker', n)
    ensures Filling(data, buffer, left, next', marker', warned, n)
  {
    hide SourceAt, Payload, BufferHolds;
  }

  lemma {:induction false} FillingFacts(data: seq<UInt8>, buffer: Int32, left: int, next: nat, marker: int,
          warned: bool, n: nat)
    requires Filling(data, buffer, left, next, marker, warned, n)
    ensures 0 <= left <= 32 && next <= |data| && SourceAt(data, next, marker, n)
    ensures BufferHolds(BytesToBits(Payload(data, 0)), buffer, left, n) && (n > |Payload(data, 0)| ==> warned)
  {
    hide Payload, Val;
  }

  /** The loop of jpeg_fill_bit_buffer, on local copies of the state. */
  method FillLoop(data: seq<UInt8>, nbits: nat, buffer0: Int32, left0: int, next0: nat, marker0: int, warned0: bool,
          ghost n0: nat)
    returns (ok: bool, buffer: Int32, left: int, next: nat, marker: int, warned: bool, ghost n: nat)
    requires nbits <= MIN_GET_BITS && Filling(data, buffer0, left0, next0, marker0, warned0, n0)
    ensures ok ==> Filling(data, buffer, left, next, marker, warned, n)
    ensures ok ==> 8 * n - left == 8 * n0 - left0 && left >= nbits && left >= left0
    ensures ok && left < MIN_GET_BITS ==> EndsInMarker(data, 0) && n >= |Payload(data, 0)|
    ensures !ok ==> !EndsInMarker(data, 0)
  {
    assert MIN_GET_BITS == 25;
    hide *;
    ok, buffer, left, next, marker, warned, n := true, buffer0, left0, next0, marker0, warned0, n0;
    ghost var pos := 8 * n0 - left0;
    while left < MIN_GET_BITS
      invariant left0 <= left && 8 * n - left == pos
      invariant Filling(data, buffer, left, next, marker, warned, n)
      decreases MIN_GET_BITS - left
    {
      FillingFacts(data, buffer, left, next, marker, warned, n);
      var starved, found, c, after, seen := FetchForBuffer(data, next, marker, n);
      if starved {
        ok := false;
        return;
      }
      // no more data: stop if there is enough, else invent a zero byte
      if !found && left >= nbits {
        FillMarker(data, buffer, left, next, marker, warned, n, after, seen);
        next, marker := after, seen;
        break;
      }
      var warn := warned || !found;
      FillStep(data, buffer, left, next, marker, warned, n, c, after, seen, warn);
      buffer, next, marker, warned := ShiftIn(buffer, c), after, seen, warn;
      left, n := left + 8, n + 1;
    }
  }

  /** A data byte if there is one before the marker. */
  method FetchForBuffer(data: seq<UInt8>, start: nat, marker0: int, ghost n: nat)
    returns (starved: bool, found: bool, c: UInt8, next: nat, marker: int)
    requires SourceAt(data, start, marker0, n)
    ensures starved ==> !EndsInMarker(data, 0)
    ensures !starved ==> c == ByteAt(Payload(data, 0), n) && SourceAt(data, next, marker, n + 1)
    ensures !starved && found ==> n < |Payload(data, 0)|
    ensures !starved && !found ==>
      n >= |Payload(data, 0)| && EndsInMarker(data, 0) && SourceAt(data, next, marker, n)
  {
    hide SourceAt, Payload, EndsInMarker;
    NextInRange(data, start, marker0, n);
    starved, found, c, next, marker := false, false, 0, start, marker0;
    if marker == 0 {
      var f, _ := ReadByte(data, next);
      NextLoaded(data, next, n, f);
      match f {
        case Starved => starved := true;
        case Byte(value, after) => c, next, found := value, after, true;
        case Marker(code, after) => marker, next := code, after;
      }
    }
    if !starved && !found {
      BehindMarker(data, next, marker, n);
    }
  }

  lemma NextInRange(data: seq<UInt8>, next: nat, marker: int, n: nat)
    requires SourceAt(data, next, marker, n)
    ensures next <= |data|
  {
  }

  lemma {:induction false} NextLoaded(data: seq<UInt8>, next: nat, n: nat, f: Fetch)
    requires SourceAt(data, next, 0, n) && next <= |data| && f == FetchAt(data, next)
    ensures f.Byte? ==>
      n < |Payload(data, 0)| && f.value == ByteAt(Payload(data, 0), n) && SourceAt(data, f.next, 0, n + 1)
    ensures f.Marker? ==> SourceAt(data, f.next, f.code, n) && f.code != 0
    ensures f.Starved? ==> !EndsInMarker(data, 0)
  {
    hide FetchAt;
    var p := Payload(data, 0);
    if f.Byte? {
      assert p[n..] == [f.value] + Payload(data, f.next);
      assert p[n..][0] == p[n] && p[n..][1..] == p[n + 1..];
    }
  }

  lemma {:induction false} BehindMarker(data: seq<UInt8>, next: nat, marker: int, n: nat)
    requires SourceAt(data, next, marker, n) && marker != 0
    ensures n >= |Payload(data, 0)| && ByteAt(Payload(data, 0), n) == 0 && EndsInMarker(data, 0)
    ensures SourceAt(data, next, marker, n + 1)
  {
  }
}
