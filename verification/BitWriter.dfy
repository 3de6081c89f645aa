/** The bit writer of jchuff.c: packing bits into bytes, with a zero byte stuffed
    after every FF. */
module BitWriter {
  import opened Bits
  import opened BitStream
  import opened BitReader

  // ----- bytes of a bit string -----

  /** The first n bytes of e. */
  function Packed(e: seq<bool>, n: nat): (p: seq<UInt8>)
    requires 8 * n <= |e|
    ensures |p| == n
  {
    if n == 0 then []
    else
      ByteRange(e, 8 * (n - 1));
      Packed(e, n - 1) + [Val(e, 8 * (n - 1), 8)]
  }

  lemma {:induction false} ByteRange(e: seq<bool>, pos: nat)
    ensures Val(e, pos, 8) < 0x100
  {
    PowValues();
    ValBound(e, pos, 8);
  }

  function Stuffed(p: seq<UInt8>): seq<UInt8> {
    if p == [] then []
    else Stuffed(p[..|p| - 1]) + (if p[|p| - 1] == 0xff then [0xff, 0] else [p[|p| - 1]])
  }

  function Ones(n: nat): (s: seq<bool>)
    ensures |s| == n
  {
    seq(n, _ => true)
  }

  /** e filled up with ones to a whole number of bytes. */
  function Padded(e: seq<bool>): (p: seq<bool>)
    ensures |p| % 8 == 0 && |e| <= |p| < |e| + 8
  {
    e + Ones((8 - |e| % 8) % 8)
  }

  lemma {:induction false} PackedPrefix(e: seq<bool>, f: seq<bool>, n: nat)
    requires 8 * n <= |e|
    ensures Packed(e + f, n) == Packed(e, n)
  {
    if n > 0 {
      PackedPrefix(e, f, n - 1);
      ValOfPrefix(e, f, 8 * (n - 1), 8);
    }
  }

  lemma {:induction false} ValOfPrefix(e: seq<bool>, f: seq<bool>, pos: nat, n: nat)
    requires pos + n <= |e|
    ensures Val(e + f, pos, n) == Val(e, pos, n)
  {
    if n > 0 {
      ValOfPrefix(e, f, pos, n - 1);
    }
  }

  lemma {:induction false} ToBitsOfVal(s: seq<bool>, pos: nat, n: nat)
    requires pos + n <= |s|
    ensures ToBits(Val(s, pos, n), n) == s[pos..pos + n]
  {
    if n > 0 {
      ToBitsOfVal(s, pos, n - 1);
      LastBit(s, pos, n);
      hide *;
      assert s[pos..pos + n] == s[pos..pos + n - 1] + [s[pos + n - 1]];
    }
  }

  lemma {:induction false} LastBit(s: seq<bool>, pos: nat, n: nat)
    requires 0 < n && pos + n <= |s|
    ensures ToBits(Val(s, pos, n), n) == ToBits(Val(s, pos, n - 1), n - 1) + [s[pos + n - 1]]
  {
  }

  /** Packing whole bytes loses nothing. */
  lemma {:induction false} UnpackPacked(e: seq<bool>, n: nat)
    requires 8 * n <= |e|
    ensures BytesToBits(Packed(e, n)) == e[..8 * n]
  {
    hide Val, ToBits;
    if n > 0 {
      UnpackPacked(e, n - 1);
      ToBitsOfVal(e, 8 * (n - 1), 8);
      var p := Packed(e, n);
      assert p[..n - 1] == Packed(e, n - 1);
      assert p[n - 1] == Val(e, 8 * (n - 1), 8);
      assert e[..8 * n] == e[..8 * (n - 1)] + e[8 * (n - 1)..8 * n];
    }
  }

  // ----- unstuffing undoes stuffing -----

  /** Stuffing from the front. */
  lemma {:induction false} StuffedCons(b: UInt8, p: seq<UInt8>)
    ensures Stuffed([b] + p) == (if b == 0xff then [0xff, 0] else [b]) + Stuffed(p)
    decreases |p|
  {
    var q := [b] + p;
    if p == [] {
      assert q[..0] == [];
    } else {
      StuffedCons(b, p[..|p| - 1]);
      assert q[..|q| - 1] == [b] + p[..|p| - 1] && q[|q| - 1] == p[|p| - 1];
      var x, y := if b == 0xff then [0xff, 0] else [b], Stuffed(p[..|p| - 1]);
      var z := if p[|p| - 1] == 0xff then [0xff, 0] else [p[|p| - 1]];
      assert Stuffed(q) == (x + y) + z && Stuffed(p) == y + z;
      assert (x + y) + z == x + (y + z);
    }
  }

  lemma TwoParts<T>(data: seq<T>, i: nat, a: seq<T>, b: seq<T>)
    requires i + |a| + |b| <= |data| && data[i..i + |a + b|] == a + b
    ensures data[i..i + |a|] == a && data[i + |a|..i + |a| + |b|] == b
  {
    var s := data[i..i + |a + b|];
    assert s[..|a|] == a && s[|a|..] == b;
  }

  /** A data byte as it was stuffed, and what follows it. */
  lemma {:induction false} ByteRead(data: seq<UInt8>, i: nat, b: UInt8, h: seq<UInt8>)
    requires h == (if b == 0xff then [0xff, 0] else [b]) && i + |h| <= |data| && data[i..i + |h|] == h
    ensures Payload(data, i) == [b] + Payload(data, i + |h|)
    ensures EndsInMarker(data, i) == EndsInMarker(data, i + |h|)
  {
    assert data[i] == h[0] && (|h| == 2 ==> data[i + 1] == h[1]);
    assert FetchAt(data, i) == Byte(b, i + |h|);
    hide FetchAt;
  }

  lemma {:induction false} MarkerRead(data: seq<UInt8>, i: nat, m: UInt8)
    requires i + 2 <= |data| && data[i] == 0xff && data[i + 1] == m && m != 0 && m != 0xff
    ensures Payload(data, i) == [] && EndsInMarker(data, i)
  {
    assert FetchAt(data, i) == Marker(m, i + 2);
    hide FetchAt;
  }

  /** Main theorem: the reader finds exactly the bytes that were stuffed, up to
      the marker that follows them. */
  lemma {:induction false} PayloadOfStuffed(data: seq<UInt8>, i: nat, p: seq<UInt8>, m: UInt8)
    requires i + |Stuffed(p)| + 2 <= |data| && data[i..i + |Stuffed(p)|] == Stuffed(p)
    requires data[i + |Stuffed(p)|] == 0xff && data[i + |Stuffed(p)| + 1] == m && m != 0 && m != 0xff
    ensures Payload(data, i) == p && EndsInMarker(data, i)
    decreases |p|
  {
    hide *;
    if p == [] {
      NothingStuffed();
      MarkerRead(data, i, m);
    } else {
      var b, rest := p[0], p[1..];
      assert p == [b] + rest;
      StuffedCons(b, rest);
      var h := if b == 0xff then [0xff, 0] else [b];
      TwoParts(data, i, h, Stuffed(rest));
      ByteRead(data, i, b, h);
      PayloadOfStuffed(data, i + |h|, rest, m);
    }
  }

  lemma NothingStuffed()
    ensures Stuffed([]) == []
  {
  }

  // ----- the bit buffer -----

  /** The 24 low bits of the buffer are the bits pending after n bytes, left
      justified. */
  ghost predicate Pending(e: seq<bool>, buffer: int, bits: int, n: nat) {
    && 0 <= bits <= 24 && 8 * n + bits == |e|
    && buffer % 0x100_0000 == Val(e, 8 * n, bits) * Pow2(24 - bits)
  }

  lemma MergedNumbers(buffer: nat, x: nat, v: nat, y: nat, a: nat, b: nat, c: nat, d: nat)
    requires a > 0 && b > 0 && c > 0 && d > 0 && c == a * b && c * d == 0x100_0000
    requires buffer % 0x100_0000 == x * c && v < b && x < d && y == x * b + v
    ensures v * a < c <= 0x100_0000 && buffer == buffer / c * c
    ensures (v * a + buffer) % 0x100_0000 == y * a
  {
    MulBounds(v + 1, a, 0, b);
    Distribute(v, 1, a);
    assert b * a == a * b;
    MulBounds(d, c, 1, d);
    assert d * c == c * d;
    PendingMultiple(buffer, x, c, d);
    SumFits(buffer, v * a, x, c, d);
    SumFactor(x, v, y, a, b);
  }

  /** New bits placed below the pending ones: | is +, and the result is pending. */
  lemma {:induction false} Merged(e: seq<bool>, buffer: UInt32, bits: int, n: nat, v: nat, size: nat, w: nat)
    requires Pending(e, buffer, bits, n) && bits + size <= 24 && v < Pow2(size) && w == v * Pow2(24 - (bits + size))
    ensures w < 0x100_0000 && Or(w, buffer) == w + buffer
    ensures Pending(e + ToBits(v, size), w + buffer, bits + size, n)
  {
    hide *;
    assert 0 <= bits && 8 * n + bits == |e| by { PendingFacts(e, buffer, bits, n); }
    var y := Val(e + ToBits(v, size), 8 * n, bits + size);
    assert
      && w < 0x100_0000 && Or(w, buffer) == w + buffer
      && (w + buffer) % 0x100_0000 == y * Pow2(24 - (bits + size))
    by {
      PendingFacts(e, buffer, bits, n);
      ValBound(e, 8 * n, bits);
      ExtendedVal(e, 8 * n, bits, v, size);
      MergedWord(buffer, Val(e, 8 * n, bits), v, y, bits, size, w);
    }
    PendingIf(e + ToBits(v, size), w + buffer, bits + size, n);
  }

  lemma {:induction false} MergedWord(buffer: nat, x: nat, v: nat, y: nat, bits: nat, size: nat, w: nat)
    requires bits + size <= 24 && v < Pow2(size) && x < Pow2(bits)
    requires buffer % 0x100_0000 == x * Pow2(24 - bits) && w == v * Pow2(24 - (bits + size)) && y == x * Pow2(size) + v
    ensures w < 0x100_0000 && Or(w, buffer) == w + buffer
    ensures (w + buffer) % 0x100_0000 == y * Pow2(24 - (bits + size))
  {
    hide *;
    PowersOf24(bits, size);
    MergedNumbers(buffer, x, v, y, Pow2(24 - (bits + size)), Pow2(size), Pow2(24 - bits), Pow2(bits));
    OrMultiple(buffer, w, 24 - bits);
  }

  lemma {:induction false} PendingFacts(e: seq<bool>, buffer: int, bits: int, n: nat)
    requires Pending(e, buffer, bits, n)
    ensures 0 <= bits <= 24 && 8 * n + bits == |e|
    ensures buffer % 0x100_0000 == Val(e, 8 * n, bits) * Pow2(24 - bits)
  {
    hide Val, Pow2;
  }

  lemma {:induction false} PendingIf(e: seq<bool>, buffer: int, bits: int, n: nat)
    requires 0 <= bits <= 24 && 8 * n + bits == |e|
    requires buffer % 0x100_0000 == Val(e, 8 * n, bits) * Pow2(24 - bits)
    ensures Pending(e, buffer, bits, n)
  {
    hide Val, Pow2;
  }

  lemma PowersOf24(bits: nat, size: nat)
    requires bits + size <= 24
    ensures Pow2(24 - bits) == Pow2(24 - (bits + size)) * Pow2(size)
    ensures Pow2(24 - bits) * Pow2(bits) == 0x100_0000
  {
    hide Pow2;
    PowAdd(24 - (bits + size), size);
    PowAdd(24 - bits, bits);
    PowValues();
  }

  lemma {:induction false} OrMultiple(x: nat, y: nat, n: nat)
    requires x == x / Pow2(n) * Pow2(n) && y < Pow2(n)
    ensures Or(y, x) == y + x
  {
    hide Or, Pow2;
    OrDisjoint(x / Pow2(n), y, n);
  }

  lemma PendingMultiple(buffer: nat, x: nat, a: nat, b: nat)
    requires a > 0 && b > 0 && a * b == 0x100_0000 && buffer % 0x100_0000 == x * a
    ensures buffer == buffer / a * a
  {
    QuotientRemainder(buffer, 0x100_0000);
    var q := buffer / 0x100_0000;
    assert q * 0x100_0000 == q * b * a by { Reassociate(q, b, a); assert b * a == a * b; }
    Distribute(q * b, x, a);
    DivUnique(buffer, a, q * b + x, 0);
  }

  lemma SumFits(buffer: nat, w: nat, x: nat, a: nat, b: nat)
    requires a * b == 0x100_0000 && a > 0 && w < a && x < b && buffer % 0x100_0000 == x * a
    ensures (w + buffer) % 0x100_0000 == x * a + w && w < 0x100_0000
  {
    MulBounds(x + 1, a, 0, b);
    Distribute(x, 1, a);
    assert b * a == a * b;
    QuotientRemainder(buffer, 0x100_0000);
    DivUnique(w + buffer, 0x100_0000, buffer / 0x100_0000, x * a + w);
    MulBounds(b, a, 1, b);
  }

  lemma SumFactor(x: nat, v: nat, y: nat, a: nat, b: nat)
    requires y == x * b + v
    ensures x * (a * b) + v * a == y * a
  {
    Distribute(x * b, v, a);
    Reassociate(x, b, a);
    assert b * a == a * b;
  }

  lemma ExtendedVal(e: seq<bool>, pos: nat, bits: nat, v: nat, size: nat)
    requires pos + bits == |e| && v < Pow2(size)
    ensures Val(e + ToBits(v, size), pos, bits + size) == Val(e, pos, bits) * Pow2(size) + v
  {
    hide Val, Pow2, ToBits;
    var f := ToBits(v, size);
    ValSplit(e + f, pos, bits, size);
    ValOfPrefix(e, f, pos, bits);
    assert (e + f)[|e|..|e| + size] == f;
    ValOfToBits(e + f, |e|, v, size);
  }

  /** The byte (putBuffer >> 16) & 0xFF, and what is left after << 8. */
  lemma {:induction false} TopByte(e: seq<bool>, buffer: UInt32, bits: int, n: nat)
    requires Pending(e, buffer, bits, n) && bits >= 8
    ensures And(buffer / 0x1_0000, 0xff) == Val(e, 8 * n, 8)
    ensures Pending(e, U32(buffer * 0x100), bits - 8, n + 1)
  {
    hide And, Val, Pow2, U32;
    var a, b := Pow2(24 - bits), Pow2(bits - 8);
    PowValues();
    AndLow(buffer / 0x1_0000, 8);
    PowAdd(24 - bits, bits - 8);
    PowAdd(24 - bits, 8);
    ValPrefix(e, 8 * n, 8, bits - 8);
    ValBound(e, 8 * n, 8);
    TopByteNumbers(buffer, Val(e, 8 * n, bits), Val(e, 8 * n, 8), Val(e, 8 * n + 8, bits - 8), a, b);
  }

  lemma TopByteNumbers(buffer: nat, x: nat, hi: nat, lo: nat, a: nat, b: nat)
    requires a > 0 && b > 0 && a * b == 0x1_0000 && buffer % 0x100_0000 == x * a
    requires x / b == hi < 0x100 && x % b == lo
    ensures buffer / 0x1_0000 % 0x100 == hi
    ensures U32(buffer * 0x100) % 0x100_0000 == lo * (a * 0x100)
  {
    hide U32;
    QuotientRemainder(x, b);
    var y := x * a;
    Distribute(hi * b, lo, a);
    Reassociate(hi, b, a);
    assert b * a == a * b;
    MulBounds(lo, a, 0, b - 1);
    Distribute(b, 1, a);
    // y == hi * 2^16 + lo * a with lo * a < 2^16
    ByteOfWord(buffer, hi, lo * a);
    Reassociate(lo, a, 0x100);
  }

  lemma ByteOfWord(buffer: nat, hi: nat, lo: nat)
    requires hi < 0x100 && lo < 0x1_0000 && buffer % 0x100_0000 == hi * 0x1_0000 + lo
    ensures buffer / 0x1_0000 % 0x100 == hi
    ensures U32(buffer * 0x100) % 0x100_0000 == lo * 0x100
  {
    var q := buffer / 0x100_0000;
    QuotientRemainder(buffer, 0x100_0000);
    DivUnique(buffer, 0x1_0000, q * 0x100 + hi, lo);
    DivUnique(q * 0x100 + hi, 0x100, q, hi);
    ModMod(buffer * 0x100, 0x100_0000, 0x100);
    DivUnique(buffer * 0x100, 0x100_0000, q * 0x100 + hi, lo * 0x100);
  }

  // ----- the writer -----

  class Writer {
    var out: seq<UInt8>
    var putBuffer: UInt32
    var putBits: int
    /** All bits emitted so far. */
    ghost var emitted: seq<bool>

    constructor ()
      ensures Valid() && emitted == [] && out == []
    {
      assert Stuffed([]) == [] && Packed([], 0) == [];
      assert Pow2(0) == 1;
      out, putBuffer, putBits, emitted := [], 0, 0, [];
    }

    /** A working copy of the state. */
    constructor Load(from: Writer)
      requires from.Valid()
      ensures Valid() && emitted == from.emitted && out == from.out
    {
      out, putBuffer, putBits, emitted := from.out, from.putBuffer, from.putBits, from.emitted;
    }

    /** The output is the stuffed whole bytes; fewer than eight bits are held back. */
    ghost predicate Valid()
      reads this
    {
      && 0 <= putBits <= 7
      && Pending(emitted, putBuffer, putBits, |emitted| / 8)
      && out == Stuffed(Packed(emitted, |emitted| / 8))
    }

    /** emit_bits. A size of 0 means that the symbol has no code: an error. */
    method EmitBits(code: UInt32, size: nat) returns (ok: bool)
      requires Valid() && size <= 16
      modifies this
      ensures Valid()
      ensures ok <==> size > 0
      ensures ok ==> emitted == old(emitted) + ToBits(code % Pow2(size), size)
      ensures !ok ==> unchanged(this)
    {
      if size == 0 {
        return false;
      }
      hide *;
      ghost var e, n := emitted, |emitted| / 8;
      HeldBack();
      var buffer, bits := MergeBits(e, putBuffer, putBits, n, code, size);
      ghost var v: nat := code % Pow2(size);
      var bytes := out;
      assert bytes == Stuffed(Packed(e + ToBits(v, size), n)) by { PackedPrefix(e, ToBits(v, size), n); }
      bytes, buffer, bits, n := Drain(e + ToBits(v, size), bytes, buffer, bits, n);
      out, putBuffer, putBits, emitted := bytes, buffer, bits, e + ToBits(v, size);
      WriterValid();
      return true;
    }

    lemma HeldBack()
      requires Valid()
      ensures 0 <= putBits <= 7 && |emitted| == 8 * (|emitted| / 8) + putBits
      ensures Pending(emitted, putBuffer, putBits, |emitted| / 8) && out == Stuffed(Packed(emitted, |emitted| / 8))
    {
      hide Stuffed, Packed, Val, Pow2;
    }

    lemma WriterValid()
      requires 0 <= putBits <= 7 && Pending(emitted, putBuffer, putBits, |emitted| / 8)
      requires out == Stuffed(Packed(emitted, |emitted| / 8))
      ensures Valid()
    {
      hide Stuffed, Packed, Pending;
    }

    /** flush_bits: the last byte is filled up with ones, and bits that would only
        begin another byte are dropped. */
    method FlushBits()
      requires Valid()
      modifies this
      ensures Valid() && putBits == 0
      ensures emitted == Padded(old(emitted))
      ensures out == Stuffed(Packed(emitted, |emitted| / 8))
      ensures old(emitted) <= emitted && |emitted| % 8 == 0 && |emitted| < |old(emitted)| + 8
      ensures forall i :: |old(emitted)| <= i < |emitted| ==> emitted[i]
    {
      OnesBehind(emitted);
      hide *;
      ghost var e := emitted;
      var ok := EmitBits(0x7f, 7);
      HeldBack();
      SevenOnes();
      PaddedBytes(e);
      putBuffer := 0;
      putBits := 0;
      emitted := Padded(e);
      EmptyPending(emitted, |emitted| / 8);
      WriterValid();
    }
  }

  /** The new bits, masked and aligned below the pending ones. */
  method MergeBits(ghost e: seq<bool>, putBuffer: UInt32, putBits: int, ghost n: nat, code: UInt32, size: nat)
    returns (buffer: UInt32, bits: int)
    requires Pending(e, putBuffer, putBits, n) && putBits <= 7 && 0 < size <= 16 && |e| == 8 * n + putBits
    ensures bits == putBits + size && Pending(e + ToBits(code % Pow2(size), size), buffer, bits, n)
  {
    assert 0 <= putBits;
    hide *;
    buffer := And(code, Pow2(size) - 1);
    AndLow(code, size);
    MaskedFits(code, size);
    bits := putBits + size;
    MulAtLeastZero(buffer, Pow2(24 - bits));
    var aligned: nat := buffer * Pow2(24 - bits);
    Merged(e, putBuffer, putBits, n, buffer, size, aligned);
    buffer := aligned;
    SumBelow(buffer, putBuffer);
    buffer := Or(buffer, putBuffer);
  }

  /** The loop of emit_bits: whole bytes leave the buffer. */
  method Drain(ghost e: seq<bool>, out0: seq<UInt8>, buffer0: UInt32, bits0: int, ghost n0: nat)
    returns (out: seq<UInt8>, buffer: UInt32, bits: int, ghost n: nat)
    requires Pending(e, buffer0, bits0, n0) && out0 == Stuffed(Packed(e, n0))
    ensures 0 <= bits <= 7 && n == |e| / 8 && Pending(e, buffer, bits, n) && out == Stuffed(Packed(e, n))
  {
    hide Stuffed, Val, Pow2, And, U32;
    out, buffer, bits, n := out0, buffer0, bits0, n0;
    while bits >= 8
      invariant Pending(e, buffer, bits, n) && out == Stuffed(Packed(e, n))
      decreases bits
    {
      TopByte(e, buffer, bits, n);
      var c := And(buffer / 0x1_0000, 0xff);
      StuffOne(Packed(e, n), c);
      out := out + [c];
      if c == 0xff {
        out := out + [0];
      }
      assert Packed(e, n + 1) == Packed(e, n) + [c];
      buffer := U32(buffer * 0x100);
      bits := bits - 8;
      n := n + 1;
    }
  }

  lemma {:induction false} StuffOne(p: seq<UInt8>, c: UInt8)
    ensures Stuffed(p + [c]) == Stuffed(p) + (if c == 0xff then [0xff, 0] else [c])
  {
    assert (p + [c])[..|p|] == p;
  }

  lemma {:induction false} MaskedFits(code: UInt32, size: nat)
    ensures 0 <= code % Pow2(size) < Pow2(size)
  {
  }

  /** The merged word is a 32-bit word: the new bits fill gaps of the old one. */
  lemma {:induction false} SumBelow(w: nat, buffer: UInt32)
    requires w < 0x100_0000 && Or(w, buffer) == w + buffer
    ensures Or(w, buffer) < TWO32
  {
    hide Or, And;
    PowValues();
    OrBelow(w, buffer, 32);
  }

  lemma {:induction false} OrBelow(x: nat, y: nat, n: nat)
    requires x < Pow2(n) && y < Pow2(n)
    ensures Or(x, y) < Pow2(n)
  {
    if x != 0 && y != 0 {
      OrBelow(x / 2, y / 2, n - 1);
    }
  }

  lemma SevenOnes()
    ensures ToBits(0x7f % Pow2(7), 7) == Ones(7)
  {
    assert Pow2(7) == 0x80;
    assert ToBits(0x7f, 7) == [true, true, true, true, true, true, true];
  }

  lemma OnesBehind(e: seq<bool>)
    ensures e <= Padded(e) && |Padded(e)| % 8 == 0 && |Padded(e)| < |e| + 8
    ensures forall i :: |e| <= i < |Padded(e)| ==> Padded(e)[i]
  {
  }

  /** Of seven more ones, those that complete a byte are the padding. */
  lemma {:induction false} PaddedBytes(e: seq<bool>)
    ensures |Padded(e)| / 8 == |e + Ones(7)| / 8 && |Padded(e)| == 8 * (|Padded(e)| / 8)
    ensures Packed(Padded(e), |Padded(e)| / 8) == Packed(e + Ones(7), |e + Ones(7)| / 8)
  {
    var k := (8 - |e| % 8) % 8;
    assert Ones(7) == Ones(k) + Ones(7 - k);
    assert e + Ones(7) == Padded(e) + Ones(7 - k);
    PackedPrefix(Padded(e), Ones(7 - k), |Padded(e)| / 8);
  }

  lemma EmptyPending(e: seq<bool>, n: nat)
    requires |e| == 8 * n
    ensures Pending(e, 0, 0, n)
  {
    hide Stuffed, Packed, Padded;
  }
}
