/** Bit streams: the entropy-coded bits of a JPEG segment, most significant bit
    of each byte first. */
module BitStream {
  import opened Bits

  /** Bit i of a stream that is continued with zeros. */
  function BitAt(s: seq<bool>, i: nat): nat {
    if i < |s| && s[i] then 1 else 0
  }

  /** The n bits from pos on as a number. */
  function Val(s: seq<bool>, pos: nat, n: nat): (v: nat) {
    if n == 0 then 0 else 2 * Val(s, pos, n - 1) + BitAt(s, pos + n - 1)
  }

  /** The n low bits of v, highest first. */
  function ToBits(v: nat, n: nat): (s: seq<bool>)
    ensures |s| == n
  {
    if n == 0 then [] else ToBits(v / 2, n - 1) + [v % 2 == 1]
  }

  function BytesToBits(bytes: seq<UInt8>): (s: seq<bool>)
    ensures |s| == 8 * |bytes|
  {
    if bytes == [] then [] else BytesToBits(bytes[..|bytes| - 1]) + ToBits(bytes[|bytes| - 1], 8)
  }

  lemma {:induction false} ValBound(s: seq<bool>, pos: nat, n: nat)
    ensures Val(s, pos, n) < Pow2(n)
  {
    if n > 0 {
      ValBound(s, pos, n - 1);
    }
  }

  lemma {:induction false} ValSplit(s: seq<bool>, pos: nat, a: nat, b: nat)
    ensures Val(s, pos, a + b) == Val(s, pos, a) * Pow2(b) + Val(s, pos + a, b)
    decreases b
  {
    if b > 0 {
      ValSplit(s, pos, a, b - 1);
      Double(Val(s, pos, a), Pow2(b - 1));
    }
  }

  /** The first a of a + b bits. */
  lemma ValPrefix(s: seq<bool>, pos: nat, a: nat, b: nat)
    ensures Val(s, pos, a + b) / Pow2(b) == Val(s, pos, a)
    ensures Val(s, pos, a + b) % Pow2(b) == Val(s, pos + a, b)
  {
    hide Val, Pow2;
    ValSplit(s, pos, a, b);
    ValBound(s, pos + a, b);
    DivUnique(Val(s, pos, a + b), Pow2(b), Val(s, pos, a), Val(s, pos + a, b));
  }

  /** The stream has the bits e at pos. */
  ghost predicate HasAt(s: seq<bool>, pos: nat, e: seq<bool>) {
    pos + |e| <= |s| && s[pos..pos + |e|] == e
  }

  lemma HasAtParts(s: seq<bool>, pos: nat, a: seq<bool>, b: seq<bool>)
    requires HasAt(s, pos, a + b)
    ensures HasAt(s, pos, a) && HasAt(s, pos + |a|, b)
  {
    var e := a + b;
    assert forall i :: 0 <= i < |a| ==> s[pos..pos + |e|][i] == e[i] == a[i];
    assert forall i :: 0 <= i < |b| ==> s[pos..pos + |e|][|a| + i] == e[|a| + i] == b[i];
    assert s[pos..pos + |a|] == a;
    assert s[pos + |a|..pos + |a| + |b|] == b;
  }

  /** Reading back written bits. */
  lemma {:induction false} ValOfToBits(s: seq<bool>, pos: nat, v: nat, n: nat)
    requires v < Pow2(n) && HasAt(s, pos, ToBits(v, n))
    ensures Val(s, pos, n) == v
    decreases n
  {
    if n > 0 {
      var a, b := ToBits(v / 2, n - 1), [v % 2 == 1];
      HasAtParts(s, pos, a, b);
      ValOfToBits(s, pos, v / 2, n - 1);
      assert s[pos + n - 1..pos + n][0] == b[0];
    }
  }

  /** Byte i of a byte stream that is continued with zeros. */
  function ByteAt(p: seq<UInt8>, i: nat): UInt8 {
    if i < |p| then p[i] else 0
  }

  lemma {:induction false} BytesAppend(p: seq<UInt8>, q: seq<UInt8>)
    ensures BytesToBits(p + q) == BytesToBits(p) + BytesToBits(q)
    decreases |q|
  {
    hide ToBits;
    if q == [] {
      assert p + q == p;
    } else {
      var n := |q| - 1;
      BytesAppend(p, q[..n]);
      assert (p + q)[..|p| + n] == p + q[..n];
      assert (p + q)[|p| + n] == q[n];
      assert BytesToBits(q) == BytesToBits(q[..n]) + ToBits(q[n], 8);
      assert BytesToBits(p + q) == BytesToBits(p + q[..n]) + ToBits(q[n], 8);
    }
  }

  /** Eight bits of the stream are one byte. */
  lemma {:induction false} ValOfByte(p: seq<UInt8>, i: nat)
    ensures Val(BytesToBits(p), 8 * i, 8) == ByteAt(p, i)
  {
    hide Val, ToBits;
    var s := BytesToBits(p);
    if i < |p| {
      BytesAppend(p[..i], p[i..i + 1]);
      BytesAppend(p[..i + 1], p[i + 1..]);
      assert p == p[..i + 1] + p[i + 1..] && p[..i + 1] == p[..i] + p[i..i + 1];
      assert p[i..i + 1][..0] == [] && BytesToBits(p[i..i + 1]) == [] + ToBits(p[i], 8);
      assert HasAt(s, 8 * i, ToBits(p[i], 8));
      PowValues();
      ValOfToBits(s, 8 * i, p[i], 8);
    } else {
      ValBeyond(s, 8 * i, 8);
    }
  }

  lemma {:induction false} ValBeyond(s: seq<bool>, pos: nat, n: nat)
    requires pos >= |s|
    ensures Val(s, pos, n) == 0
  {
    if n > 0 {
      ValBeyond(s, pos, n - 1);
    }
  }

  lemma {:induction false} BitOfWord(v: nat, n: nat, k: nat)
    requires k < n
    ensures ToBits(v, n)[k] <==> v / Pow2(n - 1 - k) % 2 == 1
  {
    if k < n - 1 {
      BitOfWord(v / 2, n - 1, k);
      HalfDown(v, n - 1 - k);
    }
  }

  /** The bits of a segment are those of its bytes, the most significant first. */
  lemma {:induction false} BitOfByte(p: seq<UInt8>, i: nat, k: nat)
    requires i < |p| && k < 8
    ensures |BytesToBits(p)| == 8 * |p|
    ensures BytesToBits(p)[8 * i + k] <==> p[i] / Pow2(7 - k) % 2 == 1
  {
    hide ToBits, Pow2;
    var n := |p| - 1;
    if i < n {
      BitOfByte(p[..n], i, k);
    } else {
      BitOfWord(p[n], 8, k);
    }
  }
}
