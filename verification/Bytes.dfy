/** 32-bit words as four bytes. */
module Bytes {
  import opened Bits

  /** The word with the bytes b3 (highest) to b0 (lowest). */
  function Pack(b3: UInt8, b2: UInt8, b1: UInt8, b0: UInt8): UInt32 {
    b3 * 0x100_0000 + b2 * 0x1_0000 + b1 * 0x100 + b0
  }

  lemma BytesOf(b3: int, b2: UInt8, b1: UInt8, b0: UInt8)
    ensures var p := b3 * 0x100_0000 + b2 * 0x1_0000 + b1 * 0x100 + b0;
      p / 0x100_0000 == b3 && p / 0x1_0000 % 0x100 == b2 && p / 0x100 % 0x100 == b1 && p % 0x100 == b0
  {
    var p := b3 * 0x100_0000 + b2 * 0x1_0000 + b1 * 0x100 + b0;
    DivUnique(p, 0x100_0000, b3, b2 * 0x1_0000 + b1 * 0x100 + b0);
    DivUnique(p, 0x1_0000, b3 * 0x100 + b2, b1 * 0x100 + b0);
    DivUnique(b3 * 0x100 + b2, 0x100, b3, b2);
    DivUnique(p, 0x100, b3 * 0x1_0000 + b2 * 0x100 + b1, b0);
    DivUnique(b3 * 0x1_0000 + b2 * 0x100 + b1, 0x100, b3 * 0x100 + b2, b1);
  }

  lemma FromBytes(p: UInt32)
    ensures p == p / 0x100_0000 * 0x100_0000 + p / 0x1_0000 % 0x100 * 0x1_0000 + p / 0x100 % 0x100 * 0x100 + p % 0x100
  {
    DivDiv(p, 0x100, 0x100);
    DivDiv(p, 0x1_0000, 0x100);
    QuotientRemainder(p, 0x100);
    QuotientRemainder(p / 0x100, 0x100);
    QuotientRemainder(p / 0x1_0000, 0x100);
  }

  /** Shifting bytes into place and joining them with |. */
  lemma {:induction false} OrBytes(b3: UInt8, b2: UInt8, b1: UInt8, b0: UInt8)
    ensures Or(Or(Or(b3 * 0x100_0000, b2 * 0x1_0000), b1 * 0x100), b0) == Pack(b3, b2, b1, b0)
  {
    hide Or;
    PowValues();
    OrDisjoint(b3, b2 * 0x1_0000, 24);
    OrDisjoint(b3 * 0x100 + b2, b1 * 0x100, 16);
    OrDisjoint(b3 * 0x1_0000 + b2 * 0x100 + b1, b0, 8);
  }

  /** The bytes of a word in memory order. */
  function Stored(w: UInt32, bigEndian: bool): (s: seq<UInt8>)
    ensures |s| == 4
  {
    var b3, b2, b1, b0 := w / 0x100_0000, w / 0x1_0000 % 0x100, w / 0x100 % 0x100, w % 0x100;
    if bigEndian then [b3, b2, b1, b0] else [b0, b1, b2, b3]
  }

  /** The word read from four bytes of memory. */
  function Loaded(s: seq<UInt8>, bigEndian: bool): UInt32
    requires |s| == 4
  {
    if bigEndian then Pack(s[0], s[1], s[2], s[3]) else Pack(s[3], s[2], s[1], s[0])
  }

  lemma LoadStored(w: UInt32, bigEndian: bool)
    ensures Loaded(Stored(w, bigEndian), bigEndian) == w
  {
    FromBytes(w);
  }

  lemma StoredPack(b3: UInt8, b2: UInt8, b1: UInt8, b0: UInt8, bigEndian: bool)
    ensures Stored(Pack(b3, b2, b1, b0), bigEndian) == if bigEndian then [b3, b2, b1, b0] else [b0, b1, b2, b3]
  {
    BytesOf(b3, b2, b1, b0);
  }

  /** Different bytes make different words. */
  lemma StoreLoaded(s: seq<UInt8>, bigEndian: bool)
    requires |s| == 4
    ensures Stored(Loaded(s, bigEndian), bigEndian) == s
  {
    if bigEndian {
      BytesOf(s[0], s[1], s[2], s[3]);
    } else {
      BytesOf(s[3], s[2], s[1], s[0]);
    }
  }

  /** after is before with bytes put in place at the given offset. */
  ghost predicate Written(before: seq<UInt8>, after: seq<UInt8>, at: nat, bytes: seq<UInt8>) {
    && at + |bytes| <= |before| == |after|
    && forall j :: 0 <= j < |after| ==>
      after[j] == if at <= j < at + |bytes| then bytes[j - at] else before[j]
  }

  /** A word store through an aligned pointer; base is the address of mem. */
  method StoreWord(mem: array<UInt8>, base: nat, at: nat, w: UInt32, bigEndian: bool)
    requires at + 4 <= mem.Length && (base + at) % 4 == 0
    modifies mem
    ensures Written(old(mem[..]), mem[..], at, Stored(w, bigEndian))
  {
    var s := Stored(w, bigEndian);
    mem[at], mem[at + 1], mem[at + 2], mem[at + 3] := s[0], s[1], s[2], s[3];
  }
}
