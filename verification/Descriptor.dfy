/** The tag / length / value blocks of hsDescriptor.h (release build) and the
    walker of hsDescriptor_Internal.h, in byte memory of either byte order. */
module Descriptor {
  import opened Bits
  import opened Bytes

  /** sizeof(hsDescriptorHeader), with fLength, fCheckSum and fCount at 0, 4 and 8. */
  const HEADER := 12
  /** sizeof(DescRec), with fTag and fLength. */
  const REC := 8

  datatype Rec = Rec(tag: UInt32, data: seq<UInt8>)

  /** hsLongAlign */
  function LongAlign(n: nat): nat {
    And(n + 3, 0xffff_fffc)
  }

  function Aligned(n: nat): (r: nat)
    ensures n <= r <= n + 3 && r % 4 == 0 && (REC + r) % 4 == 0 && (r > n ==> r >= 4)
  {
    (n + 3) / 4 * 4
  }

  lemma AlignByMask(n: nat)
    requires n + 3 < TWO32
    ensures LongAlign(n) == Aligned(n)
  {
    hide And, Pow2;
    PowValues();
    PowAdd(30, 2);
    var x := n + 3;
    AndSplit(x, x / 4, x % 4, 0xffff_fffc, 0x3fff_ffff, 0, 2);
    AndLow(x / 4, 30);
  }

  // ----- the canonical image of a record list -----

  function Zeros(n: nat): (s: seq<UInt8>)
    ensures |s| == n
  {
    seq(n, _ => 0)
  }

  function RecBytes(r: Rec, be: bool): (s: seq<UInt8>)
    requires |r.data| < TWO32
    ensures |s| == REC + Aligned(|r.data|) && |s| % 4 == 0
  {
    Stored(r.tag, be) + Stored(|r.data|, be) + r.data + Zeros(Aligned(|r.data|) - |r.data|)
  }

  ghost predicate Small(rs: seq<Rec>) {
    forall i :: 0 <= i < |rs| ==> |rs[i].data| < TWO32
  }

  ghost function RecsBytes(rs: seq<Rec>, be: bool): (s: seq<UInt8>)
    requires Small(rs)
    ensures |s| >= REC * |rs|
  {
    if rs == [] then [] else RecBytes(rs[0], be) + RecsBytes(rs[1..], be)
  }

  lemma {:induction false} RecsAligned(rs: seq<Rec>, be: bool)
    requires Small(rs)
    ensures |RecsBytes(rs, be)| % 4 == 0
  {
    hide RecBytes;
    if rs != [] {
      RecsAligned(rs[1..], be);
      assert RecsBytes(rs, be) == RecBytes(rs[0], be) + RecsBytes(rs[1..], be);
    }
  }

  ghost predicate Fits(rs: seq<Rec>, be: bool) {
    Small(rs) && HEADER + |RecsBytes(rs, be)| < TWO32
  }

  function HeaderBytes(length: UInt32, check: UInt32, count: UInt32, be: bool): (s: seq<UInt8>)
    ensures |s| == HEADER
  {
    Stored(length, be) + Stored(check, be) + Stored(count, be)
  }

  /** The memory image of a descriptor: no byte of it is left to chance. */
  ghost function Image(rs: seq<Rec>, check: UInt32, be: bool): (s: seq<UInt8>)
    requires Fits(rs, be)
    ensures |s| == HEADER + |RecsBytes(rs, be)|
  {
    HeaderBytes(HEADER + |RecsBytes(rs, be)|, check, |rs|, be) + RecsBytes(rs, be)
  }

  /** Memory m starts with the image of rs. */
  ghost predicate Holds(m: seq<UInt8>, rs: seq<Rec>, check: UInt32, be: bool) {
    Fits(rs, be) && Image(rs, check, be) <= m
  }

  // ----- reading -----

  function LoadAt(m: seq<UInt8>, at: nat, be: bool): UInt32
    requires at + 4 <= |m|
  {
    Loaded(m[at..at + 4], be)
  }

  lemma LoadsStored(m: seq<UInt8>, at: nat, w: UInt32, be: bool)
    requires at + 4 <= |m| && m[at..at + 4] == Stored(w, be)
    ensures LoadAt(m, at, be) == w
  {
    LoadStored(w, be);
  }

  lemma {:induction false} HeaderOf(m: seq<UInt8>, rs: seq<Rec>, check: UInt32, be: bool)
    requires Holds(m, rs, check, be)
    ensures Small(rs) && Fits(rs, be) && |m| >= HEADER + |RecsBytes(rs, be)|
    ensures LoadAt(m, 0, be) == HEADER + |RecsBytes(rs, be)|
    ensures LoadAt(m, 4, be) == check && LoadAt(m, 8, be) == |rs|
    ensures m[HEADER..HEADER + |RecsBytes(rs, be)|] == RecsBytes(rs, be)
  {
    hide Stored, Loaded, RecsBytes;
    var i := Image(rs, check, be);
    assert forall j, k :: 0 <= j <= k <= |i| ==> m[j..k] == i[j..k];
    assert i[0..4] == Stored(|i|, be) && i[4..8] == Stored(check, be) && i[8..12] == Stored(|rs|, be);
    LoadsStored(m, 0, |i|, be);
    LoadsStored(m, 4, check, be);
    LoadsStored(m, 8, |rs|, be);
  }

  // ----- the walker -----

  /** DescRec.Next */
  function NextRec(m: seq<UInt8>, at: nat, be: bool): nat
    requires at + REC <= |m|
  {
    at + REC + LongAlign(LoadAt(m, at + 4, be))
  }

  /** The records met in n steps of Next from at, and the address reached; a
      walk stops early where memory ends. */
  function Walk(m: seq<UInt8>, at: nat, n: nat, be: bool): (seq<Rec>, nat)
    decreases n
  {
    if n == 0 || at + REC > |m| || at + REC + LoadAt(m, at + 4, be) > |m| then ([], at)
    else
      var r := Rec(LoadAt(m, at, be), m[at + REC..at + REC + LoadAt(m, at + 4, be)]);
      var (rest, end) := Walk(m, NextRec(m, at, be), n - 1, be);
      ([r] + rest, end)
  }

  lemma RecordAt(m: seq<UInt8>, at: nat, r: Rec, be: bool)
    requires |r.data| + 3 < TWO32 && at + REC + Aligned(|r.data|) <= |m|
    requires m[at..at + REC + Aligned(|r.data|)] == RecBytes(r, be)
    ensures LoadAt(m, at, be) == r.tag && LoadAt(m, at + 4, be) == |r.data|
    ensures m[at + REC..at + REC + |r.data|] == r.data
    ensures NextRec(m, at, be) == at + REC + Aligned(|r.data|)
  {
    hide Stored, Loaded, LongAlign, And;
    var i := RecBytes(r, be);
    assert i[0..4] == Stored(r.tag, be) && i[4..8] == Stored(|r.data|, be);
    assert i[8..8 + |r.data|] == r.data;
    SubSlice(m, at, i, 0, 4);
    SubSlice(m, at, i, 4, 8);
    SubSlice(m, at, i, 8, 8 + |r.data|);
    LoadsStored(m, at, r.tag, be);
    LoadsStored(m, at + 4, |r.data|, be);
    AlignByMask(|r.data|);
  }

  lemma SubSlice<T>(m: seq<T>, at: nat, i: seq<T>, j: nat, k: nat)
    requires at + |i| <= |m| && m[at..at + |i|] == i && j <= k <= |i|
    ensures m[at + j..at + k] == i[j..k]
  {
    var u := m[at + j..at + k];
    forall x | 0 <= x < k - j
      ensures u[x] == i[j..k][x]
    {
      assert m[at..at + |i|][j + x] == i[j + x];
    }
  }

  /** Walking the bytes of a record list finds the list. */
  lemma {:induction false} WalkFinds(m: seq<UInt8>, at: nat, rs: seq<Rec>, be: bool)
    requires Small(rs) && at + |RecsBytes(rs, be)| <= |m| && at + |RecsBytes(rs, be)| < TWO32
    requires m[at..at + |RecsBytes(rs, be)|] == RecsBytes(rs, be)
    ensures Walk(m, at, |rs|, be) == (rs, at + |RecsBytes(rs, be)|)
    decreases |rs|
  {
    hide RecBytes, LongAlign, LoadAt, Aligned, RecsBytes;
    if rs == [] {
      assert |RecsBytes(rs, be)| == 0 by { EmptyList(be); }
    } else {
      FirstAndRest(m, at, rs, be);
      var b := RecBytes(rs[0], be);
      RecordAt(m, at, rs[0], be);
      WalkFinds(m, at + |b|, rs[1..], be);
      assert rs == [rs[0]] + rs[1..];
    }
  }

  lemma {:induction false} EmptyList(be: bool)
    ensures RecsBytes([], be) == []
  {
  }

  lemma {:induction false} FirstAndRest(m: seq<UInt8>, at: nat, rs: seq<Rec>, be: bool)
    requires rs != [] && Small(rs) && at + |RecsBytes(rs, be)| <= |m|
    requires m[at..at + |RecsBytes(rs, be)|] == RecsBytes(rs, be)
    ensures var b, t := RecBytes(rs[0], be), RecsBytes(rs[1..], be);
      && |RecsBytes(rs, be)| == |b| + |t|
      && m[at..at + |b|] == b && m[at + |b|..at + |b| + |t|] == t
  {
    hide RecBytes, RecsBytes;
    ConsBytes(rs, be);
    SplitSlice(m, at, RecBytes(rs[0], be), RecsBytes(rs[1..], be));
  }

  lemma {:induction false} ConsBytes(rs: seq<Rec>, be: bool)
    requires rs != [] && Small(rs)
    ensures Small(rs[1..]) && RecsBytes(rs, be) == RecBytes(rs[0], be) + RecsBytes(rs[1..], be)
  {
    hide RecBytes;
  }

  lemma SplitSlice<T>(m: seq<T>, at: nat, b: seq<T>, t: seq<T>)
    requires at + |b| + |t| <= |m| && m[at..at + |b| + |t|] == b + t
    ensures m[at..at + |b|] == b && m[at + |b|..at + |b| + |t|] == t
  {
    assert (b + t)[0..|b|] == b && (b + t)[|b|..|b + t|] == t;
    SubSlice(m, at, b + t, 0, |b|);
    SubSlice(m, at, b + t, |b|, |b + t|);
  }

  /** Main theorem: walking fCount steps from GetRec gives back the records that
      were written, in order, and stops at fLength. */
  lemma {:induction false} WalkUndoesBuilding(m: seq<UInt8>, rs: seq<Rec>, check: UInt32, be: bool)
    requires Holds(m, rs, check, be)
    ensures |m| >= HEADER && Walk(m, HEADER, LoadAt(m, 8, be), be) == (rs, LoadAt(m, 0, be))
  {
    hide Image, RecsBytes, LoadAt, Walk;
    HeaderOf(m, rs, check, be);
    WalkFinds(m, HEADER, rs, be);
  }

  /** The image determines the records. */
  lemma ImageInjective(rs: seq<Rec>, rs': seq<Rec>, check: UInt32, check': UInt32, be: bool)
    requires Fits(rs, be) && Fits(rs', be) && Image(rs, check, be) == Image(rs', check', be)
    ensures rs == rs' && check == check'
  {
    hide Image, RecsBytes, LoadAt, Walk;
    var m := Image(rs, check, be);
    WalkUndoesBuilding(m, rs, check, be);
    WalkUndoesBuilding(m, rs', check', be);
    HeaderOf(m, rs, check, be);
    HeaderOf(m, rs', check', be);
  }

  // ----- building -----

  /** hsDescriptor_Reset: whatever the memory held, it now holds no records. */
  method Reset(mem: array<UInt8>, be: bool)
    requires mem.Length >= HEADER
    modifies mem
    ensures Holds(mem[..], [], LoadAt(old(mem[..]), 4, be), be)
    ensures forall j :: HEADER <= j < mem.Length ==> mem[j] == old(mem[j])
  {
    ghost var m0 := mem[..];
    StoreWord(mem, 0, 0, HEADER, be);
    StoreWord(mem, 0, 8, 0, be);
    EmptyHolds(m0, mem[..], be);
  }

  lemma EmptyHolds(m0: seq<UInt8>, m: seq<UInt8>, be: bool)
    requires |m0| == |m| >= HEADER
    requires m[0..4] == Stored(HEADER, be) && m[8..12] == Stored(0, be) && m[4..8] == m0[4..8]
    ensures Holds(m, [], LoadAt(m0, 4, be), be)
  {
    hide Stored, Loaded;
    StoreLoaded(m0[4..8], be);
    assert m[..12] == m[0..4] + m[4..8] + m[8..12];
  }

  /** What Add writes after the records: tag, length, and a cleared last word
      where the length is not a multiple of four. */
  ghost predicate Added(m: seq<UInt8>, at: nat, tag: UInt32, length: UInt32, be: bool) {
    && at + REC + Aligned(length) <= |m|
    && m[at..at + 4] == Stored(tag, be) && m[at + 4..at + 8] == Stored(length, be)
    && forall j :: at + REC + length <= j < at + REC + Aligned(length) ==> m[j] == 0
  }

  /** The words read back, and the bytes up to the next multiple of four are zero. */
  lemma AddedReads(m: seq<UInt8>, at: nat, tag: UInt32, length: UInt32, be: bool)
    requires Added(m, at, tag, length, be)
    ensures at + 8 + length <= |m| && LoadAt(m, at, be) == tag && LoadAt(m, at + 4, be) == length
    ensures forall j :: at + 8 + length <= j < at + 8 + (length + 3) / 4 * 4 ==> j < |m| && m[j] == 0
  {
    hide Stored, LoadAt;
    LoadsStored(m, at, tag, be);
    LoadsStored(m, at + 4, length, be);
  }

  /** Such bytes are the record with whatever data lies there. */
  lemma AddedIsRecord(m: seq<UInt8>, at: nat, tag: UInt32, length: UInt32, be: bool)
    requires Added(m, at, tag, length, be)
    ensures m[at..at + REC + Aligned(length)] == RecBytes(Rec(tag, m[at + REC..at + REC + length]), be)
  {
    hide Stored;
    var s := m[at..at + REC + Aligned(length)];
    var z := Zeros(Aligned(length) - length);
    assert m[at + REC + length..at + REC + Aligned(length)] == z;
    assert s == m[at..at + 4] + m[at + 4..at + 8] + m[at + 8..at + 8 + length]
      + m[at + REC + length..at + REC + Aligned(length)];
  }

  /** New header words and a new record at the end extend the list. */
  lemma {:induction false} ExtendedHolds(m0: seq<UInt8>, m: seq<UInt8>, rs: seq<Rec>, check: UInt32, r: Rec, be: bool)
    requires Holds(m0, rs, check, be) && |r.data| < TWO32 && |m| == |m0|
    requires var n := HEADER + |RecsBytes(rs, be)|;
      && n + REC + Aligned(|r.data|) < TWO32 && n + REC + Aligned(|r.data|) <= |m|
      && m[0..4] == Stored(n + REC + Aligned(|r.data|), be)
      && m[4..8] == m0[4..8]
      && m[8..12] == Stored(|rs| + 1, be)
      && m[12..n] == m0[12..n]
      && m[n..n + REC + Aligned(|r.data|)] == RecBytes(r, be)
    ensures Holds(m, rs + [r], check, be)
  {
    hide Stored, Loaded, RecBytes, RecsBytes, Aligned;
    var b, c := RecsBytes(rs, be), RecBytes(r, be);
    HeaderOf(m0, rs, check, be);
    RecsConcat(rs, [r], be);
    SingleRecord(r, be);
    StoreLoaded(m0[4..8], be);
    var n := HEADER + |b|;
    var i := Image(rs + [r], check, be);
    FiveSlices(m, n, n + |c|);
    assert m[12..n] + m[n..n + |c|] == b + c;
    assert i == m[..n + |c|];
  }

  lemma FiveSlices<T>(m: seq<T>, n: nat, e: nat)
    requires 12 <= n <= e <= |m|
    ensures m[..e] == m[0..4] + m[4..8] + m[8..12] + (m[12..n] + m[n..e])
  {
    assert m[12..n] + m[n..e] == m[12..e];
    assert m[0..4] + m[4..8] == m[0..8];
    assert m[0..8] + m[8..12] == m[0..12];
    assert m[0..12] + m[12..e] == m[..e];
  }

  /** Tag and length words of a new record, and its last data word cleared where
      the length is not a multiple of four. */
  method StoreRec(mem: array<UInt8>, rec: nat, tag: UInt32, length: UInt32, be: bool)
    requires rec % 4 == 0 && rec + REC + Aligned(length) <= mem.Length < TWO32
    modifies mem
    ensures Added(mem[..], rec, tag, length, be)
    ensures forall j :: 0 <= j < rec || rec + REC + Aligned(length) <= j < mem.Length ==> mem[j] == old(mem[j])
  {
    hide LongAlign, Aligned, Stored, Written, Added;
    ghost var m0 := mem[..];
    AlignByMask(length);
    StoreWord(mem, 0, rec, tag, be);
    ghost var m1 := mem[..];
    StoreWord(mem, 0, rec + 4, length, be);
    ghost var m2 := mem[..];
    HeaderStored(m0, m1, m2, rec, tag, length, be);
    var recData := rec + REC;
    var longLength := LongAlign(length);
    if longLength > length {
      StoreWord(mem, 0, recData + longLength - 4, 0, be);
    }
    TailCleared(m2, mem[..], rec, tag, length, be);
  }

  lemma HeaderStored(m0: seq<UInt8>, m1: seq<UInt8>, m2: seq<UInt8>, rec: nat, tag: UInt32, length: UInt32, be: bool)
    requires rec + REC <= |m0|
    requires Written(m0, m1, rec, Stored(tag, be)) && Written(m1, m2, rec + 4, Stored(length, be))
    ensures |m2| == |m0| && m2[rec..rec + 4] == Stored(tag, be) && m2[rec + 4..rec + 8] == Stored(length, be)
    ensures forall j :: 0 <= j < rec || rec + REC <= j < |m0| ==> m2[j] == m0[j]
  {
    hide Stored;
  }

  lemma TailCleared(m2: seq<UInt8>, m3: seq<UInt8>, rec: nat, tag: UInt32, length: UInt32, be: bool)
    requires rec + REC + Aligned(length) <= |m2|
    requires m2[rec..rec + 4] == Stored(tag, be) && m2[rec + 4..rec + 8] == Stored(length, be)
    requires if Aligned(length) > length then Written(m2, m3, rec + REC + Aligned(length) - 4, Stored(0, be))
             else m3 == m2
    ensures Added(m3, rec, tag, length, be)
    ensures forall j :: 0 <= j < rec || rec + REC + Aligned(length) <= j < |m3| ==> m3[j] == m2[j]
  {
    if Aligned(length) > length {
      assert Stored(0, be) == [0, 0, 0, 0];
      assert m3[rec..rec + 4] == m2[rec..rec + 4] && m3[rec + 4..rec + 8] == m2[rec + 4..rec + 8];
    }
  }

  /** fCount += 1 and fLength += grow. */
  method BumpHeader(mem: array<UInt8>, grow: nat, be: bool)
    requires mem.Length >= HEADER
    requires LoadAt(mem[..], 0, be) + grow < TWO32 && LoadAt(mem[..], 8, be) + 1 < TWO32
    modifies mem
    ensures mem[0..4] == Stored(LoadAt(old(mem[..]), 0, be) + grow, be)
    ensures mem[8..12] == Stored(LoadAt(old(mem[..]), 8, be) + 1, be)
    ensures forall j :: 4 <= j < 8 || 12 <= j < mem.Length ==> mem[j] == old(mem[j])
  {
    hide Stored, Loaded;
    var count, length := LoadAt(mem[..], 8, be), LoadAt(mem[..], 0, be);
    StoreWord(mem, 0, 8, count + 1, be);
    StoreWord(mem, 0, 0, length + grow, be);
  }

  lemma SameSlice<T>(m: seq<T>, m': seq<T>, i: nat, j: nat)
    requires |m| == |m'| && i <= j <= |m| && forall k :: i <= k < j ==> m'[k] == m[k]
    ensures m'[i..j] == m[i..j]
  {
  }

  lemma AddedKept(m1: seq<UInt8>, m2: seq<UInt8>, at: nat, tag: UInt32, length: UInt32, be: bool)
    requires Added(m1, at, tag, length, be) && |m2| == |m1|
    requires forall j :: at <= j < |m2| ==> m2[j] == m1[j]
    ensures Added(m2, at, tag, length, be) && at + REC + Aligned(length) <= |m2|
  {
    hide Stored;
    SameSlice(m1, m2, at, at + 4);
    SameSlice(m1, m2, at + 4, at + 8);
  }

  /** The record written at fLength becomes part of the list. */
  lemma {:induction false} ListGrows(m0: seq<UInt8>, m1: seq<UInt8>, m2: seq<UInt8>, rs: seq<Rec>, check: UInt32,
          tag: UInt32, length: UInt32, be: bool)
    requires Holds(m0, rs, check, be) && |m0| == |m1| == |m2| < TWO32
    requires var n := HEADER + |RecsBytes(rs, be)|;
      && Added(m1, n, tag, length, be)
      && (forall j :: 0 <= j < n ==> m1[j] == m0[j])
      && m2[0..4] == Stored(n + REC + Aligned(length), be)
      && m2[8..12] == Stored(|rs| + 1, be)
      && (forall j :: 4 <= j < 8 || 12 <= j < |m2| ==> m2[j] == m1[j])
    ensures Holds(m2, rs + [Rec(tag, RecData(m2, rs, length, be))], check, be)
  {
    hide Stored, RecsBytes, Aligned, Holds, RecBytes, Fits, Loaded, Added;
    HeaderOf(m0, rs, check, be);
    var n := HEADER + |RecsBytes(rs, be)|;
    AddedKept(m1, m2, n, tag, length, be);
    AddedIsRecord(m2, n, tag, length, be);
    SameSlice(m0, m2, 4, 8);
    SameSlice(m0, m2, 12, n);
    ExtendedHolds(m0, m2, rs, check, Rec(tag, RecData(m2, rs, length, be)), be);
  }

  /** The data bytes of a record that follows the list rs. */
  ghost function RecData(m: seq<UInt8>, rs: seq<Rec>, length: nat, be: bool): seq<UInt8>
    requires Small(rs) && HEADER + |RecsBytes(rs, be)| + REC + length <= |m|
  {
    var n := HEADER + |RecsBytes(rs, be)|;
    m[n + REC..n + REC + length]
  }

  /** hsDescriptor_Add: appends a record header and returns the address of its
      data. The memory already holds the list with the new record, its data
      being the bytes that happen to lie there. */
  method Add(mem: array<UInt8>, tag: UInt32, length: UInt32, be: bool, ghost rs: seq<Rec>, ghost check: UInt32)
    returns (loc: nat)
    requires Holds(mem[..], rs, check, be)
    requires HEADER + |RecsBytes(rs, be)| + REC + Aligned(length) <= mem.Length < TWO32
    modifies mem
    ensures loc == HEADER + |RecsBytes(rs, be)| + REC && loc + length <= mem.Length
    ensures Holds(mem[..], rs + [Rec(tag, mem[loc..loc + length])], check, be)
    ensures forall j :: loc + Aligned(length) <= j < mem.Length ==> mem[j] == old(mem[j])
  {
    hide Stored, Loaded, RecsBytes, Holds, RecBytes, LongAlign, Added, LoadAt, Aligned;
    ghost var m0 := mem[..];
    HeaderOf(m0, rs, check, be);
    RecsAligned(rs, be);
    AlignByMask(length);
    var rec := LoadAt(mem[..], 0, be);
    StoreRec(mem, rec, tag, length, be);
    ghost var m1 := mem[..];
    SameHeader(m0, m1, be);
    BumpHeader(mem, REC + LongAlign(length), be);
    ListGrows(m0, m1, mem[..], rs, check, tag, length, be);
    loc := rec + REC;
  }

  lemma SameHeader(m0: seq<UInt8>, m1: seq<UInt8>, be: bool)
    requires |m0| == |m1| >= HEADER && forall j :: 0 <= j < HEADER ==> m1[j] == m0[j]
    ensures LoadAt(m1, 0, be) == LoadAt(m0, 0, be) && LoadAt(m1, 8, be) == LoadAt(m0, 8, be)
  {
    assert m1[0..4] == m0[0..4] && m1[8..12] == m0[8..12];
  }

  /** hsDescriptor_Add32, and hsDescriptor_AddScalar for a fixed-point scalar. */
  method Add32(mem: array<UInt8>, tag: UInt32, value: UInt32, be: bool, ghost rs: seq<Rec>, ghost check: UInt32)
    requires Holds(mem[..], rs, check, be)
    requires HEADER + |RecsBytes(rs, be)| + REC + 4 <= mem.Length < TWO32
    modifies mem
    ensures Holds(mem[..], rs + [Rec(tag, Stored(value, be))], check, be)
    ensures forall j :: HEADER + |RecsBytes(rs, be)| + REC + 4 <= j < mem.Length ==> mem[j] == old(mem[j])
  {
    hide Stored, Loaded, RecsBytes, Holds, RecBytes, Added, LoadAt;
    ghost var m0 := mem[..];
    HeaderOf(m0, rs, check, be);
    RecsAligned(rs, be);
    var rec := LoadAt(mem[..], 0, be);
    StoreRec(mem, rec, tag, 4, be);
    ghost var m := mem[..];
    StoreWord(mem, 0, rec + REC, value, be);
    ghost var m1 := mem[..];
    AddedWord(m, m1, rec, tag, value, be);
    SameHeader(m0, m1, be);
    BumpHeader(mem, REC + 4, be);
    ListGrows(m0, m1, mem[..], rs, check, tag, 4, be);
    assert RecData(mem[..], rs, 4, be) == m1[rec + REC..rec + REC + 4];
  }

  lemma AddedWord(m: seq<UInt8>, m1: seq<UInt8>, rec: nat, tag: UInt32, value: UInt32, be: bool)
    requires Added(m, rec, tag, 4, be) && Written(m, m1, rec + REC, Stored(value, be))
    ensures Added(m1, rec, tag, 4, be) && m1[rec + REC..rec + REC + 4] == Stored(value, be)
    ensures forall j :: 0 <= j < rec || rec + REC + 4 <= j < |m| ==> m1[j] == m[j]
  {
    hide Stored;
    assert m1[rec..rec + 4] == m[rec..rec + 4] && m1[rec + 4..rec + 8] == m[rec + 4..rec + 8];
  }

  // ----- filling in data -----

  /** The caller writes a record's data through the address Add returned, at any
      later time: the list then has that data in that record. */
  method FillData(mem: array<UInt8>, loc: nat, d: seq<UInt8>, be: bool, ghost before: seq<Rec>, ghost r: Rec,
          ghost after: seq<Rec>, ghost check: UInt32)
    requires Holds(mem[..], before + [r] + after, check, be) && |d| == |r.data|
    requires Small(before) && loc == HEADER + |RecsBytes(before, be)| + REC && loc + |d| <= mem.Length
    modifies mem
    ensures Holds(mem[..], before + [Rec(r.tag, d)] + after, check, be)
  {
    hide Holds, Small, RecsBytes;
    ghost var m := mem[..];
    for i := 0 to |d|
      invariant forall j :: 0 <= j < mem.Length ==> mem[j] == if loc <= j < loc + i then d[j - loc] else m[j]
    {
      mem[loc + i] := d[i];
    }
    DataFilled(m, mem[..], before, r, after, d, check, be);
  }

  lemma {:induction false} DataFilled(m: seq<UInt8>, m': seq<UInt8>, before: seq<Rec>, r: Rec, after: seq<Rec>,
          d: seq<UInt8>, check: UInt32, be: bool)
    requires Holds(m, before + [r] + after, check, be) && |d| == |r.data| && Small(before)
    requires Written(m, m', HEADER + |RecsBytes(before, be)| + REC, d)
    ensures Holds(m', before + [Rec(r.tag, d)] + after, check, be)
  {
    hide Stored, RecsBytes, RecBytes, Written, HeaderBytes, Small;
    var r' := Rec(r.tag, d);
    PartsSmall(before, r, after, be);
    MiddleRecord(before, r, after, be);
    MiddleRecord(before, r', after, be);
    RecordParts(r, d, be);
    var rs, rs' := before + [r] + after, before + [r'] + after;
    var h := HeaderBytes(HEADER + |RecsBytes(rs, be)|, check, |rs|, be);
    var a, p, z, c := RecsBytes(before, be), RecBytes(r, be)[..REC], RecBytes(r, be)[REC + |d|..], RecsBytes(after, be);
    Regroup(h, a, p, r.data, z, c);
    Regroup(h, a, p, d, z, c);
    ReplacedPart(m, m', h + a + p, r.data, d, z + c);
  }

  lemma Regroup(h: seq<UInt8>, a: seq<UInt8>, p: seq<UInt8>, x: seq<UInt8>, z: seq<UInt8>, c: seq<UInt8>)
    ensures h + (a + (p + x + z) + c) == h + a + p + x + (z + c)
  {
  }

  lemma PartsSmall(before: seq<Rec>, r: Rec, after: seq<Rec>, be: bool)
    requires Small(before + [r] + after)
    ensures Small(before) && Small(after) && |r.data| < TWO32
  {
    var rs := before + [r] + after;
    assert rs[|before|] == r;
    forall i | 0 <= i < |before|
      ensures |before[i].data| < TWO32
    {
      assert rs[i] == before[i];
    }
    forall i | 0 <= i < |after|
      ensures |after[i].data| < TWO32
    {
      assert rs[|before| + 1 + i] == after[i];
    }
  }

  lemma RecordParts(r: Rec, d: seq<UInt8>, be: bool)
    requires |d| == |r.data| < TWO32
    ensures RecBytes(r, be) == RecBytes(r, be)[..REC] + r.data + RecBytes(r, be)[REC + |d|..]
    ensures RecBytes(Rec(r.tag, d), be) == RecBytes(r, be)[..REC] + d + RecBytes(r, be)[REC + |d|..]
  {
    hide Stored, Aligned;
  }

  lemma ReplacedPart(m: seq<UInt8>, m': seq<UInt8>, u: seq<UInt8>, x: seq<UInt8>, d: seq<UInt8>, v: seq<UInt8>)
    requires u + x + v <= m && |x| == |d| && Written(m, m', |u|, d)
    ensures u + d + v <= m'
  {
    forall j | 0 <= j < |u + d + v|
      ensures (u + d + v)[j] == m'[j]
    {
      assert m[j] == (u + x + v)[j];
    }
  }

  lemma {:induction false} RecsConcat(a: seq<Rec>, b: seq<Rec>, be: bool)
    requires Small(a) && Small(b)
    ensures Small(a + b) && RecsBytes(a + b, be) == RecsBytes(a, be) + RecsBytes(b, be)
    decreases |a|
  {
    hide RecBytes;
    if a == [] {
      assert a + b == b;
    } else {
      RecsConcat(a[1..], b, be);
      assert (a + b)[1..] == a[1..] + b && (a + b)[0] == a[0];
      var x, y, z := RecBytes(a[0], be), RecsBytes(a[1..], be), RecsBytes(b, be);
      assert x + (y + z) == (x + y) + z;
    }
  }

  lemma {:induction false} MiddleRecord(before: seq<Rec>, r: Rec, after: seq<Rec>, be: bool)
    requires Small(before) && Small(after) && |r.data| < TWO32
    ensures Small(before + [r] + after)
    ensures RecsBytes(before + [r] + after, be) == RecsBytes(before, be) + RecBytes(r, be) + RecsBytes(after, be)
  {
    RecsConcat(before, [r], be);
    RecsConcat(before + [r], after, be);
    SingleRecord(r, be);
  }

  lemma {:induction false} SingleRecord(r: Rec, be: bool)
    requires |r.data| < TWO32
    ensures RecsBytes([r], be) == RecBytes(r, be)
  {
    hide RecBytes;
    assert [r][1..] == [];
  }

  // ----- comparing -----

  /** The first k words of two memories agree. */
  ghost predicate SameWords(a: seq<UInt8>, b: seq<UInt8>, k: nat, be: bool)
    requires 4 * k <= |a| && 4 * k <= |b|
  {
    forall i :: 0 <= i < k ==> LoadAt(a, 4 * i, be) == LoadAt(b, 4 * i, be)
  }

  /** Equal words are equal bytes. */
  lemma {:induction false} SameWordsSameBytes(a: seq<UInt8>, b: seq<UInt8>, k: nat, be: bool)
    requires 4 * k <= |a| && 4 * k <= |b| && SameWords(a, b, k, be)
    ensures a[..4 * k] == b[..4 * k]
    decreases k
  {
    hide Loaded, Stored;
    if k > 0 {
      var i := k - 1;
      SameWordsSameBytes(a, b, i, be);
      assert LoadAt(a, 4 * i, be) == LoadAt(b, 4 * i, be);
      StoreLoaded(a[4 * i..4 * i + 4], be);
      StoreLoaded(b[4 * i..4 * i + 4], be);
      assert a[..4 * k] == a[..4 * i] + a[4 * i..4 * i + 4];
      assert b[..4 * k] == b[..4 * i] + b[4 * i..4 * i + 4];
    }
  }

  /** Descriptors of n bytes whose words all agree were built from the same records. */
  lemma SameRecords(a: seq<UInt8>, b: seq<UInt8>, ra: seq<Rec>, rb: seq<Rec>, ca: UInt32, cb: UInt32, n: nat,
          be: bool)
    requires HEADER <= n <= |a| && n <= |b| && n == LoadAt(a, 0, be) == LoadAt(b, 0, be)
    requires SameWords(a, b, n / 4, be)
    requires Holds(a, ra, ca, be) && Holds(b, rb, cb, be)
    ensures ra == rb && ca == cb
  {
    hide LoadAt, SameWords, RecsBytes, HeaderBytes;
    HeaderOf(a, ra, ca, be);
    HeaderOf(b, rb, cb, be);
    RecsAligned(ra, be);
    SameWordsSameBytes(a, b, n / 4, be);
    assert Image(ra, ca, be) == a[..n] && Image(rb, cb, be) == b[..n];
    hide *;
    ImageInjective(ra, rb, ca, cb, be);
  }

  /** A word that differs inside the shorter of two descriptors. */
  lemma DifferentRecords(a: seq<UInt8>, b: seq<UInt8>, ra: seq<Rec>, rb: seq<Rec>, ca: UInt32, cb: UInt32, n: nat,
          at: nat, be: bool)
    requires at + 4 <= n <= |a| && at + 4 <= |b| && n == LoadAt(a, 0, be)
    requires LoadAt(a, at, be) != LoadAt(b, at, be)
    requires Holds(a, ra, ca, be) && Holds(b, rb, cb, be)
    ensures ra != rb || ca != cb
  {
    hide Image, RecsBytes, LoadAt;
    HeaderOf(a, ra, ca, be);
    if ra == rb && ca == cb {
      SamePrefix(a, b, Image(ra, ca, be), at, be);
    }
  }

  lemma SamePrefix(a: seq<UInt8>, b: seq<UInt8>, p: seq<UInt8>, at: nat, be: bool)
    requires p <= a && p <= b && at + 4 <= |p|
    ensures LoadAt(a, at, be) == LoadAt(b, at, be)
  {
    hide Loaded;
    assert a[at..at + 4] == p[at..at + 4] && b[at..at + 4] == p[at..at + 4];
  }

  /** hsDescriptor_Equal. Main theorem: the word compare succeeds exactly when
      the two descriptors were built from the same records and have the same
      checksum, whatever their memory held before; no word past the end of
      either is read, because the first word is the length. */
  method Equal(ma: array<UInt8>, mb: array<UInt8>, be: bool, ghost ra: seq<Rec>, ghost rb: seq<Rec>, ghost ca: UInt32,
          ghost cb: UInt32)
    returns (same: bool)
    requires Holds(ma[..], ra, ca, be) && Holds(mb[..], rb, cb, be)
    ensures same <==> ra == rb && ca == cb
  {
    hide LoadAt, RecsBytes, Holds;
    HeaderOf(ma[..], ra, ca, be);
    HeaderOf(mb[..], rb, cb, be);
    RecsAligned(ra, be);
    var longCount := LoadAt(ma[..], 0, be) / 4;
    ghost var n := longCount;
    var i := 0;
    while true
      invariant i + longCount == n && longCount > 0
      invariant i > 0 ==> LoadAt(ma[..], 0, be) == LoadAt(mb[..], 0, be)
      invariant 4 * i <= mb.Length && SameWords(ma[..], mb[..], i, be)
      decreases longCount
    {
      if LoadAt(ma[..], 4 * i, be) != LoadAt(mb[..], 4 * i, be) {
        DifferentRecords(ma[..], mb[..], ra, rb, ca, cb, 4 * n, 4 * i, be);
        return false;
      }
      i := i + 1;
      longCount := longCount - 1;
      if longCount == 0 {
        break;
      }
    }
    SameRecords(ma[..], mb[..], ra, rb, ca, cb, 4 * n, be);
    return true;
  }

  /** hsDescriptor_AdditionalSize */
  function AdditionalSize(size: nat): nat {
    REC + LongAlign(size)
  }

  /** It is what a record of that size adds to a descriptor. */
  lemma {:induction false} AdditionalSizeIsExact(rs: seq<Rec>, r: Rec, be: bool)
    requires Small(rs) && |r.data| + 3 < TWO32
    ensures Small(rs + [r])
    ensures |RecsBytes(rs + [r], be)| == |RecsBytes(rs, be)| + AdditionalSize(|r.data|)
  {
    hide LongAlign;
    AlignByMask(|r.data|);
    RecsConcat(rs, [r], be);
    SingleRecord(r, be);
  }

  // ----- a whole run -----

  lemma {:induction false} PrefixFits(rs: seq<Rec>, i: nat, be: bool)
    requires i < |rs| && Small(rs)
    ensures Small(rs[..i]) && Small(rs[..i + 1]) && |rs[i].data| < TWO32
    ensures |RecsBytes(rs[..i], be)| + REC + Aligned(|rs[i].data|) <= |RecsBytes(rs, be)|
  {
    hide RecsBytes, RecBytes, Aligned;
    assert rs == rs[..i] + [rs[i]] + rs[i + 1..];
    MiddleRecord(rs[..i], rs[i], rs[i + 1..], be);
  }

  /** Main theorem over runs: reset, then any sequence of Add calls, each record's
      data written after its Add. Walking the result finds exactly that sequence. */
  method Build(mem: array<UInt8>, rs: seq<Rec>, be: bool)
    requires Fits(rs, be) && HEADER + |RecsBytes(rs, be)| <= mem.Length < TWO32
    modifies mem
    ensures Holds(mem[..], rs, LoadAt(old(mem[..]), 4, be), be)
    ensures Walk(mem[..], HEADER, LoadAt(mem[..], 8, be), be) == (rs, LoadAt(mem[..], 0, be))
  {
    hide RecsBytes, Holds, LoadAt, Walk, Aligned, Small;
    ghost var check := LoadAt(mem[..], 4, be);
    Reset(mem, be);
    assert rs[..0] == [];
    for i := 0 to |rs|
      invariant Holds(mem[..], rs[..i], check, be)
    {
      assert Small(rs);
      PrefixFits(rs, i, be);
      var loc := Add(mem, rs[i].tag, |rs[i].data|, be, rs[..i], check);
      ghost var r := Rec(rs[i].tag, mem[loc..loc + |rs[i].data|]);
      assert rs[..i] + [r] + [] == rs[..i] + [r];
      FillData(mem, loc, rs[i].data, be, rs[..i], r, [], check);
      assert rs[..i] + [Rec(r.tag, rs[i].data)] + [] == rs[..i + 1];
    }
    assert rs[..|rs|] == rs;
    WalkUndoesBuilding(mem[..], rs, check, be);
  }
}
