/** Coding of one 8 by 8 block of coefficients: what encode_one_block of jchuff.c
    emits and what the block loop of decode_mcu in jdhuff.c reads, as functions
    on bit streams, and the proof that reading undoes emitting. A block is its 64
    coefficients in natural order. */
module HuffBlock {
  import opened Bits
  import opened BitStream
  import opened HuffTable
  import opened HuffDerived

  const DCTSIZE2 := 64

  // ----- zigzag order -----

  /** jpeg_natural_order: the natural position of each zigzag position, and 63 for
      the positions that a run can reach past the end. */
  function NaturalTable(k: nat): int {
    match k
    case 0 => 0 case 1 => 1 case 2 => 8 case 3 => 16 case 4 => 9 case 5 => 2 case 6 => 3 case 7 => 10
    case 8 => 17 case 9 => 24 case 10 => 32 case 11 => 25 case 12 => 18 case 13 => 11 case 14 => 4 case 15 => 5
    case 16 => 12 case 17 => 19 case 18 => 26 case 19 => 33 case 20 => 40 case 21 => 48 case 22 => 41 case 23 => 34
    case 24 => 27 case 25 => 20 case 26 => 13 case 27 => 6 case 28 => 7 case 29 => 14 case 30 => 21 case 31 => 28
    case 32 => 35 case 33 => 42 case 34 => 49 case 35 => 56 case 36 => 57 case 37 => 50 case 38 => 43 case 39 => 36
    case 40 => 29 case 41 => 22 case 42 => 15 case 43 => 23 case 44 => 30 case 45 => 37 case 46 => 44 case 47 => 51
    case 48 => 58 case 49 => 59 case 50 => 52 case 51 => 45 case 52 => 38 case 53 => 31 case 54 => 39 case 55 => 46
    case 56 => 53 case 57 => 60 case 58 => 61 case 59 => 54 case 60 => 47 case 61 => 55 case 62 => 62 case 63 => 63
    case _ => 63
  }

  /** jpeg_zigzag_order: the way back. */
  function ZigzagTable(i: nat): int {
    match i
    case 0 => 0 case 1 => 1 case 2 => 5 case 3 => 6 case 4 => 14 case 5 => 15 case 6 => 27 case 7 => 28
    case 8 => 2 case 9 => 4 case 10 => 7 case 11 => 13 case 12 => 16 case 13 => 26 case 14 => 29 case 15 => 42
    case 16 => 3 case 17 => 8 case 18 => 12 case 19 => 17 case 20 => 25 case 21 => 30 case 22 => 41 case 23 => 43
    case 24 => 9 case 25 => 11 case 26 => 18 case 27 => 24 case 28 => 31 case 29 => 40 case 30 => 44 case 31 => 53
    case 32 => 10 case 33 => 19 case 34 => 23 case 35 => 32 case 36 => 39 case 37 => 45 case 38 => 52 case 39 => 54
    case 40 => 20 case 41 => 22 case 42 => 33 case 43 => 38 case 44 => 46 case 45 => 51 case 46 => 55 case 47 => 60
    case 48 => 21 case 49 => 34 case 50 => 37 case 51 => 47 case 52 => 50 case 53 => 56 case 54 => 59 case 55 => 61
    case 56 => 35 case 57 => 36 case 58 => 48 case 59 => 49 case 60 => 57 case 61 => 58 case 62 => 62 case 63 => 63
    case _ => 63
  }

  /** The natural position after (row, col) on the zigzag walk of figure 5 of T.81:
      along the diagonals, up on the even ones and down on the odd ones. */
  function ZigzagNext(row: int, col: int): int {
    if (row + col) % 2 == 0 then
      if col == 7 then 8 * (row + 1) + 7 else if row == 0 then col + 1 else 8 * (row - 1) + col + 1
    else
      if row == 7 then 57 + col else if col == 0 then 8 * (row + 1) else 8 * (row + 1) + col - 1
  }

  /** The natural-order table is that walk. */
  lemma TableIsZigzag(k: nat, row: int, col: int)
    requires k < DCTSIZE2 - 1 && 0 <= row < 8 && 0 <= col < 8 && NaturalTable(k) == 8 * row + col
    ensures NaturalTable(0) == 0 && NaturalTable(k + 1) == ZigzagNext(row, col)
  {
    if k < 32 {
      WalkUpper(k, row, col);
    } else {
      WalkLower(k, row, col);
    }
  }

  lemma WalkUpper(k: nat, row: int, col: int)
    requires k < 32 && 0 <= row < 8 && 0 <= col < 8 && NaturalTable(k) == 8 * row + col
    ensures NaturalTable(k + 1) == ZigzagNext(row, col)
  {
  }

  lemma WalkLower(k: nat, row: int, col: int)
    requires 32 <= k < DCTSIZE2 - 1 && 0 <= row < 8 && 0 <= col < 8 && NaturalTable(k) == 8 * row + col
    ensures NaturalTable(k + 1) == ZigzagNext(row, col)
  {
  }

  lemma TablesInRange(k: nat)
    ensures 0 <= NaturalTable(k) < DCTSIZE2 && 0 <= ZigzagTable(k) < DCTSIZE2
  {
  }

  lemma ZigzagOfNatural(k: nat)
    requires k < DCTSIZE2
    ensures 0 <= NaturalTable(k) < DCTSIZE2 && ZigzagTable(NaturalTable(k)) == k
  {
  }

  lemma NaturalOfZigzag(i: nat)
    requires i < DCTSIZE2
    ensures 0 <= ZigzagTable(i) < DCTSIZE2 && NaturalTable(ZigzagTable(i)) == i
  {
  }

  /** The natural position of zigzag position k. */
  function NaturalOrder(k: nat): (i: nat)
    ensures i < DCTSIZE2
  {
    TablesInRange(k);
    NaturalTable(k)
  }

  lemma NaturalInjective(i: nat, j: nat)
    requires i < DCTSIZE2 && j < DCTSIZE2 && NaturalOrder(i) == NaturalOrder(j)
    ensures i == j
  {
    hide NaturalTable, ZigzagTable;
    ZigzagOfNatural(i);
    ZigzagOfNatural(j);
  }

  // ----- magnitudes -----

  /** The number of bits of m. */
  function BitLength(m: nat): nat {
    if m == 0 then 0 else 1 + BitLength(m / 2)
  }

  function NBits(v: int): nat {
    BitLength(if v < 0 then 0 - v else v)
  }

  /** The bits that follow the size category: the low bits of v, or of v - 1. */
  function ValueBits(v: int): (s: seq<bool>) {
    ToBits((if v < 0 then v - 1 else v) % Pow2(NBits(v)), NBits(v))
  }

  /** Figure F.12 of T.81. */
  function Extend(x: int, n: nat): int
    requires n >= 1
  {
    if x < Pow2(n - 1) then x + 1 - Pow2(n) else x
  }

  lemma {:induction false} BitLengthBounds(m: nat)
    ensures m < Pow2(BitLength(m))
    ensures m > 0 ==> BitLength(m) >= 1 && Pow2(BitLength(m) - 1) <= m
  {
    if m > 0 {
      BitLengthBounds(m / 2);
    }
  }

  lemma {:induction false} BitLengthAtMost(m: nat, n: nat)
    requires m < Pow2(n)
    ensures BitLength(m) <= n
  {
    if m > 0 && n > 0 {
      BitLengthAtMost(m / 2, n - 1);
    }
  }

  /** Sixteen bits are needed only by values that Huffman tables cannot name. */
  lemma SizeOf(v: int)
    requires -0x1_0000 < v < 0x1_0000
    ensures NBits(v) <= 16 && (NBits(v) == 0 <==> v == 0)
    ensures NBits(v) <= 15 <==> -0x8000 < v < 0x8000
  {
    assert BitLength(0) == 0 && Pow2(0) == 1 && Pow2(15) == 0x8000 by { PowValues(); PowAdd(7, 8); }
    hide BitLength, Pow2;
    var m := if v < 0 then 0 - v else v;
    PowValues();
    BitLengthBounds(m);
    BitLengthAtMost(m, 16);
    if m < 0x8000 {
      BitLengthAtMost(m, 15);
    } else if BitLength(m) <= 15 {
      PowMonotone(BitLength(m), 15);
    }
  }

  /** Extending the sign undoes what the encoder did to a value. */
  lemma ExtendUndoes(v: int)
    requires v != 0
    ensures NBits(v) >= 1
    ensures 0 <= (if v < 0 then v - 1 else v) % Pow2(NBits(v)) < Pow2(NBits(v))
    ensures Extend((if v < 0 then v - 1 else v) % Pow2(NBits(v)), NBits(v)) == v
  {
    hide BitLength;
    var m := if v < 0 then 0 - v else v;
    BitLengthBounds(m);
    var p := Pow2(NBits(v));
    if v < 0 {
      DivUnique(v - 1, p, -1, v - 1 + p);
    } else {
      DivUnique(v, p, 0, v);
    }
  }

  lemma {:induction false} ValueReads(s: seq<bool>, pos: nat, v: int)
    requires v != 0 && HasAt(s, pos, ValueBits(v))
    ensures NBits(v) >= 1 && Extend(Val(s, pos, NBits(v)), NBits(v)) == v
  {
    hide Val, Pow2, ToBits, NBits, HasAt;
    ExtendUndoes(v);
    ValOfToBits(s, pos, (if v < 0 then v - 1 else v) % Pow2(NBits(v)), NBits(v));
  }

  // ----- code words -----

  /** c codes with the words of the prefix code t. */
  ghost predicate Coder(c: CTable, t: Table) {
    HuffTable.Valid(t) && PrefixCode(t) && EncodesFor(c, t)
  }

  predicate HasCode(c: CTable, v: nat) {
    v < |c.ehufsi| <= |c.ehufco| && c.ehufsi[v] > 0 && c.ehufco[v] >= 0
  }

  function CodeBits(c: CTable, v: nat): seq<bool> {
    if HasCode(c, v) then ToBits(c.ehufco[v], c.ehufsi[v]) else []
  }

  lemma CodeFits(c: CTable, t: Table, v: nat)
    requires Coder(c, t) && HasCode(c, v) && HuffTable.Valid(t)
    ensures v < 256 && 1 <= c.ehufsi[v] <= 16 && 0 <= c.ehufco[v] < Pow2(c.ehufsi[v])
    ensures IsCode(t, c.ehufsi[v], c.ehufco[v])
    ensures Symbol(t, c.ehufsi[v], c.ehufco[v]) == v
  {
    assert EntryEncodes(c, t, v);
    assert LengthFits(t, c.ehufsi[v]);
    hide FirstCode, Start, Pow2;
  }

  lemma CodeDecodes(c: CTable, t: Table, s: seq<bool>, pos: nat, v: nat)
    requires Coder(c, t) && HasCode(c, v) && HasAt(s, pos, CodeBits(c, v))
    ensures v < 256 && HuffTable.Valid(t) && Decode(t, s, pos) == Decoded(v, |CodeBits(c, v)|)
  {
    assert HuffTable.Valid(t);
    hide FirstCode, Start, Pow2, Val, ToBits, IsCode, Symbol, Decode, HasAt;
    CodeFits(c, t, v);
    ValOfToBits(s, pos, c.ehufco[v], c.ehufsi[v]);
    DecodeFinds(t, s, pos, c.ehufsi[v]);
  }

  // ----- the DC difference -----

  function DcBits(c: CTable, diff: int): seq<bool> {
    CodeBits(c, NBits(diff)) + ValueBits(diff)
  }

  /** A number read, and where reading goes on. */
  datatype Value = Value(v: int, pos: nat)

  function DcDecode(t: Table, s: seq<bool>, pos: nat): Value
    requires HuffTable.Valid(t)
  {
    var d := Decode(t, s, pos);
    var p, n: nat := pos + d.length, d.symbol;
    if n == 0 then Value(0, p) else Value(Extend(Val(s, p, n), n), p + n)
  }

  lemma DcRoundTrip(c: CTable, t: Table, s: seq<bool>, pos: nat, diff: int)
    requires Coder(c, t) && HasCode(c, NBits(diff)) && HasAt(s, pos, DcBits(c, diff))
    ensures HuffTable.Valid(t) && DcDecode(t, s, pos) == Value(diff, pos + |DcBits(c, diff)|)
  {
    hide HasCode, Coder, HasAt, Decode, Val, CodeBits, ValueBits, Extend, NBits, HuffTable.Valid;
    var n, l := NBits(diff), |CodeBits(c, NBits(diff))|;
    HasAtParts(s, pos, CodeBits(c, n), ValueBits(diff));
    CodeDecodes(c, t, s, pos, n);
    NoBitsForZero(diff);
    if diff != 0 {
      ValueReads(s, pos + l, diff);
    }
  }

  lemma NoBitsForZero(v: int)
    ensures NBits(v) == 0 <==> v == 0
    ensures |ValueBits(v)| == NBits(v)
  {
  }

  // ----- the AC coefficients -----

  type Block = b: seq<int> | |b| == DCTSIZE2 witness seq(DCTSIZE2, _ => 0)

  /** Every entry is a JCOEF. */
  ghost predicate Coefs(b: Block) {
    forall i :: 0 <= i < DCTSIZE2 ==> -0x8000 <= b[i] < 0x8000
  }

  /** m runs of sixteen zeros. */
  function ZrlBits(c: CTable, m: nat): seq<bool> {
    if m == 0 then [] else CodeBits(c, 0xf0) + ZrlBits(c, m - 1)
  }

  /** A value behind r zeros, r below 16. */
  function CoefBits(c: CTable, r: nat, v: int): seq<bool> {
    CodeBits(c, 16 * r + NBits(v)) + ValueBits(v)
  }

  /** The code of the coefficients from zigzag position k on, with r zeros pending. */
  function AcBits(c: CTable, b: Block, k: nat, r: nat): seq<bool>
    decreases DCTSIZE2 - k
  {
    if k >= DCTSIZE2 then
      if r > 0 then CodeBits(c, 0) else []
    else
      var v := b[NaturalOrder(k)];
      if v == 0 then AcBits(c, b, k + 1, r + 1)
      else ZrlBits(c, r / 16) + (CoefBits(c, r % 16, v) + AcBits(c, b, k + 1, 0))
  }

  /** All the symbols needed have code words. */
  predicate AcCoded(c: CTable, b: Block, k: nat, r: nat)
    decreases DCTSIZE2 - k
  {
    if k >= DCTSIZE2 then r > 0 ==> HasCode(c, 0)
    else
      var v := b[NaturalOrder(k)];
      if v == 0 then AcCoded(c, b, k + 1, r + 1)
      else (r >= 16 ==> HasCode(c, 0xf0)) && HasCode(c, 16 * (r % 16) + NBits(v)) && AcCoded(c, b, k + 1, 0)
  }

  datatype AcResult = AcResult(block: Block, pos: nat)

  /** Reading coefficients into b from zigzag position k on. */
  function AcDecode(t: Table, s: seq<bool>, pos: nat, k: nat, b: Block): AcResult
    requires HuffTable.Valid(t)
    decreases DCTSIZE2 - k
  {
    if k >= DCTSIZE2 then AcResult(b, pos)
    else
      var d := Decode(t, s, pos);
      var p, r: nat, n: nat := pos + d.length, d.symbol / 16, d.symbol % 16;
      if n != 0 then AcDecode(t, s, p + n, k + r + 1, b[NaturalOrder(k + r) := Extend(Val(s, p, n), n)])
      else if r != 15 then AcResult(b, p)
      else AcDecode(t, s, p, k + 16, b)
  }

  /** a has the coefficients of b below zigzag position k, and zeros from there on. */
  ghost predicate Partial(a: Block, b: Block, k: nat) {
    && (forall i :: 0 <= i < DCTSIZE2 && i < k ==> a[NaturalOrder(i)] == b[NaturalOrder(i)])
    && (forall i :: k <= i < DCTSIZE2 ==> a[NaturalOrder(i)] == 0)
  }

  lemma PartialAll(a: Block, b: Block)
    requires Partial(a, b, DCTSIZE2)
    ensures a == b
  {
    hide NaturalTable, ZigzagTable;
    forall i | 0 <= i < DCTSIZE2
      ensures a[i] == b[i]
    {
      NaturalOfZigzag(i);
      var k: nat := ZigzagTable(i);
      assert NaturalOrder(k) == i;
    }
  }

  lemma PartialZero(a: Block, b: Block, k: nat)
    requires k < DCTSIZE2 && Partial(a, b, k) && b[NaturalOrder(k)] == 0
    ensures Partial(a, b, k + 1)
  {
    hide NaturalOrder;
  }

  lemma PartialNext(a: Block, b: Block, k: nat)
    requires k < DCTSIZE2 && Partial(a, b, k)
    ensures Partial(a[NaturalOrder(k) := b[NaturalOrder(k)]], b, k + 1)
  {
    hide NaturalTable, ZigzagTable;
    forall i | 0 <= i < DCTSIZE2 && NaturalOrder(i) == NaturalOrder(k)
      ensures i == k
    {
      NaturalInjective(i, k);
    }
    hide NaturalOrder;
  }

  /** Sixteen zeros at a time are skipped. */
  lemma {:induction false} ZrlSkip(c: CTable, t: Table, s: seq<bool>, pos: nat, k: nat, m: nat, a: Block)
    requires Coder(c, t) && (m > 0 ==> HasCode(c, 0xf0)) && HasAt(s, pos, ZrlBits(c, m))
    requires k + 16 * m <= DCTSIZE2
    ensures HuffTable.Valid(t)
    ensures AcDecode(t, s, pos, k, a) == AcDecode(t, s, pos + |ZrlBits(c, m)|, k + 16 * m, a)
    decreases m
  {
    hide HasCode, HasAt, Decode, Val, CodeBits, Extend, NaturalOrder, EncodesFor, HuffTable.Valid, PrefixCode;
    if m > 0 {
      HasAtParts(s, pos, CodeBits(c, 0xf0), ZrlBits(c, m - 1));
      CodeDecodes(c, t, s, pos, 0xf0);
      ZrlSkip(c, t, s, pos + |CodeBits(c, 0xf0)|, k + 16, m - 1, a);
    }
  }

  /** A coefficient of at most 15 bits behind r < 16 zeros. */
  lemma CoefStep(c: CTable, t: Table, s: seq<bool>, pos: nat, k: nat, r: nat, v: int, a: Block)
    requires Coder(c, t) && r < 16 && k + r < DCTSIZE2 && v != 0 && -0x8000 < v < 0x8000
    requires HasCode(c, 16 * r + NBits(v)) && HasAt(s, pos, CoefBits(c, r, v))
    ensures HuffTable.Valid(t)
    ensures AcDecode(t, s, pos, k, a)
         == AcDecode(t, s, pos + |CoefBits(c, r, v)|, k + r + 1, a[NaturalOrder(k + r) := v])
  {
    hide HasCode, HasAt, Decode, Val, CodeBits, Extend, NaturalOrder, EncodesFor, HuffTable.Valid, PrefixCode;
    hide ValueBits, NBits;
    var n := NBits(v);
    SizeOf(v);
    HasAtParts(s, pos, CodeBits(c, 16 * r + n), ValueBits(v));
    CodeDecodes(c, t, s, pos, 16 * r + n);
    NoBitsForZero(v);
    ValueReads(s, pos + |CodeBits(c, 16 * r + n)|, v);
    DivUnique(16 * r + n, 16, r, n);
  }

  /** Symbols without a value, in any stream: fifteen as run skips sixteen positions, and
      every other run ends the block, whatever it is. */
  lemma {:induction false} ZeroSizeSymbol(t: Table, s: seq<bool>, pos: nat, k: nat, a: Block)
    requires HuffTable.Valid(t) && k < DCTSIZE2 && Decode(t, s, pos).symbol % 16 == 0
    ensures var d := Decode(t, s, pos);
      && (d.symbol == 0xf0 ==> AcDecode(t, s, pos, k, a) == AcDecode(t, s, pos + d.length, k + 16, a))
      && (d.symbol != 0xf0 ==> AcDecode(t, s, pos, k, a) == AcResult(a, pos + d.length))
  {
    hide Decode, Val, Extend, HuffTable.Valid, NaturalOrder;
  }

  /** How far reading goes does not depend on the block it fills. */
  lemma {:induction false} AcPosIndependent(t: Table, s: seq<bool>, pos: nat, k: nat, a: Block, b: Block)
    requires HuffTable.Valid(t)
    ensures AcDecode(t, s, pos, k, a).pos == AcDecode(t, s, pos, k, b).pos
    decreases DCTSIZE2 - k
  {
    hide Decode, Val, Extend, HuffTable.Valid, NaturalOrder;
    if k < DCTSIZE2 {
      var d := Decode(t, s, pos);
      var p, r: nat, n: nat := pos + d.length, d.symbol / 16, d.symbol % 16;
      if n != 0 {
        var v := Extend(Val(s, p, n), n);
        AcPosIndependent(t, s, p + n, k + r + 1, a[NaturalOrder(k + r) := v], b[NaturalOrder(k + r) := v]);
      } else if r == 15 {
        AcPosIndependent(t, s, p, k + 16, a, b);
      }
    }
  }

  /** Reading on never touches positions already passed. */
  lemma {:induction false} AcKeeps(t: Table, s: seq<bool>, pos: nat, k: nat, a: Block, i: nat)
    requires HuffTable.Valid(t) && i < k && i < DCTSIZE2
    ensures AcDecode(t, s, pos, k, a).block[NaturalOrder(i)] == a[NaturalOrder(i)]
    decreases DCTSIZE2 - k
  {
    hide Decode, Val, Extend, HuffTable.Valid, NaturalTable, ZigzagTable;
    if k < DCTSIZE2 {
      var d := Decode(t, s, pos);
      var p, r: nat, n: nat := pos + d.length, d.symbol / 16, d.symbol % 16;
      if n != 0 {
        StoredApart(k + r, i);
        AcKeeps(t, s, p + n, k + r + 1, a[NaturalOrder(k + r) := Extend(Val(s, p, n), n)], i);
      } else if r == 15 {
        AcKeeps(t, s, p, k + 16, a, i);
      }
    }
  }

  /** Positions past the end share the last entry, and no other. */
  lemma StoredApart(k: nat, i: nat)
    requires i < k && i < DCTSIZE2 - 1
    ensures NaturalOrder(k) != NaturalOrder(i)
  {
    var j: nat := if k < DCTSIZE2 then k else DCTSIZE2 - 1;
    assert NaturalOrder(k) == NaturalOrder(j);
    hide NaturalTable, ZigzagTable;
    if NaturalOrder(k) == NaturalOrder(i) {
      NaturalInjective(j, i);
    }
  }

  /** -32768 takes 16 bits, and its symbol is that of a longer run of zeros
      without a value: the coefficient is lost. */
  lemma {:induction false} SixteenBitsLost(c: CTable, t: Table, s: seq<bool>, pos: nat, k: nat, r: nat, v: int,
          a: Block)
    requires Coder(c, t) && r < 16 && k + r < DCTSIZE2 && v == -0x8000
    requires HasCode(c, 16 * r + NBits(v)) && HasAt(s, pos, CoefBits(c, r, v))
    requires a[NaturalOrder(k + r)] == 0
    ensures HuffTable.Valid(t)
    ensures AcDecode(t, s, pos, k, a).block[NaturalOrder(k + r)] == 0
  {
    hide HasCode, HasAt, Decode, Val, CodeBits, Extend, NaturalOrder, EncodesFor, HuffTable.Valid, PrefixCode;
    hide ValueBits, NBits;
    SizeOf(v);
    HasAtParts(s, pos, CodeBits(c, 16 * r + 16), ValueBits(v));
    CodeDecodes(c, t, s, pos, 16 * r + 16);
    DivUnique(16 * r + 16, 16, r + 1, 0);
    if r == 14 {
      AcKeeps(t, s, pos + |CodeBits(c, 16 * r + 16)|, k + 16, a, k + r);
    }
  }

  /** No coefficient from zigzag position k on is -32768. */
  ghost predicate NoSixteenBits(b: Block, k: nat) {
    forall i :: k <= i < DCTSIZE2 ==> b[NaturalOrder(i)] != -0x8000
  }

  /** In natural order, which has the DC coefficient at 0. */
  lemma NoSixteenBitsIs(b: Block)
    ensures NoSixteenBits(b, 1) <==> forall i :: 1 <= i < 64 ==> b[i] != -0x8000
  {
    assert NaturalOrder(0) == 0;
    hide NaturalTable, ZigzagTable;
    forall i | 1 <= i < 64
      ensures NaturalOrder(i) != 0
      ensures 1 <= ZigzagTable(i) < 64 && NaturalOrder(ZigzagTable(i)) == i
    {
      NaturalOfZigzag(i);
      if NaturalOrder(i) == 0 {
        NaturalInjective(i, 0);
      }
    }
    if NoSixteenBits(b, 1) {
      forall i | 1 <= i < 64
        ensures b[i] != -0x8000
      {
        assert b[NaturalOrder(ZigzagTable(i))] != -0x8000;
      }
    }
  }

  /** Main theorem: decoding the code of the AC coefficients yields the same
      coefficients exactly if none of them is -32768, and then reads to its end. */
  lemma {:induction false} AcRoundTripIff(c: CTable, t: Table, s: seq<bool>, pos: nat, b: Block, k: nat, r: nat,
          a: Block)
    requires Coder(c, t) && 1 <= k <= DCTSIZE2 && r < k
    requires Coefs(b)
    requires HasAt(s, pos, AcBits(c, b, k, r)) && AcCoded(c, b, k, r) && Partial(a, b, k)
    ensures HuffTable.Valid(t)
    ensures AcDecode(t, s, pos, k - r, a).block == b <==> NoSixteenBits(b, k)
    ensures NoSixteenBits(b, k) ==> AcDecode(t, s, pos, k - r, a).pos == pos + |AcBits(c, b, k, r)|
    decreases DCTSIZE2 - k
  {
    hide HasCode, HasAt, Decode, Val, CodeBits, Extend, NaturalOrder, EncodesFor, HuffTable.Valid, PrefixCode;
    hide ValueBits, NBits, Partial, ZrlBits, CoefBits, AcDecode;
    if k == DCTSIZE2 {
      PartialAll(a, b);
      AcEnd(c, t, s, pos, k, r, a);
    } else if b[NaturalOrder(k)] == 0 {
      PartialZero(a, b, k);
      AcRoundTripIff(c, t, s, pos, b, k + 1, r + 1, a);
    } else {
      var v := b[NaturalOrder(k)];
      var zrl, coef, rest := ZrlBits(c, r / 16), CoefBits(c, r % 16, v), AcBits(c, b, k + 1, 0);
      HasAtParts(s, pos, zrl, coef + rest);
      HasAtParts(s, pos + |zrl|, coef, rest);
      ZrlSkip(c, t, s, pos, k - r, r / 16, a);
      if v == -0x8000 {
        PartialAt(a, b, k);
        SixteenBitsLost(c, t, s, pos + |zrl|, k - r % 16, r % 16, v, a);
      } else {
        CoefStep(c, t, s, pos + |zrl|, k - r % 16, r % 16, v, a);
        PartialNext(a, b, k);
        AcRoundTripIff(c, t, s, pos + |zrl| + |coef|, b, k + 1, 0, a[NaturalOrder(k) := v]);
      }
    }
  }

  lemma PartialAt(a: Block, b: Block, k: nat)
    requires k < DCTSIZE2 && Partial(a, b, k)
    ensures a[NaturalOrder(k)] == 0
  {
  }

  /** The end of a block: nothing, or an end-of-block code for pending zeros. */
  lemma AcEnd(c: CTable, t: Table, s: seq<bool>, pos: nat, k: nat, r: nat, a: Block)
    requires Coder(c, t) && k == DCTSIZE2 && r < k && (r > 0 ==> HasCode(c, 0))
    requires HasAt(s, pos, if r > 0 then CodeBits(c, 0) else [])
    ensures HuffTable.Valid(t)
    ensures AcDecode(t, s, pos, k - r, a) == AcResult(a, pos + (if r > 0 then |CodeBits(c, 0)| else 0))
  {
    hide HasCode, HasAt, Decode, Val, CodeBits, Extend, NaturalOrder, EncodesFor, HuffTable.Valid, PrefixCode;
    if r > 0 {
      CodeDecodes(c, t, s, pos, 0);
    }
  }
}
