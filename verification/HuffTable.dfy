/** JPEG Huffman tables: the canonical code of Annex C of ITU-T T.81, the
    derived tables that jdhuff.c and jchuff.c build from a DHT table, and what
    it means to decode with them. */
module HuffTable {
  import opened Bits
  import opened BitStream

  const LOOKAHEAD := 8

  /** JHUFF_TBL: bits[l] codes of length l (bits[0] unused), and the symbols in
      order of code length. */
  datatype Table = Table(bits: seq<UInt8>, huffval: seq<UInt8>)

  /** The number of codes shorter than l. */
  function Start(t: Table, l: nat): nat
    requires |t.bits| == 17 && 1 <= l <= 17
  {
    if l == 1 then 0 else Start(t, l - 1) + t.bits[l - 1]
  }

  /** The first code of length l. */
  function FirstCode(t: Table, l: nat): nat
    requires |t.bits| == 17 && 1 <= l <= 17
  {
    if l == 1 then 0 else 2 * (FirstCode(t, l - 1) + t.bits[l - 1])
  }

  /** What reading a DHT marker guarantees. */
  ghost predicate Valid(t: Table) {
    |t.bits| == 17 && |t.huffval| == 256 && Start(t, 17) <= 256
  }

  ghost predicate LengthFits(t: Table, l: nat)
    requires |t.bits| == 17 && 1 <= l <= 16
  {
    FirstCode(t, l) + t.bits[l] <= Pow2(l)
  }

  /** The codes of every length fit in that length: the table is a prefix code. */
  ghost predicate PrefixCode(t: Table)
    requires |t.bits| == 17
  {
    forall l :: 1 <= l <= 16 ==> LengthFits(t, l)
  }

  /** The codes that the lookahead table is to hold fit in their lengths. */
  ghost predicate LookaheadFits(t: Table)
    requires |t.bits| == 17
  {
    forall l :: 1 <= l <= LOOKAHEAD ==> LengthFits(t, l)
  }

  /** c is a code word of length l. */
  predicate IsCode(t: Table, l: nat, c: nat)
    requires |t.bits| == 17
  {
    1 <= l <= 16 && FirstCode(t, l) <= c < FirstCode(t, l) + t.bits[l]
  }

  lemma {:induction false} StartMonotone(t: Table, l: nat, m: nat)
    requires |t.bits| == 17 && 1 <= l <= m <= 17
    ensures Start(t, l) <= Start(t, m)
    ensures l < m ==> Start(t, l) + t.bits[l] <= Start(t, m)
    decreases m
  {
    if l < m {
      StartMonotone(t, l, m - 1);
    }
  }

  /** The symbol of the code word c of length l. */
  function Symbol(t: Table, l: nat, c: nat): UInt8
    requires Valid(t) && IsCode(t, l, c)
  {
    StartMonotone(t, l, 17);
    t.huffval[Start(t, l) + (c - FirstCode(t, l))]
  }

  /** The table lists the symbol v. */
  ghost predicate Listed(t: Table, v: nat)
    requires Valid(t)
  {
    exists p :: 0 <= p < Start(t, 17) && p < 256 && t.huffval[p] == v
  }

  // ----- the code is a prefix code -----

  /** Codes of length m begin above all extensions of shorter codes. */
  lemma {:induction false} FirstCodeGrows(t: Table, l: nat, m: nat)
    requires |t.bits| == 17 && 1 <= l < m <= 17
    ensures FirstCode(t, m) >= (FirstCode(t, l) + t.bits[l]) * Pow2(m - l)
    decreases m
  {
    if l + 1 < m {
      FirstCodeGrows(t, l, m - 1);
      Double(FirstCode(t, l) + t.bits[l], Pow2(m - 1 - l));
    } else {
      assert Pow2(1) == 2;
    }
  }

  /** At most one code word starts at any place of any stream. */
  lemma {:induction false} PrefixFree(t: Table, s: seq<bool>, pos: nat, l: nat, m: nat)
    requires |t.bits| == 17 && IsCode(t, l, Val(s, pos, l)) && IsCode(t, m, Val(s, pos, m))
    ensures l == m
  {
    hide Val, FirstCode;
    if l < m {
      NotLonger(t, s, pos, l, m);
    } else if m < l {
      NotLonger(t, s, pos, m, l);
    }
  }

  lemma {:induction false} NotLonger(t: Table, s: seq<bool>, pos: nat, l: nat, m: nat)
    requires |t.bits| == 17 && 1 <= l < m <= 16 && IsCode(t, l, Val(s, pos, l))
    ensures Val(s, pos, m) < FirstCode(t, m)
  {
    hide Val, FirstCode, Pow2;
    var d := m - l;
    FirstCodeGrows(t, l, m);
    ValSplit(s, pos, l, d);
    ValBound(s, pos + l, d);
    MulBounds(Val(s, pos, l) + 1, Pow2(d), 0, FirstCode(t, l) + t.bits[l]);
    Distribute(Val(s, pos, l), 1, Pow2(d));
  }

  // ----- decoding, bit by bit -----

  /** A symbol and the length of its code word; 0 and 17 if there is none. */
  datatype Decoded = Decoded(symbol: UInt8, length: nat)

  /** Decoding from length l on: the shortest code word that the stream has at
      pos, as in section F.2.2.3 of T.81. */
  function DecodeFrom(t: Table, s: seq<bool>, pos: nat, l: nat): Decoded
    requires Valid(t) && 1 <= l <= 17
    decreases 17 - l
  {
    if l == 17 then Decoded(0, 17)
    else if IsCode(t, l, Val(s, pos, l)) then Decoded(Symbol(t, l, Val(s, pos, l)), l)
    else DecodeFrom(t, s, pos, l + 1)
  }

  function Decode(t: Table, s: seq<bool>, pos: nat): Decoded
    requires Valid(t)
  {
    DecodeFrom(t, s, pos, 1)
  }

  /** No code word of length below l starts at pos. */
  ghost predicate NoneShorter(t: Table, s: seq<bool>, pos: nat, l: nat)
    requires |t.bits| == 17
  {
    forall m :: 1 <= m < l ==> !IsCode(t, m, Val(s, pos, m))
  }

  lemma {:induction false} SkipTo(t: Table, s: seq<bool>, pos: nat, l: nat)
    requires Valid(t) && 1 <= l <= 17 && NoneShorter(t, s, pos, l)
    ensures Decode(t, s, pos) == DecodeFrom(t, s, pos, l)
    decreases l
  {
    if l > 1 {
      SkipTo(t, s, pos, l - 1);
    }
  }

  /** Main theorem: a code word that the stream has at pos is what decoding
      finds there. */
  lemma {:induction false} DecodeFinds(t: Table, s: seq<bool>, pos: nat, l: nat)
    requires Valid(t) && IsCode(t, l, Val(s, pos, l))
    ensures Decode(t, s, pos) == Decoded(Symbol(t, l, Val(s, pos, l)), l)
  {
    hide FirstCode, Val, IsCode;
    forall m | 1 <= m < l
      ensures !IsCode(t, m, Val(s, pos, m))
    {
      if IsCode(t, m, Val(s, pos, m)) {
        PrefixFree(t, s, pos, m, l);
      }
    }
    CodeLength(t, l, Val(s, pos, l));
    SkipTo(t, s, pos, l);
  }

  lemma CodeLength(t: Table, l: nat, c: nat)
    requires |t.bits| == 17 && IsCode(t, l, c)
    ensures 1 <= l <= 16
  {
  }

  /** As long as no shorter code word matches, the bits read so far are not
      below the first code of their length. */
  lemma {:induction false} NotBelowFirst(t: Table, s: seq<bool>, pos: nat, l: nat)
    requires |t.bits| == 17 && 1 <= l <= 17 && NoneShorter(t, s, pos, l)
    ensures FirstCode(t, l) <= Val(s, pos, l)
    decreases l
  {
    if l > 1 {
      NotBelowFirst(t, s, pos, l - 1);
      assert !IsCode(t, l - 1, Val(s, pos, l - 1));
    }
  }
}
