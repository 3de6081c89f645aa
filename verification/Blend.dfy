/** The packed pixel arithmetic of hsGBlitter_Internal.h, for the ARGB format:
    alpha in the top byte of a 32-bit pixel. */
module Blend {
  import opened Bits
  import opened Bytes

  // ----- channels -----

  function Alpha(p: UInt32): UInt8 { p / 0x100_0000 }

  function Red(p: UInt32): UInt8 { p / 0x1_0000 % 0x100 }

  function Green(p: UInt32): UInt8 { p / 0x100 % 0x100 }

  function Blue(p: UInt32): UInt8 { p % 0x100 }

  lemma PackChannels(a: UInt8, r: UInt8, g: UInt8, b: UInt8)
    ensures var p := Pack(a, r, g, b);
      Alpha(p) == a && Red(p) == r && Green(p) == g && Blue(p) == b
  {
    BytesOf(a, r, g, b);
  }

  lemma FromChannels(p: UInt32)
    ensures p == Alpha(p) * 0x100_0000 + Red(p) * 0x1_0000 + Green(p) * 0x100 + Blue(p)
  {
    FromBytes(p);
  }

  /** Colours are premultiplied: alpha is the largest channel. */
  predicate Premultiplied(p: UInt32) {
    Red(p) <= Alpha(p) && Green(p) <= Alpha(p) && Blue(p) <= Alpha(p)
  }

  /** SET_ARGB_32 */
  function SetArgb32(a: UInt8, r: UInt8, g: UInt8, b: UInt8): (p: UInt32)
    ensures p == Pack(a, r, g, b)
  {
    OrBytes(a, r, g, b);
    Or(Or(Or(a * 0x100_0000, r * 0x1_0000), g * 0x100), b)
  }

  // ----- Blend32: two channels share one multiplication -----

  const FF00FF := 0xff_00ff
  const FF00FF00 := 0xff00_ff00

  function Blend32(s: UInt32, d: UInt32, oneMinusA: nat): UInt32 {
    var t1 := And(U32(And(d, FF00FF) * oneMinusA), FF00FF00) / 0x100;
    var t2 := And(U32(And(d / 0x100, FF00FF) * oneMinusA), FF00FF00);
    U32(s + Or(t1, t2))
  }

  /** One channel of d weighted by k / 256. */
  function Scaled(c: UInt8, k: nat): int {
    c * k / 0x100
  }

  /** The mask selects two bytes with room above each. */
  lemma {:induction false} TwoLanes(x: UInt32)
    ensures And(x, FF00FF) == Red(x) * 0x1_0000 + Blue(x)
    ensures And(x, FF00FF00) == Alpha(x) * 0x100_0000 + Green(x) * 0x100
  {
    hide And, Alpha, Red, Green, Blue, Pow2;
    FromChannels(x);
    MaskBytes(Alpha(x), Red(x), 0, 0xff);
    MaskBytes(Green(x), Blue(x), 0, 0xff);
    MaskBytes(Alpha(x), Red(x), 0xff, 0);
    MaskBytes(Green(x), Blue(x), 0xff, 0);
    PowValues();
    var hi: int, lo: int := Alpha(x) * 0x100 + Red(x), Green(x) * 0x100 + Blue(x);
    AndSplit(x, hi, lo, FF00FF, 0xff, 0xff, 16);
    AndSplit(x, hi, lo, FF00FF00, 0xff00, 0xff00, 16);
  }

  lemma MaskBytes(h: UInt8, l: UInt8, hm: nat, lm: nat)
    requires (hm == 0 || hm == 0xff) && (lm == 0 || lm == 0xff)
    ensures And(h * 0x100 + l, hm * 0x100 + lm)
         == (if hm == 0 then 0 else h * 0x100) + (if lm == 0 then 0 else l)
  {
    hide And, Pow2;
    PowValues();
    AndLow(h, 8);
    AndLow(l, 8);
    var x: int := h * 0x100 + l;
    AndSplit(x, h, l, hm * 0x100 + lm, hm, lm, 8);
  }

  /** Multiplying two lanes by k <= 256 keeps them apart; the high byte of each
      product is the scaled channel. */
  lemma LanesScale(h: UInt8, l: UInt8, k: nat)
    requires k <= 0x100
    ensures 0 <= Scaled(h, k) <= 0xff && 0 <= Scaled(l, k) <= 0xff
    ensures And(U32((h * 0x1_0000 + l) * k), FF00FF00) == Scaled(h, k) * 0x100_0000 + Scaled(l, k) * 0x100
  {
    hide And;
    LaneProduct(h, l, k);
    SplitLanes(h * k, l * k);
  }

  lemma LaneProduct(h: int, l: int, k: nat)
    requires 0 <= h <= 0xff && 0 <= l <= 0xff && k <= 0x100
    ensures (h * 0x1_0000 + l) * k == (h * k) * 0x1_0000 + l * k
    ensures 0 <= h * k <= 0xff00 && 0 <= l * k <= 0xff00
  {
    MulBounds(h, k, 0, 0xff);
    MulBounds(l, k, 0, 0xff);
    Distribute(h * 0x1_0000, l, k);
    assert h * 0x1_0000 * k == (h * k) * 0x1_0000;
  }

  lemma SplitLanes(x: int, y: int)
    requires 0 <= x <= 0xff00 && 0 <= y <= 0xff00
    ensures And(U32(x * 0x1_0000 + y), FF00FF00) == x / 0x100 * 0x100_0000 + y / 0x100 * 0x100
  {
    hide And, Alpha, Red, Green, Blue;
    var p := x * 0x1_0000 + y;
    TwoLanes(p);
    LaneBytes(x, y);
  }

  lemma LaneBytes(x: int, y: int)
    requires 0 <= x <= 0xff00 && 0 <= y <= 0xff00
    ensures var p := x * 0x1_0000 + y;
      0 <= p < TWO32 && U32(p) == p && Alpha(p) == x / 0x100 && Green(p) == y / 0x100
  {
    BytesOf(x / 0x100, x % 0x100, y / 0x100, y % 0x100);
  }

  // ----- Blend32 channel by channel -----

  /** Bytes 2 and 0 of one word with bytes 3 and 1 of another: | is +. */
  lemma {:induction false} OrInterleaved(a: UInt8, r: UInt8, g: UInt8, b: UInt8)
    ensures Or(r * 0x1_0000 + b, a * 0x100_0000 + g * 0x100) == Pack(a, r, g, b)
  {
    hide And, Or, Pow2;
    PowValues();
    var x, y := r * 0x1_0000 + b, a * 0x100_0000 + g * 0x100;
    AndSplit(r, 0, r, a * 0x100, a, 0, 8);
    AndSplit(b, 0, b, g * 0x100, g, 0, 8);
    AndSplit(x, r, b, y, a * 0x100, g * 0x100, 16);
    OrPlusAnd(x, y);
  }

  /** The weighted bytes 2 and 0 of d. */
  lemma {:induction false} LowLanes(d: UInt32, k: nat)
    requires k <= 0x100
    ensures 0 <= Scaled(Red(d), k) <= 0xff && 0 <= Scaled(Blue(d), k) <= 0xff
    ensures And(U32(And(d, FF00FF) * k), FF00FF00) / 0x100 == Scaled(Red(d), k) * 0x1_0000 + Scaled(Blue(d), k)
  {
    hide And, Scaled, U32, Alpha, Red, Green, Blue;
    TwoLanes(d);
    LanesScale(Red(d), Blue(d), k);
    ShiftedLanes(Scaled(Red(d), k), Scaled(Blue(d), k));
  }

  lemma ShiftedLanes(h: int, l: int)
    ensures (h * 0x100_0000 + l * 0x100) / 0x100 == h * 0x1_0000 + l
  {
  }

  /** The weighted bytes 3 and 1 of d. */
  lemma {:induction false} HighLanes(d: UInt32, k: nat)
    requires k <= 0x100
    ensures 0 <= Scaled(Alpha(d), k) <= 0xff && 0 <= Scaled(Green(d), k) <= 0xff
    ensures And(U32(And(d / 0x100, FF00FF) * k), FF00FF00)
         == Scaled(Alpha(d), k) * 0x100_0000 + Scaled(Green(d), k) * 0x100
  {
    hide And, Scaled, U32, Alpha, Red, Green, Blue;
    UpperBytes(d);
    TwoLanes(d / 0x100);
    LanesScale(Alpha(d), Green(d), k);
  }

  /** The weighted d of Blend32. */
  lemma {:induction false} WeightedPixel(d: UInt32, k: nat)
    requires k <= 0x100
    ensures 0 <= Scaled(Alpha(d), k) <= 0xff && 0 <= Scaled(Red(d), k) <= 0xff
    ensures 0 <= Scaled(Green(d), k) <= 0xff && 0 <= Scaled(Blue(d), k) <= 0xff
    ensures Or(And(U32(And(d, FF00FF) * k), FF00FF00) / 0x100, And(U32(And(d / 0x100, FF00FF) * k), FF00FF00))
         == Pack(Scaled(Alpha(d), k), Scaled(Red(d), k), Scaled(Green(d), k), Scaled(Blue(d), k))
  {
    hide And, Or, Scaled, Pack, U32, Alpha, Red, Green, Blue;
    LowLanes(d, k);
    HighLanes(d, k);
    OrInterleaved(Scaled(Alpha(d), k), Scaled(Red(d), k), Scaled(Green(d), k), Scaled(Blue(d), k));
  }

  lemma UpperBytes(d: UInt32)
    ensures Red(d / 0x100) == Alpha(d) && Blue(d / 0x100) == Green(d)
  {
    DivDiv(d, 0x100, 0x1_0000);
  }

  /** As long as no channel overflows, no carry passes between channels. */
  lemma BlendChannels(s: UInt32, d: UInt32, k: nat)
    requires k <= 0x100
    requires Alpha(s) + Scaled(Alpha(d), k) <= 0xff && Red(s) + Scaled(Red(d), k) <= 0xff
    requires Green(s) + Scaled(Green(d), k) <= 0xff && Blue(s) + Scaled(Blue(d), k) <= 0xff
    ensures var p := Blend32(s, d, k);
      && Alpha(p) == Alpha(s) + Scaled(Alpha(d), k)
      && Red(p) == Red(s) + Scaled(Red(d), k)
      && Green(p) == Green(s) + Scaled(Green(d), k)
      && Blue(p) == Blue(s) + Scaled(Blue(d), k)
  {
    hide And, Or, U32, Pack, Alpha, Red, Green, Blue, Scaled;
    WeightedPixel(d, k);
    AddChannels(s, Scaled(Alpha(d), k), Scaled(Red(d), k), Scaled(Green(d), k), Scaled(Blue(d), k));
    PackChannels(Alpha(s) + Scaled(Alpha(d), k), Red(s) + Scaled(Red(d), k),
                 Green(s) + Scaled(Green(d), k), Blue(s) + Scaled(Blue(d), k));
  }

  lemma AddChannels(s: UInt32, a: UInt8, r: UInt8, g: UInt8, b: UInt8)
    requires Alpha(s) + a <= 0xff && Red(s) + r <= 0xff && Green(s) + g <= 0xff && Blue(s) + b <= 0xff
    ensures U32(s + Pack(a, r, g, b)) == Pack(Alpha(s) + a, Red(s) + r, Green(s) + g, Blue(s) + b)
  {
    hide Alpha, Red, Green, Blue;
    FromChannels(s);
  }

  // ----- premultiplied layers -----

  /** A layer s over d. */
  function Over(s: UInt32, d: UInt32): UInt32 {
    Blend32(s, d, 0x100 - Alpha(s))
  }

  /** What is left of any channel under alpha a fits beside a. */
  lemma ScaledRoom(c: UInt8, a: UInt8)
    ensures 0 <= Scaled(c, 0x100 - a) <= 0xff - a
  {
    var k := 0x100 - a;
    MulBounds(c, k, 0, 0xff);
  }

  lemma ScaledMonotone(c: UInt8, c': UInt8, k: nat)
    requires c <= c'
    ensures Scaled(c, k) <= Scaled(c', k)
  {
    MulBounds(c, k, c, c');
  }

  /** Main theorem: a premultiplied layer over any pixel adds, in every channel,
      the floor of the weighted pixel. */
  lemma OverChannels(s: UInt32, d: UInt32)
    requires Red(s) <= Alpha(s) && Green(s) <= Alpha(s) && Blue(s) <= Alpha(s)
    ensures var p, k := Over(s, d), 0x100 - Alpha(s);
      && Alpha(p) == Alpha(s) + Alpha(d) * k / 0x100
      && Red(p) == Red(s) + Red(d) * k / 0x100
      && Green(p) == Green(s) + Green(d) * k / 0x100
      && Blue(p) == Blue(s) + Blue(d) * k / 0x100
  {
    hide Blend32, Alpha, Red, Green, Blue;
    ScaledRoom(Alpha(d), Alpha(s));
    ScaledRoom(Red(d), Alpha(s));
    ScaledRoom(Green(d), Alpha(s));
    ScaledRoom(Blue(d), Alpha(s));
    BlendChannels(s, d, 0x100 - Alpha(s));
  }

  lemma OverPremultiplied(s: UInt32, d: UInt32)
    requires Premultiplied(s) && Premultiplied(d)
    ensures Premultiplied(Over(s, d))
  {
    hide Over, Alpha, Red, Green, Blue;
    var k := 0x100 - Alpha(s);
    OverChannels(s, d);
    ScaledMonotone(Red(d), Alpha(d), k);
    ScaledMonotone(Green(d), Alpha(d), k);
    ScaledMonotone(Blue(d), Alpha(d), k);
  }

  lemma OpaqueOver(s: UInt32, d: UInt32)
    requires Alpha(s) == 0xff
    ensures Over(s, d) == s
  {
    hide Over, Alpha, Red, Green, Blue;
    OverChannels(s, d);
    FromChannels(s);
    FromChannels(Over(s, d));
  }

  lemma TransparentOver(d: UInt32)
    ensures Over(0, d) == d
  {
    hide Over, Alpha, Red, Green, Blue;
    ZeroChannels();
    OverChannels(0, d);
    FromChannels(d);
    FromChannels(Over(0, d));
  }

  lemma ZeroChannels()
    ensures Alpha(0) == 0 && Red(0) == 0 && Green(0) == 0 && Blue(0) == 0
  {
  }

  /** Layers put on d, the first one lowest. */
  function Stack(layers: seq<UInt32>, d: UInt32): UInt32 {
    if layers == [] then d else Stack(layers[1..], Over(layers[0], d))
  }

  /** Main theorem: any stack of premultiplied layers is premultiplied. */
  lemma {:induction false} StackPremultiplied(layers: seq<UInt32>, d: UInt32)
    requires Premultiplied(d) && forall i :: 0 <= i < |layers| ==> Premultiplied(layers[i])
    ensures Premultiplied(Stack(layers, d))
  {
    hide Over, Premultiplied;
    if layers != [] {
      OverPremultiplied(layers[0], d);
      StackPremultiplied(layers[1..], Over(layers[0], d));
    }
  }

  /** Main theorem: an opaque layer makes everything beneath it irrelevant. */
  lemma {:induction false} OpaqueLayerHides(layers: seq<UInt32>, i: nat, d: UInt32)
    requires i < |layers| && Alpha(layers[i]) == 0xff
    ensures Stack(layers, d) == Stack(layers[i + 1..], layers[i])
  {
    hide Over, Alpha;
    if i == 0 {
      OpaqueOver(layers[0], d);
    } else {
      OpaqueLayerHides(layers[1..], i - 1, Over(layers[0], d));
      assert layers[1..][i..] == layers[i + 1..];
    }
  }

  // ----- Alpha256_Blend: a signed product shifted as an unsigned one -----

  function Alpha256Blend(src: Int32, dst: Int32, alpha256: nat): Int32 {
    S32(dst + S32(U32((src - dst) * alpha256) / 0x100))
  }

  /** The blend of two components, rounded down. */
  function FloorLerp(src: int, dst: int, alpha256: nat): int {
    dst + (src - dst) * alpha256 / 0x100
  }

  /** The way from dst to src, alpha256 / 256 of it, rounded down: for falling components
      too, where rounding towards zero would give one more. */
  lemma LerpRoundsDown(src: int, dst: int, alpha256: nat)
    ensures var step := FloorLerp(src, dst, alpha256) - dst;
      0x100 * step <= (src - dst) * alpha256 < 0x100 * (step + 1)
  {
    QuotientRemainder((src - dst) * alpha256, 0x100);
  }

  predicate Component(c: int) { 0 <= c <= 0xff }

  lemma LerpProduct(src: int, dst: int, alpha256: nat)
    requires Component(src) && Component(dst) && alpha256 <= 0x100
    ensures -0xff00 <= (src - dst) * alpha256 <= 0xff00
    ensures src <= dst ==> (src - dst) * 0x100 <= (src - dst) * alpha256 <= 0
    ensures src >= dst ==> 0 <= (src - dst) * alpha256 <= (src - dst) * 0x100
  {
    if src <= dst {
      MulBounds(alpha256, dst - src, 0, 0x100);
      assert (src - dst) * alpha256 == -(alpha256 * (dst - src));
    } else {
      MulBounds(alpha256, src - dst, 0, 0x100);
    }
  }

  /** The result is too large by 2^24 exactly when the product is negative. */
  lemma BlendExcess(src: int, dst: int, alpha256: nat)
    requires Component(src) && Component(dst) && alpha256 <= 0x100
    ensures Alpha256Blend(src, dst, alpha256)
         == FloorLerp(src, dst, alpha256) + (if (src - dst) * alpha256 < 0 then 0x100_0000 else 0)
  {
    LerpProduct(src, dst, alpha256);
    LogicalShift((src - dst) * alpha256, dst);
  }

  lemma LogicalShift(x: int, dst: int)
    requires -0xff00 <= x <= 0xff00 && Component(dst)
    ensures S32(dst + S32(U32(x) / 0x100)) == dst + x / 0x100 + (if x < 0 then 0x100_0000 else 0)
  {
    hide S32, U32;
    var q := x / 0x100 + (if x < 0 then 0x100_0000 else 0);
    assert U32(x) / 0x100 == q by {
      if x < 0 {
        NegativeWord(x);
        ModPlus(x, 0x100_0000, 0x100);
      } else {
        SmallWord(x);
      }
    }
    SmallWord(q);
    SmallWord(dst + q);
  }

  lemma LerpBetween(src: int, dst: int, alpha256: nat)
    requires Component(src) && Component(dst) && alpha256 <= 0x100
    ensures src <= dst ==> src <= FloorLerp(src, dst, alpha256) <= dst
    ensures src >= dst ==> dst <= FloorLerp(src, dst, alpha256) <= src
  {
    LerpProduct(src, dst, alpha256);
    QuotientRemainder((src - dst) * alpha256, 0x100);
  }

  /** A cast to a narrower word erases the excess. */
  lemma CastBlend(src: int, dst: int, alpha256: nat)
    requires Component(src) && Component(dst) && alpha256 <= 0x100
    ensures Alpha256Blend(src, dst, alpha256) % 0x100 == FloorLerp(src, dst, alpha256)
    ensures Alpha256Blend(src, dst, alpha256) % 0x1_0000 == FloorLerp(src, dst, alpha256)
  {
    hide Alpha256Blend, FloorLerp;
    BlendExcess(src, dst, alpha256);
    LerpBetween(src, dst, alpha256);
  }

  // ----- BlendARGB -----

  function Alpha256Multiply(v: Int32, a: Int32): int {
    S32(v * a) / 0x100
  }

  /** Alpha255Merge: the alpha of two layers together. */
  function Alpha255Merge(a: UInt32, b: UInt32): UInt32 {
    U32(a + b - Alpha256Multiply(S32(a), S32(b + 1)))
  }

  /** Merging never loses coverage and never leaves 0..255. */
  lemma MergeRange(a: UInt8, b: UInt8)
    ensures Alpha255Merge(a, b) == a + b - a * (b + 1) / 0x100
    ensures a <= Alpha255Merge(a, b) <= 0xff && b <= Alpha255Merge(a, b)
    ensures a == 0 ==> Alpha255Merge(a, b) == b
  {
    hide S32, U32;
    var p: int := a * (b + 1);
    MergedBounds(a, b);
    MulBounds(a, b + 1, 0, 0xff);
    SmallWord(a);
    SmallWord(b + 1);
    SmallWord(p);
    SmallWord(a + b - p / 0x100);
  }

  lemma NegativeWord(x: int)
    requires -TWO32 <= x < 0
    ensures U32(x) == x + TWO32
  {
    DivUnique(x, TWO32, -1, x + TWO32);
  }

  lemma SmallWord(x: int)
    requires 0 <= x < 0x8000_0000
    ensures S32(x) == x && U32(x) == x
  {
  }

  lemma MergedBounds(a: int, b: int)
    requires Component(a) && Component(b)
    ensures var q := a * (b + 1) / 0x100;
      0 <= q <= a && q <= b && a + b - q <= 0xff
  {
    var p := a * (b + 1);
    MulBounds(a, b + 1, 0, 0xff);
    MulBounds(b + 1, a, 1, 0x100);
    QuotientRemainder(p, 0x100);
    MulAtLeastZero(0xff - a, 0xff - b);
    assert (0xff - a) * (0xff - b) == 0xff * 0xff - 0xff * a - 0xff * b + a * b;
    assert p == a * b + a;
  }

  function BlendARGB(src: UInt32, dst: UInt32, alpha: UInt8): UInt32 {
    var blend := alpha + 1;
    SetArgb32(Alpha255Merge(alpha, Alpha(dst)) % 0x100,
              Alpha256Blend(Red(src), Red(dst), blend) % 0x100,
              Alpha256Blend(Green(src), Green(dst), blend) % 0x100,
              Alpha256Blend(Blue(src), Blue(dst), blend) % 0x100)
  }

  /** Main theorem: each colour is the floor-lerp, and alpha is the merge. */
  lemma BlendArgbChannels(src: UInt32, dst: UInt32, alpha: UInt8)
    ensures var p := BlendARGB(src, dst, alpha);
      && Alpha(p) == Alpha255Merge(alpha, Alpha(dst))
      && Red(p) == FloorLerp(Red(src), Red(dst), alpha + 1)
      && Green(p) == FloorLerp(Green(src), Green(dst), alpha + 1)
      && Blue(p) == FloorLerp(Blue(src), Blue(dst), alpha + 1)
  {
    hide Alpha, Red, Green, Blue, Alpha256Blend, FloorLerp, Alpha255Merge, SetArgb32, Pack;
    var k: int := alpha + 1;
    BlendedByte(Red(src), Red(dst), k);
    BlendedByte(Green(src), Green(dst), k);
    BlendedByte(Blue(src), Blue(dst), k);
    MergeRange(alpha, Alpha(dst));
    PackChannels(Alpha255Merge(alpha, Alpha(dst)), FloorLerp(Red(src), Red(dst), k),
                 FloorLerp(Green(src), Green(dst), k), FloorLerp(Blue(src), Blue(dst), k));
  }

  lemma BlendedByte(src: UInt8, dst: UInt8, k: nat)
    requires k <= 0x100
    ensures Alpha256Blend(src, dst, k) % 0x100 == FloorLerp(src, dst, k) && Component(FloorLerp(src, dst, k))
  {
    hide Alpha256Blend, FloorLerp;
    CastBlend(src, dst, k);
    LerpBetween(src, dst, k);
  }

  /** The two ends of the range of alpha256 that a stored alpha gives. */
  lemma LerpEnds(src: UInt8, dst: UInt8)
    ensures FloorLerp(src, dst, 1) == if dst <= src then dst else dst - 1
    ensures FloorLerp(src, dst, 0x100) == src
  {
  }

  /** Blending with alpha 0 leaves the pixel alone exactly when no channel of it
      is above the source's: a larger one drops by one. */
  lemma ZeroAlphaKeepsIff(src: UInt32, dst: UInt32)
    ensures BlendARGB(src, dst, 0) == dst
       <==> Red(dst) <= Red(src) && Green(dst) <= Green(src) && Blue(dst) <= Blue(src)
  {
    hide Alpha, Red, Green, Blue, BlendARGB, Alpha255Merge, FloorLerp, Pack;
    BlendArgbChannels(src, dst, 0);
    LerpEnds(Red(src), Red(dst));
    LerpEnds(Green(src), Green(dst));
    LerpEnds(Blue(src), Blue(dst));
    MergeRange(0, Alpha(dst));
    FromChannels(dst);
    FromChannels(BlendARGB(src, dst, 0));
  }

  /** Blending with alpha 255 gives the source's colours, fully covered. */
  lemma FullAlphaReplaces(src: UInt32, dst: UInt32)
    ensures BlendARGB(src, dst, 0xff) == Pack(0xff, Red(src), Green(src), Blue(src))
  {
    hide Alpha, Red, Green, Blue, BlendARGB, Alpha255Merge, FloorLerp;
    BlendArgbChannels(src, dst, 0xff);
    LerpEnds(Red(src), Red(dst));
    LerpEnds(Green(src), Green(dst));
    LerpEnds(Blue(src), Blue(dst));
    MergeRange(0xff, Alpha(dst));
    FromChannels(BlendARGB(src, dst, 0xff));
  }

  // ----- Blend555RGB -----

  function Red16(p: UInt16): int { p / 0x400 % 0x20 }

  function Green16(p: UInt16): int { p / 0x20 % 0x20 }

  function Blue16(p: UInt16): int { p % 0x20 }

  /** SET_RGB_16, with the opaque bit. */
  function SetRgb16(r: Int32, g: Int32, b: Int32): int {
    Or(Or(Or(0x8000, r % 0x1_0000 * 0x400), g % 0x1_0000 * 0x20), b % 0x1_0000) % 0x1_0000
  }

  function Blend555RGB(src: UInt16, dst: UInt16, alpha256: nat): int {
    SetRgb16(Alpha256Blend(Red16(src), Red16(dst), alpha256),
             Alpha256Blend(Green16(src), Green16(dst), alpha256),
             Alpha256Blend(Blue16(src), Blue16(dst), alpha256))
  }

  lemma Channels16(p: UInt16)
    ensures 0 <= Red16(p) < 0x20 && 0 <= Green16(p) < 0x20 && 0 <= Blue16(p) < 0x20
  {
  }

  lemma {:induction false} PackedRgb16(r: int, g: int, b: int)
    requires 0 <= r < 0x20 && 0 <= g < 0x20 && 0 <= b < 0x20
    ensures var p := Or(Or(Or(0x8000, r * 0x400), g * 0x20), b);
      && p == 0x8000 + r * 0x400 + g * 0x20 + b
      && Red16(p) == r && Green16(p) == g && Blue16(p) == b
  {
    hide Or, Red16, Green16, Blue16;
    PowValues();
    assert Pow2(15) == 0x8000 && Pow2(10) == 0x400 by { PowAdd(8, 7); PowAdd(8, 2); }
    OrDisjoint(1, r * 0x400, 15);
    OrDisjoint(0x20 + r, g * 0x20, 10);
    OrDisjoint(0x400 + r * 0x20 + g, b, 5);
    Fields16(r, g, b);
  }

  lemma Fields16(r: int, g: int, b: int)
    requires 0 <= r < 0x20 && 0 <= g < 0x20 && 0 <= b < 0x20
    ensures var p := 0x8000 + r * 0x400 + g * 0x20 + b;
      Red16(p) == r && Green16(p) == g && Blue16(p) == b
  {
    var p := 0x8000 + r * 0x400 + g * 0x20 + b;
    DivUnique(p, 0x400, 0x20 + r, g * 0x20 + b);
    DivUnique(0x20 + r, 0x20, 1, r);
    DivUnique(p, 0x20, 0x400 + r * 0x20 + g, b);
    DivUnique(0x400 + r * 0x20 + g, 0x20, 0x20 + r, g);
  }

  lemma BlendedFive(src: int, dst: int, k: nat)
    requires 0 <= src < 0x20 && 0 <= dst < 0x20 && k <= 0x100
    ensures Alpha256Blend(src, dst, k) % 0x1_0000 == FloorLerp(src, dst, k) && 0 <= FloorLerp(src, dst, k) < 0x20
  {
    hide Alpha256Blend, FloorLerp;
    CastBlend(src, dst, k);
    LerpBetween(src, dst, k);
  }

  lemma SetRgb16Packs(r: Int32, g: Int32, b: Int32, r': int, g': int, b': int)
    requires r % 0x1_0000 == r' && g % 0x1_0000 == g' && b % 0x1_0000 == b'
    requires 0 <= r' < 0x20 && 0 <= g' < 0x20 && 0 <= b' < 0x20
    ensures var p := SetRgb16(r, g, b);
      0x8000 <= p < 0x1_0000 && Red16(p) == r' && Green16(p) == g' && Blue16(p) == b'
  {
    hide Or, Red16, Green16, Blue16;
    PackedRgb16(r', g', b');
  }

  /** Main theorem: the result is opaque and each of its channels is the
      floor-lerp of the two. */
  lemma Blend555Channels(src: UInt16, dst: UInt16, alpha256: nat)
    requires alpha256 <= 0x100
    ensures var p := Blend555RGB(src, dst, alpha256);
      && 0x8000 <= p < 0x1_0000
      && Red16(p) == FloorLerp(Red16(src), Red16(dst), alpha256)
      && Green16(p) == FloorLerp(Green16(src), Green16(dst), alpha256)
      && Blue16(p) == FloorLerp(Blue16(src), Blue16(dst), alpha256)
  {
    hide Alpha256Blend, FloorLerp, SetRgb16, Red16, Green16, Blue16;
    Channels16(src);
    Channels16(dst);
    BlendedFive(Red16(src), Red16(dst), alpha256);
    BlendedFive(Green16(src), Green16(dst), alpha256);
    BlendedFive(Blue16(src), Blue16(dst), alpha256);
    SetRgb16Packs(Alpha256Blend(Red16(src), Red16(dst), alpha256),
                  Alpha256Blend(Green16(src), Green16(dst), alpha256),
                  Alpha256Blend(Blue16(src), Blue16(dst), alpha256),
                  FloorLerp(Red16(src), Red16(dst), alpha256),
                  FloorLerp(Green16(src), Green16(dst), alpha256),
                  FloorLerp(Blue16(src), Blue16(dst), alpha256));
  }
}
