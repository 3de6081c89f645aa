/** hsRGBTripleFill of hsGBitmap.h: filling a run of 24-bit pixels, three words
    at a time where the memory allows it. */
module TripleFill {
  import opened Bits
  import opened Bytes

  /** kMinCountFor24QuadCopy */
  const MIN_COUNT_FOR_QUADS := 32

  /** Where the red byte of a pixel is; green is always in the middle. */
  function RTriple(bigEndian: bool): nat { if bigEndian then 0 else 2 }

  function BTriple(bigEndian: bool): nat { if bigEndian then 2 else 0 }

  /** The three bytes of a pixel in memory order. */
  function Pixel(r: UInt8, g: UInt8, b: UInt8, bigEndian: bool): (p: seq<UInt8>)
    ensures |p| == 3
  {
    if bigEndian then [r, g, b] else [b, g, r]
  }

  /** Byte i of a run of copies of the pixel p. */
  function RunByte(p: seq<UInt8>, i: nat): UInt8
    requires |p| == 3
  {
    p[i % 3]
  }

  /** m' is m with n copies of the pixel p from at on, and nothing else changed. */
  ghost predicate Filled(m: seq<UInt8>, m': seq<UInt8>, at: nat, p: seq<UInt8>, n: nat)
    requires |p| == 3
  {
    && |m'| == |m|
    && forall j :: 0 <= j < |m| ==> m'[j] == if at <= j < at + 3 * n then RunByte(p, j - at) else m[j]
  }

  /** Two runs that meet are one run. */
  lemma FilledMore(m: seq<UInt8>, m': seq<UInt8>, m'': seq<UInt8>, at: nat, p: seq<UInt8>, n: nat, k: nat)
    requires |p| == 3 && Filled(m, m', at, p, n) && Filled(m', m'', at + 3 * n, p, k)
    ensures Filled(m, m'', at, p, n + k)
  {
    forall j | 0 <= j < |m|
      ensures m''[j] == if at <= j < at + 3 * (n + k) then RunByte(p, j - at) else m[j]
    {
      if j >= at + 3 * n {
        ModPlus(j - at - 3 * n, n, 3);
      }
    }
  }

  /** Byte by byte. */
  lemma FilledBytes(m: seq<UInt8>, m': seq<UInt8>, at: nat, r: UInt8, g: UInt8, b: UInt8, bigEndian: bool, n: nat)
    requires Filled(m, m', at, Pixel(r, g, b, bigEndian), n)
    ensures |m'| == |m|
    ensures forall j :: 0 <= j < |m| ==>
      m'[j] == if j < at || j >= at + 3 * n then m[j]
               else if (j - at) % 3 == 1 then g
               else if (j - at) % 3 == 0 <==> bigEndian then r
               else b
  {
  }

  method SetRGBTriple(mem: array<UInt8>, at: nat, r: UInt8, g: UInt8, b: UInt8, bigEndian: bool)
    requires at + 3 <= mem.Length
    modifies mem
    ensures Filled(old(mem[..]), mem[..], at, Pixel(r, g, b, bigEndian), 1)
  {
    mem[at + RTriple(bigEndian)] := r;
    mem[at + 1] := g;
    mem[at + BTriple(bigEndian)] := b;
  }

  /** The words quadR, quadG and quadB at the word indices of red, green and blue. */
  function QuadBytes(quadR: UInt32, quadG: UInt32, quadB: UInt32, bigEndian: bool): (q: seq<UInt8>)
    ensures |q| == 12
  {
    if bigEndian then Stored(quadR, true) + Stored(quadG, true) + Stored(quadB, true)
    else Stored(quadB, false) + Stored(quadG, false) + Stored(quadR, false)
  }

  /** Three words that hold four pixels, in either byte order. */
  lemma {:induction false} QuadWords(r: UInt8, g: UInt8, b: UInt8, bigEndian: bool)
    ensures var quadR := Or(Or(Or(r * 0x100_0000, g * 0x1_0000), b * 0x100), r);
      var quadG := Or(U32(quadR * 0x100), g);
      var quadB := Or(U32(quadG * 0x100), b);
      var p := Pixel(r, g, b, bigEndian);
      && quadR < TWO32 && quadG < TWO32 && quadB < TWO32
      && QuadBytes(quadR, quadG, quadB, bigEndian) == p + p + p + p
  {
    hide Or, U32, Stored;
    OrBytes(r, g, b, r);
    ShiftInByte(r, g, b, r, g);
    ShiftInByte(g, b, r, g, b);
    StoredPack(r, g, b, r, bigEndian);
    StoredPack(g, b, r, g, bigEndian);
    StoredPack(b, r, g, b, bigEndian);
  }

  /** (w << 8) | x */
  lemma {:induction false} ShiftInByte(b3: UInt8, b2: UInt8, b1: UInt8, b0: UInt8, x: UInt8)
    ensures Or(U32(Pack(b3, b2, b1, b0) * 0x100), x) == Pack(b2, b1, b0, x)
  {
    hide Or;
    PowValues();
    var h: int := b2 * 0x1_0000 + b1 * 0x100 + b0;
    DivUnique(Pack(b3, b2, b1, b0) * 0x100, TWO32, b3, h * 0x100);
    OrDisjoint(h, x, 8);
  }

  method MakeQuads(r: UInt8, g: UInt8, b: UInt8, ghost bigEndian: bool)
    returns (quadR: UInt32, quadG: UInt32, quadB: UInt32)
    ensures var p := Pixel(r, g, b, bigEndian); QuadBytes(quadR, quadG, quadB, bigEndian) == p + p + p + p
  {
    hide Or, U32, QuadBytes, Pixel;
    QuadWords(r, g, b, bigEndian);
    quadR := Or(Or(Or(r * 0x100_0000, g * 0x1_0000), b * 0x100), r);
    quadG := Or(U32(quadR * 0x100), g);
    quadB := Or(U32(quadG * 0x100), b);
  }

  /** Stores one group of four pixels through a word pointer. */
  method StoreQuad(mem: array<UInt8>, base: nat, image: nat, quadR: UInt32, quadG: UInt32, quadB: UInt32,
          bigEndian: bool)
    requires image + 12 <= mem.Length && (base + image) % 4 == 0
    modifies mem
    ensures Written(old(mem[..]), mem[..], image, QuadBytes(quadR, quadG, quadB, bigEndian))
  {
    hide Stored;
    StoreWord(mem, base, image + 4 * RTriple(bigEndian), quadR, bigEndian);
    StoreWord(mem, base, image + 4, quadG, bigEndian);
    StoreWord(mem, base, image + 4 * BTriple(bigEndian), quadB, bigEndian);
  }

  lemma FourPixels(m: seq<UInt8>, m': seq<UInt8>, at: nat, p: seq<UInt8>, q: seq<UInt8>)
    requires |p| == 3 && q == p + p + p + p && Written(m, m', at, q)
    ensures Filled(m, m', at, p, 4)
  {
  }

  /** One turn of the word loop. */
  method FillQuad(mem: array<UInt8>, base: nat, image: nat, quadR: UInt32, quadG: UInt32, quadB: UInt32,
          bigEndian: bool, ghost p: seq<UInt8>)
    requires image + 12 <= mem.Length && (base + image) % 4 == 0
    requires |p| == 3 && QuadBytes(quadR, quadG, quadB, bigEndian) == p + p + p + p
    modifies mem
    ensures Filled(old(mem[..]), mem[..], image, p, 4)
  {
    hide QuadBytes, Filled, Written;
    ghost var m := mem[..];
    StoreQuad(mem, base, image, quadR, quadG, quadB, bigEndian);
    FourPixels(m, mem[..], image, p, QuadBytes(quadR, quadG, quadB, bigEndian));
  }

  lemma StillAligned(a: nat)
    requires a % 4 == 0
    ensures (a + 12) % 4 == 0
  {
  }

  /** The word loop: quadCount groups of four pixels. */
  method FillQuads(mem: array<UInt8>, base: nat, image0: nat, r: UInt8, g: UInt8, b: UInt8, quadCount: nat,
          bigEndian: bool)
    requires image0 + 12 * quadCount <= mem.Length && (base + image0) % 4 == 0
    modifies mem
    ensures Filled(old(mem[..]), mem[..], image0, Pixel(r, g, b, bigEndian), 4 * quadCount)
  {
    ghost var m, p := mem[..], Pixel(r, g, b, bigEndian);
    assert Filled(m, mem[..], image0, p, 0);
    hide QuadBytes, Pixel, Filled, Written;
    var quadR, quadG, quadB := MakeQuads(r, g, b, bigEndian);
    var image := image0;
    for i := 0 to quadCount
      invariant image == image0 + 12 * i && (base + image) % 4 == 0
      invariant Filled(m, mem[..], image0, p, 4 * i)
    {
      ghost var m' := mem[..];
      StillAligned(base + image);
      FillQuad(mem, base, image, quadR, quadG, quadB, bigEndian, p);
      FilledMore(m, m', mem[..], image0, p, 4 * i, 4);
      image := image + 12;
    }
  }

  /** The byte loop: count pixels. */
  method FillSlowly(mem: array<UInt8>, image0: nat, r: UInt8, g: UInt8, b: UInt8, count: nat, bigEndian: bool)
    requires count > 0 ==> image0 + 3 * count <= mem.Length
    modifies mem
    ensures Filled(old(mem[..]), mem[..], image0, Pixel(r, g, b, bigEndian), count)
  {
    ghost var m, p := mem[..], Pixel(r, g, b, bigEndian);
    assert Filled(m, mem[..], image0, p, 0);
    hide Pixel, Filled;
    var image := image0;
    for i := 0 to count
      invariant image == image0 + 3 * i
      invariant Filled(m, mem[..], image0, p, i)
    {
      ghost var m' := mem[..];
      SetRGBTriple(mem, image, r, g, b, bigEndian);
      FilledMore(m, m', mem[..], image0, p, i, 1);
      image := image + 3;
    }
  }

  /** The slow copy until the address is a multiple of four: at most three
      pixels, because each lowers the address modulo four by one. */
  method FillToAlignment(mem: array<UInt8>, base: nat, image0: nat, r: UInt8, g: UInt8, b: UInt8, bigEndian: bool)
    returns (done: nat)
    requires image0 + 9 <= mem.Length
    modifies mem
    ensures done <= 3 && (base + image0 + 3 * done) % 4 == 0
    ensures Filled(old(mem[..]), mem[..], image0, Pixel(r, g, b, bigEndian), done)
  {
    ghost var m, p := mem[..], Pixel(r, g, b, bigEndian);
    assert Filled(m, mem[..], image0, p, 0);
    hide Pixel, Filled;
    var image := image0;
    done := 0;
    while (base + image) % 4 != 0
      invariant done <= 3 && (done > 0 ==> (base + image) % 4 <= 3 - done)
      invariant image == image0 + 3 * done
      invariant Filled(m, mem[..], image0, p, done)
      decreases (base + image) % 4
    {
      ghost var m' := mem[..];
      SetRGBTriple(mem, image, r, g, b, bigEndian);
      FilledMore(m, m', mem[..], image0, p, done, 1);
      image := image + 3;
      done := done + 1;
    }
  }

  /** The fast part: pixels up to a word boundary, then all the groups of four; fewer
      than four are left. */
  method FillFast(mem: array<UInt8>, base: nat, image: nat, r: UInt8, g: UInt8, b: UInt8, count: nat, bigEndian: bool)
    returns (done: nat, left: nat)
    requires count > MIN_COUNT_FOR_QUADS && image + 3 * count <= mem.Length
    modifies mem
    ensures done + left == count && left < 4
    ensures Filled(old(mem[..]), mem[..], image, Pixel(r, g, b, bigEndian), done)
  {
    hide Pixel, Filled;
    ghost var m, p := mem[..], Pixel(r, g, b, bigEndian);
    done := FillToAlignment(mem, base, image, r, g, b, bigEndian);
    var quadCount := (count - done) / 4;
    ghost var m1 := mem[..];
    FillQuads(mem, base, image + 3 * done, r, g, b, quadCount, bigEndian);
    FilledMore(m, m1, mem[..], image, p, done, 4 * quadCount);
    left := (count - done) % 4;
    done := done + 4 * quadCount;
  }

  /** Main theorem: exactly count copies of the pixel are written and no other
      byte, from any start address, in either byte order; every word store is
      aligned. A count below one writes nothing. */
  method RGBTripleFill(mem: array<UInt8>, base: nat, image0: nat, r: UInt8, g: UInt8, b: UInt8, count0: int,
          bigEndian: bool)
    requires count0 > 0 ==> image0 + 3 * count0 <= mem.Length
    modifies mem
    ensures Filled(old(mem[..]), mem[..], image0, Pixel(r, g, b, bigEndian), if count0 > 0 then count0 else 0)
    ensures forall j :: 0 <= j < mem.Length ==>
      mem[j] == if j < image0 || j >= image0 + 3 * count0 then old(mem[j])
                else if (j - image0) % 3 == 1 then g
                else if (j - image0) % 3 == 0 <==> bigEndian then r
                else b
  {
    ghost var m, p := mem[..], Pixel(r, g, b, bigEndian);
    assert Filled(m, mem[..], image0, p, 0);
    hide Pixel, Filled;
    var image, count, done := image0, count0, 0;
    if count > MIN_COUNT_FOR_QUADS {
      done, count := FillFast(mem, base, image, r, g, b, count, bigEndian);
      image := image + 3 * done;
    }
    ghost var m2 := mem[..];
    FillSlowly(mem, image, r, g, b, if count > 0 then count else 0, bigEndian);
    FilledMore(m, m2, mem[..], image0, p, done, if count > 0 then count else 0);
    FilledBytes(m, mem[..], image0, r, g, b, bigEndian, if count0 > 0 then count0 else 0);
  }
}
