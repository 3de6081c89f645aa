# Verified models of the Nuon SDK's low-level code

Dafny models of the dense, self-contained code in the VM Labs SDK, one module
per source file or component, each proved against what its documentation, its
callers or a standard expect of it.

- **JPEG entropy coding** (`BitStream`, `HuffTable`, `HuffDerived`, `BitReader`,
  `BitWriter`, `HuffBlock`, `HuffCodec`, `HuffScan`, `HuffCoder`). Derived
  Huffman tables, the bit reader and writer, and the sequential encoder and
  decoder. The reader's bits are a stream fixed by the bytes; table lookup, slow
  decoding and skipping are all proved against bit-by-bit decoding of that
  stream (section F.2.2.3 of ITU-T T.81, codes as in its Annex C). The main
  result is end to end: what the encoder writes, byte stuffing and padding
  included, the decoder reads back.
- **Optimal Huffman tables** (`HuffCounts`, `HuffLengths`, `HuffDepths`,
  `HuffLimit`, `HuffOptimal`, `HuffGather`, `HuffTwoPass`, `HuffPrice`). The
  statistics pass, Huffman's algorithm on linked chains of leaves, the limit of
  16 bits (section K.2 of ITU-T T.81), and their use. The algorithm is proved
  optimal, its pseudo-symbol deepest and its code lengths bounded by Fibonacci
  numbers; what limiting the lengths leaves is determined by the lengths. A scan
  encoded with the tables made from its own counts never lacks a code word,
  decodes to itself unless an AC coefficient is -32768, and is as short as with
  any other tables but for what the pseudo-symbol costs.
- **Soft-float multiplication** (`SoftFloat`). `mulsf3` with both of its
  normalisation tests, against the exact product over all finite words.
- **hsRandom** (`Random`). Periods of the linear congruential generator.
- **hsWide** (`Wide`). 64-bit arithmetic in two words, against integers.
- **hsTArray** (`TArrays`). The growable array as a sequence, and the cost of
  appending.
- **Descriptors** (`Descriptor`). Building, walking and comparing
  tag-length-value records in memory, in either byte order.
- **Pixel blending** (`Blend`), **24-bit fill** (`TripleFill`), **span blitting**
  (`RegionSpans`), **unrolled copies** (`TLoops`).

`Bits` and `Bytes` hold the arithmetic underneath: words are integers in range,
the bitwise operators are recursive functions, and every wrap to 32 bits is
written out. `int` and `long` are 32 bits wide.

Where the code and its documentation disagree, the model follows the code:

- The header of float-mul-test.c says that the broken part is commented out. The
  test that is compiled (line 52) is the broken one; line 53, commented out, is
  the test that rounds correctly. Both are modelled, and
  `SoftFloat.CompiledTestCorrectIff` says exactly when the compiled one fails.
- hsRandom.h says that the signed results are in -1..1. `NextSFixed` covers
  -1/2..1/2 (`Random.SignedFixedRange`).
- The sequential encoder accepts every JCOEF. An AC coefficient of -32768 needs
  16 bits, which its symbol cannot express (`HuffBlock.SixteenBitsLost`). The
  round trip holds exactly without it, for blocks (`HuffScan.BlockRoundTripIff`)
  and whole scans (`HuffScan.ScanRoundTripIff`); `HuffCoder.LossyRun` is a run
  where it fails.
- jchuff.c doubts that a code word of more than 32 bits can come out
  ("assumed maximum initial code length"). It can (`HuffOptimal.LongCodesOccur`),
  and `HuffOptimal.FewCounts` says below which counts it cannot.
- jchuff.c promises the best possible tables and calls the limit of 16 bits not
  optimal. The tables are optimal, for the counts with the pseudo-symbol's,
  where no length is limited (`HuffOptimal.TableIsOptimal`); for the scan itself
  the pseudo-symbol makes a difference of at most 15 bits a table
  (`HuffPrice.NoTablesBetter`).
- jchuff.c says that it is not clear why the lengths changed by the 16-bit limit
  need not be considered when the symbols are listed. Any order would decode:
  `HuffOptimal.TableMade` needs only that the list has every symbol, and that the
  lengths have as many code words.
- `SetCount` beyond the capacity drops the contents of an hsTArray, and
  `BlendARGB` with alpha 0 can darken a pixel (`Blend.ZeroAlphaKeepsIff`).

A `ghost` parameter or field of a method is specification only. Methods that
split one source function into steps (for instance `FillQuads`, `MergeBits`,
`StoreRec`, `EncodeCoef`, `GenOnce`) carry the loop or branch of the same lines.

## Model

| member | source | states |
|---|---|---|
| `HuffTwoPass.TwoPass` | vmlabs/lib/src/jpeg/jchuff.c:519-810 | for every scan whose DC differences the decoder can extend: counting its symbols, making optimal tables, encoding with them and decoding the bytes never lacks a code word; it comes through exactly if Huffman's algorithm needs no code word over 32 bits for an AC table, and always up to 146467 blocks. Without an AC coefficient of -32768 every block shows what the use of its component calls for; with all components wanted, the blocks come back exactly then |
| `HuffTwoPass.FirstPass` | vmlabs/lib/src/jpeg/jchuff.c:519-810 | the tables of the first pass can encode the scan, -32768 included; each is made for the counts of the scan, lists exactly their symbols, and unless a length had to be limited gives every symbol the length of a code that no prefix code for the counts and the pseudo-symbol undercuts |
| `HuffPrice.NoTablesBetter` | vmlabs/lib/src/jpeg/jchuff.c:516-530 | the bits of a scan coded with the tables made from its counts, none of whose lengths had to be limited, are at most 15 a table more than with any other prefix-code tables that spare the word of all ones and can code it |
| `HuffPrice.ScanLength` | vmlabs/lib/src/jpeg/jchuff.c:516-530 | for any tables, the encoded scan is as long as its counted symbols cost, plus value bits that no table changes: what is counted is what is paid |
| `HuffPrice.AcLength` | vmlabs/lib/src/jpeg/jchuff.c:357-402 | the same for the AC coefficients of a block, from any position with any run pending |
| `HuffPrice.ScanNeeds` | vmlabs/lib/src/jpeg/jchuff.c:519-523 | if a scan can be coded, every symbol that is counted for it has a code word |
| `HuffPrice.TableWeight` | vmlabs/lib/src/jpeg/jchuff.c:659-663 | every prefix code that spares the word of all ones has room for a pseudo-symbol of 16 bits |
| `HuffPrice.TableNotDearer` | vmlabs/lib/src/jpeg/jchuff.c:635-639 | the lengths of Huffman's algorithm against those of any such table, for the counts without the pseudo-symbol's |
| `HuffTwoPass.ScanServedCoded` | vmlabs/lib/src/jpeg/jchuff.c:519-523 | if every symbol that is counted for a scan has a code word, the scan can be encoded: the counting agrees with the coding |
| `HuffTwoPass.McuServedCoded` | vmlabs/lib/src/jpeg/jchuff.c:604-631 | the same for the blocks of an MCU |
| `HuffTwoPass.HuffGatherer.EncodeMcuGather` | vmlabs/lib/src/jpeg/jchuff.c:604-631 | adds exactly the uses of the MCU to each table's counts, for every JCOEF |
| `HuffTwoPass.GatherScan` | vmlabs/lib/src/jpeg/jchuff.c:604-631 | after all MCUs the counts are exactly the uses of the scan |
| `HuffTwoPass.FinishPassGather` | vmlabs/lib/src/jpeg/jchuff.c:782-817 | each table is made once, from the counts as they were; fails exactly where a code word would be too long |
| `HuffTwoPass.CountableIf` | vmlabs/lib/src/jpeg/jchuff.c:604-631 | the counts of a scan suit the table generator: some symbol, fewer than 255 of them, and a bounded sum |
| `HuffTwoPass.FewAcSymbolsIf` | vmlabs/lib/src/jpeg/jchuff.c:562-595 | without -32768 an AC table is needed for at most 254 symbols, so the byte-wide length counts cannot wrap |
| `HuffTwoPass.OrdinaryBlocks` | vmlabs/lib/src/jpeg/jchuff.c:332-392 | what the two passes ask of the blocks is met by all blocks without -32768 whose DC coefficients have at most 15 bits with the sign |
| `HuffTwoPass.AllShownIs` | vmlabs/lib/src/jpeg/jdhuff.c:469-539 | what every block shows after the two passes, by the use of its component |
| `HuffTwoPass.DcCounts` | vmlabs/lib/src/jpeg/jchuff.c:539-560 | a DC table is needed for at most 17 symbols, so it never fails; where the differences fit 15 bits for at most 16, and then no length is limited |
| `HuffTwoPass.ScanShortIf` | vmlabs/lib/src/jpeg/jchuff.c:716-722 | a scan of up to 146467 blocks never leads to code words over 32 bits |
| `HuffGather.AcCodedIff` | vmlabs/lib/src/jpeg/jchuff.c:519-523 | a block can be coded exactly if every AC symbol that is counted for it has a code word |
| `HuffGather.HtestOneBlock` | vmlabs/lib/src/jpeg/jchuff.c:539-596 | each DC and AC symbol is counted as often as encode_one_block would emit it |
| `HuffGather.CountAc` | vmlabs/lib/src/jpeg/jchuff.c:562-595 | the AC counts of a block |
| `HuffGather.NoOtherZeroSizes` | vmlabs/lib/src/jpeg/jchuff.c:562-595 | no block without a 16-bit coefficient needs a symbol of size 0 other than end-of-block and run-length-16 |
| `HuffGather.OnlyIndexable` | vmlabs/lib/src/jpeg/jchuff.c:379-392 | a block whose runs and sizes make one of the 256 symbols counts no other |
| `HuffOptimal.GenOptimalTable` | vmlabs/lib/src/jpeg/jchuff.c:641-775 | fails exactly if Huffman's algorithm needs a code word over 32 bits; otherwise the table is a prefix code that spares the all-ones words and lists exactly the symbols with a count, by depth in Huffman's tree and equal depths by symbol. A length has fewer code words than the tree has symbols of that depth only if at most two of each longer length up to 15 are left; with no depth over 17 and enough symbols at 15, only 15 and 16 change; and unless a length over 16 had to be limited, every code word has its symbol's length in a code that no prefix code for the counts and the pseudo-symbol undercuts |
| `HuffOptimal.TableLengths` | vmlabs/lib/src/jpeg/jchuff.c:716-758 | what the lengths of the table are in terms of the depths of Huffman's tree: kept below some length m, fewer at m, one at most or two from there to 15, complete, and one of the longest given up for the pseudo-symbol |
| `HuffOptimal.TableKeeps` | vmlabs/lib/src/jpeg/jchuff.c:716-771 | the same in terms of the table alone, and the order of its symbols |
| `HuffOptimal.TableIsOptimal` | vmlabs/lib/src/jpeg/jchuff.c:635-639 | unless a length had to be limited, the code word of every symbol in the finished table has exactly the length that Huffman's algorithm gave it: what is removed is the pseudo-symbol's word and no other |
| `HuffLengths.HuffmanIsOptimal` | vmlabs/lib/src/jpeg/jchuff.c:519-523 | for all counts and all lengths of a prefix code for the symbols with a count, the lengths of Huffman's algorithm cost no more bits |
| `HuffLengths.Siblings` | vmlabs/lib/src/jpeg/jchuff.c:665-696 | from every prefix code, one that is no dearer and has the two rarest symbols at the same depth |
| `HuffLengths.RoomAbove` | vmlabs/lib/src/jpeg/jchuff.c:724-737 | a deepest leaf that is alone can move up a level: the longest code words come in pairs |
| `HuffLengths.SiblingsMerged` | vmlabs/lib/src/jpeg/jchuff.c:694-696 | merging two siblings saves their counts in bits and keeps the weight |
| `HuffLengths.SizesAreDepths` | vmlabs/lib/src/jpeg/jchuff.c:698-712 | raising the code sizes of whole branches is computing depths in the tree of the merges |
| `HuffLengths.HuffmanIsComplete` | vmlabs/lib/src/jpeg/jchuff.c:665-713 | exactly the symbols with a count get a length, and the code is complete |
| `HuffDepths.PseudoDeepest` | vmlabs/lib/src/jpeg/jchuff.c:659-663 | the pseudo-symbol is placed in the largest code word category, whatever the counts and ties |
| `HuffDepths.PseudoStaysLowest` | vmlabs/lib/src/jpeg/jchuff.c:665-713 | the same from any stage of the merging on |
| `HuffDepths.LengthBound` | vmlabs/lib/src/jpeg/jchuff.c:716-722 | a code word of k + 1 bits needs counts of at least the Fibonacci number k + 3 in all |
| `HuffDepths.LadderDepth` | vmlabs/lib/src/jpeg/jchuff.c:716-722 | the bound is sharp for every length up to 256: Fibonacci counts, the greatest first, reach it |
| `HuffDepths.UsedBound` | vmlabs/lib/src/jpeg/jchuff.c:716-722 | no code word is longer than the number of the other symbols |
| `HuffOptimal.LongCodesOccur` | vmlabs/lib/src/jpeg/jchuff.c:716-722 | the overflow that the source doubts does happen: 33 symbols with counts of 9227464 in all, which the generator accepts, and no code of up to 32 bits |
| `HuffOptimal.FewCounts` | vmlabs/lib/src/jpeg/jchuff.c:716-727 | counts of up to 9227463 in all never overflow, and counts of up to 4179 need no limiting |
| `HuffOptimal.FewSymbols` | vmlabs/lib/src/jpeg/jchuff.c:716-727 | nor do up to 32 symbols, or up to 16 |
| `HuffOptimal.AssignSizes` | vmlabs/lib/src/jpeg/jchuff.c:665-713 | the linked-list trees compute Huffman's algorithm on the map from symbols to trees; the lengths make a complete prefix code for exactly the symbols with a count, and no prefix code for them takes fewer bits |
| `HuffOptimal.LeastCount` | vmlabs/lib/src/jpeg/jchuff.c:668-677 | the least non-zero count, the larger symbol of equals |
| `HuffCounts.LeastPair` | vmlabs/lib/src/jpeg/jchuff.c:668-696 | the two searches find the two least counts, ties to the larger symbol, and fail exactly when one tree is left |
| `HuffOptimal.LowerBranch` | vmlabs/lib/src/jpeg/jchuff.c:698-712 | following the links lowers exactly the leaves of one tree |
| `HuffOptimal.ChainsJoined` | vmlabs/lib/src/jpeg/jchuff.c:704-706 | linking the end of one chain to the start of the other gives the chain of the merged tree |
| `HuffLimit.PrefixCodeIff` | vmlabs/lib/src/jpeg/jdhuff.c:157-170 | a table is a prefix code exactly if its Kraft sum is at most one, and spares the all-ones words exactly if it is below one |
| `HuffLimit.KraftIsNextCode` | vmlabs/lib/src/jpeg/jchuff.c:199-208 | the next free code word of figure C.2 measures how much of the code space is taken |
| `HuffLimit.LimitLengths` | vmlabs/lib/src/jpeg/jchuff.c:738-749 | a complete code of up to 32 bits becomes a complete code of as many symbols with up to 16. Below some length m every number of code words is kept; at m it is less; from there to 15 one code word of a length is left at most, or two if no longer one is. With none above 17 and enough of 15, the pairs of 17 each take one from 15 and give three to 16, and nothing else changes |
| `HuffLimit.TrimmedUnique` | vmlabs/lib/src/jpeg/jchuff.c:738-749 | only one complete code for a number of symbols is trimmed so: whatever the order of the turns, the excess over 16-bit words determines the sparse lengths as a number does its digits |
| `HuffLimit.LimitedTrims` | vmlabs/lib/src/jpeg/jchuff.c:738-749 | the adjustment, from any stage of it, leaves such a code |
| `HuffLimit.LimitedFrom17` | vmlabs/lib/src/jpeg/jchuff.c:738-749 | when no code word is over 17 bits and there are enough of 15, one of these is split for each pair of 17 bits, and nothing else changes |
| `HuffLimit.SplitShorter` | vmlabs/lib/src/jpeg/jchuff.c:739-748 | one turn: two code words of length i go and one of i - 1 comes; of the shorter ones up to i - 2 it is a longest that is split, and every other count stays; no count wraps |
| `HuffLimit.LongestPaired` | vmlabs/lib/src/jpeg/jchuff.c:739-744 | the number of the longest code words of a complete code is even |
| `HuffLimit.ShorterCode` | vmlabs/lib/src/jpeg/jchuff.c:740-742 | above 16 bits there is always a shorter code word to split, so the search for it ends |
| `HuffLimit.PairRemovedKraft` | vmlabs/lib/src/jpeg/jchuff.c:744-745 | two code words give way to their prefix: same Kraft sum, one code word less |
| `HuffLimit.CodeSplitKraft` | vmlabs/lib/src/jpeg/jchuff.c:746-747 | a code word becomes a prefix of two: same Kraft sum, one code word more; which one is split, SplitShorter says |
| `HuffLimit.RemovePseudo` | vmlabs/lib/src/jpeg/jchuff.c:751-754 | one of the longest code words is given up, and the Kraft sum falls below one |
| `HuffOptimal.CountSizes` | vmlabs/lib/src/jpeg/jchuff.c:716-725 | the number of symbols of each length, without wrapping; fails exactly for a length over 32 |
| `HuffOptimal.ListSymbols` | vmlabs/lib/src/jpeg/jchuff.c:762-771 | exactly the symbols with a count, shorter code words first and smaller symbols before larger ones of the same length |
| `HuffOptimal.TableMade` | vmlabs/lib/src/jpeg/jchuff.c:756-771 | lengths and symbols together are a table for the counts |
| `HuffCoder.ThereAndBack` | vmlabs/lib/src/jpeg/jchuff.c:437-486 | for all prefix-code tables, all MCU sequences of 8x8 blocks the encoder can take, any marker and any trailing bytes: encoding fails exactly if a needed symbol has no code word; otherwise, without an AC coefficient of -32768, decoding the bytes written gives back every block, in full, DC only or blank as its component is used, and with all components wanted the blocks come back exactly then |
| `HuffCoder.LossyRun` | vmlabs/lib/src/jpeg/jchuff.c:379-392 | tables and a block with -32768 that the encoder accepts and the decoder gets wrong, through the bytes |
| `HuffScan.BytesRoundTrip` | vmlabs/lib/src/jpeg/jdhuff.c:437-550 | the same as a law of the coded bytes: pad, pack, stuff, append a marker and anything; unstuffing and decoding shows the blocks, and with all components wanted returns them exactly if no AC coefficient is -32768 |
| `HuffScan.ScanRoundTrip` | vmlabs/lib/src/jpeg/jdhuff.c:437-550 | MCU by MCU on bit streams, with the DC predictions of encoder and decoder in step for every component that is needed |
| `HuffScan.ScanRoundTripIff` | vmlabs/lib/src/jpeg/jdhuff.c:437-550 | with all components wanted, a scan comes back exactly if no AC coefficient of it is -32768 |
| `HuffScan.McuRoundTripIff` | vmlabs/lib/src/jpeg/jdhuff.c:460-540 | the same for the blocks of an MCU |
| `HuffScan.McuRoundTrip` | vmlabs/lib/src/jpeg/jdhuff.c:460-540 | block by block within an MCU: blocks, end position and predictions |
| `HuffScan.BlockRoundTripIff` | vmlabs/lib/src/jpeg/jchuff.c:321-404 | a block that is wanted in full comes back exactly if none of its AC coefficients is -32768 |
| `HuffScan.BlockRoundTrip` | vmlabs/lib/src/jpeg/jdhuff.c:469-539 | full, DC-only and skipped components all show what they should, and all stop at the same bit |
| `HuffScan.OneBlockMore` | vmlabs/lib/src/jpeg/jchuff.c:332-404 | the code of one more block of an MCU: the size and value of its DC difference from the last block of its component, or from the prediction the MCU starts with, then its AC coefficients |
| `HuffScan.OneMcuMore` | vmlabs/lib/src/jpeg/jchuff.c:457-468 | the code of one more MCU, predicted by the last blocks of each component in the MCU before it |
| `HuffScan.ShownBlocks` | vmlabs/lib/src/jpeg/jdhuff.c:469-539 | what a component shows: all coefficients, its DC coefficient and zeros, or zeros |
| `HuffScan.NoneLostIs` | vmlabs/lib/src/jpeg/jchuff.c:379-392 | nothing is lost exactly if no coefficient but the DC coefficient of a block is -32768 |
| `HuffCoder.HuffEncoder.EncodeMcu` | vmlabs/lib/src/jpeg/jchuff.c:437-486 | appends the code of the MCU and updates the predictions; on failure the saved state is untouched |
| `HuffCoder.HuffEncoder.FinishPass` | vmlabs/lib/src/jpeg/jchuff.c:493-513 | the output is the whole bit string, filled up with ones to a byte, packed and stuffed |
| `HuffCoder.HuffDecoder.DecodeMcu` | vmlabs/lib/src/jpeg/jdhuff.c:436-550 | the blocks, position and predictions of the stream function; fails only if the data run dry before a marker, and then changes no permanent state |
| `HuffCoder.DecodeBlock` | vmlabs/lib/src/jpeg/jdhuff.c:462-539 | the block loop with its two shortcuts (component not needed, DC only) |
| `HuffCoder.EncodeScan` | vmlabs/lib/src/jpeg/jchuff.c:437-513 | a run of MCUs and the end of the pass |
| `HuffCoder.DecodeScan` | vmlabs/lib/src/jpeg/jdhuff.c:436-550 | a run of MCUs read back |
| `HuffBlock.AcRoundTripIff` | vmlabs/lib/src/jpeg/jchuff.c:357-402 | decoding the code of the AC coefficients, from any position with any run pending, yields them exactly if none is -32768, and reads to the end of the code |
| `HuffBlock.SixteenBitsLost` | vmlabs/lib/src/jpeg/jchuff.c:379-392 | -32768 takes the symbol of a longer zero run without a value and is always lost |
| `HuffBlock.ZeroSizeSymbol` | vmlabs/lib/src/jpeg/jdhuff.c:495-512 | in any stream, a symbol of size 0 skips sixteen positions if its run is fifteen, and ends the block otherwise |
| `HuffBlock.ZrlSkip` | vmlabs/lib/src/jpeg/jchuff.c:365-370 | each run-length-16 code skips sixteen positions and nothing else |
| `HuffBlock.CoefStep` | vmlabs/lib/src/jpeg/jdhuff.c:495-516 | run, size and value bits of a coefficient store it at its natural position |
| `HuffBlock.AcKeeps` | vmlabs/lib/src/jpeg/jdhuff.c:495-516 | reading on never touches a position already passed, overlong runs included |
| `HuffBlock.StoredApart` | vmlabs/lib/src/jpeg/jutils.c:43-62 | positions past the end of the zigzag table all map to 63 and to no earlier position |
| `HuffBlock.AcPosIndependent` | vmlabs/lib/src/jpeg/jdhuff.c:518-538 | where the coefficients of a block end does not depend on the block they are stored in, so discarding them is the same as reading them |
| `HuffBlock.DcRoundTrip` | vmlabs/lib/src/jpeg/jchuff.c:328-355 | the DC difference comes back, from every prefix code |
| `HuffBlock.ExtendUndoes` | vmlabs/lib/src/jpeg/jdhuff.c:361-384 | HUFF_EXTEND undoes the complement that the encoder takes of negative values, for every non-zero value |
| `HuffBlock.CodeDecodes` | vmlabs/lib/src/jpeg/jchuff.c:222-232 | the code word of every symbol decodes to that symbol and its own length, whatever follows it |
| `HuffBlock.TableIsZigzag` | vmlabs/lib/src/jpeg/jutils.c:53-62 | the natural-order table is the walk along the diagonals of figure 5 of T.81 |
| `HuffBlock.ZigzagOfNatural` | vmlabs/lib/src/jpeg/jutils.c:26-62 | the zigzag table is a left inverse of the natural-order table |
| `HuffBlock.NaturalOfZigzag` | vmlabs/lib/src/jpeg/jutils.c:26-62 | and a right inverse, so no coefficient is left out |
| `HuffBlock.SizeOf` | vmlabs/lib/src/jpeg/jchuff.c:340-345 | sizes are at most 16, 0 only for 0, and at most 15 exactly for magnitudes below 2^15 |
| `HuffCodec.EncodeOneBlock` | vmlabs/lib/src/jpeg/jchuff.c:321-404 | fails exactly if a symbol it needs has no code word; otherwise emits the DC and AC code of the block |
| `HuffCodec.EncodeAc` | vmlabs/lib/src/jpeg/jchuff.c:357-402 | the coefficient loop emits the recursive code of the block |
| `HuffCodec.EmitRuns` | vmlabs/lib/src/jpeg/jchuff.c:365-370 | run-length-16 codes for r / 16, leaving r % 16 |
| `HuffCodec.CountBits` | vmlabs/lib/src/jpeg/jchuff.c:340-345 | the DC loop counts the bits of the magnitude |
| `HuffCodec.CountCoefBits` | vmlabs/lib/src/jpeg/jchuff.c:379-382 | the AC loop, which starts at one, counts the same |
| `HuffCodec.DecodeDc` | vmlabs/lib/src/jpeg/jdhuff.c:471-477 | the DC difference of the stream function |
| `HuffCodec.DecodeAc` | vmlabs/lib/src/jpeg/jdhuff.c:492-516 | the coefficients of the stream function, stored in natural order; the cast to JCOEF never cuts |
| `HuffCodec.SkipAc` | vmlabs/lib/src/jpeg/jdhuff.c:518-538 | stops where decoding would have stopped |
| `HuffCodec.HuffExtendIsExtend` | vmlabs/lib/src/jpeg/jdhuff.c:372-382 | the two 16-entry tables are figure F.12 of T.81 for sizes 1 to 15, and results fit a JCOEF |
| `HuffCodec.HasCodeIff` | vmlabs/lib/src/jpeg/jchuff.c:222-232 | the symbols that can be coded are those the table lists |
| `HuffCodec.LargeDifferenceRefused` | vmlabs/lib/src/jpeg/jchuff.c:347-349 | with a DC table of sizes up to 15, a difference that the decoder could not extend is refused by the encoder |
| `BitReader.Reader.HuffDecode` | vmlabs/include/jpeg/jdhuff.h:181-201 | all three routes - lookahead hit, slow decode from 9 bits after a miss, slow decode from 1 bit near the end of the data - return the symbol and consume the bits of bit-by-bit decoding |
| `BitReader.Reader.SlowDecode` | vmlabs/lib/src/jpeg/jdhuff.c:321-358 | bit-sequential decoding from any length that no shorter code word forestalls; the sentinel ends it on garbage, which decodes as 0 |
| `BitReader.LookaheadAgrees` | vmlabs/lib/src/jpeg/jdhuff.c:187-207 | a lookahead entry is the code word the stream has, and a zero entry means there is none of up to 8 bits |
| `BitReader.NotThisLength` | vmlabs/lib/src/jpeg/jdhuff.c:335-341 | a value above maxcode is no code word of its length |
| `BitReader.ThisLength` | vmlabs/lib/src/jpeg/jdhuff.c:343-357 | the first value not above maxcode is the code word, found at valptr + (code - mincode) |
| `BitReader.Reader.GetBits` | vmlabs/include/jpeg/jdhuff.h:149-150 | the next bits of the stream, consumed |
| `BitReader.Reader.PeekBits` | vmlabs/include/jpeg/jdhuff.h:152-153 | the same bits, left in place |
| `BitReader.Reader.DropBits` | vmlabs/include/jpeg/jdhuff.h:155-156 | consumes bits, so that peek then drop is get |
| `BitReader.Reader.CheckBitBuffer` | vmlabs/include/jpeg/jdhuff.h:143-147 | enough bits without moving in the stream, or the source ran dry before a marker |
| `BitReader.Reader.FillBitBuffer` | vmlabs/lib/src/jpeg/jdhuff.c:233-314 | fills to at least the bits asked for, inventing zeros only behind a marker; on failure nothing has changed |
| `BitReader.ReadByte` | vmlabs/lib/src/jpeg/jdhuff.c:252-280 | the byte after a run of FF decides: 0 means the data byte FF, any other byte is a marker code, and the end of the data means neither, however long the run is |
| `BitReader.FetchRun` | vmlabs/lib/src/jpeg/jdhuff.c:252-280 | the same of the specification: any number of fill bytes is skipped |
| `BitReader.FetchForBuffer` | vmlabs/lib/src/jpeg/jdhuff.c:243-300 | the next byte of the unstuffed payload, or the marker that ends it |
| `BitReader.ExtractIsVal` | vmlabs/include/jpeg/jdhuff.h:149-153 | neither stale high bits nor the sign of the 32-bit buffer are ever visible |
| `BitReader.ShiftInValue` | vmlabs/lib/src/jpeg/jdhuff.c:302-304 | shifting a byte in is multiplying by 256 and adding, modulo 2^32 |
| `BitWriter.Writer.EmitBits` | vmlabs/lib/src/jpeg/jchuff.c:269-305 | fails exactly for size 0; otherwise appends the low bits of the code to the emitted string, of which the output is the stuffed whole bytes |
| `BitWriter.Writer.FlushBits` | vmlabs/lib/src/jpeg/jchuff.c:308-316 | only ones are added, fewer than eight, up to a whole byte; the output is all the bytes, stuffed |
| `BitWriter.Merged` | vmlabs/lib/src/jpeg/jchuff.c:282-288 | new bits fall below the pending ones, so or-ing them in is appending |
| `BitWriter.TopByte` | vmlabs/lib/src/jpeg/jchuff.c:290-299 | the byte taken out is the next eight bits of the string |
| `BitWriter.PayloadOfStuffed` | vmlabs/lib/src/jpeg/jdhuff.c:252-280 | the reader's unstuffing finds exactly the bytes that were stuffed, up to the marker behind them |
| `BitWriter.UnpackPacked` | vmlabs/lib/src/jpeg/jchuff.c:290-299 | packing whole bytes loses no bit |
| `HuffDerived.MakeDDerivedTbl` | vmlabs/lib/src/jpeg/jdhuff.c:127-208 | limits, value pointers and lookahead entries are those of the canonical code, for every table whose code words of up to 8 bits fit the lookahead table |
| `HuffDerived.MakeCDerivedTbl` | vmlabs/lib/src/jpeg/jchuff.c:178-233 | every listed symbol, and no other, gets a code word that stands for it |
| `HuffDerived.FigureC1` | vmlabs/lib/src/jpeg/jdhuff.c:147-155 | the code lengths in order, and a final zero |
| `HuffDerived.FigureC2` | vmlabs/lib/src/jpeg/jdhuff.c:157-170 | the canonical code words, skipping unused lengths |
| `HuffDerived.FigureF15` | vmlabs/lib/src/jpeg/jdhuff.c:172-185 | mincode, maxcode and valptr |
| `HuffDerived.FillLookahead` | vmlabs/lib/src/jpeg/jdhuff.c:187-207 | the table fills from 0 up without a gap, without overwriting an entry and without leaving its 256 entries |
| `HuffDerived.LookaheadComplete` | vmlabs/lib/src/jpeg/jdhuff.c:187-207 | every index that starts with a short code word has an entry |
| `HuffTable.DecodeFinds` | vmlabs/include/jpeg/jdhuff.h:40-46 | a code word that the stream has is what bit-by-bit decoding finds |
| `HuffTable.PrefixFree` | vmlabs/include/jpeg/jdhuff.h:40-46 | at most one code word starts at any place of any stream |
| `HuffTable.FirstCodeGrows` | vmlabs/lib/src/jpeg/jdhuff.c:157-170 | codes of a length lie above all extensions of shorter ones |
| `HuffTable.NotBelowFirst` | vmlabs/lib/src/jpeg/jdhuff.c:335-341 | bits that match no shorter code word are never below mincode |
| `SoftFloat.CorrectlyRounded` | src/float-mul-fix/float-mul-test.c:37-66 | with the line-53 test, whenever the rounded result is a normal number, no finite word is nearer to the exact product than the word returned, and none as near is larger in magnitude (section 4.3.1 of IEEE 754-2008) |
| `SoftFloat.CompiledTestCorrectIff` | src/float-mul-fix/float-mul-test.c:52-64 | with the line-52 test the result is correctly rounded exactly if the truncated product is outside [2^31-64, 2^31) |
| `SoftFloat.BandWords` | src/float-mul-fix/float-mul-test.c:52-64 | inside that band the compiled result has the right sign, a zero fraction and an exponent one too high, or one too low where the carried bit is already set |
| `SoftFloat.BandFactor` | src/float-mul-fix/float-mul-test.c:52-64 | there it is twice or half the correctly rounded result for result exponents up to 253, and an infinity for 254 |
| `SoftFloat.SameOutsideBand` | src/float-mul-fix/float-mul-test.c:52-53 | outside it both tests choose the same branch |
| `SoftFloat.TruncationIsHarmless` | src/float-mul-fix/float-mul-test.c:48-62 | rounding the truncated product gives the rounded full product, within 24 bits |
| `SoftFloat.ExponentSumInRange` | src/float-mul-fix/float-mul-test.c:46-61 | wrapping of the exponent sum on the way does no harm |
| `SoftFloat.ProductFields` | src/float-mul-fix/float-mul-test.c:37-66 | sign, exponent and significand of the word |
| `SoftFloat.ProductWord` | src/float-mul-fix/float-mul-test.c:37-66 | the word as a sum of its fields |
| `SoftFloat.CarryIntoExponent` | src/float-mul-fix/float-mul-test.c:64 | or-ing 2^24 sets bit 1 of the exponent field instead of adding one to it |
| `SoftFloat.MulSF3` | src/float-mul-fix/float-mul-test.c:28-67 | +0 times anything is +0, in either order and with either test; with the line-53 test every other pair of operands, subnormals, infinities and NaNs included, gives the rounded fraction of the full product, the low eight bits of the exponent, and the sign, which a ninth bit of the exponent sets as well |
| `SoftFloat.AnyProduct` | src/float-mul-fix/float-mul-test.c:28-67 | the same of the product function: wrapping of the exponent and carries between fields included |
| `SoftFloat.RoundProduct` | src/float-mul-fix/float-mul-test.c:52-64 | normalising, rounding and packing |
| `SoftFloat.FiftyTimesEightHundredths` | src/float-mul-fix/float-mul-test.c:79-84 | 50.0f * 0.08f gives 8.0 with the compiled test and 4.0 with the other |
| `Random.FullPeriod` | vmlabs/include/impulse/hsRandom.h:30-39 | from every seed, each of the 2^32 words occurs exactly once in the first 2^32 steps, and then the seed returns |
| `Random.LowBitsPeriod` | vmlabs/include/impulse/hsRandom.h:30-39 | for every k up to 32 and every seed, the low k bits return after exactly the multiples of 2^k steps |
| `Random.PowerOfTwoSteps` | vmlabs/include/impulse/hsRandom.h:30-39 | 2^k steps are one affine map |
| `Random.FactorAndOffset` | vmlabs/include/impulse/hsRandom.h:31-32 | its factor is 1 modulo 2^(k+2) and its offset an odd multiple of 2^k |
| `Random.SignedFixedRange` | vmlabs/include/impulse/hsRandom.h:45-51 | NextSFixed takes exactly the values -32768..32767, which is -1/2 up to 1/2 |
| `Random.HsRandom.NextU` | vmlabs/include/impulse/hsRandom.h:39 | one step of the recurrence modulo 2^32: the seed before is recovered from the result with the inverse of the multiplier, so the result is the only one for its seed |
| `Random.HsRandom.NextS` | vmlabs/include/impulse/hsRandom.h:40 | the same step, read as signed; the seed before is recovered from it |
| `Random.HsRandom.NextSFixed` | vmlabs/include/impulse/hsRandom.h:51 | the high half of the step, by arithmetic shift, and the seed before is recovered from the new one |
| `Random.StepBack` | vmlabs/include/impulse/hsRandom.h:31-33 | the step backwards, with the inverse of the multiplier modulo 2^32; seed 0 gives the increment |
| `Wide.NarrowIsRoundedClamp` | vmlabs/include/impulse/hsWide.h:157-194 | pinned AsFixed and AsFract are the quotient rounded half up and clamped to Int32 exactly if adding the rounding constant does not pass 2^63-1 |
| `Wide.CarryTest` | vmlabs/include/impulse/hsWide.h:125-129 | newLo < (lo | a.lo) holds exactly if the low words overflow |
| `Wide.HsWide.Negate` | vmlabs/include/impulse/hsWide.h:102-107 | exact modulo 2^64 |
| `Wide.HsWide.AddLong` | vmlabs/include/impulse/hsWide.h:109-121 | exact modulo 2^64, the smallest Int32 included |
| `Wide.HsWide.Add` | vmlabs/include/impulse/hsWide.h:123-133 | exact modulo 2^64, also for x.Add(&x) |
| `Wide.HsWide.Sub` | vmlabs/include/impulse/hsWide.h:135-140 | exact modulo 2^64, also for x.Sub(&x) |
| `Wide.HsWide.ShiftLeft` | vmlabs/include/impulse/hsWide.h:142-147 | multiplication by 2^shift modulo 2^64 |
| `Wide.HsWide.ShiftRight` | vmlabs/include/impulse/hsWide.h:149-155 | floor division by 2^shift |
| `Wide.HsWide.RoundRight` | vmlabs/include/impulse/hsWide.h:157-160 | floor division after adding half, which may wrap |
| `Wide.HsWide.IsWide` | vmlabs/include/impulse/hsWide.h:177-180 | true exactly if the clamp changes the value |
| `Wide.HsWide.AsLong` | vmlabs/include/impulse/hsWide.h:162-175 | the clamp with pinning, the low word without |
| `Wide.HsWide.AsFixed` | vmlabs/include/impulse/hsWide.h:182-187 | the value / 2^16 rounded half up: modulo 2^32 without pinning, and with it the nearest Int32 unless adding the half passes 2^63-1, which gives the smallest Int32; the object is unchanged |
| `Wide.HsWide.AsFract` | vmlabs/include/impulse/hsWide.h:189-194 | the same for 2^30 |
| `Wide.NarrowWraps` | vmlabs/include/impulse/hsWide.h:157-194 | without pinning the result is the quotient rounded half up, modulo 2^32, for every value: wrapping at 2^64 is harmless |
| `Wide.NarrowPinned` | vmlabs/include/impulse/hsWide.h:157-194 | with pinning it is the clamp of that quotient exactly as far as adding the half does not wrap, and the smallest Int32 beyond |
| `Wide.HsWide.SetLong` | vmlabs/include/impulse/hsWide.h:31 | sign extension |
| `Wide.HsWide.LessThan` | vmlabs/include/impulse/hsWide.h:40 | the order of the values |
| `Wide.HsWide.GreaterThan` | vmlabs/include/impulse/hsWide.h:41 | the order of the values |
| `TArrays.TArray.constructor` | vmlabs/include/impulse/hsTemplates.h:131 | empty, no storage |
| `TArrays.TArray.WithCount` | vmlabs/include/impulse/hsTemplates.h:240-246 | count elements, no spare capacity |
| `TArrays.TArray.Copy` | vmlabs/include/impulse/hsTemplates.h:248-257 | the same contents in own storage |
| `TArrays.TArray.IncCount` | vmlabs/include/impulse/hsTemplates.h:333-355 | elements before the gap and behind it are those there were, whether the storage grew or the tail was shifted in place; with the number of elements its copy loops move |
| `TArrays.TArray.GrowCapacity` | vmlabs/include/impulse/hsTemplates.h:338-342 | the do-while loop ends at the least old capacity times a power of two that is enough, or at twice what is asked for if there was none |
| `TArrays.TArray.Get` | vmlabs/include/impulse/hsTemplates.h:138-140 | the element of the contents, which is that of the storage |
| `TArrays.Grown` | vmlabs/include/impulse/hsTemplates.h:337-342 | a growing capacity n <= t <= 2n |
| `TArrays.GrownIsLeast` | vmlabs/include/impulse/hsTemplates.h:337-342 | the least old capacity times a power of two that is enough; from nothing twice what is asked for |
| `TArrays.TArray.DecCount` | vmlabs/include/impulse/hsTemplates.h:357-365 | contents without the closed range; the storage goes when nothing is left |
| `TArrays.TArray.Insert` | vmlabs/include/impulse/hsTemplates.h:158-163 | s[..i] + [x] + s[i..] |
| `TArrays.TArray.InsertMany` | vmlabs/include/impulse/hsTemplates.h:164-172 | s[..i] + xs + s[i..] |
| `TArrays.TArray.Remove` | vmlabs/include/impulse/hsTemplates.h:176-187 | s[..i] + s[i+n..] |
| `TArrays.TArray.Append` | vmlabs/include/impulse/hsTemplates.h:200-204 | s + [x], with the elements moved |
| `TArrays.TArray.Pop` | vmlabs/include/impulse/hsTemplates.h:292-297 | the last element, and the rest |
| `TArrays.TArray.SetCount` | vmlabs/include/impulse/hsTemplates.h:267-281 | shrinking keeps a prefix, growing within capacity keeps all, growing beyond it keeps nothing |
| `TArrays.TArray.Reset` | vmlabs/include/impulse/hsTemplates.h:283-290 | empty, storage released |
| `TArrays.TArray.Assign` | vmlabs/include/impulse/hsTemplates.h:259-265 | the contents of the source, which may be the array itself |
| `TArrays.Find` | vmlabs/include/impulse/hsTemplates.h:299-305 | the first match, or kMissingIndex if there is none |
| `TArrays.RemoveItem` | vmlabs/include/impulse/hsTemplates.h:307-315 | drops the first match only, and nothing if there is none |
| `TArrays.CopyForward` | vmlabs/include/impulse/hsTemplates.h:321-325 | a simultaneous copy, also downwards within one array, of count element moves |
| `TArrays.CopyBackward` | vmlabs/include/impulse/hsTemplates.h:327-331 | a simultaneous copy, also upwards within one array, of count element moves |
| `TArrays.AppendsAreAmortised` | vmlabs/include/impulse/hsTemplates.h:200-204 | n >= 1 appends to an empty array move at most 2n-2 elements and leave a capacity of at most 2n, as a law of the growth rule |
| `TArrays.AppendAll` | vmlabs/include/impulse/hsTemplates.h:200-204 | the same for an array as it runs: n Append calls make an array of the n elements, and its copy loops move at most 2n-2 of them |
| `TArrays.AppendCapacity` | vmlabs/include/impulse/hsTemplates.h:333-355 | appending to a full array doubles it once |
| `Descriptor.Build` | vmlabs/include/impulse/hsDescriptor.h:61-122 | reset and any sequence of adds, each record's data written after its Add: the memory is the canonical image of the records, and walking it finds exactly them |
| `Descriptor.WalkUndoesBuilding` | vmlabs/include/impulse/hsDescriptor_Internal.h:27-44 | fCount steps of Next from GetRec give back the records in order and stop at fLength |
| `Descriptor.ImageInjective` | vmlabs/include/impulse/hsDescriptor.h:83-100 | the image determines the records |
| `Descriptor.Equal` | vmlabs/include/impulse/hsDescriptor.h:70-82 | with equal checksum fields, the word compare is true exactly if the records are the same; it never reads past the shorter descriptor |
| `Descriptor.Reset` | vmlabs/include/impulse/hsDescriptor.h:61-65 | no records, whatever the memory held |
| `Descriptor.Add` | vmlabs/include/impulse/hsDescriptor.h:83-100 | appends a record and returns the address of its data; the padding is cleared |
| `Descriptor.Add32` | vmlabs/include/impulse/hsDescriptor.h:101-122 | appends a one-word record |
| `Descriptor.StoreRec` | vmlabs/include/impulse/hsDescriptor.h:85-95 | tag, length and cleared last word, and nothing else |
| `Descriptor.AddedReads` | vmlabs/include/impulse/hsDescriptor.h:85-95 | tag and length read back, and the bytes up to the next multiple of four are zero |
| `Descriptor.BumpHeader` | vmlabs/include/impulse/hsDescriptor.h:97-98 | one record more, and its bytes |
| `Descriptor.FillData` | vmlabs/include/impulse/hsDescriptor.h:83-100 | writing the data later, at any time, gives that record that data and changes no other |
| `Descriptor.AdditionalSizeIsExact` | vmlabs/include/impulse/hsDescriptor.h:123-126 | it is what a record of that size adds |
| `Descriptor.AlignByMask` | vmlabs/include/impulse/hsTypes.h:222 | the mask rounds up to a multiple of four |
| `Blend.OverChannels` | vmlabs/include/impulse/hsGBlitter_Internal.h:258-264 | a premultiplied layer over any pixel adds in all four channels the floor of the weighted pixel, with no carry between lanes |
| `Blend.BlendChannels` | vmlabs/include/impulse/hsGBlitter_Internal.h:258-264 | each channel of Blend32 for any weight up to 256, as long as the channel sums fit |
| `Blend.OverPremultiplied` | vmlabs/include/impulse/hsGBlitter_Internal.h:258-264 | the result is premultiplied |
| `Blend.StackPremultiplied` | vmlabs/include/impulse/hsGShader.h:56-58 | any stack of premultiplied layers is premultiplied |
| `Blend.OpaqueLayerHides` | vmlabs/include/impulse/hsGShader.h:56-58 | an opaque layer makes everything beneath it irrelevant |
| `Blend.OpaqueOver` | vmlabs/include/impulse/hsGBlitter_Internal.h:258-264 | an opaque layer replaces the pixel |
| `Blend.TransparentOver` | vmlabs/include/impulse/hsGBlitter_Internal.h:258-264 | an empty layer leaves it alone |
| `Blend.BlendExcess` | vmlabs/include/impulse/hsGBlitter_Internal.h:215-218 | the result exceeds the floor-lerp by 2^24 exactly if the product is negative |
| `Blend.CastBlend` | vmlabs/include/impulse/hsGBlitter_Internal.h:215-218 | a narrowing cast erases the excess |
| `Blend.LerpBetween` | vmlabs/include/impulse/hsGBlitter_Internal.h:215-218 | the floor-lerp lies between the two components |
| `Blend.LerpRoundsDown` | vmlabs/include/impulse/hsGBlitter_Internal.h:215-218 | the step towards the source is rounded down, for falling components too |
| `Blend.MergeRange` | vmlabs/include/impulse/hsGBlitter_Internal.h:222-225 | merged coverage stays in 0..255 and is no less than either part |
| `Blend.BlendArgbChannels` | vmlabs/include/impulse/hsGBlitter_Internal.h:229-237 | each colour is the floor-lerp, between source and destination, and alpha is the merge |
| `Blend.ZeroAlphaKeepsIff` | vmlabs/include/impulse/hsGBlitter_Internal.h:191-237 | alpha 0 leaves the pixel alone exactly if no channel of it is above the source's |
| `Blend.FullAlphaReplaces` | vmlabs/include/impulse/hsGBlitter_Internal.h:229-237 | alpha 255 gives the source's colours, fully covered |
| `Blend.Blend555Channels` | vmlabs/include/impulse/hsGBlitter_Internal.h:239-248 | opaque, and each channel the floor-lerp |
| `Blend.PackedRgb16` | vmlabs/include/impulse/hsGBlitter_Internal.h:171-178 | the three fields do not disturb each other |
| `Blend.SetArgb32` | vmlabs/include/impulse/hsGBlitter_Internal.h:120 | the four channels are those given |
| `TripleFill.RGBTripleFill` | vmlabs/include/impulse/hsGBitmap.h:185-214 | every byte of count pixels is red, green or blue by its place and the byte order, and no other byte changes, from every start address; every word store is aligned |
| `TripleFill.FillToAlignment` | vmlabs/include/impulse/hsGBitmap.h:189-195 | at most three pixels, because each lowers the address modulo four by one |
| `TripleFill.FillQuads` | vmlabs/include/impulse/hsGBitmap.h:201-207 | the word loop writes four pixels a turn |
| `TripleFill.StoreQuad` | vmlabs/include/impulse/hsGBitmap.h:203-205 | three word stores are four pixels |
| `TripleFill.FillSlowly` | vmlabs/include/impulse/hsGBitmap.h:210-213 | the byte loop |
| `TripleFill.MakeQuads` | vmlabs/include/impulse/hsGBitmap.h:197-199 | the three words hold four pixels in either byte order |
| `TripleFill.QuadWords` | vmlabs/include/impulse/hsGBitmap.h:166-205 | the word indices of red, green and blue swap with the byte order, and the memory image does not |
| `TripleFill.SetRGBTriple` | vmlabs/include/impulse/hsGBitmap.h:176-181 | one pixel in memory order |
| `RegionSpans.BlitSpan` | vmlabs/include/impulse/hsRegion_InLine.h:27-40 | the blits are the maximal runs of the row in the window, ascending, disjoint and complete, although the loop skips pixels |
| `RegionSpans.OneMoreRun` | vmlabs/include/impulse/hsRegion_InLine.h:31-38 | skipping the pixel after a run and stopping one pixel early miss nothing |
| `RegionSpans.RunsAreUnique` | vmlabs/include/impulse/hsRegion_InLine.h:27-40 | a row has only one list of runs, so the contract fixes every blit |
| `RegionSpans.CoversExactly` | vmlabs/include/impulse/hsRegion_InLine.h:27-40 | the runs cover the row inside the window and nothing else |
| `RegionSpans.RowPixels` | vmlabs/include/impulse/hsRegion_InLine.h:27-40 | a pixel of the window is in the row exactly if some blit covers it, and the blits are apart from each other |
| `RegionSpans.LeftmostRun` | vmlabs/include/impulse/hsRegion.h:153 | the contract taken for clipSpan can be met for every row |
| `RegionSpans.LeftmostClips` | vmlabs/include/impulse/hsRegion.h:153 | it meets that contract, so the precondition of blitSpan can be met for every row |
| `TLoops.ForwardIsCopyIff` | vmlabs/include/impulse/hsTLoops.h:52-72 | the forward copy is a simultaneous copy exactly if it goes downwards or the source repeats with the distance of the ranges (as it does when they are disjoint) |
| `TLoops.BackwardIsCopyIff` | vmlabs/include/impulse/hsTLoops.h:74-100 | the same for the backward copy, which must go upwards |
| `TLoops.ForwardAt` | vmlabs/include/impulse/hsTLoops.h:52-72 | which element an overlapping forward copy leaves where |
| `TLoops.BackwardAt` | vmlabs/include/impulse/hsTLoops.h:74-100 | the same for the backward copy |
| `TLoops.FastForward` | vmlabs/include/impulse/hsTLoops.h:52-72 | every element of the target range is the one that stood in the source, or for an overlap upwards the one copied dst - src places before; no other changes; a negative count copies count & 7 elements |
| `TLoops.FastBackward` | vmlabs/include/impulse/hsTLoops.h:74-100 | the same from the end, for an overlap downwards |
| `TLoops.FastAssign` | vmlabs/include/impulse/hsTLoops.h:102-120 | every element from dst on is the value, count of them or count & 7 for a negative count, and no other changes |

## Left out

- BitReader.Reader: refilling the source buffer; the data of a segment are one buffer, which ends in a marker or runs dry.
- BitWriter.Writer: suspension of the destination (`emit_byte`, `dump_buffer`); the output is one growing sequence.
- BitWriter.Writer.EmitBits: never suspends while a byte is emitted, because the output has no end.
- BitWriter.Writer.FlushBits: never suspends while the last byte is emitted.
- HuffCodec.EncodeAc: takes no -32768 behind fifteen zeros modulo sixteen, whose symbol 256 lies beyond the encoder's tables.
- HuffCodec.EncodeOneBlock: takes no such block either.
- HuffCoder.HuffEncoder.EncodeMcu: takes no such block either.
- HuffCoder.EncodeScan: takes no such block either.
- HuffCoder.ThereAndBack: takes no such block either.
- HuffCodec.DecodeDc: needs DC symbols of at most 15, the size of the tables of HUFF_EXTEND, which the source does not check.
- HuffCoder.DecodeBlock: needs the same of its DC table.
- HuffCoder.HuffDecoder.DecodeMcu: needs the same of its DC tables; DC predictions are unbounded integers, where the source's int would wrap only after 65536 extreme differences.
- HuffCoder.DecodeScan: needs the same of its DC tables.
- HuffDerived.MakeDDerivedTbl: needs code words of up to 8 bits that fit in their lengths; the source does not check and would write past the lookahead table.
- HuffDerived.FillLookahead: needs the same, for the same reason.
- HuffOptimal.GenOptimalTable: needs some symbol with a count (without any, the source searches below its array), fewer than 255 of them (the source counts them in bytes) and a sum below 10^9 (the bound of its searches); `HuffTwoPass.CountableIf` shows when a scan meets all three. Where a length over 16 is limited, `HuffOptimal.TableLengths` says which lengths come out; that they are the best of up to 16 bits is not stated, as the source says they are not.
- HuffTwoPass.FirstPass: needs at most 254 AC symbols a table, which `HuffTwoPass.FewAcSymbolsIf` gives without -32768, a scan within the bound of 10^9, and every component in the MCU.
- HuffTwoPass.TwoPass: needs the same, and DC differences of at most 15 bits, which the decoder can extend.
- Restart markers, the progressive coders, DHT parsing, and the rest of libjpeg.
- SoftFloat.CorrectlyRounded: -0, subnormal, infinite and NaN operands and results outside the normal exponents, which the routine does not handle; its logging and the test driver.
- Wide.HsWide.ShiftRight: shifts by 0 or by 32 and more, which C leaves undefined; `Mul`, `Div`, roots and floating point are declared only or not built.
- TArrays.TArray.IncCount: counts below 2^30, beyond which doubling overflows the source's int.
- TArrays.TArray.InsertMany: items that lie in the array's own storage, which the source frees or shifts before it reads them.
- TArrays.TArray.Insert: an item that lies in the array's own storage; the variants that return a pointer, `ForEach` and `DetachArray`.
- RegionSpans.BlitSpan: `clipSpan` is declared only, so its contract is a parameter; region algebra and span caching are not modelled.
- TripleFill.RGBTripleFill: components are bytes; an int outside 0..255 would spill into its neighbours.
- Descriptor.Add: address arithmetic does not wrap; the debug-build functions, `Find`, `Remove` and checksums are declared only.
- Blend.Blend555Channels: the 6-5-5 pixel layout and the 68000 assembly variants.
- Random.HsRandom.NextU: the modulo, scaled and floating-point variants.
