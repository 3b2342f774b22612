# UC2: a verified model of its codecs and stores

This project models the parts of UC2 whose correctness is an exact inverse or a refinement, and proves them.

- **Ultra codec** (levels 2 to 5): bit packing, canonical codes and lookup tables, length-limited Huffman code generation with
  its repair loop, tree descriptions, match finding over a 64 KiB ring, the block writer and the block decoder with partial
  flushes. `BitStrings`, `BitIO`, `Canonical`, `Tables`, `Tally`, `HuffmanHeap`, `HuffmanTree`, `TreeBuild`, `LengthGroups`,
  `TreeRepair`, `LengthRepair`, `CodeLengths`, `TreeCode`, `TreeWriter`, `TreeReader`, `LzCodes`, `Window`, `Checksum`, `MatchFinder`,
  `LzParse`, `BlockTokens`, `BlockWriter`, `UltraFormat`, `UltraRoundTrip`, `OutputWindow`, `UltraDecoder`, `UltraEncoder`, `UltraCodec`.
- **rANS codec** (levels 6 to 9): table normalisation, encoder, decoder and the method-10 block format. `Rans`, `RansCoder`,
  `RansFormat`, `RansRoundTrip`, `RansWriter`, `RansDecompressor`.
- **Which inputs have a code**: what tokens say about the text in `TextCover`, which counts can fail in `CodeLimits`, frequencies
  with only one Huffman tree in `DyadicTrees`, texts that fail in `CrowdedBlocks`, splits into blocks in `BlockSplits`.
- **LZ4 block codec**: `Lz4`. **Turbo predictor codec** of 1992 (method 80): `Turbo`.
- **Burrows-Wheeler transform**: `Bwt`. **BLAKE3 incremental hashing**: `Blake3`. **Content-defined chunking**: `Chunking`.
- **Archive writer**: finding repeated files, indexing the chunks of the others and grouping files under masters in
  `ArchiveGroups`, with sorting in `Sorting`.
- **Snapshot repository**: the steps that may happen and what every run keeps in `Snapshots`, the operations in `SnapshotRepo`,
  sequences of commands in `SnapshotRuns`.
- **Deduplicating ingest**: the probed, growing chunk index and the stream loop in `Ingest`.
- **Master dictionaries**: resolving dependency chains with cycles and missing masters in `Masters`.
- **UltraCache**, the file cache of 1992: `UltraCache`. **Damage protection** of 1992 archives: `DamagePro`.

The codecs are proved in three layers. A total function on bit strings says what a stream means (`UltraFormat.Decode`,
`RansFormat.RansDecode`). The imperative decoders refine it for every input, limit, master and split into reads. The imperative
compressors produce streams whose meaning is the input. The three meet in `UltraCodec`.

What a compressor finds is proved beside what it may not get wrong: the matches of `MatchFinder` and `Lz4` are the ones their
searches are for, the predictor of `Turbo` knows what followed each pair last, chunks end where the content says, files of an
archive that share a chunk are grouped, and the newest snapshot outlives every prune
that keeps one.

Where the code fails on some inputs, the model says when.

- The repair loop of the Huffman code generator looks for a symbol shorter than the level it repairs; there may be none, and
  the C code would then index with a negative length. `LengthRepair.RepairLengths` says when: for the 316 byte and distance
  symbols the repair succeeds if and only if the cut lengths are not overfull or some length is below 13 minus the highest bit
  of the excess. `TreeGen` has a result if and only if the depths that the frequencies determine, heap ties included, meet
  that condition once they are cut; `CrowdedTreeGen` gives frequencies, adding up to 16384, that do not. `Repaired` says what
  the lengths become: a single pass never gives a symbol a longer code than one whose code was longer before, but two passes
  may, as `CrossingRepaired` shows.
- Normalising rANS counts puts the whole correction on the largest frequency. `NormalisedFair` says exactly when that works,
  `CrowdedNotCorrectable` gives the counts of a block for which it does not, and `FlushBlockRans` reports such blocks instead
  of writing them. `NotCorrectableLost` says why: a frequency of the table does not fit its field, or no bytes whatever decode
  to the symbols of the block.
- The compressor therefore does not bring back every text. `CompressEx` has no result only where the blocks it has split the
  input into come to one without a code; `EasyNotStuck` gives conditions on the input alone under which that never happens, and
  `CompressHardText` a text of 16383 bytes (8280 for rANS) for which it always does.
- A plain read of the 1992 cache that starts behind the end of the file sets the remembered length wrong. `Read` and
  `ReadThenSize` say exactly when. `Run` covers all sequences of operations: contents, positions and bytes read are always those
  of a plain file, and only a size asked for after such a read, or after a write of no bytes away from the end, may be too large.
- Damage protection fills up a whole sector by seeking one byte too far, so the byte behind the data comes out as whatever the
  disk holds. `Protect` is proved for any such byte.

`dafny verify dfyconfig.toml` checks the whole project.

## Model

| member | source | states |
|---|---|---|
| BitStrings.ValBitsOf | lib/src/compress.c:68-92 | the number read back from the n bits written for a value below 2^n is that value |
| BitStrings.BitsOfVal | lib/src/decompress.c:378-391 | the bits written for the number read from a bit string are that bit string, so packing is one to one |
| BitStrings.ValPrefix | lib/src/decompress.c:378-391 | peeking the first n of the available bits is a division by a power of two, and what stays is the remainder |
| BitStrings.WordBitsConcat | lib/src/compress.c:56-65 | emitting the words of two even byte strings one after the other emits the concatenated bit strings |
| BitIO.BitWriter.Put | lib/src/compress.c:68-92 | the bit stream grows by exactly the n bits of the value, most significant first, also when the value spans two 16-bit words or the output buffer is handed on |
| BitIO.BitWriter.EmitWord | lib/src/compress.c:56-65 | sixteen bits are appended to the words written so far, low byte first, across buffer flushes |
| BitIO.BitWriter.Finish | lib/src/compress.c:94-101 | the bytes written are whole words that hold the stream followed by fewer than 16 zero bits |
| BitIO.HoldsAcross | lib/src/compress.c:68-92 | a value that does not fit splits into a high part that completes the word and a low part that starts the next one, and the two parts are its bits in order |
| BitIO.FeedAccumulator | lib/src/decompress.c:349-376 | shifting a word into the 32-bit accumulator loses only bits already consumed: the unread bits followed by the new 16 are there |
| BitIO.BitReader.Feed | lib/src/decompress.c:349-376 | n bits become available exactly when n more bits of whole words exist; otherwise the truncation error is returned and sticks, however the input arrives in pieces and with an odd last byte |
| BitIO.BitReader.Peek | lib/src/decompress.c:378-384 | the next n bits as a number without moving, or the error past the end |
| BitIO.BitReader.Get | lib/src/decompress.c:386-391 | the next n bits as a number, consumed exactly when there are that many; a sticky error is returned again |
| Canonical.CodeFits | lib/src/compress.c:314-324 | if the Kraft sum is at most 2^13, every code fits its length and its slots lie inside the lookup table |
| Canonical.CodeStart | lib/src/decompress.c:1549-1576 | the running code scaled to 13 bits equals the position at which table filling reaches that symbol: code order and slot order are the same |
| Canonical.PrefixFree | lib/src/compress.c:314-324 | for any lengths with Kraft sum at most 1 no code is a prefix of another symbol's code |
| Canonical.WindowLookup | lib/src/decompress.c:1390-1398 | every 13-bit window that begins with a symbol's code is mapped to that symbol and length |
| Canonical.LookupCode | lib/src/decompress.c:1390-1398 | the table reads back any written code as long as 13 bits are readable from where it starts |
| Canonical.CodeGen | lib/src/compress.c:314-324 | each used symbol gets its canonical code, counted in a 16-bit word |
| Canonical.TotalIsKraft | lib/src/decompress.c:1549-1576 | the table is filled exactly up to the Kraft sum |
| Canonical.MkTree | lib/src/decompress.c:1549-1576 | succeeds exactly when the Kraft sum fits the table, never writes outside it, and then leaves the canonical table with filler in the unused slots |
| Tables.RowInverse | lib/src/uc2_tables.c:11-43 | each row of the encoder's delta table inverts the decoder's row |
| Tables.DefaultFacts | lib/src/uc2_tables.c:45-60 | the default tree has 344 lengths between 1 and 13; its length part is complete and its byte and distance part leaves 64 of 8192 slots free |
| Tables.DefaultLengthAt | lib/src/uc2_tables.c:45-60 | the default lengths symbol by symbol: 7 for six common bytes, 9, 8 and 10 for the others below 32, 128 and 256, then 6 to 10 for distances and 4 to 6 for lengths |
| Tables.FillDefault | lib/src/decompress.c:1441-1456 | the run loop writes exactly the default lengths |
| Tables.PresentTotal | lib/src/decompress.c:1468-1547 | each of the four layouts lists as many symbols as its stream has entries |
| Tables.LayoutsDescribe | lib/src/decompress.c:1424-1468 | the run lists of the decoder describe exactly the symbols the encoder marks as present |
| HuffmanHeap.Reheap | lib/src/compress.c:114-128 | sifting down leaves the heap that the source's rule gives, ties included: of two equal children the right one moves up, also past an entry equal to it |
| HuffmanHeap.SiftOrdered | lib/src/compress.c:114-128 | that rule restores the heap order below the entry and keeps the live entries as a multiset |
| TreeBuild.JoinRound | lib/src/compress.c:156-167 | the two roots joined are the two lightest, the lighter one first, and of equal ones those the heap holds on top; what is left is the forest with them joined and the heap that the next round starts from, and no 32-bit sum overflows |
| TreeBuild.BuildCodeTree | lib/src/compress.c:148-168 | the tree left is the one these rounds determine from the heap at the start; it holds every used symbol and is linked upwards to index nsym |
| TreeBuild.TreeOfReached | lib/src/compress.c:148-168 | whatever heap the rounds start from, their tree is one that joining two lightest roots again and again reaches |
| TreeBuild.ReachesGreedy | lib/src/compress.c:148-168 | in every tree such joins can reach, whatever ties decide, each node is at least as heavy as the children of its sibling |
| DyadicTrees.EqualHalves | lib/src/compress.c:148-168 | if all roots weigh powers of two and add up to one, the two lightest weigh the same |
| DyadicTrees.DyadicDepths | lib/src/compress.c:148-182 | for frequencies that are powers of two and add up to one, every Huffman tree gives a symbol of frequency f the depth log2(total / f), whatever ties decide |
| HuffmanTree.ChainIsDepth | lib/src/compress.c:170-182 | the number of father links from a leaf to the root is the leaf's depth |
| HuffmanTree.HeightFitsByte | lib/src/compress.c:170-181 | with 32-bit frequencies no greedy tree is deeper than 63, so the cast of the depth to a byte loses nothing |
| TreeBuild.GenCodeLengths | lib/src/compress.c:170-182 | each used symbol gets its depth in the tree, every other symbol 0 |
| HuffmanTree.CutExcess | lib/src/compress.c:195-212 | cutting depths at max overfills the code by at most leaves - 1 - max slots if it overfills at all |
| TreeRepair.RepairPass | lib/src/compress.c:219-302 | one pass lowers the Kraft sum by exactly its lowest set bit and keeps the set of used symbols; the symbol made longer is the first of the longest below that level, and the room behind it is filled by shortening the first symbols of each level from that level on, so the new lengths are a function of the old ones; it fails, changing nothing, exactly when no used length is below the level of that bit |
| TreeRepair.FillSpace | lib/src/compress.c:252-297 | the fill step puts exactly the wanted number of slots back, never runs past level max leaves shorter levels alone, and takes the first symbols of each level in turn |
| TreeRepair.SortByLength | lib/src/compress.c:195-207 | lengths are cut at max and every length's list holds its symbols in ascending order |
| TreeRepair.MergeSorted | lib/src/compress.c:271-287 | merging the detached chain keeps the list ascending and holds exactly both sets of symbols |
| LengthGroups.PassedSays | lib/src/compress.c:219-302 | a pass makes one symbol longer, the first of the longest lengths below the level, and shortens only symbols of that level and longer ones, none below the level less one |
| LengthGroups.PassKeepsOrder | lib/src/compress.c:219-302 | no pass gives a symbol a longer code than one whose code was longer before |
| LengthRepair.RepairLengths | lib/src/compress.c:184-302 | the loop terminates; the lengths become those of the passes for the bits of the excess, one after the other, and stay as they were if and only if the code is not overfull; where the excess has one bit the order of the lengths is kept; on success the Kraft sum is exactly 2^max over the same used symbols; for 13-bit codes of up to 316 symbols it succeeds if and only if the lengths are not overfull or some used length is below 13 minus the highest bit of the excess; for any other size that condition is necessary, and failing needs used symbols times excess of at least 2^max |
| LengthRepair.RepairedSame | lib/src/compress.c:209-220 | lengths that are exactly full are left alone |
| LengthRepair.PassInOrder | lib/src/compress.c:219-302 | a whole pass keeps the order of the lengths |
| LengthRepair.CrossingRepaired | lib/src/compress.c:219-302 | two passes need not: of eleven lengths the third, 3, ends up longer than two that were 4, because the first pass makes it one of them |
| LengthRepair.StartsHopeful | lib/src/compress.c:209-217 | overfull lengths of at most 316 symbols with a short one have enough slots at short lengths when the excess is large |
| LengthRepair.PlentyBelow | lib/src/compress.c:219-231 | before the pass at any bit below the top one, the lengths under its level hold more slots than the last short symbol alone |
| LengthRepair.StaysHopeful | lib/src/compress.c:219-302 | no pass below the top bit uses up the last short symbol |
| LengthRepair.HopelessStays | lib/src/compress.c:219-302 | without a short symbol no pass creates one, and the top bit of the excess is never cleared |
| CodeLengths.CutDepths | lib/src/compress.c:195-217 | the cut depths of any Huffman tree are a possible start of the repair: their sum is between 2^max and twice that |
| CodeLengths.TreeOfSymbols | lib/src/compress.c:130-168 | the tree that the frequencies determine is a Huffman tree whose leaves are exactly the used symbols |
| CodeLengths.TreeGen | lib/src/compress.c:130-311 | the lengths are those of the passes over the cut depths that the frequencies determine, which are left alone if they are exactly full; they form a complete code of at most max bits whose used symbols are those with a frequency (two made-up ones if fewer than two are used); for 13 bits and up to 316 symbols there is a result if and only if the depths that the frequencies determine, ties in the heap included, can be repaired once they are cut at 13; no result needs n(n-1-max) of at least 2^max |
| TreeWriter.FifteenSymbolsSafe | lib/src/compress.c:436-438 | the 15-symbol description tree with 7-bit codes never meets the failing branch |
| BlockWriter.LengthTreeSafe | lib/src/compress.c:694-794 | the 28-symbol length tree never meets the failing branch |
| CodeLimits.HuffmanCut | lib/src/compress.c:130-217 | the depths of every Huffman tree, cut at 13, are a possible start of the repair over the same symbols, and nothing is overfull when the frequencies add up to less than 987 |
| CodeLimits.NoCodeWide | lib/src/compress.c:219-302 | frequencies that get no code at 13 bits have at least 192 used symbols |
| CodeLimits.NoCodeHeavy | lib/src/compress.c:130-302 | and they add up to at least 987 |
| CrowdedBlocks.CrowdedDepths | lib/src/compress.c:130-302 | 127 symbols counted 128 times and 128 counted once: in every Huffman tree the first are 7 deep and the others 14, and the cut depths cannot be repaired |
| CrowdedBlocks.CrowdedTreeGen | lib/src/compress.c:130-311 | the length generator gives no result for these frequencies, which are those of a block of 16383 bytes and add up to 16384 |
| TreeCode.UnpackPack | lib/src/decompress.c:1468-1547 | undoing the delta codes of the listed symbols against the previous lengths gives back every length, listed or not |
| TreeCode.StreamRoundTrip | lib/src/compress.c:449-475 | the run-length coded stream, in which one code covers up to 20 repeats, is read back as the stream |
| TreeCode.ChunkIsLongest | lib/src/compress.c:418-434 | each code covers a run as far as it goes or 20 of it; a run is left to single codes only if it is shorter than seven |
| TreeCode.LayoutLeast | lib/src/compress.c:361-384 | of the layouts that list every coded symbol the one taken lists fewest |
| TreeCode.LengthsRoundTrip | lib/src/compress.c:443-447 | the fifteen 3-bit lengths are read back |
| TreeCode.TreeRoundTrip | lib/src/compress.c:345-482 | the decoder reads any length vector back against any previous vector, through every layout, and stops right behind the description |
| TreeWriter.DescriptionLengths | lib/src/compress.c:412-438 | the description code is the one generated from the counts of the run-length codes; it covers every code of the run-length stream and its lengths fit 3 bits |
| TreeWriter.TreeEnc | lib/src/compress.c:345-482 | exactly the description, by the code generated for it, of the lengths against the previous ones is appended, and they become the previous ones |
| TreeReader.Huff | lib/src/decompress.c:1390-1398 | the method looks up 13 peeked bits, consumes the length found there and passes errors on |
| TreeReader.GetStream | lib/src/decompress.c:1468-1547 | the decoding loop reads the delta stream, with repeats that would run over the end rejected |
| TreeReader.UnpackLengths | lib/src/decompress.c:1468-1547 | spreading the stream over the layout's runs gives the lengths of all 344 symbols |
| TreeReader.ReadTree | lib/src/decompress.c:1468-1547 | reads the next tree description or reports the fault; on success the previous lengths are replaced as on the writing side |
| LzCodes.DistSymRange | lib/src/compress.c:652-682 | the distance symbol found by the search covers the distance with its extra bits |
| LzCodes.LenSymRange | lib/src/compress.c:668-691 | the same for lengths |
| LzCodes.FindDistSym | lib/src/compress.c:676-682 | the search from the top of the table finds the covering symbol |
| LzCodes.CopyReproduces | lib/src/compress.c:531-573 | copying a match reproduces the text whenever each byte equals the byte one distance back, overlaps included |
| LzCodes.ApplyPrefix | lib/src/decompress.c:1597-1660 | older history in front of the window never changes what tokens produce |
| Window.RingPush | lib/src/decompress.c:1334-1341 | writing a byte at the 16-bit position keeps the ring equal to the last 65536 bytes of the history |
| Window.WrapDistance | lib/src/decompress.c:1343-1346 | the 16-bit difference of the two positions is the number of pending bytes |
| Window.RingSlice | lib/src/decompress.c:1353-1381 | a stretch of the ring that does not cross its edge is the corresponding stretch of the history |
| Checksum.FoldConcat | lib/src/uc2_internal.h:88-103 | the checksum of a text does not depend on how the text is cut into pieces |
| Checksum.FoldIsLanes | lib/src/uc2_internal.h:85-103 | the checksum is the exclusive or of the even bytes beside that of the odd bytes, with the half-pair mark in bit 16 |
| Checksum.Update | lib/src/uc2_internal.h:88-103 | the pairwise loop takes in n bytes after any earlier pieces and keeps the value below 2^17 |
| MatchFinder.MatchWindow.FindMatch | lib/src/compress.c:531-573 | the match returned is the nearest of the longest among the first candidates of the hash of the position, or the first one long enough to give up, and none exactly where none of them is worth a match; it has length 3 to 200 and a distance below the end mark's, and the text really repeats there, in spite of 16-bit ring wrap and stale chain entries |
| MatchFinder.HashTells | lib/src/compress.c:524-528 | triples that differ in one byte have different hashes, but for the top bit of the last |
| MatchFinder.MatchWindow.HashEnter | lib/src/compress.c:575-580 | a position behind all others becomes the first of its hash, and every chain still leads from the latest position to the one before it, as long as its slot has not been used again |
| MatchFinder.RepeatFound | lib/src/compress.c:531-573 | where the text has been seen before at an entered position, a search through all positions of the hash finds a match at least as long, or one long enough to give up |
| MatchFinder.OneBest | lib/src/compress.c:531-573 | the search has one result |
| MatchFinder.MatchWindow.Load | lib/src/compress.c:1002-1020 | a piece of input is appended to the window's history without running past the ring's edge |
| BlockTokens.TokenBuffer.PutMatch | lib/src/compress.c:583-649 | the buffered entries are those of the token list plus the match, and the counts exactly those of its symbols and the end mark |
| BlockTokens.TokenBuffer.CountEnd | lib/src/compress.c:1065-1067 | an emptied buffer starts the next block with exactly the counts of the end mark |
| BlockTokens.NewCounts | lib/src/compress.c:583-649 | one more token raises the block's counts by one at exactly its symbols |
| BlockWriter.ChooseLengths | lib/src/compress.c:694-794 | a first block of fewer than 256 entries gets the default lengths; any other gets the lengths generated from its two counts, joined, which code every counted symbol and fit the tables if and only if the depths that its byte and distance counts determine can be repaired |
| BlockWriter.PutTokens | lib/src/compress.c:694-794 | the loop over the intermediate buffer writes the bits of all tokens in order |
| BlockWriter.FlushBlock | lib/src/compress.c:694-794 | one well-formed block with the buffered tokens is appended, followed by the end bit when it is the last, and the buffers and counts are cleared, if and only if these tokens have a code: the block takes the default lengths or those generated from its counts, and its description the code generated for it |
| TextCover.CoversMatch | lib/src/compress.c:1051-1058 | a match that repeats the text extends the tokens' coverage of the text by its length |
| TextCover.TokenSays | lib/src/compress.c:1051-1058 | conversely every token of a replayed text is the byte at its place or a repeat of the text before it |
| TextCover.NoMoreEntries | lib/src/compress.c:583-649 | tokens take no more buffer entries than the bytes they replay, and with the end mark at most two symbols more |
| TextCover.OnlyLiterals | lib/src/compress.c:1001-1059 | a text in which no three bytes occur twice can only be replayed by its own literals |
| UltraEncoder.Compressor.NextToken | lib/src/compress.c:1023-1059 | one literal where nothing is found, a literal and the match one byte later where that is looked for and longer, otherwise the match found; all positions passed are entered; the tokens keep replaying exactly the text before the position |
| LzParse.LevelsDeepen | lib/src/compress.c:957-967 | each level from 2 to 5 searches deeper than the one below it, from 15 candidates on, and levels 6 to 9 search like 2 to 5 |
| LzParse.OneNext | lib/src/compress.c:1001-1059 | given how the input comes in pieces, each state of the search, text loaded, position, positions entered and tokens, has one successor |
| UltraEncoder.Compressor.WriteBlock | lib/src/compress.c:1061-1068 | the block of exactly the buffered tokens is appended, in either format, and has a code; on failure nothing is appended and these tokens have none |
| UltraEncoder.Compressor.Flush | lib/src/compress.c:1061-1068 | a full block is written and the next one started; failure leaves blocks that have codes and a full block without one, which together replay the text so far |
| UltraEncoder.CompressAll | lib/src/compress.c:1001-1070 | any split of the input into reads loads it completely, the checksum is that of the input, and a short read is the user fault; failure names the blocks of the input written so far and the full block after them that has no code |
| UltraEncoder.FinishStream | lib/src/compress.c:1071-1093 | the last block, the end bit and the padding complete a stream that means the input, whose blocks all have codes and are full but for the last; failure names the block that has none |
| UltraEncoder.OutputEncodes | lib/src/compress.c:1083-1092 | the written bytes decode, behind any older window and before any following bytes, to the data and to the bits used |
| UltraEncoder.CompressEx | lib/src/compress.c:940-1093 | for every level, master and input: the output means the input to a decoder with the same master, with the input's checksum, its blocks split the input into full blocks with codes, and its tokens are those of a run of searches at the level's depths over the input in some pieces; it faults only on an oversized master or a short input; no code only where a block of such a split has none, and never for easy inputs |
| BlockSplits.EasyNotStuck | lib/src/compress.c:694-914 | no split of easy data has a block without a code: for Huffman blocks at most 985 bytes or 131 different bytes, for rANS blocks at most 4094 bytes or 38 different bytes |
| BlockSplits.HardNotSplit | lib/src/compress.c:694-914 | a text of 16383 bytes (8280 for rANS) has no split into blocks with codes, whatever matches are tried |
| CrowdedBlocks.CrowdedTextRepeatsNothing | lib/src/compress.c:1001-1059 | no three bytes of this text occur twice |
| CrowdedBlocks.CrowdedCounts | lib/src/compress.c:583-649 | its block of literals counts the frequent bytes h + 1 times, and as many others and both end symbols once |
| UltraFormat.Decode | lib/src/decompress.c:1597-1763 | the meaning of a bit string only ever extends the history, and a lenient reading never rejects |
| UltraRoundTrip.TokenRead | lib/src/decompress.c:1703-1763 | each token is read back from its bits when 13 bits can be looked ahead |
| UltraRoundTrip.EndRead | lib/src/compress.c:694-794 | the end mark is read as the end and never as a match |
| UltraRoundTrip.BodyRead | lib/src/decompress.c:1703-1763 | a block body replays its tokens and stops behind the end mark |
| UltraRoundTrip.StreamRead | lib/src/decompress.c:1597-1660 | any number of good blocks and a clear bit decode to what all their tokens produce, strictly or leniently |
| OutputWindow.CBuffer.CopyMatch | lib/src/decompress.c:1703-1763 | a match, possibly overlapping itself, extends the history as if copied byte by byte and overwrites no unflushed byte |
| OutputWindow.CBuffer.Flush | lib/src/decompress.c:1353-1381 | all pending bytes go out in history order up to the limit; a strict reader fails exactly when they exceed it |
| UltraDecoder.DecodeHt | lib/src/decompress.c:1661-1701 | returns 1, 0 or a fault as the presence bit and the tree description say, with both lookup tables rebuilt |
| UltraDecoder.NextOp | lib/src/decompress.c:1703-1763 | the lookups and extra bits give the next literal, match, end or fault of the format |
| UltraDecoder.DecompressBlock | lib/src/decompress.c:1703-1763 | decodes until the end mark, a fault or a full ring, and what it leaves is what the rest of the block means |
| UltraDecoder.FlushedSpace | lib/src/decompress.c:1343-1351 | after a flush the ring has room for the longest match, so no iteration overwrites a pending byte |
| UltraDecoder.OneBlock | lib/src/decompress.c:1624-1650 | alternating between decoding and flushing carries out the whole block, whatever the sizes |
| UltraDecoder.Round | lib/src/decompress.c:1624-1650 | one header and block advance the run by one block of the stream's meaning |
| UltraDecoder.DecompressorUltra | lib/src/decompress.c:1597-1660 | for every byte string, master, limit and mode: the bytes written, result, checksum and bits used are those the stream means, cut or refused at the limit |
| UltraCodec.RoundTrip | lib/src/compress.c:940-1093 | decompressing the output with the same master, behind any older window and with one more word behind it, gives exactly the data, its length and checksum, and strictly the bits used |
| UltraCodec.CompressThenDecompress | lib/src/decompress.c:1597-1660 | levels 2 to 5 end to end: compressing and decompressing any input gives it back with equal checksums, or some block of a split of the input has no 13-bit code; inputs of at most 985 bytes or 131 different bytes always come back |
| UltraCodec.DecompressRaw | lib/src/decompress.c:1821-1840 | a raw stream is accepted exactly when it decodes without lookahead bits and ends where its size says |
| UltraCodec.RawRoundTrip | lib/src/decompress.c:1803-1840 | what the compressor writes without a master is accepted as a raw stream of its own size and gives back the data |
| Rans.NormalisedFair | lib/src/uc2_rans.c:23-68 | normalisation gives a table that sums to 4096 with every used symbol at least 1 if and only if the clamping excess is below the largest scaled count |
| Rans.NormalisedShares | lib/src/uc2_rans.c:23-68 | every frequency is its share of 4096 rounded down, or 1 for a share below 1, but for the one that evens out the sum, the first of the largest |
| Rans.NotCorrectable | lib/src/uc2_rans.c:35-68 | counts that do not normalise leave a symbol that occurs with a frequency that its 12-bit field cannot hold, or with frequency 0 in a table that shares out the scale without it |
| Rans.FewSymbolsCorrectable | lib/src/uc2_rans.c:54-62 | up to 126 different symbols always normalise |
| Rans.ShortBlockCorrectable | lib/src/uc2_rans.c:35-62 | up to 4096 occurrences always normalise |
| CrowdedBlocks.CrowdedNotCorrectable | lib/src/uc2_rans.c:35-62 | the counts of a block of 8280 literals, 90 bytes counted 91 times and 92 symbols once, do not normalise |
| Rans.BuildTable | lib/src/uc2_rans.c:23-68 | the in-place loops compute the normalised table, 16-bit wrap included |
| Rans.FairAgain | lib/src/decompress.c:1213-1328 | normalising a normalised table, as the decoder does, changes nothing |
| Rans.TwelveBits | lib/src/compress.c:796-914 | with two symbols in use every frequency fits its 12-bit field |
| RansCoder.PushPop | lib/src/uc2_rans.c:96-112 | encoding keeps the state in [2^23, 2^31) and decoding finds the symbol and the state before it |
| RansCoder.GrowUndoesShrink | lib/src/uc2_rans.c:168-185 | the decoder reads back exactly the bytes one encoding step put out |
| RansCoder.OneSymbol | lib/src/uc2_rans.c:96-112 | decoding undoes encoding for one symbol, bytes included |
| RansCoder.SymbolsRoundTrip | lib/src/uc2_rans.c:168-185 | decoding returns all symbols in order and ends in state 2^23 with every byte consumed |
| RansCoder.DecodedUsed | lib/src/uc2_rans.c:143-185 | decoding from any bytes never yields a symbol of frequency 0 |
| RansCoder.BytesBound | lib/src/compress.c:796-914 | at most two bytes per symbol are put out |
| RansCoder.HeadOfPacked | lib/src/uc2_rans.c:143-166 | the decoder starts in the encoder's final state with the bytes in reverse order |
| RansCoder.RansEncoder.Encode | lib/src/uc2_rans.c:96-112 | the method performs one encoding step within 32 bits |
| RansCoder.RansEncoder.Finish | lib/src/uc2_rans.c:114-132 | four state bytes and the in-place reversal give the packed stream |
| RansCoder.RansDecoder.Decode | lib/src/uc2_rans.c:168-185 | the lookup array and the byte loop decode the next symbol |
| RansRoundTrip.HeaderRead | lib/src/decompress.c:1213-1328 | block sizes, table and bytes are read back and the table survives the second normalisation |
| RansRoundTrip.BodyRead | lib/src/decompress.c:1213-1328 | symbols and extra bits, read in the order written, replay the block's tokens |
| RansRoundTrip.BlockBytesShape | lib/src/compress.c:796-914 | the rANS bytes of a block number at most 2 nsyms + 4, below 65536 |
| RansRoundTrip.RansStreamRead | lib/src/decompress.c:1213-1328 | any number of blocks and a clear bit decode to what all tokens produce, if the output limit leaves room |
| RansWriter.Collect | lib/src/compress.c:796-914 | the pass over the intermediate buffer collects the block's symbols and extra bits |
| RansWriter.FlushBlockRans | lib/src/compress.c:796-914 | the block is appended in the rANS format if and only if its counts normalise |
| RansWriter.NotCorrectableLost | lib/src/compress.c:796-914 | a block whose counts do not normalise is lost when its table is written on: a frequency does not fit its field, or no bytes whatever decode to its symbols |
| RansDecompressor.RansWindow.CopyMatch | lib/src/decompress.c:1213-1328 | the match is copied up to the output limit without overwriting an unflushed byte |
| RansDecompressor.BlockBody | lib/src/decompress.c:1213-1328 | the symbol loop carries out the block or faults exactly where the format does |
| RansDecompressor.DecompressorRans | lib/src/decompress.c:1213-1328 | for every byte string, master and limit: the bytes written, result and checksum are those the stream means, any fault rejects it |
| UltraCodec.RansRoundTrip | lib/src/compress.c:940-1093 | decompressing a rANS-level output with any sufficient limit and any bytes behind it gives back exactly the data and checksum |
| UltraCodec.CompressThenDecompressRans | lib/src/decompress.c:1213-1328 | levels 6 to 9 end to end: the input comes back with equal checksums, or the counts of some block of a split of the input do not normalise; inputs of at most 4094 bytes or 38 different bytes always come back |
| UltraCodec.CompressHardText | lib/src/compress.c:940-1093 | at every level there is a text the compressor has no code for |
| Bwt.Compare | lib/src/uc2_preprocess.c:59-69 | the comparison is the lexicographic order of the two rotations, zero exactly for equal rotations |
| Bwt.MapRotates | lib/src/uc2_preprocess.c:96-141 | the last-to-first map takes each sorted row to a row whose text is rotated right by one, ties included |
| Bwt.Apply | lib/src/uc2_preprocess.c:71-94 | the output is the last column of the sorted rotations and the primary row is that of the text itself |
| Bwt.BuildMap | lib/src/uc2_preprocess.c:96-141 | counts and running starts give the last-to-first map |
| Bwt.RevertsApply | lib/src/uc2_preprocess.c:96-141 | walking the map from the primary row rebuilds every text, periodic or not, for any sorted order |
| Bwt.Revert | lib/src/uc2_preprocess.c:96-141 | the in-place loops carry out the walk; a primary index outside the data is refused |
| Bwt.RoundTrip | lib/src/uc2_preprocess.c:71-141 | transforming and reverting gives back every text |
| Blake3.StackLength | lib/src/uc2_blake3.c:133-146 | the stack holds one entry for each one bit of the number of completed chunks |
| Blake3.FullIsTree | lib/src/uc2_blake3.c:112-146 | a stack entry is the root of a complete subtree of the left-balanced tree |
| Blake3.FoldIsTree | lib/src/uc2_blake3.c:182-206 | folding the last chunk into the stack gives the left-balanced tree of the whole input, ROOT applied once, at the root |
| Blake3.FlagsApart | lib/src/uc2_blake3.c:15-21 | the flags tell first, last and root blocks of a chunk apart, and a parent from all of them |
| Blake3.Hasher.StackRoom | lib/src/uc2_blake3.c:133-146 | 54 entries are enough for any input below 2^64 bytes |
| Blake3.Hasher.PushCv | lib/src/uc2_blake3.c:133-146 | merging while the counter's low bit is zero keeps the stack equal to the complete subtrees so far |
| Blake3.Hasher.Update | lib/src/uc2_blake3.c:154-180 | after any split into updates the state stands for the concatenation of everything fed in |
| Blake3.Hasher.Final | lib/src/uc2_blake3.c:182-206 | the digest is that of the recursive tree over the input, and the state is unchanged |
| Blake3.Hash | lib/src/uc2_blake3.c:208-214 | one-shot hashing computes the tree of section 2.1 of the BLAKE3 specification |
| Chunking.ChunksJoin | lib/src/uc2_cdc.c:68-106 | chunks join to the data, none is empty and none longer than the maximum |
| Chunking.BoundaryIff | lib/src/uc2_cdc.c:52-91 | a boundary is where the last b bits of the hash are 0, for b the bits asked for, from 8 to 20 |
| Chunking.DefaultSizes | lib/src/uc2_cdc.c:52-61 | without sizes given the least and the greatest are 2^b / 4 and 4 * 2^b |
| Chunking.BoundaryLocal | lib/src/uc2_cdc.c:85-91 | whether a text ends at a boundary depends on its last b bytes alone |
| Chunking.CutIff | lib/src/uc2_cdc.c:68-106 | a cut is at the first boundary behind the least size, or where there is none at the greatest size or the end |
| Chunking.ChunkEnds | lib/src/uc2_cdc.c:68-106 | every chunk of a text ends so, and every one but the last has more than the least size |
| Chunking.CutAlike | lib/src/uc2_cdc.c:68-106 | texts that are cut before the same rest are cut alike from there on |
| Chunking.BackInStep | lib/src/uc2_cdc.c:68-106 | texts that differ before and agree from b bytes before a cut of the one on are cut alike from there on, if the sizes allow the other a cut there and it has no boundary before |
| Chunking.CutInWindow | lib/src/uc2_cdc.c:68-106 | a buffer that holds a maximal chunk or the end of the data is cut where the whole text is |
| Chunking.Chunker.Next | lib/src/uc2_cdc.c:68-106 | the next boundary is that of the text from the current position, and after the last chunk an empty one at the end; more is reported exactly while data is left or the last chunk ends with a boundary |
| Chunking.WalkWhole | lib/src/uc2_merkle.c:38-59 | walking until no more is reported or a chunk is empty yields all chunks of the text |
| Chunking.ChunkStream | python/uc2/snapshot.py:385-395 | refilling a bounded buffer before each cut, whatever the reads return, finds the boundaries of the whole stream |
| Chunking.ChunkFile | lib/src/uc2_writer.c:267-282 | loading 16 KiB afresh at every chunk start finds the boundaries of the whole file |
| ArchiveGroups.Writer.MarkDuplicates | lib/src/uc2_writer.c:348-380 | a file is marked exactly when its contents are those of the first file of its size and digest, which is never marked itself |
| ArchiveGroups.Writer.AddMaster | lib/src/uc2_writer.c:245-259 | the given files and no others move to a new master whose record is their number, their total size and one of the largest of them; the other masters' records stay right |
| ArchiveGroups.Writer.GroupByChunks | lib/src/uc2_writer.c:286-299 | every master is of 2 to 256 files that all contain one chunk, each file with at most one master, however often a chunk occurs in a file; no two files left without a master have a chunk of one hash |
| ArchiveGroups.Writer.GroupRest | lib/src/uc2_writer.c:300-305 | at most one more master takes all files that are left |
| ArchiveGroups.Writer.AdoptDuplicates | lib/src/uc2_writer.c:385-390 | repetitions get the masters of their originals, which have one, and the records stay right |
| ArchiveGroups.Writer.Group | lib/src/uc2_writer.c:258-390 | every file ends with exactly one master and no directory has one, every master's record is that of its files, there are no more masters than files, and every master but the last is that of 2 to 256 files that are no repetitions and all contain one chunk; if the last is not, no two of its files share one |
| ArchiveGroups.IndexChunks | lib/src/uc2_writer.c:260-287 | the index of chunk hashes holds exactly the chunks of the files of at least 1024 bytes that are no repetitions, sorted by hash and file |
| ArchiveGroups.FileIndex | lib/src/uc2_writer.c:344-360 | the sorted index holds every file once, by size, digest and position |
| ArchiveGroups.Arrange | lib/src/uc2_writer.c:258-390 | finding repetitions, cutting the other files into chunks, grouping and adopting, one after the other: from any list of inputs every master but the last is that of 2 to 256 files in which chunks of one hash occur; if the last is not, no two of its files of at least 1024 bytes that are no repetitions have a chunk of one hash; repetitions share the master of their original |
| Sorting.SortedOrder | lib/src/uc2_writer.c:344-360 | sorting by a total order that leaves no choice puts every two elements in order |
| Snapshots.FilesKept | python/uc2/snapshot.py:567-607 | keeping a snapshot's chunks keeps the files it restores to |
| Snapshots.SoundStep | python/uc2/snapshot.py:398-927 | no step of create, prune, compact or repair, finished or cut off, makes a visible snapshot lose a chunk |
| Snapshots.SoundRun | python/uc2/snapshot.py:398-927 | in every state of every run all visible snapshots can be restored |
| Snapshots.RestoresSame | python/uc2/snapshot.py:636-682 | a snapshot that was restorable once and never removed restores to the same files ever after |
| SnapshotRepo.Repository.StoreChunk | python/uc2/snapshot.py:344-382 | a chunk already there is read back and compared, a new one is added; nothing stored changes |
| SnapshotRepo.Repository.StoreFile | python/uc2/snapshot.py:398-496 | the stored entry fetches exactly the file's bytes |
| SnapshotRepo.Repository.SaveManifest | python/uc2/snapshot.py:255-265 | the manifest is added under its digest unless the same one is there, and only when all its chunks are |
| SnapshotRepo.Repository.Create | python/uc2/snapshot.py:398-496 | every durable state on the way is allowed, and on success the new snapshot has the time and name given, restores to exactly the sources and is the only one added or changed; it succeeds if stored chunks are intact and digests do not collide |
| SnapshotRepo.Repository.Prune | python/uc2/snapshot.py:736-784 | plans the retained set, and applying it leaves exactly the retained snapshots and the chunks they need, manifests first |
| SnapshotRepo.LastAreLatest | python/uc2/snapshot.py:736-784 | the last k of the sorted list are the k newest snapshots |
| SnapshotRepo.LatestIff | python/uc2/snapshot.py:736-784 | a snapshot is among the k newest if and only if fewer than k are newer |
| SnapshotRepo.PruneResumes | python/uc2/snapshot.py:736-784 | rerunning an interrupted prune with the same retention reaches the uninterrupted result |
| SnapshotRepo.Repository.Compact | python/uc2/snapshot.py:851-927 | packs a sound store without changing its snapshots and chunks, in durable states that all show the same snapshots; it can be rerun |
| SnapshotRepo.Repository.Restore | python/uc2/snapshot.py:636-682 | returns the snapshot's files if and only if every chunk and digest is right, and changes nothing |
| SnapshotRepo.Repository.Repair | python/uc2/snapshot.py:804-848 | fixes the selected snapshots from a donor in which all of them verify, leaving all other snapshots as they are and keeping every valid chunk and snapshot |
| SnapshotRuns.Perform | python/uc2/snapshot.py:398-927 | every durable state of every command is an allowed step and keeps what each snapshot restores to, except snapshots an applied prune does not name |
| SnapshotRuns.PerformAll | python/uc2/snapshot.py:398-927 | over any commands every durable state of a sound repository is sound, and a snapshot restores to the same sources in each unless a prune does not name it and keeps no more than the snapshots newer than it and those added since |
| SnapshotRuns.TakeRunRestore | python/uc2/snapshot.py:398-927 | a snapshot taken, any commands and a restore give back the sources, unless a prune does not name it and keeps no more than the snapshots that were not older and those added since |
| SnapshotRuns.NewestSpared | python/uc2/snapshot.py:736-784 | the newest snapshot survives every prune that keeps at least one, until another is added |
| SnapshotRuns.RestoreAfterRun | python/uc2/snapshot.py:398-927 | the same over any run of operations cut off anywhere that never removes the snapshot |
| Lz4.SequenceBack | lib/src/uc2_lz4.c:129-188 | the decoder reads a sequence back as its literals and its match, lengths of any size included |
| Lz4.BlockBack | lib/src/uc2_lz4.c:129-188 | a block decodes to what its sequences and last literals replay |
| Lz4.RoundTrip | lib/src/uc2_lz4.c:34-188 | any block the compressor may produce decodes to its text when there is room for it |
| Lz4.FindMatch | lib/src/uc2_lz4.c:63-77 | the first position is found, up to twelve bytes before the end, at which four bytes repeat those at the last position tried with their hash, within 65535 bytes |
| Lz4.HashTells | lib/src/uc2_lz4.c:24-32 | of four bytes that begin with the same two, those with different last two have different hashes |
| Lz4.Extend | lib/src/uc2_lz4.c:83-85 | the match is extended as long as the text repeats, up to five bytes before the end |
| Lz4.RoomForSequence | lib/src/uc2_lz4.c:87-92 | a sequence takes no more room than it covers, with one byte in 255 to spare |
| Lz4.EmitSequences | lib/src/uc2_lz4.c:58-109 | the sequences written are the matches found one after the other until none is left, and cover the text up to the anchor, and the output never overflows when it has room for one byte in 255 more than the text |
| Lz4.OneParse | lib/src/uc2_lz4.c:58-109 | a text has one such list of sequences |
| Lz4.Compress | lib/src/uc2_lz4.c:34-127 | the output is the bytes of the greedy parse of the text, encodes the text and meets the end-of-block conditions of the LZ4 Block Format; it never exceeds the buffer, and with capacity n + n/255 + 16 no overflow is reported |
| Lz4.Decompress | lib/src/uc2_lz4.c:129-188 | for every byte string and capacity: the output of the block if it is well formed and fits, else 0 |
| Lz4.CompressThenDecompress | lib/src/uc2_lz4.c:34-188 | every text up to 4 GiB - 1 comes back |
| Turbo.ControlShift | lib/src/decompress.c:1168-1181 | shifting the control byte yields its bits from the top and leaves the control byte of the rest |
| Turbo.HashIff | original/UC2_source/src/COMP_TT.H:16 | the hash tells all pairs of bytes apart but those that differ in just the bit both share |
| Turbo.TableSays | original/UC2_source/src/COMP_TT.CPP:66-82 | after a text the table holds for each hash the byte that last followed a pair with it, or what was there before the text |
| Turbo.LastTwo | original/UC2_source/src/COMP_TT.CPP:77-78 | the pair kept is the last two bytes |
| Turbo.HitsIff | original/UC2_source/src/COMP_TT.CPP:69-76 | exactly the bytes that repeat what last followed their pair are predicted |
| Turbo.LoadedLearns | original/UC2_source/src/COMP_TT.CPP:38-52 | the dictionary fills the table as the same text would, but for its last ten bytes |
| Turbo.GroupBack | lib/src/decompress.c:1166-1183 | a group is read back with the predictors in step, with input behind it only if it has eight bytes |
| Turbo.BlockBack | lib/src/decompress.c:1166-1183 | the implicit end of the last group is found by input and control bits both being used up |
| Turbo.StreamBack | lib/src/decompress.c:1156-1189 | the predictor tables stay equal over any number of blocks |
| Turbo.RoundTrip | original/UC2_source/src/COMP_TT.CPP:29-94 | a stream gives back its text under any limit that holds it, whatever follows it |
| Turbo.PackedSize | original/UC2_source/src/COMP_TT.CPP:57-58 | a packed block has at most 28125 bytes |
| Turbo.Model.constructor | original/UC2_source/src/COMP_TT.CPP:38-52 | both sides start with the table the dictionary fills |
| Turbo.PackGroup | original/UC2_source/src/COMP_TT.CPP:66-82 | the control byte and the stored bytes of a group are written in place |
| Turbo.Compress | original/UC2_source/src/COMP_TT.CPP:61-90 | whatever the reads return, the output is the packed blocks of the input and the empty block |
| Turbo.UnpackGroup | lib/src/decompress.c:1166-1183 | the loop over the control bits decodes a group or faults where the format does |
| Turbo.Decompress | lib/src/decompress.c:1141-1193 | for every byte string, dictionary and limit: the output, its checksum and the error code are those the stream means |
| Turbo.CompressThenDecompress | lib/src/decompress.c:1141-1193 | every text comes back with its checksum, for every dictionary and split into reads |
| Masters.OneDict | lib/src/decompress.c:562-681 | an id has at most one dictionary, however long the chain it is looked for on |
| Masters.CycleHasNone | lib/src/decompress.c:607-610 | masters that only depend on each other have no dictionaries |
| Masters.NoneInCycle | lib/src/decompress.c:607-610 | a chain that comes back to one of its masters leads to no dictionary |
| Masters.Context.LinkChain | lib/src/decompress.c:598-617 | the first pass terminates on any graph; it fails only if the wanted dictionary does not exist, else it leaves the chain linked from its far end |
| Masters.Context.DecodeChain | lib/src/decompress.c:619-638 | each master is decoded after its parent; success leaves no link, failure means no dictionary unless an allocation was refused |
| Masters.Context.ResolveMaster | lib/src/decompress.c:562-649 | succeeds exactly if the built-in dictionary and the wanted one exist, unless an allocation was refused; no link survives, only complete dictionaries are cached, none is lost |
| Masters.Context.ParentReady | lib/src/decompress.c:651-681 | whatever a usable dictionary was decoded against is usable too |
| Masters.Context.UseMaster | lib/src/decompress.c:651-681 | the bytes handed out for a usable id are its dictionary |
| Ingest.SomeEmpty | cli/src/main.c:1520-1529 | with fewer chunks than places a probe always meets an empty place, so it ends |
| Ingest.FoundBefore | cli/src/main.c:1520-1529 | a stored chunk lies before the first empty place on its key's probe |
| Ingest.Inserted | cli/src/main.c:1565-1566 | filling the place where the probe stopped keeps every stored chunk reachable |
| Ingest.ChunkIndex.Grow | cli/src/main.c:1369-1382 | doubling the index keeps exactly the same chunks, each reachable |
| Ingest.Lookup | cli/src/main.c:1515-1529 | finds a stored chunk with the same bytes if there is one, whatever the hash does |
| Ingest.Record | cli/src/main.c:1505-1568 | the occurrence refers to a stored chunk with the chunk's bytes; nothing is stored twice and the spool offset fits 32 bits |
| Ingest.IngestStream | cli/src/main.c:1489-1569 | the occurrences are exactly the chunks of the stream, the stored chunks are pairwise different, and only streams of 4 GiB or more are refused |
| Ingest.Restores | cli/src/main.c:1324-1332 | concatenating the stored chunks of all occurrences restores the stream |
| UltraCache.PutPut | original/UC2_source/src/LLIO.CPP:392-443 | two adjoining writes are one write |
| UltraCache.CachedFile.InternalRead | original/UC2_source/src/LLIO.CPP:249-280 | a short read sets the remembered length, which stays right if and only if the read does not start behind the end |
| UltraCache.CachedFile.Fill | original/UC2_source/src/LLIO.CPP:711-724 | bytes are copied across page borders behind those already there |
| UltraCache.CachedFile.FromPages | original/UC2_source/src/LLIO.CPP:605-618 | bytes are copied out across page borders |
| UltraCache.CachedFile.WriteBack | original/UC2_source/src/LLIO.CPP:394-435 | the deferred bytes reach the disk in order through a transfer buffer of any size |
| UltraCache.CachedFile.Flush | original/UC2_source/src/LLIO.CPP:392-443 | the disk holds the file's contents and the cache is empty at the current position |
| UltraCache.CachedFile.UnCache | original/UC2_source/src/LLIO.CPP:445-452 | contents and position are kept, and the contents are on disk |
| UltraCache.CachedFile.CacheRT | original/UC2_source/src/LLIO.CPP:475-533 | taking in the whole file keeps contents and position |
| UltraCache.CachedFile.Refill | original/UC2_source/src/LLIO.CPP:647-671 | what is read ahead is the file at the current position and holds the wanted bytes |
| UltraCache.CachedFile.Read | original/UC2_source/src/LLIO.CPP:597-682 | returns the bytes a plain file would and moves as it would, in every mode and whatever length is remembered; a right length stays right if and only if the read is in read mode, empty, or starts within the file |
| UltraCache.CachedFile.ReadThenSize | original/UC2_source/src/LLIO.CPP:597-767 | the size given after a read is the file's if and only if the read is in read mode, empty, or starts within the file |
| UltraCache.CachedFile.Write | original/UC2_source/src/LLIO.CPP:684-735 | changes contents and position as a plain file would, deferred or not, short of memory or not; a write of no bytes changes nothing or sets the length to the position |
| UltraCache.CachedFile.Seek | original/UC2_source/src/LLIO.CPP:737-748 | moves the position and keeps the contents, deferred bytes included |
| UltraCache.CachedFile.GetFileSize | original/UC2_source/src/LLIO.CPP:758-767 | the length includes deferred bytes; it is never too small, and right if the remembered one is |
| UltraCache.CachedFile.Run | original/UC2_source/src/LLIO.CPP:445-767 | any sequence of operations and mode changes gives the results of a plain file for which a write of no bytes may set the length to the position, and its contents end up on disk; only sizes asked for after an operation that misleads the program about the length may be too large, and it stops only where a whole file is taken in by such a length |
| DamagePro.ParitySplit | original/UC2_source/src/DAMPRO.CPP:388-405 | the parity of a class is that of the other sectors and the sector itself |
| DamagePro.Recovers | original/UC2_source/src/DAMPRO.CPP:376-422 | intact parity and checksums bring every sector back if each class has at most one damaged sector and its checksum shows it |
| DamagePro.CheckTable.SetChk | original/UC2_source/src/DAMPRO.CPP:37-61 | the entry is set in the linked blocks and the earlier ones are kept |
| DamagePro.CheckTable.GetChk | original/UC2_source/src/DAMPRO.CPP:64-90 | the entry set last is returned, wherever the cursor was |
| DamagePro.CheckTable.Dump | original/UC2_source/src/DAMPRO.CPP:188-196 | the blocks are written as the entries in order |
| DamagePro.CheckTable.Load | original/UC2_source/src/DAMPRO.CPP:353-360 | the entries are read back into the blocks |
| DamagePro.ReadSectors | original/UC2_source/src/DAMPRO.CPP:167-176 | one pass computes the parity of every class and the checksum of every sector |
| DamagePro.Protect | original/UC2_source/src/DAMPRO.CPP:129-210 | the file is the padded data, its parity sectors, its checksums and their checksum |
| DamagePro.CalcLeast | original/UC2_source/src/DAMPRO.CPP:112-125 | the number of parity sectors is the least power of two that leaves fewer than 200 sectors to each, and 16 from 3200 sectors on |
| DamagePro.Rebuild | original/UC2_source/src/DAMPRO.CPP:388-405 | stepping through the class rebuilds the sector from the others and the parity sector |
| DamagePro.Repair | original/UC2_source/src/DAMPRO.CPP:326-426 | each sector is kept, rebuilt or given up as its checksum says; success is reported exactly if every one is right; the result always has the length of the data |
| DamagePro.RepairRestores | original/UC2_source/src/DAMPRO.CPP:326-426 | a lightly damaged file with intact records is repaired to exactly its data, with success reported |
| DamagePro.ProtectThenRepair | original/UC2_source/src/DAMPRO.CPP:129-426 | protecting, damaging lightly and repairing gives back the data |

## Left out

- The delta filter between the window and the output, encryption, archive directories, tags and names.
- Write and read callbacks that fail, and allocation, which always succeeds.
- The linked lists inside the repair loop: each length has a sorted sequence, of which the source always takes the head.
- The source keeps one compressor record; the model splits it into the window, the token buffer and the bit writer.
- Bit-or of disjoint bits is modelled as addition, and masking by all low ones as a remainder; the disjointness is part of `BitIO.HoldsPut`.
- qsort's result is a parameter of the Burrows-Wheeler transform: any sorted permutation.
- The BLAKE3 compression function is uninterpreted, and so is SHA-256; only repair assumes that distinct chunks have distinct digests.
- Compression ratio, and identity of the output with the compressor of 1992.
- UltraEncoder.CompressEx: what its searches find is stated for positions below 2^64 - 1; the sizes of the source have 32 bits.
- Snapshot path policy, size limits, metadata, file locks, JSON and SQLite syntax: the store is two maps and an atomic switch.
- The byte-call and jump filters, the plain delta transform and content detection: easy members.
- LengthRepair.RepairLengths: for codes of other sizes than 13 bits and 316 symbols only one direction of the condition is stated; the two other trees the compressor builds never meet the failing branch at all. That longer codes stay longer is stated for one pass and for an excess of one bit; later passes may part symbols that an earlier one made equally long and may bring them together again, so after several passes only `Repaired` says how they lie.
- LZ4 and Turbo: null pointers and allocation failures; Turbo's decoder of 1992 is the same loop without the checks of `lib/src/decompress.c`.
- Ingest: the archive and directory bytes around the stored chunks, the growth of the occurrence and chunk tables, and file errors. A key masked by a power of two is modelled as a remainder.
- Masters: the decompressors are an uninterpreted function of a master's record and its window.
- UltraCache: several handles, files of 2 GiB and more, SetFileSize, KillCache, disk errors, and running out of entries in the page table. Which memory is left and how large the transfer buffer is are arbitrary.
- UltraCache.CachedFile.Run: a run stops where the cache takes in a whole file while the remembered length may be wrong; what it would then hold is not modelled.
- Damage protection: VerifyDP and the copy of the archive header that the repair appends.
- DamagePro.Repair: of a file too short to hold its records only the length of the result is stated, because short reads leave what the buffers held before.
- ArchiveGroups: allocation, reading the spooled data and the limit on chunks. qsort is modelled by its result, which `Sorting` computes.
- RansFormat.RansDecode: a header read past the end rejects the stream at its first error; the source notices it after the field loop, with the same result.
