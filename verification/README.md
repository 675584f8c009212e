# bzip2 and zlib, verified

The repository vendors two compression libraries, bzip2 1.0.6 (`dep/bzip2`) and zlib 1.2.8
(`dep/zlib`). This project models the algorithms they are made of and proves what they promise.

- **bzip2, both directions, whole files.** Bytes are gathered into runs and these into blocks
  (`RunLength`, `BlockCuts`, `CompressStream`), a block is sorted by its cyclic rotations
  (`BucketSort`, `FallbackSort`), its last column becomes move-to-front ranks and zero runs
  (`MoveToFront`, `MtfEncoder`), these are coded with Huffman codes of at most 17 bits, the
  cheapest for weights rescaled no more often than needed (`WeightHeap`, `Forest`, `TreeDepth`,
  `JoinOrder`, `CodeLengths`, `CanonicalCode`), two to six of them, refined in passes
  (`TableParts`, `TableChoice`), and the bits go out through a bit buffer that is carried over
  from block to block (`BitStream`, `SelectorMtf`, `BlockFormat`, `BlockCodec`, `StreamFormat`).
  The decoder takes all of it back (`BlockReceive`, `Huffman`, `MtfList`, `MtfDecoder`,
  `InverseFast`, `InverseSmall`, `RunLengthOutput`, `BlockDecode`, `StreamDecode`). `FileStream`
  joins the two: any bytes, any division of input and output into calls on either side, the same
  bytes, and blocks that the bytes alone decide. A stream whose checksums do not match what it
  gives out is refused, whatever its bytes. `OutputForms` compares the two forms of the decoder's
  output stage, `CodingSize` bounds what a block can become.
- **zlib's Huffman codes.** `build_tree` with its heap, the repair of lengths that overflow and
  the codes (`TreeHeap`, `LimitedTree`, `BitLengths`, `GenCodes`, `BuildTree`); that its codes are
  the cheapest there are (`HuffmanCost`, `TreeCost`); the coding of the code lengths
  (`TreeCoding`); `inflate_table`, and that its tables always have room (`BitReversal`,
  `CodeOrder`, `TableSpec`, `TableSize`, `InflateTable`, `TableRoom`); and that the tables lead
  from each code `build_tree` makes back to its symbol (`CodeTables`). The symbols' lengths and
  distances tile their ranges (`CodeRanges`), and the tokens of a block, sent as bits by
  `compress_block`, are what `inflate` reads (`DynamicBlock`).
- **zlib's matches.** The hash, the chains, the search, the sliding window and the four match
  finders of `deflate` over any sequence of calls: that the tokens expand to the input, and which
  match is chosen, stated over text and positions alone (`Tokens`, `StringHash`, `HashChains`,
  `MatchRule`, `MatchSearch`, `DeflateState`, `Deflate`, `LazyMatches`, `RunMatches`,
  `DeflateStream`); the window and match copies of `inflate` (`InflateWindow`), its output over
  any calls, and that it gives back what `deflate` took in (`InflateStream`).
- **Checksums.** CRC-32 with its tables and its combination, Adler-32 with its combination
  (`Crc32`, `Crc32Tables`, `Adler32`); bzip2's block checksum (`BlockCrc`).

Code that works in place is modelled in place: arrays, stacks, bit buffers and stream states are
arrays and class fields, and each method is proved against a function of its inputs. The formats
are those of sections 3.1.1 and 3.2 of RFC 1951, section 8 of RFC 1950 and section 8 of RFC 1952
as far as the sources follow them. `dafny verify dfyconfig.toml` checks the project.

## Model

| member | source | states |
|---|---|---|
| FileStream.ThereAndBack | dep/bzip2/bzlib.c:407-463 | whole file: for any bytes, any division of them into writes, any output space in each call of the compressor and of the decompressor, the compressor finishes; its bytes are a stream of the one division of the input into blocks, each but the last ended by the run with which its run-length code reaches 100000 times the level less 19, and each coded with the tables and selectors the passes arrive at; and the decompressor, given them, gives back the input as far as its space goes, reporting the end of the stream exactly when all is out |
| FileStream.InPieces | dep/bzip2/bzlib.c:808-855 | the same with the compressed bytes supplied in any pieces: nothing but the original bytes comes out, all of them by the end of the stream, and the end is not reached only if input is withheld or the last call has filled its space |
| FileStream.AnyCalls | dep/bzip2/bzlib.c:407-463 | the same for any sequence of actions, flushes and misuse included: a refused call takes and gives nothing, an incomplete flush or finish has filled its space, and if the stream ended then exactly the input taken comes back |
| BlockCuts.SameBlocks | dep/bzip2/bzlib.c:360-403 | however the input came in, its bytes alone decide how many blocks there are and what each one holds |
| BlockCuts.BlockCount | dep/bzip2/bzlib.c:360-403 | the number of blocks follows from the length of the run-length code: all but the last hold at least the limit, none holds more than four bytes more |
| BlockCuts.OneDivision | dep/bzip2/bzlib.c:260-284 | a sequence of runs can be divided in one way only into blocks that are ended when full |
| FileStream.Write | dep/bzip2/bzlib.c:964-1006 | the loop of BZ2_bzWrite ends with all bytes taken, no call refused, nothing lost, for any nonzero space in each call; the blocks it adds are full ones |
| FileStream.WriteClose | dep/bzip2/bzlib.c:1046-1065 | repeated BZ_FINISH reaches the end of the stream, with all input in blocks and everything written given out, for any nonzero space in each call |
| CompressStream.Encoder.Compress | dep/bzip2/bzlib.c:407-463 | one call keeps input and output conserved; when each status is returned; progress is made whenever the source promises it; BZ_FINISH with space is refused only for misuse; a block is ended only when full, or by a flush or finish that has taken all its input: BZ_RUN adds full blocks only |
| CompressStream.Encoder.HandleCompress | dep/bzip2/bzlib.c:360-403 | the state machine stops only with the space filled, the input used up, or the flush or finish complete; progress is reported exactly when a byte moved; every block it adds but one that a complete flush or finish ends is full |
| CompressStream.Encoder.Complete | dep/bzip2/bzlib.c:437-463 | over every run: the bytes given out for a finished stream are header, coded blocks and trailer; the blocks decode to all input consumed, carry its checksums, and hold at most 100000 bytes per level |
| CompressStream.Encoder.CompressBlock | dep/bzip2/compress.c:602-664 | the block joins those written; the stream checksum is updated unless it is empty; bits left in the buffer are carried over; the last block brings the trailer; block and coded bytes fit into the array they share |
| CodingSize.BlockShort | dep/bzip2/compress.c:602-664 | no block of n bytes becomes more than 20 (n + 1) bits and a constant, for any tables and selectors |
| CodingSize.FitsBehind | dep/bzip2/bzlib.c:169-206 | so at every level a block and its coded bytes fit into arr2 |
| CompressStream.Encoder.AddCharToBlock | dep/bzip2/bzlib.c:260-284 | the block and the pending run stand for what they stood for before, plus the byte; at most five bytes are added |
| CompressStream.Encoder.AddPairToBlock | dep/bzip2/bzlib.c:215-247 | the pending run joins the runs the block encodes; block, checksum and symbols in use stay exact |
| CompressStream.Encoder.FlushRL | dep/bzip2/bzlib.c:251-256 | ending the pending run loses nothing |
| StreamDecode.Decoder.Decompress | dep/bzip2/bzlib.c:808-855 | any bytes, in whatever pieces they come: the end of the stream is reported only if the bits read are a header, blocks each carrying the checksum of the bytes given out for it, and a trailer carrying their combination, and an error only for bytes at hand, never for lack of input; coded blocks with any checksums: each call gives the next bytes, all up to the first wrong checksum, refuses exactly there, and stops short of its space only there, at the end of the stream or while more input is to come |
| StreamDecode.Decoder.CloseBlock | dep/bzip2/bzlib.c:822-838 | for any bits: a block passes exactly if its stored checksum is that of the bytes given out for it, and then joins the checksum of the stream |
| StreamDecode.Decoder.ReadTrailer | dep/bzip2/bzlib.c:840-849 | for any bits: the end of the stream is reported exactly if the trailer is there and its checksum is the combination of the blocks' |
| StreamDecode.Judge | dep/bzip2/bzlib.c:808-855 | coded blocks and a trailer with any stored checksums: what comes out, when the stream is refused and when its end is reported, exactly |
| StreamDecode.JudgeInPieces | dep/bzip2/bzlib.c:808-855 | the same with the bytes supplied in any pieces; ended or refused depends on the checksums alone |
| StreamDecode.FirstWrong | dep/bzip2/bzlib.c:822-838 | what comes out of a stream with a wrong block checksum is the blocks up to and with that one, and it is refused |
| StreamDecode.NoneWrong | dep/bzip2/bzlib.c:840-849 | with no wrong block checksum everything comes out, and the stream is accepted exactly if the trailer carries the combination |
| StreamDecode.AnyBytes | dep/bzip2/bzlib.c:808-855 | any bytes in any pieces, any output spaces: an end is reported only for bytes that begin with a whole stream whose checksums match what was given out |
| StreamDecode.Restore | dep/bzip2/bzlib.c:808-855 | what any finished compression gave out, supplied in the first call, restores exactly as much of what it consumed as there is space |
| StreamDecode.RestoreInPieces | dep/bzip2/bzlib.c:808-855 | what any finished compression gave out, supplied in any pieces with any output spaces, restores a beginning of what it consumed, and all of it by the end |
| StreamFormat.CompressBlock | dep/bzip2/compress.c:602-664 | the bits of a call are the buffered ones, the header for the first block, the block unless empty, the trailer for the last, and what is not yet whole bytes stays in the buffer |
| StreamFormat.MagicNumbers | dep/bzip2/compress.c:630-661 | a block begins with the decimal digits of pi, the trailer with those of its square root |
| BlockCrc.TableEntries | dep/bzip2/crctable.c:31-99 | the table the checksum is computed with has the entries spelled out there, at the powers of two, which determine the others, and at the end |
| BlockDecode.RoundTrip | dep/bzip2/decompress.c:222-576 | the bits of a coded block, read back, give FAST and SMALL outputs that will both deliver exactly the run-length decoding of the block, and its stored checksum |
| BlockDecode.ReadBlock | dep/bzip2/decompress.c:222-486 | reads any bits without leaving an array or using an entry that was never set, except for the selectors overrun described under Findings, which it reports exactly when it happens; what it accepts begins with a block header, whose checksum it returns, and what it leaves is the end of what came; the bits of a coded block give its checksum, position, symbols in use and symbols, and leave what follows, unless input is still to come |
| BlockDecode.DecodeColumn | dep/bzip2/decompress.c:358-520 | any symbols: accepted exactly if they decode to a column that fits and contains the block's own row; then the words hold it and the counts are its cumulative counts |
| BlockDecode.UnusedEntries | dep/bzip2/decompress.c:26-36 | entries of the byte map that makeMaps_d does not set have no influence on any block |
| BlockDecode.DecodeFast | dep/bzip2/decompress.c:557-576 | any accepted bits yield an output that delivers the decoding of the symbols spelled from the origin; a coded block yields its own bytes |
| BlockDecode.DecodeSmall | dep/bzip2/decompress.c:524-556 | the same with links of 20 bits |
| BlockDecode.BlockSpelled | dep/bzip2/decompress.c:559-576 | the symbols spelled from a block's last column and its own row are the block |
| OutputForms.SmallIsFast | dep/bzip2/bzlib.c:535-804 | for every sequence of symbols, origin and division of the output space: both forms accept the same inputs, give the same bytes and the same checksum, and report the same corruption, except that FAST already reports it when the space is filled exactly |
| OutputForms.NoticedLate | dep/bzip2/bzlib.c:589-681 | symbols the decoder accepts, and their column, on which that exception occurs |
| RunLengthOutput.AllDecodes | dep/bzip2/bzlib.c:589-681 | the bytes both outputs deliver are the run-length decoding of the block, and corruption is reported exactly if there is none |
| RunLengthOutput.FastOutput.UnRleFast | dep/bzip2/bzlib.c:589-681 | one call delivers the next bytes up to the space, updates the checksum over them, and says exactly when it finds corruption; what remains is what came less what was delivered |
| RunLengthOutput.SmallOutput.UnRleSmall | dep/bzip2/bzlib.c:705-804 | the same for SMALL |
| RunLengthOutput.GetFast | dep/bzip2/bzlib_private.h:444-449 | each read gives the next symbol of the spelling, with the bounds check on the link never failing for a column |
| RunLengthOutput.GetSmall | dep/bzip2/bzlib_private.h:458-479 | the same through packed links and the search in cftab |
| RunLength.DecodeEncode | dep/bzip2/bzlib.c:215-284 | decoding the bytes formed for any runs of 1 to 255 with different neighbours gives the runs written out |
| FallbackSort.Sort | dep/bzip2/blocksort.c:212-329 | for every block up to 900000 bytes, the rotations come out sorted lexicographically, ties allowed, as a permutation, and the block overwritten on the way is restored byte for byte |
| FallbackSort.FindOrigPtr | dep/bzip2/blocksort.c:1031-1085 | finds the row of the block itself |
| BucketSort.FallbackQSort3 | dep/bzip2/blocksort.c:93-180 | sorts the stretch by key, permutes it, and touches nothing else, on an explicit stack |
| BucketSort.StackDepth | dep/bzip2/blocksort.c:93-180 | pushing the larger part first keeps at most 32 stretches on a stack of 100, so its assertion cannot fail |
| BucketSort.Partition | dep/bzip2/blocksort.c:132-168 | three-way partition around the pivot: less, equal, greater, and a permutation |
| BucketSort.FallbackSimpleSort | dep/bzip2/blocksort.c:32-63 | sorts a short stretch by steps of four and one |
| Rotations.CmpIsRotationOrder | dep/bzip2/blocksort.c:212-329 | comparing n symbols cyclically is the lexicographic order of the rotations |
| BurrowsWheeler.WalkSpells | dep/bzip2/decompress.c:559-576 | walking the inverse-rank links of the last column of any rotation-sorted block from any row spells the block cyclically, ties included |
| BurrowsWheeler.InverseTransform | dep/bzip2/decompress.c:559-576 | from the block's own row the walk gives the block |
| BurrowsWheeler.LastColumnUnique | dep/bzip2/compress.c:163-167 | the last column does not depend on how ties were broken |
| BurrowsWheeler.OrderUnique | dep/bzip2/blocksort.c:1031-1085 | a block that equals none of its other rotations is sorted in one way only, so every correct sort yields the same stream |
| BurrowsWheeler.OrderNotUnique | dep/bzip2/blocksort.c:1031-1085 | any other block can be sorted with its own row in two different places |
| BlockCodec.OnlyOrigPtr | dep/bzip2/compress.c:624-650 | two sorts of one block, otherwise coded alike, differ at most in the 24 bits of that place, and not at all if the block equals none of its other rotations |
| BlockCodec.SortBlock | dep/bzip2/blocksort.c:1031-1085 | sorted rotations and the place of the block among them |
| BlockCodec.EncodeBlock | dep/bzip2/compress.c:602-664 | every block up to 900000 bytes gets a coding the decoder has room for, at most 18002 selectors included, with the tables and selectors the passes arrive at, and its bits are written |
| InverseFast.BuildCftab | dep/bzip2/decompress.c:488-520 | cumulative counts, refused exactly if some count or sum is out of range |
| InverseFast.BuildLinks | dep/bzip2/decompress.c:557-576 | packs each position's inverse-rank link above its symbol |
| InverseSmall.LinkStore.Set | dep/bzip2/bzlib_private.h:458-479 | storing a 20-bit link in 16+4 bits changes no other link |
| InverseSmall.ForwardVector | dep/bzip2/decompress.c:526-534 | every symbol is replaced in place by its rank |
| InverseSmall.ReverseCycle | dep/bzip2/decompress.c:536-546 | reversing the cycle through the origin leaves inverse-rank links on all of that cycle |
| InverseSmall.IndexIntoF | dep/bzip2/bzlib.c:687-698 | binary search finds the symbol whose bucket holds the row |
| InverseSmall.SmallReads | dep/bzip2/bzlib_private.h:458-479 | on the cycle, links and searched symbols are those of the FAST form |
| MoveToFront.RoundTrip | dep/bzip2/decompress.c:375-486 | decoding the move-to-front and zero-run symbols of any ranks gives the ranks back, with the guard on run weights never tripped up to 900000 |
| MtfEncoder.GenerateMtfValues | dep/bzip2/compress.c:119-231 | writes the symbols of the block's last column over the very array whose entries it still reads, with exact frequencies |
| MtfList.SegmentedList.Access | dep/bzip2/decompress.c:424-475 | on the list in 16 segments, access at any position gives that element and moves it to the front of the one list represented |
| MtfList.SegmentedList.Rebuild | dep/bzip2/decompress.c:424-475 | repacking the segments leaves the list unchanged |
| MtfDecoder.DecodeBlock | dep/bzip2/decompress.c:375-486 | any symbols: succeeds exactly when the reference decoding does, with its bytes and byte counts |
| CanonicalCode.PrefixFree | dep/bzip2/huffman.c:152-166 | under Kraft's inequality no canonical code begins another |
| Huffman.AssignCodes | dep/bzip2/huffman.c:152-166 | the codes are the canonical ones |
| Huffman.CreateDecodeTables | dep/bzip2/huffman.c:170-204 | limit, base and perm describe the canonical code; entries of perm past the alphabet are left unset |
| Huffman.GetMtfVal | dep/bzip2/decompress.c:74-101 | for any lengths in 1..20, Kraft's inequality or not: a symbol returned is one whose code comes next, exactly its bits are consumed, the place looked up lies within the alphabet, and the guard on it never fires; with the inequality, a symbol is found exactly if some code comes next |
| Huffman.SymbolAt | dep/bzip2/decompress.c:88-101 | for any lengths in 1..20, a value between the first code of its length and the limit leads to a place below the size of the alphabet and to the symbol with that code |
| WeightHeap.UpHeap | dep/bzip2/huffman.c:29-43 | restores the heap upwards, same content |
| WeightHeap.DownHeap | dep/bzip2/huffman.c:45-58 | restores the heap downwards, same content |
| CodeLengths.MakeCodeLengths | dep/bzip2/huffman.c:63-148 | for every frequency vector whose sums fit: the number of rescaling rounds is the least for which merging the two lightest never makes a tree deeper than maxLen, so none when the frequencies themselves make no deeper one; the lengths, 1..maxLen with a Kraft sum of exactly one, are those of a cheapest code for the weights of that round; a symbol with lower weight is never shorter |
| TreeDepth.SettleStep | dep/bzip2/huffman.c:80-123 | joining the two lightest nodes, ties broken by depth, leaves unchanged what all joins will come to: so the depth of the tree is a function of the multiset of weights |
| JoinOrder.LeafDepthsCheapest | dep/bzip2/huffman.c:80-123 | the depths of such a tree are the lengths of a code cheapest among all that satisfy Kraft's inequality |
| BitStream.BitWriter.BsW | dep/bzip2/compress.c:58-78 | the bits written are those before and the value's, highest first |
| BitStream.BitWriter.FinishWrite | dep/bzip2/compress.c:45-54 | all bits go out, padded with fewer than eight zeros |
| BitStream.BitReader.GetBits | dep/bzip2/decompress.c:43-65 | reads the next bits as a number, exactly if there are so many |
| BitStream.ReadsBack | dep/bzip2/compress.c:58-78 | what was written is what is read |
| SelectorMtf.PositionsBack | dep/bzip2/compress.c:461-478 | coding selectors by position in a list and decoding gives them back |
| SelectorMtf.EncodeSelectors | dep/bzip2/compress.c:461-478 | the positions, each below the number of tables |
| SelectorMtf.DecodeSelectors | dep/bzip2/decompress.c:301-314 | the selectors of any positions in range |
| TableChoice.ChooseTables | dep/bzip2/compress.c:238-460 | two to six complete codes of at most 17 bits that cover the alphabet, one selector for every fifty symbols, and they are what four passes lead to: in each, every group goes to the first of the tables that code it in the fewest bits, and every table is made anew, a cheapest code for the symbols of its groups |
| TableChoice.ChooseGroups | dep/bzip2/compress.c:317-430 | each group of fifty gets the first of the tables with the least cost, whether costs are added up one by one in sixteen bits or in pairs packed into words, which never overflow; each table's frequencies are those of the symbols of its groups |
| TableChoice.NoBetterChoice | dep/bzip2/compress.c:395-405 | with the tables at hand no other selectors code all groups in fewer bits |
| TableParts.MakeFirstTables | dep/bzip2/compress.c:279-316 | the alphabet is cut into parts that end as soon as they hold their share of the occurrences left, every second one a symbol earlier, and each table favours one part |
| TableChoice.OneStarts | dep/bzip2/compress.c:279-316 | the parts tile the alphabet: every symbol is favoured by exactly one of the first tables |
| BlockFormat.SendMtfValues | dep/bzip2/compress.c:490-594 | mapping, selectors, code lengths and symbols go out in the stated format |
| BlockReceive.RoomForSelectors | dep/bzip2/decompress.c:289-313 | for every announced number of selectors: no input that announces it leaves the arrays if and only if it is at most 18002 |
| BlockReceive.OneTooMany | dep/bzip2/decompress.c:289-313 | the least counterexample: 18003 zero selectors |
| BlockReceive.GetSelectors | dep/bzip2/decompress.c:286-314 | any bits: the store leaves the array only for the inputs named by the condition, and for all of them once the input is there; otherwise counts and values are in range; written selectors come back |
| BlockReceive.GetTable | dep/bzip2/decompress.c:316-329 | any bits give lengths in 1..20 or an error; written lengths come back |
| BlockReceive.GetTables | dep/bzip2/decompress.c:316-329 | the same for all tables |
| BlockReceive.GetSymbols | dep/bzip2/decompress.c:375-486 | any bits, and tables with or without Kraft's inequality, give symbols of the alphabet with one end-of-block symbol, at the end, or an error; written symbols come back, fifty to a table |
| BlockReceive.GetMtfValues | dep/bzip2/decompress.c:266-486 | the whole header and body of a block: total on any bits, exact on what was written |
| Crc32.CombinedIsConcat | dep/zlib/crc32.c:355-408 | the combination of the checksums of any two strings is the checksum of their concatenation |
| Crc32.CrcConcat | dep/zlib/crc32.c:200-235 | linearity: the checksum of a concatenation is the first carried over zeros, xor the second |
| Crc32.Crc32Combine | dep/zlib/crc32.c:355-408 | the even and odd matrices, squared in turn, compute that combination for every length |
| Crc32.MatrixTimes | dep/zlib/crc32.c:327-341 | the sum of the columns picked by the vector |
| Crc32.MatrixSquare | dep/zlib/crc32.c:344-352 | squaring the operator for k zero bits gives that for 2k |
| Crc32Tables.MakeCrcTable | dep/zlib/crc32.c:85-165 | all eight tables are what feeding bits one at a time gives |
| Crc32Tables.TableEntries | dep/zlib/crc32.h:8-59 | the first table has the entries spelled out there, at the powers of two, which determine the others, and at the end |
| Crc32Tables.Crc32Little | dep/zlib/crc32.c:241-275 | four bytes at a time from any address gives the bytewise checksum |
| Adler32.Adler32 | dep/zlib/adler32.c:65-133 | modulo deferred over 5552 bytes gives the bytewise definition exactly under the stated condition, so for all reduced sums |
| Adler32.ReducedExact | dep/zlib/adler32.c:65-133 | reduced sums meet the condition |
| Adler32.NotAlwaysExact | dep/zlib/adler32.c:77-91 | sums of 16 bits on which the source misses the definition |
| Adler32.NoOverflow | dep/zlib/adler32.c:14-16 | no sum exceeds 32 bits within a block of 5552 bytes |
| Adler32.CombinedIsConcat | dep/zlib/adler32.c:136-162 | the closed form on the sums of two strings gives the sums of their concatenation, for every length |
| Adler32.Adler32Combine | dep/zlib/adler32.c:136-162 | the source's conditional subtractions compute the closed form |
| TreeCoding.RoundTrip | dep/zlib/trees.c:750-795 | literal lengths then distance lengths, coded in runs, expand to both vectors and leave what follows |
| TreeCoding.SendTree | dep/zlib/trees.c:750-795 | sends that coding; every repeat count fits its extra bits |
| TreeCoding.ScanTree | dep/zlib/trees.c:705-745 | each frequency grows by exactly the number of times the symbol is sent |
| TreeCoding.CodeLengths | dep/zlib/inflate.c:936-982 | on any tokens: done, bad, or out of input, exactly as the reference expansion says |
| TreeCoding.CodeLengthsInPieces | dep/zlib/inflate.c:936-982 | the state may stop between any two tokens and go on: input in any pieces gives what it gives in one |
| InflateWindow.Window.UpdateWindow | dep/zlib/inflate.c:379-427 | the circular window holds the last bytes of all output so far |
| InflateWindow.InflateMatch | dep/zlib/inflate.c:1123-1167 | copies across window and output, in as many passes as needed, what byte-at-a-time copying from the distance back would give; refused exactly if the distance reaches before the window |
| InflateWindow.FastMatch | dep/zlib/inffast.c:186-281 | the same for the unrolled copies, with the window contiguous or wrapped |
| InflateStream.Inflater.Inflate | dep/zlib/inflate.c:1123-1241 | one call on any symbols: what comes out, what is still due and whether a symbol is refused are exactly those of expanding the symbols one by one, with the fast loop entered whenever there is room or not at all |
| InflateStream.Run | dep/zlib/inflate.c:1123-1241 | any symbols with distances within the window, over any calls and output spaces: a beginning of their expansion comes out, all of it unless the last call filled its space, and a symbol is refused only if they do not expand |
| InflateStream.ThereAndBack | dep/zlib/inflate.c:1123-1241 | the tokens of any finished deflate stream, inflated in any calls with a window at least as large, give the input back |
| LimitedTree.Excess | dep/zlib/trees.c:488-528 | cutting a binary tree at a depth leaves an excess of exactly half the overflow count |
| LimitedTree.LeavesRemain | dep/zlib/trees.c:530-548 | a shorter leaf always remains for each repair step |
| BitLengths.GenBitlen | dep/zlib/trees.c:488-566 | after the repair, lengths are in 1..maxLength, counted exactly, with a Kraft sum of exactly one, and equal the tree depths or are dealt out by frequency; the counts are those of the tree cut at the limit, after half as many splits of the deepest shorter level as leaves were cut |
| GenCodes.AssignCodes | dep/zlib/trees.c:575-607 | each code is its canonical code, reversed |
| GenCodes.BiReverse | dep/zlib/trees.c:1154-1164 | the bits in reverse order |
| GenCodes.LastCodeAllOnes | dep/zlib/trees.c:575-607 | a complete code ends with all ones |
| TreeHeap.PqDownHeap | dep/zlib/trees.c:443-478 | restores the heap from position k, same content |
| BuildTree.Build | dep/zlib/trees.c:617-698 | used symbols, and only those unless there are fewer than two, get lengths up to the limit with a Kraft sum of exactly one and prefix-free reversed codes; a rarer symbol is never shorter; if no length reaches the limit no prefix code is cheaper |
| CodeTables.ThereAndBack | dep/zlib/trees.c:617-698 | for any frequencies, the code build_tree makes is accepted by inflate_table within its room, every symbol that occurs has a code, and any bits that begin with a code look up its symbol, with the meaning CodeRanges gives it, and its length |
| HuffmanCost.Cheapest | dep/zlib/trees.c:617-698 | merging the two lightest each time costs least among all codes that satisfy Kraft's inequality |
| HuffmanCost.RarerDeeper | dep/zlib/trees.c:617-698 | in such a tree a lighter node lies at least as deep |
| TreeCost.NoneCheaper | dep/zlib/trees.c:617-698 | the lengths build_tree leaves are those of the cheapest code when none is cut |
| InflateTable.Build | dep/zlib/inftrees.c:32-305 | refused exactly for over-subscribed sets and incomplete ones other than those allowed; out of room exactly if root table and forced sub-tables exceed it, never for the code length code; else any bits that begin with a symbol's reversed code look up that symbol and its length; what the entry of a symbol means is in CodeRanges |
| CodeRanges.LiteralsAndEnd | dep/zlib/inftrees.c:60-65 | literal entries give the byte itself; the end of a block, the lengths and the symbols that do not exist are told apart |
| CodeRanges.DistancesExist | dep/zlib/inftrees.c:66-73 | the two distance symbols that do not exist are told apart from all others |
| CodeRanges.CodeLengthSymbols | dep/zlib/inftrees.c:182-197 | the entries of the code length code are its symbols themselves |
| CodeRanges.LengthsTile | dep/zlib/inftrees.c:60-65 | the ranges of length symbols follow one another without gap from 3 to 258, each as long as its extra bits say, and the last symbol is 258 alone |
| CodeRanges.DistancesTile | dep/zlib/inftrees.c:66-73 | the ranges of distance symbols follow one another without gap from 1 to 32768 |
| CodeRanges.OneLength | dep/zlib/inftrees.c:60-65 | every length from 3 to 258 belongs to the range of exactly one symbol of 257..284 |
| CodeRanges.OneDistance | dep/zlib/inftrees.c:66-73 | every distance from 1 to 32768 belongs to the range of exactly one symbol |
| CodeRanges.StaticInit | dep/zlib/trees.c:232-290 | for every length and distance the tables that are built give the symbol inflate_table means by it, with its base, length 258 its own symbol |
| DynamicBlock.CompressBlock | dep/zlib/trees.c:1060-1105 | the bits are those of the tokens, symbol codes and extra bits, and the end of the block |
| DynamicBlock.ReadSymbols | dep/zlib/inflate.c:1021-1122 | with tables that hold the codes, the bits of any tokens give these tokens and the end of the block, and what follows is left |
| DynamicBlock.Tally | dep/zlib/trees.c:1010-1035 | every symbol is counted as often as compress_block will send it |
| DynamicBlock.ThereAndBack | dep/zlib/trees.c:1060-1105 | any tokens the format allows, counted, given codes by build_tree and sent by compress_block, are read by inflate with the tables inflate_table makes of those codes |
| TableRoom.EnoughLens | dep/zlib/inftrees.h:36-51 | 852 entries suffice for every complete code of 286 symbols with root 9 |
| TableRoom.EnoughDists | dep/zlib/inftrees.h:36-51 | 592 entries suffice for every complete code of 30 symbols with root 6 |
| TableRoom.BuildInRoom | dep/zlib/inflate.c:993-1015 | so the tables inflate asks for are built or refused, never out of room |
| Tokens.MatchIsText | dep/zlib/deflate.c:1148-1289 | text that repeats itself at a distance is what the match makes of it |
| StringHash.ThirdByte | dep/zlib/deflate.c:1148-1289 | with equal hashes and two equal bytes the third is equal, so it need not be compared |
| StringHash.OldestDrops | dep/zlib/deflate.c:160-167 | three updates leave nothing of older bytes in the hash |
| HashChains.InsertChain | dep/zlib/deflate.c:176-190 | inserting a string keeps the chains exact: head[h] is the newest string inserted with hash h, and each link the next older one, or nil if none lies in the window |
| HashChains.SlideChain | dep/zlib/deflate.c:1390-1520 | so does sliding the window, with links that fall out cut |
| MatchRule.ChainComplete | dep/zlib/deflate.c:176-190 | from head[h] the links visit every string of hash h inserted in the last wSize positions, and no other, newest first |
| MatchSearch.LongestMatch | dep/zlib/deflate.c:1148-1289 | a match returned lies on the chain within the distance limit and agrees in the whole length; it is the first of the longest on the chain, up to the chain's length limit, or the first long enough to stop at; if none is returned no string there agrees in more bytes than the length to beat |
| MatchRule.CandidatesAre | dep/zlib/deflate.c:1148-1289 | the strings the search tries are the last strings inserted with the same hash, within the distance limit, as many as the chain limit allows |
| DeflateState.Deflater.FindLongest | dep/zlib/deflate.c:1148-1289 | stated over the text and the positions inserted alone: the result is the longest agreement with one of those strings, at the least distance, up to nice length; or none of them agrees in more bytes than the previous match |
| DeflateState.Deflater.InsertString | dep/zlib/deflate.c:167-190 | the position joins the dictionary and the head returned leads to strings of equal hash |
| DeflateState.Deflater.FillWindow | dep/zlib/deflate.c:1390-1520 | the window goes on showing the text, chains survive, nothing is lost, either there is enough lookahead or no input, and the strings that waited for a third byte have been inserted |
| DeflateState.Deflater.SlideWindow | dep/zlib/deflate.c:1405-1440 | all positions move together; the distance to a remembered match is kept though the subtraction may wrap |
| DeflateState.Deflater.FlushBlock | dep/zlib/deflate.c:1538-1553 | the block holds the tokens tallied and, if still in the window, the same bytes as stored data |
| Deflate.DeflateFast | dep/zlib/deflate.c:1628-1725 | the tokens expand to exactly the input consumed, at every return; each token is the one the rule chooses: a literal only where none of the strings tried agrees in three bytes, else the longest match; every search had input enough for the longest match ahead of it or all there was before a flush |
| LazyMatches.DeflateSlow | dep/zlib/deflate.c:1730-1853 | the same with the decision put off by a byte: a match is emitted only if the next position has no longer one, short matches are dropped if filtered and those of three bytes if far away, and no search is made behind a match that is long enough |
| RunMatches.DeflatePlain | dep/zlib/deflate.c:1861-1963 | deflate_rle and deflate_huff: the same; a run of the byte before is taken wherever it repeats three times, as far as it goes up to 258 bytes, and all else is literals |
| DeflateStream.Stream.Deflate | dep/zlib/deflate.c:665-975 | one call of deflate keeps all that, and ends the stream exactly when asked and not out of output space |
| DeflateStream.Stream.Account | dep/zlib/deflate.c:665-975 | in every reachable state the blocks and the tally expand to the consumed text, matches fit the format and the window, and stored and coded forms of a block are interchangeable |
| DeflateStream.Stream.Choices | dep/zlib/deflate.c:1628-1963 | in every reachable state each token of the stream is the choice of its match finder's rule, at its own position, from a dictionary that holds the strings of all tokens since it was last cleared |
| DeflateStream.Stream.Run | dep/zlib/deflate.c:665-975 | any sequence of calls with any input and flush values: no byte is lost and the blocks of a finished stream decode to all the input; every search made on the way had input enough for the longest match or all the input up to a flush, and the dictionary is never cleared but for a full flush |

## Findings

- **Selectors past the array.** The decoder reads the number of selectors from 15 bits, refuses
  only zero, and stores as many in arrays of 18002 (`dep/bzip2/decompress.c:289-313`,
  `dep/bzip2/bzlib_private.h:125`, `dep/bzip2/bzlib_private.h:402-403`). Announced numbers from
  18003 to 32767 can leave the arrays. `BlockReceive.RoomForSelectors` gives the exact condition,
  which a caller can read in the block header, `BlockReceive.OneTooMany` the least input, and the
  reading methods return `OutOfRange` exactly in that case. The encoder never announces more
  than 18002.
- **FAST reports corruption earlier than SMALL.** A malformed block that delivers exactly as many
  bytes as there is space is reported by FAST in that call and by SMALL only in the next one
  (`dep/bzip2/bzlib.c:589-681`, `dep/bzip2/bzlib.c:705-804`). `OutputForms.SmallIsFast` states that
  this is the only difference, `OutputForms.NoticedLate` gives a block.
- **Adler-32 from sums that are not reduced.** For a single byte the source subtracts the modulus
  at most once from each sum, and for an empty string it changes nothing (`dep/zlib/adler32.c:77-91`),
  so from sums that fit 16 bits without being reduced the result may miss the definition.
  `Adler32.Exact` is the exact condition, `Adler32.NotAlwaysExact` an input.

## Left out

- mainSort, mainQSort3 and mainSimpleSort with their budget and quadrant cache: every block is
  sorted by fallbackSort. All results about blocks hold for any rotation-sorted order; another
  correct sort gives a stream that differs at most in origPtr, and only for blocks that equal one
  of their other rotations (`BlockCodec.OnlyOrigPtr`), and that decodes alike.
- Randomised blocks: the compressor never writes them, and `BlockDecode.ReadBlock` answers one
  with an error where the source would decode it.
- BlockReceive.GetMtfValues: reads all symbols of a block before they are decoded, where the
  source decodes each as it comes; an error in either part is an error of the block.
- StreamDecode.Decoder.Decompress: when input runs out within the stream header, a block or the
  trailer, the source keeps its local variables and goes on from there; the model goes back to the
  beginning of that part and reads it again with more input, which gives the same outputs and
  statuses. Calls after an error are not modelled, nor is output in the SMALL form, which
  `OutputForms.SmallIsFast` compares.
- CompressStream.Encoder.CompressBlock: bytes written are a growing sequence whose length is
  bounded; the block is copied before it is sorted, where the source lets the arrays share memory.
- RunLengthOutput.FastOutput.UnRleFast: the jumps in the source's loop become structured code; a
  last byte alone is a run of one.
- Counters of total input and output bytes, verbosity, allocators, assertions' reporting, files
  and their errors; the five thousand bytes of output space in the file layer are any number.
- BuildTree.Build: frequencies are unbounded, where the source keeps them in 16 bits and relies on
  blocks being short; opt_len and static_len are not computed. The two nodes joined are the least
  frequent and of these the shallowest; that this decides the depth of the tree is proved for
  bzip2's trees (`TreeDepth`) and not here, where depths are kept in a byte and may wrap.
- DeflateStream.Stream.Deflate: how tokens become bits, and so how many bytes are pending and when
  the space is used up, is arbitrary; a call without space and a trailer that does not fit are
  modelled. Level 0, preset dictionaries, changes of parameters and gzip headers are not.
- InflateStream.Inflater.Inflate: starts from decoded symbols; how bits become symbols is in
  `InflateTable`, `CodeTables` and `DynamicBlock`.
- DynamicBlock.ReadSymbols: gives an error for bits that are no code, without stating which bits
  these are; the bits are a sequence, all there from the start, where the source keeps some in a
  word and may wait for more.
- MatchSearch.LongestMatch: the unrolled and two-byte comparisons are one loop.
- The rest of inflate's state machine, inflateBack, the gz layer; the big-endian CRC; null
  buffers.
- crctable.c, crc32.h, trees.h and inffixed.h: tables are defined by what generates them; the
  entries stated for the checksums are those at the powers of two and at the end.
