# Verified model of the bundled bzip2 codec and zlib checksums

The project models two independent parts of the repository's bundled libraries and proves them
right in Dafny: the block codec of `dep/bzip2`, from the run-length front end and the stream
machine through both block sorts, move-to-front, Huffman coding and bit output to the decoder
and both inverse transforms; and the CRC-32 and Adler-32 checksums of `dep/zlib`.

The C code is imperative, and so is the model: arrays are updated in place by the same loops, the
two stream states are classes, the quicksorts keep explicit stacks. Each stage is proved against a
short specification of its own, and these compose:

| stage | files | specification |
|---|---|---|
| rotations and their order | `Rotation` | cyclic comparison of h characters |
| fallback sort | `Partition`, `FallbackQSort`, `Bitmap`, `FallbackSort` | sorted rotations; a depth that doubles |
| main sort | `MainCompare`, `MainBudget`, `MainSimpleSort`, `MainQSort`, `MainRadix`, `MainScan`, `PointerScan`, `MainSort` | sorted rotations; small buckets, scans, ranks; the price of a block |
| choice of sort | `BlockSort` | sorted rotations, always |
| move-to-front, zero runs | `Mtf`, `MtfLaws`, `MtfEncoder`, `MtfList` | a plain list; bijective base-2 numerals |
| code lengths | `HuffmanTree`, `HuffmanHeap`, `HuffmanCost`, `HuffmanLengths` | Kraft sum one, length limit, least cost |
| canonical code | `CanonicalCode`, `DecodeTables` | counting codes by length |
| bits | `BitIO` | a sequence of bits |
| one block, written | `BlockWriter`, `TableBands`, `SendMtfValues`, `CompressBlock` | the bits of a block description; four rounds of cheapest tables |
| one block, read | `Decompress`, `BlockFormat`, `BlockRoundTrip`, `WholeBlock` | a machine of one step per GET_BITS |
| the reader's arrays | `MachineState`, `ReadingMachine`, `StrayRuns` | the same machine; the runs that leave them |
| inverse transform | `InverseBwt`, `Inverter`, `DecodeBlock` | the stable listing of the last column |
| run lengths, block CRC | `RunLength`, `BlockCrc`, `Unrle` | reading a block back, run by run; the CRC read from the other end |
| streams | `StreamFormat`, `OutputBound`, `Stream`, `Continuation`, `BzDecompress`, `BuffToBuff`, `HeaderMarks`, `KnownStreams` | the data of all blocks, header and trailer; whole streams in plain bytes |
| checksums | `Crc`, `Crc32`, `CrcLaws`, `CrcCombine`, `Adler32` | one bit, one byte at a time |

The result at the top is the law of the library: what `BuffToBuff.Compress` returns for a source,
`BuffToBuff.Decompress` turns back into that source, for every source, block size and work factor,
in the FAST and in the SMALL form, exactly when there is room for it. The same
holds over any portioning of input and output (`Stream.EState.Compress`,
`BzDecompress.DState.Decompress`). Equal rotations, which periodic blocks have, are allowed for
throughout: orders are non-decreasing, and the inverse is proved from any of them.

No main result rests on an assumption nothing meets: sorted orders come from `BlockSort.Sort`, stable
listings from `Inverter.BuildFast` and `Inverter.BuildSmall`, block descriptions from
`CompressBlock.EmitBlock`, streams from `BuffToBuff.Compress`, each for every input.

The conditions of the library's internal assertions (`AssertH`) that lie in modelled code are
proved, not modelled as failures. One edge of the interface is made precise: an accepted
`BZ_FINISH` is answered with the sequence error exactly when there is no output space and either
compressed bytes are waiting or there is no input (`Stream.EState.FinishCase`), which for
`BuffToBuff.Compress` is an empty source and no space at all. The compressed bytes depend on
how the input was portioned, since a full block leaves its pending run to the next one while
finishing flushes it (`dep/bzip2/bzlib.c:384-394`); what is proved is conservation of content.

`dafny verify dfyconfig.toml` checks the whole project.

## Model

| member | source | states |
|---|---|---|
| BuffToBuff.Compress | dep/bzip2/bzlib.c:1247-1295 | For every source, parameter set and destination size: OK gives a stream of exactly that source within the size, and is certain when there is room for three times the source and 6516 bytes; OUTBUFF_FULL leaves the destination full with the beginning of a stream of the source; PARAM_ERROR exactly for bad parameters; the sequence error exactly for good ones with an empty source and no room at all |
| BuffToBuff.Decompress | dep/bzip2/bzlib.c:1299-1348 | On any stream of some data, FAST or SMALL: OK and all the data exactly when there is room for it, else OUTBUFF_FULL and the beginning that fits; never a data error, never an unexpected end |
| KnownStreams.EmptyStreams | dep/bzip2/compress.c:602-667 | The compressed streams of no data are exactly the fourteen bytes 42 5a 68, the block size as a digit, 17 72 45 38 50 90 and four zeros: no others |
| KnownStreams.OneByteStream | dep/bzip2/compress.c:239-667 | A whole stream of the letter a in its thirty-seven bytes, every field in its place: mark, CRC, byte map, tables, selector, codes, trailer and padding |
| KnownStreams.BlockAIs | dep/bzip2/compress.c:460-594 | The 179 bits of its block, as one number |
| HeaderMarks.StreamMark | dep/bzip2/decompress.c:199-218 | Of all 32-bit beginnings the decoder takes exactly nine, which give the block size; any other is answered with -5 |
| HeaderMarks.BlockMark | dep/bzip2/decompress.c:219-243 | Of all 48-bit numbers where a block may begin, one announces a block, one the end of the stream; any other is answered with -4 |
| BzDecompress.Readable | dep/bzip2/compress.c:619-665 | What the compressor has emitted when it is finished is, block for block, what the decompressor is about to read |
| Continuation.Delivered | dep/bzip2/bzlib.c:360-464 | At every moment of every run: what has been delivered begins a stream of the data consumed so far, followed by any other data until the trailer is written |
| Continuation.Bounded | dep/bzip2/bzlib.c:360-464 | Without flushes, what has been delivered is at most three times what has been consumed, plus 6515 bytes |
| OutputBound.BlockSize | dep/bzip2/compress.c:602-667 | The bits of any block are at most 18 per byte and a constant, with the compressor's codes of at most 17 bits |
| OutputBound.BlockGrowth | dep/bzip2/bzlib.c:216-247 | Run-length coding makes at most five bytes of four: a block is never more than 5/4 of its data |
| OutputBound.ItemsSize | dep/bzip2/compress.c:602-667 | The bits of all blocks against the data they stand for, when only full blocks are cut |
| Rotation.CmpSplit | dep/bzip2/blocksort.c:259-312 | Comparing h + g characters of two rotations: the first h decide, or else the g behind them, on a circle |
| Rotation.CmpLong | dep/bzip2/blocksort.c:460-468 | Rotations equal once round are equal for ever: comparing further than the block is long never changes the answer |
| Partition.Split | dep/bzip2/blocksort.c:132-170 | The three-way partition rearranges only its segment and leaves it smaller, equal, larger around the median; it reports that all keys are equal exactly when they are |
| Partition.MergeLow | dep/bzip2/blocksort.c:166-167 | Swapping the shorter of two adjacent stretches with the end of the other brings the equal keys to the middle, from the left |
| Partition.MergeHigh | dep/bzip2/blocksort.c:166-167 | The same from the right |
| FallbackQSort.SimpleSort | dep/bzip2/blocksort.c:32-59 | The gap-four pass and the insertion pass sort the segment by class and rearrange nothing else |
| FallbackQSort.ShallowStack | dep/bzip2/blocksort.c:106-178 | Because the smaller part is handled first, sizes halve with every stack level: fewer than 28 levels can hold more than ten entries |
| FallbackQSort.QSort3 | dep/bzip2/blocksort.c:93-180 | Sorts the segment by class, rearranges nothing outside it, for every pivot sequence; the stack test of AssertH 1004 can never fail |
| Bitmap.Skip | dep/bzip2/blocksort.c:277-291 | Skipping equal header bits singly, by words, singly stops exactly at the first different bit, for set and for clear bits |
| FallbackSort.CountBytes | dep/bzip2/blocksort.c:231-234 | Byte counts, and their running sums, of the block |
| FallbackSort.PlaceBytes | dep/bzip2/blocksort.c:236-241 | The first radix pass lists the rotations by first byte |
| FallbackSort.InitHeaders | dep/bzip2/blocksort.c:243-257 | The header bits mark exactly the starts of byte buckets, followed by the sentinel pattern after the block |
| FallbackSort.AssignClasses | dep/bzip2/blocksort.c:266-271 | eclass holds, for each rotation, the bucket of the rotation H further on |
| FallbackSort.ClassDoubles | dep/bzip2/blocksort.c:260-313 | Ordering by the class H further on orders by 2H characters, and equal classes are equality in 2H characters |
| FallbackSort.ScanHeaders | dep/bzip2/blocksort.c:299-304 | After the scan a header bit is set exactly where it was set or the class changes |
| FallbackSort.MidEnd | dep/bzip2/blocksort.c:273-311 | When every bucket of a pass is refined, order and header bits are those of twice the depth |
| FallbackSort.Pass | dep/bzip2/blocksort.c:273-306 | One pass turns "ordered by H characters, header bits mark exactly the H-boundaries" into the same for 2H; nothing left over means all rotations are told apart |
| FallbackSort.LevelSorted | dep/bzip2/blocksort.c:311-312 | Depth past the block length, or all bits set, means the rotations are sorted |
| FallbackSort.Reconstruct | dep/bzip2/blocksort.c:315-328 | The block destroyed by the classes is restored exactly from the counts and the order |
| FallbackSort.Sort | dep/bzip2/blocksort.c:212-329 | For every non-empty block: the order is a permutation listing the rotations in non-decreasing order, and the block is as before |
| MainCompare.CmpApart | dep/bzip2/blocksort.c:347-469 | Any number of decided characters can be split off a comparison of rotations |
| MainCompare.CompareRanks | dep/bzip2/blocksort.c:410-458 | Where bytes agree, unequal cached ranks decide the rotations compared, not only the positions reached |
| MainCompare.GtU | dep/bzip2/blocksort.c:347-469 | For positions up to 14 past the block: yes only if the first rotation does not come before the second, no only if it does not come after; every read stays within the 34 overshoot entries; the budget taken is exactly the number of full eights, behind the first twelve characters, in which bytes and ranks agree |
| MainBudget.SpentPrice | dep/bzip2/blocksort.c:347-469 | However far into a shared prefix a comparison starts, it takes no more than the price of the pair: the eights the two whole rotations share behind their first twelve characters |
| MainBudget.PairSame | dep/bzip2/blocksort.c:500-554 | The price of a stretch is that of its rotations, in whatever order they stand |
| MainBudget.PairConcat | dep/bzip2/blocksort.c:636-717 | Parts of a stretch cost no more than the stretch |
| MainBudget.PairsBucketed | dep/bzip2/blocksort.c:868-944 | A bucket has the same price in every listing by first bytes |
| MainBudget.RepeatsNone | dep/bzip2/blocksort.c:460-468 | A block costs nothing if and only if any two of its rotations differ within twenty characters |
| MainBudget.RepeatsMost | dep/bzip2/blocksort.c:460-468 | The explicit bound: twice the price of a block is at most the square of its length times the rounds mainGtU can go |
| MainSimpleSort.Insert | dep/bzip2/blocksort.c:507-548 | One insertion rearranges the stretch up to its entry, with step one it extends the sorted part, and it asks for each pair it passes once |
| MainSimpleSort.PassOf | dep/bzip2/blocksort.c:504-554 | One shell-sort pass rearranges the segment; the pass of step one leaves it sorted unless the budget ran out; it takes no more than the price of the segment |
| MainSimpleSort.SimpleSort | dep/bzip2/blocksort.c:485-555 | Rotations sharing d characters are rearranged and, unless the budget ran out, sorted; at most thirteen times the price of the segment is taken |
| MainQSort.OwedParts | dep/bzip2/blocksort.c:664-715 | The parts of a split, in whatever order they are pushed, owe no more than the segment did |
| MainQSort.CharOrder | dep/bzip2/blocksort.c:664-704 | Of rotations sharing d characters the next character decides, also past the end of the block |
| MainQSort.Med3 | dep/bzip2/blocksort.c:582-592 | The result is one of the three, with one not above and one not below it |
| MainQSort.Shallow | dep/bzip2/blocksort.c:641-654 | Only segments of at least twenty entries are split, so the hundred-entry stack of AssertH 1001 is never more than 58 deep |
| MainQSort.QSort3 | dep/bzip2/blocksort.c:621-717 | The segment is rearranged and, if the budget did not run out, its rotations are in non-decreasing order; the stack never overflows; at most thirteen times the price of the segment is taken |
| MainRadix.KeyOrder | dep/bzip2/blocksort.c:802-831 | Different first two bytes decide the order of rotations |
| MainRadix.CountPairs | dep/bzip2/blocksort.c:769-792 | The word sliding over the block backwards counts exactly the rotations with each pair of first bytes, the last rotation included |
| MainRadix.CopyOvershoot | dep/bzip2/blocksort.c:794-798 | Behind the block its first 34 bytes are repeated |
| MainRadix.Accumulate | dep/bzip2/blocksort.c:802-803 | The table holds how many rotations have a pair of bytes not above the index |
| MainRadix.PlacePairs | dep/bzip2/blocksort.c:805-831 | The rotations are listed by their first two bytes, and ftab is left pointing to the first place of every small bucket |
| MainRadix.InsertBucket | dep/bzip2/blocksort.c:848-858 | One insertion of the shell sort keeps the running order a permutation; with step one it extends the sorted part |
| MainRadix.RunningOrder | dep/bzip2/blocksort.c:837-860 | Every big bucket once, in order of size |
| MainScan.SideOrder | dep/bzip2/blocksort.c:911-936 | Rotations that leave a run of ss downwards come before those that leave it upwards |
| MainScan.PredsListed | dep/bzip2/blocksort.c:923-935 | The predecessors of an ordered list of rotations, taken per first byte, are distinct and in order |
| MainScan.GrowStep | dep/bzip2/blocksort.c:911-936 | Appending a found predecessor that itself starts with ss keeps the list being scanned ordered and free of repetitions |
| MainScan.InWindow | dep/bzip2/blocksort.c:911-936 | A scan that has caught up with itself has met every rotation of its side that starts with ss |
| MainScan.PredsComplete | dep/bzip2/blocksort.c:911-936 | The predecessors it found are all there are |
| MainScan.TwoSides | dep/bzip2/blocksort.c:937-944 | The two scans together find every rotation of a small bucket exactly once, unless the block is ss throughout |
| PointerScan.RimBase | dep/bzip2/blocksort.c:923-930 | Sorted small buckets [ss, c], c not ss, are what the scan can start from |
| PointerScan.ScanPlace | dep/bzip2/blocksort.c:923-935 | The entry read next is the next one of the list, although the scan writes into the array it reads; the loop test is true exactly while entries are left |
| PointerScan.ScanStep | dep/bzip2/blocksort.c:923-935 | Writing the predecessor behind the copy pointer of its bucket stays inside that bucket and changes nothing else that is read later |
| PointerScan.ScanUp | dep/bzip2/blocksort.c:923-928 | The left scan ends having listed and written all predecessors on its side |
| PointerScan.ScanDown | dep/bzip2/blocksort.c:929-935 | The right scan likewise, from the other end |
| PointerScan.ScansMeet | dep/bzip2/blocksort.c:937-944 | Both scans together fill each bucket [c, ss] exactly, with different rotations in order |
| PointerScan.ScanEnd | dep/bzip2/blocksort.c:911-944 | After both scans the buckets [c, ss] of big buckets not done are in order, all others untouched, and AssertH 1007 holds, the all-ss block included |
| PointerScan.ScannedBucketed | dep/bzip2/blocksort.c:911-936 | The array is again a permutation listed by first two bytes, though during the scans it was not |
| PointerScan.Synthesise | dep/bzip2/blocksort.c:911-944 | Step 2 as a whole: from sorted [ss, c] for c other than ss to sorted [c, ss] for every c not done, with no comparison |
| MainSort.SortSmall | dep/bzip2/blocksort.c:887-905 | Step 1 for one small bucket: sorted afterwards, whether it had the flag, was too short, or went through the quicksort; other buckets keep their order; at most thirteen times its price is taken |
| MainSort.SortSmalls | dep/bzip2/blocksort.c:878-907 | Step 1: all small buckets of ss but [ss, ss] are sorted and flagged, unless the budget ran out; together they take at most thirteen times the price of the big bucket |
| MainSort.DonePairsMost | dep/bzip2/blocksort.c:868-1006 | The big buckets together cost no more than the block |
| MainSort.FinishBig | dep/bzip2/blocksort.c:911-987 | Step 2 with its flags: the big bucket may be called done |
| MainSort.RanksKept | dep/bzip2/blocksort.c:948-986 | The new ranks agree with the order of the rotations and are repeated in the overshoot |
| MainSort.UpdateRanks | dep/bzip2/blocksort.c:989-1004 | Step 3 keeps the quadrant invariant: for equal bytes a smaller rank is never on the later rotation; each position of the bucket gets its place there, scaled by the least shift that fits sixteen bits, so AssertH 1002 never fires |
| MainSort.TidyEnd | dep/bzip2/blocksort.c:868-1006 | When every big bucket is done, the rotations are sorted |
| MainSort.BigBucket | dep/bzip2/blocksort.c:868-1006 | One round of the main loop keeps all invariants and finishes one big bucket, or runs out of budget, of which it takes at most thirteen times the price of the bucket |
| MainSort.Sort | dep/bzip2/blocksort.c:751-1011 | If it ends with budget not negative, ptr is a permutation listing the rotations in non-decreasing order; the block is unchanged either way. At most thirteen times the price of the block is taken, so with that much budget it never gives up; and the budget is untouched, the order complete, whenever any two rotations differ within their first h characters for an h up to twenty |
| BlockSort.FindOrigPtr | dep/bzip2/blocksort.c:1083-1088 | Finds the place of rotation 0, which always exists (AssertH 1003) |
| BlockSort.ByMainSort | dep/bzip2/blocksort.c:1043-1069 | The budget nblock * ((w - 1) / 3), w clamped to 1 to 100, suffices if it covers thirteen times the price of the block, and always if any two rotations differ early |
| BlockSort.Sort | dep/bzip2/blocksort.c:1031-1089 | For every block and work factor, through either sort or the one after the other: sorted rotations, the block as before, and origPtr at rotation 0 |
| HuffmanHeap.UpHeap | dep/bzip2/huffman.c:33-42 | Restores heap order with the same entries |
| HuffmanHeap.DownHeap | dep/bzip2/huffman.c:44-59 | Restores heap order with the same entries |
| HuffmanHeap.PopLightest | dep/bzip2/huffman.c:101-102 | Takes out a node of least packed weight and only that one |
| HuffmanTree.MergeGrown | dep/bzip2/huffman.c:100-110 | Joining the two lightest roots keeps every root of depth d as heavy as the Fibonacci number of d + 2 |
| HuffmanTree.TreeDepth | dep/bzip2/huffman.c:25-31 | A tree of total weight w is at most so deep that a Fibonacci number stays below w: the depth byte never carries into the weight |
| HuffmanTree.KraftExact | dep/bzip2/huffman.c:114-121 | The leaf depths of a finished tree have Kraft sum exactly one |
| HuffmanCost.Join | dep/bzip2/huffman.c:100-110 | From any table of lengths within Kraft's inequality, one with the two first nodes joined that is cheaper by their weight at least; if only by that, it is no deeper |
| HuffmanCost.MergeGreedy | dep/bzip2/huffman.c:100-110 | Joining the two roots of least packed weight, weight first and then depth, keeps every node so joined |
| HuffmanCost.Huffman | dep/bzip2/huffman.c:97-121 | Huffman's theorem for the trees of this loop: of all tables that satisfy Kraft's inequality the lengths read off cost least, and of the tables of least cost none has a shorter longest code |
| HuffmanLengths.BuildTree | dep/bzip2/huffman.c:84-112 | The heap loop ends with one tree over all symbols whose root weighs the sum of the leaves |
| HuffmanLengths.ReadLengths | dep/bzip2/huffman.c:114-121 | Each length is the number of parent links to the root, and "too long" is reported exactly when one exceeds the limit |
| HuffmanLengths.TooLongHeavy | dep/bzip2/huffman.c:114-147 | A code that is too long means some weight is at least three |
| HuffmanLengths.Rescale | dep/bzip2/huffman.c:142-146 | Halves every weight and adds one; if a weight is at least three their sum gets less: the loop ends |
| HuffmanLengths.MakeCodeLengths | dep/bzip2/huffman.c:63-148 | For every frequency table with the library's totals: terminates with lengths between 1 and maxLen whose Kraft sum is exactly one. They cost least for the frequencies, an absent symbol counted once, and have the shortest longest code among those; or the same for weights halved as often as every table of least cost was too long; never halved when the total is below the Fibonacci number of maxLen + 3 |
| HuffmanLengths.CompressorLimit | dep/bzip2/compress.c:447-451 | The limit 17 used by the compressor is large enough for every alphabet it has |
| CanonicalCode.CodesFit | dep/bzip2/huffman.c:152-166 | For lengths within Kraft's inequality every code fits its length |
| CanonicalCode.FirstCodeSmall | dep/bzip2/huffman.c:188-199 | Whatever the lengths, Kraft's inequality or not, the codes of every length stay far below the end of Int32 |
| CanonicalCode.AssignCodes | dep/bzip2/huffman.c:152-166 | Symbol i gets the number of codes of its length before it, after the shifted codes of smaller lengths |
| CanonicalCode.CreateDecodeTables | dep/bzip2/huffman.c:170-200 | limit, base and perm describe the same canonical code |
| CanonicalCode.LookUp | dep/bzip2/decompress.c:89-101 | A code looked up at its own length gives back its symbol |
| CanonicalCode.ReadOn | dep/bzip2/decompress.c:89-96 | A proper prefix of a code is above the limit of its length, so reading goes on |
| DecodeTables.TablesOfLengths | dep/bzip2/huffman.c:170-200 | For any lengths within Kraft's inequality there are tables as the source's loops describe them; the specification machine uses these |
| DecodeTables.BuildTable | dep/bzip2/decompress.c:330-347 | From received lengths: minLen, and arrays limit, base and perm that describe the canonical code of exactly these lengths |
| DecodeTables.LookupAlike | dep/bzip2/decompress.c:74-102 | Any two tables for the same lengths, whatever their unused entries, send the reading loop the same way at every prefix it can reach, proper codes and errors alike |
| DecodeTables.LookupRange | dep/bzip2/decompress.c:74-102 | What is found is a symbol of the alphabet, and the index into perm is in range |
| DecodeTables.CodeRead | dep/bzip2/decompress.c:74-102 | Reading a canonical code through any limit, base and perm that BZ2_hbCreateDecodeTables may leave gives its symbol and consumes exactly its length, whatever bits follow |
| BitIO.Appended | dep/bzip2/compress.c:73-78 | Or-ing the shifted value into the buffer appends exactly its bits and leaves the rest of the word clear |
| BitIO.TakenIn | dep/bzip2/decompress.c:53-61 | Shifting a byte in from below appends exactly its bits |
| BitIO.BitWriter.Write | dep/bzip2/compress.c:58-78 | The bits written so far grow by the n bits of v, however many bytes go out |
| BitIO.BitWriter.Finish | dep/bzip2/compress.c:46-54 | All bits reach the output, followed by fewer than eight zeros |
| BitIO.BitReader.GetBits | dep/bzip2/decompress.c:43-65 | Succeeds exactly if enough bits are at hand, however they were portioned, and takes the first n; otherwise nothing is lost and reading can resume |
| BitIO.WriteRead | dep/bzip2/decompress.c:43-65 | n bits of v, followed by anything, read back as v and leave what followed |
| BitIO.ThroughBytes | dep/bzip2/compress.c:46-78 | Any sequence of fields of up to 24 bits, written, flushed to bytes and cut into any portions, is read back in order |
| MtfEncoder.MakeMaps | dep/bzip2/compress.c:106-115 | Every used byte gets its place among the used bytes |
| MtfEncoder.MakeMapsD | dep/bzip2/decompress.c:27-36 | The decoder's map lists the used bytes |
| MtfEncoder.CodesInvert | dep/bzip2/compress.c:106-115 | The two maps are inverse on every byte of the block |
| MtfEncoder.EncodeByte | dep/bzip2/compress.c:163-210 | One byte is coded as the list specification says; writing over the order never destroys an entry still to be read |
| MtfEncoder.GenerateMTFValues | dep/bzip2/compress.c:120-231 | The values written are exactly those of the last column of the sorted block, no more than nblock + 1, and the frequencies count exactly them; in plain numbers: runs of front codes as digits 0 and 1, every other code as its place in the list plus one, the end mark last |
| MtfLaws.ZeroRunValue | dep/bzip2/compress.c:173-191 | In plain numbers: the entries of a run of z are 0 or 1, and the sum of (entry i + 1) * 2^i is z |
| MtfLaws.SymbolsPlain | dep/bzip2/compress.c:165-229 | The symbols of any codes are such digits for each run of front codes, the place in the list plus one for every other code, and the end mark |
| MtfLaws.DigitsDecoded | dep/bzip2/decompress.c:379-389 | Reading digits 0 and 1 adds their value to the run, whatever was read before |
| Mtf.DecodeZeroRun | dep/bzip2/compress.c:174-188 | The digits RUNA and RUNB of a run length decode to that length |
| Mtf.SymbolsRoundTrip | dep/bzip2/decompress.c:372-479 | Decoding the symbols gives back every byte code, for every column; the end symbol comes last |
| Mtf.SymbolsShort | dep/bzip2/compress.c:135-140 | Symbols plus pending zeros never outnumber the bytes coded |
| MtfList.Init | dep/bzip2/decompress.c:358-370 | The chunked list starts as 0, ..., 255 |
| MtfList.Rebuild | dep/bzip2/decompress.c:456-465 | Compacting the chunks in place keeps the list; no source is overwritten before it is read |
| MtfList.MoveFar | dep/bzip2/decompress.c:438-455 | Moving an entry of a later chunk to the front through the chunk ends is the move-to-front of the plain list |
| MtfList.MoveToFront | dep/bzip2/decompress.c:416-468 | Any entry: the byte is that of the plain list, the new list its move-to-front, and the chunks stay disjoint, ordered and in range |
| InverseBwt.MovedBackSorted | dep/bzip2/decompress.c:539-544 | The stable listing of a sorted order's last column, moved back one byte, is a sorted order again, equal rotations included |
| InverseBwt.InverseCorrect | dep/bzip2/decompress.c:539-555 | For every block, periodic or not, and every sorted order of it: the walk from origPtr through the stable listing spells the block |
| Counting.OneInverse | dep/bzip2/decompress.c:539-544 | Counting slots have one inverse only |
| Common.DisjointOr | dep/bzip2/decompress.c:539-544 | Or-ing numbers that share no bit adds them, either way round |
| Inverter.SetupCftab | dep/bzip2/decompress.c:487-496 | cftab holds how many bytes of the column are smaller |
| Inverter.BuildFast | dep/bzip2/decompress.c:539-544 | The upper 24 bits of tt become the stable listing, the lower 8 keep the column |
| Inverter.SetLL | dep/bzip2/bzlib_private.h:458-473 | Writes 20 bits as 16 and a nibble and leaves every other 20-bit entry, its nibble neighbour included |
| Inverter.BuildSmall | dep/bzip2/decompress.c:506-514 | The packed 20-bit words become the inverse of the listing |
| Inverter.ReverseCycle | dep/bzip2/decompress.c:516-525 | Reversing in place only the cycle through origPtr turns the walk into that of the stable listing, whatever other cycles there are |
| Inverter.IndexIntoF | dep/bzip2/bzlib.c:687-698 | The binary search finds the byte whose range in the sorted column holds the index |
| Decompress.RunSplit | dep/bzip2/decompress.c:43-65 | Feeding bits in two portions is the same as feeding them at once, wherever the cut |
| Decompress.StraysExactly | dep/bzip2/decompress.c:106-621 | The machine strays exactly on the bits that are not tame, which can be told beforehand by running over unbounded numbers and sequences; on tame bits it is that run |
| ReadingMachine.Decompressor.constructor | dep/bzip2/bzlib.c:492-528 | Ready for the first byte, all arrays separate, the list in its first order |
| ReadingMachine.Decompressor.Decompress | dep/bzip2/decompress.c:106-621 | On any input, in any portions: the machine over its arrays and Int32 fields goes exactly where the specification machine goes, errors included; it is about to leave an array or overflow if and only if the bits are not tame, and on tame bits it does what the free run does; what does not complete a field waits |
| ReadingMachine.Decompressor.Take | dep/bzip2/decompress.c:199-608 | Between two GET_BITS, at any label and for any value read: the step of the specification, every index within its array and every number within Int32 unless it strays, and every array again in order for what follows |
| ReadingMachine.Decompressor.TakeSelector3 | dep/bzip2/decompress.c:290-300 | A selector is stored within the 18002 entries, or the step strays exactly when there is no entry for it |
| ReadingMachine.Decompressor.TakeDigit | dep/bzip2/decompress.c:382-389 | A run digit is added to es and N within Int32, or the step strays exactly when one of them cannot take it |
| ReadingMachine.Decompressor.CreateTables | dep/bzip2/decompress.c:330-347 | The arrays of every coding table describe the canonical code of its lengths |
| ReadingMachine.Decompressor.TakeCode | dep/bzip2/decompress.c:74-102 | The loop of GET_MTF_VAL over the arrays decides as the specification does; no index leaves them |
| ReadingMachine.Decompressor.FlushRun | dep/bzip2/decompress.c:391-410 | The pending run is counted in unzftab and appended with the byte at the front of the list, unless it does not fit the block |
| ReadingMachine.Decompressor.MoveOne | dep/bzip2/decompress.c:416-474 | The byte of a move-to-front value through the two-level list, mapped, counted and appended |
| ReadingMachine.Decompressor.NextBlock | dep/bzip2/bzlib.c:819-831 | After a block has been written the next header is awaited |
| ReadingMachine.UndoMtf | dep/bzip2/decompress.c:302-314 | The loop over pos writes the selectors of the specification into their array |
| MachineState.FitNextGroup | dep/bzip2/decompress.c:266-283 | What must hold of the received parts is kept through the mapping table |
| MachineState.FitSelector | dep/bzip2/decompress.c:286-314 | And through the selectors, each below nGroups |
| MachineState.FitGetMtf | dep/bzip2/decompress.c:74-102 | And by the start of every code: the selected table exists, or the machine stops with an error |
| StrayRuns.TooManySelectors | dep/bzip2/decompress.c:287-300 | Every stream that announces more than 18002 selectors, up to 32767, and gives them is not tame |
| StrayRuns.TooLongRun | dep/bzip2/decompress.c:382-389 | A block whose symbols begin with 31 run digits is not tame, whatever follows |
| StrayRuns.TooLongForTally | dep/bzip2/decompress.c:391-393 | A run that es and N can take and unzftab cannot |
| BlockFormat.ReadHeader | dep/bzip2/decompress.c:222-264 | The block header is read back: CRC and origPtr |
| BlockFormat.ReadMapping | dep/bzip2/decompress.c:266-283 | The two-level map of used bytes is read back |
| BlockFormat.SelectorPlaces | dep/bzip2/compress.c:459-477 | What is sent for a selector is its place in a list of the tables, to the front of which every one used moves |
| BlockFormat.SelectorsUndone | dep/bzip2/decompress.c:302-314 | Undoing the move-to-front gives the selectors back |
| BlockFormat.ReadSelectors | dep/bzip2/decompress.c:286-314 | The selectors are read back from their unary move-to-front values |
| BlockRoundTrip.ReadTable | dep/bzip2/decompress.c:318-328 | A delta-coded length table is read back, whatever follows |
| BlockRoundTrip.ReadTables | dep/bzip2/decompress.c:316-347 | All tables are, whatever follows |
| BlockRoundTrip.ReadCode | dep/bzip2/decompress.c:74-102 | A canonical code of the lengths in use gives its symbol and consumes exactly its length, whatever bits follow |
| BlockRoundTrip.ReadDescription | dep/bzip2/decompress.c:222-347 | Header, mapping table, selectors and code lengths are read back, and the symbols begin |
| BlockRoundTrip.SymbolTame | dep/bzip2/decompress.c:372-479 | Within a block of at most 900000 bytes no symbol strays |
| BlockRoundTrip.ReadSymbols | dep/bzip2/decompress.c:372-479 | From any symbol on, the data bits are read back, groups of fifty each with their selected table |
| BlockRoundTrip.ReadBlock | dep/bzip2/decompress.c:222-479 | A complete block is read back field by field, and nothing behind it is touched |
| WholeBlock.SendsFits | dep/bzip2/compress.c:602-667 | What is sent for a sorted block is within all the decoder's limits, and its column is the last column |
| WholeBlock.BlockComesBack | dep/bzip2/decompress.c:222-556 | Whole-block round trip: decoding what is sent for a block gives its last column, its origPtr and CRC, and the walk gives its bytes |
| WholeBlock.SendsTame | dep/bzip2/compress.c:602-667 | Whatever the compressor sends for a block is tame |
| BlockWriter.PutUInt32 | dep/bzip2/compress.c:83-89 | Four bytes, top first, are the 32 bits of the word |
| BlockWriter.SendMapping | dep/bzip2/compress.c:494-511 | Sixteen group bits and the bits of the groups in use |
| BlockWriter.ComputeSelectorMtf | dep/bzip2/compress.c:461-478 | The selectors' places in a list moved to front |
| BlockWriter.SendSelectors | dep/bzip2/compress.c:517-524 | Counts and unary places |
| BlockWriter.SendTable | dep/bzip2/compress.c:531-539 | Delta-coded lengths, the first one absolute |
| TableBands.NextBand | dep/bzip2/compress.c:287-294 | The band taken is the shortest with the share asked for, or all there is |
| TableBands.CutBand | dep/bzip2/compress.c:284-315 | Each band is cut for an even share of what is left, every other one a symbol shorter |
| TableBands.OneBand | dep/bzip2/compress.c:279-317 | Every symbol below the last cut is in exactly one band |
| CompressBlock.InitialTables | dep/bzip2/compress.c:279-317 | The tables to begin with: cost 0 on the table's band and 15 elsewhere, the bands cut as above from the first symbol on, for the last table first |
| CompressBlock.StartFavours | dep/bzip2/compress.c:279-317 | Every symbol of the alphabet is favoured by exactly one of them |
| SendMtfValues.GroupCosts | dep/bzip2/compress.c:356-393 | The cost of a group under each table is the sum of the lengths of its symbols; the 16-bit counters never wrap |
| SendMtfValues.PackedCost | dep/bzip2/compress.c:359-385 | Two costs added up in the halves of one word: neither half disturbs the other over the fifty symbols of a group |
| SendMtfValues.BestTable | dep/bzip2/compress.c:395-405 | The table recorded is the first of the cheapest ones |
| SendMtfValues.ChooseTable | dep/bzip2/compress.c:342-405 | For each group, by the fast track or the slow one, the first table with which its symbols take fewest bits |
| SendMtfValues.AssignGroups | dep/bzip2/compress.c:342-435 | Every group of fifty symbols gets the first of its cheapest tables; at most 18002 selectors are written (AssertH 3003); each table's frequencies count exactly the symbols of the groups it was given |
| SendMtfValues.RecomputeTables | dep/bzip2/compress.c:444-451 | Each table gets the best lengths from 1 to 17 for its frequencies, with Kraft sum one, whatever they are |
| SendMtfValues.ChooseTables | dep/bzip2/compress.c:319-458 | Exactly four rounds from the given tables: in each, every group takes its cheapest table of the round before, and every table is then the best for its groups; the last round's are complete prefix codes and selectors covering all symbols |
| SendMtfValues.AssignAllCodes | dep/bzip2/compress.c:480-492 | Every symbol of every table gets its canonical code |
| SendMtfValues.SendGroupCodes | dep/bzip2/compress.c:548-593 | One group is sent with its selected table: what was to be sent shrinks by exactly that |
| CompressBlock.SendMTFValues | dep/bzip2/compress.c:239-598 | Mapping, selectors, tables and data, in this order, as the decoder reads them |
| CompressBlock.EmitBlock | dep/bzip2/compress.c:630-653 | From a sorted block: the bits written are those of a description of this very block that the decoder can read; its tables and selectors are those of four rounds from the even bands of its own frequencies, two to six tables by the number of symbols |
| CompressBlock.ImprovedBest | dep/bzip2/compress.c:319-451 | The tables sent are the best for the groups that use them |
| RunLength.ReadPair | dep/bzip2/bzlib.c:216-247 | A run added to a block decodes to that run after what was there, and leaves the block complete; only a run of fewer than 255 of the same byte could merge with the next |
| BlockCrc.BlockCrcIs | dep/bzip2/bzlib_private.h:157-172 | The CRC of a block, its bits in opposite order, is the CRC of section 8 of RFC 1952 of the bytes with their bits in opposite order |
| BlockCrc.UpdateInjective | dep/bzip2/bzlib_private.h:167-172 | A step of the block CRC loses nothing: neither two registers nor two bytes give the same |
| BlockCrc.OneByteDetected | dep/bzip2/bzlib_private.h:157-172 | Changing any one byte changes the CRC of the block |
| BlockCrc.CombineInjective | dep/bzip2/compress.c:606-608 | Changing any one block CRC changes the combined CRC |
| BlockCrc.OrderCounts | dep/bzip2/compress.c:606-608 | Exchanging two neighbouring blocks leaves the combined CRC as it is exactly when their CRCs are equal or each other's complement |
| RunLength.PlainBlock | dep/bzip2/bzlib.c:535-642 | A block without four equal bytes in a row stands for itself |
| RunLength.CountedRun | dep/bzip2/bzlib.c:570-590 | Four equal bytes and a count stand for four of them and as many more |
| RunLength.RunRoundTrip | dep/bzip2/bzlib.c:216-284 | Cutting any data into its longest runs of at most 255 and writing each gives a complete block that denotes the data |
| RunLength.EncodeAppend | dep/bzip2/bzlib.c:216-247 | Behind a run that is full or of another byte, a run is written by itself |
| RunLength.BlockBuffer.AddPair | dep/bzip2/bzlib.c:216-247 | The pending run is folded in: decoded data, CRC and the marks of used bytes all grow by it, in at most five bytes |
| RunLength.BlockBuffer.AddChar | dep/bzip2/bzlib.c:260-284 | Decoded block plus pending run grow by exactly the byte added, for the fast track and the general case |
| RunLength.BlockBuffer.Flush | dep/bzip2/bzlib.c:252-257 | The pending run moves into the block, which then holds the data cut into its longest runs of at most 255, each written as itself or as four and a count |
| Unrle.AtEmit | dep/bzip2/bzlib.c:610-631 | Each byte put out extends what is written and its CRC by that byte |
| Unrle.AtDone | dep/bzip2/bzlib.c:636-639 | What is written is always a prefix of what the column stands for, and all of it exactly when the counters say so |
| Unrle.LongRun | dep/bzip2/bzlib.c:658-660 | Four equal bytes and a count are a run of count plus four, also when the count is read past the end of the block |
| Unrle.FastOutput.UnRLE | dep/bzip2/bzlib.c:589-682 | On any column, with any amount of room in any state: the next bytes of the run-expanded data that fit; corruption exactly when the block ends between a run and its count and the room reaches the end of the data, and then nothing is saved |
| Unrle.SmallOutput.UnRLE | dep/bzip2/bzlib.c:706-804 | The same bytes from the SMALL form; corruption exactly when the room goes past the end of such data, and all is saved |
| Stream.EState.constructor | dep/bzip2/bzlib.c:148-211 | Starts with nothing consumed and nothing emitted |
| Stream.EState.CopyInput | dep/bzip2/bzlib.c:289-329 | Takes bytes until the block is full or there are none to take; nothing is lost, and a full block leaves a pending run |
| Stream.EState.CopyOutput | dep/bzip2/bzlib.c:334-356 | Moves waiting bytes out until there is no room or none is waiting |
| Stream.EState.PrepareNewBlock | dep/bzip2/bzlib.c:117-126 | Clears block and marks and keeps the pending run |
| Stream.EState.CompressBlock | dep/bzip2/compress.c:602-667 | The block, with header before the first and trailer after the last, is appended, the combined CRC follows, and block and bits together stay within arr2 |
| Stream.EState.HandleCompress | dep/bzip2/bzlib.c:361-403 | Consumed input is at all times the data of emitted blocks, then of the current block, then the pending run; stops only for want of room or work; unless flushing, whether there is progress is decided beforehand by state, input and room |
| Stream.EState.FlushCase | dep/bzip2/bzlib.c:442-450 | The flush is unfinished only when the room is used up; when it is over all input taken is in compressed blocks |
| Stream.EState.FinishCase | dep/bzip2/bzlib.c:452-461 | STREAM_END exactly when the trailer is written and drained; the sequence error exactly when nothing was taken and nothing written, which happens exactly when there is no room and either bytes are waiting or there is no input |
| Stream.EState.Compress | dep/bzip2/bzlib.c:407-464 | Over any sequence of actions, portions and rooms: conservation of input, output only appended, STREAM_END exactly once at the complete stream, the return code of every refused and every accepted call with the exact condition, testable before the call, for progress and for the sequence error, and what each code means for input taken and room left |
| StreamFormat.ReadStreamHeader | dep/bzip2/decompress.c:197-209 | The stream header is read back |
| StreamFormat.ReadTrailer | dep/bzip2/decompress.c:562-586 | The end mark and the combined CRC are read back |
| StreamFormat.CombinedAppend | dep/bzip2/compress.c:606-608 | The combined CRC of one more block is a rotation and an exclusive or |
| DecodeBlock.SpellsBlock | dep/bzip2/decompress.c:484-556 | The column of a block's sorted order, from its origPtr, spells the block |
| DecodeBlock.StartFast | dep/bzip2/decompress.c:484-556 | Any received column with its byte counts and any origPtr within it make a FAST output over the column's one stable listing |
| DecodeBlock.StartSmall | dep/bzip2/decompress.c:484-535 | The same column, counts and origPtr make a SMALL output over the same listing |
| DecodeBlock.BothForms | dep/bzip2/bzlib.c:535-804 | FAST and SMALL agree on every column and every origPtr within it: the same bytes call by call whatever room each call has, the same CRC, done at the same moment with the data out; on a block that ends between a run and its count neither is ever done, and the calls in which each reports it are exact |
| DecodeBlock.SameBytes | dep/bzip2/bzlib_private.h:444-479 | For every column and origPtr within it, the k-th byte of BZ_GET_FAST is the k-th byte of BZ_GET_SMALL, for every k |
| DecodeBlock.DataOfBlock | dep/bzip2/bzlib.c:535-804 | For a block that does not end between a run and its count, what both forms write is the block's data |
| DecodeBlock.FourAlone | dep/bzip2/bzlib.c:633-639 | Four equal bytes alone: the block is not complete, and both forms have four bytes to write |
| BzDecompress.FromBlock | dep/bzip2/decompress.c:222-586 | From any block header on: the machine reaches the next block's column, or the trailer with the combined CRC |
| BzDecompress.Advance | dep/bzip2/decompress.c:43-65 | Whatever part of the stream has been supplied, the machine is on its way to where the whole would take it |
| BzDecompress.DState.constructor | dep/bzip2/bzlib.c:492-528 | Ready for a stream from its first bit |
| BzDecompress.DState.CheckBlock | dep/bzip2/bzlib.c:819-828 | For any block and whatever CRC was stored with it: accepted if and only if the bytes written have that CRC |
| BzDecompress.DState.CheckStream | dep/bzip2/bzlib.c:837-847 | Whatever CRC ends the stream: 4 if the combined CRC has that value, -4 otherwise |
| BzDecompress.DState.FinishBlock | dep/bzip2/bzlib.c:819-834 | For any block: on to the next header, with the combined CRC continued, exactly if the bytes written have the stored CRC, else nothing changes; for a block of the stream they have it |
| BzDecompress.DState.Decompress | dep/bzip2/bzlib.c:808-858 | Over any portions of input and output: what is written is a prefix of the data; a call falls short of its room only for want of input or at the end; STREAM_END only with all data written and both CRCs right |
| Crc.RegisterXor | dep/zlib/crc32.c:372-425 | The register is linear: a start value contributes its own zero-bit shift |
| Crc.CrcConcat | dep/zlib/crc32.c:372-425 | The checksum of a concatenation is the first one moved over the zero bits of the second, xor the second |
| Crc.CrcContinues | dep/zlib/crc32.c:221-253 | Going on from a checksum gives the checksum of all bytes |
| Crc32.PolyValue | dep/zlib/crc32.c:113-126 | The fourteen terms make the polynomial of section 8 of RFC 1952 |
| Crc32.ByteStep | dep/zlib/crc32.c:216-217 | One table step is eight single-bit steps |
| Crc32.WordStep | dep/zlib/crc32.c:258-262 | Four table entries of a word add up to its 32 single-bit steps |
| Crc32.BigWordStep | dep/zlib/crc32.c:298-300 | The byte-reversed tables do the same on the reversed register |
| Crc32.MakeCrcTable | dep/zlib/crc32.c:108-150 | Entry k of table i is k after 8(i + 1) zero bits; tables 4 to 7 are their byte reversals |
| Crc32.Crc32Little | dep/zlib/crc32.c:264-295 | Equals the bit-by-bit CRC of section 8 of RFC 1952 for every start, byte string and alignment |
| Crc32.Crc32Big | dep/zlib/crc32.c:304-337 | The same on a big-endian machine |
| Crc32.Crc32Bytes | dep/zlib/crc32.c:242-252 | The byte-wise loop likewise |
| Crc32.Checksum | dep/zlib/crc32.c:221-253 | The entry point: whichever form the machine takes, the CRC of section 8 of RFC 1952; zero without a buffer |
| CrcLaws.Residue | dep/zlib/crc32.c:221-253 | The checksum of any bytes followed by their own checksum, low byte first, is the constant 0x2144df1c, for every start |
| CrcLaws.CheckValue | dep/zlib/crc32.c:221-253 | The checksum of the digits 1 to 9 is 0xcbf43926 |
| CrcCombine.GF2MatrixTimes | dep/zlib/crc32.c:344-358 | The bitwise loop is the matrix product over GF(2), for every vector |
| CrcCombine.Through | dep/zlib/crc32.c:361-369 | Applying an operator to every column applies it to every product |
| CrcCombine.OneBitMatrix | dep/zlib/crc32.c:386-392 | The first matrix built is the one-zero-bit operator |
| CrcCombine.GF2MatrixSquare | dep/zlib/crc32.c:361-369 | From the operator of n zero bits to that of 2n |
| CrcCombine.Crc32Combine | dep/zlib/crc32.c:372-425 | The alternating squarings apply exactly 8 times len2 zero bits to the first checksum; with no second part it is returned |
| CrcCombine.CombineCorrect | dep/zlib/crc32.c:372-434 | combine(crc(A), crc(B), |B|) is crc(A ++ B), for all byte strings |
| Adler32.RawReduces | dep/zlib/adler32.c:99-124 | Sums reduced once at the end equal sums reduced at every byte |
| Adler32.NoOverflow | dep/zlib/adler32.c:14-16 | Within NMAX bytes the sums stay within 32 bits, even from sums that are not reduced |
| Adler32.NMaxIsLargest | dep/zlib/adler32.c:14-16 | NMAX is the largest such number |
| Adler32.Mod | dep/zlib/adler32.c:24-57 | Subtracting shifted multiples gives the remainder, with and without a division |
| Adler32.Mod4 | dep/zlib/adler32.c:46-57 | The shorter form for small sums gives it too |
| Adler32.Block | dep/zlib/adler32.c:99-109 | A block of NMAX bytes with one reduction is NMAX single steps |
| Adler32.Adler32 | dep/zlib/adler32.c:60-128 | From any start value, for every length, through the one-byte, short and long branches: the per-byte definition of section 2.2 of RFC 1950; the one case that is left BASE too large is exact, and no checksum leads to it |
| Adler32.CheckValue | dep/zlib/adler32.c:60-128 | The checksum of the digits 1 to 9 from the initial value is 0x091e01de |
| Adler32.ChecksumsFit | dep/zlib/adler32.c:72-81 | From a checksum the one-byte form always reduces |
| Adler32.CombineCorrect | dep/zlib/adler32.c:131-152 | The two sums of a concatenation from those of its parts |
| Adler32.Adler32Combine | dep/zlib/adler32.c:131-152 | On any two words: the result is the combined checksum exactly when both sums stay below the bound the subtractions can reduce, as they do for checksums |
| Adler32.ChecksumsCombine | dep/zlib/adler32.c:131-152 | combine(adler(X), adler(Y), |Y|) is adler(X ++ Y), for all byte strings |

## Findings

What the library is expected to do and does not, each with an input and with the exact condition.

| what fails | source | input | holds exactly |
|---|---|---|---|
| every index of the decoder stays within the selector arrays | dep/bzip2/decompress.c:287-300 | `StrayRuns.TooManySelectors` | on tame bits (`ReadingMachine.Decompressor.Decompress`, `Decompress.StraysExactly`) |
| the numbers of a run stay within Int32 | dep/bzip2/decompress.c:382-393 | `StrayRuns.TooLongRun`, `StrayRuns.TooLongForTally` | on tame bits |
| FAST and SMALL report corruption in the same call | dep/bzip2/bzlib.c:633-639, 770-774 | `DecodeBlock.FourAlone`, with room for exactly its data | for all other room, and for all blocks that are complete (`DecodeBlock.BothForms`) |
| one byte leaves Adler-32 sums reduced | dep/zlib/adler32.c:72-81 | `Adler32.OverfullStart` | unless the start is `Overfull` (`Adler32.Adler32`), which no checksum is (`Adler32.ChecksumsFit`) |
| combining two words gives reduced sums | dep/zlib/adler32.c:131-152 | `Adler32.UnsettledWords` | exactly when the words settle (`Adler32.Adler32Combine`), as all checksums do |

Everything the compressor writes is tame (`WholeBlock.SendsTame`), so none of the results about
its streams has such a condition.

## Left out

- The file and stdio layer of `dep/bzip2/bzlib.c`, memory allocation hooks, null-pointer checks, verbosity output, the failure handler behind `AssertH`, and the counters `total_in` and `total_out`: input, output and foreign calls.
- Sharing of memory between `block`, `quadrant` and the fallback sort's classes (`arr1`, `arr2`): each has an array of its own here. That `mtfv` is written over `ptr` is modelled, in 16-bit words; that the classes destroy the block is modelled by letting the block change arbitrarily.
- Writing out randomised blocks, which only the decoder knows and the compressor never writes: the reading machine reads their bit and goes on, the output routines are those of plain blocks.
- Malformed input: `ReadingMachine.Decompressor` and the FAST and SMALL forms are proved on any input, but `BzDecompress.DState`, which joins them, on streams of the compressor only, its two CRC tests and the end of a block apart (`BzDecompress.DState.CheckBlock`, `CheckStream`, `FinishBlock`). What the source does once it has left an array or overflowed is not modelled: the machine stays in the state `Stray`.
- SendMtfValues.ChooseTables: that a later round makes the output smaller is not claimed; each round does the best for its own groups and tables, an absent symbol counted once.
- HuffmanLengths.MakeCodeLengths: after a halving the lengths are the best for the halved weights; how much dearer they are for the frequencies themselves is not stated.
- MainSort.Sort: when the budget is exhausted nothing is claimed of the order. The price of a block bounds what is spent from above; that a dear block does exhaust the budget is not claimed, since ranks may end comparisons early.
- MainSort.SortSmall: the flag in `ftab` is only used in the direction that a flagged bucket is in order; that no bucket is sorted twice is stated only by what it costs.
- ReadingMachine.Decompressor.Decompress: the received column and the received code lengths are sequences, the column being copied into `tt` or `ll16` when it is complete; their bounds, 900000 entries and six tables of 258, are invariants. The six states in which a code is read (`BZ_X_MTF_1` to `BZ_X_MTF_6`) are merged into one pair, and the stored CRCs of block and stream share a field.
- BitIO.BitWriter.Write: the 32-bit buffer is a sequence of 32 bits, and values are numbers; the conversion between machine words and bits is not modelled.
- Unrle.FastOutput.UnRLE: the local copies of the state fields are the fields themselves; unrolled copies of loops in `blocksort.c`, `compress.c` and `adler32.c` are loops.
- Adler32.Adler32Combine: takes a length that is not negative; what a negative one gives depends on the width of `unsigned long` and is not modelled.
- BuffToBuff.Compress: the bound on the destination is proved with 18 bits per byte of a block; one close to the size of the source is not claimed. The continuation that completes the bytes of an overfull call to a stream is one of many, not the one the compressor would have written.
- Crc32.MakeCrcTable: the race of two threads building the table, and writing the table to a file.
- `dep/bzip2/crctable.c` as literal data: the block CRC uses the bitwise definition of an entry.
- Deflate, inflate and their wrappers in `dep/zlib`; `dep/gsoap`, `dep/mersennetwister`, `dep/SFMT` and the rest of the repository: not part of this model.
