# Verified model of the patchers

The repository bundles the coders that a ROM patcher for Android needs: bzip2, bsdiff and
bspatch, the ECM coder for disc images, two assemblers, and some support code. This project
models those with the hardest behaviour and proves what they promise. The models are
imperative where the code is: arrays changed in place, buffers and counters held in classes,
loops with invariants. Each is proved against a simpler specification.

- **bzip2** is modelled from the run-length front end to the bit stream and back: rotation sort
  (the fallback sort, with its explicit stack), move-to-front with run coding over the sort's own
  array, Huffman lengths that are proved best, canonical codes, block and stream format; and on the way back the
  16-window list, both inverse transforms and the resumable output. `Decompressor.RoundTrip`
  composes all of it: compressing and decompressing is the identity on every input. The decoder is
  specified on all inputs: `Decompressor.Decompress` succeeds exactly if the bytes are a stream.
- **bsdiff and bspatch**: the suffix sort is proved to end and to sort for every file; the search
  is characterised exactly; the triples are the ones that best extensions of the matches give, and they
  rebuild the new file; and `PatchFile.PatchRoundTrip` takes that through the header and three bzip2 streams of the model above, with the exact condition
  under which the file comes back.
- **ECM**: tables over GF(256), the detection code, sector recognition and reconstruction, the
  container and what it holds. `EcmDecoder.EcmRoundTrip` is the identity on every input. The detection
  code is proved to be the one of section 14.3 of ECMA-130, and the vectors those of its Annex A.
- **xkas**: exactly when the second pass repeats the sizes and addresses of the first, and operands as wide
  as the processor reads them.
- **asar**: the sorted array behind its tables is a map, and the if/elseif/else counters run what
  the structure of the program says.
- **Calendar arithmetic** of `maketime.c`: leap days, differences and zone shifts.

`dafny verify dfyconfig.toml` checks everything.

## Where the code does less than one might expect

- The suffix search of bsdiff does not always find the longest match: it compares only as many
  bytes as the shorter string has, so a suffix that ends inside the target counts as "not less"
  and the search goes left (jni/bsdiffpatcher/bsdiff.c:171). `SuffixSearch.SearchCanMiss` shows an
  input, and `SuffixSearch.Search` proves that the longest match is found if and only if no slot
  that the search probes holds such a suffix with a longer match elsewhere.
- The decoder of bzip2 takes any selector count of 15 bits, but its two selector arrays have 18002
  entries (jni/bzip2/decompress.c:289-314, jni/bzip2/bzlib_private.h:125). `SelectorRoom.HeadFits` proves
  that reading a header leaves them if and only if the count is larger and one selector more than there is
  room for does come; `SelectorRoom.LongHeadOverruns` builds such headers. The encoder never writes one
  (`TableChoice.FewSelectors`).
- The lengths of patch blocks are numbers of type `off_t` that are passed on as `int`
  (jni/bsdiffpatcher/bsdiff.c:366, 381, jni/bsdiffpatcher/bspatch.c:156, 175). Where `off_t` has 64 bits,
  as the model takes it to have, and `int` 32, this cuts them. `PatchFile.PatchRoundTrip`
  proves that the new file comes back if and only if both blocks are shorter than 2^31 bytes; otherwise no
  patch is made, or one that is refused, never one that gives a wrong file. From an empty old file that
  means exactly the new files below 2^31 bytes.
- For the same reason the patcher does not refuse every negative length in a patch: one whose low 32 bits
  are not negative slips through (`Bspatch.CanGoAstray`), and the position in the new file moves back, if
  those bits are 0 or its block's stream has not reported its end. After that report reading from the
  stream is an error (jni/bzip2/bzlib.c:818, 1161-1213), and the patch is refused. A stream reports its end
  together with its last byte if its trailer is in the input buffer by then, which the model leaves open
  (`Bspatch.Ends`); `Bspatch.EndDecides` is a patch that is refused or goes astray accordingly.
  `Bspatch.AstrayExactly` says when in general; the model stops there.
- bsdiff scores the current alignment over more bytes than it compares with: `oldscore` counts up to the
  furthest end of a match since the scan began (jni/bsdiffpatcher/bsdiff.c:280-289). `Bsdiff.ReachIsEnd`
  proves that this is the end of the match at hand wherever the searches find longest matches,
  `Bsdiff.ReachCanPass` is an input where it is not, and `Bsdiff.NextMatch` proves for all inputs what is
  counted and where the scan stops.
- ecmify fills its queue again only if it holds less than a sector and more than it holds is still to be read
  (jni/ecmpatcher/ecm.c:668-671). If some is left, but no more than it holds, it looks at too few bytes and
  can miss a sector. `EcmKinds.QueueRunsLow` proves when that is, `EcmKinds.KindIsRight` that the kind taken is right exactly if
  what is there fits into the queue, and `EcmKinds.LastSectorMissed` is an input for the queue of 0x40000
  bytes at whose last sector only a literal byte is taken. Decoding is not affected.
- In lorom xkas advances for every piece that it puts out, not for a whole line. From the upper half of a
  bank, where programs belong, that is the same (`Xkas.AllMove`); from a lower half it is not (`Xkas.PiecesMatter`).
- xkas does not reset `assume.mx`, the label namespace and the origin of the base between passes
  (jni/asmpatcher/xkas.cpp:1418-1437). `Xkas.SizesRepeat` proves that a line changes size if and only if
  it is an immediate operand whose bit nothing before it sets and the program leaves set, or an operand
  whose name means something else in the namespace left over; `Xkas.MissingExactly` that the second pass
  misses a label, and writes through a null pointer, if and only if the label comes before any namespace
  line and does not exist in the namespace left over. `Xkas.LeftOverMatters`, `Xkas.LeftNameMatters` and
  `Xkas.LeftNameCrashes` are programs for each. The origin of the base never matters.
- The marks for buckets of one in `qsufsort` leave out the bucket of byte 0
  (jni/bsdiffpatcher/bsdiff.c:119); the proof covers this, the group is settled in the first round.

## How to read it

- Bytes are `byte` (0..255), or `octet` (bit vectors) where the code works on bits. Words that
  wrap are masked explicitly; other integers are unbounded.
- Files and streams are byte sequences. What a call leaves for the next is kept in classes, and
  results hold for every cut of the input and every output room.
- The tables of bzip2 are a parameter (`Lookups.Lookup`): any way of starting, stepping, finishing and
  joining checksums whose results fit four bytes, and any positive distances for randomised blocks.
- Grammars (`ParseHead`, `ParseBlock`, `ParseStream` and so on) say what any bit string means: a value
  and the bits that follow, that more input is needed, or that it is wrong. Reading methods are proved
  against them on every input. What an encoder writes is proved to mean what it started from.
- Ghost parameters such as `runs`, `c` or `p` name what an input was made from or what is being read.
- A definition under `forall u :: Look(u) ==> ...` or with `Peek` (module `Closing`) stays closed in
  proofs that do not mention those; it means the definition itself.

## Model

| member | source | states |
|---|---|---|
| `FallbackQSort.SimpleSort` | jni/bzip2/blocksort.c:32-59 | The insertion sort (stride 4, then 1) leaves the range a rearrangement of itself, sorted by eclass, and the rest untouched |
| `FallbackQSort.SiftSorts` | jni/bzip2/blocksort.c:52-58 | One insertion into a sorted range sorts the range that is one longer |
| `FallbackQSort.VSwap` | jni/bzip2/blocksort.c:63-76 | Two blocks of equal length change places, nothing else moves |
| `FallbackQSort.JoinRuns` | jni/bzip2/blocksort.c:166-170 | Bringing the two equal runs into the middle turns a finished partition into smaller, equal, larger |
| `FallbackQSort.Partition` | jni/bzip2/blocksort.c:132-160 | The two scans end with nothing unseen: equal, smaller, larger, equal, and the range is only rearranged |
| `FallbackQSort.RangeStack.Push` | jni/bzip2/blocksort.c:81-83 | Pushes a pending range; its precondition is the assertion that the stack has room |
| `FallbackQSort.Turn` | jni/bzip2/blocksort.c:109-178 | One turn keeps the range at depth k at most N/2^k long, so pushing two ranges never overflows the stack of 100; the work left decreases |
| `FallbackQSort.QSort3` | jni/bzip2/blocksort.c:93-180 | For every range of at most 2^31 - 1 entries: sorted by eclass, a permutation of itself, rest untouched, and it ends without the stack assertion failing |
| `FallbackSort.RadixSort` | jni/bzip2/blocksort.c:231-241 | The radix sort puts each position at its slot by first byte and leaves bucket starts in ftab and counts in ftabCopy |
| `FallbackSort.FirstByteSorted` | jni/bzip2/blocksort.c:231-257 | After it fmap is a permutation, sorted to depth 1, with buckets marked |
| `FallbackSort.SkipRun` | jni/bzip2/blocksort.c:279-290 | Skipping bits one by one, then in words of 32, then one by one finds the first different bit and never runs past the sentinel |
| `FallbackSort.FillClasses` | jni/bzip2/blocksort.c:266-271 | eclass of each rotation is the bucket of the rotation H bytes later |
| `FallbackSort.ClassMeaning` | jni/bzip2/blocksort.c:266-271 | Comparing classes is comparing the H bytes that start H bytes on |
| `FallbackSort.PassDoubles` | jni/bzip2/blocksort.c:261-312 | A finished pass turns an order by the first H bytes into an order by the first 2H |
| `FallbackSort.RefinePass` | jni/bzip2/blocksort.c:273-306 | One pass: still a permutation, sorted to depth 2H, sentinels kept; zero unresolved means all buckets are single |
| `FallbackSort.DepthSuffices` | jni/bzip2/blocksort.c:311-312 | Stopping when H passes the block length or nothing is unresolved leaves the rotations in cyclic order |
| `FallbackSort.Rebuild` | jni/bzip2/blocksort.c:322-328 | The block is restored exactly from the sorted order and the byte counts alone; the scan stays below 256 |
| `FallbackSort.Sort` | jni/bzip2/blocksort.c:212-329 | For every non-empty block: fmap is a permutation in cyclic rotation order and the block is unchanged at the end |
| `FallbackSort.BlockSort` | jni/bzip2/blocksort.c:1031-1090 | origPtr is always found: the row whose rotation is the block itself |
| `Rotation.SortedOrdersAgree` | jni/bzip2/blocksort.c:212-329 | Two sorted orders list equal rotations row by row, however ties are broken |
| `InverseBwt.StepForward` | jni/bzip2/decompress.c:559-563 | The link of a row leads to the row of the following rotation, up to equal rotations |
| `InverseBwt.UnwindRestoresBlock` | jni/bzip2/decompress.c:559-566 | For every non-empty block and every sorted order with ptr[origPtr] = 0, periodic blocks included, following the links from origPtr yields the block, and past its end the block again |
| `InverseBwt.TablesInRange` | jni/bzip2/decompress.c:496-517 | The sanity checks on unzftab and cftab, exactly |
| `InverseBwt.MatchingCounts` | jni/bzip2/decompress.c:494-517 | Counts that match a column pass every check, and cftab holds the numbers of smaller bytes |
| `InverseBwt.ThreadLinks` | jni/bzip2/decompress.c:559-563 | Threads links into tt in place: low bytes stay the column, high parts become the inverse of ranking |
| `InverseBwt.UnwindFast` | jni/bzip2/bzlib_private.h:444-450 | Reading m bytes by BZ_GET_FAST gives the walk along the links and never leaves the table |
| `SmallDecoder.PackedLinks.Set` | jni/bzip2/bzlib_private.h:458-472 | A 20-bit link is stored in ll16 and half a byte of ll4 without disturbing its neighbour |
| `SmallDecoder.PackedLinks.StoreRanks` | jni/bzip2/decompress.c:526-534 | The packed array comes to hold the rank of every row |
| `SmallDecoder.PackedLinks.ReverseCycle` | jni/bzip2/decompress.c:536-545 | Pointer reversal ends, and along the cycle of origPtr every link is the inverse one |
| `SmallDecoder.IndexIntoF` | jni/bzip2/bzlib.c:687-698 | The binary search finds the byte whose rows contain the index |
| `SmallDecoder.PackedLinks.UnwindSmall` | jni/bzip2/bzlib_private.h:475-479 | BZ_GET_SMALL reads exactly the bytes that the FAST walk reads |
| `ColumnDecoder.DecodeFast` | jni/bzip2/decompress.c:486-575 | The FAST decoder accepts exactly the symbol strings whose column is in range, and then gives the bytes of that column |
| `ColumnDecoder.DecodeSmall` | jni/bzip2/decompress.c:486-556 | The SMALL decoder accepts the same strings and gives the same bytes |
| `MtfWindow.Windows.ShiftFirst` | jni/bzip2/decompress.c:430-446 | An entry of the first window moves to the front; the list is otherwise unchanged |
| `MtfWindow.Windows.ShiftAcross` | jni/bzip2/decompress.c:447-472 | An entry of any window moves to the front across windows that never overlap or leave the array of 4096 |
| `MtfWindow.Windows.Rebuild` | jni/bzip2/decompress.c:463-472 | Packing all windows back to the top of the array, in place, leaves the list unchanged |
| `MtfWindow.Windows.Access` | jni/bzip2/decompress.c:424-474 | uc is entry nn of the list of 256, and the list becomes the list with that entry in front |
| `MtfWindow.Windows.constructor` | jni/bzip2/decompress.c:359-370 | The initial windows hold 0..255 in order |
| `MtfWindow.MoveGap` | jni/bzip2/decompress.c:455-460 | Handing the last entry of a window to the next moves the gap down one window and leaves the list |
| `MtfRuns.RunsThenValue` | jni/bzip2/compress.c:174-188 | Every run length is the value of its code |
| `MtfRuns.ValueThenRuns` | jni/bzip2/compress.c:174-188 | Every RUNA/RUNB string is the code of its value: with the row above, run codes are a bijection |
| `MtfRuns.EncodeThenDecode` | jni/bzip2/compress.c:120-231 | For every column up to the guard, decoding the encoded symbols gives the column, with every run below the decoder's guard |
| `MtfEncoder.WriteRuns` | jni/bzip2/compress.c:174-188 | A pending run is written as its code, in no more words than the run is long |
| `MtfEncoder.MoveUpFront` | jni/bzip2/compress.c:189-206 | One sweep finds the symbol and moves it to the front |
| `MtfEncoder.SendOne` | jni/bzip2/compress.c:163-210 | Keeps wr + zPend <= i, so the symbols written over ptr never reach an entry still to be read |
| `MtfEncoder.Generate` | jni/bzip2/compress.c:120-231 | Overwriting ptr in place, mtfv ends up as the code of the whole last column and the end mark |
| `SymbolMaps.MakeMapsE` | jni/bzip2/compress.c:106-115 | Numbers the bytes in use densely |
| `SymbolMaps.MakeMapsD` | jni/bzip2/decompress.c:27-36 | Builds the inverse numbering |
| `SymbolMaps.DenseThenTranslate` | jni/bzip2/compress.c:106-115 | Numbering a column and translating it back gives the column |
| `MtfDecoder.ReadRun` | jni/bzip2/decompress.c:375-399 | A run's digits are added up to its length, or the guard refuses it exactly when a digit has weight 2M |
| `MtfDecoder.DecodeColumn` | jni/bzip2/decompress.c:345-484 | Succeeds exactly when all runs pass the guard and the column fits, and then stores that column and its byte counts |
| `BitStream.BitWriter.Put` | jni/bzip2/compress.c:58-78 | Writing n bits through the 32-bit buffer appends exactly those bits |
| `BitStream.BitWriter.Finish` | jni/bzip2/compress.c:46-54 | The bytes are all the bits written and fewer than eight zeros |
| `BitStream.BitReader.Get` | jni/bzip2/decompress.c:43-65 | Reading n bits gives the next n bits however the input was cut, or asks for more and loses nothing |
| `HuffmanHeap.UpHeap` | jni/bzip2/huffman.c:33-42 | Restores the heap after an insertion; the same nodes stay in it |
| `HuffmanHeap.DownHeap` | jni/bzip2/huffman.c:44-59 | Restores the heap after its top was replaced; the same nodes stay in it |
| `HuffmanLengths.MergeOnce` | jni/bzip2/huffman.c:100-110 | One merge joins the two lightest trees; the total weight is kept and the depth byte never overflows |
| `HuffmanTree.JoinedIsHeavy` | jni/bzip2/huffman.c:29-31 | A tree of depth d weighs at least the Fibonacci number of d + 2, which bounds depths by weights |
| `HuffmanLengths.BuildTree` | jni/bzip2/huffman.c:84-112 | The merges leave one full binary tree over all symbols with 2 * alphaSize - 1 nodes |
| `HuffmanTree.KraftEquality` | jni/bzip2/huffman.c:114-121 | The leaf depths of that tree satisfy Kraft with equality |
| `HuffmanLengths.LongNeedsWeight` | jni/bzip2/huffman.c:123-146 | A code longer than 12 needs a weight above two |
| `HuffmanLengths.Rescale` | jni/bzip2/huffman.c:142-146 | Every weight w becomes 1 + w / 2; none rises, and the sum falls if some weight is above two, so rescaling ends |
| `HuffmanOptimal.SideBySide` | jni/bzip2/huffman.c:100-110 | Any code for a forest is matched by one, no costlier and no deeper, whose two lightest trees have equally long codes |
| `HuffmanOptimal.ReducesMore` | jni/bzip2/huffman.c:100-110 | Joining the two lightest trees saves no code more than the weight of what they become |
| `HuffmanBest.TreeCost` | jni/bzip2/huffman.c:114-121 | The lengths measured in a tree cost what its inner nodes weigh |
| `HuffmanBest.TreeBest` | jni/bzip2/huffman.c:100-121 | They are a best code: none takes fewer bits, and none that takes as few has a shorter longest length |
| `HuffmanLengths.MakeCodeLengths` | jni/bzip2/huffman.c:63-148 | Ends for all frequencies that fit the weights, with all lengths in 1..maxLen and Kraft with equality; the lengths are a best code for the frequencies, a zero counted as one, halved as often as it takes until some code of the fewest bits keeps to maxLen, and no more often |
| `HuffmanLengths.FitsAtOnce` | jni/bzip2/huffman.c:123 | So they are best for the frequencies themselves exactly if a code of the fewest bits keeps to maxLen |
| `HuffmanLengths.OneChoice` | jni/bzip2/huffman.c:84-147 | There is only one such number of halvings |
| `Canonical.AssignCodes` | jni/bzip2/huffman.c:152-166 | Every symbol gets its canonical code |
| `Canonical.CodeFits` | jni/bzip2/huffman.c:152-166 | Under Kraft each code fits in its length |
| `Canonical.PrefixTooLarge` | jni/bzip2/huffman.c:152-166 | No proper prefix of a code is at or below the last code of its length: the code is prefix free |
| `Canonical.CreateDecodeTables` | jni/bzip2/huffman.c:170-200 | limit and base, in all 23 entries, and perm describe exactly that code; outside its lengths nothing can be accepted |
| `Canonical.TablesRead` | jni/bzip2/decompress.c:88-101 | For any lengths in 1..20, Kraft or not, and any bits: reading by limit, base and perm is reading by the code lengths, whatever else the arrays hold |
| `Canonical.ReadsBack` | jni/bzip2/decompress.c:88-101 | Reading bit by bit until the value is no more than the last code of its length gives the symbol that was sent |
| `BlockSyntax.SymbolsBack` | jni/bzip2/compress.c:548-593 | For all codes satisfying Kraft, all selectors and all symbol strings, the receiver reads the symbols back, with a change of table every 50 |
| `BlockSyntax.MapBack` | jni/bzip2/compress.c:494-512 | The two-level map of bytes in use reads back |
| `BlockSyntax.RankedBack` | jni/bzip2/compress.c:461-477 | Undoing the move-to-front of the selectors gives the selectors |
| `BlockSyntax.TablesBack` | jni/bzip2/compress.c:528-539 | The delta-coded lengths of all tables read back |
| `BlockFormat.HeadBack` | jni/bzip2/decompress.c:241-329 | A whole block header reads back |
| `BlockSender.SendSymbols` | jni/bzip2/compress.c:544-593 | What is written for the symbols is their code bits, group by group |
| `BlockSender.SendHead` | jni/bzip2/compress.c:494-539 | What is written before them is the header's bits |
| `BlockReceiver.GetSymbol` | jni/bzip2/decompress.c:74-102 | GET_MTF_VAL on any input: the symbol, an error, or a wait for input, as the bits say |
| `BlockReceiver.ReceiveHead` | jni/bzip2/decompress.c:241-329 | Reading a header, with its selector arrays of 18002 entries, agrees with its grammar on any input: value, error, missing input, or the write past those arrays |
| `SelectorRoom.HeadFits` | jni/bzip2/decompress.c:286-314 | Reading stays inside the selector arrays exactly if the 15-bit count is at most 18002, or an error or the end of the input comes before one selector too many |
| `SelectorRoom.LongHeadOverruns` | jni/bzip2/decompress.c:289-299 | For every count in 18003..32767 a whole header that leaves the arrays |
| `BlockReceiver.ReceiveSymbols` | jni/bzip2/decompress.c:356-484 | Reading the symbols agrees with the grammar of the tables on any input |
| `SymbolRange.CodedInAlphabet` | jni/bzip2/decompress.c:375-430 | On any input the symbols before the end mark are run digits or list positions below the number of bytes in use, so the unchecked index into the windows is in range |
| `TableChoice.CountSymbols` | jni/bzip2/compress.c:157-228 | mtfFreq counts every symbol |
| `TableChoice.InitialTables` | jni/bzip2/compress.c:279-317 | The initial tables are cheap on ranges that follow each other through the alphabet; each ends where it reaches its share of the uses that are left, every other one symbol earlier |
| `TableChoice.SelectTables` | jni/bzip2/compress.c:342-435 | Every group of 50 gets the first table of least cost, and rfreq counts exactly how often each table codes each symbol |
| `TableChoice.FewSelectors` | jni/bzip2/compress.c:455-457 | Assertion 3003: a block never needs more than 18002 selectors |
| `TableChoice.ChooseTables` | jni/bzip2/compress.c:271-457 | Four rounds from the initial tables: in each every group takes its cheapest table, and each table then becomes a best code of lengths up to 17 for exactly the symbols of the groups that took it; there is one selector per group and at most 18002 |
| `BlockCodec.SendBlock` | jni/bzip2/compress.c:616-652 | A block of any content is written as a coding of itself, with the tables and selectors of those four rounds, and is unchanged in memory |
| `BlockMeaning.ColumnIs` | jni/bzip2/decompress.c:27-36 | What seqToUnseq holds beyond the bytes in use never matters to the column |
| `Randomiser.UpdateMask` | jni/bzip2/bzlib_private.h:137-149 | The two counters say at every byte whether it is the last but one of a stretch of the table's distances |
| `Randomiser.Derandomise` | jni/bzip2/decompress.c:549-573 | Exactly those bytes of a block have their lowest bit flipped |
| `BlockCodec.RebuildBlock` | jni/bzip2/decompress.c:494-575 | Both decoders accept the same symbols and make the same bytes of them, on any header and symbols that were read, randomised or not |
| `BlockCodec.ReceiveBlock` | jni/bzip2/decompress.c:241-575 | On any input either decoder succeeds exactly if the bits are a block, randomised ones included, with the bytes they mean, and leaves its arrays exactly if the selectors overrun theirs |
| `BlockCodec.CodingParses` | jni/bzip2/decompress.c:241-575 | Every coding of a block that the sender can choose means that block, whatever follows it |
| `RunLength.ExpandPacked` | jni/bzip2/bzlib.c:589-661 | Expanding the packed runs gives the raw bytes, whatever two bytes lie behind the block |
| `RunEncoder.RunState.AddPair` | jni/bzip2/bzlib.c:216-247 | Appends the pending run as at most five bytes, marks the bytes used and updates the checksum |
| `RunEncoder.RunState.AddChar` | jni/bzip2/bzlib.c:260-284 | Block and pending run stand for one more byte; runs are split at 255 and nowhere before, and exactly the bytes of the block are marked as in use |
| `RunEncoder.RunState.FlushRL` | jni/bzip2/bzlib.c:252-256 | Nothing stays pending and nothing is lost |
| `RunDecoder.OutputState.OutputFast` | jni/bzip2/bzlib.c:589-680 | In whatever room each call has: output and what is left make up the expansion, checksum included |
| `RunDecoder.OutputState.OutputSmall` | jni/bzip2/bzlib.c:759-803 | The same for SMALL |
| `Compressor.Encoder.CopyInput` | jni/bzip2/bzlib.c:289-329 | Takes input until the block is full and loses none; the block stays within nblockMAX + 4 |
| `Compressor.Encoder.FlushBlock` | jni/bzip2/bzlib.c:384-388 | Even after the final flush the block is no longer than 100000 * blockSize100k |
| `Compressor.Encoder.Feed` | jni/bzip2/bzlib.c:361-403 | Over any calls, the blocks sent, the open block and the pending run stand for exactly the input; a block is sent only when it is full, or last when flushing or finishing, with runs as long as can be, its own bytes in use and the tables of four rounds |
| `Compressor.Encoder.Finish` | jni/bzip2/compress.c:602-667 | The stream is header, blocks, trailer with the combined checksum, and padding of fewer than eight bits |
| `CompressedSize.StreamLength` | jni/bzip2/compress.c:602-667 | The compressed bytes are at most 15 and a fixed number for each byte of data, however it was cut into blocks |
| `StreamMeaning.StreamParses` | jni/bzip2/decompress.c:183-240 | Whatever an encoder made of data means that data, whatever follows it |
| `Decompressor.Decompress` | jni/bzip2/bzlib.c:808-858 | On any input: succeeds exactly if the bytes are a stream, with or without randomised blocks, with the data they mean, so neither the cut of the input, nor the room of any call, nor the decoder makes a difference |
| `Decompressor.RoundTrip` | jni/bzip2/bzlib.c:808-858 | Compress then decompress is the identity for every input, cut into any parts with or without flushing, every level, every list of piece sizes for the compressed bytes, either decoder and any room in any call |
| `SuffixGroups.KeysDecide` | jni/bsdiffpatcher/bsdiff.c:43-66 | Inside a group the groups h bytes on decide the order, or prove 2h equal bytes, even while they are being split |
| `SuffixGroups.Renumbered` | jni/bsdiffpatcher/bsdiff.c:63-64 | Numbering the first suffixes of a waiting group by their last slot keeps every slot ranked and the rest waiting |
| `SuffixGroups.SelectGroups` | jni/bsdiffpatcher/bsdiff.c:47-66 | The short sort splits a group into groups alike for 2h bytes, in suffix order, and moves nothing else |
| `SuffixSplit.Partition` | jni/bsdiffpatcher/bsdiff.c:68-96 | The three-way partition never writes outside its parts and leaves them in suffix order, the middle alike for 2h bytes |
| `SuffixSplit.RoomLeft` | jni/bsdiffpatcher/bsdiff.c:70-75 | Counting the keys first guarantees that each part has room for every key still to come |
| `SuffixSplit.Split` | jni/bsdiffpatcher/bsdiff.c:43-102 | split ranks a group by twice as many bytes, whatever its size, and leaves everything else in place |
| `Qsufsort.FirstRanking` | jni/bsdiffpatcher/bsdiff.c:109-120 | The bucket sort ranks all suffixes by one byte |
| `Qsufsort.BucketsRanked` | jni/bsdiffpatcher/bsdiff.c:115-118 | Slots by first byte and numbers by bucket end form a ranking by one byte |
| `Qsufsort.Round` | jni/bsdiffpatcher/bsdiff.c:123-136 | One round over the array, run marks included, doubles the ranking; if it meets no group it marks all as sorted |
| `Qsufsort.GroupWaits` | jni/bsdiffpatcher/bsdiff.c:129-131 | A slot that holds a suffix starts a group that ends at its number, and V[I[k]+h] stays inside V |
| `Qsufsort.Sort` | jni/bsdiffpatcher/bsdiff.c:104-140 | For every file the loop ends and I lists all suffixes, the empty one included, each once and in order |
| `SuffixSearch.MatchLen` | jni/bsdiffpatcher/bsdiff.c:142-150 | The length of a common prefix that cannot be longer |
| `SuffixSearch.Search` | jni/bsdiffpatcher/bsdiff.c:152-176 | For any order a genuine match that cannot be extended; in suffix order the longest match exactly if no probe is misled |
| `SuffixSearch.BorderCaps` | jni/bsdiffpatcher/bsdiff.c:170-175 | Left of a suffix that ends inside the target no match is longer than that suffix |
| `SuffixSearch.Lookup` | jni/bsdiffpatcher/bsdiff.c:278-279 | The same for the search over all slots |
| `SuffixSearch.OnlyBordersMislead` | jni/bsdiffpatcher/bsdiff.c:170-175 | A search is misled only if some suffix of the old file ends inside a longer match |
| `SuffixSearch.SearchCanMiss` | jni/bsdiffpatcher/bsdiff.c:171 | The old file abxab and the new file abx: the longest match is missed |
| `Bsdiff.NextMatch` | jni/bsdiffpatcher/bsdiff.c:277-291 | The scan stops at a full match beyond where it began, or at the end; oldscore is the number of bytes of the current alignment that match from there to the furthest end of a match found, and the stop condition holds there and nowhere before |
| `Bsdiff.ReachIsEnd` | jni/bsdiffpatcher/bsdiff.c:280-283 | That furthest end is the end of the match at hand if all searches since the scan began find longest matches |
| `Bsdiff.ReachCanPass` | jni/bsdiffpatcher/bsdiff.c:280-283 | Old file Zabxab, new file Zabx: it lies beyond that match |
| `Bsdiff.ExtendForward` | jni/bsdiffpatcher/bsdiff.c:294-299 | lenf maximises twice the matching bytes less the length |
| `Bsdiff.ExtendBackward` | jni/bsdiffpatcher/bsdiff.c:301-308 | lenb maximises the same backwards |
| `Bsdiff.CutOverlap` | jni/bsdiffpatcher/bsdiff.c:310-319 | The cut of the overlap that keeps the most matches |
| `Bsdiff.Lengths` | jni/bsdiffpatcher/bsdiff.c:294-323 | The two lengths are the shortest that maximise each extension, cut where they overlap at the first place that keeps the most matches; they stay inside both files |
| `Replay.BuildsMore` | jni/bsdiffpatcher/bspatch.c:140-183 | A further triple builds exactly the next stretch of the new file, whatever follows it |
| `Replay.BytesConserved` | jni/bsdiffpatcher/bspatch.c:140-183 | Every byte of the new file comes from one byte of the diff or extra block |
| `Bsdiff.Diff` | jni/bsdiffpatcher/bsdiff.c:272-353 | For all files and any suffix order: replaying the triples gives the new file, with every triple and byte used and no number negative or out of range; there are at most as many triples as bytes, and one; the patch is exactly the one that the scan, the best extensions and the cuts define |
| `DiffMeaning.SameFile` | jni/bsdiffpatcher/bsdiff.c:272-353 | Two equal files make one triple over the whole length, all differences zero and no extra bytes, whatever the order of suffixes |
| `Bsdiff.Compare` | jni/bsdiffpatcher/bsdiff.c:196-353 | The same with the suffixes sorted by qsufsort, for all files |
| `Bsdiff.EqualFiles` | jni/bsdiffpatcher/bsdiff.c:196-353 | So the patch from a file to itself has one triple, zero differences and no extra bytes |
| `Offsets.OffBack` | jni/bsdiffpatcher/bsdiff.c:178-194 | offtin undoes offtout for every number that fits |
| `Bspatch.CtrlBack` | jni/bsdiffpatcher/bspatch.c:142-149 | The control block reads back |
| `Bspatch.Apply` | jni/bsdiffpatcher/bspatch.c:139-183 | On every input, with lengths read as int and streams that report their ends with their last bytes or not: rebuilds what the triples say, finds the patch corrupt, or goes astray at a length that slips through |
| `Bspatch.ShortBlocks` | jni/bsdiffpatcher/bspatch.c:139-183 | A patch whose blocks are below 2^31 bytes is applied as its triples mean |
| `Bspatch.CutBlocks` | jni/bsdiffpatcher/bspatch.c:155-178 | A patch that needs all of its blocks is refused if either is cut short |
| `Bspatch.AstrayExactly` | jni/bsdiffpatcher/bspatch.c:151-158 | A patch goes astray exactly if it is good up to a triple with a length that is negative but not as an int, and there 0 as an int or for a block whose stream has not reported its end |
| `Bspatch.NeverAstray` | jni/bsdiffpatcher/bspatch.c:151-158 | A patch without such lengths never does |
| `Bspatch.CanGoAstray` | jni/bsdiffpatcher/bspatch.c:151-158 | The one triple (-2^32, 0, 0) is enough, whenever the ends are reported |
| `Bspatch.EndDecides` | jni/bsdiffpatcher/bspatch.c:151-158 | Three bytes and then a length that is 5 as an int: refused exactly if the end came with the third byte, otherwise astray |
| `PatchFile.MakePatch` | jni/bsdiffpatcher/bsdiff.c:249-400 | The file holds a patch that turns the old file into the new one, each block cut to its length as an int; it is always made if both blocks are below 2^31 bytes |
| `PatchFile.ApplyPatch` | jni/bsdiffpatcher/bspatch.c:57-200 | A file that holds a patch comes to what its triples and blocks come to, whenever the streams report their ends |
| `PatchFile.PatchRoundTrip` | jni/bsdiffpatcher/bspatch.c:57-200 | bspatch undoes bsdiff, through the header and the three bzip2 streams, exactly if both blocks are below 2^31 bytes, which they are if the new file is; otherwise no wrong file comes out, whenever the streams report their ends |
| `Galois.InitEcc` | jni/ecmpatcher/ecm.c:92-99 | ecc_f_lut doubles in GF(256) and ecc_b_lut divides by three |
| `Galois.ParityUnique` | jni/ecmpatcher/ecm.c:155-158 | The two bytes computed are the only ones that satisfy both check equations |
| `Edc.InitEdc` | jni/ecmpatcher/ecm.c:94-103 | Every entry is eight steps of the bitwise division |
| `Edc.Compute` | jni/ecmpatcher/ecm.c:110-119 | By table, and equal to the bit-at-a-time remainder for every message and start value |
| `EdcPolynomial.TheProduct` | jni/ecmpatcher/ecm.c:100 | (x^16 + x^15 + x^2 + 1)(x^16 + x^2 + x + 1) = x^32 + x^31 + x^16 + x^15 + x^4 + x^3 + x + 1 |
| `EdcPolynomial.GeneratorIs` | jni/ecmpatcher/ecm.c:100 | The constant 0xD8018001 is that product, highest power in the least significant bit |
| `ShiftRegister.RemainderDivides` | jni/ecmpatcher/ecm.c:94-119 | A shift register with the laws of this one holds the remainder of the data by its generator |
| `EdcPolynomial.Codeword` | jni/ecmpatcher/ecm.c:94-119 | Any data with its detection code behind it is a multiple of the product |
| `Edc.RemainderAppend` | jni/ecmpatcher/ecm.c:110-119 | However a message is split, the remainder is the same |
| `Edc.PutThenGet` | jni/ecmpatcher/ecm.c:69-82 | get32lsb undoes put32lsb |
| `SectorLayout.TwiceIsTimesX` | jni/ecmpatcher/ecm.c:94-99 | Doubling in the field is multiplying by x modulo x^8 + x^4 + x^3 + x^2 + 1 |
| `Interleave.PIndex` | jni/ecmpatcher/ecm.c:126-137 | Element k of P vector m is byte m + 86k, by words 43k + m/2 |
| `Interleave.QIndex` | jni/ecmpatcher/ecm.c:126-137 | Element k of Q vector m is in word 44k + 43(m/2) modulo 1118 |
| `Interleave.PPartition` | jni/ecmpatcher/ecm.c:209-215 | Every byte before the P parity is on exactly one P vector, once |
| `Interleave.QPartition` | jni/ecmpatcher/ecm.c:209-228 | Every byte before the Q parity, the P parity included, is on exactly one Q vector, once |
| `SectorParity.CheckPq` | jni/ecmpatcher/ecm.c:126-164 | Accepts exactly if every vector has the right parity |
| `SectorParity.WritePq` | jni/ecmpatcher/ecm.c:169-202 | Makes the parity of every vector right and touches nothing else |
| `ProductCode.RightDetermines` | jni/ecmpatcher/ecm.c:169-202 | Sectors that agree up to the parity bytes and have right parity agree on those too |
| `SectorParity.RightIsCodeword` | jni/ecmpatcher/ecm.c:126-202 | Right parity is the same as both check sums of the whole vector, parity bytes included, being zero |
| `SectorParity.CheckIsNoChange` | jni/ecmpatcher/ecm.c:126-202 | The check accepts exactly when writing would change nothing |
| `Sectors.DetectSector` | jni/ecmpatcher/ecm.c:244-316 | The kind returned is exactly the one whose frame, EDC and ECC the bytes have |
| `SectorLayout.Mode1Layout` | jni/ecmpatcher/ecm.c:244-281 | A mode 1 sector is exactly sync, address, mode 1, 2048 bytes, detection code, eight zeros and 276 bytes of right parity |
| `SectorLayout.Form1Layout` | jni/ecmpatcher/ecm.c:282-305 | A mode 2 form 1 sector is exactly the flags twice, 2048 bytes, detection code and right parity for a zero address |
| `SectorLayout.Form2Layout` | jni/ecmpatcher/ecm.c:282-310 | A mode 2 form 2 sector is exactly the flags twice, 2324 bytes and detection code |
| `Sectors.PayloadDetermines` | jni/ecmpatcher/ecm.c:244-397 | Two sectors of one kind with the same payload are the same sector |
| `SectorRebuild.WriteEcc` | jni/ecmpatcher/ecm.c:221-228 | P then Q: both end up right, and only parity bytes change |
| `SectorRebuild.RebuildMode1` | jni/ecmpatcher/ecm.c:323-397 | From any buffer a mode 1 sector with the given payload |
| `SectorRebuild.RebuildForm1` | jni/ecmpatcher/ecm.c:323-397 | From any buffer a mode 2 form 1 sector with the given payload |
| `SectorRebuild.RebuildForm2` | jni/ecmpatcher/ecm.c:323-397 | From any buffer a mode 2 form 2 sector with the given payload |
| `EcmCount.HeaderBack` | jni/ecmpatcher/ecm.c:405-423 | Every type and 32-bit count reads back, so no record can be taken for the end mark |
| `EcmCount.WriteTypeCount` | jni/ecmpatcher/ecm.c:405-423 | Writes that header; zero wraps to the end mark |
| `EcmCount.ReadTypeCount` | jni/ecmpatcher/ecm.c:917-934 | Reads it on any input, refusing counts that do not fit |
| `EcmEncoder.WriteSectors` | jni/ecmpatcher/ecm.c:507-547 | A run is written as its header and the payloads of its items |
| `EcmEncoder.Ecmifier.Classify` | jni/ecmpatcher/ecm.c:708-749 | The type is literal while literals are skipped or a mode 2 sync comes after a mode 2 sector, and otherwise exactly what is detected in the queue |
| `EcmEncoder.Ecmifier.Turn` | jni/ecmpatcher/ecm.c:663-797 | One turn keeps: runs written, current run and queue partition the input |
| `EcmEncoder.Ecmify` | jni/ecmpatcher/ecm.c:655-807 | For every input and queue size the output is a container of runs that make up the input; their items have exactly the kinds that are detected one after the other, and a run ends only where the kind changes or at 2^31 items |
| `EcmKinds.KindIsRight` | jni/ecmpatcher/ecm.c:660-751 | Outside skipped literals the kind taken is the one the input has there exactly if what it has fits into the queue |
| `EcmKinds.QueueRunsLow` | jni/ecmpatcher/ecm.c:663-700 | After the refill the queue holds a whole sector or all that is left, unless less than a sector was left in it and no more than that was still to be read |
| `EcmKinds.OneSector` | jni/ecmpatcher/ecm.c:655-797 | A mode 1 sector by itself is one item of kind 1 |
| `EcmKinds.LastSectorMissed` | jni/ecmpatcher/ecm.c:663-700 | 1424 bytes and 111 mode 1 sectors: at the last of them the item is literal although a sector is there |
| `EcmDecoder.Unecmify` | jni/ecmpatcher/ecm.c:916-998 | Any such container decodes to its input and passes the final check |
| `EcmDecoder.EcmRoundTrip` | jni/ecmpatcher/ecm.c:575-998 | Encoding and decoding is the identity on every input |
| `Xkas.IncPc` | jni/asmpatcher/xkas.cpp:291-306 | In lorom a step stays in the upper halves of banks and moves the linear position by exactly x |
| `Xkas.AllMove` | jni/asmpatcher/xkas.cpp:308-315 | Pieces put out one after the other move the linear position from the upper half of a bank by what they add up to |
| `Xkas.PiecesMatter` | jni/asmpatcher/xkas.cpp:291-315 | At 0x007ffe an opcode byte and three operand bytes end at 0x018002, four bytes at once at 0x008002 |
| `Xkas.PiecesTotal` | jni/asmpatcher/xkas.cpp:308-315 | The pieces of a line add up to its size |
| `Xkas.FileMoves` | jni/asmpatcher/xkas.cpp:271-280 | While the bank stays below the mirror the file position moves by exactly x |
| `Xkas.RunAlongside` | jni/asmpatcher/xkas.cpp:201-253 | For every program, before every line: the passes share modes and label addresses; an mx bit or the namespace differs only if nothing has said it, and then by what the first pass left |
| `Xkas.SizesRepeat` | jni/asmpatcher/xkas.cpp:723-747 | A line has the same size in both passes exactly if it does not read a left-over bit of mx, nor a name that a left-over namespace changes |
| `Xkas.MissingExactly` | jni/asmpatcher/xkas.cpp:238-241 | The second pass misses a label exactly if no namespace line comes before it and the label does not exist in the namespace left over |
| `Xkas.NamesRepeat` | jni/asmpatcher/xkas.cpp:201-241 | In programs that end in no namespace no name changes and no label is missed |
| `Xkas.CountersAgree` | jni/asmpatcher/xkas.cpp:1418-1437 | As long as no such line or label has come, both passes stand at the same address |
| `Xkas.LabelAddress` | jni/asmpatcher/xkas.cpp:227-245 | Then each label has in the second pass the address the first recorded |
| `Processor.StaysInStep` | jni/asmpatcher/xkas.cpp:749-761 | If the flags that are followed are those of the processor, they are so after any lines that do not speak of mx: rep clears and sep sets in both |
| `Processor.OperandsFit` | jni/asmpatcher/xkas.cpp:723-732 | Then every immediate operand is as wide as the processor reads it |
| `Xkas.FullSettingsRepeat` | jni/asmpatcher/xkas.cpp:1086-1100 | Programs that give both digits of mx and end in no namespace never meet an exception |
| `Xkas.LeftOverMatters` | jni/asmpatcher/xkas.cpp:1418-1437 | A program of three lines whose operand changes size because mx is not reset |
| `Xkas.LeftNameMatters` | jni/asmpatcher/xkas.cpp:201-208 | A program whose operand changes size because the namespace is not reset |
| `Xkas.LeftNameCrashes` | jni/asmpatcher/xkas.cpp:238-241 | A label and a namespace line are enough for the second pass to miss the label |
| `Xkas.Assembler.Assemble` | jni/asmpatcher/xkas.cpp:1418-1437 | Both passes: the second runs through and repeats all sizes exactly if no line is stale and no label is missed, and then the ends agree |
| `AssocArray.BitRound` | jni/asarpatcher/libmisc.h:34-38 | The next power of two |
| `AssocArray.PosDivides` | jni/asarpatcher/assocarr.h:68-90 | In a sorted array the insertion point divides smaller keys from the others, so it is unique |
| `AssocArray.FindIndex` | jni/asarpatcher/assocarr.h:111-127 | Finds a present key at its index and no absent key |
| `AssocArray.AssocArr.Locate` | jni/asarpatcher/assocarr.h:68-90 | Ends at the key or at its insertion point |
| `AssocArray.AssocArr.Exists` | jni/asarpatcher/assocarr.h:131-134 | True exactly for the keys of the map |
| `AssocArray.AssocArr.Find` | jni/asarpatcher/assocarr.h:136-139 | The value of a key in the map |
| `AssocArray.AssocArr.Create` | jni/asarpatcher/assocarr.h:68-109 | Adds a missing key with a fresh value and leaves every other entry; keys stay sorted and num <= bufferlen |
| `AssocArray.AssocArr.Remove` | jni/asarpatcher/assocarr.h:146-177 | Removes exactly that key; keys stay sorted and num <= bufferlen |
| `Conditionals.RunBlock` | jni/asarpatcher/assembleblock.cpp:661-811 | In every state a well-nested block restores the counters and runs exactly the lines its structure selects, whatever stale elsestatus holds |
| `Conditionals.RunRest` | jni/asarpatcher/assembleblock.cpp:776-811 | At most one more branch of a chain runs, and only if none has |
| `Conditionals.Assembler.Directive` | jni/asarpatcher/assembleblock.cpp:661-811 | One directive on the counters, misplaced ones refused |
| `Conditionals.Assembler.RunProgram` | jni/asarpatcher/assembleblock.cpp:594-811 | A whole program runs exactly the lines of the selected branches and leaves the counters at zero |
| `Calendar.LeapsCounted` | jni/libedsio/maketime.c:127-129 | The closed form for leap days agrees with counting leap years one by one |
| `Calendar.DiffTm` | jni/libedsio/maketime.c:117-140 | The difference in seconds of the two days and times, for all years |
| `Calendar.MonthLengths` | jni/libedsio/maketime.c:83-101 | The table gives every month its length, February 28 or 29 days |
| `Calendar.DayIsCivil` | jni/libedsio/maketime.c:83-86 | Table and leap years give the day that counting months from March gives, 153 days for five months |
| `Calendar.NextMonth` | jni/libedsio/maketime.c:83-96 | The first of a month follows the last of the one before, leap years and year ends included |
| `Calendar.Tm.AdjZone` | jni/libedsio/maketime.c:147-202 | For every valid time and up to a day either way: a valid time exactly that many seconds away, the weekday moved with the day if it is defined, a leap second kept, and the second itself kept under whole minutes |

## Left out

- bzip2 main sort (mainSort, mainQSort3, mainGtU): blocks of any size take the fallback sort; any sorted order gives a block that the proved decoders read.
- bzip2 CRC polynomial and table, and the table of distances of randomised blocks: a parameter, see above.
- bzip2 file wrappers, memory limits, counters of total bytes and verbosity output: plumbing around the modelled streams.
- bzip2 output buffering of the compressor (copy_output_until_stop): the stream is given as a whole; its input side is modelled call by call.
- HuffmanLengths.MakeCodeLengths: requires the sum of the frequencies, a zero counted as one, to be below 2^23, so that weights shifted by eight bits stay positive as 32-bit integers, and a length limit of at least 12; bzip2 passes 17 and at most 900001 symbols.
- Decompressor.Decompress: does not say which error a bad input gives, nor what comes out before it, because the source decodes symbols while it reads them and the model after; a write past the selector arrays ends it.
- PatchFile.MakePatch: requires the sizes of both files together to fit a signed 64-bit offset, as the source computes with off_t.
- bsdiff and bspatch where `off_t` has 32 bits: lengths are cut in offtin already, before any check.
- Bspatch.Apply: does not follow the source beyond a length that slips through; the blocks are decoded before they are used, not piece by piece.
- Recursion depth of split and search: the model has no call stack to exhaust.
- EcmEncoder.Ecmify: the source's queue of fixed size is any queue that holds a sector; file seeking and progress output are not modelled.
- Xkas: only lines that matter to sizes and addresses; parsing, macros, sublabel and macro label prefixes, labels defined by an expression, branches and the opcode tables are not modelled.
- AssocArray.AssocArr.Find: requires the key to be present, as the source indexes with -1 otherwise.
- AssocArray: the delayed removal of entries that operator[] created and nobody assigned, and moving entries; keys are compared as character sequences.
- Conditionals: single-line ifs, assert, and the evaluation of conditions, which come in as booleans.
- Calendar.Tm.AdjZone: requires at most a day either way, as the source demands; conversion through the system's time functions is not modelled.
- libsmw's freespace allocator and address conversions: bank rounding can skip or revisit positions, so the expected guarantees do not hold as written.
- asar's expression evaluator, opcode tables and string classes: floating point over C strings, or large tables with easy facts.
- IPS, IPS32, PPF, DPS, DLDI and APS appliers, base64, digests and serializers: simpler loops that would only add easier members.
- BPS, UPS and xdelta glue, JNI entry points and the Java side: no algorithm of their own here.
