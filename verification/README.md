# Verified models of PortMapping's bundled algorithms

PortMapping carries several self-contained algorithms in its sources: two DEFLATE decoders
(`DuiLib/Utils/XUnzip.cpp`, a resumable one taken from zlib 1.1.3, and `DuiLib/Utils/stb_image.c`, a
one-shot one), the PNG and GIF transforms of `stb_image.c`, and from libuv the search trees of
`include/tree.h`, the linked heap of `src/heap-inl.h`, the circular lists of `src/queue.h` and the file
poller `src/fs-poll.c`. This project models them in Dafny, in the imperative form they have, and proves
what they are for.

`dafny verify dfyconfig.toml` checks everything.

## How it is built

**Bit streams.** A byte string is the number whose bit `i` is the `i`-th bit to be decoded
(`Bits.BytesVal`). `Drop`, `Low` and `Code` are a right shift, a mask, and the bits read with the first one
most significant. They replace the shifts and masks of the C code, and `BitOr` is `|`.

**One specification, two decoders.** `Canonical.Decode` is the decoder of section 3.2.2 of RFC 1951: read
one bit after the other until some symbol has the code read. `Deflate.DecodeBlock` reads tokens with it,
`Deflate.Expand` is LZ77 expansion, `Stream.Inflate` is a whole stream, and `Encode.PutStream` writes one,
with stored blocks and with fixed and dynamic codes (`Headers`).

* `StbHuffman` and `StbInflate` are stb's decoder; all of it refines the specification, and `RoundTrip`
  closes the circle from encoded bytes back to the string.
* `HuftSpec`, `HuftBuild`, `HuftSpace`, `HuftEnough`, `HuftTheorem`, `Huft` and `Trees` are the multi-level tables of
  XUnzip, with a ghost record for every table entry of which bits lead to it.
* `CodesSpec` and `InflateCodes` are the resumable state machine with its bit buffer, the 32K window, the
  slow steps and the fast loop. The ghost `hist` is all output of the stream. `FastSlow` runs the fast loop and
  single steps side by side.
* `Agreement` puts both decoders on one block.
* `HuftExample` and `HeaderExamples` are inputs on which something goes wrong. `KnownAnswers` has streams of each kind of
  block, with their content.
* `GifSpec` is LZW decoding, `GifEncode` an encoder, and `GifRoundTrip` leads from an image to the bytes of a raster
  and back through the decoder.

**Linked structures.** Trees, heap and list are classes with pointers. The ghost side is a value: a tree
(`RbSpec`), a tree split into two spines and a middle (`SplaySpec`), a sequence in level order
(`HeapSpec`), a sequence (`Queue`). Each value says what every node must hold, and an operation is proved
by comparing, node by node, what it holds before and after.

**The poller** is a state machine over the events of the loop and the calls of the user, in any order, with
the calls that the user makes from within the callback as a parameter.

## What came out

* The tables of `huft_build` decode every stream as the bit-at-a-time decoder does exactly when the code is
  *sparse* for the table width (`HuftTheorem.Sparse`, a condition on the lengths and the width only: at each
  level boundary fewer patterns are left than one table has entries). Otherwise the loop that looks for
  smaller tables starts beyond the table width and leaves entries unwritten, which a stream can reach
  (`HuftTheorem.DenseMisreads`, `HuftTheorem.ExactlySparse`). With the lengths 1, 3, 3, 3, 3, tables of one bit
  and the bits 1, 0, 1, the builder reports success and the walk reads symbol 0 instead of 2
  (`HuftExample.Misread`). The codes of a DEFLATE block, in the widths the program asks for, are always sparse
  once accepted (`Trees.AcceptableSparse`).
* The 1440 entries that XUnzip reserves for the tables of a dynamic block are always enough: the tables of an accepted
  pair of codes take no more than 928 and 268 (`HuftEnough.EnoughEntries`, `Trees.RoomForAccepted`), so that
  `inflate_trees_dynamic` reports Z_OK exactly for the acceptable pairs (`Trees.TreesDynamic`). The source says that
  the maximum is not known.
* XUnzip looks up as many bits as its table has, even when the code is shorter, so that it comes to the end of
  a block only when a few bits follow (`InflateCodes.Ample`); stb puts zeros there. Given these, and room, it
  comes to the end of every block that stb decodes (`Agreement.SideBySide`).
* stb reads zeros behind the end of its input. A stream of blocks ends all the same (`Stream.NothingBehind`),
  but a block need not: it goes on for ever exactly when its tokens come to where only zeros are left and
  zeros begin with a token (`Deflate.EndlessIff`); `HeaderExamples.EndlessInput` is a stream that does. The
  buffer then grows until no more can be allocated.
* The array of stb for code lengths has room for every header that announces up to 318 of them, while a
  header may announce 320 (`HeaderExamples.RoomForLengths`, with the headers of `HeaderExamples.LongHeader`).
* When the output is full and bytes are still in the window, `inflate_codes` reports the end of a block that
  the fast loop has come to, in mode WASH; when single steps have come to it, it does not (the contract of
  `InflateCodes.Inflate.InflateCodes`, which also gives a state in which this happens). No byte is lost, since
  the window keeps them.
* `stbi__process_gif_raster` gives up when a string comes that its full table has no room for, where Appendix F
  of the GIF89a specification goes on with the full table. So it shows what Appendix F does exactly when at most
  4095 - 2^cs strings come between two clear codes (`GifSpec.ShownIff`); otherwise it shows less and reports an
  error, as for the data of `GifSpec.FullTable`. The test `code == avail` comes after the count has grown and is
  never true; the result is right all the same, as the new entry's first byte has just been stored
  (`GifLzw.Gif.Add`).
* In `heap_remove` the test `child == heap->min` is never true: the slot of the last node has been cleared by
  then (`Heap.MinHeap.Unlink`).

## Model

| member | source | states |
|---|---|---|
| Canonical.DecodeIff | DuiLib/Utils/stb_image.c:3470-3515 | the bit-at-a-time decoder gives a symbol after k bits exactly when those bits are its canonical code: no code begins another |
| Canonical.DecodeLow | DuiLib/Utils/stb_image.c:3562-3578 | streams with the same first 15 bits decode to the same symbol, so that looking ahead that far is enough |
| StbHuffman.ZHuffman.Build | DuiLib/Utils/stb_image.c:3470-3515 | fails exactly on over-subscribed lengths; otherwise the fast table, the limits and the symbol arrays stand for the canonical code |
| StbHuffman.ZHuffman.Fill | DuiLib/Utils/stb_image.c:3497-3513 | every symbol gets its slot, and the fast table answers exactly for the indices that begin with a short code |
| StbInflate.ZBuf.FillBits | DuiLib/Utils/stb_image.c:3543-3550 | the buffer holds the next bits of the input and nothing above them; the position does not move |
| StbInflate.ZBuf.Receive | DuiLib/Utils/stb_image.c:3552-3560 | gives the next n bits and takes just these |
| StbInflate.ZBuf.DecodeSlowPath | DuiLib/Utils/stb_image.c:3562-3578 | for a code longer than nine bits the limits find the symbol of the bit-at-a-time decoder, -1 when there is none; the stored length is the one found |
| StbInflate.ZBuf.HuffmanDecode | DuiLib/Utils/stb_image.c:3580-3592 | same symbol and same number of bits as the bit-at-a-time decoder on every stream, -1 exactly when it finds no code |
| StbInflate.ZBuf.Expand | DuiLib/Utils/stb_image.c:3594-3610 | doubles the limit until the room asked for is there, keeps all output, and fails exactly when the buffer may not grow or the doubled limit is more than can be allocated |
| StbInflate.GrownTwice | DuiLib/Utils/stb_image.c:3599-3604 | growing by and by makes the same buffer as growing at once, so that whether output fits depends on its size alone |
| StbInflate.ZBuf.CopyMatch | DuiLib/Utils/stb_image.c:3657-3663 | a copy, also one that overlaps itself and the run of one byte, appends what LZ77 says |
| StbInflate.ZBuf.Token | DuiLib/Utils/stb_image.c:3630-3664 | one round: takes the next token of the block and applies it, ends at the end of the block, and fails exactly when the block cannot be decoded into the room there is |
| StbInflate.ZBuf.ParseHuffmanBlock | DuiLib/Utils/stb_image.c:3626-3666 | succeeds exactly when the block decodes, all distances are within the output and the output fits; then output and bit position are those of the specification; a block without an end fails for want of room |
| StbInflate.ZBuf.ReceiveLengths | DuiLib/Utils/stb_image.c:3687-3710 | reads the code lengths with their repetitions into an array of 455, all writes within it |
| HeaderExamples.RoomForLengths | DuiLib/Utils/stb_image.c:3672-3710 | this array is large enough for every header that announces a given number of lengths if and only if the number is at most 318, while a header may announce 320 |
| HeaderExamples.LongHeader | DuiLib/Utils/stb_image.c:3668-3710 | headers that announce 319 and 320 lengths and give more than 455 |
| StbInflate.ZBuf.ComputeHuffmanCodes | DuiLib/Utils/stb_image.c:3668-3712 | reads a dynamic header as section 3.2.7 of RFC 1951 does, and succeeds exactly when that gives two codes, with the tables of both built |
| StbInflate.ZBuf.DrainBits | DuiLib/Utils/stb_image.c:3720-3728 | at most three prefetched bytes are in the buffer when a stored block begins, and they are its next bytes |
| StbInflate.ZBuf.ParseUncompressedBlock | DuiLib/Utils/stb_image.c:3714-3741 | succeeds exactly when the lengths match, the data are there and they fit; appends just the data |
| StbInflate.ZBuf.ParseZlibHeader | DuiLib/Utils/stb_image.c:3743-3754 | accepts exactly the headers with a valid check, no preset dictionary and the deflate method |
| StbInflate.ZBuf.ParseZlib | DuiLib/Utils/stb_image.c:3769-3796 | for every input and buffer: ends; succeeds exactly when the header is valid, the specification decodes the stream and the output fits, and then has its output and its final bit position |
| Stream.BlockAdvances | DuiLib/Utils/stb_image.c:3776-3795 | a block that decodes begins within the input and takes at least three bits, which bounds the number of blocks by the input |
| Stream.NothingBehind | DuiLib/Utils/stb_image.c:3543-3550 | the zeros behind the end of the input are never a block |
| Stream.FixedCodes | DuiLib/Utils/stb_image.c:3757-3767 | both fixed codes are valid, and their Kraft sums are exactly one |
| Stream.FixedLitTable | DuiLib/Utils/stb_image.c:3757-3764 | the fixed code is the table of section 3.2.6 of RFC 1951, each symbol with its bits, and is read where the stream goes on with these |
| Stream.FixedDistTable | DuiLib/Utils/stb_image.c:3766 | the fixed code of a distance symbol is its number in five bits |
| Stream.OrderIs | DuiLib/Utils/stb_image.c:3670 | the sizes of the code length code come in the order of section 3.2.7 of RFC 1951: the repetitions, zero, then outward from eight |
| Stream.RunRanges | DuiLib/Utils/stb_image.c:3691-3705 | symbols 16, 17 and 18 repeat the length before any number of times from 3 to 6, and zero from 3 to 10 and from 11 to 138 times, and no other number |
| Stream.ZlibFields | DuiLib/Utils/stb_image.c:3743-3754 | a header by its fields: method 8, no dictionary, and check bits that make it a multiple of 31 |
| KnownAnswers.FixedBlock | DuiLib/Utils/stb_image.c:3769-3796 | the bytes 73 04 00 are the string A |
| KnownAnswers.FixedCopy | DuiLib/Utils/stb_image.c:3769-3796 | the bytes 4b 4c 4a 4e 84 21 00, with a copy of eight bytes from three back, are abcabcabcabc |
| KnownAnswers.StoredBlock | DuiLib/Utils/stb_image.c:3769-3796 | the bytes 01 01 00 fe ff 41 are the string A |
| KnownAnswers.DynamicBlock | DuiLib/Utils/stb_image.c:3769-3796 | a block with codes of its own, whose lengths are written with all three repetitions, is two zero bytes |
| Deflate.EndlessIff | DuiLib/Utils/stb_image.c:3630-3664 | decoding a block goes on for ever exactly when its tokens come to where only zeros are left, and zeros begin with a literal or a copy |
| Deflate.EndlessReads | DuiLib/Utils/stb_image.c:3630-3664 | such a block has any number of tokens |
| Deflate.EndingReads | DuiLib/Utils/stb_image.c:3630-3664 | and any other block has no tokens but its own |
| HeaderExamples.EndlessInput | DuiLib/Utils/stb_image.c:3630-3664 | a whole stream, a dynamic header with nothing behind it, that has no end |
| Deflate.RoundTrip | DuiLib/Utils/stb_image.c:3626-3666 | decoding an encoded block gives its tokens and exactly its bits, for any codes that have the symbols |
| Deflate.PutDecodedBlock | DuiLib/Utils/stb_image.c:3626-3666 | what decodes is an encoding: the bits of every block that decodes are those written for symbols with these meanings |
| Deflate.CopyPeriod | DuiLib/Utils/XUnzip.cpp:1324-1337 | byte k of a copy is the byte at k modulo the distance of the bytes copied from: what an overlapping copy means |
| Deflate.CopyRun | DuiLib/Utils/stb_image.c:3658-3660 | a copy from distance one is a run of the last byte |
| Encode.TokensForm | DuiLib/Utils/stb_image.c:3612-3624 | every list of literals and copies of length 3 to 258 and distance 1 to 32768 has length and distance codes with these meanings |
| Headers.GetHeader | DuiLib/Utils/stb_image.c:3668-3712 | a dynamic header that has been written, with any code length code and any repetitions, is read as the lengths written |
| Headers.SomePlan | DuiLib/Utils/stb_image.c:3668-3712 | every pair of codes with 257 to 288 and 1 to 32 lengths can be announced by a header |
| Encode.StreamRoundTrip | DuiLib/Utils/stb_image.c:3769-3796 | a stream of stored blocks and of blocks with fixed or dynamic codes, in any order and at any bit position, decodes to the bytes encoded and ends at its last bit |
| RoundTrip.StreamBound | DuiLib/Utils/stb_image.c:3769-3796 | an encoding is no longer than the sizes of its blocks say |
| RoundTrip.SomeBlocks | DuiLib/Utils/stb_image.c:3626-3741 | every string, cut into stored bytes and into literals and copies in any valid way, copies reaching into earlier pieces too, is the output of encodable blocks |
| RoundTrip.SomeBytes | DuiLib/Utils/stb_image.c:3743-3796 | all encodable blocks can be written, behind a zlib header or without one, in just as many bytes as their bits need |
| RoundTrip.EndToEnd | DuiLib/Utils/stb_image.c:3743-3796 | every such string has an encoding, with fewer than eight bits to spare, that decodes to it |
| RoundTrip.Decode | DuiLib/Utils/stb_image.c:3798-3806 | stb's decoder, given encoded blocks with or without a header and any buffer, succeeds exactly when the string fits, and then gives back just the string |
| Huft.Build | DuiLib/Utils/XUnzip.cpp:1814-2011 | Z_DATA_ERROR exactly when the Kraft sum exceeds one; without codes no table; the entries taken are those of tables that codes enter, none wider than needed or made twice, and Z_MEM_ERROR comes only when one more such table does not fit, never for short codes; otherwise Z_BUF_ERROR exactly when the sum is below one and the longest code exceeds one bit; the tables are complete and consistent, entries below are untouched |
| HuftSpace.NewTable | DuiLib/Utils/XUnzip.cpp:1929-1974 | no table is made twice: the one that a code opens is entered by bits that enter no other |
| HuftSpace.EntriesBound | DuiLib/Utils/XUnzip.cpp:1952-1956 | so the tables take no more entries than the levels have patterns |
| HuftEnough.EnoughEntries | DuiLib/Utils/XUnzip.cpp:1929-1974 | the tables of a complete code, on three levels at most, take no more entries than the first table, and on each further level the number of codes and twice the widest table |
| HuftEnough.SpaceEnough | DuiLib/Utils/XUnzip.cpp:1952-1956 | space does not run out before that many entries have been taken |
| Huft.BuildTables | DuiLib/Utils/XUnzip.cpp:1918-2007 | the backwards increment runs through the canonical codes, the stack of tables stays consistent, and every entry of every table is that of the code leading to it |
| Huft.ChooseBits | DuiLib/Utils/XUnzip.cpp:1935-1950 | a new table narrower than the full width is used up by the codes from here on; one starts wider exactly when the next code does not end within the full width |
| HuftSpec.WalkTables | DuiLib/Utils/XUnzip.cpp:1246-1273 | from any table of consistent tables, a walk ends at the symbol of the bits that led there and follow |
| HuftTheorem.SparseAgrees | DuiLib/Utils/XUnzip.cpp:1888-2007 | for sparse lengths, on every stream the table walk gives the symbol and length of the bit-at-a-time decoder, or an invalid entry when there is no code; no lookup is wider than the first |
| HuftTheorem.DenseMisreads | DuiLib/Utils/XUnzip.cpp:1937-1950 | for lengths that are not sparse, there is a stream that the tables read wrongly for some contents of the memory |
| HuftTheorem.ExactlySparse | DuiLib/Utils/XUnzip.cpp:1888-2007 | in memory that holds literals of one bit, the tables agree with the bit-at-a-time decoder on all streams if and only if the lengths are sparse |
| HuftTheorem.UnevenIsDense | DuiLib/Utils/XUnzip.cpp:1935-1950 | the complete code with lengths 1, 3, 3, 3, 3 is not sparse for tables of one bit |
| HuftExample.Misread | DuiLib/Utils/XUnzip.cpp:1814-2011 | for these lengths the builder returns Z_OK, and its tables read the bits 1, 0, 1 as two bits for symbol 0, where the code says symbol 2 |
| HuftBuild.LeaveTable | DuiLib/Utils/XUnzip.cpp:1993-2004 | when the increment changes the pattern of a table, the new code has zeros from there on, and every code that begins with the old pattern has been passed |
| HuftBuild.CarryLeavesZeros | DuiLib/Utils/XUnzip.cpp:1993-1996 | counting up changes the high bits only when the low bits become zero |
| Trees.AcceptableSparse | DuiLib/Utils/XUnzip.cpp:2028-2077 | accepted codes are sparse in the widths used: nine or seven bits, and six bits for up to 63 symbols |
| Trees.ShortestIsShort | DuiLib/Utils/XUnzip.cpp:2062-2077 | the shortest code of an accepted code of fewer than 2^n symbols has at most n bits, so that no first table is wider than asked for |
| Trees.TreesBits | DuiLib/Utils/XUnzip.cpp:2015-2039 | Z_OK exactly for complete codes or a single one-bit code, otherwise Z_DATA_ERROR; space never runs out; the tables decode the lengths on every stream |
| Trees.RoomForAccepted | DuiLib/Utils/XUnzip.cpp:744-750 | there are at most 928 entries for an accepted code of up to 288 lengths and 268 for one of up to 30 |
| Trees.TreesDynamic | DuiLib/Utils/XUnzip.cpp:2042-2101 | Z_OK exactly when both codes are acceptable, or there is neither a distance nor a length code: the space for the tables is always enough then; otherwise Z_DATA_ERROR, or Z_MEM_ERROR when tables of an incomplete code have taken the space, which takes codes longer than nine bits or distance codes longer than eight; both tables decode their lengths on every stream, and are at most 9 and 6 bits wide |
| InflateCodes.Inflate.NextByte | DuiLib/Utils/XUnzip.cpp:893-895 | a byte or-ed in above the valid bits, also onto the bits of a byte once given back, leaves the buffer the next bits of the stream |
| InflateCodes.Inflate.NeedBits | DuiLib/Utils/XUnzip.cpp:893-895 | the position does not move; false exactly when input runs out first; the code becomes Z_OK exactly when a byte is taken |
| InflateCodes.Inflate.OutByte | DuiLib/Utils/XUnzip.cpp:903 | the byte is added to the history, and written over the oldest byte of the window |
| InflateCodes.Inflate.Wrap | DuiLib/Utils/XUnzip.cpp:900 | wrapping the writer keeps the window, the reader and the room consistent |
| InflateCodes.Inflate.Flush | DuiLib/Utils/XUnzip.cpp:1072-1135 | what is delivered is the next part of the history, as much as there is room for; all is delivered unless room runs out |
| InflateCodes.Inflate.NeedOut | DuiLib/Utils/XUnzip.cpp:902 | true exactly when there is room for a byte; the writer never passes the reader; false only when output is full |
| InflateCodes.Inflate.FastCopy | DuiLib/Utils/XUnzip.cpp:2203-2229 | the copy of the fast loop, also around the end of the window, appends what LZ77 says |
| InflateCodes.Inflate.FastToken | DuiLib/Utils/XUnzip.cpp:2166-2271 | one round of the fast loop reads exactly the next token of the block, or its end, or an error, as the specification does |
| InflateCodes.Inflate.InflateFast | DuiLib/Utils/XUnzip.cpp:2137-2279 | entered with 258 bytes of room and ten bytes of input, it keeps every invariant of the single steps and reads tokens while there is as much, to the end of the block or to an error, and gives back the bytes not needed |
| InflateCodes.Inflate.Step | DuiLib/Utils/XUnzip.cpp:1228-1362 | one mode of the state machine keeps the meaning of bit buffer, window and tokens, loses no output, and makes progress or stops for want of input or output |
| InflateCodes.Inflate.InflateCodesNew | DuiLib/Utils/XUnzip.cpp:1188-1207 | a new block begins in a valid state, whatever is still in the window and the bit buffer |
| InflateCodes.Inflate.InflateCodes | DuiLib/Utils/XUnzip.cpp:1210-1365 | stops only at the end, at an error, without input and with too few bits for what is asked, or without room and with output undelivered; reports an error exactly at an error, and when it has to wait Z_OK or, if it has neither taken, written nor delivered a byte, the code it was given; what it delivers is what the room shrinks by; the end is reported with output undelivered exactly when the fast loop has come to it in this call |
| InflateCodes.Inflate.Run | DuiLib/Utils/XUnzip.cpp:1210-1365 | over any number of calls, with any splitting of input and room: when the end is reported, delivered and unread bytes are the expansion of the block's tokens and the last byte taken holds the last bit; and once all input and room enough are given, the end of every block that has one is reported, and every other block that does not go on for ever is reported as bad |
| InflateCodes.Inflate.WaitsFor | DuiLib/Utils/XUnzip.cpp:893-902 | it waits only when input or room is too short for the block |
| InflateCodes.Inflate.Conserved | DuiLib/Utils/XUnzip.cpp:1072-1135 | delivered bytes followed by the unread part of the circular window are the whole history, at every moment |
| InflateCodes.Inflate.OutputIs | DuiLib/Utils/XUnzip.cpp:1324-1342 | between any two steps the history is the expansion of the tokens done, and in the middle of a copy a prefix of the next |
| InflateCodes.Inflate.AtEnd | DuiLib/Utils/XUnzip.cpp:1343-1357 | at the end the tokens are those of the block as the specification decodes it, and the position is behind its last bit |
| InflateCodes.Inflate.AtError | DuiLib/Utils/XUnzip.cpp:1358-1360 | at an error the specification finds no code there either, or a code without a meaning |
| InflateCodes.SourceByte | DuiLib/Utils/XUnzip.cpp:1325-1327 | for every distance up to 32768 the byte so far back is where the source pointer points, on either side of the end of the window |
| InflateCodes.SameAtSameBit | DuiLib/Utils/XUnzip.cpp:2129-2279 | two decoders between tokens at the same bit of a block have the same tokens, output, window and write position |
| FastSlow.SlowToken | DuiLib/Utils/XUnzip.cpp:1246-1342 | with ten bytes of input and 258 of room, single steps read exactly the next token, or the end of the block, or an error, and deliver nothing |
| FastSlow.FastIsSlow | DuiLib/Utils/XUnzip.cpp:2129-2279 | from the same state, the fast loop and single steps come to the same bit with the same tokens, output, window and write position, or both to an error |
| Bits.OrBits | DuiLib/Utils/XUnzip.cpp:2129-2130 | or-ing a byte of the stream onto bits of the stream that are still in the buffer changes none of them |
| CodesSpec.ReadsUnique | DuiLib/Utils/XUnzip.cpp:1228-1342 | the tokens read up to a bit position are determined by it |
| CodesSpec.CopyRange | DuiLib/Utils/XUnzip.cpp:2181-2208 | a copy has a length of 3 to 258 and a distance of 1 to 32768, so that 258 bytes of room are enough and the unrolled two bytes are always there |
| Agreement.SideBySide | DuiLib/Utils/XUnzip.cpp:1210-1365 | stb and XUnzip on the same block: the same output after the same number of bits, however the input and room of XUnzip are split; stb decodes what XUnzip has if it fits; XUnzip does not reject what stb has decoded, and comes to its end once all input and room enough are given |
| Agreement.RunOn | DuiLib/Utils/XUnzip.cpp:1210-1365 | what XUnzip reports is what the specification says of the block: the end with its output and bits, or an error; and it reports one of them once all input and room enough are given |
| RbTree.RbHead.RotateLeft | libuv-dll/include/tree.h:342-360 | relinking with parent pointers yields the rotated tree in its place, nothing else changes |
| RbTree.RbHead.RotateRight | libuv-dll/include/tree.h:362-380 | the mirror image |
| RbTree.RbHead.InsertColor | libuv-dll/include/tree.h:407-449 | from a red-black tree with one red node that may have a red parent to a red-black tree with the same order of nodes |
| RbTree.RbHead.Insert | libuv-dll/include/tree.h:598-626 | keeps search order, parent links and the red-black rules; returns null exactly when the key is new, and then just this node is put in; otherwise, also for a node that is in the tree, nothing changes and the node with the key is returned |
| RbTree.RbHead.RemoveColor | libuv-dll/include/tree.h:451-528 | from a tree with one subtree a black node short to a red-black tree with the same order of nodes; the sibling looked at is never null |
| RbTree.RbHead.Remove | libuv-dll/include/tree.h:530-596 | any node of the tree, with any number of children, is taken out of the order, all else stays in place, and all rules hold again |
| RbTree.RbHead.NFind | libuv-dll/include/tree.h:647-665 | the node with the least key that is not below the one sought, null exactly when all keys are below |
| RbTree.RbHead.Next | libuv-dll/include/tree.h:668-687 | the node that follows in the order, null for the last |
| RbSpec.HeightBound | libuv-dll/include/tree.h:53-61 | 2^height <= (n + 1)^2: the height of a red-black tree of n nodes is at most 2 lg (n + 1) |
| SplayTree.SplayHead.LinkLeft | libuv-dll/include/tree.h:100-104 | the root moves to the left end of the right tree, and its left child becomes the middle |
| SplayTree.SplayHead.Assemble | libuv-dll/include/tree.h:112-117 | the three parts become one tree |
| SplayTree.SplayHead.Splay | libuv-dll/include/tree.h:209-241 | ends, keeps the order of nodes, and brings up the node with the key or one next to where it would be |
| SplayTree.SplayHead.SplayMinMax | libuv-dll/include/tree.h:246-278 | keeps the order and brings up the first or the last node |
| SplayTree.SplayHead.Insert | libuv-dll/include/tree.h:164-186 | returns null exactly when the key is new, and then just this node is put in, at the root; otherwise the tree has the same nodes in the same order |
| SplayTree.SplayHead.Remove | libuv-dll/include/tree.h:188-207 | takes out exactly the node with the key, null exactly when there is none |
| SplaySpec.SplayedFinds | libuv-dll/include/tree.h:209-241 | after a splay for a key that is in the tree, it is at the root |
| SplaySpec.AssembledElems | libuv-dll/include/tree.h:112-117 | putting the parts together keeps the order of nodes |
| Heap.MinHeap.Swap | libuv-dll/src/heap-inl.h:72-103 | relinking exchanges a parent and its child in level order, all parent links right |
| Heap.MinHeap.PathTo | libuv-dll/src/heap-inl.h:119-123 | the path is the bits of the position below its first, lowest bit last |
| Heap.MinHeap.Follow | libuv-dll/src/heap-inl.h:125-134 | the path leads from the top to the slot of the position, and the slot before is that of its parent |
| Heap.MinHeap.Insert | libuv-dll/src/heap-inl.h:106-148 | the tree stays complete and ordered with right parent links, and has just the new node more |
| Heap.MinHeap.Unlink | libuv-dll/src/heap-inl.h:182-193 | without the last node the tree is complete and ordered, and this node is not at the top |
| Heap.MinHeap.Remove | libuv-dll/src/heap-inl.h:150-237 | any member can be taken out: the tree stays complete and ordered, and has just this node less |
| Heap.MinHeap.Dequeue | libuv-dll/src/heap-inl.h:239-241 | takes out a least node, and does nothing to an empty heap |
| Heap.MinHeap.MinIsLeast | libuv-dll/src/heap-inl.h:67-69 | in every valid heap the top is a least node, and null exactly for the empty heap |
| HeapSpec.FirstIsLeast | libuv-dll/src/heap-inl.h:67-69 | parents at most their children makes the first of a level order a least one |
| HeapSpec.SwapUp | libuv-dll/src/heap-inl.h:146-147 | exchanging a node with a greater parent moves the one place that may be out of order up |
| HeapSpec.SwapDown | libuv-dll/src/heap-inl.h:220-229 | exchanging a node with its lesser child moves that place down |
| Queue.Add | libuv-dll/src/queue.h:52-59 | two rings become the ring of one list after the other, also when one is empty |
| Queue.Split | libuv-dll/src/queue.h:61-70 | the ring is cut in two at a member |
| Queue.SplitAdd | libuv-dll/src/queue.h:52-70 | splitting and adding again restores the list |
| Queue.Move | libuv-dll/src/queue.h:72-81 | the whole list changes heads, and the old head is empty |
| Queue.InsertHead | libuv-dll/src/queue.h:83-90 | one element more in front |
| Queue.InsertTail | libuv-dll/src/queue.h:92-99 | one element more at the end |
| Queue.Remove | libuv-dll/src/queue.h:101-106 | the list without this element |
| Queue.IsEmpty | libuv-dll/src/queue.h:39-40 | true exactly for the ring of no elements |
| FsPoll.Handle.Start | libuv-dll/src/fs-poll.c:56-101 | a handle that is active stays as it is; any other gets a new context with a stat request in flight, the interval asked for, at least one, and the time of the start |
| FsPoll.Handle.Stop | libuv-dll/src/fs-poll.c:104-125 | the context loses its handle; its armed timer is closed, a request in flight is left to its callback; its asserts hold |
| FsPoll.Handle.PollCb | libuv-dll/src/fs-poll.c:172-219 | a stopped context tells nothing and closes its timer; any other tells what is due, with the calls of the user taking effect, and then, unless stopped by the callback itself, arms its timer within one interval on a multiple of it |
| FsPoll.Handle.TimerCb | libuv-dll/src/fs-poll.c:159-169 | a timer expires only for the context of the handle; the next request is made, nothing is told |
| FsPoll.Handle.TimerCloseCb | libuv-dll/src/fs-poll.c:222-224 | only a context that has been stopped and has no request is freed |
| FsPoll.Handle.Rearm | libuv-dll/src/fs-poll.c:214-218 | the wait lies in 1 to interval, and ends a multiple of the interval after the start |
| FsPoll.Handle.Run | libuv-dll/src/fs-poll.c:50-224 | whatever the loop and the user do, in any order and also from the callback, all invariants hold, a stopped context tells nothing more, and a freed one is never touched |
| FsPoll.Handle.AtRest | libuv-dll/src/fs-poll.c:56-224 | each context has exactly one of: a request in flight, an armed timer, a closing or closed one; and the callbacks made are those of its results |
| FsPoll.OneMore | libuv-dll/src/fs-poll.c:185-206 | busy_polling and statbuf decide just what the results so far decide: the first success is silent, an error is told when it differs from the outcome before, a success after an error always, another only when the status differs |
| FsPoll.ReportsTell | libuv-dll/src/fs-poll.c:185-206 | each call of the callback is about one result, in their order: its code, zero for a success, the status of the last success before it, and its own |
| FsPoll.StatEqIgnores | libuv-dll/src/fs-poll.c:227-242 | two statuses are equal exactly when they agree but for the link count, the special device, the block size, the blocks and the access time |
| GifLzw.Gif.OutCode | DuiLib/Utils/stb_image.c:5522-5526 | the recursion over prefixes ends, as each is smaller, and emits the string of the code |
| GifLzw.Gif.Add | DuiLib/Utils/stb_image.c:5609-5616 | the new entry stands for the string before and the first byte of this one, also when this one is the new entry |
| GifLzw.Gif.DecodeRaster | DuiLib/Utils/stb_image.c:5556-5633 | for code sizes 2 to 8 and every input: the bytes emitted and the result are those of LZW decoding that gives up on a full table, and those of Appendix F if and only if few enough codes come between clear codes |
| GifSpec.ShownIff | DuiLib/Utils/stb_image.c:5608-5614 | giving up shows what Appendix F does exactly when at most 4095 - 2^cs strings come between two clear codes; otherwise it shows fewer bytes and ends in an error |
| GifSpec.FullTable | DuiLib/Utils/stb_image.c:5608-5614 | data that fill the table, which Appendix F shows to their end |
| GifEncode.ImageBack | DuiLib/Utils/stb_image.c:5556-5633 | an image of indices encoded by LZW, with the table cleared after any number of strings or never, is decoded to itself by Appendix F, and by a decoder that gives up if at most 4095 - 2^cs strings come between clear codes |
| GifRoundTrip.ShowRaster | DuiLib/Utils/stb_image.c:5556-5633 | the decoder, given the code size and the sub-blocks of an encoded image, shows just its indices, without an error, and stands behind them |
| GifLzw.Gif.ProcessRaster | DuiLib/Utils/stb_image.c:5556-5633 | the same with the code size read; sizes above 12 show nothing; after an image the input stands behind its data |
| GifSpec.StepValid | DuiLib/Utils/stb_image.c:5608-5626 | every reachable dictionary has strings that are not empty, fits its code width and never exceeds 4096 |
| Adler.Compute | DuiLib/Utils/XUnzip.cpp:2389-2413 | for every buffer the result is that of reducing after each byte |
| Adler.ChecksumIs | DuiLib/Utils/XUnzip.cpp:2389-2413 | the checksum of a buffer in closed form: one more than the sum of the bytes, and the sum of all such sums, modulo 65521 |
| Adler.DeferredMod | DuiLib/Utils/XUnzip.cpp:2396-2410 | reducing once after any number of bytes gives the sums of reducing after each |
| Adler.NoOverflow | DuiLib/Utils/XUnzip.cpp:2378-2380 | up to 5552 bytes neither sum exceeds 32 bits |
| Adler.Continues | DuiLib/Utils/XUnzip.cpp:2389-2413 | the checksum of a concatenation is the checksum continued |
| PngSpec.ReconFilter | DuiLib/Utils/stb_image.c:3979-4058 | reconstructing a row filtered with any of the five filters gives the row |
| PngSpec.ImageRoundTrip | DuiLib/Utils/stb_image.c:3979-4058 | an image filtered with any choice of filters by row comes back |
| PngSpec.PaethNearest | DuiLib/Utils/stb_image.c:3945-3954 | the predictor is one of its three neighbours, none is nearer to a + b - c, and of those equally near the one to the left comes first, then the one above |
| Png.Formulas | DuiLib/Utils/stb_image.c:3936-3942 | the filters for the first row, and those for the first pixel, are the general ones with zeros for what is missing |
| Png.PngImage.ReconRow | DuiLib/Utils/stb_image.c:3979-4058 | a row is reconstructed in place below the one before, with or without an added byte, and what is above does not change |
| Png.PngImage.CreateRaw | DuiLib/Utils/stb_image.c:3959-4058 | succeeds exactly when the data have the size needed and only filters 0 to 4; then the output is the image of the specification, with 255 behind each pixel if a byte is added |
| Adam7.OnePass | DuiLib/Utils/stb_image.c:4144-4151 | every pixel of any image is in exactly one of the seven passes |
| Adam7.PassPattern | DuiLib/Utils/stb_image.c:4144-4151 | the passes are those of the pattern of eight by eight pixels in section 2.6 of RFC 2083 |
| Adam7.CountIs | DuiLib/Utils/stb_image.c:4150-4154 | the size of a pass counts exactly its columns or rows within the image |
| Interlace.CreateInterlaced | DuiLib/Utils/stb_image.c:4137-4174 | succeeds exactly when every pass that has pixels can be reconstructed from the next part of the data, and then each place of the image has the pixel of its pass |
| Interlace.InterlaceRoundTrip | DuiLib/Utils/stb_image.c:4137-4174 | an image of any size, interlaced and filtered in any way, is read back pixel by pixel, with the byte that may be added |

## Left out

- StbInflate.ZBuf.ParseZlib: reserved symbols, a repeat code without a length before it and more than 455 code lengths are excluded by a precondition where decoding comes to them, as the source then reads a table entry or memory that means nothing; length symbols 286 and 287, which stb reads as copies of no bytes and XUnzip rejects, count as reserved.
- StbInflate.ZBuf.Expand: the largest buffer that can be allocated is a parameter; does not model the wrap-around of a limit beyond 2^31, which takes a parameter of more than 2^30.
- StbInflate.ZBuf.ReceiveLengths: has no result for the headers that give more than 455 lengths; HeaderExamples.RoomForLengths says when there are such.
- InflateCodes.Inflate.Run: distances beyond the output so far are excluded by a precondition, since the source does not check them; so are reserved codes, which the specification calls unspecified.
- InflateCodes.Inflate.InflateCodes: the input of all calls is one byte string, so that a byte given back is there again; the local copies of the fields (LOAD and UPDATE) are the fields themselves.
- InflateCodes.Inflate.Flush: the checksum taken of the bytes delivered, and the total counters.
- HuftTheorem.DenseMisreads: shows one content of the memory with one stream that goes wrong; other contents may happen to be right.
- Huft.Build: the tables of counts, offsets and the stack are sequences, and only the space for entries and the values are arrays; table pointers are indices.
- GifLzw.Gif.DecodeRaster: code sizes 0, 1 and 9 to 12 are excluded; data that do not begin with a clear code count as corrupt, as the source has it; a code is drawn as its byte, without palette, transparency, interlacing and clipping.
- Png.PngImage.CreateRaw: depths of eight bits and images with a pixel in each row only; products of sizes do not overflow.
- Interlace.CreateInterlaced: a pixel of the final image is one element, not its bytes one after the other.
- Heap.MinHeap.Insert: the comparison is that of integer keys, and the number of nodes does not overflow.
- RbTree.RbHead.Insert: the comparison is that of integer keys, and the augmentation macro does nothing, as it is defined.
- FsPoll.Handle.Start: the path that fails to make the first request, and the path of the file.
- Adler.Compute: the null buffer, for which the source returns 1.
- Block headers and the mode machine of `inflate_blocks` and `inflate`, and the static tables of `inflate_trees_fixed`.
- `stbi__bitreverse16` swaps bits by masks; the model has the reversal itself.
- `ucrc32`, `RB_FIND`, `RB_PREV`, `RB_MINMAX`, `SPLAY_FIND` and `SPLAY_NEXT`: shorter than what is here.
- PNG palette, transparency and iPhone images; JPEG, BMP, TGA, PSD, PIC, PNM and HDR.
- The user interface, ZIP archives, files, sockets, allocation and the rest of libuv.
