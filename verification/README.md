# Proved models of three programs

This project models three parts of the repository and proves what each is for.

* **LodePNG** (`c/img2hblocks/lodepng.c`): the Deflate compressor and decompressor (RFC 1951), the zlib
  container with Adler-32 (RFC 1950), the PNG scanline pipeline (filters, padding, Adam7 interlacing;
  PNG specification, second edition, sections 8.2 and 9), and colours: statistics, the automatic choice of a
  smaller colour mode, conversion there and back, for all modes of up to eight bits per channel.
  `Codec.EncodeThenDecode` puts all of it together: every image that is encoded is decoded with the same colours,
  RGBA images with the same bytes, except for one family of images whose exact description is part of the theorem.
* **The decimal bignum library** (`c/bignum/bignum.c`): signed fixed-point addition, subtraction, Karatsuba
  multiplication and binary splitting, on operands that are reshaped in place.
* **The shortest-remaining-processing-time simulation** (`python/srpt.py`).

`dafny verify dfyconfig.toml` checks everything.

## How the Deflate model is layered

1. `Bits`, `BitIO`: bit strings; the bit writer and the buffered 32-bit bit reader against a plain bit sequence.
2. `Huffman`, `HuffmanTable`, `HuffmanTrees`: canonical codes by their definition (a length list gives every symbol
   an interval; the Kraft sum decides completeness), the two-level decode table, tree building.
3. `PackageMerge`, `BpmPool`, `LeafSort`, `CodeLengths`: length-limited code lengths; the algorithm on abstract
   chains, and the node pool with garbage collection that holds them.
4. `Tokens`, `Lz77`: tokens, the hash chains in a circular window, the matcher.
5. `Format`, `Inflate`: the format read by definition, one symbol at a time, and the decoder's methods against it.
6. `Stream`, `LengthRuns`, `Deflate`: well-formed streams as bit strings, the theorem that reading one gives what it
   means, and the encoder's methods, which write such streams.
7. `Adler`, `Zlib`: checksum and container.
8. `FormatRules`: the tables, codes and headers of the format in the numbers of RFC 1951, stated without the definitions the other
   modules use; `SampleStreams`: two streams written byte by byte by the standard, one of each kind of code, and what they inflate to.

The scanline pipeline is `Filter` (one row), `ImageRows` (one image), `Buffers` (bits of a buffer, padding), `Adam7` and
`Interlace` (the seven passes) and `Scanlines` (both directions). Colours are `ColorTrees` (the tree that finds a colour's
index), `Colors` (what the bits of a pixel mean in each mode, reading and storing one pixel), `ColorConvert` (whole images),
`ColorStatistics` (what a loop over the pixels learns of them) and `ColorChoice` (the mode chosen from that). `Codec` joins
colours, scanlines and zlib. The bignum model is `Decimal`, `Bignums` and `BinarySplitting`; the scheduler is `Srpt`.
`PngRules` has scanlines and interlacing in the numbers of the PNG specification. `Wrappers` has the option type.

An output vector (`ucvector`) is an object that holds a sequence; digits of a bignum are a sequence field; everything
else the source keeps in fixed buffers (tables, chains, pools, scanlines) is an array updated in place. Integers are
unbounded except where the source's width matters: the bit buffer, Adler-32, byte arithmetic in filters, `int8_t` digits.

## What the code does not do

These are proved, not assumed.

* Storing (type 0) an empty input emits no block, and the decoder rejects the result: `Deflate.DeflateV`,
  `Deflate.NothingInflates` and `Zlib.ZlibCompress`. Every other input comes back, for all accepted settings.
* Type 1 divides by the size of the input; `Deflate.DeflateV` and `Zlib.ZlibCompress` require that not to be zero.
* A stored block of size zero whose length bytes end the data is rejected by the bound `bytepos + 4 >= size`. `Format.BlocksByRule` is
  the format as section 3.2.4 of RFC 1951 has it; `Format.RuleDiffers` shows that the decoder differs from it exactly for streams that
  end in such a block, and `Deflate.EmptyStoredRejected` gives the shortest one.
* The automatic choice of a mode can lose greys. The count of bits stops at the bits per pixel of the input, although a palette
  with few entries can hold greys that need eight bits; when grey samples are chosen then, they are stored with too few bits.
  `ColorChoice.AutoConvert` has the exact condition `Loses`, `PaletteLoses` an input (a palette of the greys 100 and 200), and
  `CountedRight` shows that only palettes with fewer than eight bits can be affected.
* `subBignum(a, a)` with one object passed twice returns minus two times its value (`Bignums.SubBignum`).
* `mulBignum` loses the sign of the product exactly when both operands have a single digit (`Bignums.MulBignum`). Hence
  `calculateLoop` does not always compute the product of its factors: `BinarySplitting.LoopExact` has the exact condition on the
  inputs, `ZeroLoses` and `LoopLoses` the inputs 0 and 1/4, 5/2, 2. `calculateT` fails for 1/4, 5/2, 1, 1 (`TLoses`), although two
  lost signs can cancel, as for -13/4, -3/2, 1/8 (`LossesCancel`). Inputs of at least one half lose nothing (`FineLoop`, `FineT`).
* `compareBignum` orders zero with a minus sign before zero with a plus sign (`Bignums.Compare`).
* An idle tick of the scheduler takes a unit off the last job although it is finished (`Srpt.Simulation.Tick`), so a job counts as
  unfinished only while its remaining time is positive.
* The comment on `Adam7_deinterlace` asks for an output buffer of zeros; the code sets or clears every bit of the image, and
  `Interlace.Adam7Deinterlace` needs no such thing.

## Model

| member | source | states |
|---|---|---|
| BitIO.BitWriter.WriteBit | c/img2hblocks/lodepng.c:425-434 | appends one bit to the bits written so far; the bytes hold exactly those bits, the last one zero padded |
| BitIO.BitWriter.WriteBits | c/img2hblocks/lodepng.c:436-447 | appends the low bits of a value, least significant first |
| BitIO.BitWriter.WriteBitsReversed | c/img2hblocks/lodepng.c:449-456 | appends them most significant first, the order of Huffman codes |
| BitIO.BitReader.EnsureBits9 | c/img2hblocks/lodepng.c:492-505 | afterwards at least 9 bits of the buffer are exactly the next bits of the stream, zeros past its end |
| BitIO.BitReader.EnsureBits17 | c/img2hblocks/lodepng.c:507-522 | the same for 17 bits |
| BitIO.BitReader.EnsureBits25 | c/img2hblocks/lodepng.c:524-540 | the same for 25 bits |
| BitIO.BitReader.EnsureBits32 | c/img2hblocks/lodepng.c:542-560 | the same for all 32 bits, the fifth byte losing what falls off the top |
| BitIO.BitReader.PeekBits | c/img2hblocks/lodepng.c:562-566 | the next bits of the stream as a number, without moving |
| BitIO.BitReader.AdvanceBits | c/img2hblocks/lodepng.c:568-572 | moves on and keeps the rest of the buffer exact |
| BitIO.BitReader.ReadBits | c/img2hblocks/lodepng.c:574-579 | both together |
| Huffman.PrefixFree | c/img2hblocks/lodepng.c:786-820 | with a Kraft sum of at most one no two codes match the same bits |
| Huffman.CompleteCover | c/img2hblocks/lodepng.c:786-820 | with Kraft's equality every bit string begins with a code |
| Huffman.Incomplete | c/img2hblocks/lodepng.c:754-776 | below Kraft's equality some bit string begins with no code |
| Huffman.Oversubscribed | c/img2hblocks/lodepng.c:719-731 | above it two symbols share the all-zero code, one of them short enough for the first table to notice |
| HuffmanTable.UnusedMeansIncomplete | c/img2hblocks/lodepng.c:754-776 | an unfilled table entry means the code set is not complete |
| HuffmanTable.FullMeansComplete | c/img2hblocks/lodepng.c:754-776 | a table without gaps means Kraft's sum is exactly one |
| HuffmanTable.FullTableOk | c/img2hblocks/lodepng.c:697-752 | a full table answers every 15-bit window by the definition of decoding |
| HuffmanTable.PatchedTableOk | c/img2hblocks/lodepng.c:754-768 | so does the patched table of a tree with fewer than two symbols |
| HuffmanTable.ShortCollision | c/img2hblocks/lodepng.c:711-724 | a short code that finds its entry taken proves the length list unacceptable |
| HuffmanTable.FilledLong | c/img2hblocks/lodepng.c:725-750 | writing a long code keeps the table's invariant |
| HuffmanTrees.ReverseBits | c/img2hblocks/lodepng.c:581-587 | the low bits in reverse order |
| HuffmanTrees.CanonicalCode | c/img2hblocks/lodepng.c:798-814 | the counting algorithm gives every symbol the code its interval defines |
| HuffmanTrees.HuffmanTree.GenerateCodes | c/img2hblocks/lodepng.c:786-814 | the codes of all present symbols are the canonical ones |
| HuffmanTrees.HuffmanTree.MakeTable | c/img2hblocks/lodepng.c:664-779 | error 0 if and only if the length list has at most one symbol or Kraft's sum is exactly one; then the table decodes |
| HuffmanTrees.HuffmanTree.MakeFromLengths | c/img2hblocks/lodepng.c:822-840 | the same for a tree built from a length list of at most 288 symbols |
| HuffmanTrees.HuffmanTree.MakeFromFrequencies | c/img2hblocks/lodepng.c:1021-1035 | trailing unused symbols are trimmed; the tree built is never rejected, and every used symbol has a code |
| HuffmanTrees.HuffmanTree.DecodeSymbol | c/img2hblocks/lodepng.c:1073-1087 | the symbol whose code the next bits begin with, and the length of that code consumed |
| PackageMerge.StepKeepsInv | c/img2hblocks/lodepng.c:917-941 | a boundary step keeps the invariant of the lists, exhausted lists included |
| PackageMerge.FinalChain | c/img2hblocks/lodepng.c:917-941 | after the whole run the top chain stands for 2n - 2 genuine items |
| PackageMerge.RunKraft | c/img2hblocks/lodepng.c:995-1016 | the lengths read off it satisfy Kraft's equality and none exceeds the limit |
| LeafSort.SortOfSorts | c/img2hblocks/lodepng.c:894-915 | bottom-up merging sorts and permutes |
| LeafSort.SortLeaves | c/img2hblocks/lodepng.c:894-915 | the leaves are replaced by their sorted form |
| BpmPool.BpmLists.Create | c/img2hblocks/lodepng.c:865-892 | the node handed out is not reachable from any chain, and every chain still reads the same |
| BpmPool.BpmLists.CollectGarbage | c/img2hblocks/lodepng.c:870-885 | after marking at least one node is free, and no reachable node is on the free list |
| BpmPool.BpmLists.Mark | c/img2hblocks/lodepng.c:874-878 | exactly the reachable nodes are marked |
| CodeLengths.BoundaryPM | c/img2hblocks/lodepng.c:917-941 | one boundary step on the pool computes the abstract step |
| CodeLengths.PlacedKraft | c/img2hblocks/lodepng.c:1008-1011 | giving the leaves their chain lengths yields a length list with the Kraft sum of the chain |
| CodeLengths.HuffmanCodeLengths | c/img2hblocks/lodepng.c:943-1019 | error 80 exactly for no symbols or more than the limit can hold; else complete lengths within the limit, positive for every symbol in use (for a single code, two lengths of one bit) |
| Tokens.CopyOfMatch | c/img2hblocks/lodepng.c:1308-1321 | copying with overlap reproduces data that repeats what stands before it |
| Tokens.LengthFits | c/img2hblocks/lodepng.c:602-610 | every match length fits the extra bits of its code |
| Tokens.DistanceFits | c/img2hblocks/lodepng.c:612-621 | every distance fits the extra bits of its code |
| Tokens.SearchCodeIndex | c/img2hblocks/lodepng.c:1445-1459 | binary search finds the last base not above the value, or index 0 when all are above it |
| Tokens.AddLengthDistance | c/img2hblocks/lodepng.c:1461-1482 | appends the four numbers of the pair |
| Lz77.CircularDistance | c/img2hblocks/lodepng.c:1648-1652 | the offset computed from two window slots is the distance between the positions they stand for |
| Lz77.ZerosStep | c/img2hblocks/lodepng.c:1569-1577 | updating one slot keeps every stored zero run true of its position |
| Lz77.Hash.UpdateChain | c/img2hblocks/lodepng.c:1568-1577 | the exact new entries of all six tables, nothing else changed; they keep naming real earlier positions |
| Lz77.CountZeros | c/img2hblocks/lodepng.c:1558-1566 | the number of zero bytes ahead, at most 258 |
| Lz77.Search | c/img2hblocks/lodepng.c:1640-1690 | the match found is a real match inside the window, the zero-run skip included |
| Lz77.MatchLength | c/img2hblocks/lodepng.c:1653-1672 | all bytes counted, skipped ones included, are equal |
| Lz77.MaskIsSlot | c/img2hblocks/lodepng.c:1611-1623 | the mask `windowsize - 1` gives the position modulo the window size, because error 90 has ruled out every size that is not a power of two |
| Lz77.EncodeLZ77 | c/img2hblocks/lodepng.c:1588-1735 | for every window that is a power of two up to 32768 (else error 60 or 90) the tokens expand back to the input, lazy or not |
| Inflate.CopyBack | c/img2hblocks/lodepng.c:1308-1321 | the two-part copy equals copying one byte at a time |
| Inflate.CopyBytesUnique | c/img2hblocks/lodepng.c:1308-1321 | a copy is determined by repeating what stands the distance before |
| Inflate.InflateCopy | c/img2hblocks/lodepng.c:1274-1321 | one length/distance pair by the definition; error 16, 18 or 52 exactly as the symbol and the distance demand |
| Inflate.RestStep | c/img2hblocks/lodepng.c:1256-1336 | the bound and size checks may be put off by a symbol: once they fail they fail for good |
| Inflate.InflateSymbols | c/img2hblocks/lodepng.c:1256-1336 | the loop with its two-literal shortcut reads what the definition reads |
| Inflate.ReadCodeLengths | c/img2hblocks/lodepng.c:1150-1219 | reads the code lengths into both alphabets, fails exactly when the definition does |
| Inflate.ReadClLengths | c/img2hblocks/lodepng.c:1133-1145 | the code length code lengths, each at the place section 3.2.7 of RFC 1951 gives its symbol by a rule: 16 to 18 first, then 0, then outward from 8 |
| Inflate.ZeroBehind | c/img2hblocks/lodepng.c:1137-1139 | code length code lengths that are not stored are zero |
| Inflate.GetTreeInflateDynamic | c/img2hblocks/lodepng.c:1104-1236 | succeeds exactly on the trees the definition accepts, and builds them |
| Inflate.GenerateFixedLitLenTree | c/img2hblocks/lodepng.c:1037-1054 | never fails and has the fixed lengths |
| Inflate.InflateHuffmanBlock | c/img2hblocks/lodepng.c:1238-1345 | a block of type 1 or 2 by the definition |
| Inflate.InflateNoCompression | c/img2hblocks/lodepng.c:1347-1380 | a stored block by the definition; error 52, 21 or 23 in the source's order |
| Inflate.InflateV | c/img2hblocks/lodepng.c:1382-1406 | error 0 if and only if the format accepts the stream, and then exactly its bytes behind those already in the output |
| Format.StoredDiffers | c/img2hblocks/lodepng.c:1347-1380 | the code's bound and the one of the standard differ exactly for an empty block whose length bytes end the data |
| Format.RuleDiffers | c/img2hblocks/lodepng.c:1382-1406 | the decoder gives what the standard gives, but for streams that end in such a block: those it rejects |
| Format.EmptyEndSeen | c/img2hblocks/lodepng.c:1355-1358 | such streams are seen by their last four bytes |
| Format.OrderByRule | c/img2hblocks/lodepng.c:624-625 | the program's table is the order of that rule, and no two symbols share a place |
| Format.ClRead | c/img2hblocks/lodepng.c:1128-1139 | what the format reads of these lengths, place by place |
| Stream.SymAt | c/img2hblocks/lodepng.c:1073-1087 | decoding a stream that begins with the code of a symbol returns that symbol, whatever follows |
| Stream.ReadTokens | c/img2hblocks/lodepng.c:1256-1336 | reading the bits of a token list and the end code gives its expansion and stops right behind |
| Stream.ReadItems | c/img2hblocks/lodepng.c:1150-1219 | the dynamic-tree reader undoes the run-length coding, runs across the alphabets included |
| Stream.ItemsGrow | c/img2hblocks/lodepng.c:1826-1828 | coded lengths never need more symbols than there are lengths |
| Stream.ReadClIs | c/img2hblocks/lodepng.c:1128-1139 | the code length code lengths are read back from their storage order |
| Stream.ReadTreesAt | c/img2hblocks/lodepng.c:1104-1236 | the trees of a dynamic block are read back |
| Stream.ReadOneBlock | c/img2hblocks/lodepng.c:1391-1403 | one block is read back, last or not |
| Stream.ReadStream | c/img2hblocks/lodepng.c:1382-1406 | every well-formed sequence of blocks is accepted and gives what it means |
| LengthRuns.CodedItem | c/img2hblocks/lodepng.c:1899-1937 | one more run-length symbol extends the lengths coded so far and never overtakes them |
| LengthRuns.EncodeLengths | c/img2hblocks/lodepng.c:1899-1937 | the symbols written stand for exactly the given lengths, in no more room |
| Deflate.WriteLZ77Data | c/img2hblocks/lodepng.c:1772-1800 | writes the bits of the token list |
| Deflate.CountFrequencies | c/img2hblocks/lodepng.c:1861-1871 | counts every use of every symbol |
| Deflate.UsedEncodable | c/img2hblocks/lodepng.c:1861-1880 | lengths for every symbol counted let every token be written |
| Deflate.MakeTrees | c/img2hblocks/lodepng.c:1861-1880 | both trees are complete and can write every token; no error occurs |
| Deflate.MakeClTree | c/img2hblocks/lodepng.c:1897-1949 | the code length tree is complete, within 7 bits, and can write every run-length symbol |
| Deflate.WriteTrees | c/img2hblocks/lodepng.c:1976-2001 | writes the header of a dynamic block bit for bit: the three counts in their fields, and every code length code length in three bits at the place of its symbol |
| Deflate.StoredClLengths | c/img2hblocks/lodepng.c:1952-1956 | no length behind the number stored is other than zero, the last one stored is, and four are stored at least |
| Deflate.DeflateDynamic | c/img2hblocks/lodepng.c:1801-2022 | appends a well-formed dynamic block that stands for exactly its part of the input |
| Deflate.DeflateFixed | c/img2hblocks/lodepng.c:2024-2067 | the same for a block with fixed trees |
| Deflate.DeflateNoCompression | c/img2hblocks/lodepng.c:1739-1770 | writes the stored form of the input |
| Deflate.ReadStoredBlocks | c/img2hblocks/lodepng.c:1739-1770 | stored blocks inflate to the input, whatever follows them |
| Deflate.StoredInflates | c/img2hblocks/lodepng.c:1739-1770 | storing and inflating gives back every input but the empty one, for which nothing is written |
| Deflate.InflatesBack | c/img2hblocks/lodepng.c:2069-2108 | a finished bit string inflates to the input, whatever follows it |
| Deflate.BlockBounds | c/img2hblocks/lodepng.c:2088-2100 | the blocks tile the input |
| Deflate.DeflateV | c/img2hblocks/lodepng.c:2069-2108 | for every input and all settings: the exact error, and on success the old output followed by a stream that inflates to the input (by nothing for an empty stored input) |
| Deflate.NothingInflates | c/img2hblocks/lodepng.c:1390-1391 | the empty stream is rejected |
| Deflate.EmptyStoredRejected | c/img2hblocks/lodepng.c:1355-1356 | so is the shortest stream the standard allows for the empty string |
| FormatRules.CodeOrder | c/img2hblocks/lodepng.c:798-814 | codes of one length go up by one in symbol order, and shorter codes come before longer ones |
| FormatRules.FirstCode | c/img2hblocks/lodepng.c:798-814 | the first symbol of the shortest length has code zero |
| FormatRules.NextLength | c/img2hblocks/lodepng.c:798-814 | the codes of a length start where those of the next shorter length end, with zeros appended |
| FormatRules.CodeSent | c/img2hblocks/lodepng.c:449-456 | codes are sent from their highest bit on |
| FormatRules.LengthTable | c/img2hblocks/lodepng.c:603-610 | bases and extra bits of the length codes in closed form |
| FormatRules.DistanceTable | c/img2hblocks/lodepng.c:613-621 | bases and extra bits of the distance codes in closed form |
| FormatRules.FixedCodes | c/img2hblocks/lodepng.c:1037-1071 | lengths and codes of all symbols of the fixed trees: 0x30, 0x190, 0 and 0xC0 on, and five plain bits for a distance |
| FormatRules.RunsReached | c/img2hblocks/lodepng.c:1162-1213 | symbol 16 repeats three to six times, 17 stands for three to ten zeros, 18 for 11 to 138 |
| FormatRules.BlockHeader | c/img2hblocks/lodepng.c:1390-1401 | the first header bit marks the last block; 00 is stored, 10 fixed, 01 dynamic, 11 an error |
| FormatRules.StoredBytes | c/img2hblocks/lodepng.c:1739-1770 | up to 65535 bytes are stored behind a header byte, their number and its complement, low bytes first |
| SampleStreams.SixteenLetters | c/img2hblocks/lodepng.c:1382-1406 | a stream of six bytes with fixed codes and two copies, one with an extra length bit, one with an extra distance bit |
| SampleStreams.OneLetter | c/img2hblocks/lodepng.c:1382-1406 | a stream of thirteen bytes with codes of its own |
| Adler.UpdateAdler32 | c/img2hblocks/lodepng.c:2138-2156 | with 32-bit wrap-around written out, equals one reduction per byte for every start value and input; in closed form the halves are start, sum and weighted sum of the bytes modulo 65521 |
| Adler.DeferredNext | c/img2hblocks/lodepng.c:2142-2153 | no sum wraps within 5552 bytes, and the unreduced sums stay congruent |
| Adler.ChecksumConcat | c/img2hblocks/lodepng.c:2138-2156 | the checksum of a prefix continues over the rest |
| Adler.ChecksumIs | c/img2hblocks/lodepng.c:2138-2156 | the closed form: the low half is s1 plus the sum of all bytes, the high half s2 plus n times s1 plus every byte times the number of bytes from it on, both modulo 65521 |
| Adler.LargestPrime | c/img2hblocks/lodepng.c:2151-2152 | 65521 is a prime and the largest one below 2^16 |
| Zlib.AcceptedLongEnough | c/img2hblocks/lodepng.c:2198-2204 | a stream the decoder accepts has two bytes at least, so the four checksum bytes are inside the data |
| Zlib.HeaderIs | c/img2hblocks/lodepng.c:2173-2196 | the headers taken are exactly those with method 8, a window of at most 32K, no dictionary, and a multiple of 31 |
| Zlib.TrailerIs | c/img2hblocks/lodepng.c:2198-2204 | the four last bytes match exactly when they are the two sums, high bytes first, as plain sums of the bytes |
| Zlib.ZlibDecompressV | c/img2hblocks/lodepng.c:2169-2208 | header errors in the source's order; succeeds exactly when container, stream and checksum are right, the checksum taken over the whole output; then the last four bytes are its sums modulo 65521 |
| Zlib.ZlibCompress | c/img2hblocks/lodepng.c:2250-2286 | on success a container that starts with the bytes 120 and 1, ends in the sums of the input modulo 65521 and decompresses to the input under every sufficient size limit; for the stored form of nothing the exact bytes, which no setting decompresses |
| Zlib.StoredNothingRejected | c/img2hblocks/lodepng.c:2250-2286 | header and checksum of the empty string alone are always rejected |
| Filter.PaethPredictor | c/img2hblocks/lodepng.c:3972-3979 | the branching form is the predictor of the standard, ties included |
| Filter.FilterScanline | c/img2hblocks/lodepng.c:5497-5539 | one row filtered by the standard's rule, with every shortcut for missing neighbours; the bytes written and read obey the rule stated in plain numbers (`ByRule`) |
| Filter.FilterRoundTrip | c/img2hblocks/lodepng.c:4099-4227 | reconstruction undoes filtering for all five types |
| Filter.PredictionIs | c/img2hblocks/lodepng.c:4099-4227 | the predictions of the five types: 0, left, above, the m with 2m <= left + above < 2m + 2, and the neighbour nearest to left + above - corner, left before above before corner |
| Filter.RuleDecides | c/img2hblocks/lodepng.c:4099-4227 | the rule leaves no choice: a row has one filtered form and a filtered form one row |
| Filter.UnfilterScanline | c/img2hblocks/lodepng.c:4099-4227 | the row reconstructed, unrolled loops and shared buffer included; error 36 exactly for an unknown type; the bytes written and read obey the rule stated in plain numbers (`ByRule`) |
| Filter.Readable | c/img2hblocks/lodepng.c:4101-4109 | with both in one buffer nothing is overwritten before it is read |
| ImageRows.RawSizeIsLineBytes | c/img2hblocks/lodepng.c:2799-2809 | the overflow-safe size is the line size of the standard |
| ImageRows.FilterImage | c/img2hblocks/lodepng.c:5562-5754 | every row filtered by its type, behind its type byte |
| ImageRows.ImageRoundTrip | c/img2hblocks/lodepng.c:4229-4257 | unfiltering undoes filtering whatever types were chosen |
| ImageRows.UnfilterImage | c/img2hblocks/lodepng.c:4229-4257 | the rows reconstructed, in place or not; error 36 exactly when some row has an unknown type |
| PngRules.LineIsLeast | c/img2hblocks/lodepng.c:2803-2808 | a line has as many bytes as its pixels need and no more |
| PngRules.RowsByRule | c/img2hblocks/lodepng.c:4229-4256 | every row read obeys the rule of its type byte with the bytes behind it and the row above |
| PngRules.NoRows | c/img2hblocks/lodepng.c:4229-4256 | nothing is read exactly when some type byte is not one of the five |
| Buffers.StillThere | c/img2hblocks/lodepng.c:4229-4257 | writing never gets ahead of reading |
| Buffers.SetBit | c/img2hblocks/lodepng.c:2452-2457 | changes exactly one bit of the buffer |
| Buffers.ReadBit | c/img2hblocks/lodepng.c:2435-2439 | the bit at a place, most significant bit of a byte first |
| Buffers.RemovePaddingBits | c/img2hblocks/lodepng.c:4310-4331 | the rows without padding, in place or not, nothing else changed |
| Buffers.AddPaddingBits | c/img2hblocks/lodepng.c:5756-5773 | the rows filled up with zero bits |
| Buffers.PaddingRoundTrip | c/img2hblocks/lodepng.c:4310-4331 | removing padding undoes adding it |
| Adam7.PixelInPass | c/img2hblocks/lodepng.c:3983-4026 | every pixel lies in its pass, inside the reduced image |
| Adam7.PassHoldsOnly | c/img2hblocks/lodepng.c:3983-4026 | every place of a reduced image is a pixel of the image that is found nowhere else |
| PngRules.Adam7Pattern | c/img2hblocks/lodepng.c:3982-3987 | the pass of every pixel is the one of the eight by eight pattern of the specification |
| Adam7.StartsOrdered | c/img2hblocks/lodepng.c:4016-4025 | passstart <= padded_passstart <= filter_passstart |
| Adam7.PredictedSize | c/img2hblocks/lodepng.c:4996-5010 | the size the decoder predicts is the size the encoder writes |
| Adam7.GetPassValues | c/img2hblocks/lodepng.c:4003-4026 | sizes and starts of the seven passes |
| Adam7.PassItemsAt | c/img2hblocks/lodepng.c:5786-5823 | pixel number n of a pass is the pixel of the image it stands for |
| Adam7.InterlaceRoundTrip | c/img2hblocks/lodepng.c:4259-4308 | deinterlacing undoes interlacing |
| Interlace.SourceAddress | c/img2hblocks/lodepng.c:5797-5815 | the addresses computed are those of the pixels meant |
| Interlace.Adam7Interlace | c/img2hblocks/lodepng.c:5786-5823 | every pass of the output holds its pixels in order |
| Interlace.SourceOnly | c/img2hblocks/lodepng.c:4270-4308 | a pixel of a pass is the only one with its place in the image |
| Interlace.Adam7Deinterlace | c/img2hblocks/lodepng.c:4270-4308 | every pixel of the output comes from its place in its pass |
| Scanlines.PreProcessPlain | c/img2hblocks/lodepng.c:5827-5860 | the output stores the image row by row |
| Scanlines.PreProcessInterlaced | c/img2hblocks/lodepng.c:5861-5895 | the output stores the seven passes of the image |
| Scanlines.PostProcessPlain | c/img2hblocks/lodepng.c:4352-4360 | error 36 exactly for an unknown filter type, else the pixels of the rows |
| Scanlines.PiecesAfterUnfilter | c/img2hblocks/lodepng.c:4361-4375 | unfiltering a pass in place spares the passes already packed and the scanlines still to be read |
| Scanlines.PiecesAfterPacking | c/img2hblocks/lodepng.c:4361-4375 | so does packing it |
| Scanlines.PostProcessInterlaced | c/img2hblocks/lodepng.c:4361-4378 | error 36 exactly for an unknown filter type in some pass, else every pixel in its place |
| Scanlines.PlainRoundTrip | c/img2hblocks/lodepng.c:4337-4378 | reading stored scanlines gives back all bits of the image, for every size, depth and filter choice |
| Scanlines.InterlacedRoundTrip | c/img2hblocks/lodepng.c:4337-4378 | the same with interlacing |
| ColorTrees.GetAdd | c/img2hblocks/lodepng.c:3148-3163 | adding a colour changes the index of the colours that take its way through the tree, and no other |
| ColorTrees.IndexAdd | c/img2hblocks/lodepng.c:3129-3163 | that is its own index alone: the tree is a map |
| ColorTrees.ColorTreeGet | c/img2hblocks/lodepng.c:3129-3138 | the loop down the tree looks up the map |
| Colors.RequiredBitsExact | c/img2hblocks/lodepng.c:3681-3687 | a grey value survives a depth if and only if it needs no more bits |
| Colors.AddColorBits | c/img2hblocks/lodepng.c:3089-3098 | the sample read back at its place is the one stored, and samples before it are kept |
| Colors.GetPixelColorRGBA8 | c/img2hblocks/lodepng.c:3251-3316 | the colour the bits of the pixel mean in its mode, byte by byte for modes of whole bytes |
| Colors.Rgba8ToPixel | c/img2hblocks/lodepng.c:3165-3207 | what is stored reads as what the mode keeps of the colour; error 82 exactly when the palette lacks it; the bytes or the sample stored |
| Colors.GetPixelColorsRGBA8 | c/img2hblocks/lodepng.c:3326-3419 | the loops inside the cases give what the one-pixel function gives, the key's second pass included; every byte of the output from the bytes of the input (`BytesShown`), for RGB and grey with alpha spelled out |
| Colors.ColourIs | c/img2hblocks/lodepng.c:3251-3316 | what `PixelAt` means: red, green, blue and alpha byte by byte; a sample is taken from the high bits of its byte on |
| Colors.WidenIs | c/img2hblocks/lodepng.c:3265-3270 | a grey sample of 1, 2 or 4 bits counts 255, 85 or 17 |
| Colors.RgbPixel | c/img2hblocks/lodepng.c:3326-3419 | the four bytes of one RGB pixel; alpha is 0 exactly for the key |
| Colors.GreyAlphaPixel | c/img2hblocks/lodepng.c:3326-3419 | the four bytes of one pixel of grey with alpha |
| Colors.ColoursShown | c/img2hblocks/lodepng.c:3326-3419 | a buffer holds the colours of the data if and only if its bytes show those of the data |
| ColorConvert.GetPixelColorsRGB8 | c/img2hblocks/lodepng.c:3422-3492 | every byte of the output from the bytes of the input, RGB taken as it is |
| ColorConvert.SameColoursShown | c/img2hblocks/lodepng.c:3522-3601 | an RGBA buffer has the colours of other data if and only if its bytes show those of the data |
| ColorConvert.PaletteTree | c/img2hblocks/lodepng.c:3552-3568 | the tree holds every colour an index can name, the last one of equal ones |
| ColorConvert.Convert | c/img2hblocks/lodepng.c:3522-3601 | every pixel becomes what the output mode keeps of its colour; an output palette left empty is the input's; error 107 for a missing palette, 82 exactly when a colour is not in the output palette; RGB and RGBA output byte by byte |
| Bits.AndMask | c/img2hblocks/lodepng.c:3952-3956 | a mask of ones keeps the low bits |
| ColorChoice.MaskedKey | c/img2hblocks/lodepng.c:3952-3956 | the sixteen-bit key masked to the depth is the key colour at that depth |
| ColorStatistics.NoKeyWorks | c/img2hblocks/lodepng.c:3807-3827 | when the alpha flag is set the image is not opaque and no key colour serves it |
| ColorStatistics.CountIsRight | c/img2hblocks/lodepng.c:3795-3800 | a count of bits that has not stopped is enough for every pixel |
| ColorStatistics.AllColoursSeen | c/img2hblocks/lodepng.c:3701-3724 | when as many colours were seen as the mode can have, the image has no others |
| ColorStatistics.ColorStats.NothingNew | c/img2hblocks/lodepng.c:3846 | once every question is settled, leaving the loop changes none of the answers |
| ColorStatistics.ColorStats.ComputeColorStats | c/img2hblocks/lodepng.c:3690-3871 | for every input mode colour, key, alpha, number of colours and palette are true of the whole image, the key being no solid pixel's colour; bits are as counted |
| ColorChoice.CountIsSize | c/img2hblocks/lodepng.c:3829-3846 | the count of colours is the size of their set, or says that there are more than 256 |
| ColorChoice.CountedRight | c/img2hblocks/lodepng.c:3795-3800 | the bits counted are enough for every image that does not have a palette of fewer than eight bits |
| ColorChoice.AutoChooseColor | c/img2hblocks/lodepng.c:3900-3963 | the type, depth and key chosen, from the colours of the image alone: a palette, its depth and its colours; grey or colour, alpha or not; the mode chosen keeps every pixel if and only if grey samples are not undercounted; for more than 16 pixels an alpha channel is chosen only when the image needs one |
| ColorChoice.PaletteRoom | c/img2hblocks/lodepng.c:3926-3927 | the depth of a palette is the least that has room for it |
| ColorChoice.AutoConvert | c/img2hblocks/lodepng.c:5972-6105 | error 107 exactly for a missing palette; else the image converted to the mode chosen for it has the same colours if and only if `Loses` is false of the input |
| ColorChoice.ConvertBack | c/img2hblocks/lodepng.c:5047-5062 | the decoder's conversion to RGBA shows every colour, byte by byte; error 107 exactly for a missing palette |
| ColorChoice.ThereAndBack | c/img2hblocks/lodepng.c:5972-6105 | both together show the bytes of the image under the same exact condition, and always give back those of an RGBA image |
| ColorChoice.PaletteLoses | c/img2hblocks/lodepng.c:3900-3963 | four pixels of a palette of two greys that do not keep their colours |
| Codec.SameBitsSameColours | c/img2hblocks/lodepng.c:4337-4378 | the same pixel bits are the same colours in every mode |
| Codec.PreProcess | c/img2hblocks/lodepng.c:5827-5898 | the scanlines store the image, interlaced or not |
| Codec.PostProcess | c/img2hblocks/lodepng.c:4337-4378 | error 36 exactly for an unknown filter type, else every pixel as the reconstructed rows or passes have it, padding bits of any value; the pixels stored, when an image was |
| Codec.Pack | c/img2hblocks/lodepng.c:6094-6118 | what is compressed decompresses to scanlines that store the pixels in their mode |
| Codec.Encode | c/img2hblocks/lodepng.c:5935-6118 | the exact error; the compressed scanlines of an image in the mode chosen for it, whose colours are those of the input if and only if `Loses` is false |
| Codec.EncodeAs | c/img2hblocks/lodepng.c:5935-6118 | the same in a mode that is given: errors 68, 61, 107 and 82 in the source's order; the image stored is the input unchanged or what the mode keeps of each colour |
| Codec.Decode | c/img2hblocks/lodepng.c:4989-5064 | error 106, 91 or 36 exactly where the source has them; otherwise, byte by byte, the colours of the pixels that the reconstructed scanlines show, as RGBA, for every stream that is accepted; scanlines that hold an image give its colours |
| Codec.EncodeThenDecode | c/img2hblocks/lodepng.c:5972-6118 | images of any size and mode, for all settings the encoder accepts, all filter types, interlaced or not, under every sufficient size limit: all colours come back if and only if `Loses` is false of the input, and RGBA images byte for byte |
| Bignums.DigitCount | c/bignum/bignum.c:26-39 | the number of decimal digits |
| Bignums.NewBignumOf | c/bignum/bignum.c:170-184 | a number with the given value and no superfluous digit |
| Bignums.MatchSizes | c/bignum/bignum.c:49-78 | same point and length, same values and signs |
| Bignums.Shrink | c/bignum/bignum.c:80-109 | no superfluous zero at either end, same value and sign |
| Bignums.Split | c/bignum/bignum.c:111-132 | low and high digits as whole numbers, or the number itself |
| Bignums.SetPoint | c/bignum/bignum.c:245-250 | moves the point, growing the digits when needed |
| Bignums.CompareAbs | c/bignum/bignum.c:280-291 | the order of the absolute values; operands keep their values |
| Bignums.Compare | c/bignum/bignum.c:270-278 | the order of the values, except for zeros of different sign |
| Bignums.TopDecides | c/bignum/bignum.c:280-291 | the first different digit from the top decides |
| Bignums.AddDigits | c/bignum/bignum.c:315-329 | the column loop adds or subtracts exactly, with carries in range and intermediate digits in `int8_t` |
| Bignums.AddBignum | c/bignum/bignum.c:293-335 | the exact sum for all signs, lengths and points; operands keep value and sign |
| Bignums.SubBignum | c/bignum/bignum.c:337-344 | the exact difference of different objects |
| Bignums.Combine | c/bignum/bignum.c:358-369 | three products give the product |
| Bignums.MulBignum | c/bignum/bignum.c:346-384 | the exact product, except for the sign of one-digit operands; operands keep value and sign; the recursion terminates |
| Bignums.PartsSmaller | c/bignum/bignum.c:353-361 | the sum of both parts is less than the whole unless the high part is zero |
| Bignums.ShlBignum | c/bignum/bignum.c:422-430 | zeros below, all digits kept |
| BinarySplitting.CalculateLoop | c/bignum/bignum.c:444-452 | for all inputs: the run of the loop on values with `mulBignum`'s rule; it equals the product exactly under `LoopKeeps`, a condition on the inputs, which holds for inputs of at least one half (P) or zero (Q) |
| BinarySplitting.ShrunkShort | c/bignum/bignum.c:80-109 | a number without superfluous zeros has one digit exactly when it is a whole number of magnitude at most 9 |
| BinarySplitting.LoopExact | c/bignum/bignum.c:444-452 | the run gives the product if and only if it is zero, or no P factor comes from a misread negative input and the number of signs lost is even: those of the negative factors up to the last place where product and factor are both one digit, and of the misread inputs behind it |
| BinarySplitting.OnlySigns | c/bignum/bignum.c:444-452 | without a misread P factor the run is the product or its negation, by the parity of the signs lost |
| BinarySplitting.TooSmall | c/bignum/bignum.c:454-461 | misread P factors make the magnitude too small |
| BinarySplitting.FineLoop | c/bignum/bignum.c:444-469 | inputs of at least one half (P) or zero (Q) lose nothing |
| BinarySplitting.LoopLoses | c/bignum/bignum.c:444-452 | for 1/4, 5/2, 2 the loop gives 6 where the product is -6 |
| BinarySplitting.ZeroLoses | c/bignum/bignum.c:444-452 | for 0 it gives 1 where the product is -1 |
| BinarySplitting.FactorLoses | c/bignum/bignum.c:454-461 | for -3 stored in one digit the factor is 5 instead of -7 |
| BinarySplitting.TSplit | c/bignum/bignum.c:471-483 | where the range is split makes no difference |
| BinarySplitting.TIsSeries | c/bignum/bignum.c:471-483 | the sum over the product of all 4x is the series of the growing products of (2x - 1) / 4x |
| BinarySplitting.CalculateT | c/bignum/bignum.c:471-483 | for all inputs: the run of the recursion on values; it equals the sum of products when nothing is lost, as for inputs of at least one half |
| BinarySplitting.TExact | c/bignum/bignum.c:471-483 | when nothing is lost in the recursion it computes the sum |
| BinarySplitting.FineT | c/bignum/bignum.c:471-483 | inputs of at least one half lose nothing |
| BinarySplitting.TLoses | c/bignum/bignum.c:471-483 | for 1/4, 5/2, 1, 1 the answer is -102 where the sum is -122 |
| BinarySplitting.LossesCancel | c/bignum/bignum.c:471-483 | for -13/4, -3/2, 1/8 two signs are lost and the answer is the sum |
| Srpt.TailZero | python/srpt.py:36-41 | nothing is left beyond k jobs exactly when at most k are unfinished |
| Srpt.AnyWork | python/srpt.py:53-54 | one unit of work takes at most one unit off any tail |
| Srpt.ShortestWork | python/srpt.py:43-54 | work on the shortest job takes one unit off every tail that has any |
| Srpt.StaysAhead | python/srpt.py:29-54 | shortest-first stays ahead of every other policy in all tails |
| Srpt.NeverMoreUnfinished | python/srpt.py:29-54 | never more unfinished jobs than under any other policy, at any tick |
| Srpt.LeastTotalLifetime | python/srpt.py:29-61 | no other policy has a smaller sum of lifetimes |
| Srpt.JobsAre | python/srpt.py:33-54 | under any policy a job is its entry less the ticks since its arrival that chose it |
| Srpt.LifetimesAre | python/srpt.py:39-41 | under any policy its lifetime is the number of ticks that found it unfinished |
| Srpt.WorkConserved | python/srpt.py:33-54 | from the first arrival on every tick takes one unit off the sum of what has arrived |
| Srpt.ChoiceIsRight | python/srpt.py:43-54 | the program works on the first of the jobs that have arrived and have the least left |
| Srpt.Simulation.FindShortest | python/srpt.py:43-51 | the first shortest unfinished job, or the last job |
| Srpt.Simulation.Tick | python/srpt.py:29-54 | a nonzero entry of the schedule becomes a job; every unfinished job ages; one unit of work on the first of the shortest unfinished jobs, on the last job when none is unfinished, on nothing when there is no job |
| Srpt.Simulation.Run | python/srpt.py:29-61 | the whole run, from the schedule alone: which ticks bring jobs, what is left of each job, how long each lived, which job each tick works on, and the work done in all; optimal among all choices |

## Left out

- Memory allocation failures, `realloc` growth factors, and freeing: buffers are as large as they need to be.
- Sixteen bits per channel add cases of the same kind to every function on colours; the members concerned are listed below. ICC
  profiles, background and significant-bits chunks, which can adjust the statistics or forbid a conversion, do not take part in the
  choice of a mode.
- PNG chunks (PLTE and tRNS among them), CRC-32, ancillary chunks, custom zlib callbacks, file and disk helpers, the C++ wrapper, error texts.
- Compression quality: that lengths are optimal or matches are longest is not stated; weights and counts are unbounded, so overflow of
  the `int` weights of package merge is not modelled.
- Inflate.InflateV: does not say which nonzero error code an unacceptable stream gets, because with two literals read at once a later
  error can be reported first.
- Inflate.InflateSymbols: for the same reason says that there is an error, not which.
- Inflate.InflateHuffmanBlock: the same.
- Inflate.ReadCodeLengths: says that there is an error, not which of 13 to 16, 50 and 54.
- Inflate.GetTreeInflateDynamic: the same.
- Zlib.ZlibDecompressV: names the header errors only.
- Lz77.Search: says that the match returned is real, not which of the candidates on the chain it is; any of them keeps the meaning.
- ImageRows.FilterImage: the heuristics that pick a filter type per row are a parameter.
- BitIO.BitWriter.WriteBits: asks a value written as one bit to be below 2; the source ORs it in unmasked and every caller keeps to that.
- CodeLengths.HuffmanCodeLengths: a length limit above 15 is not modelled; the program's callers pass 7 and 15.
- HuffmanTrees.HuffmanTree.MakeFromFrequencies: asks for a minimum of two codes, as all callers do; below that the source reads and
  writes outside its arrays.
- Colors.GetPixelColorRGBA8: modes of up to eight bits per channel only.
- Colors.Rgba8ToPixel: the same.
- Colors.GetPixelColorsRGBA8: the same.
- ColorConvert.Convert: the same, on both sides.
- ColorStatistics.ColorStats.ComputeColorStats: the same; and starts from fresh statistics, as the encoder does.
- ColorChoice.AutoChooseColor: the same, so it never chooses sixteen bits.
- ColorChoice.AutoConvert: the same.
- ColorChoice.ConvertBack: the same for the mode of the file.
- ColorChoice.ThereAndBack: the same for the input.
- Codec.Encode: the same for the input.
- Codec.EncodeAs: the same for the input and the mode given.
- Codec.Decode: the same for the mode of the file; the output is RGBA with eight bits.
- Codec.EncodeThenDecode: the same for the input; the output is RGBA with eight bits.
- Bignums.ResizeBignum: works on a sequence, so `realloc` and its aliasing are not modelled.
- BinarySplitting.CalculateT: the condition for the sum goes one way, because two losses may cancel (`LossesCancel`); C leaves the order of the two
  halves open, and the model takes them from left to right.
- `divBignum` (a fixed number of Newton steps), `shrBignum`, conversion to text and printing.
- The printing of the scheduler and its division by the number of jobs.
