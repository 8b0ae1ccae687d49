# Compression codecs, modelled in Dafny

This project models the core of a small Java file-compression library. Three codecs
share a session base class:

- **AbstractCompressor**: the session. It holds the current mode (Compress or
  Decompress) and the last compression rate. The model makes it a class `Compressor`,
  and each codec holds one instead of inheriting from it.
- **DictLZW**: LZW dictionary coding. The encoder grows a phrase dictionary with the
  codes 256, 257, …. It emits a signed literal byte for a one-byte phrase and the
  dictionary code otherwise.
  - The archive is the input size as an 8-byte big-endian long, then every code as a
    4-byte big-endian int.
  - The decoder rebuilds the dictionary one entry behind the encoder. That includes the
    code that is not in its table yet: the previous phrase plus its own first byte.
- **HuffmanTree** (package `Compression`): the Huffman codec.
  - `buildTree` fills a priority queue with one leaf per byte value that occurs. It
    merges the two lightest trees until one is left. A single leaf is paired with a
    dummy leaf `(0, 0)`.
  - `compress` writes the header: the size, then the leaf number `nodeNum`. A stack
    traversal then writes one 5-byte record per leaf and gives each leaf its path as
    its code. Finally the codes of the input are packed least significant bit first.
  - `decompress` reads the records back into counts, rebuilds the tree with the same
    `buildTree` and walks it bit by bit.
- **HuffmanTree** (package `Huffman`): an earlier draft of the tree construction. It has
  no dummy leaf, a `void` method named like the class that only stores the file name,
  and a `compressFile` that returns 0.
- **ArithCoder**: an arithmetic coder, of which the model covers only the integer parts:
  - the binary search `searchRange` over the cumulative distribution;
  - the initial uniform distribution;
  - the LSB-first bit accumulator and bit reader;
  - the mode guards and the size header.

What is proved, besides every loop against its specification function:

- **LZW round trip.** Decoding the archive of any input (shorter than 2^31 - 256 bytes)
  gives the input back. This holds for the decoder that keeps its table as bytes. The
  Java decoder keeps it as `String`s, which changes bytes of 0x80 or more (see
  "Findings").
- **LZW size limits.** The decoder's byte counter is an `int`. A recorded size of 2^31
  or more never decodes: the loop fails on its first code or never ends.
- **Huffman construction.**
  - Every merge keeps the leaves and the total weight of the heap.
  - Every built node weighs the sum of its children.
  - The root weighs the input length.
  - The traversal's codes are prefix-free and each one is its leaf's path.
- **Huffman round trip.** Decoding the archive of any non-empty input gives the input
  back. The decoder reads back exactly the counts the encoder built its tree from.
- **The single-symbol case.**
  - The header says one leaf, but two records are written, so the decoder reads the
    dummy's five zero bytes as the start of the body.
  - The round trip still holds: either the byte is 0, so both leaves carry 0, or every
    code bit is 0.
- **Draft against codec.** The draft and the codec build the same tree except for a
  single leaf. For a single leaf the draft's root is the leaf itself.
- **searchRange.** It always returns an index that brackets `acc`. On a sorted
  distribution that index is the largest one whose entry is at most `acc`.
- **Arithmetic coder's bit stream.** The decoder reads the encoder's bits back in order,
  then zero padding to the byte boundary, then ones past the end of the stream.

File by file:

- `bytes.dfy`: Java bytes and `ByteBuffer` ints and longs, with their round trips.
- `bit_packing.dfy`: LSB-first packing and reading of bits.
- `results.dfy`: `Option`, `Result`.
- `abstract_compressor.dfy`: the session.
- `dict_lzw.dfy`: LZW.
- `huffman_tree.dfy`, `huffman_build.dfy`, `huffman_codes.dfy`, `huffman_archive.dfy`:
  the Huffman codec.
- `huffman_draft.dfy`: the draft.
- `arith_coder.dfy`: the arithmetic coder.

## Model

| member | source | states |
|---|---|---|
| AbstractCompressor.Compressor.constructor | src/Compression/AbstractCompressor.java:16-17 | a new session is in Compress mode with rate 1 |
| AbstractCompressor.Compressor.GetCompressRate | src/Compression/AbstractCompressor.java:23-25 | returns the stored rate |
| AbstractCompressor.Compressor.SetCompressRate | src/Compression/AbstractCompressor.java:31-33 | stores the rate and leaves the mode unchanged |
| AbstractCompressor.Compressor.GetMode | src/Compression/AbstractCompressor.java:38-40 | returns the current mode |
| AbstractCompressor.Compressor.SetCompressMode | src/Compression/AbstractCompressor.java:45-47 | the mode becomes Compress and the rate is kept |
| AbstractCompressor.Compressor.SetDecompressMode | src/Compression/AbstractCompressor.java:52-54 | the mode becomes Decompress and the rate is kept |
| Bytes.Signed | src/Compression/DictLZW.java:87 | `(int)b` of a byte lies in -128..127 and truncates back to b |
| Bytes.GetPutInt | src/Compression/DictLZW.java:126-127 | reading back an int written by `putInt` gives the int |
| Bytes.PutGetInt | src/Compression/DictLZW.java:181-183 | every 4 bytes are the `putInt` of the int `getInt` reads from them |
| Bytes.GetPutLong | src/Compression/DictLZW.java:117-118 | reading back a long written by `putLong` gives the long |
| Bytes.PutGetLong | src/Compression/DictLZW.java:164-166 | every 8 bytes are the `putLong` of the long `getLong` reads from them |
| Bytes.ReadPaddedInside | src/Compression/DictLZW.java:164-166 | a read that lies inside the stream returns exactly those bytes |
| BitPacking.Packed | src/Compression/HuffmanTree.java:125-146 | the accumulator writes one byte per 8 bits plus one final byte, always |
| BitPacking.PackedBitAt | src/Compression/HuffmanTree.java:211-222 | reading bit k of a packing, LSB first, gives the k-th packed bit |
| BitPacking.PackedSnoc | src/Compression/HuffmanTree.java:132-140 | one more bit changes only the last byte, and a completed byte is followed by a fresh zero byte |
| BitPacking.PackedZeros | src/Compression/HuffmanTree.java:125-146 | zero bits pack into zero bytes |
| BitPacking.Accumulate | src/Compression/HuffmanTree.java:130-141 | ORing bits into `crt` at `byteIndex`, with a flush every 8 bits, extends the packing of the bits so far |
| DictLzw.EncodeCodes | src/Compression/DictLZW.java:69-110 | the codes and the dictionary form an LZW trace of the input: literal or earlier code, entry k = phrase k + first byte of phrase k+1, no duplicates, phrases spell the input; at most one code per input byte |
| DictLzw.PendingCode | src/Compression/DictLZW.java:86-91 | the code emitted for the pending word denotes that word |
| DictLzw.EncodeExtend | src/Compression/DictLZW.java:82-84 | a word already in the map is extended without emitting anything |
| DictLzw.EncodeEmit | src/Compression/DictLZW.java:84-99 | a new word emits the old word's code, enters the new word under the next code and restarts from the new byte |
| DictLzw.EncodeFlush | src/Compression/DictLZW.java:101-108 | at the last byte, the pending word's code is flushed and the trace is complete |
| DictLzw.EncodedIsTrace | src/Compression/DictLZW.java:69-110 | the finished encoder state is a trace of the input |
| DictLzw.TraceBounds | src/Compression/DictLZW.java:72-95 | at most one code per input byte, so the codes fit a Java int below 2^31 - 256 bytes |
| DictLzw.CodeBytes | src/Compression/DictLZW.java:124-129 | 4 bytes per code |
| DictLzw.WriteCodes | src/Compression/DictLZW.java:124-129 | the write loop emits every code as a big-endian int, in order |
| DictLzw.CodeAtCodeBytes | src/Compression/DictLZW.java:181-183 | the decoder's idx-th 4-byte read returns the idx-th code written |
| DictLzw.Entry | src/Compression/DictLZW.java:185-203 | a code fails exactly when it is past the table and no phrase precedes it; a literal gives one byte congruent to it |
| DictLzw.Step | src/Compression/DictLZW.java:185-210 | a step writes a non-empty phrase after the previous output and grows the table by one entry from the second code on |
| DictLzw.Run | src/Compression/DictLZW.java:176-211 | the loop stops with at least `fileSize` bytes out and fewer than 2^31; a failure to end happens only for a size of 2^31 or more; a counter wrap happens only below it |
| DictLzw.Decode | src/Compression/DictLZW.java:164-211 | a decoded output is at least the recorded size; a recorded size of 2^31 or more never gives an output and never wraps below it |
| DictLzw.DecodeBody | src/Compression/DictLZW.java:176-211 | the decoder loop, with its `int` counter stopping at 2^31, computes the run of the decoder over the codes |
| DictLzw.RunAfterFirst | src/Compression/DictLZW.java:193-196 | once a phrase is decoded, the null `lastEntry` failure cannot happen |
| DictLzw.NeverEndsOnLiteral | src/Compression/DictLZW.java:176-190 | a recorded size of 2^31 or more with a literal first code never ends |
| DictLzw.HugeSizeNeverEnds | src/Compression/DictLZW.java:176-190 | the archive that records 2^31 bytes and holds no codes never ends |
| DictLzw.Latin1Back | src/Compression/DictLZW.java:199-206 | the byte read back from the `String` table equals the byte stored exactly when it is below 0x80 |
| DictLzw.StepAsWritten | src/Compression/DictLZW.java:185-210 | the decoder pass with the `String` table fails exactly when the byte-level pass does and writes the same bytes |
| DictLzw.StringTableCorrupts | src/Compression/DictLZW.java:199-208 | on the input 41 80 41 80 the byte-level decoder gives the input back, but the decoder as written outputs 41 80 41 3F |
| DictLzw.TableLockstep | src/Compression/DictLZW.java:204-208 | the entry the decoder adds on code j is the encoder's entry j - 1 |
| DictLzw.OutLockstep | src/Compression/DictLZW.java:201-210 | the decoder writes phrase j right after the first j phrases and keeps it as `lastEntry` |
| DictLzw.EntryLockstep | src/Compression/DictLZW.java:193-200 | for an encoder trace, code j decodes to the phrase it was emitted for, including a code that is not in the table yet |
| DictLzw.StepLockstep | src/Compression/DictLZW.java:204-210 | decoding code j adds exactly the encoder's entry j - 1 |
| DictLzw.RunFrom | src/Compression/DictLZW.java:180-211 | from the state after j codes, the decoder produces the input |
| DictLzw.ArchiveRoundTrip | src/Compression/DictLZW.java:116-129 | the archive of an encoder trace decodes to the input |
| DictLzw.Compress | src/Compression/DictLZW.java:54-144 | refused outside Compress mode; otherwise writes the archive of a trace, returns the number of codes and switches to Decompress |
| DictLzw.Decompress | src/Compression/DictLZW.java:151-223 | refused outside Decompress mode; otherwise returns the header size and the decoded output |
| HuffmanTree.MinIndex | src/Compression/HuffmanTree.java:267-268 | the position polled lies in the heap |
| HuffmanTree.LeafHeap | src/Compression/HuffmanTree.java:249-255 | the initial heap holds leaves with positive counts, in increasing byte order |
| HuffmanTree.Counts | src/Compression/HuffmanTree.java:288-292 | 256 counts |
| HuffmanBuild.CountBytes | src/Compression/HuffmanTree.java:288-292 | the counting loop counts every byte value's occurrences in the input |
| HuffmanBuild.CountsBounds | src/Compression/HuffmanTree.java:288-292 | each count lies in 0..length, and a byte of the input has a positive count |
| HuffmanBuild.CountsSum | src/Compression/HuffmanTree.java:288-292 | the counts add up to the input length |
| HuffmanBuild.InitHeap | src/Compression/HuffmanTree.java:249-255 | the heap loop adds a leaf for every positive count, in ascending byte order |
| HuffmanBuild.MergeLoop | src/Compression/HuffmanTree.java:266-273 | the merge loop runs the given number of merge rounds, none when that number is negative |
| HuffmanBuild.MergeLightest | src/Compression/HuffmanTree.java:267-272 | one round polls two trees and adds their parent |
| HuffmanBuild.BuildTree | src/Compression/HuffmanTree.java:247-275 | `buildTree` returns the specified tree (with the dummy leaf for one leaf, none for no leaf) and sets `nodeNum` to the leaf count |
| HuffmanBuild.MinIndexLeast | src/Compression/HuffmanTree.java:267 | the polled tree weighs no more than any other |
| HuffmanBuild.PollLeast | src/Compression/HuffmanTree.java:267-268 | `poll` removes a tree of least count |
| HuffmanBuild.PollRemovesOne | src/Compression/HuffmanTree.java:267-268 | `poll` removes one tree and keeps all the others |
| HuffmanBuild.MergeOnceLeaves | src/Compression/HuffmanTree.java:266-273 | a merge keeps the heap's leaves |
| HuffmanBuild.MergeOnceWeight | src/Compression/HuffmanTree.java:266-273 | a merge keeps the heap's total count |
| HuffmanBuild.MergeOnceWellWeighted | src/Compression/HuffmanTree.java:269 | a merge creates a node weighing the sum of its children |
| HuffmanBuild.MergeRoundsLeaves | src/Compression/HuffmanTree.java:266-273 | any number of merges keeps the heap's leaves |
| HuffmanBuild.MergeRoundsWeight | src/Compression/HuffmanTree.java:266-273 | any number of merges keeps the heap's total count |
| HuffmanBuild.MergeRoundsWellWeighted | src/Compression/HuffmanTree.java:266-273 | any number of merges keeps every node well weighted |
| HuffmanBuild.LeafHeapComplete | src/Compression/HuffmanTree.java:250-254 | a positive count puts its leaf in the heap |
| HuffmanBuild.LeafHeapEmpty | src/Compression/HuffmanTree.java:250-254 | no positive count gives an empty heap |
| HuffmanBuild.LeafHeapWeight | src/Compression/HuffmanTree.java:250-254 | the heap's weight is the sum of the positive counts |
| HuffmanBuild.LeafHeapBytes | src/Compression/HuffmanTree.java:250-254 | a byte occurs in the input if and only if its leaf, with its count, is in the heap |
| HuffmanBuild.RootWeight | src/Compression/HuffmanTree.java:247-275 | a non-empty input gives a root in both constructions; it weighs the input length and is well weighted |
| HuffmanBuild.MergedLeaves | src/Compression/HuffmanTree.java:266-274 | the final tree holds exactly the heap's leaves |
| HuffmanCodes.Record | src/Compression/HuffmanTree.java:98-101 | a record is the byte, then the count as a big-endian int |
| HuffmanCodes.RecordBytes | src/Compression/HuffmanTree.java:97-105 | five bytes per visited leaf |
| HuffmanCodes.AssignCodes | src/Compression/HuffmanTree.java:90-119 | the stack traversal writes the records of the leaves in preorder and maps each byte to its path code |
| HuffmanCodes.PopLeaf | src/Compression/HuffmanTree.java:95-105 | popping a leaf visits the next leaf in order |
| HuffmanCodes.PushChildren | src/Compression/HuffmanTree.java:107-118 | pushing right, then left, keeps the leaves to visit, left subtree first |
| HuffmanCodes.CodesExtend | src/Compression/HuffmanTree.java:107-118 | codes below a node extend its code; 0 goes left, 1 goes right |
| HuffmanCodes.CodesPrefixFree | src/Compression/HuffmanTree.java:90-119 | no leaf's code is a prefix of another's |
| HuffmanCodes.LeafCodesLeaves | src/Compression/HuffmanTree.java:90-119 | the traversal visits exactly the leaves of the tree |
| HuffmanCodes.CodeTableKeys | src/Compression/HuffmanTree.java:103 | a byte is in the map if and only if a visited leaf carries it, with that leaf's code |
| HuffmanCodes.LeafCodeFollows | src/Compression/HuffmanTree.java:107-118 | a leaf's code leads from the root to that leaf |
| HuffmanCodes.WalkFollow | src/Compression/HuffmanTree.java:211-223 | walking over a code stops at its leaf, after as many bits as the leaf's depth |
| HuffmanCodes.CodeTableLeads | src/Compression/HuffmanTree.java:90-119 | every code in the map leads to a leaf of its byte |
| HuffmanCodes.DecodeBody | src/Compression/HuffmanTree.java:206-228 | the tracer loop decodes `fileSize` walks, and nothing when the size is not positive |
| HuffmanCodes.WalkStep | src/Compression/HuffmanTree.java:212-222 | bit `index` of byte `byteNo` selects the child |
| HuffmanCodes.EncodeBody | src/Compression/HuffmanTree.java:125-146 | the encoding loop writes the packing of the input's codes |
| HuffmanCodes.DecodeInvertsEncode | src/Compression/HuffmanTree.java:125-146 | walking the packed codes of s, with codes that lead to their own leaves, gives s |
| HuffmanArchive.Layout | src/Compression/HuffmanTree.java:57-58 | the header is 12 bytes, then the records, then the body |
| HuffmanArchive.ReadRecords | src/Compression/HuffmanTree.java:193-199 | the counts array and the reused 4-byte buffer |
| HuffmanArchive.HuffmanCodec.constructor | src/Compression/HuffmanTree.java:44-53 | no tree and no leaves yet |
| HuffmanArchive.HuffmanCodec.CreateHuffmanTree | src/Compression/HuffmanTree.java:281-300 | the tree is `buildTree` of the input's counts |
| HuffmanArchive.HuffmanCodec.Compress | src/Compression/HuffmanTree.java:62-161 | refused outside Compress mode; on empty input the null root fails; otherwise writes the archive, returns its size, switches to Decompress and records the rate |
| HuffmanArchive.HuffmanCodec.Decompress | src/Compression/HuffmanTree.java:168-239 | refused outside Decompress mode; otherwise rebuilds the tree from the records read, resets `nodeNum` and returns the header size and the decoded output |
| HuffmanArchive.ReadCounts | src/Compression/HuffmanTree.java:193-199 | the record loop reads `nodeNum` records into the counts, through the reused buffer |
| HuffmanArchive.TreeRecords | src/Compression/HuffmanTree.java:90-119 | the records carry every positive count; with one leaf, they are followed by the dummy's record |
| HuffmanArchive.EncoderFacts | src/Compression/HuffmanTree.java:69-146 | a non-empty input gets a tree whose counts fit an int, and every input byte has a code |
| HuffmanArchive.NoTree | src/Compression/HuffmanTree.java:281-293 | there is no tree if and only if the input is empty |
| HuffmanArchive.LayoutParts | src/Compression/HuffmanTree.java:181-199 | where the decoder finds the size, the leaf number, the records and the body |
| HuffmanArchive.RecordsRead | src/Compression/HuffmanTree.java:194-199 | reading k records sets the counts of the recorded bytes and nothing else |
| HuffmanArchive.CountsFromRecords | src/Compression/HuffmanTree.java:194-199 | records that carry every positive count read back as the counts |
| HuffmanArchive.SameCounts | src/Compression/HuffmanTree.java:188-200 | the decoder reads back the encoder's counts and rebuilds the same tree |
| HuffmanArchive.DecodeLayout | src/Compression/HuffmanTree.java:200-228 | the decoder walks the rebuilt tree over what follows the records it read |
| HuffmanArchive.RoundTrip | src/Compression/HuffmanTree.java:62-239 | the archive of a non-empty input decodes to the input |
| HuffmanArchive.CompressThenDecompress | src/Compression/HuffmanTree.java:62-239 | compress, then decompress, in one session, gives back the input, and both sides use the same tree |
| HuffmanArchive.RecordCountOf | src/Compression/HuffmanTree.java:83-85 | the leaf number written is the number of leaves in the heap |
| HuffmanArchive.SingleRoundTrip | src/Compression/HuffmanTree.java:258-265 | with one distinct byte, decoding from the dummy record's zero bytes still gives the input |
| HuffmanArchive.DummyRecord | src/Compression/HuffmanTree.java:260 | the dummy's record is five zero bytes |
| HuffmanArchive.DecodeTwoLeaves | src/Compression/HuffmanTree.java:206-228 | a root over two leaves decodes every symbol to the left byte when both bytes agree or every bit is 0 |
| HuffmanDraft.DraftTree.constructor | src/Huffman/HuffmanTree.java:38-41 | no name, no tree, no leaves |
| HuffmanDraft.DraftTree.SetFileName | src/Huffman/HuffmanTree.java:47-49 | only the file name changes |
| HuffmanDraft.DraftTree.CreateHuffmanTree | src/Huffman/HuffmanTree.java:54-94 | without a name nothing changes; otherwise the root is the draft construction over the counts and `nodeNum` is the leaf count |
| HuffmanDraft.DraftTree.CompressFile | src/Huffman/HuffmanTree.java:100-102 | returns 0 |
| HuffmanDraft.DraftNoTree | src/Huffman/HuffmanTree.java:80-88 | the draft builds no tree if and only if the input is empty |
| HuffmanDraft.DraftSingleLeaf | src/Huffman/HuffmanTree.java:77-88 | a file of one repeated byte gets that byte's leaf, weighing the length, as its root |
| HuffmanDraft.AtMostOneLeaf | src/Huffman/HuffmanTree.java:71-76 | counts with at most one positive entry give at most that one leaf |
| HuffmanDraft.DraftAgainstCodec | src/Huffman/HuffmanTree.java:80-88 | the draft and the codec agree except that the codec wraps a single leaf with the dummy leaf |
| ArithCoder.LowIndex | src/Compression/ArithCoder.java:315-328 | the reference answer: the largest index whose entry is at most acc, or -1 |
| ArithCoder.SearchRange | src/Compression/ArithCoder.java:315-328 | the result brackets acc for any array; on a sorted array it is the largest index whose entry is at most acc |
| ArithCoder.Bracketed | src/Compression/ArithCoder.java:318-327 | on a sorted array, a bracketing index is the reference answer |
| ArithCoder.InitialDistribution | src/Compression/ArithCoder.java:65-68 | entry i of the initial distribution is i/256 |
| ArithCoder.UniformSorted | src/Compression/ArithCoder.java:65-68 | the initial distribution is sorted |
| ArithCoder.UniformInterval | src/Compression/ArithCoder.java:213-215 | against the initial distribution, acc in [0, 1) selects the byte whose interval holds it |
| ArithCoder.WriteBits | src/Compression/ArithCoder.java:94-105 | the batches, then the trailing bits, are packed LSB first, with a final byte always written |
| ArithCoder.ReadBits | src/Compression/ArithCoder.java:249-260 | the reader returns bit k of the stream as its k-th bit and counts one more byte read per 8 bits |
| ArithCoder.ReadBack | src/Compression/ArithCoder.java:145-149 | the reader gets the packed bits, then zero padding to the byte end, then ones past the end |
| ArithCoder.Compress | src/Compression/ArithCoder.java:38-164 | refused outside Compress mode; otherwise writes the size and the packed bits, returns the incoming `compressedSize` plus the body size, switches to Decompress and records that over the input size |
| ArithCoder.Decompress | src/Compression/ArithCoder.java:171-189 | refused outside Decompress mode; otherwise returns the header size, sets `compressedSize` to the archive length and keeps the mode |
| ArithCoder.ReusedSession | src/Compression/ArithCoder.java:99-163 | a session that decompresses and then compresses again returns the old archive's length plus the new body's |
| ArithCoder.ArchiveReadBack | src/Compression/ArithCoder.java:52-54 | the decoder reads back the size and every emitted bit |

## Left out

- File and stream I/O and console output: the model takes the file contents
  as a byte sequence and returns what would be written. `fileName`, `zipFileName`,
  `fileSize` and `compressedSize` are parameters or results, not fields.
- `IOException` handling and `System.exit` are not modelled.
- `compressRate` is a Java `double`; the model stores a real.
- AbstractCompressor's fields and constructor `(pathName, ext)` are not in its source
  file. Codecs hold a `Compressor` session instead of inheriting from it.
- DictLzw.Compress: a division by a zero file size, which gives a NaN or infinite rate
  in Java, is modelled as leaving the rate unchanged.
- DictLzw.Decompress: the same, for a recorded size of 0.
- HuffmanArchive.HuffmanCodec.Compress: the same, for an empty input. The 12 header
  bytes written before the null root fails are not part of the returned archive, which
  is empty.
- HuffmanArchive.HuffmanCodec.Decompress: the same, for a recorded size of 0. A decode
  loop that can never end (a size of 2^31 or more against an `int` counter) is
  `Err(NeverEnds)`, and a null tree is `Err(NullRoot)`.
- ArithCoder.Compress: the same, for an empty input.
- ArithCoder.Decompress: the same, for a recorded size of 0.
- Inputs of 2^31 bytes or more are excluded by a precondition wherever an encoder's
  `int` loop counter or codes would overflow. This applies to the LZW encoder (below
  2^31 - 256 bytes, so every code fits an `int`), the Huffman encoder and the arithmetic
  encoder. The decoders take any archive.
- DictLzw.DecodeBody: when a phrase carries the `int` byte counter past 2^31 - 1 under
  a recorded size below 2^31, Java's counter wraps negative and the loop reads on. The
  model stops there with `Err(CounterWraps)` and does not follow the wrapped loop.
  A recorded size of 2^31 or more is `Err(NeverEnds)` unless the first code already
  fails.
- DictLzw.Decompress: the same as `DictLzw.DecodeBody`. An encoder's archive never
  reaches either case.
- DictLzw.Step: the table holds bytes. Java stores each entry as a `String` and reads it
  back with `getBytes()` in the platform charset, which changes bytes of 0x80 or more.
  `DictLzw.Decompress` and the LZW round trip use the byte-level table, which is what
  the encoder's codes intend. `DictLzw.StepAsWritten` models the `String` table for
  ISO-8859-1 only. Under UTF-8 the previous phrase's own high bytes change too, and
  that is not modelled.
- HuffmanBuild.BuildTree: weights are unbounded. Java adds counts as `int` and
  `compareTo` subtracts them, so counts summing to 2^31 or more wrap the weights and
  the order of the polls. An encoder's counts sum to the input length, below 2^31.
- HuffmanArchive.HuffmanCodec.Decompress: rebuilds its tree with
  `HuffmanBuild.BuildTree`. Archive counts summing to 2^31 or more therefore decode
  with a different tree in Java than in the model.
- The priority queue's order among trees of equal count is not specified by Java. The
  model polls the earliest of them.
- The arithmetic coder's interval arithmetic is not modelled. This covers:
  - `checkBitsToWrite`;
  - the rescaling of `distri` after each symbol;
  - the `acc`/`exp` decoding;
  - the trailing midpoint bits;
  - `PrecisionException`.

  It is IEEE floating point with `Math.pow`. The encoder therefore takes the bits it
  emits as parameters (one batch per byte, plus the trailing bits). `decompress` is
  modelled up to its decoding loop, whose bit reader is `ArithCoder.ReadBits`.
- ArithCoder.SearchRange: `end + start` could overflow an `int` for arrays longer than
  2^30. The model does not bound it, because the coder's arrays have 256 entries.
- DicLZW.java is not part of this model. Neither are the unused copies of
  `checkBitsToWrite` and `searchRange` at src/Compression/DictLZW.java:230-272.
- The draft's unused `fileSize` field is not modelled.
- That every internal node has two children holds by construction of the `Tree`
  datatype.

## Findings

| source | as written | input that shows it | evidently intended | confidence | as-written member | corrected member |
|---|---|---|---|---|---|---|
| src/Compression/DictLZW.java:199-208 | the decoder stores each table entry as a `String` built with `(char)entry[0]` and reads it back with `getBytes()`, so a byte of 0x80 or more comes back changed | input 41 80 41 80, codes 65, -128, 256: under ISO-8859-1 the output is 41 80 41 3F | the table holds the bytes of the phrases, so decoding inverts encoding | high, not executed | DictLzw.StringTableCorrupts | DictLzw.ArchiveRoundTrip |
