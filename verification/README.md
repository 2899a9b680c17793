# Verified model of the Snappy codec, the handle lifecycle and the posting lists of erlang-rocksdb

This project models three parts of the repository in Dafny and proves what they are for.

* **Snappy** (`deps/snappy`). `SnappyFormat.Decode` gives compressed bytes a byte-at-a-time meaning. Everything
  else is the real machinery over arrays and mutable cursors, proved against that meaning: the varint preamble and its two
  readers, block-wise overlapping copies, emitters with over-long stores, both match finders with arbitrary hash
  functions, the fast decode loop with deferred copies, the decoder that stitches tags across source fragments with 32-bit
  counts, and the flat, scattered and validating writers. `SnappyCodec.RoundTrip` puts them together.
* **Handles** (`c_src/refobjects.*`). `HandleProtocol` is a step system for one database object and any number of
  children (iterators, column families, snapshots, log iterators, transactions); `HandleRuns` follows whole runs of it; `HandleUncounted` adds uncounted
  pointers; `HandleAwait` is the wait for a destructor; `HandleShutdown` is `DbObject::Shutdown` as an object with mutable lists.
* **Posting lists** (`c_src/posting_list_*`). `PostingFormat` gives both binary formats a meaning as a map of key
  states; `PostingLaws` has the algebra of merging; `PostingMerge` and `PostingQuery` hold the byte loops.

`dafny verify dfyconfig.toml` checks the whole project.

## Modelling decisions

* A hash is any function `nat -> nat`, reduced to the table size; nothing depends on which one.
* A `Source` holds the bytes not yet skipped. Either it is one flat piece, as `ByteArraySource`, or its `Peek` returns any
  non-empty prefix below 2^32 bytes, so each statement about a reader covers every such fragmentation.
* The decompressor keeps `peeked_`, `nbuf` and `to_add` in 32 bits (`deps/snappy/snappy.cc:1501`, `:1728`, `:1741`), and so does the model.
  `SnappyFlat.Code` is what then comes of a flat piece. Where the stitching loop comes back to the state it was in, the model stops
  and answers `Never`.
* `Compress` writes into the buffer that the sink lends, or through a scratch buffer for a sink that lends none.
* The functions templated over a real buffer and over a bare size share one method; a null `buf` stands for the latter.
  Writers own the output cursor that the decompressor keeps in a local and copies back.
* `safe` is the uninitialised 64-byte scratch of the fast loop; results hold for any contents.
* Blocks the scattered writer has completed are held by value, since they are never written again. The two halves of
  the level 2 hash table are two arrays.
* The match finder's inline emission of a literal of at most 16 bytes (`deps/snappy/snappy.cc:853-857`) writes the same bytes as
  `EmitLiteral`, so both exits of step 1 go through `SnappyTable.EmitBefore`.
* `x ^ y` followed by a count of trailing zeros is `LowestDifferingBit(x, y)`.
* In `HandleProtocol`, testing the close flag and taking a counted reference (`c_src/refobjects.cc:215-236` with
  `c_src/util.cc:100-111`) is one atomic step; this is an assumption. Decrementing a count and the compare-and-swap that follows are two
  steps; counting a new child at the database, registering it and taking its own reference are three. A child may be created by a
  call that holds the database, or another child of it (`c_src/transaction.cc:498`). `early` is a history field.
* A posting-list operand is `Add`, `Del` or `Raw`; the bitmap is a hash function and a serialisation of a set of hashes.

## What the code does that its documentation does not say

* Uncompressing one flat piece whose body has 2^32 bytes or more never succeeds and, if the piece means something, never returns. Its size
  is kept in 32 bits, so at its end a multiple of 2^32 bytes is left unread; the stitching of the next tag takes the 32-bit minimum of that and
  the bytes it needs (`deps/snappy/snappy.cc:1741`), which is zero, for ever. The round trip therefore hangs from 2^32 - 196600 incompressible bytes on.
  `SnappySound.FlatExact` has the exact condition, `SnappyIncompressible.LongestRoundTripHangs` an input. A caller is safe if
  `MaxCompressedLength` is below 2^32, that is, below about 3.68 * 10^9 bytes of input.
* `CreateColumnFamilyWithTtl` holds the database by an uncounted pointer. A close in between can delete it under the new column family
  (`HandleUncounted.StrayHappens`), exactly if the count was zero when the family was created (`HandleUncounted.SafeUnlessStray`, `HandleUncounted.StrayIsUnsafe`).
* `binary_search_v2_keys` adds four to the bitmap size in 32 bits. From 0xFFFFFFFC on the sum wraps and keys are found that
  the parsers do not see (`PostingQuery.SearchAgrees`, `PostingQuery.WrappedSearchFinds`).
* A literal whose four length bytes are all 0xFF means 2^32 bytes in `format_description.txt`, but the decoder adds one in 32 bits and
  produces nothing (`SnappyFormat.LiteralLengthWraps`). The model follows the code.
* `SnappyScatteredWriter::SlowAppend` counts the current block twice when it fails, so the size reported after a
  failure is too large whenever there was a block (`SnappyScattered.ScatteredWriter.SlowAppend`,
  `SnappyScattered.OvercountAfterFailure`). Success and output are not affected.
* `PartialMergeMulti` forgets deletes. It agrees with merging the operands directly if and only if the group deletes no
  key that was active before it (`PostingLaws.PartialMergeAgrees`); `PostingLaws.PartialMergeResurrects` is a
  concrete run in which a deleted key comes back.
* A V1 list whose first key is at least 32 MiB and less than 48 MiB long is taken for V2 (`PostingMerge.EntryV1Version`).
* A child registers with its database before its creator takes the reference that close gives back. A shutdown in
  that window leaks the child and the database: the run exists (`HandleProtocol.EarlyCloseHappens`), it is final
  (`HandleProtocol.EarlyCloseLeaks`, `HandleAwait.LeakIsAwaitedForever`), and it is the only exception (`HandleProtocol.DestroyedExactly`, `HandleRuns.CleanupExactly`).

## Model

| member | source | states |
|---|---|---|
| `SnappyCodec.RoundTrip` | deps/snappy/snappy.cc:2235-2353 | for every input of n < 2^32 bytes, level 1 or 2, any hash functions and all three writers: from fragments the compressed string uncompresses to the input; from one flat piece it does if and only if the compressed body is below 2^32 bytes, certainly if 7 n + 35 < 6 * 2^32, and otherwise the call never returns |
| `SnappyIncompressible.LongestRoundTripHangs` | deps/snappy/snappy.cc:1737-1745 | 2^32 - 1 bytes without repetitions compress to a body of 2^32 + 196607 bytes, on which no writer ever returns |
| `SnappyIncompressible.IncompressibleRoundTrip` | deps/snappy/snappy.cc:1737-1745 | for an input of any size without repetitions the round trip succeeds if and only if one literal per block stays below 2^32 bytes |
| `SnappyIncompressible.LongestSize` | deps/snappy/snappy.cc:613-663 | that is so up to 2^32 - 196601 bytes of input |
| `SnappyIncompressible.PatternIncompressible` | deps/snappy/snappy.cc:790-957 | in that input no four bytes occur twice within a block |
| `SnappyCodec.CompressString` | deps/snappy/snappy.cc:2343-2353 | the result means the input and has at most 32 + n + n/6 bytes, in fact at most (7 n + 35) / 6; without repetitions it is one literal per block |
| `SnappyCodec.Uncompress` | deps/snappy/snappy.cc:2235-2249 | yes, with the meaning, exactly if the byte string means something and its body is below 2^32 bytes; with a body from 2^32 bytes on never success, and no return if it means something; always an answer below that |
| `SnappyCodec.UncompressToSink` | deps/snappy/snappy.cc:2615-2643 | the same from any source, whether the sink lends a flat buffer or not; from fragments below 2^32 bytes always what the format says |
| `SnappyCodec.IsValidCompressed` | deps/snappy/snappy.cc:2294-2303 | the same answers as uncompressing, from the validator |
| `SnappyFormat.DecodeAppend` | deps/snappy/format_description.txt:28-44 | decoding a concatenation decodes the parts in turn |
| `SnappyFormat.DecodePrefix` | deps/snappy/snappy.cc:1799-1874 | a block that decodes on its own decodes to the same bytes after any other output |
| `SnappyFormat.DecodeExtends` | deps/snappy/format_description.txt:28-44 | decoding only appends |
| `SnappyFormat.OverlapSplit` | deps/snappy/format_description.txt:62-86 | two copies at one offset are one longer copy |
| `SnappyFormat.OverlapIsPeriodic` | deps/snappy/format_description.txt:62-86 | the overlapping copy is the only extension in which each new byte equals the one `offset` back |
| `SnappyFormat.OutcomeOverflow` | deps/snappy/snappy.cc:2173-2216 | output past the announced length never leads to success |
| `SnappyFormat.LiteralLengthWraps` | deps/snappy/snappy.cc:1623-1630 | a long literal has the announced length if and only if its length field is not 0xFFFFFFFF; then it is empty |
| `SnappyFormat.ShortLiteralLayout` | deps/snappy/format_description.txt:52-54 | the tag byte of a literal of up to 60 bytes |
| `SnappyFormat.LongLiteralLayout` | deps/snappy/format_description.txt:55-59 | tag and length bytes of a longer literal |
| `SnappyFormat.Copy1Layout` | deps/snappy/format_description.txt:89-95 | the two bytes of a copy with a one-byte offset |
| `SnappyFormat.Copy2Layout` | deps/snappy/format_description.txt:98-103 | the three bytes of a copy with a two-byte offset |
| `SnappyFormat.Copy4Layout` | deps/snappy/format_description.txt:106-110 | the five bytes of a copy with a four-byte offset |
| `SnappyFormat.DecodeExample` | deps/snappy/format_description.txt:73-77 | the "xababab" of the description, in bytes |
| `SnappyFlat.CodeDecode` | deps/snappy/snappy.cc:1562-1680 | whole elements in the buffer are decoded as the format says, whatever was miscounted |
| `SnappyFlat.RefillExact` | deps/snappy/snappy.cc:1702-1762 | what the tag stitching does with the number of bytes it believes to have, for a buffered rest, a new fragment below 2^32 bytes and a flat one of any size, the endless loop included |
| `SnappyFlat.LiteralFetch` | deps/snappy/snappy.cc:1632-1646 | a literal that goes on in the next fragment |
| `SnappySound.CodeSmall` | deps/snappy/snappy.cc:1493-1762 | with less than 2^32 bytes to come the fate is what the rest of the stream means |
| `SnappySound.NeverAccepted` | deps/snappy/snappy.cc:1702-1762 | with 2^32 bytes or more to come there is no success, whatever is buffered and produced |
| `SnappySound.LongHangs` | deps/snappy/snappy.cc:1737-1745 | a flat piece of 2^32 bytes or more that means something is decoded to its end and then stitched without end |
| `SnappySound.FlatExact` | deps/snappy/snappy.cc:1493-1762 | one flat piece below 2^32 bytes is received exactly as it is meant; from there on it is never accepted, and if it means something the decompressor hangs |
| `SnappyVarint.ParseVarint` | deps/snappy/snappy-stubs-internal.h:455-503 | round trip of the varint, whatever follows it, in at most five bytes |
| `SnappyVarint.VarintBytes` | deps/snappy/format_description.txt:18-25 | byte i holds the i-th group of seven bits, and the upper bit is set if and only if more bytes follow |
| `SnappyVarint.VarintSize` | deps/snappy/snappy-stubs-internal.h:477-503 | as few bytes as the number needs |
| `SnappyVarint.VarintExamples` | deps/snappy/format_description.txt:22-25 | 64 and 2097150 as the description writes them |
| `SnappyVarint.ParseExact` | deps/snappy/snappy-stubs-internal.h:455-475 | exactly the strings of at most four marked bytes and a last one are read, a fifth byte below 16 only, as the sum of their groups of seven bits |
| `SnappyVarint.Encode32` | deps/snappy/snappy-stubs-internal.h:477-503 | the five unrolled cases give the varint |
| `SnappyVarint.Parse32WithLimit` | deps/snappy/snappy-stubs-internal.h:455-475 | value, length and rejection on every byte string are those of the recursive reader |
| `SnappyVarint.ReadUncompressedLength` | deps/snappy/snappy.cc:1532-1553 | the fragment-wise reader accepts the same strings as the flat one, with the same value, and consumes exactly the preamble |
| `SnappyVarint.OverflowOnlyInLastByte` | deps/snappy/snappy.cc:1206-1214 | the shift test fires exactly on a fifth byte of 16 or more |
| `SnappyCopy.ExtendFilled` | deps/snappy/snappy.cc:393-418 | a block move from a whole number of periods back keeps the period |
| `SnappyCopy.IncrementalCopySlow` | deps/snappy/snappy.cc:258-270 | the byte loop fills the region with the period and stays below the limit |
| `SnappyCopy.Copy64BytesWithPatternExtension` | deps/snappy/snappy.cc:393-418 | 64 bytes of the overlapping copy for every offset, nothing else changed, refusal exactly for offset 0 |
| `SnappyCopy.ExpandPattern` | deps/snappy/snappy.cc:546-557 | after doubling, the source is a whole number of periods and at least 8 bytes back; eleven bytes of room suffice |
| `SnappyCopy.IncrementalCopy` | deps/snappy/snappy.cc:423-608 | exactly the overlapping copy, for every offset and lengths to 64, and no store at or past the limit |
| `SnappyEmit.LengthBytesFit` | deps/snappy/snappy.cc:638-648 | the logarithm gives the least number of length bytes |
| `SnappyEmit.LiteralHeaderBytes` | deps/snappy/snappy.cc:613-663 | the header of a literal, byte by byte |
| `SnappyEmit.DecodeLiteral` | deps/snappy/snappy.cc:613-663 | a literal element decodes to its bytes |
| `SnappyEmit.DecodeCopy` | deps/snappy/snappy.cc:666-692 | a copy element decodes to the overlapping copy |
| `SnappyEmit.CopyCodeBytes` | deps/snappy/snappy.cc:666-692 | the bytes of a copy element: two for a short match close by, otherwise three |
| `SnappyEmit.DecodeCopies` | deps/snappy/snappy.cc:695-723 | splitting a long match into 64- and 60-byte copies keeps its meaning |
| `SnappyEmit.CopyCodesExact` | deps/snappy/snappy.cc:695-723 | the exact number of bytes for a match of any length |
| `SnappyEmit.CopyCodesSize` | deps/snappy/snappy.cc:196-218 | the copies for a match cost at most 7/6 of it less ten sixths |
| `SnappyEmit.EmitLiteral` | deps/snappy/snappy.cc:613-663 | appends the literal element to the bytes before the cursor, on the fast and the slow path |
| `SnappyEmit.EmitCopyAtMost64` | deps/snappy/snappy.cc:666-692 | appends the copy element although four bytes are stored |
| `SnappyEmit.EmitCopy` | deps/snappy/snappy.cc:695-723 | appends the copy elements for a match of any length |
| `SnappyMatch.FirstDifferingByte` | deps/snappy/snappy-internal.h:232-234 | the lowest differing bit of two words lies in their first differing byte |
| `SnappyMatch.Mismatch8` | deps/snappy/snappy-internal.h:232-255 | exact number of equal bytes, and the next five input bytes without loading from the match end |
| `SnappyMatch.FindMatchLength` | deps/snappy/snappy-internal.h:178-306 | the longest match within the input, whether it is below eight, and the five bytes after it |
| `SnappyMatch.FindMatchLengthPlain` | deps/snappy/snappy-internal.h:337-361 | the longest match within the input |
| `SnappyTable.MatchIsOverlap` | deps/snappy/snappy.cc:790-957 | a real earlier match, overlapping itself or not, is what the copy reproduces |
| `SnappyTable.Exchange` | deps/snappy/snappy.cc:148-194 | one slot read and replaced, whatever the hash; entries stay before the bound |
| `SnappyTable.EmitBefore` | deps/snappy/snappy.cc:889-893 | the output decodes to the input up to the match, and its size stays within the budget |
| `SnappyTable.EmitMatch` | deps/snappy/snappy.cc:904-918 | the output decodes to the input up to the end of the match, and its size stays within the budget |
| `SnappyTable.EmitRemainder` | deps/snappy/snappy.cc:950-956 | the whole block decodes, in at most 7/6 of its size from six bytes on |
| `SnappyTable.MaxCompressedLengthValue` | deps/snappy/snappy.cc:196-218 | 32 + n + n/6, as bounds in numbers and at 600 |
| `SnappyTable.UniformSizeBound` | deps/snappy/snappy.cc:695-723 | the size of a block of n equal bytes is at most (3 n + 400) / 64 |
| `SnappyCompress1.Probe16` | deps/snappy/snappy.cc:837-862 | the unrolled probe finds only real earlier matches; without one the carried word is the next eight bytes |
| `SnappyCompress1.Scan` | deps/snappy/snappy.cc:866-887 | the skipping scan finds only real earlier matches, with all table entries behind the cursor |
| `SnappyCompress1.CarriedWord` | deps/snappy/snappy.cc:903-946 | the low five bytes carried out of the match finder give the next word and the next preload |
| `SnappyCompress1.EmitMatches` | deps/snappy/snappy.cc:903-946 | the copy loop keeps meaning and size, and when it goes on the preload is the word at ip + 1 |
| `SnappyCompress1.CompressFragment` | deps/snappy/snappy.cc:790-957 | for any hash what is written decodes to the block and has at most 7/6 of its size; without repetitions it is one literal, and for equal bytes one literal byte and one match |
| `SnappyCompress2.TryNext` | deps/snappy/snappy.cc:1011-1026 | the chosen match is real, longest for its candidate, and no shorter than any with either candidate; the table changes exactly if the second is taken |
| `SnappyCompress2.Backtrack` | deps/snappy/snappy.cc:1031-1037 | the match end stays, the match stays real, and it cannot be extended further back |
| `SnappyCompress2.RecordAhead` | deps/snappy/snappy.cc:1038-1043 | exactly three entries are written; positions ahead of the cursor lie inside the match, so they are behind the cursor at the next lookup |
| `SnappyCompress2.EmitMatches2` | deps/snappy/snappy.cc:1060-1115 | the copy loop keeps meaning, size and the bound on both tables |
| `SnappyCompress2.CompressFragmentDoubleHash` | deps/snappy/snappy.cc:959-1125 | for any two hashes what is written decodes to the block and has at most 7/6 of its size; without repetitions it is one literal, and for equal bytes one literal byte and one match |
| `SnappyStream.StreamOf` | deps/snappy/format_description.txt:18-25 | preamble and body together mean the data |
| `SnappyStream.UncompressedExamples` | deps/snappy/format_description.txt:18-25 | three small streams: one that means a byte, one that announces too much, and the example of the description |
| `SnappyStream.AppendBlock` | deps/snappy/snappy.cc:1799-1874 | blocks compressed separately may be concatenated |
| `SnappyStream.NextBlock` | deps/snappy/snappy.cc:1812-1841 | a block is the next bytes of the source however these are fragmented |
| `SnappyStream.CalculateTableSize` | deps/snappy/snappy.cc:737-750 | a power of two from 2^8 to 2^15, no smaller than the fragment where that is possible and less than twice as large |
| `SnappyStream.CompressBlock` | deps/snappy/snappy.cc:1843-1866 | either level, with a fresh table, encodes the block within 7/6 of its size and leaves what is before it alone |
| `SnappyStream.EmitBlock` | deps/snappy/snappy-sinksource.cc:82-96 | the same straight into the buffer a sink lends, with all speculative stores inside it, or through a scratch buffer |
| `SnappyStream.Compress` | deps/snappy/snappy.cc:1799-1874 | any number of blocks, any fragmentation, any sink: the stream means the input, has at most (7 n + 35) / 6 bytes, no store leaves a buffer of 32 + n + n/6, and the source is consumed |
| `SnappyBranchless.CopyFields` | deps/snappy/snappy.cc:1416-1429 | the folded length-minus-offset subtraction gives exactly the fields of a copy tag |
| `SnappyBranchless.BranchTaken` | deps/snappy/snappy.cc:1414-1431 | the one comparison sends exactly the long tags and the self-overlapping copies to the first branch, and the top bit of the length tells these apart |
| `SnappyBranchless.MemCopyOutput` | deps/snappy/snappy.cc:1226-1264 | the bytes that matter are copied, nothing before the destination or 64 bytes after it changes |
| `SnappyBranchless.Flush` | deps/snappy/snappy.cc:1226-1276 | performing the deferred copy turns the staged output into the real one, below the limit |
| `SnappyBranchless.PatternCopy` | deps/snappy/snappy.cc:1440-1455 | an overlapping copy is performed exactly, or refused with the output intact |
| `SnappyBranchless.FastTag` | deps/snappy/snappy.cc:1411-1475 | one tag: the staged output is the decode of the tag's bytes, or nothing is consumed, and then the tag is long or a copy from before the output |
| `SnappyBranchless.TwoTags` | deps/snappy/snappy.cc:1405-1477 | two tags without a limit check between them stay within the slop |
| `SnappyBranchless.DecompressBranchless` | deps/snappy/snappy.cc:1379-1490 | stops on a tag boundary with exactly the slow decode of the consumed bytes, only near the end of its input or output or at a tag it must leave, and stores nothing at or past the limit |
| `SnappyWriters.ArrayWriter.Append` | deps/snappy/snappy.cc:2173-2180 | succeeds exactly when the bytes fit, then appends them; memory past the limit is untouched |
| `SnappyWriters.ArrayWriter.TryFastAppend` | deps/snappy/snappy.cc:2182-2194 | a sixteen-byte store appends a short literal and stays below the limit |
| `SnappyWriters.ArrayWriter.AppendFromSelf` | deps/snappy/snappy.cc:2197-2216 | succeeds exactly for a legal offset within the limit, with the overlapping copy; memory past the limit is untouched |
| `SnappyWriters.ArrayWriter.RunBranchless` | deps/snappy/snappy.cc:1584-1596 | the fast loop appends the decode of what it consumes and stores nothing past the limit |
| `SnappyWriters.Validator.Append` | deps/snappy/snappy.cc:2267-2273 | same verdict as the flat writer |
| `SnappyWriters.Validator.AppendFromSelf` | deps/snappy/snappy.cc:2284-2290 | same verdict as the flat writer, zero offset included |
| `SnappyWriters.Validator.RunBranchless` | deps/snappy/snappy.cc:2260-2265 | the shifted base and the missing limit still count the decode of what is consumed |
| `SnappyScattered.ScatteredWriter.SlowAppend` | deps/snappy/snappy.cc:2499-2527 | succeeds exactly when the bytes fit, across any number of blocks; the size it reports is right if and only if they fit or there was no block yet |
| `SnappyScattered.OvercountAfterFailure` | deps/snappy/snappy.cc:2499-2527 | a failed append after which two bytes are reported as four |
| `SnappyScattered.ScatteredWriter.Append` | deps/snappy/snappy.cc:2437-2451 | same verdict and output as the flat writer |
| `SnappyScattered.ScatteredWriter.AppendFromSelf` | deps/snappy/snappy.cc:2468-2491 | same verdict and output as the flat writer |
| `SnappyScattered.ScatteredWriter.SlowAppendFromSelf` | deps/snappy/snappy.cc:2530-2559 | copies across blocks are the overlapping copy |
| `SnappyScattered.ScatteredWriter.At` | deps/snappy/snappy.cc:2547-2556 | shift and mask find the right byte, since all blocks but the last have 65536 bytes |
| `SnappyScattered.ScatteredWriter.RunBranchless` | deps/snappy/snappy.cc:1584-1596 | the fast loop inside one block appends to the whole output |
| `SnappyScattered.ScatteredWriter.Flush` | deps/snappy/snappy.cc:2576-2585 | the concatenated blocks are the output |
| `SnappyDecompress.NeededIsTagSize` | deps/snappy/snappy.cc:1683-1687 | the packed table gives the size of every tag |
| `SnappyDecompress.PreloadShift` | deps/snappy/snappy.cc:1657-1672 | the loaded word, shifted past the offset bytes, starts with the next tag |
| `SnappyDecompress.SnappyDecompressor.Stitch` | deps/snappy/snappy.cc:1729-1748 | collects a tag from any number of fragments, each byte once; says exactly when the input ends and when the 32-bit minimum makes the loop endless |
| `SnappyDecompress.SnappyDecompressor.RefillTag` | deps/snappy/snappy.cc:1702-1762 | with 32-bit counts: afterwards the next tag lies in one piece and what is to come is unchanged; otherwise a clean end, a failure where nothing can succeed, or an endless loop |
| `SnappyDecompress.SnappyDecompressor.AppendLiteral` | deps/snappy/snappy.cc:1632-1646 | a literal spanning fragments is appended whole and leaves what is to come behind it, or nothing can succeed |
| `SnappyDecompress.SnappyDecompressor.ProcessCopy` | deps/snappy/snappy.cc:1648-1675 | a copy tag keeps what is to come and makes progress, or stops with the right answer |
| `SnappyDecompress.SnappyDecompressor.ProcessLiteral` | deps/snappy/snappy.cc:1612-1647 | a literal tag keeps what is to come and makes progress, or stops with the right answer |
| `SnappyDecompress.SnappyDecompressor.RunFast` | deps/snappy/snappy.cc:1584-1596 | running the fast loop first does not change what is to come |
| `SnappyDecompress.SnappyDecompressor.DecompressAllTags` | deps/snappy/snappy.cc:1562-1680 | ends with the outcome of all the remaining input in the writer, where the stitching does not loop for ever; only a clean end of input can succeed |
| `SnappyDecompress.InternalUncompressAllTags` | deps/snappy/snappy.cc:1775-1788 | the answer, or its absence, is what is to come; success has that output |
| `SnappyDecompress.InternalUncompress` | deps/snappy/snappy.cc:1765-1773 | for both kinds of source and each writer, the answer and the output are those received; a flat buffer is untouched past the announced length |
| `SnappyDecompress.ReceivedExact` | deps/snappy/snappy.cc:1765-1788 | a stream from fragments below 2^32 bytes, or from one flat piece with a body below that, is received as it is meant; any other is never accepted, and hangs if it means something |
| `HandleProtocol.InvNext` | c_src/refobjects.cc:45-168 | every step keeps counts, flags and destructor stages consistent |
| `HandleProtocol.RunInv` | c_src/refobjects.cc:45-168 | the invariant holds in every state of every run |
| `HandleProtocol.DatabaseOutlivesChildren` | c_src/refobjects.cc:264-275 | in every reachable state the database is deleted only after every child has finished its destructor body |
| `HandleProtocol.FlagsAdvance` | c_src/refobjects.cc:96-168 | on every step each close flag stays or grows by one, and no destructor restarts |
| `HandleProtocol.RunAdvances` | c_src/refobjects.cc:96-168 | the same between any two states of a run, for the database and each child |
| `HandleProtocol.DestructorRunsOnce` | c_src/refobjects.cc:152-168 | a run starts the destructor of a child at most once |
| `HandleProtocol.DbDestructorRunsOnce` | c_src/refobjects.cc:152-168 | and that of the database at most once |
| `HandleProtocol.DestroyedExactly` | c_src/refobjects.cc:83-168 | a count of zero means close was requested; a destructor is due, running or done if and only if close gave back the creator's reference after it was taken and no other reference is left |
| `HandleProtocol.DueDestructorRuns` | c_src/refobjects.cc:152-168 | a run in which a destructor is due goes on to one in which it is done, by the four steps of that destructor alone |
| `HandleProtocol.DueDbDestructorRuns` | c_src/refobjects.cc:152-168 | the same for the database, which is deleted, by three steps |
| `HandleProtocol.NeverStalls` | c_src/refobjects.cc:83-168 | on every run, from the moment a destructor is due, each later state has it done or its next step enabled, and only that step moves it |
| `HandleProtocol.DbNeverStalls` | c_src/refobjects.cc:83-168 | the same for the database |
| `HandleRuns.RefsAreHeld` | c_src/refobjects.cc:45-64 | on every run the references of the database and of each child are the Acquire steps less the Release steps |
| `HandleRuns.HeldIsAlive` | c_src/refobjects.cc:152-168 | while that is positive no destructor is due, and the database is there |
| `HandleRuns.ListedAreAlive` | c_src/refobjects.cc:417-521 | in every reachable state a listed child is registered and has not finished its destructor body |
| `HandleRuns.PoppedOnce` | c_src/refobjects.cc:278-415 | on every run each child is popped at most once and asked to close no more often |
| `HandleRuns.ListedJoined` | c_src/refobjects.cc:417-431 | a listed child has registered, and an iterator only with a database that was not closing |
| `HandleRuns.KindConstructed` | c_src/refobjects.cc:785-806 | a child is of the kind it was constructed as |
| `HandleRuns.ChildCanBeDestroyed` | c_src/refobjects.cc:83-168 | every run goes on to one in which a given child that was not closed early is destroyed, with no other touched |
| `HandleRuns.CleanupExactly` | c_src/refobjects.cc:83-168 | a run can go on to one in which the database and all children are destroyed if and only if no child was closed early |
| `HandleProtocol.EarlyCloseHappens` | c_src/refobjects.cc:785-806 | a run, from a call that holds the database, that closes an iterator between its registration and its first reference |
| `HandleProtocol.EarlyCloseLeaks` | c_src/refobjects.cc:863-901 | after such a close neither the child nor the database is ever destroyed |
| `HandleUncounted.SafeUnlessStray` | c_src/erocksdb_db.cc:3095-3124 | with uncounted pointers added, the database outlives its children in every state before a child is created at a count of zero |
| `HandleUncounted.StrayIsUnsafe` | c_src/erocksdb_db.cc:3095-3124 | each run in which one is goes on to a state in which the database is deleted under it |
| `HandleUncounted.StrayHappens` | c_src/erocksdb_db.cc:3095-3124 | such a run |
| `HandleAwait.InvNext` | c_src/refobjects.cc:83-149 | mutex ownership, flag and sleepers stay consistent, spurious wakeups included |
| `HandleAwait.NoLostWakeup` | c_src/refobjects.cc:83-149 | on every run a waiter returns only with the flag at 3, and none sleeps once the destructor is through |
| `HandleAwait.StepsAreProgress` | c_src/refobjects.cc:120-149 | after the destructor each step of a waiter brings it closer to its return |
| `HandleAwait.SomeoneCanMove` | c_src/refobjects.cc:120-149 | and while a waiter has not returned, such a step is possible |
| `HandleAwait.WaiterCanReturn` | c_src/refobjects.cc:120-149 | every run goes on to one in which a given waiter has returned |
| `HandleAwait.SleeperReturns` | c_src/refobjects.cc:120-149 | one that sleeps before the flag is set, and returns |
| `HandleAwait.LeakIsAwaitedForever` | c_src/refobjects.cc:831-847 | after an early close neither the cleanup of the child nor that of the database ever returns from its wait |
| `HandleShutdown.DbObject.constructor` | c_src/refobjects.cc:194-213 | an open database with one reference and empty lists |
| `HandleShutdown.DbObject.NewChild` | c_src/refobjects.h:129-176 | a child holds one counted reference to the database |
| `HandleShutdown.DbObject.Register` | c_src/refobjects.cc:417-521 | the child joins the list of its kind, except an iterator of a closing database |
| `HandleShutdown.DbObject.RefDec` | c_src/refobjects.cc:152-168 | the database is destroyed exactly when the last reference goes after a close request |
| `HandleShutdown.DbObject.DestroyChild` | c_src/refobjects.cc:881-901 | the destructor leaves its list only and gives its reference back |
| `HandleShutdown.DbObject.CloseChild` | c_src/refobjects.cc:96-118 | a close request takes effect once, destroys the child exactly if its own reference was the last, and touches only its list |
| `HandleShutdown.DbObject.Drain` | c_src/refobjects.cc:278-415 | a drain loop terminates although destructors re-enter the lists, empties its list and closes exactly its children |
| `HandleShutdown.DbObject.Shutdown` | c_src/refobjects.cc:278-415 | terminates, empties all lists, requests close of every registered child and no other, destroys each open one exactly if close gave back its last reference, and destroys the database exactly when no other counted reference remains |
| `HandleShutdown.DbObject.InitiateCloseRequest` | c_src/refobjects.cc:96-118 | only the caller that moves the flag from 0 to 1 shuts down |
| `PostingFormat.LessTotal` | c_src/posting_list_nif.cc:350-413 | the key order is a strict total order |
| `PostingFormat.LessByFirstDifference` | c_src/posting_list_nif.cc:400-406 | one key is before another if and only if it has the smaller byte at the first difference or is a proper prefix |
| `PostingFormat.V1Layout` | c_src/posting_list_merge_operator.cc:253-272 | a V1 entry in bytes: big-endian length, flag, key; a flag of zero is no tombstone |
| `PostingFormat.V2Layout` | c_src/posting_list_merge_operator.cc:220-241 | a V2 value in bytes: marker 2, size and bitmap, number of keys |
| `PostingFormat.KeyLayout` | c_src/posting_list_merge_operator.cc:242-250 | a V2 key in bytes: big-endian length, key |
| `PostingFormat.InOrderSorted` | c_src/posting_list_merge_operator.cc:186-251 | the written keys are strictly ascending, each once |
| `PostingLaws.ApplyActive` | c_src/posting_list_merge_operator.cc:186-251 | dropped tombstones never change what is active later |
| `PostingLaws.ApplyDecides` | c_src/posting_list_merge_operator.cc:307-350 | a key named by the operands takes its state from them alone |
| `PostingLaws.ParseSerialized` | c_src/posting_list_merge_operator.cc:128-251 | parsing what was serialised gives exactly the active keys, in order |
| `PostingLaws.SerializedActive` | c_src/posting_list_merge_operator.cc:128-251 | the active set survives the round trip |
| `PostingLaws.SerializedInjective` | c_src/posting_list_merge_operator.cc:186-251 | different active sets have different bytes |
| `PostingLaws.InOrderUnique` | c_src/posting_list_merge_operator.cc:186-251 | an ascending list is determined by its set, so the serialised form is canonical |
| `PostingLaws.LastOperandDecides` | c_src/posting_list_merge_operator.cc:274-350 | for every base and operand list, the last operand that names a key decides it: Add makes it active, Del does not |
| `PostingLaws.UnnamedKeyKept` | c_src/posting_list_merge_operator.cc:274-305 | a key that no operand names is active if and only if the base lists it |
| `PostingLaws.ActiveByLast` | c_src/posting_list_merge_operator.cc:100-125 | a list of entries means the keys whose last entry is no tombstone |
| `PostingLaws.MergeStores` | c_src/posting_list_merge_operator.cc:274-305 | both, on the keys parsed from the stored value; a V1 base counts by its last entry for the key, a V2 base by its keys |
| `PostingLaws.MergeStoresBitmap` | c_src/posting_list_merge_operator.cc:203-226 | the bitmap field of the stored value holds exactly the hashes of its keys |
| `PostingLaws.MergeSplits` | c_src/posting_list_merge_operator.cc:274-305 | merging in two steps is byte-identical to merging in one |
| `PostingLaws.PartialMergeAgrees` | c_src/posting_list_merge_operator.cc:352-385 | a partial merge keeps the active set if and only if the group deletes no key active before it |
| `PostingLaws.PartialMergeTransparent` | c_src/posting_list_merge_operator.cc:352-385 | the same on the stored bytes, with any base and any operands before the group |
| `PostingLaws.PartialMergeWithoutBase` | c_src/posting_list_merge_operator.cc:352-385 | with no earlier value the bytes always agree |
| `PostingLaws.PartialMergeResurrects` | c_src/posting_list_merge_operator.cc:352-385 | a deleted key that comes back |
| `PostingMerge.ParseV1Value` | c_src/posting_list_merge_operator.cc:100-125 | the loop applies the entries in order, up to a truncated one |
| `PostingMerge.ParseV2Value` | c_src/posting_list_merge_operator.cc:128-173 | the loop makes every readable key active, on any bytes |
| `PostingMerge.ParseExistingValue` | c_src/posting_list_merge_operator.cc:175-184 | either format |
| `PostingMerge.SerializeKeys` | c_src/posting_list_nif.cc:268-322 | writes the canonical form of a key set |
| `PostingMerge.SerializeV2` | c_src/posting_list_merge_operator.cc:186-251 | writes the canonical form of the active keys |
| `PostingMerge.ReadEntryV1` | c_src/posting_list_merge_operator.cc:253-272 | a written V1 entry reads back, whatever follows |
| `PostingMerge.EntryV1Version` | c_src/posting_list_merge_operator.cc:80-97 | a V1 list is recognised if and only if its first key length does not start with the V2 marker |
| `PostingMerge.FullMergeV2` | c_src/posting_list_merge_operator.cc:274-305 | the stored value is the canonical form of the merged active set |
| `PostingMerge.PartialMergeMulti` | c_src/posting_list_merge_operator.cc:352-385 | declines fewer than two operands, otherwise stores the group's active set |
| `PostingQuery.ParsePostingListV1` | c_src/posting_list_nif.cc:131-163 | the active keys of a V1 list |
| `PostingQuery.ParsePostingListV2` | c_src/posting_list_nif.cc:167-214 | the readable keys of a V2 list, truncated or not |
| `PostingQuery.CompareIsOrder` | c_src/posting_list_nif.cc:400-406 | comparing the common prefix, then the lengths, is the key order |
| `PostingQuery.SearchKeys` | c_src/posting_list_nif.cc:393-412 | the loop is the recursive halving search |
| `PostingQuery.SearchFinds` | c_src/posting_list_nif.cc:393-412 | on any keys a positive answer is right, and the middle key is found |
| `PostingQuery.SearchComplete` | c_src/posting_list_nif.cc:393-412 | on ascending keys nothing is missed |
| `PostingQuery.UnsortedMissed` | c_src/posting_list_nif.cc:393-412 | two keys in the wrong order, of which one is missed |
| `PostingQuery.SearchAgrees` | c_src/posting_list_nif.cc:359-391 | with ascending parsed keys the search agrees with the parser on every key if the bitmap size field is below 0xFFFFFFFC; above, with no parsed keys, exactly if no complete record lies at the wrapped cursor; and wherever the indexed keys ascend, exactly if the two lists are equal |
| `PostingQuery.WrappedSearchFinds` | c_src/posting_list_nif.cc:361-365 | a value of ten bytes without keys in which a key is found |
| `PostingQuery.BinarySearchV2Keys` | c_src/posting_list_nif.cc:350-413 | any V2 bytes, truncated or not: the answer is the halving search on the indexed keys and, if the size field does not wrap and the keys ascend, membership in the parsed set |
| `PostingQuery.PostingListContains` | c_src/posting_list_nif.cc:416-441 | for V1 values whether the last entry for the key is no tombstone, for V2 values with ascending keys whose size field does not wrap whether it is among the keys |
| `PostingQuery.QueryAfterMerge` | c_src/posting_list_nif.cc:416-441 | whatever the merge stored, the query answers with the last operation on the key, unless the bitmap takes 2^32 - 4 bytes or more |

## Left out

- SIMD, inline-assembly, CRC-hash and prefetch variants in Snappy: the portable branches are modelled, with an arbitrary hash.
- `SnappyIOVecReader`, `SnappyIOVecWriter`, the C wrapper, tests, fuzzers and benchmarks.
- The portable bit-scan loops: `Log2Floor` and the count of trailing zeros are modelled by their definitions.
- The `max_size` test of `Uncompress`, and `UncompressAsMuchAsPossible`, whose result after a failure is the size discussed above.
- A source with fragments of 2^32 bytes or more that is not one flat piece.
- SnappyCodec.Uncompress: a flat body of 2^32 bytes or more that means nothing is not accepted; whether it is rejected or hangs is left open, since writers that notice too much output at different times differ there.
- SnappyCodec.UncompressToSink: what is left in the sink after a failure is not stated.
- SnappyCodec.CompressString: inputs of 2^32 bytes and more, whose length does not fit the preamble, are not covered.
- SnappyCompress1.CompressFragment: how many matches are found is stated for equal bytes and for no repetitions only, since otherwise it depends on the hash.
- PostingLaws.MergeSplits: key lengths, key count and bitmap size below 2^32, the width of their fields.
- PostingLaws.PartialMergeTransparent: the same width limits.
- PostingQuery.SearchAgrees: a size field of 0xFFFFFFFC or more in a value that does hold such a bitmap and parsed keys is decided only where the indexed keys ascend; the failure of a reservation for 2^32 keys is not modelled.
- HandleShutdown.DbObject.Shutdown: registration by other threads during the drain loops is not covered here; `HandleProtocol` covers it as interleaved steps.
- Allocation, deallocation of mutex and condition variable, memory-model effects finer than atomic steps, and counts beyond 32 bits.
- `BackupEngineObject`, which has no parent, and all other NIF entry points, option parsers, merge operators and the compaction filter.
- CRoaring internals, the 64-bit key hash and the decoding of Erlang terms.
