# A verified model of qio's codecs and column pipeline

qio reads and writes Parquet files for R. This project models, in Dafny, the parts of it that are
easiest to get subtly wrong, and proves what they promise for all inputs, all runs and all schedules.

* **Snappy** (`SnappyFormat`, `SnappyCopy`, `SnappyDecoder`, `SnappyEncoder`, `SnappyCompressor`). The
  format is given twice: as legal elements with a meaning, and as a simple reference decoder. The
  decoder with its table, its shuffles and its overshooting copies equals the reference on every
  input. The compressor stays within its bound and its output decodes to the input.
* **LZ4** (`Lz4Format`, `Lz4Rules`, `Lz4Plain`, `Lz4Copy`, `Lz4Decoder`, `Lz4Encoder`, `Lz4Compressor`). A reference
  decoder is given with and without the rules about the end of a block: the last 5 bytes are literals, and
  the last match starts at least 12 bytes before the end. The fast and the safe loop are sound for
  the reference decoder and complete for blocks that obey the rules; the compressor produces only such
  blocks. `Lz4Rules` says in numbers which blocks the rules admit, and `Lz4Plain` relates the reference
  decoder to the simple decoder that the library keeps.
* **Kernels** (`Utf8`, `BitUnpack`). The word-at-a-time validator equals the reference validator, and
  both equal the grammar of section 4 of RFC 3629. The accumulator unpacker equals the bit-by-bit one.
* **Columns** (`Levels`, `Columns`, `StringCache`, `Dictionary`, `Frame`, `Collect`, `Table`). Dense values
  with definition levels, the bitmap path, 64-bit placement, the address cache in front of interning, the
  dictionary path with its fallback, and writing a frame by row groups and collecting it again, with
  columns of numbers and of text.
* **Scheduling** (`Canvas`, `Schedule`, `Lanes`, `Parallel`). A collect is a state machine whose actions are
  the steps of the main thread and of the workers, among them the rows that an abandoned dictionary
  attempt leaves to be written over. Every run, inline, pooled or in lanes, keeps the invariant, ends, and
  returns what the sequential collect returns, or raises exactly when that one fails.

Input bytes are sequences, buffers that the program fills are arrays, and integers are unbounded, with
32-bit wrap-around, table widths and masks written out where they matter. Hash functions, page
addresses, batch sizes, group sizes, thread schedules and the order of completion are parameters: the
results hold for all of them. carquet's writer and column reader are a sink and a source of batches.

## What turned out not to hold

* The Snappy decoder computes a literal length in 32 bits. A 4-byte length of `0xFFFFFFFF` wraps to an
  empty literal, so some inputs outside the format are accepted. `AcceptsExactlyFormat` gives the
  exact condition and `WrappedStreamAccepted` an input.
* The comment above `qio_read_paths` says that the read paths of a text column give identical results.
  The dictionary path checks every entry, so an entry that no row uses can raise an error that the
  materializing path would not raise (`UnusedEntryRaises`). `AttemptChangesOutcome` gives the exact
  condition, and also the one for the opposite case (`TailIndexIsSkipped`).
* Which error is reported depends on the mode exactly if both a numeric task and a text column fail
  (`ErrorDependsOnMode`). `ErrorsDiffer` gives a collect and two of its runs.
* With an empty output buffer the LZ4 decoder accepts only the one-byte block `0`, as `DecompressSafe`
  states both ways, although the simple decoder ignores the low half of the last token (`EmptyBlock`).
* An LZ4 offset of 0 is not refused. The decoder fills such a match with zeros, and so does the reference
  decoder of this model; the simple decoder of the library leaves the bytes of the buffer as they are.
  `AgreesUnlessZeroOffset` gives the exact condition for the two to agree and `ZeroOffsetBlock` an input.

## Model

| member | source | states |
|---|---|---|
| `Bytes.CtzXorFindsByte` | src/carquet/compression/snappy.c:573-587 | for words of any width, the index of the lowest differing bit divided by 8 is the index of the first differing byte, and all bytes before it agree |
| `Match.RepeatsIsCopyMatch` | src/carquet/compression/snappy.c:299-303 | a buffer that keeps its prefix and repeats at the offset is exactly the byte-at-a-time overlapping copy |
| `Match.CopyMatchRepeats` | src/carquet/compression/snappy.c:299-303 | the byte-at-a-time copy extends its prefix, has the right length and repeats at the offset |
| `Match.RepeatsMultiple` | src/carquet/compression/snappy.c:361-384 | what repeats at an offset repeats at every multiple of it, which is what makes pattern doubling right |
| `SnappyFormat.ReadVarint` | src/carquet/compression/snappy.c:190-209 | a length header is at most 5 bytes, within the input, and below 2^32 |
| `SnappyFormat.VarintRoundTrip` | src/carquet/compression/snappy.c:190-219 | reading back the header of any 32-bit length gives the length and the bytes used, whatever follows |
| `SnappyFormat.HeaderMeans` | src/carquet/compression/snappy.c:190-209 | what a header means from its bytes alone: it is read exactly if at most 5 bytes end with the first one below 128, the fifth below 16, and it stands for the sum of seven bits of each, the first byte lowest |
| `SnappyFormat.HeaderWritten` | src/carquet/compression/snappy.c:211-219 | the header written for a length is one in that sense, stands for the length, and none is shorter |
| `SnappyFormat.OneByteStream` | src/carquet/compression/snappy.c:419-562 | the stream 1, 0, 97 decodes to the byte 97, is refused without room for it, and no input at all decodes to nothing |
| `SnappyFormat.ParseWrite` | src/carquet/compression/snappy.c:457-552 | every legal element, followed by anything, parses to its meaning and its own size |
| `SnappyFormat.LiteralExamples` | src/carquet/compression/snappy.c:457-471 | literals with their length in the tag, in one byte and in two, byte by byte |
| `SnappyFormat.CopyExamples` | src/carquet/compression/snappy.c:489-552 | copies with offsets of 11, 16 and 32 bits, byte by byte |
| `SnappyFormat.RunWriteAll` | src/carquet/compression/snappy.c:453-561 | decoding the bytes of a legal stream of elements yields what executing the elements yields |
| `SnappyFormat.Unparse` | src/carquet/compression/snappy.c:457-552 | whatever the decoder parses is the encoding of a legal element with that meaning, unless its literal length wraps |
| `SnappyFormat.RunUnparse` | src/carquet/compression/snappy.c:453-561 | whatever the decoder accepts without a wrapping length is the encoding of a legal stream that executes to the output |
| `SnappyFormat.AcceptsExactlyFormat` | src/carquet/compression/snappy.c:453-561 | the decoder accepts a stream without a wrapping length if and only if it is a stream of the format for that output |
| `SnappyFormat.WriteAllNeverWraps` | src/carquet/compression/snappy.c:459-471 | no stream of the format for fewer than 2^32 bytes contains a wrapping length |
| `SnappyFormat.WrappedLiteralIsSkipped` | src/carquet/compression/snappy.c:459-471 | a 4-byte literal length of 0xFFFFFFFF wraps to an empty literal: the decoder goes on behind its 5 bytes |
| `SnappyFormat.WrappedStreamAccepted` | src/carquet/compression/snappy.c:459-471 | a concrete input outside the format that the decoder accepts |
| `SnappyCopy.IncrementalCopySlow` | src/carquet/compression/snappy.c:299-303 | every copied byte equals the one at the offset before it; nothing else changes |
| `SnappyCopy.DoublePattern` | src/carquet/compression/snappy.c:363-368 | 8-byte stores double the pattern until it is at least 8 long; the new distance is a multiple of the offset and the bytes still repeat at the offset |
| `SnappyCopy.ShortPatternScalar` | src/carquet/compression/snappy.c:361-384 | the scalar form for offsets below 16 fills the range as the byte-at-a-time copy does, within the buffer limit |
| `SnappyCopy.MaskRows` | src/carquet/compression/snappy.c:229-267 | every row of both shuffle-mask tables counts lanes modulo its pattern size, from 0 and from 16 |
| `SnappyCopy.LoadPattern` | src/carquet/compression/snappy.c:322-344 | the first shuffle spreads a pattern of 1 to 15 bytes cyclically over 16 lanes |
| `SnappyCopy.NextPattern` | src/carquet/compression/snappy.c:345-356 | each further shuffle carries the cycle on from where the last 16 lanes stopped |
| `SnappyCopy.ShortPatternShuffle` | src/carquet/compression/snappy.c:322-360 | the shuffle form for offsets below 16 fills the range as the byte-at-a-time copy does |
| `SnappyCopy.LongPattern` | src/carquet/compression/snappy.c:387-412 | the form for offsets of at least 16 does the same, with its fallbacks near the buffer end |
| `SnappyCopy.CopySixteens` | src/carquet/compression/snappy.c:388-394 | up to four 16-byte moves fill at most 64 bytes and overshoot by at most 15 |
| `SnappyCopy.IncrementalCopy` | src/carquet/compression/snappy.c:305-413 | all build variants leave the output of the byte-at-a-time copy and touch nothing at or past the buffer limit |
| `SnappyDecoder.LengthRows` | src/carquet/compression/snappy.c:143-178 | every entry of the sixteen rows is the length of its tag less 256 times its offset bits, where a literal counts as offset 1 and a tag that needs more bytes has 255 |
| `SnappyDecoder.TableEntry` | src/carquet/compression/snappy.c:143-178 | the same for each of the 256 tags, looked up in the table |
| `SnappyDecoder.TableLength` | src/carquet/compression/snappy.c:490-509 | the low byte of the table entry is the copy length of the tag |
| `SnappyDecoder.LiteralLength` | src/carquet/compression/snappy.c:457-471 | the literal length and start, agreeing with the reference parse, or failure exactly where that fails |
| `SnappyDecoder.LiteralStep` | src/carquet/compression/snappy.c:457-487 | one literal advances input and output as one step of the reference decoder, or fails exactly when it does |
| `SnappyDecoder.CopyBack` | src/carquet/compression/snappy.c:517-535 | each of the three copy strategies produces the byte-at-a-time copy |
| `SnappyDecoder.CopyStep` | src/carquet/compression/snappy.c:489-552 | one copy element advances as one step of the reference decoder, or fails exactly when it does |
| `SnappyDecoder.StepsRun` | src/carquet/compression/snappy.c:453-561 | single steps compose to the reference decoder |
| `SnappyDecoder.Decompress` | src/carquet/compression/snappy.c:419-562 | on every input and buffer: the status and the output are those of the reference decoder, and nothing past the declared length is written |
| `SnappyEncoder.WriteVarint` | src/carquet/compression/snappy.c:211-219 | writes the shortest header for the length: the mark on all bytes but the last, seven bits of the length in each, at most 5 bytes |
| `SnappyEncoder.LengthBytesFit` | src/carquet/compression/snappy.c:589-597 | the byte count computed from the leading zeros is the least that holds the number |
| `SnappyEncoder.EmitLiteral` | src/carquet/compression/snappy.c:589-602 | the bytes written are a legal element whose meaning is the literal |
| `SnappyEncoder.ShortCopyWord` | src/carquet/compression/snappy.c:620-641 | the branch-free word for short near copies starts with the two bytes of that element |
| `SnappyEncoder.WideCopyWord` | src/carquet/compression/snappy.c:604-641 | the word for other copies starts with the three bytes of that element |
| `SnappyEncoder.EmitCopy` | src/carquet/compression/snappy.c:604-641 | a match of any length becomes legal copies that together produce it, in chunks of 64, of 60 if 65 to 67 are left, and a last one of 2 or 3 bytes |
| `SnappyEncoder.MatchLength` | src/carquet/compression/snappy.c:573-587 | the longest run of equal bytes up to the end, found eight at a time |
| `SnappyEncoder.FindMatch` | src/carquet/compression/snappy.c:688-709 | a candidate found really matches four bytes, and the table holds earlier positions only; if the position filed under the hash of the first position matches it, that match is the one returned |
| `SnappyEncoder.FindStartMatch` | src/carquet/compression/snappy.c:663-686 | the same for the unrolled search over the first 16 positions |
| `SnappyEncoder.ShiftedWord` | src/carquet/compression/snappy.c:665-683 | shifting a loaded word by a byte gives the word one position on |
| `MatchFinder.LoadsMatch` | src/carquet/compression/snappy.c:699-709 | equal 4-byte loads are a match of four bytes |
| `MatchFinder.Exchange` | src/carquet/compression/snappy.c:695-697 | returns what was filed under a hash, files the position there, and changes no other entry |
| `SnappyCompressor.AppendMatches` | src/carquet/compression/snappy.c:715-733 | consecutive matches extend the stream by what they stand for, within the cost bound |
| `SnappyCompressor.CompressBlock` | src/carquet/compression/snappy.c:643-764 | a block becomes legal elements that decode to it behind any earlier output, at no more than 65/64 of its size and a constant |
| `SnappyCompressor.StreamDecodes` | src/carquet/compression/snappy.c:766-802 | a header and a legal stream together decode to what the stream executes to |
| `SnappyCompressor.CompressBlocks` | src/carquet/compression/snappy.c:791-798 | blocks compressed one by one make one stream for the whole input, within the bound |
| `SnappyCompressor.Compress` | src/carquet/compression/snappy.c:766-802 | for every input below 2^32 bytes and every hash function: succeeds exactly when the buffer has 32 + n + n/6 bytes, writes nothing past them, and what it wrote decodes to the input; a run of equal bytes becomes a literal of one byte and its repetition per block, of exactly that size |
| `SnappyCompressor.RoundTrip` | src/carquet/compression/snappy.c:419-802 | compressing, then decompressing with any build variant, gives back the input |
| `Lz4Format.RunRoundTrip` | src/lz4/lz4.c:1979-2014 | every run of length bytes reads back to its length |
| `Lz4Format.TotalIsFree` | src/lz4/lz4.c:1869-1966 | a block that obeys the end rules for n bytes decodes to n bytes, and to the same bytes without the rules |
| `Lz4Rules.EndRules` | src/lz4/lz4.c:245-250 | a block is accepted under the end rules for n bytes if and only if it parses to n bytes, no match starts after n - 12 and none ends after n - 5 |
| `Lz4Rules.RunMeans` | src/lz4/lz4.c:1979-2014 | what the extra bytes of a length mean: 255 for each leading 255, and the first other byte; none if there is no other byte |
| `Lz4Rules.LimitBlockDecodes` | src/lz4/lz4.c:2279-2284 | the block for "aaaaaaaabcdef", whose match starts 12 and ends 5 bytes before the end, decodes to its 13 bytes and is a block of no other size |
| `Lz4Plain.AgreesUnlessZeroOffset` | src/lz4/lz4.c:1869-1966 | the simple decoder of the library, over a buffer of any content, accepts exactly the blocks that obey the end rules; it gives the bytes of the reference decoder over every buffer if and only if no match of the block has offset 0 |
| `Lz4Plain.ZeroOffsetBlock` | src/lz4/lz4.c:1923-1955 | a concrete block with a match of offset 0, on which the two differ |
| `Lz4Plain.EmptyBlock` | src/lz4/lz4.c:2064-2068 | a one-byte block such as 7 is a block of no bytes for the simple decoder: an input that an empty buffer refuses |
| `Lz4Copy.WildCopy8` | src/lz4/lz4.c:463-472 | 8-byte blocks repeat at the distance and overshoot by at most 7 |
| `Lz4Copy.WildCopy32` | src/lz4/lz4.c:518-529 | 32-byte blocks in two halves repeat at the distance and overshoot by at most 31 |
| `Lz4Copy.OverlapPrologue` | src/lz4/lz4.c:495-516 | for offsets below 8 the two tables spread the pattern over 8 bytes and give a source at a multiple of the offset; offset 0 gives zeros |
| `Lz4Copy.CopyUsingOffsetBase` | src/lz4/lz4.c:495-516 | fills the match as the byte-at-a-time copy does |
| `Lz4Copy.CopyUsingOffset` | src/lz4/lz4.c:531-572 | fills the match as the byte-at-a-time copy does, with the special cases for offsets 1, 2 and 4 |
| `Lz4Copy.CopyEighteen` | src/lz4/lz4.c:2249-2253 | 18 bytes in three moves contain any match of at most 18 bytes at an offset of at least 8 |
| `Lz4Copy.CopySafe` | src/lz4/lz4.c:2406-2434 | the match copy near the end fails exactly when it would reach into the last 5 bytes, else equals the byte-at-a-time copy |
| `Lz4Copy.CopyTail` | src/lz4/lz4.c:2421-2429 | within 12 bytes of the end, blocks and then single bytes copy the same match without passing the buffer |
| `Lz4Decoder.ReadVariableLength` | src/lz4/lz4.c:1979-2014 | succeeds exactly when a run ends at or before the limit, and then returns its value and end |
| `Lz4Decoder.Shortcut` | src/lz4/lz4.c:2230-2261 | the two-copy shortcut moves as the reference decoder does, or hands over to the general path |
| `Lz4Decoder.SafeLiterals` | src/lz4/lz4.c:2273-2342 | literals, last or not, move as the reference decoder does, or fail only where the end rules do |
| `Lz4Decoder.SafeLength` | src/lz4/lz4.c:2344-2351 | the match length, read or refused as the end rules have it |
| `Lz4Decoder.SafeMatch` | src/lz4/lz4.c:2354-2434 | a match moves as the reference decoder does, or fails only where the end rules do |
| `Lz4Decoder.SafeDecode` | src/lz4/lz4.c:2215-2435 | from any stage: a result is that of the reference decoder; a failure means no block under the end rules |
| `Lz4Decoder.FastLiterals` | src/lz4/lz4.c:2087-2119 | the fast loop over literals moves as the reference decoder does and leaves the safe distance |
| `Lz4Decoder.FastMatch` | src/lz4/lz4.c:2123-2208 | the fast loop over matches moves as the reference decoder does or hands over to the safe loop |
| `Lz4Decoder.FastDecode` | src/lz4/lz4.c:2083-2209 | the fast loop hands over to the safe loop at a stage the reference decoder passes through |
| `Lz4Decoder.DecompressSafe` | src/lz4/lz4.c:2022-2456 | on every input and buffer: a result is that of the reference decoder; every block that fits and whose matches start 12 and end 5 bytes before its end is decoded, to the bytes of the simple decoder unless some match has offset 0; an empty buffer takes the block 0 and nothing else; the output never passes the buffer, and an error tells a position in the input |
| `Lz4Decoder.DecompressLimitBlock` | src/lz4/lz4.c:2022-2456 | the block at the limits of the end rules is decoded into a buffer of exactly its size |
| `Lz4Encoder.SequenceDecodes` | src/lz4/lz4.c:1111-1226 | a written sequence that obeys the end rules is read back as its literals and its match, whatever follows |
| `Lz4Encoder.BeginsNext` | src/lz4/lz4.c:1111-1226 | appending such a sequence keeps the block decodable up to the bytes it covers |
| `Lz4Encoder.BeginsLast` | src/lz4/lz4.c:1302-1335 | the last literals complete the block: it decodes to the whole input |
| `Lz4Encoder.SequenceCost` | src/lz4/lz4.c:1111-1226 | a sequence costs at most 256/255 of the bytes it covers |
| `Lz4Encoder.PutRun` | src/lz4/lz4.c:1123-1128 | length bytes written one at a time are the run of that length |
| `Lz4Encoder.PutMatchRun` | src/lz4/lz4.c:1216-1223 | length bytes written four at a time are the same run |
| `Lz4Encoder.PutLiterals` | src/lz4/lz4.c:1111-1136 | token, length bytes and literals are the literal part of a sequence |
| `Lz4Encoder.PutMatchLength` | src/lz4/lz4.c:1213-1226 | raising the token and writing the length bytes completes the sequence |
| `Lz4Compressor.Count` | src/lz4/lz4.c:680-703 | the longest run of equal bytes up to a limit, by words of 8, 4, 2 and 1 |
| `Lz4Compressor.FindMatch` | src/lz4/lz4.c:1040-1102 | a match found has four equal bytes, within 65535 back, and leaves the end rules room, for every acceleration; if the position filed under the hash of the first position matches it, that match is the one returned |
| `Lz4Compressor.CatchUp` | src/lz4/lz4.c:1104-1109 | grows a match backwards as far as the bytes agree, and passes neither the anchor nor the start |
| `Lz4Compressor.AppendLiterals` | src/lz4/lz4.c:1111-1136 | literals are written in full, or refused exactly when a limited output has no room for them by the test of the source |
| `Lz4Compressor.AppendMatch` | src/lz4/lz4.c:1138-1226 | a match runs as far as the bytes repeat, up to the last 5; it extends the block by the bytes it covers, keeps the worst-case size within bounds, and is refused exactly when a limited output has no room by the test of the source |
| `Lz4Compressor.AppendMatches` | src/lz4/lz4.c:1138-1286 | consecutive matches without literals do the same |
| `Lz4Compressor.CompressLoop` | src/lz4/lz4.c:1020-1298 | the main loop keeps the block decodable to the input up to the anchor |
| `Lz4Compressor.AppendLast` | src/lz4/lz4.c:1302-1335 | the last literals complete the block; the result is its size, or 0 exactly when a limited output cannot hold it |
| `Lz4Compressor.CompressGeneric` | src/lz4/lz4.c:930-1379 | for both table types, every hash and acceleration: the result is 0 only under the output limit, else a block that decodes to the input |
| `Lz4Compressor.CompressDefault` | src/lz4/lz4.c:1382-1403 | never exceeds the buffer or n + n/255 + 16; with a buffer of that size every input of at most 0x7E000000 bytes compresses, and no longer one does; whatever is returned parses to the input, and no match starts in the last 11 bytes or reaches into the last 5; inputs of at most 12 bytes take exactly one byte more, or are refused; a run of n >= 13 equal bytes takes 10 bytes and the length bytes of n - 10 |
| `Lz4Compressor.RoundTrip` | src/lz4/lz4.c:1382-2456 | compressing, then decompressing, gives back the input whenever compressing succeeded |
| `Utf8.TextPrefixIsText` | tools/utf8-validation-differential.c:25-46 | the prefix found is well formed under the grammar of section 4 of RFC 3629 |
| `Utf8.TextPrefixIsLongest` | tools/utf8-validation-differential.c:25-46 | no longer prefix is well formed |
| `Utf8.GrammarIsEncoding` | src/qio_file.c:463-470 | the byte ranges of the grammar admit exactly the encodings, by section 3 of RFC 3629, of the code points up to U+10FFFF without the surrogates |
| `Utf8.RangesAreGrammar` | src/qio_file.c:463-470 | the checks on decoded code points (overlong, surrogate, too large) are exactly the byte ranges of the grammar |
| `Utf8.DecodeChar` | src/qio_file.c:445-470 | a multi-byte character is accepted exactly when one is there |
| `Utf8.Reference` | tools/utf8-validation-differential.c:25-46 | returns 0 for text, else one more than the length of the longest well-formed prefix |
| `Utf8.SkipAscii` | src/qio_file.c:424-432 | skips whole words of ASCII bytes only, and stops only at a word with another byte or within the last 7 bytes |
| `Utf8.HighBitsOfBytes` | src/qio_file.c:424-432 | a loaded word has no high bit set if and only if none of its bytes has |
| `Utf8.InvalidAt` | src/qio_file.c:434-474 | returns the same verdict as the reference validator on every byte string |
| `BitUnpack.SliceValue` | tools/bitunpack-differential.c:28-40 | gathering a value byte by byte gives the bits at its position in the little-endian number |
| `BitUnpack.FieldMeans` | tools/bitunpack-differential.c:23-42 | value i of width w is the little-endian number of the bytes, divided by 2^(i w), modulo 2^w |
| `BitUnpack.Reference` | tools/bitunpack-differential.c:23-42 | the eight values are the eight fields of the input, for widths 1 to 32 |
| `BitUnpack.Refill` | tools/bitunpack-differential.c:48-51 | the accumulator holds the unread bits, never more than 39, and never reads past the input |
| `BitUnpack.Accumulator` | tools/bitunpack-differential.c:44-56 | gives the same eight fields as the reference and uses exactly as many bytes as the width |
| `StringCache.CheckStringBytes` | src/qio_file.c:476-498 | accepts exactly the sane byte arrays without an embedded nul that are valid UTF-8 |
| `StringCache.CharCache.constructor` | src/qio_file.c:1008-1014 | an empty, enabled cache, valid for the page memory |
| `StringCache.CharCache.Get` | src/qio_file.c:1025-1048 | while the cache is on, a hit happens exactly when the value is filed, and is the checked string at that address and length; a miss names a free place where the value may go; counts, and turns the cache off at lookup 4096 if fewer than a quarter were hits |
| `StringCache.CharCache.Probe` | src/qio_file.c:1033-1047 | at most 8 probes find the entry exactly when there is one; otherwise the place returned is free and reached from the hash without a gap |
| `StringCache.CharCache.MissIsVacant` | src/qio_file.c:1034-1045 | the first free place in probing order: the value cannot stand behind it |
| `StringCache.CharCache.Put` | src/qio_file.c:1050-1059 | files the value in a free place, keeps every entry findable, unique and truthful, changes no other entry, and stops at 512 of the 1024 entries |
| `StringCache.ScatterStrings` | src/qio_file.c:1312-1352 | for any addresses and any hash: the cells of interning every row by itself, each with the bytes at its address in order, or a stop at the first row that is refused |
| `Levels.RowMeans` | src/qio_file.c:834-848 | a row is null exactly if its definition level is not the maximum; else its value is the dense one numbered by the present rows before it |
| `Columns.PlaceInt64Exact` | src/qio_file.c:595-630 | for every payload, mode and signedness: missing and flagged exactly when not representable, else exactly the number meant |
| `Columns.ExactRange` | src/qio_file.c:54-55 | the limit in use is the largest below which a double holds every whole number, a double holding m 2^e for m of 53 bits |
| `Columns.RepresentableMeans` | src/qio_file.c:595-630 | what fits: from -2^53 to 2^53 as a double; from -2^63 + 1 to 2^63 - 1 as bit64, whose missing value is -2^63 |
| `Columns.MeantOfBytes` | src/qio_file.c:614-616 | a signed payload means the reading of its eight bytes in two's complement, an unsigned one the number they make up |
| `Columns.ScatterDense` | src/qio_file.c:642-663 | dense values land at their rows, missing cells elsewhere; the flag is set exactly when a present value was lost; rows outside are untouched |
| `Columns.SentinelInDense` | src/qio_file.c:905-917 | scanning the dense values that were used finds the sentinel exactly when a present row holds it |
| `Columns.ScatterInt32` | src/qio_file.c:893-919 | the same for 32-bit integers with the sentinel scan afterwards |
| `Columns.CopyBatchColumn` | src/qio_file.c:673-821 | row i gets its value under the rule exactly if bit i of the bitmap, read as one little-endian number, is set or there is no bitmap; the flag is set exactly if such a value was lost; nothing else changes |
| `Columns.PresentIsBit` | src/qio_file.c:391-393 | presence is the bit of the row number in the bitmap, the lowest bit of the first byte first |
| `Columns.BothPaths` | src/qio_file.c:673-848 | the bitmap path and the definition-level path give the same vector and the same flag for the same rows |
| `Frame.DenseRows` | src/qio.c:342-467 | packing rows into dense values and levels loses nothing: the batch stands for the rows it was made from |
| `Frame.Sink.WriteBatch` | src/qio.c:469-475 | stands for the column writer: the rows of a batch join the open chunk of their column |
| `Frame.Sink.NewRowGroup` | src/qio.c:482-492 | closing a group is refused unless all columns stand at the same row |
| `Frame.Densify` | src/qio.c:342-467 | packs the present values, sets the levels, and fails exactly when a REQUIRED column has a missing value |
| `Frame.WriteColumn` | src/qio.c:320-480 | a column advances chunk by chunk by exactly its rows; other columns are untouched |
| `Frame.WriteGroup` | src/qio.c:315-480 | all columns advance by the same rows, so they stand level at the boundary |
| `Frame.GroupsTile` | src/qio.c:310-318 | the row groups tile the frame; only a frame without rows has an empty group |
| `Frame.WriteFrame` | src/qio.c:310-493 | fails exactly when a REQUIRED column has a missing value, else every group holds its slice of every column; every group but the last has exactly the rows asked for, and without a request there is one group |
| `Collect.ColumnReader.ReadBatch` | src/carquet/reader/column_reader.c:102-141 | the next rows as a batch; a short one at the end of the chunk and before a page that does not decode; a failure only when the cursor stands at such a page |
| `Collect.ReadExactly` | src/qio_file.c:2164-2188 | all the rows asked for or none, exactly as they can be read |
| `Collect.CollectChunk` | src/qio_file.c:1405-1464 | for any batch size: succeeds exactly when the expected rows can be read, and then places every one of them and nothing else |
| `Collect.PlanGroups` | src/qio_file.c:1883-1907 | the offsets are prefix sums over the selected groups; succeeds exactly when the counts add up to the total |
| `Collect.FooterCount` | src/qio.c:310-318 | the row counts of the groups written add up to the group starts, and to all rows |
| `Collect.JoinedSlices` | src/qio_file.c:1883-1907 | slices at the planned offsets, put together, are the whole column |
| `Collect.KeepRestores` | src/qio_file.c:1850-2249 | under the rule that keeps rows as they are, the collected frame is the written one |
| `Dictionary.ReadingsAgree` | src/carquet/reader/page_reader.c:1109-1215 | as far as indices can be preserved both readings have the same rows, and there materializing fails exactly at an index past the dictionary |
| `Dictionary.InternedContents` | src/qio_file.c:1312-1352 | interning a batch yields its strings, or fails exactly when one of them is none |
| `Dictionary.Materialize` | src/qio_file.c:2164-2202 | for any batch size and any addresses: succeeds exactly when the rows can be read and all are strings, and then holds them |
| `Dictionary.DictionaryStrings` | src/qio_file.c:1077-1118 | succeeds exactly when every entry lies in the page, has a length of 31 bits and is a string; entry k is then the bytes behind the four little-endian length bytes at its offset |
| `Dictionary.AtMeans` | src/qio_file.c:1094-1115 | an entry is there exactly if its four length bytes and its own bytes lie in the page, and then it is those bytes in order |
| `Dictionary.EntryExample` | src/qio_file.c:1094-1115 | the page of one entry "ab" |
| `Dictionary.ScatterIndices` | src/qio_file.c:1120-1141 | gathers by index, or fails exactly when a present index is out of range |
| `Dictionary.Follow` | src/qio_file.c:1232-1248 | the loop over batches of indices: a fall back happens at the first batch that cannot be read and leaves exactly the whole batches before it; an error means that an index past the dictionary was read |
| `Dictionary.FollowText` | src/qio_file.c:1232-1248 | over a clean dictionary, what is gathered are the rows that carquet materializes |
| `Dictionary.TryDictionary` | src/qio_file.c:1186-1251 | declines, raises, falls back or reads under exact conditions; a chunk it reads is the materialized one; what an abandoned attempt leaves behind is known exactly; it writes only within the rows of the chunk |
| `Dictionary.CollectText` | src/qio_file.c:2129-2202 | whichever path is taken, success means the materialized rows, and nothing outside the chunk is touched |
| `Dictionary.AttemptChangesOutcome` | src/qio_file.c:1143-1152 | exactly when the attempt makes a readable chunk fail, and exactly when it lets an unreadable one pass, for every chunk and row count |
| `Dictionary.OnlyUnusedEntries` | src/qio_file.c:1082-1111 | every row of a chunk that reads well refers to a proper entry, so only unused entries can make the attempt fail |
| `Dictionary.UnusedEntryRaises` | src/qio_file.c:1082-1111 | a concrete chunk that reads well by itself and fails because of an entry no row uses |
| `Dictionary.TailIndexIsSkipped` | src/qio_file.c:1232-1247 | a concrete chunk that only the attempt reads: an index past the dictionary lies behind the expected rows |
| `Table.CollectStored` | src/qio_file.c:2107-2208 | one chunk of numbers or of text behind what its vector holds: succeeds exactly when pages decode and text is text |
| `Table.CollectGroup` | src/qio_file.c:2107-2208 | one row group into all columns, of both kinds, at its offset; each column with its flag |
| `Table.CollectTable` | src/qio_file.c:1850-2249 | sequentially: fails exactly when a selected chunk cannot be collected, be it numbers that do not decode or text that is refused; else every vector is its selected column, and its flag tells whether a value was lost |
| `Table.PlacedColumn` | src/qio_file.c:1850-2249 | a collected column of placed values is the rows of the selection under the placement rule, and it loses a value exactly when they do |
| `Table.WriteThenCollect` | src/qio_file.c:1850-2249 | for every frame, group size and batch size: writing and collecting places every row of every column, and fails exactly for a missing value in a REQUIRED column |
| `Canvas.PaintKeeps` | src/qio_file.c:1452-1457 | writing on in one piece keeps every piece as far as it has got, and every other cell as it was |
| `Canvas.DraftKeeps` | src/qio_file.c:2129-2162 | so does writing in a draft, the rows of an attempt that will be abandoned and written over |
| `Canvas.CompleteUnique` | src/qio_file.c:1383-1403 | the finished result does not depend on the order in which the writers took turns, nor on what was drafted |
| `Schedule.QuietDone` | src/qio_file.c:2223-2227 | when the pool is at rest, every task before the first failure has been done, in lanes too |
| `Schedule.ActionKeeps` | src/qio_file.c:2035-2245 | every action of the main thread or a worker keeps the whole invariant, also an abandoned dictionary attempt and the re-read over its rows |
| `Schedule.RunKeeps` | src/qio_file.c:1947-2245 | the invariant holds in every state of every run, inline, pooled or in lanes |
| `Schedule.EarlierInLaneDone` | src/qio_file.c:1466-1485 | once a task of a lane has started, all earlier ones of the lane are done |
| `Schedule.OneUserPerReader` | src/qio_file.c:1466-1485 | in every state of every run, inline or in lanes, no reader is in use twice: neither the reader of the main thread nor a private reader of a lane |
| `Schedule.PrimedFirst` | src/qio_file.c:2050-2060 | on a pool, no more tasks are submitted before the text columns than the queue holds, and exactly as many if there are so many |
| `Schedule.EndIsVerdict` | src/qio_file.c:2223-2245 | a run can end in one way only, whatever the schedule; if it returns, every task was started exactly once, every piece is complete, and a column is flagged exactly when one of its pieces lost a value |
| `Schedule.ErrorDependsOnMode` | src/qio_file.c:2061-2080 | inline and parallel reads report the same error if and only if not both a task and a text column fail |
| `Schedule.SameResult` | src/qio_file.c:1362-1374 | two runs that return leave the same result and the same flags, in any modes |
| `Schedule.RunsAreBounded` | src/qio_file.c:2043-2227 | no run has more steps than there was work |
| `Schedule.NotStuck` | src/qio_file.c:2043-2227 | until the end some action is always possible |
| `Schedule.RunsEnd` | src/qio_file.c:2043-2245 | every run can be carried on to its end |
| `Parallel.Deal` | src/qio_file.c:1918-1945 | every column of every selected group once, in order, among the tasks or among the main-thread columns |
| `Lanes.EveryAt` | src/qio_file.c:2012-2023 | every entry of a lane is a task of that lane, at its place, in ascending order |
| `Lanes.EveryHas` | src/qio_file.c:2012-2023 | every task of a lane stands in it, at its place |
| `Lanes.DealingSize` | src/qio_file.c:2009-2023 | the lanes together have as many tasks as there are slots |
| `Lanes.RoundRobinValid` | src/qio_file.c:2009-2023 | round robin puts every task into one lane, once, in ascending order, which is what runs in lanes require |
| `Lanes.RoundRobinMeans` | src/qio_file.c:2012-2018 | lane and place of a task are the remainder and the quotient of its number by the number of lanes |
| `Lanes.BuildLanes` | src/qio_file.c:2004-2023 | the lanes lie back to back and fill the slots exactly; read back from the slots, with the readers given to the tasks, they are the round robin that runs in lanes execute |
| `Parallel.PiecesApart` | src/qio_file.c:1927-1943 | no two tasks or text columns share a cell of the result |
| `Parallel.TasksAreWorkers` | src/qio_file.c:1918-1945 | workers get no text and no column that needs the main thread, and the main thread gets just those |
| `Parallel.ReturnsIfCollectable` | src/qio_file.c:2228-2240 | a collect can return exactly when every selected chunk can be collected |
| `Parallel.ParallelIsSequential` | src/qio_file.c:1850-2249 | every run that ends, inline, pooled or in lanes, returns exactly when every selected chunk can be collected: numbers when their pages decode, text when its dictionary attempt and its rows are accepted; then every vector and every flag is the one of the sequential collect |
| `Parallel.PieceForStands` | src/qio_file.c:2129-2202 | what a task or a text column writes, with the draft of an abandoned attempt, is a piece of the job |
| `Parallel.JobExists` | src/qio_file.c:1918-1945 | every collect, with any batch size, is such a job |
| `Parallel.MergeFlags` | src/qio_file.c:2228-2245 | reports the first failed task, else sets a column flag exactly when it was set or one of its tasks lost a value |
| `Parallel.PieceLosesColumn` | src/qio_file.c:2241-2244 | a piece of a column loses a value exactly when the whole selected column does |
| `Parallel.Int64Collected` | src/qio_file.c:595-663 | an INT64 column across all groups, tasks and batches, in every run that returns: a row is missing exactly when it is null or not representable, every other row is exact, and the column is flagged exactly when some present value is not representable |
| `Parallel.ErrorsDiffer` | src/qio_file.c:2061-2080 | a concrete collect with two runs that end, inline and on a pool, and raise different errors |

## Left out

- Null pointers, size and argument checks in front of the codecs, and their status codes.
- LZ4 with dictionaries, streaming, partial decoding, fill-output mode, pointer tables, big-endian and 32-bit builds; checks for pointer overflow.
- Lz4Compressor.CompressDefault: in a buffer larger than the bound it does not say which bytes past the result stay untouched, because the copies may overshoot within the buffer.
- Lz4Decoder.DecompressSafe: does not say which inputs outside the end rules are refused; it says that what is accepted agrees with the reference decoder without the rules.
- Lz4Compressor.FindMatch: does not say which positions the skip-ahead search visits after the first, so the size of a block is known exactly only for runs of one byte value and for short inputs; the same holds for Snappy.
- Frame.WriteColumn: the size of 65536 rows of a write chunk cannot be seen in the file that the sink models.
- Inputs of 2^32 bytes and more for Snappy, whose length header cannot hold them.
- BitUnpack.Reference: input is exactly the bytes of eight values; widths above 32 are not modelled.
- Strings of 2^31 bytes and more in the UTF-8 validator.
- UUID, binary, boolean, float, INT96 and unsigned 32-bit conversions: they are instances of an arbitrary placement rule.
- Frame.Sink.WriteBatch: carquet's encoders, pages, statistics, footer and write failures are not modelled; the sink keeps the rows.
- Frame.Sink.NewRowGroup: the one failure modelled is that columns stand at different rows; those of carquet's output are not.
- Collect.ColumnReader.ReadBatch: page decoding is not modelled; a chunk has rows and the first row of the first page that does not decode.
- Dictionary.TryDictionary: counters of read paths, and the failure of carquet to switch to preserve mode, are not modelled.
- Schedule.RunKeeps: the bound on the pool's queue and on the number of workers is not modelled; every schedule they allow is among the runs. User interrupts, failure to allocate and failure to open a private reader are left out. How many rows a failing task or text column has written before it fails is left open.
- Table.WriteThenCollect: speaks of columns under a placement rule; how text is encoded when it is written is not modelled, only how it is collected.
- R's API, garbage collection, unwinding, cleanup after an error, and the wording of messages.
- Batch-wise walking of a file, schema and metadata reading, selection by name, gzip, zstd, memory mapping, allocators and paths.
