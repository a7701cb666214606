# EtherDB client and LZ4 block codec: verified model

This project models two parts of the repository in Dafny and proves what they promise.

* **The LZ4 block codec** used as the second stage of column compression
  (`deps/lz4/src/lz4.c`). `Lz4Format` is the reference: a small recursive decoder over
  sequences, the end-of-block conditions of the LZ4 Block Format Description, and the writer
  of a block. `Lz4Copy` holds the copies that overshoot, `Lz4Decoder` the decoder with its
  fast loop, shortcut and safe loop, `Lz4Search` the hash table and match finder, `Lz4Emit`
  the stores, `Lz4Encoder` the encoder with its three output modes, `Lz4Api` the public entry
  points and `Lz4Stream` the two streaming states. Pointers are indices; input is an immutable
  sequence, output and hash table are arrays written in place. The C labels that `goto`
  reaches are the values of the datatypes `Label` and `Phase`. A 64-bit little-endian machine
  with `byU16` and `byU32` tables is fixed; 32-bit lengths wrap around where the C code's do.
* **The client** (`src/client`). `WireFormat` and `WireMessage` describe the query response
  on the wire, `WireParser`, `ColumnStore` and `ClientResult` the result object that decodes
  it into columns or keeps it raw, `RawRoundTrip` the writer of raw row images and their way
  back, `ResultCursor` the row and block cursor over streamed
  batches and the C handle. `AsyncPipeline` is the asynchronous insert pipeline as a state
  machine of one API caller, the receiver thread and a FIFO server, one action per critical
  section. `InsertNumbers`, `InsertScanner`, `InsertPacker` and `InsertRoundTrip` are the path
  from VALUES text to the submit message, `Statement` the prepared statement with its two
  batch builders, `InsertPaths` what those two ways of inserting share, `Sha256` the streaming
  digest with the standard's published values in `Sha256Example`, `ScriptSplitter` and `ScriptRoundTrip` the
  SQL script runner. `Bytes` and `Endian` are shared.

Objects whose methods update fields are classes with a `Valid` predicate; each method is
proved against a function or a reference definition, and the promises are lemmas about those.

Things the proofs brought to light, each stated by a lemma or method below:

* Sixteen one-byte blocks stand for no output, but with an empty output buffer only `[0]` is
  accepted (`Lz4Decoder.EmptyDecodable`, `Lz4Decoder.DecompressGeneric`).
* A literal length of 2^32 + 15 is read as 15, so a block without meaning in the format is
  accepted; an accepted block is its reference decoding if and only if none of its length
  fields reaches 2^32 (`Lz4Decoder.WrappedLengthAccepted`, `Lz4Decoder.DecompressGeneric`).
* `LZ4_compress_destSize` may leave one byte of the target unused although source is left
  over, exactly where the last token has 16 modulo 256 bytes of room; some targets cannot be
  filled by any block (`Lz4Api.CompressDestSize`, `Lz4Api.FillFallsShort`,
  `Lz4Api.NoBlockOf16`).
* A response without an echoed batch id is filed by count, and is misfiled after a failed
  send (`AsyncPipeline.KeyCorrectIff`, `AsyncPipeline.FallbackMisfiles`).
* Once the receiver has stopped, a synchronous call reads the socket itself, although the
  comment at `src/client/EtDBClient.cpp:992` speaks only of a receiver that was never
  started: it gets its own answer if and only if nothing was undelivered, and otherwise, for
  instance, the answer to a batch (`AsyncPipeline.DirectCallOwnsIff`,
  `AsyncPipeline.DirectCallGetsBatchAnswer`).
* A synchronous call that failed while its response was still to come leaves that response
  to the receiver, which counts and files it as one to a batch, or hands it to the next
  synchronous call (`AsyncPipeline.StartIsCleanIff`, `AsyncPipeline.CallsOwnAnswersIff`).
* A streamed batch that is empty but not final makes a fetch report exhaustion although rows
  remain, if and only if rows come behind it (`ResultCursor.Cursor.FetchRow`,
  `ResultCursor.CollectUntilEmpty`).
* The value scanner hands the packer an empty value whenever it falls back to its generic
  path, although the comment at `src/client/EtDBClient.cpp:1489-1490` promises a span into
  `scratch` (`InsertPacker.NextValue`, `InsertScanner.DoubledQuoteLosesValue`).
* A NULL in a string column shifts the rest of a row bound with `bindParam`
  (`Statement.RowsAgreeIffOnTrack`, `Statement.RowsAgreeIffAligned`).
* A raw column of an unknown type reads as NULL by row and as a number by column
  (`ClientResult.EtDBResult.RawViewsAgree`).
* The slots of a raw batch are not checked against its block
  (`ClientResult.SlotOutsideBlock`).
* The check that a response's data is all there adds in 32 bits: it refuses exactly the cut
  messages if and only if the announced length is at most 2^31 - 1 - 20, and a message of 21
  bytes that announces more is accepted (`WireMessage.LengthCheckIff`,
  `WireMessage.OverlongAccepted`).
* A `#` comment behind a `source` command stays in the path if and only if it holds ` --`
  (`ScriptRoundTrip.HashCommentIff`).

## Model

| member | source | states |
|---|---|---|
| Lz4Format.WrittenBlockDecodes | deps/lz4/src/lz4.c:1021-1231 | Sequences and last literals written in the block's layout, whose matches stay 12 and 5 bytes away from the end, decode back to exactly the bytes they stand for, and the block obeys the end-of-block conditions |
| Lz4Format.WrittenLastToken | deps/lz4/src/lz4.c:1204-1231 | The last token of a written block is the one behind its written sequences |
| Lz4Format.ConformsDecodes | deps/lz4/src/lz4.c:1737-2165 | A block that obeys the end-of-block conditions for a total size is decodable, to exactly that size, extending its history |
| Lz4Format.ConformsTail | deps/lz4/src/lz4.c:1990-1993 | Under those conditions five more output bytes take at least six more input bytes, so the input-side limit of the safe loop never refuses a good block early |
| Lz4Format.DecodeWithMoreHistory | deps/lz4/src/lz4.c:2322-2346 | More history in front of a decodable block changes nothing but that front |
| Lz4Format.CopyMatchUnique | deps/lz4/src/lz4.c:2103-2149 | The byte-by-byte overlapping copy is the only extension in which every byte equals the one `offset` before it |
| Lz4Format.CopyMatchRepeats | deps/lz4/src/lz4.c:2103-2149 | Every byte of such a copy repeats the byte `offset` before it |
| Lz4Copy.MatchIsCopy | deps/lz4/src/lz4.c:1913-1923 | Whatever in-place copies left behind, if the new range repeats at distance `offset` it is the byte-by-byte copy of the match |
| Lz4Copy.PeriodOfMultiple | deps/lz4/src/lz4.c:417-459 | A range that repeats at a multiple of the offset after a first period repeats at the offset itself; the reason the table-driven copies are right |
| Lz4Copy.WildCopy8 | deps/lz4/src/lz4.c:407-415 | Copies the literals up to the end pointer although it stores up to 7 bytes more, never at or past the given limit |
| Lz4Copy.WildCopy32 | deps/lz4/src/lz4.c:462-471 | The same in 32-byte strides |
| Lz4Copy.CopyFirst4 | deps/lz4/src/lz4.c:2122-2127 | Four single bytes leave the first four bytes of the overlapping match, whatever the offset and however the source reads what was just written |
| Lz4Copy.CopyFirst8 | deps/lz4/src/lz4.c:2122-2135 | After the first eight bytes the source pointer lags by a multiple of the offset of at least eight, for every offset including zero |
| Lz4Copy.MemcpyUsingOffsetBase | deps/lz4/src/lz4.c:436-459 | The match up to the end pointer equals the one-byte-at-a-time copy, for every nonzero offset |
| Lz4Copy.MemcpyUsingOffset | deps/lz4/src/lz4.c:475-506 | The same for the repeated 8-byte pattern of offsets 1, 2 and 4 and for all other offsets |
| Lz4Copy.SafeMatchCopy | deps/lz4/src/lz4.c:2103-2149 | Near the end of the output the match still equals the byte-by-byte copy, nothing at or past the end is stored, and it refuses exactly a match that ends within the last 5 bytes |
| Lz4Decoder.ReadVariableLength | deps/lz4/src/lz4.c:1706-1729 | Reads the length extension of the format with 32-bit wrap-around; an initial error is reported exactly when the field starts at its limit, a loop error only when the read reaches it, and a field that ends by the limit is read whole |
| Lz4Decoder.FastLoop | deps/lz4/src/lz4.c:1796-1924 | What remains to be decoded from the state it stops in continues the reference decoding of the block; stores stay inside the output |
| Lz4Decoder.Shortcut | deps/lz4/src/lz4.c:1935-1974 | The two-stage shortcut keeps the same relation although it copies 16 and 18 bytes regardless of the lengths |
| Lz4Decoder.SafeLiterals | deps/lz4/src/lz4.c:1985-2052 | Copies the literals or ends the block; it ends exactly where the literals are the rest of the block and fit the output |
| Lz4Decoder.SafeMatch | deps/lz4/src/lz4.c:2070-2150 | Copies one match as the reference does, or refuses it when it reaches before the history or too near the end |
| Lz4Decoder.SafeLoop | deps/lz4/src/lz4.c:1928-2151 | Terminates, done or failed, in a state whose output is the reference's |
| Lz4Decoder.DecompressGeneric | deps/lz4/src/lz4.c:1737-2165 | An accepted block of any content and size is exactly the reference decoding behind the history if and only if none of its length fields reaches 2^32; a block that obeys the end-of-block conditions and fits is accepted if and only if there is output room or it is `[0]`; nothing outside the output range is stored; the error code never exceeds the input length plus one |
| Lz4Decoder.DecompressSafe | deps/lz4/src/lz4.c:2169-2176 | The same without history |
| Lz4Decoder.WrapSeparates | deps/lz4/src/lz4.c:1706-1729 | Where a length field reaches 32 bits, the reference decodes nothing or at least 2^32 more bytes, so no accepted output can agree with it |
| Lz4Decoder.WrappedLengthAccepted | deps/lz4/src/lz4.c:1706-1729 | A block whose literal length is 2^32 + 15 is decoded to 15 bytes although the format gives it no meaning |
| Lz4Decoder.EmptyDecodable | deps/lz4/src/lz4.c:1781-1785 | The blocks that decode to nothing are exactly the sixteen single tokens without literals |
| Lz4Search.Count | deps/lz4/src/lz4.c:601-631 | Counts exactly the common bytes before the limit: all of them are equal, and the next one differs or is the limit |
| Lz4Search.CatchUp | deps/lz4/src/lz4.c:1017-1019 | Moves the match back over equal bytes as far as anchor, history and the bytes allow |
| Lz4Search.Put | deps/lz4/src/lz4.c:736-771 | Registering a position keeps every entry behind the cursor and in the slot of its own hash |
| Lz4Search.Candidate | deps/lz4/src/lz4.c:961-1012 | Accepts the entry exactly when it denotes an earlier visible position at distance at most 65535 with the same four bytes, also with 16-bit tables where the distance is not checked; the current position replaces it in the table |
| Lz4Search.FindMatch | deps/lz4/src/lz4.c:954-1015 | Finds exactly the first probed position whose slot holds a usable entry when it is probed, the probes growing apart by one every 64; it finds nothing if and only if no probed position has one; the table stays valid for the position behind |
| Lz4Search.RepetitionFound | deps/lz4/src/lz4.c:954-1015 | Input that repeats at a distance d up to 64, its first d positions in different slots without usable entries (for d = 1 no condition), is found where the repetition starts, with distance d |
| Lz4Search.ClearPassedOver | deps/lz4/src/lz4.c:1105-1117 | After a match was shortened, clearing the slots of the passed-over positions restores the table invariant at the earlier cursor |
| Lz4Emit.EmitLiterals | deps/lz4/src/lz4.c:1021-1046 | Token, length extension and literals are those of the block layout although the literal copy overshoots by up to 8 bytes |
| Lz4Emit.EmitMatchLength | deps/lz4/src/lz4.c:1123-1136 | Completes the token and writes the match-length extension of the layout although it fills four bytes at a time |
| Lz4Emit.EmitLast | deps/lz4/src/lz4.c:1219-1230 | Writes the last literals in the layout |
| Lz4Encoder.MatchExpands | deps/lz4/src/lz4.c:1091-1095 | A match of the input, appended to what was written, reproduces the input up to its end |
| Lz4Encoder.BlockDecodes | deps/lz4/src/lz4.c:1204-1240 | The block written so far plus the last literals decodes to exactly the input it stands for |
| Lz4Encoder.MatchSize | deps/lz4/src/lz4.c:1123-1136 | In unlimited mode a match and its 4-byte fills stay inside n + n/255 + 16 |
| Lz4Encoder.MatchCode | deps/lz4/src/lz4.c:1097-1122 | The match length is as long as the input allows, or, in fill mode, shortened so that the output is filled exactly up to the room the last literals need |
| Lz4Encoder.EncodeMatch | deps/lz4/src/lz4.c:1048-1138 | Offset and length of a ready match extend the written sequences by one that stands for the input, with a table valid at the new cursor |
| Lz4Encoder.AfterMatch | deps/lz4/src/lz4.c:1140-1200 | Behind a match the next one starts at once, without literals, if and only if the slot of the next position holds a usable entry once the position two before is registered; otherwise the search goes on one position later |
| Lz4Encoder.EncodeSequences | deps/lz4/src/lz4.c:923-1202 | From the first byte to the last literals or an overflow, the output is the layout of sequences that reproduce the input so far, and the room each output mode needs is kept |
| Lz4Encoder.FillRunFits | deps/lz4/src/lz4.c:1209-1213 | The literal run cut in fill mode fits the target with its length bytes and is no longer than the rest of the input |
| Lz4Encoder.FillRunLeaves | deps/lz4/src/lz4.c:1209-1213 | The cut literal run fills its room to the last byte, except that one byte stays free when the room is 16 modulo 256 |
| Lz4Encoder.EncodeLast | deps/lz4/src/lz4.c:1204-1239 | The finished block stands for the input consumed, all of it outside fill mode; when some is left over the target is full, except for one byte exactly where the last token has 16 modulo 256 bytes of room; it fails only in limited mode below the compression bound |
| Lz4Encoder.CompressValidated | deps/lz4/src/lz4.c:851-1240 | A nonzero result is a block that decodes to the consumed input after the visible history; it stays inside the target or the compression bound; it fails only in limited mode with a target below the bound; with input left over the target is full, except for one byte exactly where the last token has 16 modulo 256 bytes of room; input that repeats, with room for its block, is consumed whole into one match and five literals; the table stays valid |
| Lz4Api.CompressFast | deps/lz4/src/lz4.c:1284-1367 | A nonzero result, at most the bound n + n/255 + 16 and at most the target, decodes to exactly the source; with room for the bound it never fails; a source that repeats at distance d gets exactly 9 + d + (d + 240)/255 + (n - d + 231)/255 bytes as soon as the target has room for them |
| Lz4Api.EqualBytesRepeat | deps/lz4/src/lz4.c:954-1015 | Every source of more than 12 equal bytes is one that repeats, at distance 1, with any acceleration; its block takes 10 + (n + 230)/255 bytes |
| Lz4Api.OneDistance | deps/lz4/src/lz4.c:954-1015 | A source repeats in this sense at one distance at most |
| Lz4Api.CompressDestSize | deps/lz4/src/lz4.c:1382-1413 | Never more than the target, and the block decodes to exactly the source prefix of the reported length; when some of the source is left over the target is filled, except for one byte exactly where the block's last token has 16 modulo 256 bytes of room; a target below 16 bytes is always filled; a source that repeats is consumed whole as soon as the target has three bytes more than its block |
| Lz4Api.NoBlockOf16 | deps/lz4/inc/lz4.h:208-209 | No block of exactly 16 bytes stands for bytes that never repeat, so such a target cannot be filled by any encoder |
| Lz4Api.FillFallsShort | deps/lz4/inc/lz4.h:208-209 | On such a source a target of 16 bytes gets 15, with 86 of 100 source bytes left over |
| Lz4Api.RoundTrip | deps/lz4/src/lz4.c:1354-1367 | Compress, then decompress with any capacity of at least the source length: exactly the source comes back |
| Lz4Stream.EncoderStream.Renorm | deps/lz4/src/lz4.c:1545-1563 | Rescaling leaves every surviving index denoting the same byte, keeps every index within 64 KB, and makes room below the 2 GB index limit |
| Lz4Stream.EncoderStream.Continue | deps/lz4/src/lz4.c:1565-1639 | A successful call on adjacent input makes a block that extends the decoded stream by exactly that input; with room for the compression bound the call succeeds; a chunk of more than 12 equal bytes succeeds already with room for 10 + (n + 230)/255 bytes and takes no more, whatever was compressed before |
| Lz4Stream.DecoderStream.Continue | deps/lz4/src/lz4.c:2322-2346 | Decodes a block behind what was decoded, with the small prefix and with the 64 KB prefix, keeping the earlier output; an accepted block of any content is the reference decoding if and only if no length field reaches 2^32 |
| Lz4Stream.StreamRoundTrip | deps/lz4/src/lz4.c:1565-1639 | Any run of successful calls, decoded block by block into one buffer, rebuilds the whole input; with room for every chunk's compression bound the run succeeds |
| AsyncPipeline.StepKeepsInv | src/client/EtDBClient.cpp:954-1219 | Every action of caller, receiver and server keeps the invariant that ties requests in flight, counters, batch ids and stored results together, calls that read the socket themselves, failed calls and a stopped receiver included |
| AsyncPipeline.RunKeepsInv | src/client/EtDBClient.cpp:954-1219 | The invariant holds in every state any interleaving reaches |
| AsyncPipeline.CountersOrdered | src/client/EtDBClient.cpp:1087-1091 | In every reachable state the consumed and the stored results are no more than the received ones, and received <= sent unless the receiver was started while a failed synchronous call's response was still to come |
| AsyncPipeline.ResultsBelongToTheirBatches | src/client/EtDBClient.cpp:1082-1098 | In every reachable state, if ids are echoed or no send has failed, and nothing was still to come when the receiver was started, each stored result has the code, submitted, affected and failed rows that the server wrote, big-endian, into its answer to the batch the result is stored under, zeros when the code is not 0 or the content too short; their number is received minus consumed |
| AsyncPipeline.ResultReports | src/client/EtDBClient.cpp:1092-1097 | Field by field: whatever code and counters were written into a response are what the stored result says, and no counters when the code is not 0 or fewer than 12 bytes follow |
| AsyncPipeline.StartIsCleanIff | src/client/EtDBClient.cpp:1019-1031 | Starting the receiver keeps every later state truthful - counters in order, results under their own batches - if and only if no synchronous call before it came back without its response |
| AsyncPipeline.KeyCorrectIff | src/client/EtDBClient.cpp:1087-1089 | When nothing was still to come as the receiver was started, the key about to be used is the id of the answered batch if and only if the id was echoed or no send with a smaller id has failed |
| AsyncPipeline.FallbackMisfiles | src/client/EtDBClient.cpp:1156-1159 | A reachable state in which the answer to batch 2 is stored under 1 |
| AsyncPipeline.SyncGetsItsOwnAnswer | src/client/EtDBClient.cpp:954-1013 | A synchronous call through the receiver returns the answer to its own request, or a lost connection after the receiver stopped; one that reads the socket itself and does not fail gets its own answer if and only if no response was undelivered when it was sent |
| AsyncPipeline.CallsOwnAnswersIff | src/client/EtDBClient.cpp:954-990 | After the receiver is started every synchronous call through it gets its own answer, or a lost connection, if and only if no synchronous call before came back without its response; otherwise one can get that response |
| AsyncPipeline.DirectCallOwnsIff | src/client/EtDBClient.cpp:993-1013 | What a caller can check: a direct call's answer is its own if and only if every batch sent has been received and no earlier synchronous call came back without its response |
| AsyncPipeline.DirectCallGetsBatchAnswer | src/client/EtDBClient.cpp:1060-1108 | A reachable state, with an echoing server too, in which a synchronous call after the receiver stopped has got the answer to batch 1 |
| AsyncPipeline.Backpressure | src/client/EtDBClient.cpp:1115-1125 | While pending results are at the cap and nothing is consumed, at most the one batch already past the wait is still sent |
| AsyncPipeline.CapIsLastSet | src/client/EtDBClient.cpp:1206-1210 | In every reachable state the limit is the one set last, 512 if that was not positive |
| Sha256.PadShort | src/client/EtDBSha256.h:49-59 | With at most 55 bytes in the buffer one padding block completes the padded message of section 5.1.1 of FIPS 180-4 |
| Sha256.PadLong | src/client/EtDBSha256.h:49-59 | With 56 to 63 bytes two blocks do |
| Sha256.MsgSha256.Reset | src/client/EtDBSha256.h:27-35 | The state of section 5.3.3 and nothing consumed |
| Sha256.MsgSha256.Update | src/client/EtDBSha256.h:37-46 | The object stands for the bytes fed so far followed by the new ones |
| Sha256.MsgSha256.Transform | src/client/EtDBSha256.h:84-130 | One block through the compression function of section 6.2.2 |
| Sha256.MsgSha256.Finalize | src/client/EtDBSha256.h:52-70 | The digest of everything consumed, as sections 5.1.1 and 6.2 define it |
| Sha256.DigestOfPieces | src/client/EtDBSha256.h:37-70 | However a message is cut into update calls, the digest is that of the whole message |
| Sha256Example.AbcDigest | src/client/EtDBSha256.h:27-130 | The digest of "abc" is the published one |
| Sha256Example.AbcAbsorbed | src/client/EtDBSha256.h:84-130 | Its one block, through the 64 published schedule words and the state after each of the 64 rounds, leaves the published final state |
| Sha256Example.CubeRoots0 | src/client/EtDBSha256.h:93-110 | Round constants 0 to 7 are the first 32 fraction bits of the cube roots of the first primes, by inequalities; `CubeRoots8` to `CubeRoots56` are the same for the others |
| Sha256Example.SquareRoots0 | src/client/EtDBSha256.h:27-35 | The initial state holds the first 32 fraction bits of the square roots of the first primes; `SquareRoots4` is the same for the other half |
| WireFormat.ValueReadsBack | src/client/EtDBClientProtocol.h:447-530 | A value of any tag, written, reads back as itself and ends where its bytes end |
| WireFormat.EncodedBytes | src/client/EtDBClientProtocol.h:447-530 | A value of each kind byte for byte: its tag number and its bytes in network order |
| WireFormat.TagRanges | src/client/EtDBClientProtocol.h:511-530 | The range of numbers each tag number stands for |
| WireFormat.ReadValueValid | src/client/EtDBClientProtocol.h:511-530 | Whatever bytes arrive, a value that is read is in the range of its tag |
| WireFormat.RowsReadBack | src/client/EtDBClient.cpp:630-641 | Rows of values that suit their columns, written one after the other, read back |
| WireMessage.StreamReadsBack | src/client/EtDBClient.cpp:546-558 | The streaming prefix is recognised exactly when it was written |
| WireMessage.StreamPrefix | src/client/EtDBClient.cpp:546-558 | The prefix byte for byte: its magic, the query id, the total and the end flag in network order |
| WireMessage.MessageReadsBack | src/client/EtDBClient.cpp:530-643 | Every tagged response, with or without streaming prefix, reads back: stream state, columns, cells |
| WireMessage.LengthCheckIff | src/client/EtDBClient.cpp:539 | With counts in range, a message is refused exactly when its data is not all there, if and only if the announced length is at most 2^31 - 1 less the 20 bytes of the head |
| WireMessage.CountsRefused | src/client/EtDBClient.cpp:535-539 | A head is refused for its counts exactly outside 0 to 4096 columns, 0 to 1000000 rows and a negative length |
| WireMessage.BehindIsUnread | src/client/EtDBClient.cpp:539-643 | Up to that length what is read does not depend on the memory behind the message |
| WireMessage.OverlongAccepted | src/client/EtDBClient.cpp:539 | A message of 21 bytes that announces 2^31 - 1 bytes of data is accepted, whatever stands behind it |
| WireParser.ParseWireValue | src/client/EtDBClient.cpp:174-247 | Fails exactly on a cut stream or an unknown tag; otherwise consumes the value's bytes and shows it in every view the storing code may use |
| ColumnStore.CellReadsBack | src/client/EtDBClient.cpp:117-161 | The bytes stored for a number read back as the number clamped to the column's width |
| ColumnStore.ExpectedInteger | src/client/EtDBClient.cpp:400-422 | An integer in a column of each type: clamped to the limits of the type, its truth in a bool column, the host's conversion in a floating-point one |
| ColumnStore.ExpectedOther | src/client/EtDBClient.cpp:400-422 | A boolean in a column of each type counts as 0 or 1; a floating-point value keeps its bits or is narrowed, is true unless it is zero, is saturated in unsigned columns and 0 in signed ones |
| ColumnStore.BitSetReads | src/client/EtDBClient.cpp:381 | Setting one NULL bit changes that bit and no other |
| ColumnStore.StringsGrow | src/client/EtDBClient.cpp:390-397 | Appending a string keeps pool and offsets a partition into the strings so far |
| ColumnStore.FixedGrows | src/client/EtDBClient.cpp:400-422 | Writing one slot leaves every other row of the column as it was |
| ColumnStore.RowViewIsColumnView | src/client/EtDBClient.cpp:269-324 | A raw slot decoded by row and by column gives the same value if and only if the column type is a known one |
| ClientResult.PutSigned | src/client/EtDBClient.cpp:117-124 | Two's-complement bytes of the value saturated at the width's limits |
| ClientResult.EtDBResult.StoreValue | src/client/EtDBClient.cpp:374-424 | Fails exactly on a bad value or one of the wrong kind; otherwise the column holds one more row and every other column is untouched |
| ClientResult.EtDBResult.ReadTagRow | src/client/EtDBClient.cpp:630-641 | One row-major row ends up as one more cell of every column, or the row is refused exactly when it does not read |
| ClientResult.EtDBResult.Deserialize | src/client/EtDBClient.cpp:530-643 | Succeeds exactly on a message that reads, the length check in 32 bits included, and then shows exactly what it says, in either layout; a failure leaves the old batch or none |
| ClientResult.EtDBResult.IsNull | src/client/EtDBClient.cpp:469-475 | Exactly the NULL cells and everything out of range |
| ClientResult.EtDBResult.StringValue | src/client/EtDBClient.cpp:452-467 | The string of the cell; in a raw batch the slot without its zero padding |
| ClientResult.EtDBResult.Get | src/client/EtDBClient.cpp:483-503 | Every cell of a tagged batch is its wire value clamped or narrowed to the column; NULL out of range |
| ClientResult.EtDBResult.MaterializeRawCol | src/client/EtDBClient.cpp:292-324 | The columnar view of a raw column agrees with the row images, is built once, and leaves the other columns alone |
| ClientResult.EtDBResult.ColumnRaw | src/client/EtDBClient.cpp:426-434 | A column array is handed out exactly for the right shape and width of a fixed-size column of a batch with rows, and each element is the cell |
| ClientResult.EtDBResult.ColumnStrings | src/client/EtDBClient.cpp:436-450 | Pool and offsets cut into exactly the strings of the column, in both layouts |
| ClientResult.EtDBResult.RawViewsAgree | src/client/EtDBClient.cpp:259-324 | In a raw batch array element and row view agree for every row exactly for the known column types |
| ClientResult.SlotOutsideBlock | src/client/EtDBClient.cpp:567-590 | A message that is accepted although its only slot reaches outside its block |
| ClientResult.QueryRoundTrip | src/client/EtDBClient.cpp:374-643 | Any table of typed cells and NULLs, written, deserialized and read cell by cell, gives back every cell as its column can hold it |
| RawRoundTrip.RawMessageReadsBack | src/client/EtDBClient.cpp:546-609 | Every raw response, with or without streaming prefix, reads back: stream state, slot descriptors, row images |
| RawRoundTrip.RawQueryRoundTrip | src/client/EtDBClient.cpp:259-503 | Any table of integers, floats, booleans and zero-padded texts, laid out as row images in host order with any placement of the slots, deserialized and read cell by cell, as string views, as column arrays and as string pools, gives back the written numbers, bits and texts |
| RawRoundTrip.SlotReads | src/client/EtDBClient.cpp:269-290 | The bytes a typed cell is written as read as its value, the text without its padding |
| RawRoundTrip.CellShown | src/client/EtDBClient.cpp:259-290 | The slot the result object cuts out of the received block for row r, column c holds exactly the bytes of the cell written there |
| ResultCursor.Cursor.AdvanceRow | src/client/EtDBClient.cpp:714-726 | Delivers nothing, loses nothing; a row is available exactly when one is in memory or the next batch brings one; without one, everything has been delivered exactly when no batch hides rows |
| ResultCursor.Cursor.FetchRow | src/client/EtDBClient.cpp:764-774 | Hands out the next row; the whole result stays what was delivered, what is in memory and what is still to come; it comes back empty although rows remain if and only if nothing is in memory and the next batch is empty, not final and has rows behind it |
| ResultCursor.Cursor.FetchBlock | src/client/EtDBClient.cpp:776-797 | Hands out the rest of the batch or the next batch, consumed as a whole; nothing although rows remain under exactly the same condition |
| ResultCursor.Collect | src/client/EtDBClient.cpp:714-797 | Any interleaving of row and block calls, gone on with after an empty call or not, collects a gap-free prefix of the whole result, and all of it once a call came back empty if no batch hides rows |
| ResultCursor.CollectUntilEmpty | src/client/EtDBClient.cpp:714-797 | Any interleaving that stops at the first call that comes back empty has everything if and only if no batch hides rows, so always when every batch that announces more is nonempty |
| ResultCursor.NonemptyHidesNothing | src/client/EtDBClient.cpp:714-726 | When every batch that announces more is nonempty, none hides rows |
| ResultCursor.RemainingIsEverything | src/client/EtDBClient.cpp:714-797 | With nonfailing batches of which only the last is final, the whole result is their concatenation |
| ResultCursor.HiddenIffEmptyBefore | src/client/EtDBClient.cpp:714-726 | With nonfailing batches of which only the last is final, rows are hidden if and only if an empty batch stands before a nonempty one |
| ResultCursor.EmptyBatchLooksExhausted | src/client/EtDBClient.cpp:723-724 | An empty batch that announces more: the fetch comes back empty, without error, although a row remains |
| ResultCursor.EmptyBatchesAreHarmless | src/client/EtDBClient.cpp:714-726 | An empty batch that announces more hides nothing when only empty ones come behind it |
| ResultCursor.Handle.FetchRow | src/client/etdb.cpp:238-249 | Row number 0 is the row just delivered |
| ResultCursor.Handle.FetchBlock | src/client/etdb.cpp:251-269 | Row numbers 0 to n - 1 are exactly the n rows just delivered, others are NULL |
| InsertNumbers.FastAtoi64 | src/client/EtDBClient.cpp:1308-1331 | The signed value of the digits, saturated exactly at the limits of 64 bits |
| InsertNumbers.FastAtou64 | src/client/EtDBClient.cpp:1334-1350 | The unsigned value saturated at 64 bits, wrapped around for a minus sign |
| InsertNumbers.FastTsParse | src/client/EtDBClient.cpp:1358-1364 | The same, and 0 for a text with any other character |
| InsertNumbers.DecimalParses | src/client/EtDBClient.cpp:1308-1331 | Every printed 64-bit integer parses back |
| InsertScanner.ScanGeneric | src/client/EtDBClient.cpp:1465-1483 | The quote-aware state machine: separator, position and trimmed value |
| InsertScanner.ScanInsertValue | src/client/EtDBClient.cpp:1491-1540 | Separator and position are always those of the state machine; the span is its trimmed value exactly for simple values and is left unset for all others |
| InsertPacker.NextValue | src/client/EtDBClient.cpp:1518-1521 | The packer gets the state machine's value if and only if the value is simple or empty; separator and position are always right |
| InsertScanner.DoubledQuoteLosesValue | src/client/EtDBClient.cpp:1518-1521 | A literal with a doubled quote reaches the packer as an empty value |
| InsertPacker.StoreInsertValue | src/client/EtDBClient.cpp:1546-1643 | The value's slot right behind the values before it, nothing before it changed |
| InsertPacker.PackRow | src/client/EtDBClient.cpp:1769-1789 | The images of a row group's values one after the other, or a refusal exactly when they do not fit |
| InsertPacker.PackValues | src/client/EtDBClient.cpp:1762-1814 | Packs exactly consistent, nonempty groups that fit, leaving rows times row width bytes of their images; each error stands for its cause; a 128 KB message holds fewer than 16384 rows |
| InsertRoundTrip.CellScans | src/client/EtDBClient.cpp:1523-1540 | A printed integer with any of the six white-space characters of the C locale around it scans to its digits |
| InsertRoundTrip.CellPacks | src/client/EtDBClient.cpp:1546-1643 | An in-range integer, printed and packed, reads back from its big-endian slot |
| InsertRoundTrip.AnyNumberPacks | src/client/EtDBClient.cpp:1556-1622 | Whatever the text, an integer slot read big-endian is the saturated value modulo 256 to the width |
| InsertRoundTrip.TextPacks | src/client/EtDBClient.cpp:1623-1631 | A string slot starts with the text's bytes, cut at the slot, and is zero behind them; a text that fits and does not end in a zero byte is the slot without its padding |
| InsertRoundTrip.FloatPacks | src/client/EtDBClient.cpp:1569-1584 | A floating-point slot read big-endian is the host's bit pattern of the text |
| InsertRoundTrip.QuotedScans | src/client/EtDBClient.cpp:1491-1540 | A text in quotes, with white space outside and inside them, scans to the text without that white space |
| InsertRoundTrip.BareScans | src/client/EtDBClient.cpp:1523-1540 | A bare token with white space around it scans to the token |
| InsertRoundTrip.InsertMatrix | src/client/EtDBClient.cpp:1762-1814 | Any matrix of in-range integers, decimals and quoted texts, printed with any white space outside and inside the quotes, is packed exactly when it fits, and then row r, column c of the buffer holds the original integer, the bits of the decimal, or the text cut or padded with zeros at the end |
| InsertPaths.SameSlot | src/client/EtDBClient.cpp:1546-1643 | An integer printed as VALUES text and the same integer bound in host order are the same bytes on the wire |
| InsertPaths.WidthsAgree | src/client/EtDBClient.cpp:1717-1737 | A fixed-size column takes the same bytes in the VALUES packer, in a prepared statement and in a query result |
| InsertPaths.StringWidth | src/client/EtDBClient.cpp:1730-1731 | A string slot is as wide as declared, 8 bytes when nothing is |
| Statement.RowsAgreeIffAligned | src/client/EtDBClient.cpp:2232-2245 | The builders agree on every row if and only if no string column of another slot than 4 is followed by a column |
| Statement.RowsAgreeIffOnTrack | src/client/EtDBClient.cpp:2232-2245 | With NULLs in given columns the builders agree on all values if and only if the write offset of `bindParam` is the slot offset at every value |
| Statement.AlignedRowAgrees | src/client/EtDBClient.cpp:2223-2476 | Both builders produce the same bytes for every row without a NULL in a string column of another slot than 4 before the last column |
| Statement.BoundRowSent | src/client/EtDBClient.cpp:2407-2476 | On track, a row bound with `bindParam` and added says on the wire what was bound, slot by slot |
| Statement.DirectRowSent | src/client/EtDBClient.cpp:2340-2405 | A row of a columnar bind says what was bound, whatever is NULL |
| Statement.MessageSays | src/client/EtDBClient.cpp:2478-2507 | The fields of a submit request read back from their places, and each row stands at its place |
| Statement.EtDBStmt.BindParam | src/client/EtDBClient.cpp:2223-2317 | The row buffer holds the bound row and the statement is binding; refused exactly for a wrong number of columns |
| Statement.EtDBStmt.AddBatch | src/client/EtDBClient.cpp:2407-2476 | The batch is one row longer; on track, the new row read slot by slot is what was bound: numbers big-endian, bool and tinyint as they are, strings padded with zeros, NULL zero |
| Statement.EtDBStmt.BindParamBatch | src/client/EtDBClient.cpp:2320-2405 | The batch is exactly the given columns as rows, each slot read as what was bound |
| Statement.EtDBStmt.Submit | src/client/EtDBClient.cpp:2478-2507 | The request is one block of the current batch, whichever way it was built, and the batch is cleared; the length, the block count 1, the schema version, the uid, the data length and the row count read back from it, and row r stands at its place |
| Statement.BothWays | src/client/EtDBClient.cpp:2223-2507 | The same rows bound one at a time and by column make byte for byte the same request whenever every value is bound where its slot is, so whenever no row has a NULL in a misaligned string column, and always for aligned columns; in the columnar request every slot of every row, read big-endian, is the number bound in host order, the bytes bound, or zeros for NULL, behind a header that reads back |
| Statement.PlainIsAligned | src/client/EtDBClient.cpp:2234-2245 | Columns without strings are aligned |
| Statement.BlockLength | src/client/EtDBClient.cpp:2325-2338 | A block is its header plus rows times row width |
| Statement.RowCountFits | src/client/EtDBClient.cpp:2338 | The 16-bit row count is the number of rows if and only if there are at most 32767 |
| ScriptSplitter.RunScript | src/client/EtDBShell.h:1502-1608 | The line and character loops do what the scan of the script defines, in order |
| ScriptRoundTrip.ScanText | src/client/EtDBShell.h:1561-1599 | A text with balanced quotes and no terminator or comment marker outside them reaches the buffer unchanged |
| ScriptRoundTrip.ScanClosed | src/client/EtDBShell.h:1590-1597 | Each terminated text completes exactly one statement |
| ScriptRoundTrip.LineReads | src/client/EtDBShell.h:1550-1603 | A line as laid out, with comments of every kind, is read as what it says, block comments across lines included |
| ScriptRoundTrip.ScriptReadsBack | src/client/EtDBShell.h:1502-1611 | Any script of such lines, none of which reads as a `source` command, executes exactly the statements it says, in order, texts over several lines joined by one space |
| ScriptRoundTrip.StatementOverLines | src/client/EtDBShell.h:1605-1608 | A statement written in pieces, one a line, with comments and white space around them, is executed as its pieces with one space between each two |
| ScriptRoundTrip.SourceReads | src/client/EtDBShell.h:1518-1542 | A `source` command in any case, with any white space, its path bare or in quotes, with a terminator or a comment behind it, is taken for one with exactly that path |
| ScriptRoundTrip.SourceDispatches | src/client/EtDBShell.h:1518-1551 | A script of that one line sources exactly that path and does nothing else |
| ScriptRoundTrip.HashCommentIff | src/client/EtDBShell.h:1527-1534 | A `#` comment is cut off the path if and only if it does not hold ` --`, which is looked for first |
| ScriptRoundTrip.LongerWordIsNoSource | src/client/EtDBShell.h:103-109 | A longer word that starts with `source` is no such command |
| ScriptRoundTrip.LineIsNoSource | src/client/EtDBShell.h:103-109 | A line none of whose texts is a `source` command is not taken for one, whatever stands around the texts |
| ScriptRoundTrip.StatementsDispatch | src/client/EtDBShell.h:1502-1611 | Any list of statements, none a `source` command, terminated on their own lines, over any lines and with comments of every kind between them, is dispatched exactly as listed |

## Left out

- Lz4Decoder.DecompressSafe: with capacity 0 only the block `[0]` is accepted, as the code does.
- Lz4Api.RoundTrip: source and destination do not overlap; in-place decompression is not modelled.
- Lz4Api.CompressFast: for a source that repeats at a distance above 1 the size is stated when its first d positions use different slots of the hash table and the acceleration is at most 1; otherwise the search may step over or lose the position the match needs.
- Lz4Search.Count: compares whole words and reads the differing byte off the first difference instead of counting zero bits of the exclusive or.
- Statement.BothWays: equality is claimed for rows whose values are all bound where their slots are; `RowsAgreeIffOnTrack` shows it fails for others.
- InsertPacker.PackValues: the first known column is the timestamp, which the code writes as 8 bytes whatever the schema says.
- ScriptRoundTrip.ScriptReadsBack: lines that end in a carriage return of their own, or whose text reads as a `source` command, are outside; `ScriptSplitter.RunScript` models both.
- LZ4 external-dictionary modes, the `byPtr` table, partial decoding, `LZ4_decompress_fast*`, `fastReset` and obsolete entry points: more cases of the same proofs.
- Big-endian and 32-bit variants of the codec.
- A stream whose input is not adjacent to the previous one (it takes the external-dictionary branch) is outside `Lz4Stream`.
- Sockets, select, thread creation and joining, connecting and closing: the channel is a FIFO, a send delivers a whole request or nothing, and a response read in part is one `torn` response in front of all others.
- Starting a second receiver after the first has stopped: it would be assigned to a thread object that is still joinable, which ends the process.
- Wake-up liveness of the condition variable: only safety is proved.
- More than one API caller: the batch id is taken before the send lock, so two callers could send out of order.
- Floating-point conversion: floats are bit patterns, the host's conversions are parameters.
- Aliasing of pointers handed out by the result object: accessors return values, and a view is only stated up to the next message.
- ClientResult.EtDBResult.Get: in a raw batch the cell's bytes have to lie inside the block, as for `StringValue` and, for the whole column, `MaterializeRawCol`, `ColumnRaw` and `ColumnStrings`; the code does not check it (`SlotOutsideBlock`), and what it reads elsewhere is not defined.
- ClientResult.EtDBResult.Deserialize: what the code reads behind a message whose length overflows the check is a parameter, the memory there; the model lets that read return and the 32-bit sum wrap around.
- `deserializeSubmitRsp`, `print`, error texts and the query-timing counters of the result object.
- SQL before the VALUES keyword, table meta lookup and the message headers around the submit request.
- `prepare`: column types and slots are given; the text scan for placeholders and the meta cache are outside.
- The server's answer to a submit and the affected-row totals.
- Executing a statement and opening a sourced file are events of the script runner; what they do and return is outside, as are the printed counts.
- Reading lines from a stream: a script is a list of lines.
- `hex`, the lower-case text form of the digest, and the login exchange built on it.
- Shell line editing, formatting, date rewriting, monitoring and the storage engine.
