# An HTTP/2 server: proofs about its core

A Dafny model of a small HTTP/2 server in C++ (RFC 7540) and of its HPACK header compression
(RFC 7541), with proofs of what that core promises. `dafny verify dfyconfig.toml` checks all of it.

The layers, each in its own module and file:

- `Bytes`: bytes, machine words and bit strings, and the facts about them that the rest needs.
- `HuffmanTable`, `Huffman`, `HuffmanCoder`: the static Huffman code. The 257 codewords, left-aligned
  to 30 bits, tile the range below 2^30, which gives prefix-freeness and completeness together. The
  encoder is specified by codewords alone and the decoder by nothing but being its inverse; the two
  bit-accumulator loops are proved against that.
- `Integers`, `HeaderTable`, `StaticOrder`, `HpackEncoder`, `HpackDecoder`, `HpackBlocks`,
  `HpackDefined`, `HpackLimits`: variable-length integers, the static table and the dynamic table with
  its eviction, the encoder and decoder of header blocks, and what the two promise each other. The
  encoder never adds to its own table, so the two tables do not stay in step; what holds is stronger,
  namely that a block decodes against any table.
- `Representations`, `HpackHistory`: header blocks as any encoder may write them, and what RFC 7541
  means by them, against which decoder and encoder are both proved; and what an index into the dynamic
  table names after any run.
- `Frames`, `FrameBuffers`, `Responses`, `Serving`: the frame codec, the cutting of receive buffers
  into frames, and the way of a response from headers and content to write buffers and back to the
  peer's frames.
- `ThreadPool`, `OrderedWrites`, `Conversations`: the thread pool as a transition system with one step
  per critical section, notification or task body; the same together with the event loop, which waits
  for each write; and pages and control frames sent through both.
- `SettingsCodec`: the six settings, their dirty marks, and two ends kept synchronised.
- `Streams`, `StreamRuns`, `Reassembly`, `Arrivals`: the streams of a connection and the HPACK decoder
  they share; what holds over runs of frames; header blocks put together from HEADERS and CONTINUATION
  frames; and when they arrive as they were sent.
- `Replies`, `Exchanges`, `SingleRequests`, `ControlStream`: what the server sends for what it
  receives, over whole connections: from all that is read, in any number of reads, to what the peer
  reads of the answers on each of its streams, and of acknowledgements on stream 0.

Objects that the C++ code updates in place are classes (`DynamicTable`, `Encoder`, `Decoder`,
`Response`, `Settings`, `Stream`, `Client`), and each of their methods is proved against a function on
values; the lemmas are about those functions. That two directions of a format undo each other does not
say that either is right, so both are also proved against something else: the bits on the wire, the
numbers and examples of the RFCs, the canonical order of the Huffman code, or what RFC 7541 means by a
header block.

Undefined behaviour is not excluded by preconditions but has an explicit outcome `Undefined`; nothing is
claimed about what follows. It is reached where the C++ code would shift a 32-bit one by 32 or more
(`Integers.IntegerUndefined`, `HpackDefined.BlockUndefined`, `StreamRuns.RunUndefined`), read an empty
padded payload (`FrameBuffers.FrameUndefined`), or read a length behind the end of a buffer
(`FrameBuffers.SegmentDefined`); the lemmas named say exactly when, and `OverlongExists`,
`OverlongBlock`, `UndefinedRun` and `UndefinedBuffers` are inputs that get there. Where the C++ code
aborts the process there is a precondition (payloads of 2^24 bytes or more, and names or values of 127
bytes or more in the encoder); where a peer can reach the abort, in the answer to a GET, it is an outcome
(`Serving.RespondGet`).

Where code and documentation disagree, the model follows the code. Among the cases are:

- A HEADERS frame with priority fields loses a block of 1 to 4 bytes, or 5 when it is padded too, and
  is handled as if its block had been empty: `decode` returns false, which is only logged
  (`FragmentsSurvive` states exactly when fragments reach the handlers, `ShortBlockRun` is a run in
  which one does not). For a padded frame with an empty fragment `decode` returns false as well, but
  nothing is lost (`PaddedEmptyKept`).
- A header block that the decoder rejects is treated like one it accepts; only an exception, which is
  thrown for a bad name index but not for a bad indexed field, keeps the stream open (`BlockArrives`).
- The request method is looked up in the HPACK table, not among the headers of the request, and is
  therefore always GET (`MethodIsGet`).
- Not every block starts clean. Fragments stay behind when a block throws, when a second HEADERS frame
  begins it again, or when a CONTINUATION frame follows its end (`LeftBehind`); `ArriveAfterRun` states
  exactly when that is harmless, and `SpoiledRunFails` is a run in which it is not.
- END_STREAM on a HEADERS frame drops the stream even when its block is not complete, and the block with
  it (`DecodedExactly` states exactly when a block is decoded, `LostRunFails` is a run that loses one).
- Data on a stream is refused once its headers are complete (`DataAccepted`), so no request has a body.
- A frame that straddles two reads is lost, what follows it is misread, and the peer is sent an
  acknowledgement for a PING it never made (`ReadsJoin` states exactly where a read may end,
  `CutFrameAnswered` what is sent).
- Headers of earlier blocks stay with their stream, so that trailers are answered like a second
  request for the same path (`TrailersAnsweredAgain`).
- A size update above the limit is accepted (`LimitKept` states when the limit stays at 4096,
  `LimitLifted` lifts it as far as it goes), and so are frames of other kinds and streams between
  HEADERS and CONTINUATION (`BlockArrives`).
- A path of 127 bytes or more for which there is a page aborts the process (`AbortsExactly`, and
  `LongPathAborts` for a request that does it).
- Every SETTINGS frame is decoded into a new object, so that settings it leaves out fall back to their
  defaults (`AcknowledgedAgrees` states exactly when that is harmless, `SecondFrameForgets` is a case
  where it is not).
- PRIORITY frames are never recognised as carrying a priority (`NoPriorityFrames`).

## Model

| member | source | states |
|---|---|---|
| `HuffmanTable.SymbolOfRank` | http2/protocol/hpack/hpack-huffman.cc:18-276 | every canonical rank 0 to 256 is the codeword of some table entry (entry by entry) |
| `HuffmanTable.RankOfSymbol` | http2/protocol/hpack/hpack-huffman.cc:18-276 | every symbol 0 to 256 has a canonical rank, by pigeonhole |
| `HuffmanTable.TileStep` | http2/protocol/hpack/hpack-huffman.cc:18-276 | left-aligned to 30 bits, neighbouring codewords leave no gap and do not overlap |
| `HuffmanTable.FindTile` | http2/protocol/hpack/hpack-huffman.cc:18-276 | every 30-bit word lies in the tile of some codeword |
| `HuffmanTable.StartsIncrease` | http2/protocol/hpack/hpack-huffman.cc:18-276 | no two tiles overlap |
| `HuffmanTable.LengthIs` | http2/protocol/hpack/hpack-huffman.cc:18-276 | every codeword has the length that Appendix B of RFC 7541 gives its symbol |
| `HuffmanTable.CanonicalOrder` | http2/protocol/hpack/hpack-huffman.cc:18-276 | left-aligned, the codewords of any two symbols are in the order of their lengths and, for equal lengths, of the symbols; with the lengths this leaves no choice for any codeword |
| `Huffman.CodewordFits` | http2/protocol/hpack/hpack-huffman.cc:18-276 | entry `s` is for symbol `s`, has 5 to 30 bits, and its bits fit that length |
| `Huffman.PrefixFree` | http2/protocol/hpack/hpack-huffman.cc:320-330 | at most one table entry matches the front of any bit string, so the order of the scan is irrelevant |
| `Huffman.Complete` | http2/protocol/hpack/hpack-huffman.cc:331 | any 30 bits start with some codeword |
| `Huffman.PaddingHasNoCode` | http2/protocol/hpack/hpack-huffman.cc:302-306 | fewer than eight one-bits never contain a codeword at their front |
| `Huffman.Strip` | http2/protocol/hpack/hpack-huffman.cc:316-340 | of two readings of the same bits as codewords plus a rest, the one that can go no further extends the other |
| `Huffman.EncodedBits` | http2/protocol/hpack/hpack-huffman.cc:284-307 | the bits of an encoding are the codewords in order, then fewer than eight one-bits up to a byte boundary (RFC 7541, section 5.2) |
| `Huffman.HuffmanEncodeInjective` | http2/protocol/hpack/hpack-huffman.cc:284-307 | different byte strings have different encodings |
| `Huffman.HuffmanBijection` | http2/protocol/hpack/hpack-huffman.cc:284-307 | no input has two texts: the ghost inverse of the encoder, which the specification of the decoder uses, is that text whenever there is one (a form of injectivity; `HuffmanCoder.DecodeHuffman` is the result about the decoder) |
| `Huffman.EncodedLength` | http2/protocol/hpack/hpack-huffman.cc:284-307 | an encoding has at most (30 n + 7) / 8 bytes |
| `Huffman.ExampleOfTheRfc` | http2/protocol/hpack/hpack-huffman.cc:284-307 | the encoding of "www.example.com" is that of RFC 7541, section C.4.1 |
| `HuffmanCoder.ShiftInLowBits` | http2/protocol/hpack/hpack-huffman.cc:294 | on the unmasked 64-bit word the meaningful low bits survive each shift, whatever lies above them |
| `HuffmanCoder.EncodeHuffman` | http2/protocol/hpack/hpack-huffman.cc:284-307 | the loop over the 64-bit accumulator writes exactly the encoding defined by codewords |
| `HuffmanCoder.FindEntry` | http2/protocol/hpack/hpack-huffman.cc:320-329 | the scan finds the entry whose codeword is at the front of the accumulator, or there is none |
| `HuffmanCoder.DecodeHuffman` | http2/protocol/hpack/hpack-huffman.cc:309-341 | the bijection: the loop succeeds with `s` if and only if the input is the encoding of `s`, padding included; the 30-bit rejection is never taken; the end-of-string rejection is taken exactly on inputs that spell that symbol; its loops keep `partial < 2^partialbits` and `partialbits <= 37` |
| `HuffmanCoder.NoEndOfString` | http2/protocol/hpack/hpack-huffman.cc:323 | bits that are codewords of a text plus a rest without codeword never spell the end-of-string symbol |
| `Integers.AppendInteger` | http2/protocol/hpack/hpack-encode.cc:11-24 | at every prefix width up to 8 the loop appends exactly the prefix byte and the base-128 groups |
| `Integers.ReadInteger` | http2/protocol/hpack/hpack-decode.cc:14-38 | at every prefix width up to 8 the loop computes the decoded value and the bytes used, or fails; a sixth continuation byte is marked undefined |
| `Integers.IntegerMeaning` | http2/protocol/hpack/hpack-decode.cc:21-33 | a decoded value is the prefix, or the all-ones prefix plus the base-128 groups up to the first byte without continuation bit, modulo 2^32, in at most six bytes |
| `Integers.IntegerUndefined` | http2/protocol/hpack/hpack-decode.cc:27-32 | the undefined shift is reached if and only if the prefix is all ones, five bytes with continuation bit follow, and there is another byte |
| `Integers.OverlongExists` | http2/protocol/hpack/hpack-decode.cc:27-32 | seven bytes that reach it |
| `Integers.IntegerLocal` | http2/protocol/hpack/hpack-decode.cc:14-38 | decoding does not depend on bytes behind the integer |
| `Integers.IntegerTruncated` | http2/protocol/hpack/hpack-decode.cc:28-37 | every strict prefix of an integer is rejected |
| `Integers.IntegerRoundTrip` | http2/protocol/hpack/hpack-decode.cc:14-38 | every 32-bit value, at every prefix width up to 8 and before any further bytes, is decoded to itself and exactly its encoding is consumed |
| `Integers.IntegerLength` | http2/protocol/hpack/hpack-encode.cc:11-24 | the encoded length in closed form, one to six bytes (RFC 7541, section 5.1) |
| `Integers.IntegerExamples` | http2/protocol/hpack/hpack-encode.cc:11-24 | the three examples of RFC 7541, section C.1 |
| `HeaderTable.Fit` | http2/protocol/hpack/hpack-table.cc:88-93 | eviction keeps a prefix of the entries that fits the limit and could not be one longer |
| `HeaderTable.BestMatch` | http2/protocol/hpack/hpack-table.cc:95-110 | a full match is preferred to a match of the name and the lowest index wins among each; a name match means that there is no full match, and 0 that there is neither |
| `HeaderTable.DynamicTable.constructor` | http2/protocol/hpack/hpack.h:33 | a new table is empty and limited to 4096 |
| `HeaderTable.DynamicTable.Evict` | http2/protocol/hpack/hpack-table.cc:88-93 | the loop restores `size <= max_size` with the size exact, and drops exactly what does not fit |
| `HeaderTable.DynamicTable.SetMaxSize` | http2/protocol/hpack/hpack-table.cc:77-80 | the new limit is set and the entries are those that fit it |
| `HeaderTable.DynamicTable.Add` | http2/protocol/hpack/hpack-table.cc:82-86 | the newest entry goes to the front and the oldest are evicted as needed |
| `HeaderTable.DynamicTable.Reset` | http2/protocol/hpack/hpack.h:44-48 | the table is empty and limited to 4096 again |
| `HeaderTable.DynamicTable.At` | http2/protocol/hpack/hpack.h:59-63 | index 0 and indices past the last entry are out of range; all others name their entry |
| `HeaderTable.DynamicTable.FindBestMatch` | http2/protocol/hpack/hpack-table.cc:95-110 | the four scans find the first full match over static and dynamic entries, else the first match of the name |
| `HeaderTable.DynamicTable.FindName` | http2/protocol/hpack/hpack-table.cc:112-121 | the two scans find the first entry with the name, or 0 |
| `HeaderTable.ConstantLimitRun` | http2/protocol/hpack/hpack-table.cc:82-93 | with a constant limit the table is, after any insertions, the longest newest-first part of the history that fits (RFC 7541, section 4.4) |
| `HeaderTable.AnyRun` | http2/protocol/hpack/hpack-table.cc:77-93 | after any insertions and limit changes the table is a prefix of the history within its limit, and index 62 + k is the k-th newest entry |
| `StaticOrder.StaticTableOrdered` | http2/protocol/hpack/hpack-table.cc:9-74 | entries 1 to 61 of the static table are in strict order, by name and then by value, so that no two could be exchanged |
| `HpackEncoder.HeaderLength` | http2/protocol/hpack/hpack-encode.cc:40-98 | an encoded header has 1 to 953 bytes |
| `HpackEncoder.BlockLength` | http2/protocol/hpack/hpack.h:184-189 | an encoded list of n headers has at most 953 n bytes |
| `HpackEncoder.MatchBelow62` | http2/protocol/hpack/hpack-encode.cc:47 | the encoder refers to static entries only |
| `HpackEncoder.Encoder.constructor` | http2/protocol/hpack/hpack-encode.cc:26 | a new encoder has an empty table and the four sensitive names |
| `HpackEncoder.Encoder.Reset` | http2/protocol/hpack/hpack-encode.cc:28-34 | the table is empty and the sensitive names are the four defaults |
| `HpackEncoder.Encoder.MarkSensitive` | http2/protocol/hpack/hpack-encode.cc:36-38 | one name joins the sensitive set |
| `HpackEncoder.Encoder.Encode` | http2/protocol/hpack/hpack-encode.cc:40-98 | appends the representation chosen by match, sensitivity and size; nothing is added to the table |
| `HpackEncoder.Encoder.EncodeNewName` | http2/protocol/hpack/hpack-encode.cc:48-74 | the literal with its name spelled out, in the form chosen by sensitivity and size |
| `HpackEncoder.Encoder.EncodeKnownName` | http2/protocol/hpack/hpack-encode.cc:82-96 | the literal with its name from the table, in the form chosen by sensitivity and size |
| `HpackEncoder.Encoder.EncodeAll` | http2/protocol/hpack/hpack.h:184-189 | appends the representations of all headers in order |
| `HpackEncoder.AppendString` | http2/protocol/hpack/hpack-encode.cc:57-71 | appends the length and the Huffman form of a string |
| `HpackDecoder.StepMakesProgress` | http2/protocol/hpack/hpack-decode.cc:47-137 | every iteration that goes on consumes at least one byte and none past the end, delivers at most one header and keeps the table within its limit |
| `HpackDecoder.Decoder.constructor` | http2/protocol/hpack/hpack.h:106-140 | a new decoder has an empty table limited to 4096 |
| `HpackDecoder.Decoder.Reset` | http2/protocol/hpack/hpack.h:112 | the table is as new |
| `HpackDecoder.Decoder.DecodeLowmem` | http2/protocol/hpack/hpack-decode.cc:40-139 | on any bytes: outcome, delivered headers and final table are those of the step-by-step decoding; the table stays valid whatever the outcome |
| `HpackDecoder.Decoder.ReadField` | http2/protocol/hpack/hpack-decode.cc:79-134 | reads index or name and then value; a bad name index throws where a bad indexed field is a failure |
| `HpackDecoder.ReadString` | http2/protocol/hpack/hpack-decode.cc:105-118 | reads length and text, plain or Huffman-coded, and fails on text past the end or not a Huffman encoding |
| `HpackBlocks.StepLocal` | http2/protocol/hpack/hpack-decode.cc:47-137 | a representation is decoded without looking behind it |
| `HpackBlocks.DecodeConcat` | http2/protocol/hpack/hpack-decode.cc:40-139 | decoding `a + b` is decoding `a` and then `b` when `a` is accepted |
| `HpackBlocks.DecodeKeepsBounds` | http2/protocol/hpack/hpack-decode.cc:40-139 | whatever the bytes and the outcome, the table stays within its limit and no more headers are delivered than there are bytes |
| `HpackBlocks.StepTruncated` | http2/protocol/hpack/hpack-decode.cc:47-137 | a representation cut anywhere inside is rejected, delivers nothing and does not throw |
| `HpackBlocks.HeaderRoundTrip` | http2/protocol/hpack/hpack-encode.cc:40-98 | one encoded header is decoded to itself with exactly its bytes, against any decoder table |
| `HpackBlocks.BlockRoundTrip` | http2/protocol/hpack/hpack-encode.cc:40-98 | any list of encodable headers is decoded to itself in order, against any table, which changes by the headers sent in the 0x40 form and nothing else |
| `HpackBlocks.TablesInStep` | http2/protocol/hpack/hpack-encode.cc:40-98 | the decoder table, from the start, has the same (empty) entries as the encoder's if and only if no header was sent in the 0x40 form |
| `HpackBlocks.WholeHeadersAre` | http2/protocol/hpack/hpack-encode.cc:40-98 | `WholeHeaders` counts exactly the headers that lie wholly before the cut |
| `HpackBlocks.TruncationDetected` | http2/protocol/hpack/hpack-decode.cc:47-138 | a block cut at any byte delivers exactly the headers wholly before the cut, and is accepted if and only if the cut is on a header boundary |
| `HpackDefined.StepUndefined` | http2/protocol/hpack/hpack-decode.cc:47-134 | a representation runs into the undefined shift if and only if its index, or the length of its name or value, is overlong |
| `HpackDefined.BlockUndefined` | http2/protocol/hpack/hpack-decode.cc:40-139 | a block runs into the undefined shift if and only if, behind a part that decodes without fault, a representation has an overlong integer |
| `HpackDefined.GuardedBlock` | http2/protocol/hpack/hpack-decode.cc:40-139 | a guard on the raw bytes: without five bytes in a row that have their top bit set and another byte behind them, decoding is defined against any table |
| `HpackDefined.OverlongBlock` | http2/protocol/hpack/hpack-decode.cc:40-139 | a block of seven bytes whose decoding is undefined against every table |
| `Representations.RepresentationDecodes` | http2/protocol/hpack/hpack-decode.cc:47-137 | every representation of RFC 7541, section 6, by any encoder, is decoded to what it means against any table: indices into both tables, literals in three forms with indexed or spelled-out names, plain and Huffman-coded strings, size updates; bad indices are a failure, and for names an exception |
| `Representations.BlockDecodes` | http2/protocol/hpack/hpack-decode.cc:40-139 | so is every block of them, up to its first error |
| `Representations.HeaderIsRepresented` | http2/protocol/hpack/hpack-encode.cc:40-98 | what the encoder writes for a header: the index of the first static entry that equals it, else a literal in the form for its sensitivity and size, with the first static entry that has its name, else with the name spelled out, strings Huffman-coded |
| `Representations.EncodingMeans` | http2/protocol/hpack/hpack-encode.cc:40-98 | by RFC 7541 that is this header, whatever the table of the peer, which inserts it exactly for the 0x40 form |
| `Representations.FirstByteTells` | http2/protocol/hpack/hpack-encode.cc:47-98 | the first byte of an encoded header is 0x80 or more if and only if the header is in the static table; else it is 0x10 to 0x1f exactly for sensitive names, 0x40 or more exactly for others of up to 256 bytes in all, and below 0x10 exactly for larger ones |
| `Representations.BlockSays` | http2/protocol/hpack/hpack.h:184-189 | an encoded list is this list to any peer that follows RFC 7541, whatever its table holds |
| `Representations.RequestsOfTheRfc` | http2/protocol/hpack/hpack-decode.cc:40-139 | two requests of RFC 7541, sections C.4.1 and C.3.2, the second with an index into the dynamic table, are decoded to the headers and tables given there |
| `HpackHistory.TableOfRun` | http2/protocol/hpack/hpack-decode.cc:47-137 | after any run the table is what the insertions and size updates of all completed blocks, in order, make of the one it started with |
| `HpackHistory.IndexNamesNewest` | http2/protocol/hpack/hpack-decode.cc:60-90 | after any run from a new connection, index 62 + k in a field or for a name is the k-th newest header inserted so far if the table holds so many; else a field fails and a name throws |
| `Frames.Encode` | http2/protocol/frame.cc:28-47 | writes the bytes of `EncodeFrame`, which `FrameOnWire` describes bit by bit |
| `Frames.Decode` | http2/protocol/frame.cc:49-91 | status and frame are those of the field-by-field decoding, on any bytes, refusals with the fields set so far included; the four lemmas `FromWire` describe them bit by bit |
| `Frames.FinishDecoding` | http2/protocol/frame.cc:72-90 | the priority fields are taken off and the rest is the payload, with the length comparisons as written |
| `Frames.ToFrames` | http2/protocol/frame.cc:93-104 | the loop cuts the buffer by the lengths on the wire and keeps frames that fail to decode |
| `Frames.FrameOnWire` | http2/protocol/frame.cc:28-47 | the bits of an encoded frame, most significant first: 24 of length, the type, the flags, 32 of stream number, the payload |
| `Frames.FrameFromWire` | http2/protocol/frame.cc:49-58 | type, flags and the last 31 of 32 bits of stream number of any complete frame are those of its bytes |
| `Frames.FlagBits` | http2/protocol/frame.h:15-24 | which bit of the flags byte is which flag |
| `Frames.PlainFromWire` | http2/protocol/frame.cc:61-90 | without optional parts the payload is all behind the header, as far as its 24 bits of length say |
| `Frames.PaddedFromWire` | http2/protocol/frame.cc:64-90 | with padding it is what is between the first byte and as many bytes at the end as that one says; accepted if and only if that is not empty |
| `Frames.PriorityFromWire` | http2/protocol/frame.cc:72-90 | priority fields are a bit, 31 bits of stream number and the weight less one, and what is behind them is kept from five bytes on |
| `Frames.SegmentOnWire` | http2/protocol/frame.cc:93-104 | the cursor moves on by the first 24 bits and the nine bytes of the header |
| `Frames.WireFrame` | http2/protocol/frame.cc:49-91 | `decode` returns true if and only if the fragment has at least 1 byte (padded), 5 (priority) or 6 (both), and then padding and priority fields are stripped exactly; otherwise the frame it leaves, which is kept, is the same without its fragment |
| `Frames.PaddedEmptyKept` | http2/protocol/frame.cc:87 | a padded DATA frame with an empty fragment: `decode` returns false and leaves the right frame |
| `Frames.PlainRoundTrip` | http2/protocol/frame.cc:28-91 | an encoded frame without padding and priority is decoded to itself, whatever follows |
| `Frames.SegmentRoundTrip` | http2/protocol/frame.cc:93-104 | a concatenation of such frames is cut back into exactly those frames |
| `Frames.SegmentWires` | http2/protocol/frame.cc:93-104 | a buffer of legal frames from any peer, with or without padding and priority, is cut where they were joined, and each is what `decode` leaves of it, whatever it returned |
| `Frames.FragmentsSurvive` | http2/protocol/frame.cc:93-104 | over a whole buffer every frame reaches the handlers with the fragment its peer gave it if and only if every fragment is empty or at least as long as the fields stripped in front of it |
| `Frames.ShortBlockLost` | http2/protocol/frame.cc:72-87 | a legal HEADERS frame with priority fields that loses its block of one byte |
| `FrameBuffers.FrameUndefined` | http2/protocol/frame.cc:64-70 | decoding a frame reads past its payload if and only if it is a complete DATA, HEADERS or PUSH_PROMISE frame with PADDED set and length 0 |
| `FrameBuffers.SegmentDefined` | http2/protocol/frame.cc:93-104 | the segmentation of a buffer is defined if and only if, wherever the cursor comes to stand, three bytes are left and the frame there is none of these |
| `FrameBuffers.UndefinedBuffers` | http2/protocol/frame.cc:64-97 | a frame and a buffer of one byte whose treatment is undefined |
| `FrameBuffers.ReadsJoin` | http2/protocol/frame.cc:93-104 | cutting `a + b` is cutting `a` and then `b`, for every `b`, if and only if `a` ends where a frame ends (or is not read to its end) |
| `Responses.SplitCarries` | Response/response.cpp:34-58 | the pieces of a split frame carry its payload in order on its stream, each within the limit, END_STREAM on the last only |
| `Responses.ProcessedIsSmall` | Response/response.cpp:21-32 | after `processFrames` every payload is within the limit |
| `Responses.GroupsPartition` | Response/response.cpp:3-18 | batching neither loses nor reorders frames |
| `Responses.FlattenBuffers` | Response/response.cpp:3-18 | the buffers joined are the frames encoded one after the other |
| `Responses.BatchingBounds` | Response/response.cpp:3-18 | a buffer has at most 16378 bytes, at most 16369 if it holds two frames or more; a new one is opened only when the frame does not fit; only the first can be empty, exactly when the first frame does not fit it |
| `Responses.Response.constructor` | Response/response.h:16 | a new response has no frames |
| `Responses.Response.AddFrame` | Response/response.h:18-20 | the frame goes to the end |
| `Responses.Response.SplitFrame` | Response/response.cpp:34-58 | the loop over the offset yields one frame per chunk, END_STREAM moved to the last |
| `Responses.Response.ProcessFrames` | Response/response.cpp:21-32 | the frames become the processed frames |
| `Responses.Response.EncodeFrames` | Response/response.cpp:3-18 | the loop yields the bytes of each group of frames |
| `Serving.Respond` | Frame-Handler/frameHandler.cpp:159-197 | headers and content of any size become the write buffers, a fresh encoder and response each time; the 24-bit abort is not reachable |
| `Serving.FirstValue` | http2/headers/headers.cc:16-23 | the value of the first header with the name, or none if there is no such header |
| `Serving.SendAll` | Frame-Handler/frameHandler.cpp:199-204 | the buffers are sent in order up to the first write that fails, and the verdict is whether none did |
| `Serving.RespondGet` | Frame-Handler/frameHandler.cpp:144-207 | nothing is sent without a `:path` or for empty content; otherwise the process aborts if and only if a name or value of the six headers has 127 bytes or more, or headers and content are sent, in order, up to the first write that fails |
| `Serving.ShowErrorPage` | Frame-Handler/frameHandler.cpp:273-332 | nothing is sent for an empty page; otherwise the encoder aborts on too long a header, or the five headers and the page are sent up to the first write that fails |
| `Serving.AbortsExactly` | http2/protocol/hpack/hpack-encode.cc:41-42 | the headers of a page make the encoder abort if and only if the path or the MIME type has 127 bytes or more, or the content 10^126 |
| `Serving.PageFrames` | Frame-Handler/frameHandler.cpp:159-197 | the frames of a page are a HEADERS frame, whose block any decoder turns into the six headers, and DATA frames with the content, END_STREAM on the last |
| `Serving.HeadersFit` | Frame-Handler/frameHandler.cpp:165-180 | up to 17 headers always fit one HEADERS frame, so it is never split |
| `Serving.EndToEnd` | Frame-Handler/frameHandler.cpp:159-204 | the joined buffers are cut back into a HEADERS frame, whose block is the header list by RFC 7541 and for the decoder with any table, and DATA frames on the same stream that carry the content, END_STREAM on exactly the last of all frames |
| `Serving.ResponseIsMessage` | Frame-Handler/frameHandler.cpp:159-197 | a response is one HEADERS frame with END_HEADERS and without END_STREAM, then DATA frames with the content, all but the last of 16369 bytes, of which the last and no other ends the stream |
| `Serving.DecimalReads` | Frame-Handler/frameHandler.cpp:169 | a number is written in decimal digits, without leading zeros, that read from left to right give it back |
| `Serving.PageDescribed` | Frame-Handler/frameHandler.cpp:165-171 | the first header of each name says: status 200, type, length and location of the page, cache control and server |
| `Serving.ErrorDescribed` | Frame-Handler/frameHandler.cpp:290-295 | the same for an error page, with its code as status |
| `Serving.WritesAreSmall` | Response/response.cpp:3-18 | no write is empty or longer than 16378 bytes |
| `ThreadPool.StartInv` | Multithreading/threadPool.cpp:4-7 | a new pool satisfies the invariant |
| `ThreadPool.StepInv` | Multithreading/threadPool.cpp:6-18 | every step of every thread keeps the invariant |
| `ThreadPool.RunInv` | Multithreading/threadPool.cpp:6-18 | the invariant holds after every interleaving of any length |
| `ThreadPool.StepConserves` | Multithreading/threadPool.cpp:13-17 | tasks are only moved between queue, workers and history; only `enqueue` adds one |
| `ThreadPool.StepNoLostWakeup` | Multithreading/threadPool.h:31-49 | while a worker sleeps, every queued task has a pending notification or a worker of its own on the way to the queue |
| `ThreadPool.QueuedMeansWoken` | Multithreading/threadPool.cpp:11-12 | a non-empty queue has a pending notification or a worker that is neither asleep nor gone |
| `ThreadPool.RunsOnce` | Multithreading/threadPool.cpp:13-17 | an accepted task is in exactly one place once: queued, running or done; no other task is anywhere |
| `ThreadPool.RestMeansDone` | Multithreading/threadPool.cpp:6-18 | a pool that can make no step by itself has done every accepted task, stopped or not |
| `ThreadPool.ComesToRest` | Multithreading/threadPool.cpp:6-18 | an unstopped pool with any number of producers behind it makes boundedly many steps by itself, two more for each pending notification and each spurious wake-up, and then every accepted task is done |
| `ThreadPool.Drained` | Multithreading/threadPool.h:52-60 | when all workers have left, the queue is empty and every accepted task is done |
| `ThreadPool.StepAfterStop` | Multithreading/threadPool.h:52-60 | after `stop` every step, spurious wake-ups included, brings the pool closer to its end |
| `ThreadPool.NotStuckAfterStop` | Multithreading/threadPool.h:52-60 | a stopped pool with a worker left can always make a step other than a spurious wake-up |
| `ThreadPool.DrainTerminates` | Multithreading/threadPool.h:52-60 | after `stop` every run is of bounded length, and one that cannot go on has all workers gone and every accepted task done |
| `ThreadPool.PriorityReorders` | Multithreading/threadPool.h:18-22 | by itself the pool may finish a later task of greater weight first |
| `OrderedWrites.EventKeepsInv` | Client/client.cpp:24-45 | every step of the event loop and the workers keeps the invariant that at most one task is outstanding |
| `OrderedWrites.RunningIsNext` | Client/client.cpp:24-45 | a running task is the one submitted last and not done |
| `OrderedWrites.WritesInOrder` | Client/client.cpp:24-45 | in every interleaving at most one task is queued or running, the writes are a prefix of the calls in their order, and outside `sendData` all calls made are written |
| `OrderedWrites.ClientsReceiveInOrder` | Client/client.cpp:24-45 | each client receives a prefix of the bytes that the calls for it put on its connection, failed and partial writes included |
| `OrderedWrites.WaitEnds` | Client/client.cpp:44 | `sendData` does not hang: the workers make boundedly many steps while it waits, and do not come to rest before its future is ready |
| `Conversations.ResponsesArriveWhole` | Client/client.cpp:24-51 | over any list of pages and control frames for any clients, with any results of the writes: a client receives all bytes of its items if and only if every write for it took its whole buffer, and then it reads exactly their frames, whole and in order, however the pool is scheduled |
| `Conversations.PageSendable` | Frame-Handler/frameHandler.cpp:194-204 | a page is such an item: its buffers are not empty and joined are its frames |
| `Conversations.ControlSendable` | Client/client.cpp:47-51 | so is a single control frame |
| `Replies.CallsAreWritten` | Frame-Handler/frameHandler.cpp:199-204 | the calls of `sendData` for an item are its buffers up to the first whose write fails |
| `Replies.AnswerRequest` | Frame-Handler/frameHandler.cpp:83-92 | the page of the first `:path` is sent, and the error page if there is none or a write of it fails; the verdict is whether the page was there and no write failed; the abort is reached exactly on the headers that are too long |
| `Replies.RunSendable` | Frame-Handler/frameHandler.cpp:106-142 | all that is sent over a run, acknowledgements of SETTINGS and PING included, is pages and control frames |
| `Replies.ItemsConcat` | Client/client.cpp:149-160 | a run in two parts sends what the first sends and then, unless the process aborted in it, what the second sends in the state the first led to |
| `Replies.RequestsAnswered` | Frame-Handler/frameHandler.cpp:58-142 | whatever the writes do, every request of a run is answered once and in turn, up to and including the first on which the process aborts; all else that is sent are control frames on stream 0 |
| `Replies.LongPathAborts` | http2/protocol/hpack/hpack-encode.cc:41-42 | any path of 127 bytes or more for which there is a page, sent as the only header of a first request, makes the process abort with nothing sent |
| `Replies.CutFrameAnswered` | http2/protocol/frame.cc:96-101 | a frame cut off by the end of a read, behind any whole frames, becomes a default PING; what is sent for the read gains an acknowledgement without payload and nothing else |
| `Exchanges.ReadSendable` | Client/client.cpp:86-161 | all that is sent over any reads is pages and control frames of this client |
| `Exchanges.ReadAnswers` | Client/client.cpp:134-161 | for the answers it makes no difference where reads end, or where a preface makes the server send SETTINGS |
| `Exchanges.StreamsOfItems` | Frame-Handler/frameHandler.cpp:144-207 | if no write falls short, what is sent on a stream other than 0 is the responses to the requests on it, in order, up to a request that makes the process abort |
| `Exchanges.ConnectionAnswered` | Client/client.cpp:26-161 | over all reads of a connection and among any other traffic of the pool: the peer receives all it is sent if and only if every write took its whole buffer, and then it reads on each of its streams the responses to the requests it made there, in order |
| `SingleRequests.RequestToResponse` | Client/client.cpp:26-161 | from a header list as bytes of any encoder, on a new stream, in any legal layout whose fragments survive, among anything sent before and after in any reads, to what the peer reads on that stream: the answer to these headers and nothing else, unless an earlier request made the process abort |
| `SingleRequests.PageAnswer` | Frame-Handler/frameHandler.cpp:144-207 | the answer to a path of up to 126 bytes that has a page: a message whose block says to any decoder status 200, type, length and location, and whose data is the content |
| `SingleRequests.ErrorAnswer` | Frame-Handler/frameHandler.cpp:273-332 | the answer to a path without a page: the same with status 404 and the error page |
| `SingleRequests.OneRequestConnection` | Client/client.cpp:134-161 | a preface, SETTINGS and other frames without blocks, and one GET in one frame, in any reads that end between frames, meet what `RequestToResponse` asks for |
| `ControlStream.ControlsAnswered` | Frame-Handler/frameHandler.cpp:106-142 | if every write took its whole buffer and no request was made on stream 0, the peer reads there SETTINGS for its preface, an acknowledgement for each acceptable SETTINGS frame, and for each PING one with its payload, in order; all of them unless a request makes the process abort |
| `ControlStream.ReadControlsSent` | Client/client.cpp:134-161 | whatever the writes do, these frames, or the first of them, are what is sent on stream 0 |
| `ControlStream.PingIsRepeated` | Frame-Handler/frameHandler.cpp:122-142 | a PING from its bytes to the acknowledgement that repeats its payload |
| `Replies.TrailersAnsweredAgain` | Frame-Handler/frameHandler.cpp:60-89 | a later block on a stream that has received a path, trailers for example, is handed on with that path first |
| `SettingsCodec.Settings.constructor` | http2/protocol/settings.cc:13-20 | the six defaults, nothing marked |
| `SettingsCodec.Settings.SetHeaderTableSize` | http2/protocol/settings.cc:22-25 | sets and marks this setting only |
| `SettingsCodec.Settings.SetEnablePush` | http2/protocol/settings.cc:27-30 | sets and marks this setting only |
| `SettingsCodec.Settings.SetMaxConcurrentStreams` | http2/protocol/settings.cc:32-35 | sets and marks this setting only |
| `SettingsCodec.Settings.SetInitialWindowSize` | http2/protocol/settings.cc:37-41 | sets and marks this setting only, for asserted values |
| `SettingsCodec.Settings.SetMaxFrameSize` | http2/protocol/settings.cc:43-48 | sets and marks this setting only, for asserted values |
| `SettingsCodec.Settings.SetMaxHeaderListSize` | http2/protocol/settings.cc:50-53 | sets and marks this setting only |
| `SettingsCodec.Settings.MarkClean` | http2/protocol/settings.h:48 | removes all marks and changes no value |
| `SettingsCodec.Settings.Encode` | http2/protocol/settings.cc:55-104 | appends the marked settings in the order of their identifiers |
| `SettingsCodec.Settings.Decode` | http2/protocol/settings.cc:106-137 | error and fields are those of taking the items in order up to the first bad one; marks are left alone |
| `SettingsCodec.ItemOnWire` | http2/protocol/settings.cc:55-104 | an item is 16 bits of identifier and 32 of value, most significant first |
| `SettingsCodec.SettingsByName` | http2/protocol/settings.cc:55-104 | which identifier each setting is sent under (RFC 7540, section 6.5.2) |
| `SettingsCodec.ItemFromWire` | http2/protocol/settings.cc:106-137 | what the first item of any bytes sets or is refused for, by the bits of its two fields |
| `SettingsCodec.DecodeKeepsRange` | http2/protocol/settings.cc:106-137 | any input, even a rejected one, leaves the fields in range |
| `SettingsCodec.AcceptedExactly` | http2/protocol/settings.cc:106-137 | NO_ERROR if and only if the input is whole items, each of them in range or unknown |
| `SettingsCodec.SettingsRoundTrip` | http2/protocol/settings.cc:55-137 | decoding an encoding is accepted, sets exactly the marked settings and leaves the rest |
| `SettingsCodec.StaysSynchronised` | http2/protocol/settings.cc:22-137 | over any legal setters and flushes no flush fails, after a flush both ends agree on all six, and in between they differ on marked settings only |
| `SettingsCodec.AcknowledgedAgrees` | Client/client.cpp:53-84 | the server, which decodes every frame into a new object, agrees with the client after a frame if and only if each setting left out of it is at its default |
| `SettingsCodec.SecondFrameForgets` | Client/client.cpp:53-84 | two frames after which the server has forgotten what the first one set |
| `Streams.NoPriorityFrames` | http2/protocol/frame.cc:72-75 | no PRIORITY frame is decoded with its priority set, so its handler always refuses |
| `Streams.MethodIsGet` | Frame-Handler/frameHandler.cpp:75-82 | the lookup of `:method` finds static entry 2, GET, whatever the table and the request |
| `Streams.HandlesByNumber` | Frame-Handler/frameHandler.cpp:354-382 | which handler a frame goes to, by the number of its type |
| `Streams.PrefaceBytes` | Client/client.cpp:134 | the preface is the 24 bytes of RFC 7540, section 3.5 |
| `Streams.WhatIsRead` | Client/client.cpp:134-147 | what is cut into frames is all that was read, without a preface at its front, and nothing of what the buffer holds behind it |
| `Streams.Client.constructor` | Client/client.cpp:10-18 | no streams and a new decoder |
| `Streams.Client.Respond` | Frame-Handler/frameHandler.cpp:75-96 | the verdict is whether a `:path` was received and the response could be sent; the other branches are dead |
| `Streams.Client.ProcessEndHeader` | Frame-Handler/frameHandler.cpp:58-101 | decodes the fragments with the shared decoder; only an exception leaves the stream open and keeps its fragments, a rejected block counts as received; all headers of the stream are handed on for the response |
| `Streams.Client.HandleHeaders` | Frame-Handler/frameHandler.cpp:24-56 | opens or reopens the stream, adds the fragment, decodes at END_HEADERS, drops the stream at END_STREAM, and always answers true |
| `Streams.Client.HandleContinuation` | Frame-Handler/frameHandler.cpp:217-245 | adds the fragment to a stream that is open or half closed, and decodes at END_HEADERS |
| `Streams.Client.HandleData` | Frame-Handler/frameHandler.cpp:5-22 | adds data to an open stream and refuses any other |
| `Streams.Client.HandleReset` | Frame-Handler/frameHandler.cpp:334-351 | drops the stream |
| `Streams.Client.HandleSettings` | Frame-Handler/frameHandler.cpp:106-120 | refuses other streams than 0 and payloads that are not accepted; settings that are replace those held; an ACK changes nothing |
| `Streams.Client.HandleGoAway` | Frame-Handler/frameHandler.cpp:209-215 | drops all streams, resets the error code and marks the descriptor closed |
| `Streams.Client.HandleFrame` | Frame-Handler/frameHandler.cpp:354-382 | dispatches on the frame type; PING, PRIORITY, PUSH_PROMISE, WINDOW_UPDATE and unknown frames change nothing |
| `Streams.Client.DoRequest` | Client/client.cpp:134-161 | cuts what was read, without a preface at its front, into frames and handles them in order, whatever the verdicts |
| `StreamRuns.StreamTable` | Frame-Handler/frameHandler.cpp:24-69 | in every reachable state an entry's key is its stream's number, its state is OPEN or HALF_CLOSED_REMOTE only, and OPEN exactly while the block begun by its latest HEADERS frame has not been decoded without an exception |
| `StreamRuns.LeftBehind` | Frame-Handler/frameHandler.cpp:24-69 | in every reachable state the peer's frames tell which streams there are and which bytes each still holds: the fragments taken in since its last finished block |
| `StreamRuns.ResetRefused` | Frame-Handler/frameHandler.cpp:334-351 | a reset is refused if and only if there is no such stream; the branch for closed streams is never taken |
| `StreamRuns.DataAccepted` | Frame-Handler/frameHandler.cpp:5-22 | data is accepted if and only if the stream is there and its block is pending, so a body after END_HEADERS is refused |
| `StreamRuns.DataCollected` | Frame-Handler/frameHandler.cpp:5-22 | the data a stream holds is what its peer sent while its block was pending, in order |
| `StreamRuns.TwoReads` | Client/client.cpp:143-161 | two reads are handled like one that brings the same bytes, if the first ends where a frame ends |
| `StreamRuns.RunUndefined` | Frame-Handler/frameHandler.cpp:354-382 | a run is undefined if and only if some frame of it completes a block whose decoding is |
| `StreamRuns.UndefinedRun` | Frame-Handler/frameHandler.cpp:58-66 | one HEADERS frame that makes a new connection undefined |
| `StreamRuns.GuardedRun` | Frame-Handler/frameHandler.cpp:354-382 | a peer whose fragments on each stream, joined, have no five bytes in a row with their top bit set and another byte behind them never gets there |
| `StreamRuns.RequestsOfRun` | Frame-Handler/frameHandler.cpp:58-89 | what is handed on over a run is one request for each block finished without an exception, in that order, with all headers its stream had received |
| `StreamRuns.SameRun` | Frame-Handler/frameHandler.cpp:354-382 | a run depends on kind, flags, stream and payload of its frames only, not on their priority or on what could be sent |
| `StreamRuns.SettingsOfLastFrame` | Client/client.cpp:53-84 | the settings held are those of the last accepted SETTINGS frame alone, decoded from the defaults |
| `Reassembly.BlockArrives` | Frame-Handler/frameHandler.cpp:24-69 | for any cut into HEADERS and CONTINUATION fragments and any frames in between that complete no block, with or without END_STREAM: stream, shared decoder and responding code see the block as if it had come in one piece |
| `Reassembly.BlockIsLost` | Frame-Handler/frameHandler.cpp:49-53 | a block whose HEADERS frame has END_STREAM but not END_HEADERS is lost: the stream is gone, table and requests are unchanged |
| `Reassembly.LostRunFails` | Frame-Handler/frameHandler.cpp:49-53 | two legal frames after which a new connection is as it was |
| `Reassembly.DecodedExactly` | Frame-Handler/frameHandler.cpp:24-69 | a block is decoded, with all its fragments, if and only if its HEADERS frame has no END_STREAM or has END_HEADERS |
| `Reassembly.FragmentationIrrelevant` | Frame-Handler/frameHandler.cpp:217-245 | two ways of sending the same block cannot be told apart afterwards |
| `Arrivals.HeadersArrive` | Frame-Handler/frameHandler.cpp:58-83 | a header list by any encoder that follows RFC 7541, END_STREAM or not, is handed on as meant and leaves the table as it should, on any stream whose leftover bytes decode to nothing |
| `Arrivals.EncoderMeans` | http2/protocol/hpack/hpack-encode.cc:40-98 | the encoder of the server is one of these, with the change of the table it asks for |
| `Arrivals.ArriveExactly` | Frame-Handler/frameHandler.cpp:24-69 | every header list arrives intact, however it is cut and interleaved, if and only if the leftover bytes decode by themselves to nothing and leave the table alone |
| `Arrivals.ArriveAfterRun` | Frame-Handler/frameHandler.cpp:24-69 | the same after any run, in terms of the frames sent |
| `Arrivals.BytesArrive` | Client/client.cpp:143-161 | the same from the bytes on the wire, padding and priority fields included, if every fragment survives them; the run is then that of the frames the peer meant |
| `Arrivals.OneFrameArrives` | Frame-Handler/frameHandler.cpp:24-56 | a header list in one HEADERS frame arrives if and only if its block is empty or at least as long as the fields stripped in front of it, or it says nothing: no header and no change of the table |
| `Arrivals.ShortBlockRun` | Frame-Handler/frameHandler.cpp:24-56 | a legal request of one byte with priority fields that a new connection hands on as a request without headers |
| `Arrivals.StrayContinuation` | Frame-Handler/frameHandler.cpp:225-244 | a continuation after the end of a block is accepted and its bytes stay behind |
| `Arrivals.SpoiledRunFails` | Frame-Handler/frameHandler.cpp:217-245 | three frames after which a request is handed on with headers it did not have |
| `StreamRuns.SharedTable` | Frame-Handler/frameHandler.cpp:58-66 | the shared decoder table is what decoding the completed blocks in the order of completion makes of it |
| `StreamRuns.SharedContext` | Frame-Handler/frameHandler.cpp:58-66 | when no block fails, it is the table of one decoding of all completed blocks joined (RFC 7540, section 4.3) |
| `StreamRuns.TableStaysInBounds` | Frame-Handler/frameHandler.cpp:354-382 | whatever is received, the table keeps within its limit |
| `HpackLimits.LimitOfRun` | http2/protocol/hpack/hpack-decode.cc:50-57 | after a run the limit of the table is that of the last size update in a completed block |
| `HpackLimits.LimitFromStart` | http2/protocol/hpack/hpack.h:106-140 | on a new connection it is 4096 until then |
| `HpackLimits.LimitKept` | http2/protocol/hpack/hpack-decode.cc:50-57 | the limit is at most 4096 at every moment of a run if and only if no size update in a completed block exceeds that |
| `HpackLimits.LimitLifted` | http2/protocol/hpack/hpack-decode.cc:50-57 | six bytes that lift the limit of any table to 2^32 - 1 |

## Left out

- Sockets, epoll, TLS and its ALPN negotiation, the handshake, timeouts, logging: input and output. `SSL_write` is an atomic append of as many bytes as it returns; what it returns is a parameter.
- `WebBinder`, MIME types, status messages and directory listings: file system and look-up tables. The pages it finds are parameters.
- Streams.Client.Respond: whether the response could be built and sent is its parameter `served`, which is only logged (`StreamRuns.SameRun`); what is sent, and this verdict, are `Replies.AnswerRequest`.
- Streams.Client.ProcessEndHeader: the same parameter; what is handed on for the response is part of its outcome, and what is then sent is in `Replies`.
- Streams.Client.HandleSettings: the acknowledgement is `Replies.FrameItems`, not part of this method.
- Streams.Client.HandleFrame: the same for SETTINGS and PING frames; whether the answer to a PING could be sent is the parameter `served`.
- Streams.Client.DoRequest: the read itself is left out, and the SETTINGS frame sent on a preface is in `Exchanges.ReadItems`. Its buffer is longer than what was read, so a length read behind the end sees old bytes there and gives one more default frame; the model calls that undefined all the same. When a request makes the process abort (`Replies.Dies`), the state after it is of no account.
- SingleRequests.RequestToResponse: a stream that is used for one request, as RFC 7540 has it; `Exchanges.ConnectionAnswered` speaks of streams used in any way. Requests on stream 0, which the code answers, share it with control frames, and are covered by neither as far as single streams go.
- Request methods other than GET, and flow control, push, stream dependencies and the meaning of GOAWAY beyond clearing the streams: the code ignores them or has stubs.
- `handlePriorityFrame` setting a stream's weight: no decoded frame reaches that branch, so `Stream` has no weight, dependency or exclusive flag; unused `method` and `path` strings of a stream are left out too.
- `Headers::replace`, `every`, `last`, `remove`, and `util.cpp`: not used by what is modelled.
- Splitting of HEADERS frames into CONTINUATION frames: `splitFrame` does not do it, and `Serving.HeadersFit` shows that no response needs it.
- `Encoder::mutable_table`, through which a caller could put entries into an encoder's table: nobody calls it, and the encoder's invariant is that its table is empty.
- Integers.ReadInteger: sums and products wrap modulo 2^32. In the C++ code the product of a group and `1 << shift` is a signed `int`, which formally overflows for a shift of 28 and a group of 8 or more, that is, for values from about 2^31 on; the model takes it to wrap.
- Frames and headers are values (datatypes) rather than objects, because the C++ code copies them by value; what is lost is only that `Frame::decode` may be called on a frame that is not freshly made.
- The thread pool is a transition system and not a class, because its subject is interleaving; the ready order among tasks of equal weight is left open, as `std::priority_queue` leaves it.
- Memory: stream objects that are erased from the map are never freed by the C++ code, which the model cannot see.
- Sizes of `size_t`, `ssize_t` and `int` beyond those of the wire formats: lengths of byte strings are unbounded integers.
