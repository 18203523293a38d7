# averyws: what happens to a WebSocket stream after the handshake

This project models the part of the averyws server that turns the bytes of a client into messages, and messages into
bytes, and proves what that part computes. Section numbers are those of RFC 6455 unless another document is named.

The receiving side is modelled in its own shape: classes whose methods update their fields and their buffers in place.

- `Sessions.Session` is the session. Each method is one callback, which runs when exactly the bytes it has asked for
  have arrived. The socket is a byte sequence and a position in it; what is handed to the dealer, written to the socket,
  or given to `cancel_socket` is appended to a log.
- `FrameHeaders.Header` parses a frame header in two stages, `Controls.Control` answers control frames in place,
  `Gathering.Gather` packs the payloads of a message's frames into the chunks of a `Chunks.ChunkVector`,
  `Masking.ApplyMask` unmasks a range in place four bytes at a time, and `Utf8.Byte` checks text byte by byte.

Against these stand definitions that know nothing of reads, callbacks or offsets: `Decoder.Decode` reads a whole stream
frame by frame (the chunk size matters to it only where a stream ends within a frame), `Bytes.Unmask` is the rule of
section 5.3 for one octet at a time, `Utf8.WellFormed` is the grammar of section 4 of RFC 3629, `Messages.Fragmentation`
the one of section 5.4, and `FrameFormat.ParseHead` the base framing of section 5.2.

The main results:

1. A session, run with any chunk size on any byte stream, emits exactly the log that the one-shot decoder gives, up to
   the first frame at which one of its 64-bit counters goes wrong (`Sessions.Serve`). Payload boundaries, chunk
   boundaries, the four-byte stride and the boundaries of UTF-8 characters are four independent partitions of the same
   bytes, and none of them shows in the result. Which frame that is, if any, is defined on the stream alone
   (`Faults.FirstFault`); there is none in a stream that, with a chunk more, is at most 2^64 bytes long and announces no
   total of 2^64 (`Faults.ShortIsSound`).
2. On a stream of whole frames that log does not depend on the chunk size. Whatever the fragmentation and the masks, a
   message is delivered exactly when what is read as text is well formed (`Messages.MessageOutcome`); pings and pongs
   between its fragments add their answers, in order, and nothing else (`Messages.InterleavedOutcome`).
3. Accepted pings and pongs can be erased from any stream without any effect but their own answers
   (`Decoder.ControlFramesUnobservable`), and the accepted data frames are exactly those of section 5.4.
4. The reads a message is taken in with end exactly at the multiples of the chunk size and at the ends of the frames
   (`Gathering.Gather.EndsAreCuts`), and the reads of a run are those of exactly the messages that the stream delivers
   (`Sessions.Session.Run`).
5. A ping from any sender, anywhere in a message, is answered with its own data and a close with its own status code and
   reason, if these may be sent (`ControlFrames.PingAnswered`, `ControlFrames.CloseAnswered`); text is accepted exactly
   if it is the encoding of Unicode scalar values (`Utf8.CompleteIffWellFormed`, `Scalars.WellFormedIff`).
6. Bytes that arrive later never take an outcome back (`Progress.DecodeGrows`).
7. The headers this program writes read back through its own decoder (`OutboundHeader.WriteRoundTrip`), a message it
   sends is delivered by its own receiving side (`Outbound.WrittenIsDelivered`), and base64 decoding undoes base64
   encoding (`Base64.RoundTrip`).

Where the code does not do what RFC 6455, RFC 4648 or its own comments say, the model follows the code, and a lemma says
when the two agree:

- A binary message keeps its kind exactly when it is sent in one frame; the continuation frames of a fragmented one are
  read as text (`Messages.BinaryKeptIffUnfragmented`, `Messages.FragmentedBinaryRefused`).
- The space reserved for an outbound header is the space that is written exactly when no mask is asked for
  (`OutboundHeader.ReserveIsExact`).
- The answers to pings and closes are frames exactly when the length was encoded in the shortest form
  (`Controls.PongFrame`, `Controls.CloseFrame`); `Decoder.LongPing` is an accepted ping whose answer is not even a
  header.
- A close frame with a single byte of payload is answered with that byte as it came, masked, or with 03
  (`ControlFrames.CloseAnswered`).
- The frame written when a connection is cancelled never carries the status code (`Delivery.CancelFrameIsEmpty`).
- All sizes are 64-bit numbers, and nothing in the code looks at their limits. The total that frames announce can wrap
  around, for which thirteen bytes are enough (`Faults.TotalWraps`); in a chunk that ends at 2^64 or behind it the code
  asks for all of the chunk although the data ends before (`Gathering.AskIsRead`, `Faults.LastReadTooLong`); and line 35
  of `ws_gather.cpp` closes a message to its own size exactly when its sum does not wrap or the chunk size divides 2^64
  (`Gathering.LastChunkSize`). For a message that has arrived as a whole these come to one condition
  (`Faults.FinalFaulty`). The model stops there, with the state `Lost`.
- The base64 encoder writes behind the end of its string exactly for the lengths that pass the check at
  `lib/base64.hpp:31` although the product at line 36 wraps (`Base64.Encode`).
- The base64 encoder agrees with the standard exactly for data whose length is 2 modulo 3, like the 20 bytes of the
  handshake's digest; otherwise it leaves the padding out or adds a character of it (`Base64.StandardIff`).
- The example in the comment at `ws_gather.hpp:16-28` miscounts: its 2850 bytes end with 850 bytes in the third chunk,
  not 750 (`Schedule.ThreeFrames`).

Verify everything with `dafny verify dfyconfig.toml`.

## Files

| file | contents |
|---|---|
| `Sequences.dfy`, `Arithmetic.dfy` | facts about sequences and remainders |
| `Bytes.dfy`, `NetworkOrder.dfy`, `BitStream.dfy` | bytes and masking keys, numbers in network byte order, groups of bits |
| `Utf8.dfy`, `Scalars.dfy` | the grammar of UTF-8, its automaton, the incremental checker; Unicode scalar values |
| `Masking.dfy` | `applyMask` |
| `FrameFormat.dfy`, `Header.dfy` | the base framing, and the two-stage parser |
| `ChunkVector.dfy`, `Schedule.dfy`, `Gather.dfy` | the chunked buffer, the schedule of reads, the gatherer |
| `Control.dfy`, `ControlFrames.dfy` | answers to control frames, and whole control frames as a sender makes them |
| `Decoder.dfy`, `Messages.dfy`, `Delivery.dfy` | the one-shot decoder, whole messages, the log |
| `Faults.dfy` | the frames at which a 64-bit counter goes wrong |
| `Progress.dfy`, `Reads.dfy`, `Session.dfy` | the session, step by step against the decoder |
| `OutboundHeader.dfy`, `Outbound.dfy` | outbound headers and messages |
| `Base64.dfy` | the base64 codec |

## Model

| member | source | states |
|---|---|---|
| Sessions.Serve | ws_session.cpp:136-312 | for every chunk size and every byte stream, the events a session emits are exactly the rendered outcomes of the one-shot decoder on the stream up to the first frame at which a 64-bit counter goes wrong, and it stops there if and only if there is one; on a stream of whole frames without one they show the same outcomes for all chunk sizes |
| Sessions.LogShows | ws_gather.hpp:16-28 | the outcomes read back from the log of a stream of whole frames are the same for every chunk size |
| Faults.ShortIsSound | ws_gather.cpp:73-77 | no counter goes wrong in a stream that is at most 2^64 bytes long, counted with a chunk and what the message in progress has, if and only if no message is announced with 2^64 bytes or more; if the stream consists of whole frames, none does |
| Faults.FinalFaulty | ws_gather.cpp:27-50 | in a last frame that has arrived as a whole and is accepted, of a message that with a chunk more was at most 2^64 bytes long so far, a counter goes wrong if and only if the size of the message and the chunk size come to more than 2^64 |
| Faults.TotalWraps | ws_gather.cpp:73-77 | thirteen bytes at which the total wraps to zero, whatever the chunk size; the code then asks for 2^64 - 1 bytes, whatever the size of the buffer, and the three bytes in front of that frame are all that is decoded |
| Faults.LastReadTooLong | ws_gather.cpp:45-49 | 2^64 - 1 bytes in chunks of 1024: 1023 bytes are left to be read, and the code asks for 1024 |
| Sessions.Session.constructor | ws_session.cpp:41-69 | nothing read, nothing logged, a new message may start, and the two headers do not share a buffer |
| Sessions.Session.Start | ws_session.cpp:131-132 | after the handshake the invariant of the session holds, with the first header asked for |
| Sessions.Session.ReadHeader | ws_session.cpp:136-142 | exactly two bytes are asked for, into a fresh header buffer, and the message in progress is not touched |
| Sessions.Session.Step | ws_session.cpp:136-208 | every callback consumes exactly the bytes that were asked for, keeps the invariant, and moves on in the stream or towards the end of the frame |
| Sessions.Session.Run | ws_session.cpp:136-208 | the callbacks run until the connection ends, the bytes run out or a counter goes wrong, and then the log is the one of the stream up to there; for each message that this part of the stream delivers, and for no other, the reads have ended at the places that the payload lengths of its frames call for |
| Sessions.Session.Waiting | ws_session.cpp:136-208 | when fewer bytes are left than were asked for, the one-shot decoder has nothing more to say either |
| Sessions.Session.HandleReadHeader | ws_session.cpp:144-181 | a stage of the header refuses the frame with the decoder's code, or leads to the second stage, the control payload or the data payload with the invariant kept |
| Sessions.Session.ReadChunk | ws_session.cpp:183-208 | a stretch of a data frame ends the connection with the decoder's code, asks for exactly the next scheduled read, or completes the frame and goes on to the next header with the log and the message of the decoder; it stops only where the next read or the closing size is wrong |
| Sessions.Session.Request | ws_session.cpp:210-229 | one opening with the kind, then the parts of the flat message split at the chunk size with exactly the last one marked, then a closing; an empty message is one empty last part |
| Sessions.ChunksAreParts | ws_session.cpp:216-227 | the chunks of a completed message are the message split into full parts and a last one of 1 to chunk-size bytes |
| Sessions.Session.HandleControlRead | ws_session.cpp:273-312 | a control frame is refused, answered with a farewell, answered and gone past, or silently gone past, as in the decoder; the message in progress stays as it is |
| Sessions.Session.CancelSocket | ws_session.cpp:314-331 | the connection ends with the one code with which the decoder ends it, and the four bytes for that code are written |
| Delivery.CancelFrameIsEmpty | ws_session.cpp:314-331 | for every code, the four bytes are a close frame without payload and, behind it, the code in network byte order |
| Decoder.ChunkSizeUnobservable | ws_gather.hpp:16-28 | on streams of whole frames decoding is the same for all chunk sizes |
| Decoder.ControlFramesUnobservable | ws_session.cpp:151-170 | erasing all accepted pings and pongs from any stream erases the answers to the pings and changes nothing else |
| Decoder.LongPing | ws_control.cpp:85-98 | an empty ping with an extended length is accepted, and its answer is not even a header |
| Decoder.HeadCodeIs | ws_header.cpp:70-147 | which headers are refused, and how, in numbers: 1002 for reserved bits and undefined opcodes; 1007 for a control frame without FIN, 1002 for one with more than 125 bytes, none for any other; 1002 for a continuation without a message and for anything else within one, none for any other |
| Progress.DecodeGrows | ws_session.cpp:136-208 | the outcomes of a stream are a prefix of the outcomes of every longer one |
| Progress.CutIsLast | ws_gather.cpp:39-50 | of an unfinished frame all bytes up to the last end of a chunk are read, and no more |
| ControlFrames.PingAnswered | ws_control.cpp:85-98 | a ping, with any key and up to 125 bytes, at any point of any message, is answered with 8A, the length and the same data in the clear, and everything else goes on as before |
| ControlFrames.PongIgnored | ws_control.cpp:99-101 | a pong, with any key and up to 125 bytes, changes nothing |
| ControlFrames.CloseAnswered | ws_control.cpp:52-84 | a close, with any key and up to 125 bytes, ends the connection: with 1007 if its reason is malformed; otherwise the answer carries the reason and the status code, which is kept if it is one of 1000-1003, 1007-1011 and 3000-4999 and becomes 1002 if not; a single byte comes back masked or as 03 |
| ControlFrames.EmptyCloseAnswered | ws_control.cpp:52-73 | the plainest close, with any key, is answered with 88 00 |
| ControlFrames.EmptyCloseForms | ws_control.cpp:52-73 | with an empty payload whose length is in an extended form it is accepted too, and answered with 88 7E or 88 7F |
| ControlFrames.ControlRefused | ws_header.cpp:131-137 | a control frame of a sender without FIN ends the connection with 1007, one with more than 125 bytes with 1002 |
| Messages.FragmentationKept | ws_header.cpp:127-146 | over every stream the accepted data frames obey section 5.4, and a message is open exactly when they end in an unfinished one |
| Messages.FragmentationExact | ws_header.cpp:139-146 | at every point of every accepted stream a data header with a defined opcode is accepted if and only if section 5.4 allows it there |
| Messages.FrameBytesParse | ws_gather.cpp:14-18 | the frame a sender makes of a fragment parses back to it, and its payload unmasks to the fragment's data |
| Messages.MessageOutcome | ws_gather.cpp:12-59 | for every list of fragments, masks and chunk size: the concatenated data is delivered if what is read as text is well-formed UTF-8, otherwise the connection ends with 1007 |
| Messages.InterleavedOutcome | ws_session.cpp:151-170 | the same with any pings and pongs in front of and between the fragments: first the answers to all pings, in order, each a pong with the ping's unmasked data, then the message; if it is refused, the answers to the pings in front of the fragments that are read, then the code |
| Messages.LastReadIsFirst | ws_gather.cpp:13-25 | these are the fragments up to the first one behind which the text cannot be continued |
| Messages.RefragmentingUnobservable | ws_gather.cpp:13-37 | two ways of fragmenting and masking one text have the same effect, whatever follows and whatever the chunk sizes |
| Messages.BinaryKeptIffUnfragmented | ws_header.cpp:85-85 | a binary message is delivered with its kind if and only if it is a single frame |
| Messages.FragmentedBinaryRefused | ws_header.cpp:85-85 | a binary message in two fragments that is refused as malformed text |
| Delivery.SplitIsTight | ws_session.cpp:216-227 | the parts of a message concatenate to it, all but the last have the chunk size, and the last is not empty unless the message is |
| Delivery.TightIsSplit | ws_session.cpp:216-227 | no other tight division exists |
| Delivery.ObservedRenderAll | ws_session.cpp:210-229 | the log of events shows the outcomes: nothing is lost or merged in the parts |
| Gathering.Gather.ReadChunk | ws_gather.cpp:12-59 | what is appended to the message is the read's bytes unmasked from the right offset; 1007 exactly when the text cannot be continued or ends within a character; otherwise the buffer is packed or closed, a closed one having the total size if and only if the message is closable, or the next read is the scheduled one if and only if the total is not behind and the chunk ends below 2^64 |
| Gathering.Gather.TakeIn | ws_gather.cpp:13-25 | a read adds its unmasked bytes to the flat message and its end to the schedule, and leaves checker, offset and packing in step |
| Gathering.Gather.Conclude | ws_gather.cpp:27-50 | without changing the bytes received: complete frames leave as many chunks as they need, complete messages are closed, to their size if and only if they are closable, and otherwise the next read ends with the chunk or the frame if and only if the total is not behind and the chunk ends below 2^64 |
| Gathering.Gather.ScheduleNext | ws_gather.cpp:39-50 | the next read goes behind the last byte, in the last chunk, for every total; it is as long as the rest of the chunk or of the frame if and only if the total is not behind what has been consumed and the chunk ends below 2^64 |
| Gathering.AskIsRead | ws_gather.cpp:45-49 | with the wrapped size of the buffer, the right amount is asked for if and only if the chunk ends below 2^64; otherwise it is the whole rest of the chunk |
| Gathering.Gather.Close | ws_gather.cpp:35-35 | the closed buffer has exactly the total size if and only if the closing sum does not wrap or the chunk size divides 2^64, for totals of zero and multiples of the chunk size too |
| Gathering.LastChunkSize | ws_gather.cpp:35-35 | for every total and chunk size of 64 bits, the arithmetic gives the size of the last chunk if and only if the sum does not wrap or the chunk size divides 2^64 |
| Gathering.Gather.WhereNext | ws_gather.cpp:40-49 | a scheduled read has something to read, stays within the last chunk, and ends at a chunk boundary or with the frame |
| Gathering.Gather.Reset | ws_gather.cpp:61-71 | a new message: all counters zero, the checker at rest, no reads |
| Gathering.Gather.More | ws_gather.cpp:73-77 | another frame: the total grows modulo 2^64 and falls behind what has been consumed if and only if it wraps, the offset into the key starts anew, and the schedule goes on |
| Gathering.Gather.EndsAreCuts | ws_gather.cpp:39-50 | the reads that took a message in have ended exactly at the multiples of the chunk size and at the ends of its frames |
| Gathering.Gather.EndsWithinChunks | ws_gather.cpp:39-50 | none of these reads was empty or crossed a chunk boundary, and there were at most as many as non-empty frames and full chunks together |
| Schedule.ReadsAreCuts | ws_gather.cpp:39-50 | the scheduled reads end exactly at the cut points, for every list of frame sizes |
| Schedule.ReadsWithinChunks | ws_gather.cpp:39-50 | no read is empty or crosses a chunk boundary, and the last one ends with the message |
| Schedule.ReadsAreFew | ws_gather.cpp:39-50 | there are at most as many reads as non-empty frames and full chunks together |
| Schedule.ReadsAdvance | ws_gather.cpp:39-50 | each read ends behind the one before it |
| Schedule.ThreeFrames | ws_gather.hpp:16-28 | the example of the comment, with the numbers the code gives |
| Chunks.ChunkVector.NewChunk | lib/utilities_chunk_vector.cpp:19-26 | a chunk of the full size is added behind the others and the flat contents in front of it stay; refused when closed |
| Chunks.ChunkVector.SizeIsLength | lib/utilities_chunk_vector.cpp:28-31 | the 64-bit size is the length of the flat sequence if and only if that is below 2^64 |
| Chunks.ChunkVector.CloseLastChunk | lib/utilities_chunk_vector.cpp:37-43 | the last chunk is cut or filled up to any size, and the buffer is closed; up to the old size the flat sequence is cut there |
| Chunks.ChunkVector.At | lib/utilities_chunk_vector.cpp:45-47 | the place returned for index i holds element i of the flat sequence |
| FrameHeaders.Header.NewBuffer | ws_header.cpp:12-16 | first stage, two bytes to read, a fresh buffer of 14 bytes |
| FrameHeaders.Header.Process | ws_header.cpp:28-35 | the first stage accepts exactly the defined first bytes; the second one decodes the header at the front of the buffer as section 5.2 has it and gives the verdict that `Decoder.HeadCodeIs` spells out |
| FrameHeaders.Header.ProcessState1 | ws_header.cpp:70-110 | 1002 exactly for undefined opcodes or reserved bits; otherwise the size of the rest, and a place for the key that does not overlap the length |
| FrameHeaders.Header.ProcessState2 | ws_header.cpp:112-147 | length, key and kind are those of the header in the buffer, for all three forms of the length |
| FrameHeaders.Header.Transfer | ws_header.cpp:61-66 | a decoded header stays decoded |
| NetworkOrder.Word64Value | ws_header.cpp:117-124 | the eight shifted bytes are their value in network byte order |
| FrameFormat.HeaderFields | ws_header.cpp:85-124 | where the length and the key are, and what the three forms of the length stand for, in numbers |
| FrameFormat.HeaderRoundTrip | lib/utilities_websocket.cpp:53-101 | parsing undoes writing for every length, masked or not |
| FrameFormat.ShortestForm | lib/utilities_websocket.cpp:77-101 | no header for the same length is shorter than the one that is written, and every length is below 2^64 |
| Masking.ApplyMask | lib/utilities_websocket.cpp:103-138 | in place, with the unrolled loop and the shortcut for the zero key: the checker ends where the whole unmasked range takes it; the range holds the per-octet result up to the byte that failed, or to the end of its stride, and the old bytes behind; and the offset has advanced by exactly the bytes of the second loop that did not fail |
| Masking.MaskStrides | lib/utilities_websocket.cpp:114-130 | the unrolled loop unmasks all but the last three bytes at most, or up to the end of the stride with the first failure |
| Masking.MaskBytes | lib/utilities_websocket.cpp:131-137 | the byte-by-byte loop unmasks up to and including the first byte that fails, and counts those in front of it |
| Masking.TwoCalls | lib/utilities_websocket.cpp:103-138 | two calls, with offset and checker handed on, equal one call |
| Masking.SameUnmask | lib/utilities_websocket.cpp:105-112 | offsets congruent modulo 4 agree, and under the zero key any offset will do |
| Bytes.UnmaskAt | lib/utilities_websocket.cpp:118-134 | octet i is combined with octet i modulo 4 of the key |
| Bytes.UnmaskTwice | lib/utilities_websocket.cpp:103-138 | masking is its own inverse |
| Bytes.UnmaskConcat | lib/utilities_websocket.cpp:103-138 | unmasking in two pieces is unmasking in one pass |
| Utf8.Byte.Validate | lib/utilities_utf8.cpp:71-118 | up to the first failure the checker follows the automaton; in every other state, what it answers and how it counts on |
| Utf8.Byte.SetLength | lib/utilities_utf8.cpp:120-165 | the bytes that must follow a first byte |
| Utf8.Byte.Ok | lib/utilities_utf8.cpp:63-65 | valid exactly when nothing has failed |
| Utf8.Byte.Complete | lib/utilities_utf8.cpp:67-69 | complete exactly between characters |
| Utf8.CompleteIffWellFormed | lib/utilities_utf8.cpp:63-165 | stopped at the first failure, the checker is complete exactly on the well-formed strings of RFC 3629 |
| Utf8.NotFailedIffExtendable | lib/utilities_utf8.cpp:63-165 | and has not failed exactly on the strings that can be continued to a well-formed one |
| Utf8.SurvivedIff | lib/utilities_utf8.cpp:71-118 | the checker has not failed on exactly the prefixes up to its first failure |
| Scalars.CharIff | lib/utilities_utf8.cpp:71-165 | the characters of the grammar are exactly the encodings of the Unicode scalar values, their bits spread over one to four bytes |
| Scalars.WellFormedIff | lib/utilities_utf8.cpp:63-165 | the well-formed strings, on which the checker is complete, are exactly the encodings of sequences of Unicode scalar values |
| Scalars.SameScalar | lib/utilities_utf8.cpp:71-165 | no two scalar values have the same encoding |
| Controls.Control.Process | ws_control.cpp:41-106 | the reply built in place, its size and the state are what the control frame calls for; `Controls.CloseFrame`, `Controls.PongFrame` and the lemmas of `ControlFrames` say what that is |
| Controls.Control.UnmaskClose | ws_control.cpp:53-70 | unmasking status code and reason in two calls equals one pass, and the reason is accepted exactly when it is well formed |
| Controls.Control.ReplaceCode | ws_control.cpp:74-84 | a status code outside 1000-1003, 1007-1011 and 3000-4999 becomes 1002, and nothing else changes |
| Controls.PongFrame | ws_control.cpp:85-98 | the answer to a ping is an unmasked pong frame with the unmasked data if and only if the ping's length was in the short form |
| Controls.CloseFrame | ws_control.cpp:52-84 | a close frame, whatever the form of its length and with any payload, is accepted if and only if it has no reason or a well-formed one; the answer is 88, the bare length and the payload of the answer, and is a close frame if and only if the length was in the short form |
| Controls.ClosingCode | ws_control.cpp:74-84 | the status code in the answer is the one received if that is 1000-1003, 1007-1011 or 3000-4999, and 1002 otherwise |
| OutboundHeader.Reserve | lib/utilities_websocket.cpp:14-27 | the space for the shortest form of the length and no mask |
| OutboundHeader.Flags2Header | lib/utilities_websocket.cpp:53-75 | the first byte and the mask bit, whatever was in the buffer |
| OutboundHeader.Length2Header | lib/utilities_websocket.cpp:77-101 | the length field of section 5.2 with the mask bit kept, and its size |
| OutboundHeader.MakeHeader | lib/utilities_websocket.cpp:29-42 | the frame header for the flags, the length and the generated mask, whatever was in the buffer |
| OutboundHeader.WriteRoundTrip | ws_session.cpp:231-241 | for every 64-bit length and both kinds: the written header fills exactly the reserved space and parses back to FIN, the kind, the length and no mask |
| OutboundHeader.FlagsRoundTrip | lib/utilities_websocket.cpp:29-75 | for every first byte, with or without a mask, and every length: the header that is written parses back to FIN, the length and the key; its first byte is the one asked for if and only if that has bit 2 clear, and differs in no other bit |
| OutboundHeader.ReserveIsExact | lib/utilities_websocket.cpp:17-18 | reserved and written sizes agree if and only if no mask is asked for |
| Outbound.Write | ws_session.cpp:231-260 | what goes to the socket is one unmasked frame with FIN, the kind, and the data as its payload |
| Outbound.WrittenIsDelivered | ws_session.cpp:231-260 | read by a session, it is delivered with kind and data, unless it is text that is not well formed |
| Base64.Encode | lib/base64.hpp:26-58 | for all lengths: the text of the data's bit stream in the alphabet and all writes inside the string as long as the product in its size does not wrap; writes behind the end, up to the lengths that the check lets pass; the length error above; the failed assertion for empty data |
| Base64.Decode | lib/base64.hpp:95-120 | the bit stream of the alphabet characters regrouped in eights, or an error exactly when a character is neither legal nor skipped |
| Base64.RoundTrip | lib/base64.hpp:26-120 | decoding the encoded text gives the data back |
| Base64.SkippedUnobservable | lib/base64.hpp:105-108 | the characters 9 to 13, the blank and the equals sign may be inserted anywhere |
| Base64.RefusedIff | lib/base64.hpp:105-111 | a text is refused if and only if it contains a character that is neither one of these nor one of the 64 of the alphabet |
| Base64.StandardIff | lib/base64.hpp:35-36 | the text is the one of section 4 of RFC 4648 if and only if the length is 2 modulo 3; with 1 it lacks the two characters of padding, with 0 it has one too many |
| Base64.StandardIs | lib/base64.hpp:42-54 | the standard, defined on the four groups of six bits of three bytes by arithmetic, is the regrouping of the whole bit stream, padded |
| Base64.TablesInverse | lib/base64.hpp:13-24 | the two tables are inverse to each other on the alphabet |
| Base64.TableIs | lib/base64.hpp:13-13 | the table is the alphabet, character by character |
| Base64.LegalIs | lib/base64.hpp:15-24 | the reverse table knows exactly the characters of the alphabet, and the table gives each of them back |

## Left out

- Sessions.Serve: stops where a 64-bit counter goes wrong (`Lost`). What the code does after that, with a read that
  goes too far, a total behind the bytes consumed or a last chunk of a wrong size, is stated for the numbers
  (`Gathering.Gather.ScheduleNext`, `Gathering.Gather.Close`) and not for the bytes.
- Base64.Decode: characters are numbers from 0 on; a negative `char` stands for a byte above 127 and is illegal either
  way.
- OutboundHeader.MakeHeader: the generated mask is a parameter; randomness is not modelled.
- Outbound.Write: header and data are one sequence; that the two buffers stay alive until they are sent is not modelled.
- The HTTP handshake at `ws_session.cpp:71-134`, with its buffer; SHA-1; the zmq transport.
- Sockets, strands and threads: reads take an exact prefix of the stream and writes are appended to a log. Errors of the
  transport, which only remove the session, are left out.
- `request` is posted to another strand; the model runs it at once, with the kind the header has at that moment.
- The chunks are handed to the dealer by value; in the code they are moved out of the buffer, which is not used again.
- The `std::string` overload of `base64_encode`.
- `SessionManager`, `Server`, `Timeouts`, `Print`, `Random` and `Debugging`: containers, unfinished code, output and
  randomness.
