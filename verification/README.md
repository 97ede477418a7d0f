# A verified model of the WebSocket data path and of the UDP demultiplexer

The project models the code that turns messages into RFC 6455 frames and frames back into messages, and
proves what its documentation promises about whole runs, for every way in which the network may cut the
byte stream and for every choice of read buffers.

## The layers

* **Bytes and masking** (`Bytes`, `Masking`). A byte is an integer in 0..255, and exclusive-or is pinned down bit
  by bit. `Masked` is masking in one line; `FastCipher` is the in-place loop in three phases, proved against it.
* **Headers** (`Header`, `HeaderIO`). `ParseHeader` says what a byte string means as a header,
  `HeaderBytes` is the shortest encoding, and `ReadHeader` and `PackHeader` are the two buffer routines.
* **Sources** (`Streams`). A source is a finite byte string of which each read hands out an arbitrary
  non-empty part. On it stand the limited reader and the unmasking reader.
* **The frame reader** (`Framing`, `FrameReader`, `Sync`). The class `Reader` has the fields of the source's
  `FrameReader`. The stack of readers behind its `frame` field is a record of the layers that are in it.
  Its invariant says that the open frame, or the last one, stops at a frame boundary, and that the source
  position plus the rest of the frame is that boundary, unless the stream stopped inside the frame.
* **The message loop** (`Inbound`). `MessageReader.Read` is the transport's `Read`.
* **Meaning** (`Semantics`, `Frames`, `Messages`, `Honesty`, `Answering`). `Idle`, `Between` and `Deliver` read a byte
  string one byte at a time and know nothing of buffers, short reads or fields. Every read of the classes
  is proved to return the next part of what they say. They are then shown to be a run of an automaton over
  whole frames, and the theorems on messages are proved about that automaton.
* **Rules** (`Rules`). What the layers above have in common, said once more in the numbers of RFC 6455 and RFC 7692 and
  on byte strings: where each field of a frame is, which headers are refused and with which error, which messages are
  delivered, and how a close is answered.
* **The writer** (`Deflate`, `Outbound`, `Compression`). The compressor's output loses its four-byte tail
  in a buffer that holds it back; `Write` makes one frame of a message; a reader appends the tail again. The
  connection cannot be written to without its lock.
* **Both ends and many writers** (`EndToEnd`, `Writers`, `Locking`, `Calls`). What one side writes is what the other
  side's reader observes, also when data writers, the close writer and the control handlers interleave under
  the write lock. The writing methods are shown to be runs of that step system, and so is any sequence of
  their calls.
* **The UDP demultiplexer** (`Udp`, `UdpLoop`). `Udp` is a system of steps of the main loop and of the
  children's users in any order, with its invariant over all runs. `UdpLoop.Acceptor` is the main loop on
  its own fields, with any steps of the others in between; its invariants say that its fields are a state
  that the step system reaches, and that every queued packet holds the bytes of its datagram.

## Findings

* The comment on the transport's `Read` (websocket/transport.go:200-208) promises `io.EOF` only if all of a
  message was read. The code does not keep it in one case, and `EofHonest` says exactly which: the stream
  stops right behind the header of a close frame that announces a payload, inside a fragmented message that
  is being delivered. `BareCloseHappens` is a concrete stream. The cause is `io.ReadFull`, which returns a
  plain `io.EOF` when not one byte of the close payload is there (websocket/internal/wsutils/cipher_handler.go:135).
* A ping that is cut off is answered with a part of its payload in exactly one case: inside a fragmented
  message, if at least one byte of the payload arrived (`TruncatedPing`; `TruncatedPingHappens` has the streams).
  If the stream stops right behind the ping's header, nothing has been written to the control writer and its
  flush sends nothing; between two messages a cut-off ping is never answered.
* Framing stays in sync with two exceptions before an error is returned, both at the end of a stream that stops
  inside a frame. A cut-off ping or pong inside a message is not an error, and the next header is looked for with
  payload left over in the limited reader. Discarding a message whose last fragment is cut off is not an error
  either, and leaves the position short of the frame boundary. `AtBoundary` says that there are no others: in
  front of a header nothing is left over and the position is at a boundary, if and only if the stream holds all
  of the frame before. `Sync.CutPing` and `Sync.CutFragment` are concrete streams.

## Model

| member | source | states |
|---|---|---|
| Masking.FastCipher | websocket/internal/wsutils/cipher_handler.go:40-59 | in place, byte `i` of the slice becomes the exclusive-or, bit by bit, of itself and key byte `(off + i) mod 4`, for every length and offset, and nothing outside the slice changes; the three loops refine this |
| Bytes.XorExact | websocket/internal/wsutils/cipher_handler.go:46 | the byte operation has each bit set if just one of the two bits is, and is the only one that does |
| Masking.XorBlock | websocket/internal/wsutils/cipher_handler.go:49-54 | the unrolled round combines four bytes with the whole key when it starts at phase 0 |
| Masking.MaskedTwice | websocket/internal/wsutils/cipher_handler.go:40-59 | masking twice with the same key and offset gives back the bytes |
| Masking.MaskedSplit | websocket/internal/wsutils/cipher_handler.go:30-37 | a payload may be masked in two parts, the second at the phase at which the first stopped |
| Streams.CipherReader.Read | websocket/internal/wsutils/cipher_handler.go:30-37 | whatever the size of each chunk, the bytes handed out continue one unmasking of the whole payload |
| Streams.CipherReader.Reset | websocket/internal/wsutils/cipher_handler.go:24-28 | a reset reader starts at phase 0 of the new key |
| Header.HeaderRoundTrip | websocket/internal/wsutils/frame_reader.go:213-277 | a written header followed by any bytes reads back as itself and takes exactly its own bytes |
| Header.HeaderMinimal | websocket/transport.go:452-470 | of all byte strings that read as a given header, the written one is the unique shortest (section 5.2 of RFC 6455) |
| Header.ParsedIsValid | websocket/internal/wsutils/frame_reader.go:241-272 | an accepted header has a length below 2^63 and no mask unless it is masked |
| HeaderIO.ReadHeader | websocket/internal/wsutils/frame_reader.go:213-277 | the header, the error and the number of bytes consumed, with every error too, are those of the byte string left in the source, however it is cut and whatever the scratch buffer holds |
| HeaderIO.Unpack | websocket/internal/wsutils/frame_reader.go:261-275 | the second switch assembles length and mask from the bytes behind the first two, and refuses a length with the top bit set |
| HeaderIO.PackHeader | websocket/transport.go:433-476 | writes the shortest header bytes whatever the pooled buffer held; fails only for lengths of 2^63 and above |
| HeaderIO.PackLength | websocket/transport.go:452-469 | the length switch: the seven-bit value and the 0, 2 or 8 bytes behind it |
| HeaderIO.PackMask | websocket/transport.go:471-474 | sets the mask bit and puts the key behind the length, keeping the rest |
| FrameReader.BoundaryNext | websocket/internal/wsutils/frame_reader.go:98-113 | from a frame boundary, one header and its length lead to the next frame boundary |
| FrameReader.Answerer.AnswerClose | websocket/internal/wsutils/cipher_handler.go:138-164 | once the payload is there, one that passes the check is answered with its code, any other with a protocol error, and an empty close empty; an error always follows |
| FrameReader.Reader.constructor | websocket/transport.go:94-110 | a new reader satisfies the invariant and stands between messages |
| FrameReader.Reader.CopyPlain | websocket/internal/wsutils/cipher_handler.go:100 | copying a frame to its end gives the unmasked payload, or what there is of it, and takes not a byte more |
| FrameReader.Reader.HandleIntermediate | websocket/internal/wsutils/cipher_handler.go:82-154 | a control frame inside a message consumes its payload, or what there is of it, and nothing more; a ping is answered with what arrived, unless that is nothing of a payload that was announced; a cut-off close fails with a plain or an unexpected end of file |
| FrameReader.Reader.Stack | websocket/internal/wsutils/frame_reader.go:113-122 | points the limited and the unmasking reader at exactly the payload of the header |
| FrameReader.Reader.TakeHeader | websocket/internal/wsutils/frame_reader.go:99-111 | the header checks in their order; the end of the frame is a frame boundary |
| FrameReader.Reader.CheckRules | websocket/internal/wsutils/frame_reader.go:103-111 | a header that is otherwise in order is refused as too large if and only if its length exceeds a positive limit |
| FrameReader.Reader.OpenFrame | websocket/internal/wsutils/frame_reader.go:113-172 | a data frame is opened with the right layers; a control frame inside a message is handled at once |
| FrameReader.Reader.ChooseLayers | websocket/internal/wsutils/frame_reader.go:115-161 | the unmasking layer is there for a masked frame, the inflating one for RSV1 on opcode 1 or 2, and the checking one for text if it is checked, over all fragments |
| FrameReader.Reader.NextFrame | websocket/internal/wsutils/frame_reader.go:98-173 | opens the frame behind the header, compressed or not, and then the source position plus the rest of the frame is a frame boundary; a control frame inside a message leaves `frame`, `opCode`, the UTF-8 state and the fragmented flag as they were, and in the limited reader exactly what is missing of it |
| FrameReader.Reader.AtBoundary | websocket/internal/wsutils/frame_reader.go:98-113 | in front of the next header nothing is left over and the position is at a frame boundary, if and only if the stream holds all of the frame before; otherwise the stream is at its end |
| Sync.CutPing | websocket/internal/wsutils/frame_reader.go:143-151 | a concrete stream on which `NextFrame` returns no error and leaves one byte of a ping in the limited reader |
| Sync.CutFragment | websocket/internal/wsutils/frame_reader.go:81-96 | a concrete stream on which `Discard` returns no error four bytes short of the frame boundary |
| FrameReader.Reader.CheckUtf8 | websocket/internal/wsutils/frame_reader.go:156-159 | over any chunk the decoder continues where it stood; the accepted length is the longest part that ends with a whole code point |
| FrameReader.Reader.ReadLayers | websocket/internal/wsutils/frame_reader.go:57 | one read through the stack returns the next unmasked bytes of the frame, checked as text if it is text |
| FrameReader.Reader.Finish | websocket/internal/wsutils/frame_reader.go:65-77 | the four ways in which a frame ends: cut off, with a successor, with a text that is not UTF-8, and as the end of the message; with the UTF-8 error comes the number of bytes up to the last whole code point of this read |
| FrameReader.Reader.ResetFragment | websocket/internal/wsutils/frame_reader.go:177-184 | no frame is open and the readers let go of the payload |
| FrameReader.Reader.Reset | websocket/internal/wsutils/frame_reader.go:186-200 | as between two messages, the UTF-8 state included |
| FrameReader.Reader.ReadFrame | websocket/internal/wsutils/frame_reader.go:57-78 | a read of an open frame returns the next of its bytes and leaves the reader in the frame, in the gap behind it or behind the message; it makes progress; with the UTF-8 error, of the bytes that were taken those up to the last whole code point are returned |
| FrameReader.Reader.NextFragment | websocket/internal/wsutils/frame_reader.go:49-55 | in a gap, one header is read: it opens the next fragment, or a control frame is handled and the gap stays |
| FrameReader.Reader.Read | websocket/internal/wsutils/frame_reader.go:44-79 | every read is a step of what the stream holds; between messages it is an error that changes no field and no byte; each read with a buffer makes progress |
| FrameReader.Reader.SkipMessage | websocket/internal/wsutils/frame_reader.go:82-93 | the loop of `Discard` drops the fragments and answers the pings among them, stops at the end of that very message, and ends because every round takes a header |
| FrameReader.Reader.Discard | websocket/internal/wsutils/frame_reader.go:81-96 | skips the rest of a message, in any number of fragments, exactly: it stops where that message ends, or at the end of a stream that cuts it off, with nothing left over and the fragmented flag cleared |
| Messages.MessageEndsThere | websocket/internal/wsutils/frame_reader.go:81-96 | where a message ends is behind the last of its frames, whatever follows them |
| Inbound.MessageReader.CopyFrame | websocket/transport.go:222-226 | a control frame between messages is read through the frame reader to its end; a cut-off one is an unexpected end of file |
| Inbound.MessageReader.HandleControl | websocket/transport.go:222-226 | consumes exactly the control frame and answers it |
| Inbound.MessageReader.DiscardRound | websocket/transport.go:229-240 | a message of a kind that is not accepted is dropped, the peer is told, and the loop goes on; an end of file on the way becomes an unexpected one |
| Inbound.MessageReader.NextMessage | websocket/transport.go:211-245 | the loop opens the next accepted message and never returns a plain end of file |
| Inbound.MessageReader.Read | websocket/transport.go:209-254 | what one call returns and writes is the next part of what the stream holds, with a plain end of file exactly where an end of message is observed |
| Semantics.DeliverSplit | websocket/internal/wsutils/frame_reader.go:57-63 | delivering a payload in two parts is delivering it at once |
| Semantics.MovesObserved | websocket/internal/wsutils/frame_reader.go:57-78 | each outcome of one read is a step, or the end, of what is observed |
| Semantics.OpensObserved | websocket/internal/wsutils/frame_reader.go:98-173 | reading one header in a gap is a step of what is observed |
| ReadLoop.ReadToEnd | websocket/transport.go:209-254 | reading with buffers of any sizes ends, and the caller holds exactly the messages and the partial one that the stream holds |
| ReadLoop.ReadStream | websocket/transport.go:209-254 | the same for a new reader on any byte string: the result depends on neither the cuts nor the buffers |
| Frames.FrameReads | websocket/internal/wsutils/frame_reader.go:98-173 | reading one whole frame byte by byte is one step of the frame automaton |
| Frames.StreamReads | websocket/transport.go:209-254 | reading a stream of frames is a run of the automaton, whatever follows |
| Messages.Reassembly | websocket/internal/wsutils/frame_reader.go:44-79 | a message in any fragments with any pings and pongs among them is delivered as the concatenation of its unmasked fragments with one end of message, and each ping is answered in order; a checked text is delivered so if and only if the decoder accepts the concatenation, and otherwise ends in the UTF-8 error (sections 5.4 and 8.1 of RFC 6455) |
| Messages.FragmentsRun | websocket/internal/wsutils/frame_reader.go:143-171 | the verdict on the fragments of a message from any state of the decoder |
| Messages.MessageSkipped | websocket/internal/wsutils/frame_reader.go:81-96 | a message that is not accepted is dropped exactly, and reading goes on with the byte behind its last frame |
| Rules.HeadFields | websocket/internal/wsutils/frame_reader.go:228-276 | the final bit, the reserved bits and the opcode are in the first byte, the mask bit and seven bits of length in the second; a length of 16 or 64 bits is behind them, high byte first, and then the key |
| Rules.FrameLayout | websocket/transport.go:256-295 | what is written, byte by byte: first byte, mask bit and shortest length, key, and the payload under exclusive-or with the key, bit by bit, or as it is from a server |
| Rules.PayloadRead | websocket/internal/wsutils/frame_reader.go:113-122 | the payload that is read is that on the wire, under exclusive-or, bit by bit, with the key at the end of the header if it is masked |
| Rules.HeaderVerdict | websocket/internal/wsutils/frame_reader.go:98-127 | between messages and inside them, a header is refused if and only if it breaks a rule of sections 5.1 to 5.5 of RFC 6455 or 6 of RFC 7692 or the size limit; nothing of it or behind it is observed but an error that names a broken rule |
| Rules.TooLarge | websocket/internal/wsutils/frame_reader.go:109-111 | a frame whose header is otherwise in order is refused as too large if its length exceeds a positive limit, and, as the header alone shows, only then |
| Rules.LaterTooLarge | websocket/internal/wsutils/frame_reader.go:109-111 | with more behind a short frame, that error may be a later frame's: a concrete stream |
| Rules.LimitKept | websocket/internal/wsutils/frame_reader.go:109-111 | in every byte string, no byte of a frame longer than a positive limit is delivered, and nothing behind it |
| Rules.AcceptedOrRefused | websocket/transport.go:229-243 | an uncompressed message, in any fragments, is delivered if the bit of its opcode, 1 or 2, is set in the option, and dropped and refused if it is clear; nothing else decides |
| Rules.FirstFrameVerdict | websocket/transport.go:229-243 | the same on the first frame, whatever follows: its payload is observed next, or it is dropped, and refused behind the last frame; RSV1 alone marks a compressed message |
| Rules.CloseVerdict | websocket/internal/wsutils/cipher_handler.go:117-164 | a whole close frame, between messages or inside one: an empty one is answered empty with code 1005, one in order is answered with its two code bytes, and its code is these, any other is answered with a protocol error |
| Honesty.EofHonest | websocket/transport.go:200-220 | for every byte string, cut by `Split` into whole frames and a rest: plain ends of file are returned once for each delivered message that the frames complete, and once more if and only if the rest is a bare close header inside a delivered message; the last error is that of the rest, and never a plain end of file |
| Honesty.RunCompletes | websocket/internal/wsutils/frame_reader.go:65-77 | along any run of frames, ends of message are exactly the final data frames of messages that are not skipped |
| Honesty.StuckEnds | websocket/internal/wsutils/frame_reader.go:65-70 | where no further frame can be read, nothing but a bare close header looks like an end of message, and the error is exactly that of the header, of the cut, or of the frame that stops the reader |
| Honesty.CutOffEnds | websocket/transport.go:200-220 | a frame in order that is cut off in its payload ends in the UTF-8 error if it belongs to a delivered text and the decoder rejects what there is of it, and otherwise in an unexpected end of file, unless it starts a compressed message; what looks like an end of message is the bare close alone |
| Honesty.Split | websocket/internal/wsutils/frame_reader.go:98-173 | every byte string is whole frames and then a rest in front of which the reader is stuck |
| Honesty.BareCloseHappens | websocket/internal/wsutils/cipher_handler.go:135-137 | the exception happens: a concrete stream on which an incomplete message is taken for a whole one |
| Honesty.HeaderCutOff | websocket/internal/wsutils/frame_reader.go:98-108 | a header that is cut off anywhere shows nothing and ends in an unexpected end of file, between messages and inside them |
| Honesty.TruncatedPing | websocket/internal/wsutils/cipher_handler.go:82-104 | a pong is shorter than its ping if and only if the ping is cut off with at least one byte of payload there, inside a message; a whole ping is answered whole, any other cut-off one not at all |
| Honesty.TruncatedPingHappens | websocket/internal/wsutils/cipher_handler.go:100-104 | both cases on concrete streams: a pong with one of five bytes, and no pong |
| Deflate.HoldBack.Write | websocket/internal/wsutils/flate_wrapper.go:167-185 | after any writes, what was passed on and what is held are all that was written, and the last four bytes are held; after an error nothing more is taken |
| Deflate.HoldBack.Reset | websocket/internal/wsutils/flate_wrapper.go:203-208 | forgets what was written and zeroes the buffer |
| Deflate.HoldBack.Flush | websocket/internal/wsutils/flate_wrapper.go:187-191 | passes bytes on unless an earlier write failed; the error is sticky |
| Deflate.HeldMoves | websocket/internal/wsutils/flate_wrapper.go:171-183 | how a write moves the boundary between the bytes passed on and those held |
| Deflate.TailCheckExact | websocket/internal/wsutils/flate_wrapper.go:153-157 | the buffer equals the tail if and only if all that was written ends in 00 00 ff ff; short outputs never do |
| Deflate.SuffixedReader.Read | websocket/internal/wsutils/flate_wrapper.go:225-240 | hands out the source and then the tail in any chunks, and a plain end of file only behind both |
| Deflate.SuffixedReader.Reset | websocket/internal/wsutils/flate_wrapper.go:263-266 | the whole new source and the whole tail are to come |
| Deflate.ReadAll | websocket/internal/wsutils/flate_wrapper.go:225-240 | read with any buffers, the stream is the source followed by 00 00 ff ff |
| Deflate.StripAndRestore | websocket/internal/wsutils/flate_wrapper.go:167-240 | an output that ends in the tail, written in any chunks and read in any chunks, loses its tail and gets it back |
| Deflate.FlateWriter.Reset | websocket/internal/wsutils/flate_wrapper.go:107-115 | forgets the message before and any sticky error |
| Deflate.FlateWriter.Write | websocket/internal/wsutils/flate_wrapper.go:118-127 | feeds the compressor, in whatever chunks it writes; an earlier error stays |
| Deflate.FlateWriter.Flush | websocket/internal/wsutils/flate_wrapper.go:130-137 | succeeds, on a working destination, if and only if the output ends in the tail, and then the destination holds the output without it |
| Deflate.FlateWriter.CheckTail | websocket/internal/wsutils/flate_wrapper.go:153-157 | no error if and only if there was none and the output ends in the tail |
| Outbound.MessageWriter.Squeeze | websocket/transport.go:321-345 | whatever the compressor did before, its payload and the tail are what a fresh one makes of the message; it fails exactly if that does not end in the tail |
| Outbound.Connection.Write | websocket/transport.go:285-292 | bytes reach the connection only while the lock is held, all of them or, on a faulty connection, a part |
| Outbound.MessageWriter.WriteFrame | websocket/transport.go:265-294 | masks in place if it is a client and puts exactly one frame on the connection under one hold of the lock, whatever the pooled buffer held |
| Outbound.MessageWriter.WriteCompress | websocket/transport.go:297-377 | one frame with RSV1 that carries the compressed message; nothing is written if compression fails |
| Outbound.MessageWriter.Write | websocket/transport.go:256-295 | a message becomes exactly one frame; without compression, or below the threshold, its payload is the message and RSV1 is clear; with it, from the threshold on, its payload and 00 00 ff ff are what the compressor makes of the message and RSV1 is set; only a client's plain write changes the caller's bytes, by masking them |
| Outbound.MessageWriter.WriteClose | websocket/transport.go:392-408 | exactly one close frame with the code and as much of the reason as fits, masked if it is a client's, header and payload under one hold of the lock |
| Outbound.MessageWriter.WriteAnswer | websocket/internal/wsutils/cipher_handler.go:82-164 | each answer of the control handler is exactly one control frame under one hold of the lock |
| Outbound.FirstOnWire | websocket/transport.go:442-450 | the first byte that reaches the connection is 0x80, plus 0x40 if the message is compressed, plus the opcode |
| Outbound.CloseBodyBytes | websocket/transport.go:392-393 | a close payload is the code in two bytes, the high one first, and the reason or its first 123 bytes |
| Outbound.ReplyBytes | websocket/internal/wsutils/cipher_handler.go:82-164 | the answers in bytes: a pong has opcode 10 and the payload, the closes have opcode 8; 03 ea and the reason for a protocol error, 03 eb and the reason for data that is not accepted |
| Compression.Inflate | websocket/internal/wsutils/flate_wrapper.go:52-69 | inflating a payload with a reused reader inflates the payload and the tail, wherever the reader stood before |
| Compression.FramesMean | websocket/transport.go:297-377 | the frames of any messages, each compressed or not by the threshold, masked or not, read, unmasked and inflated, are these messages |
| Compression.TakeMessage | websocket/internal/wsutils/frame_reader.go:113-134 | the payload of one frame is taken and unmasked, and if RSV1 is set it is inflated with 00 00 ff ff behind it; fails exactly if the payload is not all there |
| Compression.ReadFrames | websocket/internal/wsutils/frame_reader.go:113-134 | a receiver that parses each header, unmasks in place and inflates what is marked with RSV1 finds the messages that the stream means |
| Compression.SendAndInflate | websocket/transport.go:256-377 | over any sequence of `Write` calls, compressed or not, through the persistent or the pooled compressor and after any earlier state, the frames on the wire give every message back as itself |
| EndToEnd.EntryOnWire | websocket/transport.go:256-295 | what a side writes is a frame that passes the peer's checks and unmasks to what was written |
| EndToEnd.CloseArrives | websocket/transport.go:392-408 | the peer of `WriteClose` stops with the code that was written, and echoes it |
| EndToEnd.LogRead | websocket/transport.go:209-295 | of everything that one side writes, the other side observes exactly the data messages in front of the first close frame, in order and with their boundaries, and then the close error or the end of the stream |
| Outbound.MessageWriter.Writev | websocket/transport.go:379-390 | the messages become whole frames in order; the sum of their sizes is returned on success, zero at the first error |
| EndToEnd.SendAndReceive | websocket/transport.go:209-295 | messages written by one role are received by the other, exactly and in order, for any masks, any lengths, any cuts and any buffers |
| Writers.WholeFramesKept | websocket/transport.go:285-292 | every step of every writer keeps the wire a concatenation of whole frames, but for the frame of the lock's holder |
| Writers.InOrderKept | websocket/transport.go:285-292 | every step keeps what each writer has sent and has still to send equal to its program |
| Writers.EveryRun | websocket/transport.go:402-405 | both hold in every state of every interleaving |
| Writers.PeerReads | websocket/internal/wsutils/cipher_handler.go:84-103 | whenever the lock is free, the peer reads the data messages of all writers whole, interleaved so that each writer's own order is kept |
| Locking.FrameIsRun | websocket/transport.go:285-292 | a frame put on the wire in any number of writes under one hold of the lock is a run of the step system |
| Locking.WriteRuns | websocket/transport.go:256-295 | `Write` of a plain message takes the step system from the wire before it to the wire after it |
| Locking.CloseRuns | websocket/transport.go:392-408 | so does `WriteClose` |
| Locking.AnswerRuns | websocket/internal/wsutils/cipher_handler.go:82-164 | so does each answer of the control handler, as the log entry that it is mapped to |
| Calls.ReachesTwice | websocket/transport.go:285-292 | runs of the step system compose |
| Calls.RunExtends | websocket/transport.go:285-292 | a run stays a run when a writer gets more to send |
| Calls.PerformAll | websocket/transport.go:256-295 | any sequence of calls of the writing methods by any writers is a run of the step system from its start, with the calls' entries as its log |
| Calls.CallsArrive | websocket/transport.go:209-408 | the peer of any such sequence reads the messages of the calls in front of the first close, whole and in order |
| Answering.IdleFits | websocket/internal/wsutils/cipher_handler.go:82-164 | whatever the stream holds, every answer has at most 125 bytes of payload (section 5.5 of RFC 6455) |
| Answering.AnswersSendable | websocket/internal/wsutils/cipher_handler.go:82-164 | so the answers are a program for the control handler that the peer takes |
| Udp.ArriveStep | udp/factory.go:127-152 | an arriving datagram is waiting for its peer's child or dropped for want of room, and no other datagram moves |
| Udp.PushStep | udp/transport.go:149-151 | the waiting datagram, and no other, joins its child's queue |
| Udp.RefuseStep | udp/factory.go:155-158 | the waiting datagram, and no other, is dropped and its child is unmapped |
| Udp.QuietStep | udp/transport.go:134-142 | accepting, reading, closing, a socket error and an abort move no datagram |
| UdpLoop.Acceptor.Dispatch | udp/factory.go:127-152 | on the fields: a datagram of a known peer waits for that peer's child, for a new peer a child is made, published and mapped next to the others if there is room, and otherwise the datagram is dropped and nothing is mapped; it is cut to the size of the buffer, and the packet that waits is a copy of its own |
| UdpLoop.Acceptor.CutFits | udp/factory.go:127 | a datagram that fits into the buffer is taken whole, and a longer one is cut to the size of the buffer |
| UdpLoop.Acceptor.Received | udp/transport.go:144-152 | the select takes only a case that is ready, and blocks only on an open child with 128 packets queued |
| UdpLoop.Acceptor.Deliver | udp/factory.go:154-158 | one attempt either queues the packet behind all others of its child, or drops it because the child was closed and unmaps just this peer, or sends on a closed channel and aborts, or changes nothing because the queue is full |
| UdpLoop.Acceptor.CloseAll | udp/factory.go:128-135 | after a read error every mapped child is closed, and its queue too, unless its own `Close` stood between the two; peers, packets and all other children are as they were; the map is empty and the loop is over |
| Udp.HalfClosed | udp/transport.go:134-142 | that exception happens: a run in which the socket fails while a child's `Close` has closed the flag and not yet the queue, which is still to come |
| UdpLoop.Acceptor.CloseChild | udp/transport.go:134-142 | the two steps of `Close` of a child, the flag and then the queue, each once |
| UdpLoop.Acceptor.Accept | udp/factory.go:97-105 | hands out the oldest child of the backlog, or fails because the listener is closed; if both are ready, either |
| UdpLoop.Acceptor.Close | udp/factory.go:107-120 | closing the listener succeeds exactly once |
| UdpLoop.Acceptor.TakePacket | udp/transport.go:144-152 | the packet that leaves a child's queue is its oldest and holds the bytes of the oldest datagram queued, which its peer sent, whatever the receive buffer holds by then; the rest of the queue and all other children stay |
| UdpLoop.Acceptor.MainLoop | udp/factory.go:122-161 | for any datagrams and any steps of the others in between, the loop stays in the reachable states, takes the datagrams in order, whole if they fit into the buffer, keeps every queued packet equal to its datagram, and ends by a read error, an abort or a full queue that nobody reads; after a read error all children that were mapped just before are closed, and no other is touched |
| Udp.EveryRun | udp/factory.go:122-161 | every run keeps the invariant, and a datagram's place is final unless it was waiting |
| Udp.Demultiplexed | udp/factory.go:122-161 | in every reachable state, a child's datagrams came from its own peer, in order and none twice; a mapped child is its address's; every child was published exactly once |
| Udp.DatagramsConserved | udp/factory.go:137-158 | every datagram taken off the socket is in exactly one place: queued on one child, dropped for want of room, dropped because its child was closed, or the single one waiting |

## Left out

- Inbound.MessageReader.Read: of a compressed message that is opened for delivery no content is claimed, because the reader takes the end of the payload for the end of the frame and does not inflate continuation frames; the frame boundaries and the invariant are still proved, with an inflating reader that may return anything.
- FrameReader.Reader.Read: how many bytes come with the UTF-8 error depends on the cuts, as in the source; `ReadFrame` says exactly how, and here they are a part of the message that the decoder accepts.
- Honesty.EofHonest: streams that end in an error other than the end of file are not modelled.
- EndToEnd.SendAndReceive: covers messages that are not compressed and that the peer's options admit (frame size, UTF-8 if it is checked).
- ReadLoop.ReadToEnd: uses non-empty buffers; a caller that reads into empty ones forever makes no progress.
- Outbound.MessageWriter.Write: the lock is a flag of the connection that a method finds free and leaves free; waiting for it, and writers that interleave, are the subject of `Writers`.
- Outbound.MessageWriter.Writev: each message is written from a buffer of its own.
- Udp.EveryRun: a socket error closes all mapped children in one step, two goroutines that close one child at the same instant are not modelled, and a step that sends on a closed channel aborts the run.
- UdpLoop.Acceptor.MainLoop: children are values in a sequence rather than objects; their packets are arrays of their own.
- Compression.Inflate: the decompressor is a function of all that it reads, so its own reset and its reads in pieces are not modelled.
- FrameReader.Reader.HandleIntermediate: the payload is read and then the answer is recorded, while the source takes the lock before it copies a ping's payload; the masking of the handler's source, which is switched off in this repository, is not modelled.
- FrameReader.Answerer.AnswerClose: starts from a payload that is there; reading it and the lock are in `HandleIntermediate`, `HandleControl` and `WriteAnswer`.
- Outbound.MessageWriter.WriteAnswer: starts from a payload that is there, so that time for which the lock is held while a ping's payload arrives is not modelled.
- Compression.ReadFrames: a receiver of its own, which takes whole payloads of final frames and shares the header, masking and suffix routines with the frame reader but not its layers.
- The reading and the writing half of the transport are two classes, since they share only the lock and the connection. The reader records its answers; `WriteAnswer` writes them.
- The header check, the compression bit check, the close payload check, the UTF-8 table, the control writer and the cropping of close reasons are library code: small definitions or parameters here.
- Header checks that can be skipped, the continuation callback and the extensions that clear RSV bits.
- True context takeover: both persistent compressors are reset for every message.
- Concurrent compressed writers, which use the persistent compressor before the lock is taken.
- The byte-wise read of the suffixed reader, which is not reached.
- DEFLATE itself: an abstract compressor and decompressor pair.
- Write buffering and `Flush` of the transport; a write reaches the connection or fails.
- `Read` of the UDP child, whose guard never lets a fresh child take from its queue; a backlog of size 0, for which publishing is a rendezvous.
- Buffer and flate pools: a pooled buffer is a fresh array that holds anything.
- KCP, QUIC and TLS transports, the other factories, options, upgraders and handshakes.
