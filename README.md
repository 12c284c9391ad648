# bman wire framing, modelled in Dafny

This project models the binary protocol between the bman browser client and its Go game server.

- **Framing.** Each message travels as a frame: a 1-byte message type, then a big-endian 32-bit `frameLength` (the payload length plus 8), then the timestamp as two big-endian 32-bit halves (high, low), then the payload. The 13-byte header is built by `Socket.sendMessage` in the client. The client's receive handler (`setupSocket`'s `onmessage` closure) buffers the incoming WebSocket chunks, cuts them into messages and moves the unread tail to the front of its buffer.
- **Client actions.** `sendPlayerAction` sends the keys the player holds as a 5-byte payload: the user id, then an action byte with one bit per key.
- **Server side.** `toByte` and `decode` in `player.go` convert that byte to and from a five-flag record. `processPlayerAction` stores the decoded record on the player.

Modules:

- `Bytes`: bytes, and the big-endian 32-bit reads and writes of `DataView.getUint32` and `DataView.setUint32`.
- `FrameCodec`: the frame layout, the timestamp split and join, the header encoder, and `Deframe`. `Deframe` is the reference definition of what a byte stream decodes to. This module also holds the lemmas about it: lossless decoding, round trips, and independence from chunk boundaries.
- `Socket`: the client.
  - The class `StreamDecoder` holds the receive buffer (`byteBuf`, an array) and `bytesInBuf`. Its method `Feed` works in three steps. `Append` copies the chunk in, and is proved to extend the pending bytes by the chunk. `DecodeFrames` walks the read cursor `bytesRead`, and is proved to compute `Deframe` of the pending bytes. `Compact` moves the tail to offset 0, and is proved to leave exactly the unread tail pending. `Feed` itself is proved against `Deframe`.
  - `SendMessage` and `SendPlayerAction` fill their buffers field by field, as the source does.
- `Player`: the server's `PlayerAction` record, `ToByte`, `Decode`, and the class `Player` with `Update` and `ProcessPlayerAction`.
- `Agreement`: the client's action byte and the server's `toByte` agree. An action the client sends, cut out of the stream as `Deframe` defines, is decoded by the server's `decode` to the keys the client held.
- `AsWritten`: the receive handler as its index arithmetic reads: the copy, the completeness test, the timestamp reads, the compaction, and the decoding loop. The loop re-reads frameLength at each cursor and stops with `None` when a timestamp read throws. Each step comes with an input on which it goes wrong (see Findings).

"Settled" means that a buffer holds no frame that could be decoded yet. `StreamDecoder.Valid()` says the pending bytes are settled. `Feed` keeps this invariant, and it returns exactly what `Deframe` yields for the old pending bytes followed by the chunk.

## Model

| member | source | states |
|---|---|---|
| Bytes.GetU32 | client/js/socket.tsx:38 | getUint32 big-endian read yields an unsigned 32-bit value |
| Bytes.U32Bytes | client/js/socket.tsx:105-106 | setUint32 writes exactly four bytes (value reduced modulo 2^32, most significant first) |
| Bytes.GetU32OfU32Bytes | client/js/socket.tsx:100-106 | reading back what setUint32 wrote at any offset gives the value modulo 2^32 |
| Bytes.U32BytesOfGetU32 | client/js/socket.tsx:38 | rewriting the value getUint32 read reproduces the four bytes it was read from |
| FrameCodec.SplitTimestamp | client/js/socket.tsx:103-104 | the halves are the quotient and remainder of ts by 2^32: lo is below 2^32 and hi * 2^32 + lo is ts |
| FrameCodec.JoinTimestamp | client/js/socket.tsx:45 | for lo below 2^32, the joined value divided by 2^32 is hi and its remainder is lo |
| FrameCodec.JoinSplit | client/js/socket.tsx:103-104 | joining hi * 2^32 + lo after the split hi = ts / 2^32, lo = ts mod 2^32 gives ts back; hi fits 32 bits exactly when ts < 2^64 |
| FrameCodec.SplitJoin | client/js/socket.tsx:45 | for 32-bit halves, splitting the joined timestamp gives the halves back, and the join is below 2^64 |
| FrameCodec.EncodeHeader | client/js/socket.tsx:97-106 | the header is 13 bytes |
| FrameCodec.EncodeFrame | client/js/socket.tsx:97-108 | a frame is 13 header bytes followed by the payload unchanged |
| FrameCodec.HeaderFields | client/js/socket.tsx:99-106 | the encoded header holds the type at 0, payload length + 8 at 1, the high half at 5, the low half at 9, and the fields rejoin to ts mod 2^64 |
| FrameCodec.TimestampModulo | client/js/socket.tsx:103-106 | a timestamp written with two wrapping setUint32 calls reads back as the timestamp modulo 2^64 |
| FrameCodec.FrameLength | client/js/socket.tsx:38 | the frameLength field at offset 1 is a 32-bit value |
| FrameCodec.ParseFrame | client/js/socket.tsx:41-46 | the parsed payload has frameLength - 8 bytes and the timestamp is below 2^64 |
| FrameCodec.FrameReady | client/js/socket.tsx:36-39 | a frame counts as ready only when more than 5 bytes are unread and its whole frameLength + 5 bytes (at least the 13 header bytes) are present |
| FrameCodec.Deframe | client/js/socket.tsx:34-51 | the reference decoder never leaves more bytes than it was given |
| FrameCodec.FrameConsumedIffReady | client/js/socket.tsx:36-49 | a frame is consumed if and only if more than 5 bytes are unread, frameLength is at least 8, and the unread bytes hold its whole frameLength + 5 bytes; it yields type s[0], timestamp hi * 2^32 + lo from offsets 5 and 9, payload s[13..frameLength+5], and decoding resumes frameLength + 5 bytes on |
| FrameCodec.DeframeRestSettled | client/js/socket.tsx:36-51 | the tail left after decoding holds no decodable frame and carries the same error |
| FrameCodec.RestIsBounded | client/js/socket.tsx:36-39 | the tail is at most 5 bytes, or shorter than the frame its header announces, or stopped at a malformed header |
| FrameCodec.FrameOfParse | client/js/socket.tsx:41-49 | the bytes of a consumed frame are exactly the encoding of the message parsed from it, and that message is encodable |
| FrameCodec.DeframeLossless | client/js/socket.tsx:34-51 | re-encoding the decoded messages and appending the tail gives back the whole stream |
| FrameCodec.DeframeEncodable | client/js/socket.tsx:41-46 | every decoded message fits the wire format unchanged |
| FrameCodec.ReadyFramePrefix | client/js/socket.tsx:36-49 | bytes arriving after a complete frame change neither that frame nor where decoding resumes |
| FrameCodec.DeframeAppend | client/js/socket.tsx:22-61 | decoding a + b yields what a yields, then what a's tail followed by b yields |
| FrameCodec.MalformedIsSticky | client/js/socket.tsx:38-39 | once decoding stopped at a header whose frameLength is below 8, more bytes produce no message and the same error |
| FrameCodec.EncodedHeader | client/js/socket.tsx:97-106 | in any stream an encoded frame starts, its type, frameLength (payload length + 8) and joined timestamp read back as encoded |
| FrameCodec.ParseEncoded | client/js/socket.tsx:38-49 | an encoded frame is ready, and parsing it gives back its message and leaves the following bytes |
| FrameCodec.DecodeEncode | client/js/socket.tsx:97-108 | an encoded frame followed by any bytes decodes to its message first, then to what those bytes decode to |
| FrameCodec.DecodeEncodeOne | client/js/socket.tsx:97-108 | a lone encoded frame decodes to exactly its message, with nothing left and no error |
| FrameCodec.PartialFrameWaits | client/js/socket.tsx:36-39 | any proper prefix of an encoded frame yields no message, keeps every byte and reports no error |
| FrameCodec.DecodeEncodeAll | client/js/socket.tsx:34-51 | encodable messages sent back to back decode to themselves, in order |
| FrameCodec.EncodeAllCons | client/js/socket.tsx:97-108 | the encoding of a message list is the first frame followed by the encoding of the rest |
| FrameCodec.FeedAll | client/js/socket.tsx:22-61 | the handler run once per chunk with its buffer carried over always ends with a settled buffer, no longer than the pending bytes plus all chunks |
| FrameCodec.ChunkStep | client/js/socket.tsx:22-61 | one more chunk fed to the decoded state of a stream yields the state of the stream with that chunk appended, with the new messages after the old |
| FrameCodec.ChunkingIrrelevant | client/js/socket.tsx:22-61 | feeding a stream chunk by chunk, carrying the tail over, yields the same messages, tail and error as decoding it whole |
| Socket.StreamDecoder.constructor | client/js/socket.tsx:22-23 | a fresh 1000-byte buffer with no pending bytes |
| Socket.StreamDecoder.Reserve | client/js/socket.tsx:22 | the buffer grows to the needed capacity and keeps the pending bytes |
| Socket.StreamDecoder.Append | client/js/socket.tsx:27-32 | the pending bytes become the old pending bytes followed by the chunk |
| Socket.StreamDecoder.DecodeFrames | client/js/socket.tsx:34-51 | the decoding loop returns exactly Deframe's messages and error, and its cursor stops where Deframe's tail begins |
| Socket.StreamDecoder.Compact | client/js/socket.tsx:53-61 | the pending bytes become the unread tail, moved to offset 0, and bytesInBuf decreases by bytesRead |
| Socket.StreamDecoder.Feed | client/js/socket.tsx:24-62 | returns what Deframe yields for the old pending bytes plus the chunk, keeps exactly Deframe's tail and keeps the buffer settled |
| Socket.SetUint32 | client/js/socket.tsx:91 | setUint32 replaces exactly four bytes at the offset and leaves the rest |
| Socket.SendMessage | client/js/socket.tsx:96-109 | sends the header of the payload length, type and timestamp, then the payload |
| Socket.SentMessageIsReceived | client/js/socket.tsx:96-109 | the two sends, decoded in a fresh decoder, yield exactly the one message (type, timestamp, payload) |
| Socket.ReceiveSent | client/js/socket.tsx:24-62 | a fresh StreamDecoder fed the header and then the payload, one Feed call each, returns exactly the one message, no error, and keeps nothing buffered |
| Socket.StreamDecoder.FeedChunks | client/js/socket.tsx:22-62 | feeding chunks one handler call at a time returns the messages, tail and last error that Deframe gives for the old pending bytes followed by all the chunks, and keeps the buffer settled |
| Socket.ChunksFedOneMore | client/js/socket.tsx:22-62 | decoding the state after i chunks followed by chunk i gives the state after i + 1 chunks |
| Socket.TwoFeedsReceiveSent | client/js/socket.tsx:24-62 | two Feed results as Feed's contract states them, for the two sends of one message, add up to that message and an empty buffer |
| Socket.Held | client/js/socket.tsx:84-88 | `action.get(k)` is truthy exactly when k is in the map and mapped to true; an absent key counts as not held |
| Socket.ActionByte | client/js/socket.tsx:83-88 | the action byte is below 32, and bit k is set exactly when key k (UP, DOWN, LEFT, RIGHT, BOMB) is held |
| Socket.UpAndBombByte | client/js/socket.tsx:84-88 | UP and BOMB held give the byte 0x11 |
| Socket.ActionPayload | client/js/socket.tsx:89-92 | the action payload is 5 bytes: the user id modulo 2^32 big-endian, then the action byte |
| Socket.SendPlayerAction | client/js/socket.tsx:82-94 | sends the action payload in a message of the client-action type |
| Player.ToByte | server/src/bman/server/player.go:137-155 | the byte is below 32 and bit k is set exactly when flag k (up, down, left, right, bomb) is |
| Player.Decode | server/src/bman/server/player.go:126-135 | decode needs at least 5 bytes and reads bits 0..4 of content[4]: re-encoding its result with toByte gives content[4] with bits 5..7 cleared |
| Player.DecodeToByte | server/src/bman/server/player.go:126-155 | a content whose byte 4 is toByte(a) decodes to a |
| Player.ToByteDecode | server/src/bman/server/player.go:126-135 | toByte(decode(c)) is c[4] with bits 5..7 cleared |
| Player.LowFiveBits | server/src/bman/server/player.go:128-134 | a byte modulo 32 is the sum of its bits 0..4 at their weights |
| Player.DecodeReadsLowBitsOnly | server/src/bman/server/player.go:126-135 | two contents decode alike if and only if their bytes 4 agree in bits 0..4 |
| Player.Player.Update | server/src/bman/server/player.go:122-124 | the action is replaced, entity and direction unchanged |
| Player.Player.ProcessPlayerAction | server/src/bman/server/player.go:63-66 | the action becomes decode(content), whose toByte is content[4] with bits 5..7 cleared; entity and direction unchanged |
| Agreement.ToByteMatchesClient | server/src/bman/server/player.go:137-155 | for the same held keys the server's toByte equals the client's action byte |
| Agreement.PlayerActionRoundTrip | client/js/socket.tsx:82-94 | a sent player action arrives as one message whose content the server decodes to the held keys |
| AsWritten.CopyAsWritten | client/js/socket.tsx:28-32 | as written, chunk byte i lands at buffer index 2 * bytesInBuf + i; writes past the end are dropped; the count still grows by the chunk length |
| AsWritten.CopyMisplacesChunk | client/js/socket.tsx:30 | with 3 bytes buffered, a 1-byte chunk leaves the pending bytes [1, 2, 3, 0] |
| AsWritten.CopyOverflows | client/js/socket.tsx:22 | a 1001-byte chunk into the empty 1000-byte buffer is counted as 1001 bytes but only 1000 are kept |
| AsWritten.CompletenessIgnoresCursor | client/js/socket.tsx:39 | on a 13-byte frame followed by 6 bytes of a frame declaring frameLength 8, the test as written accepts the second frame at bytesRead 13, the timestamp read at line 43 then throws, and decoding from the cursor returns the first message and keeps the 6 bytes |
| AsWritten.LoopStepAsWritten | client/js/socket.tsx:36-51 | one iteration either leaves the cursor unchanged or advances it by frameLength + 5 |
| AsWritten.CompleteAsWritten | client/js/socket.tsx:39 | the test as written is the test from the cursor with the cursor fixed at 0: it measures the unread bytes from the start of the buffer whatever bytesRead is |
| AsWritten.RunAsWritten | client/js/socket.tsx:36-51 | the loop as written, re-reading frameLength at each cursor, never moves the cursor back; it moves it, or the timestamp reads of lines 43-44 throw, only when more than 5 bytes are unread and the test of line 39 accepts the frame at the cursor |
| AsWritten.SpinsOnIncompleteFrame | client/js/socket.tsx:36-51 | from any cursor where more than 5 bytes are unread and the test of line 39 rejects the frame read there, no number of iterations moves the cursor, so the guard never becomes false |
| AsWritten.LoneHeaderSpins | client/js/socket.tsx:36-51 | the encoded header of any frame with a one-byte payload (frameLength 9), alone in the buffer, keeps the cursor at 0 and the guard true for any number of iterations |
| AsWritten.TwoFramesAsWritten | client/js/socket.tsx:36-51 | on frames with frameLengths 8 and 20 and 2 stray bytes (40 bytes), the loop as written reads each frameLength at its own cursor, accepts both frames and exits at bytesRead 38 |
| AsWritten.TimestampAsWritten | client/js/socket.tsx:43-44 | as written, the timestamp reads succeed only when 2 * bytesRead + 13 bytes are buffered |
| AsWritten.SecondTimestampThrows | client/js/socket.tsx:43-44 | with two empty-payload frames buffered, reading the second timestamp throws, although the stream holds both messages |
| AsWritten.CompactAsWritten | client/js/socket.tsx:53-58 | as written, the new byte j is old byte 2 * bytesRead + j, or 0 once that index passes the copy view |
| AsWritten.CompactionLosesTail | client/js/socket.tsx:57 | a 13-byte frame followed by byte 7 compacts to [0] instead of [7] |

## Left out

- AsWritten.RunAsWritten: requires bytesInBuf to be within the buffer. Once CopyOverflows has counted more bytes than the 1000-byte buffer holds, the DataView constructor at client/js/socket.tsx:37 throws a RangeError, and the loop model does not cover that case.
- `connect` and `connected`: URL construction and opening the WebSocket are I/O.
- `sock.send`: the encoder returns the header and the payload as the two byte sequences it would send.
- `Date.now()`: the timestamp is a parameter `now`.
- `Math.pow`/`Math.floor`: floating-point arithmetic is modelled as exact division and remainder on naturals. Doubles are exact only below 2^53, and real timestamps lie there.
- `setUint8(0, messageId)` and `setUint8(4, actionByte)` reduce modulo 256. The message id is taken as a `byte` already, and the action byte is below 32.
- `MessageTypes.CLIENT_ACTION` and `Keys` come from a consts module that is not part of this model. The message type is a `byte` parameter, and the keys are the datatype `Socket.Key`.
- `Player.step`, `Player.encode` and `newPlayer`: float kinematics, collision handling and the entity cycle. `Entity` is an empty class; its fields are not modelled.
- client/js/player.ts: a constructor that only initialises fields.
- The server's frame reader is not part of this model. `Agreement.PlayerActionRoundTrip` assumes that the server cuts frames out of the stream as `Deframe` does.
- `Player.Decode`: Go panics when the content is shorter than 5 bytes. The model makes that length a precondition of `Decode` and `ProcessPlayerAction`.
- Socket.StreamDecoder.Feed: the buffer grows instead of keeping the fixed 1000-byte capacity. The source's limit is the fixed 1000 bytes, and it has no check or error path when a chunk exceeds it. A configured maximum size with a BufferOverflow error is not modelled.
- Socket.StreamDecoder.DecodeFrames: a header whose frameLength is below 8 stops decoding with a `MalformedHeader` error. The messages before it are still returned, and the decoder keeps that state for later chunks. The source has no such check: it reads past the short frame.
- Socket.StreamDecoder.DecodeFrames: the source slices out `content` and then discards it; the model returns the messages. A decoded timestamp of 2^53 or more is not reported as an error.
- The loop guard "more than 5 unread bytes" is kept as written. Exactly 5 bytes would already be enough to read frameLength.
- AsWritten members: these model the faulty steps on sequence values, one step at a time. They do not model how a thrown RangeError aborts the event handler part-way.

## Findings

| source | as written | input that shows it | evidently intended | confidence | as-written member | corrected member |
|---|---|---|---|---|---|---|
| client/js/socket.tsx:30 | `bufView` already starts at `bytesInBuf`, and the index adds `bytesInBuf` again, so chunk byte i goes to buffer index 2 * bytesInBuf + i | bytes [1, 2, 3] buffered, chunk [4]: the pending bytes read [1, 2, 3, 0] | chunk byte i goes to index bytesInBuf + i | high (not executed) | AsWritten.CopyMisplacesChunk | Socket.StreamDecoder.Append |
| client/js/socket.tsx:22 | a fixed 1000-byte buffer; writes past its end are dropped, yet `bytesInBuf` counts them | a 1001-byte chunk into the empty buffer: 1001 counted, 1000 kept | grow the buffer, or reject the overflow | high (not executed) | AsWritten.CopyOverflows | Socket.StreamDecoder.Reserve |
| client/js/socket.tsx:39 | the completeness test `bytesInBuf - 5 >= messageLength` ignores `bytesRead` | a 13-byte frame, then 6 bytes of a header declaring frameLength 8: at bytesRead 13 the frame is accepted, and line 43 then throws | `bytesInBuf - bytesRead - 5 >= messageLength` | high (not executed) | AsWritten.CompletenessIgnoresCursor | Socket.StreamDecoder.DecodeFrames |
| client/js/socket.tsx:36-51 | the loop has no exit when the frame is incomplete, so it spins forever | the lone 13-byte header of a frame with a one-byte payload (frameLength 9) | stop the loop and wait for more bytes | high (not executed) | AsWritten.SpinsOnIncompleteFrame | Socket.StreamDecoder.DecodeFrames |
| client/js/socket.tsx:43-44 | `view` already starts at `bytesRead`, and the index adds it again: the read is past the frame, or throws a RangeError | two empty-payload frames in one chunk: reading the second timestamp throws | read at view offsets 5 and 9 | high (not executed) | AsWritten.SecondTimestampThrows | Socket.StreamDecoder.DecodeFrames |
| client/js/socket.tsx:57 | `copyView` already starts at `bytesRead`, and the index adds it again; reads past its end store 0 | a 13-byte frame followed by byte 7 compacts to [0] | `zeroView[i] = copyView[i]` | high (not executed) | AsWritten.CompactionLosesTail | Socket.StreamDecoder.Compact |
