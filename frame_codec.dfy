/** The frame format shared by the encoder and the stream decoder:
 *
 *    Frame  := Header Payload
 *    Header := messageType(u8) frameLength(u32) timestampHi(u32) timestampLo(u32)
 *
 *  all big-endian, where frameLength counts the 8 timestamp bytes plus the payload
 *  (but not the 5-byte type+length prefix).  Deframe is the reference definition of
 *  what a byte stream decodes to; the decoder class in module Socket is proved against it.
 */
module FrameCodec {
  import opened Bytes

  /** Type byte plus frameLength: what must be buffered before the length can be read. */
  const TypeAndLengthSize: nat := 5
  /** The two timestamp halves, counted in frameLength. */
  const TimestampSize: nat := 8
  /** The full header the encoder writes. */
  const HeaderSize: nat := 13
  const TWO_64: nat := 0x1_0000_0000_0000_0000

  datatype Option<T> = None | Some(value: T)

  /** A decoded application message; the payload is a copy of the buffered bytes. */
  datatype Message = Message(messageType: byte, timestamp: nat, content: seq<byte>)

  /** A frame header whose frameLength is too small to hold the timestamp. */
  datatype FrameError = MalformedHeader(frameLength: nat)

  /** What a byte stream decodes to: the complete frames in order, the unread tail,
      and whether decoding stopped at a malformed header (the tail then starts there). */
  datatype Deframed = Deframed(messages: seq<Message>, rest: seq<byte>, error: Option<FrameError>)

  // ---------------------------------------------------------------------------
  // Timestamp halves

  /** The encoder's split: hi = floor(ts / 2^32), lo = ts mod 2^32. */
  function SplitTimestamp(ts: nat): (halves: (nat, nat))
    ensures halves.1 < TWO_32 && halves.0 * TWO_32 + halves.1 == ts
  {
    (ts / TWO_32, ts % TWO_32)
  }

  /** The decoder's join: hi * 2^32 + lo. */
  function JoinTimestamp(hi: nat, lo: nat): (ts: nat)
    ensures lo < TWO_32 ==> ts / TWO_32 == hi && ts % TWO_32 == lo
  {
    hi * TWO_32 + lo
  }

  lemma JoinSplit(ts: nat)
    ensures JoinTimestamp(SplitTimestamp(ts).0, SplitTimestamp(ts).1) == ts
    ensures ts < TWO_64 <==> IsU32(SplitTimestamp(ts).0)
  {
  }

  lemma SplitJoin(hi: nat, lo: nat)
    requires IsU32(hi) && IsU32(lo)
    ensures SplitTimestamp(JoinTimestamp(hi, lo)) == (hi, lo)
    ensures JoinTimestamp(hi, lo) < TWO_64
  {
  }

  // ---------------------------------------------------------------------------
  // Encoding

  /** The 13 header bytes sendMessage writes for a payload of payloadLength bytes.
      Each setUint32 reduces its argument modulo 2^32. */
  function EncodeHeader(messageType: byte, timestamp: nat, payloadLength: nat): (h: seq<byte>)
    ensures |h| == HeaderSize
  {
    [messageType]
      + U32Bytes(payloadLength + TimestampSize)
      + U32Bytes(SplitTimestamp(timestamp).0)
      + U32Bytes(SplitTimestamp(timestamp).1)
  }

  /** The bytes a receiver sees: header, then payload. */
  function EncodeFrame(messageType: byte, timestamp: nat, payload: seq<byte>): (f: seq<byte>)
    ensures |f| == HeaderSize + |payload|
    ensures f[HeaderSize..] == payload
  {
    EncodeHeader(messageType, timestamp, |payload|) + payload
  }

  /** The fields of an encoded header read back at their offsets. */
  lemma HeaderFields(messageType: byte, timestamp: nat, payloadLength: nat, tail: seq<byte>)
    ensures var h := EncodeHeader(messageType, timestamp, payloadLength) + tail;
      h[0] == messageType
      && GetU32(h, 1) == (payloadLength + TimestampSize) % TWO_32
      && GetU32(h, 5) == (timestamp / TWO_32) % TWO_32
      && GetU32(h, 9) == timestamp % TWO_32
      && JoinTimestamp(GetU32(h, 5), GetU32(h, 9)) == timestamp % TWO_64
  {
    var a := U32Bytes(payloadLength + TimestampSize);
    var b := U32Bytes(timestamp / TWO_32);
    var c := U32Bytes(timestamp % TWO_32);
    var h := EncodeHeader(messageType, timestamp, payloadLength) + tail;
    assert h == [messageType] + a + (b + c + tail);
    GetU32OfU32Bytes(payloadLength + TimestampSize, [messageType], b + c + tail);
    assert h == ([messageType] + a) + b + (c + tail);
    GetU32OfU32Bytes(timestamp / TWO_32, [messageType] + a, c + tail);
    assert h == ([messageType] + a + b) + c + tail;
    GetU32OfU32Bytes(timestamp % TWO_32, [messageType] + a + b, tail);
    TimestampModulo(timestamp);
  }

  lemma TimestampModulo(ts: nat)
    ensures JoinTimestamp((ts / TWO_32) % TWO_32, ts % TWO_32) == ts % TWO_64
  {
    var q := ts / TWO_32;
    assert ts == q * TWO_32 + ts % TWO_32;
    assert q == (q / TWO_32) * TWO_32 + q % TWO_32;
    assert ts == (q / TWO_32) * TWO_64 + ((q % TWO_32) * TWO_32 + ts % TWO_32);
    assert 0 <= (q % TWO_32) * TWO_32 + ts % TWO_32 < TWO_64;
  }

  /** A message the wire can carry unchanged: the length field and both timestamp
      halves fit in 32 bits. */
  predicate Encodable(m: Message) {
    m.timestamp < TWO_64 && |m.content| + TimestampSize < TWO_32
  }

  function EncodeMessage(m: Message): seq<byte> {
    EncodeFrame(m.messageType, m.timestamp, m.content)
  }

  /** The concatenated frames of a sequence of messages. */
  function EncodeAll(ms: seq<Message>): seq<byte>
    decreases |ms|
  {
    if ms == [] then [] else EncodeMessage(ms[0]) + EncodeAll(ms[1..])
  }

  // ---------------------------------------------------------------------------
  // Decoding

  /** The frameLength field of the frame starting at s[0]. */
  function FrameLength(s: seq<byte>): (n: nat)
    requires |s| >= TypeAndLengthSize
    ensures IsU32(n)
  {
    GetU32(s, 1)
  }

  /** The message carried by the complete frame at the start of s. */
  function ParseFrame(s: seq<byte>, frameLength: nat): (m: Message)
    requires TimestampSize <= frameLength && frameLength + TypeAndLengthSize <= |s|
    ensures |m.content| == frameLength - TimestampSize
    ensures m.timestamp < TWO_64
  {
    SplitJoin(GetU32(s, 5), GetU32(s, 9));
    Message(s[0], JoinTimestamp(GetU32(s, 5), GetU32(s, 9)), s[HeaderSize..frameLength + TypeAndLengthSize])
  }

  function Prepend(ms: seq<Message>, d: Deframed): Deframed {
    Deframed(ms + d.messages, d.rest, d.error)
  }

  /** True when the frame at the start of s can be read: its header is well formed and
      all frameLength + 5 of its bytes are present.  Only more than 5 bytes are looked at. */
  predicate FrameReady(s: seq<byte>)
    ensures FrameReady(s) ==> |s| > TypeAndLengthSize && HeaderSize <= FrameLength(s) + TypeAndLengthSize <= |s|
  {
    |s| > TypeAndLengthSize
    && FrameLength(s) >= TimestampSize
    && |s| - TypeAndLengthSize >= FrameLength(s)
  }

  /** The reference decoder: every complete frame in order, until fewer than 6 bytes,
      an incomplete frame or a malformed header remain. */
  function Deframe(s: seq<byte>): (d: Deframed)
    ensures |d.rest| <= |s|
    decreases |s|
  {
    if |s| <= TypeAndLengthSize then Deframed([], s, None)
    else
      var frameLength := FrameLength(s);
      if frameLength < TimestampSize then Deframed([], s, Some(MalformedHeader(frameLength)))
      else if |s| - TypeAndLengthSize < frameLength then Deframed([], s, None)
      else Prepend([ParseFrame(s, frameLength)], Deframe(s[frameLength + TypeAndLengthSize..]))
  }

  /** A buffer holding no frame that could be decoded yet. */
  predicate Settled(s: seq<byte>) {
    Deframe(s).messages == [] && Deframe(s).rest == s
  }

  lemma PrependNil(d: Deframed)
    ensures Prepend([], d) == d
  {
    assert [] + d.messages == d.messages;
  }

  lemma PrependPrepend(a: seq<Message>, b: seq<Message>, d: Deframed)
    ensures Prepend(a, Prepend(b, d)) == Prepend(a + b, d)
  {
    assert a + (b + d.messages) == a + b + d.messages;
  }

  /** One step of Deframe on a ready frame. */
  lemma UnfoldReady(s: seq<byte>)
    requires FrameReady(s)
    ensures Deframe(s) == Prepend([ParseFrame(s, FrameLength(s))], Deframe(s[FrameLength(s) + TypeAndLengthSize..]))
  {
  }

  /** The decoding loop's step: with the frames before offset r decoded into ms, the
      message m read from the ready frame at r extends ms, and decoding resumes at
      next = r + frameLength + 5. */
  lemma DeframeAdvance(all: seq<byte>, r: nat, ms: seq<Message>, view: seq<byte>, m: Message, next: nat)
    requires r <= |all| && view == all[r..] && Deframe(all) == Prepend(ms, Deframe(view))
    requires FrameReady(view) && m == ParseFrame(view, FrameLength(view))
    requires next == r + FrameLength(view) + TypeAndLengthSize
    ensures next <= |all|
    ensures Deframe(all) == Prepend(ms + [m], Deframe(all[next..]))
  {
    var n := FrameLength(view);
    UnfoldReady(view);
    assert view[n + TypeAndLengthSize..] == all[next..];
    PrependPrepend(ms, [m], Deframe(all[next..]));
  }

  /** The decoding loop's exit: when no frame is ready at r, decoding ends there. */
  lemma DeframeStop(all: seq<byte>, r: nat, ms: seq<Message>)
    requires r <= |all| && Deframe(all) == Prepend(ms, Deframe(all[r..]))
    requires !FrameReady(all[r..])
    ensures Deframe(all) == Deframed(ms, all[r..], Deframe(all[r..]).error)
    ensures Deframe(all[r..]).error
         == (if |all| - r > TypeAndLengthSize && FrameLength(all[r..]) < TimestampSize
             then Some(MalformedHeader(FrameLength(all[r..]))) else None)
  {
    assert ms + [] == ms;
  }

  /** A frame is consumed exactly when it is ready; then it yields one message
      (type at offset 0, timestamp from offsets 5 and 9, payload from offset 13 to
      frameLength + 5) and decoding continues frameLength + 5 bytes further on. */
  lemma FrameConsumedIffReady(s: seq<byte>)
    ensures Deframe(s).messages != [] <==> FrameReady(s)
    ensures Settled(s) <==> !FrameReady(s)
    ensures FrameReady(s) ==>
      var n := FrameLength(s);
      && Deframe(s).messages[0] == Message(s[0], GetU32(s, 5) * TWO_32 + GetU32(s, 9), s[HeaderSize..n + TypeAndLengthSize])
      && Deframe(s) == Prepend([Deframe(s).messages[0]], Deframe(s[n + TypeAndLengthSize..]))
  {
    if FrameReady(s) {
      UnfoldReady(s);
    }
  }

  /** What stays buffered after decoding holds no ready frame. */
  lemma {:induction false} DeframeRestSettled(s: seq<byte>)
    ensures Settled(Deframe(s).rest)
    ensures Deframe(Deframe(s).rest).error == Deframe(s).error
    decreases |s|
  {
    if FrameReady(s) {
      UnfoldReady(s);
      DeframeRestSettled(s[FrameLength(s) + TypeAndLengthSize..]);
    }
  }

  /** The buffered tail is never larger than one incomplete frame: it has at most
      5 bytes, or it is shorter than the frame its header announces, or decoding
      stopped at a malformed header. */
  lemma RestIsBounded(s: seq<byte>)
    ensures var r := Deframe(s).rest;
      |r| <= TypeAndLengthSize
      || (Deframe(s).error.Some? && FrameLength(r) < TimestampSize)
      || (Deframe(s).error.None? && |r| < FrameLength(r) + TypeAndLengthSize)
  {
    DeframeRestSettled(s);
    FrameConsumedIffReady(Deframe(s).rest);
  }

  /** The bytes of a ready frame are exactly the encoding of the message parsed from it. */
  lemma FrameOfParse(s: seq<byte>, n: nat)
    requires TimestampSize <= n && n + TypeAndLengthSize <= |s| && FrameLength(s) == n
    ensures EncodeMessage(ParseFrame(s, n)) == s[..n + TypeAndLengthSize]
    ensures Encodable(ParseFrame(s, n))
  {
    var m := ParseFrame(s, n);
    U32BytesOfGetU32(s, 1);
    U32BytesOfGetU32(s, 5);
    U32BytesOfGetU32(s, 9);
    SplitJoin(GetU32(s, 5), GetU32(s, 9));
    assert |m.content| + TimestampSize == n;
    assert EncodeMessage(m) == [s[0]] + s[1..5] + s[5..9] + s[9..13] + s[13..n + TypeAndLengthSize];
  }

  lemma EncodeAllCons(m: Message, ms: seq<Message>)
    ensures EncodeAll([m] + ms) == EncodeMessage(m) + EncodeAll(ms)
  {
    assert ([m] + ms)[1..] == ms;
  }

  /** Decoding loses no bytes: re-encoding the messages and appending the tail gives
      back the stream. */
  lemma {:induction false} DeframeLossless(s: seq<byte>)
    ensures EncodeAll(Deframe(s).messages) + Deframe(s).rest == s
    decreases |s|
  {
    if FrameReady(s) {
      var n := FrameLength(s);
      var t := s[n + TypeAndLengthSize..];
      var m := ParseFrame(s, n);
      var dt := Deframe(t);
      UnfoldReady(s);
      DeframeLossless(t);
      FrameOfParse(s, n);
      LosslessStep(s, n + TypeAndLengthSize, m, dt);
    }
  }

  /** One frame of DeframeLossless: the frame's encoding followed by the re-encoded rest. */
  lemma LosslessStep(s: seq<byte>, n: nat, m: Message, dt: Deframed)
    requires n <= |s| && EncodeMessage(m) == s[..n] && EncodeAll(dt.messages) + dt.rest == s[n..]
    ensures EncodeAll([m] + dt.messages) + dt.rest == s
  {
    EncodeAllCons(m, dt.messages);
    assert s == s[..n] + s[n..];
  }

  /** Every decoded message is one the wire carries unchanged. */
  lemma {:induction false} DeframeEncodable(s: seq<byte>)
    ensures forall i :: 0 <= i < |Deframe(s).messages| ==> Encodable(Deframe(s).messages[i])
    decreases |s|
  {
    if FrameReady(s) {
      var n := FrameLength(s);
      var t := s[n + TypeAndLengthSize..];
      UnfoldReady(s);
      DeframeEncodable(t);
      FrameOfParse(s, n);
    }
  }

  /** Bytes appended after a ready frame change neither the frame nor its position. */
  lemma ReadyFramePrefix(a: seq<byte>, b: seq<byte>)
    requires FrameReady(a)
    ensures FrameReady(a + b) && FrameLength(a + b) == FrameLength(a)
    ensures ParseFrame(a + b, FrameLength(a)) == ParseFrame(a, FrameLength(a))
    ensures (a + b)[FrameLength(a) + TypeAndLengthSize..] == a[FrameLength(a) + TypeAndLengthSize..] + b
  {
    assert (a + b)[1..5] == a[1..5];
    var n := FrameLength(a) + TypeAndLengthSize;
    assert (a + b)[HeaderSize..n] == a[HeaderSize..n];
  }

  /** Decoding a stream in two parts: what the first part yields, then whatever its tail
      followed by the second part yields.  This is why buffering the tail across chunks
      is enough. */
  lemma {:induction false} DeframeAppend(a: seq<byte>, b: seq<byte>)
    ensures Deframe(a + b) == Prepend(Deframe(a).messages, Deframe(Deframe(a).rest + b))
    decreases |a|
  {
    if FrameReady(a) {
      var n := FrameLength(a);
      var t := a[n + TypeAndLengthSize..];
      ReadyFramePrefix(a, b);
      UnfoldReady(a);
      UnfoldReady(a + b);
      DeframeAppend(t, b);
      PrependPrepend([ParseFrame(a, n)], Deframe(t).messages, Deframe(Deframe(t).rest + b));
    } else {
      assert Settled(a);
      PrependNil(Deframe(a + b));
    }
  }

  /** Once decoding has stopped at a malformed header, more bytes change nothing:
      no further message is produced and the same error is reported. */
  lemma MalformedIsSticky(s: seq<byte>, more: seq<byte>)
    requires Settled(s) && Deframe(s).error.Some?
    ensures Deframe(s + more) == Deframed([], s + more, Deframe(s).error)
  {
    assert (s + more)[1..5] == s[1..5];
    assert FrameLength(s + more) == FrameLength(s);
  }

  /** The header fields of an encoded frame, read back from the stream it starts. */
  lemma EncodedHeader(m: Message, tail: seq<byte>)
    requires Encodable(m)
    ensures var s := EncodeMessage(m) + tail;
      && |s| >= HeaderSize + |m.content|
      && s[0] == m.messageType
      && FrameLength(s) == |m.content| + TimestampSize
      && JoinTimestamp(GetU32(s, 5), GetU32(s, 9)) == m.timestamp
  {
    var f := EncodeMessage(m);
    assert f == EncodeHeader(m.messageType, m.timestamp, |m.content|) + m.content;
    HeaderFields(m.messageType, m.timestamp, |m.content|, m.content);
    GetU32Prefix(f, tail, 1);
    GetU32Prefix(f, tail, 5);
    GetU32Prefix(f, tail, 9);
    BelowModulus(|m.content| + TimestampSize, TWO_32);
    BelowModulus(m.timestamp, TWO_64);
  }

  lemma BelowModulus(x: nat, modulus: nat)
    requires x < modulus
    ensures x % modulus == x
  {
  }

  /** A 32-bit field is read the same whatever follows it. */
  lemma GetU32Prefix(a: seq<byte>, b: seq<byte>, off: nat)
    requires off + 4 <= |a|
    ensures GetU32(a + b, off) == GetU32(a, off)
  {
    assert (a + b)[off..off + 4] == a[off..off + 4];
  }

  /** Reading an encoded frame back, field by field. */
  lemma ParseEncoded(m: Message, tail: seq<byte>)
    requires Encodable(m)
    ensures var s := EncodeMessage(m) + tail;
      && FrameReady(s)
      && FrameLength(s) == |m.content| + TimestampSize
      && ParseFrame(s, FrameLength(s)) == m
      && s[FrameLength(s) + TypeAndLengthSize..] == tail
  {
    var f := EncodeMessage(m);
    var s := f + tail;
    EncodedHeader(m, tail);
    var n := |m.content| + TimestampSize;
    assert f[HeaderSize..] == m.content;
    assert s[HeaderSize..n + TypeAndLengthSize] == m.content;
    assert s[n + TypeAndLengthSize..] == tail;
  }

  /** Round trip: an encoded frame followed by any bytes decodes to its message first. */
  lemma DecodeEncode(m: Message, tail: seq<byte>)
    requires Encodable(m)
    ensures Deframe(EncodeMessage(m) + tail) == Prepend([m], Deframe(tail))
  {
    ParseEncoded(m, tail);
    UnfoldReady(EncodeMessage(m) + tail);
  }

  /** A lone encoded frame decodes to exactly its message, with nothing left over. */
  lemma DecodeEncodeOne(m: Message)
    requires Encodable(m)
    ensures Deframe(EncodeMessage(m)) == Deframed([m], [], None)
  {
    DecodeEncode(m, []);
    assert EncodeMessage(m) + [] == EncodeMessage(m);
  }

  /** A frame that has only partly arrived yields nothing yet: every proper prefix of an
      encoded frame stays buffered whole, with no error. */
  lemma PartialFrameWaits(m: Message, k: nat)
    requires Encodable(m) && k < |EncodeMessage(m)|
    ensures Deframe(EncodeMessage(m)[..k]) == Deframed([], EncodeMessage(m)[..k], None)
  {
    var f := EncodeMessage(m);
    var p := f[..k];
    if k > TypeAndLengthSize {
      EncodedHeader(m, []);
      assert f + [] == f;
      assert p[1..5] == f[1..5];
      assert FrameLength(p) == FrameLength(f);
    }
  }

  /** Any sequence of encodable messages, sent back to back, decodes to itself. */
  lemma {:induction false} DecodeEncodeAll(ms: seq<Message>)
    requires forall i :: 0 <= i < |ms| ==> Encodable(ms[i])
    ensures Deframe(EncodeAll(ms)) == Deframed(ms, [], None)
    decreases |ms|
  {
    if ms != [] {
      assert Encodable(ms[0]);
      DecodeEncodeAll(ms[1..]);
      DecodeEncode(ms[0], EncodeAll(ms[1..]));
      assert [ms[0]] + ms[1..] == ms;
    }
  }

  // ---------------------------------------------------------------------------
  // Chunked delivery

  function Flatten(chunks: seq<seq<byte>>): seq<byte>
    decreases |chunks|
  {
    if chunks == [] then [] else chunks[0] + Flatten(chunks[1..])
  }

  /** Feeding the chunks one at a time to a decoder that keeps its unread tail:
      the messages of every call, in order, and the final state. */
  function FeedAll(pending: seq<byte>, chunks: seq<seq<byte>>): (fed: Deframed)
    ensures Settled(fed.rest)
    ensures |fed.rest| <= |pending| + |Flatten(chunks)|
    decreases |chunks|
  {
    if chunks == [] then
      DeframeRestSettled(pending);
      Deframe(pending)
    else
      var d := Deframe(pending + chunks[0]);
      assert |Flatten(chunks)| == |chunks[0]| + |Flatten(chunks[1..])|;
      Prepend(d.messages, FeedAll(d.rest, chunks[1..]))
  }

  /** Flattening one more chunk appends it. */
  lemma {:induction false} FlattenSnoc(chunks: seq<seq<byte>>, c: seq<byte>)
    ensures Flatten(chunks + [c]) == Flatten(chunks) + c
    decreases |chunks|
  {
    if chunks == [] {
      assert [] + [c] == [c];
      assert [c][1..] == [];
      assert c + [] == c;
    } else {
      assert (chunks + [c])[0] == chunks[0];
      assert (chunks + [c])[1..] == chunks[1..] + [c];
      FlattenSnoc(chunks[1..], c);
    }
  }

  /** One more chunk for a decoder whose state so far is what Deframe gives for the whole
      stream so far: the new messages extend the old ones, and the new tail and error are
      those of the stream with the chunk appended. */
  lemma ChunkStep(all: seq<byte>, c: seq<byte>, d: Deframed, next: Deframed)
    requires Deframe(all) == d && Deframe(d.rest + c) == next
    ensures Deframe(all + c) == Deframed(d.messages + next.messages, next.rest, next.error)
  {
    DeframeAppend(all, c);
  }

  /** Chunk-boundary independence: however the stream is cut into chunks, the decoder
      yields the same messages in the same order and ends in the same state as if the
      whole stream had arrived at once. */
  lemma {:induction false} ChunkingIrrelevant(pending: seq<byte>, chunks: seq<seq<byte>>)
    ensures FeedAll(pending, chunks) == Deframe(pending + Flatten(chunks))
    decreases |chunks|
  {
    if chunks != [] {
      var x := pending + chunks[0];
      var t := Flatten(chunks[1..]);
      var d := Deframe(x);
      ChunkingIrrelevant(d.rest, chunks[1..]);
      assert FeedAll(d.rest, chunks[1..]) == Deframe(d.rest + t);
      DeframeAppend(x, t);
      assert Deframe(x + t) == Prepend(d.messages, Deframe(d.rest + t));
      assert pending + Flatten(chunks) == x + t;
    } else {
      assert pending + Flatten(chunks) == pending;
    }
  }
}
