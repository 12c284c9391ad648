/** The client's socket layer: the receive-side stream decoder that setupSocket installs
 *  as the WebSocket message handler, and the two send paths, sendMessage and
 *  sendPlayerAction.  The transport itself is not modelled: chunks arrive as arguments
 *  of Feed, and what would be handed to sock.send is returned as byte sequences.
 */
module Socket {
  import opened Bytes
  import opened FrameCodec

  /** Size of the receive buffer that setupSocket allocates. */
  const InitialBufferSize: nat := 1000

  /** The receive-side state that setupSocket keeps across messages: the buffer and the
      number of bytes in it.  The bytes held are always a "settled" tail of the stream:
      no frame in them can be decoded yet. */
  class StreamDecoder {
    var byteBuf: array<byte>
    var bytesInBuf: nat

    ghost predicate Valid()
      reads this, byteBuf
    {
      bytesInBuf <= byteBuf.Length && Settled(byteBuf[..bytesInBuf])
    }

    /** The bytes received but not yet decoded. */
    ghost function Pending(): seq<byte>
      reads this, byteBuf
      requires bytesInBuf <= byteBuf.Length
    {
      byteBuf[..bytesInBuf]
    }

    constructor ()
      ensures Valid() && fresh(byteBuf)
      ensures byteBuf.Length == InitialBufferSize && Pending() == []
    {
      byteBuf := new byte[InitialBufferSize];
      bytesInBuf := 0;
    }

    /** Makes room for need bytes, moving the buffered bytes to a larger array if the
        current one is too small. */
    method Reserve(need: nat)
      requires bytesInBuf <= byteBuf.Length
      modifies this
      ensures bytesInBuf <= byteBuf.Length && Pending() == old(Pending())
      ensures byteBuf.Length >= need
      ensures byteBuf == old(byteBuf) || fresh(byteBuf)
    {
      if byteBuf.Length < need {
        var capacity := if 2 * byteBuf.Length < need then need else 2 * byteBuf.Length;
        var grown := new byte[capacity];
        for i := 0 to bytesInBuf
          modifies grown
          invariant grown[..i] == byteBuf[..i]
        {
          grown[i] := byteBuf[i];
        }
        byteBuf := grown;
      }
    }

    /** Copies the chunk in after the buffered bytes. */
    method Append(chunk: seq<byte>)
      requires bytesInBuf <= byteBuf.Length
      modifies this, byteBuf
      ensures bytesInBuf <= byteBuf.Length && Pending() == old(Pending()) + chunk
      ensures byteBuf == old(byteBuf) || fresh(byteBuf)
    {
      Reserve(bytesInBuf + |chunk|);
      for i := 0 to |chunk|
        modifies byteBuf
        invariant byteBuf[..bytesInBuf] == old(Pending())
        invariant forall k :: 0 <= k < i ==> byteBuf[bytesInBuf + k] == chunk[k]
      {
        byteBuf[bytesInBuf + i] := chunk[i];
      }
      bytesInBuf := bytesInBuf + |chunk|;
      assert Pending() == old(Pending()) + chunk;
    }

    /** Walks the read cursor over every complete frame at the front of the buffer and
        returns their messages, the cursor, and the malformed header it stopped at, if any.
        The buffer is not changed. */
    method DecodeFrames() returns (messages: seq<Message>, error: Option<FrameError>, bytesRead: nat)
      requires bytesInBuf <= byteBuf.Length
      ensures bytesRead <= bytesInBuf
      ensures Deframe(Pending()) == Deframed(messages, Pending()[bytesRead..], error)
    {
      ghost var all := Pending();
      bytesRead := 0;
      messages := [];
      error := None;
      assert all[bytesRead..] == all;
      PrependNil(Deframe(all));
      while bytesInBuf - bytesRead > TypeAndLengthSize
        invariant bytesRead <= bytesInBuf
        invariant Deframe(all) == Prepend(messages, Deframe(all[bytesRead..]))
        invariant error == None
        decreases bytesInBuf - bytesRead
      {
        var view := byteBuf[bytesRead..bytesInBuf];
        assert view == all[bytesRead..];
        var frameLength := GetU32(view, 1);
        if frameLength < TimestampSize {
          error := Some(MalformedHeader(frameLength));
          break;
        }
        if bytesInBuf - bytesRead - TypeAndLengthSize < frameLength {
          break;
        }
        var messageType := view[0];
        var timestampFirstHalf := GetU32(view, 5);
        var timestampSecondHalf := GetU32(view, 9);
        var timestamp := JoinTimestamp(timestampFirstHalf, timestampSecondHalf);
        var content := view[HeaderSize..frameLength + TypeAndLengthSize];
        var m := Message(messageType, timestamp, content);
        var next := bytesRead + frameLength + TypeAndLengthSize;
        DeframeAdvance(all, bytesRead, messages, view, m, next);
        messages := messages + [m];
        bytesRead := next;
      }
      DeframeStop(all, bytesRead, messages);
    }

    /** Moves the bytes from bytesRead on to offset 0 and drops the rest. */
    method Compact(bytesRead: nat)
      requires bytesRead <= bytesInBuf <= byteBuf.Length
      modifies this, byteBuf
      ensures byteBuf == old(byteBuf) && bytesInBuf <= byteBuf.Length
      ensures Pending() == old(Pending()[bytesRead..])
    {
      if bytesRead != 0 {
        for i := 0 to bytesInBuf - bytesRead
          modifies byteBuf
          invariant forall k :: 0 <= k < i ==> byteBuf[k] == old(byteBuf[bytesRead + k])
          invariant forall k :: bytesRead + i <= k < bytesInBuf ==> byteBuf[k] == old(byteBuf[k])
        {
          byteBuf[i] := byteBuf[i + bytesRead];
        }
      }
      bytesInBuf := bytesInBuf - bytesRead;
      assert Pending() == old(Pending()[bytesRead..]);
    }

    /** Handles one incoming chunk: appends it, decodes every complete frame from the
        front of the buffer, and moves the unread tail to offset 0.  Returns the decoded
        messages in arrival order, and the malformed header it stopped at, if any. */
    method Feed(chunk: seq<byte>) returns (messages: seq<Message>, error: Option<FrameError>)
      requires Valid()
      modifies this, byteBuf
      ensures Valid()
      ensures Deframe(old(Pending()) + chunk) == Deframed(messages, Pending(), error)
      ensures byteBuf == old(byteBuf) || fresh(byteBuf)
    {
      Append(chunk);
      var bytesRead;
      messages, error, bytesRead := DecodeFrames();
      DeframeRestSettled(Pending());
      Compact(bytesRead);
    }

    /** Handles a sequence of incoming chunks one event at a time.  The messages
        collected, the pending bytes and the last reported error are those of the
        concatenated stream, however it was cut into chunks.  It first feeds an empty
        chunk, which only reads the current error. */
    method FeedChunks(chunks: seq<seq<byte>>) returns (messages: seq<Message>, error: Option<FrameError>)
      requires Valid()
      modifies this, byteBuf
      ensures Valid()
      ensures Deframe(old(Pending()) + Flatten(chunks)) == Deframed(messages, Pending(), error)
      ensures byteBuf == old(byteBuf) || fresh(byteBuf)
    {
      ghost var start := Pending();
      messages, error := Feed([]);
      ChunksFedNone(start, chunks, Deframed(messages, Pending(), error));
      for i := 0 to |chunks|
        invariant Valid()
        invariant byteBuf == old(byteBuf) || fresh(byteBuf)
        invariant Deframe(start + Flatten(chunks[..i])) == Deframed(messages, Pending(), error)
      {
        ghost var before := Deframed(messages, Pending(), error);
        var more, last := Feed(chunks[i]);
        ChunksFedOneMore(start, chunks, i, before, Deframed(more, Pending(), last));
        messages, error := messages + more, last;
      }
      assert chunks[..|chunks|] == chunks;
    }
  }

  /** FeedChunks before its first chunk: what an empty chunk reports is the state
      after none of the chunks. */
  lemma ChunksFedNone(start: seq<byte>, chunks: seq<seq<byte>>, d: Deframed)
    requires Deframe(start + []) == d
    ensures Deframe(start + Flatten(chunks[..0])) == d
  {
    assert chunks[..0] == [];
    assert start + [] == start;
  }

  /** FeedChunks after one more chunk: feeding chunk i to the state of the first i
      chunks gives the state of the first i + 1. */
  lemma ChunksFedOneMore(start: seq<byte>, chunks: seq<seq<byte>>, i: nat, d: Deframed, next: Deframed)
    requires i < |chunks|
    requires Deframe(start + Flatten(chunks[..i])) == d && Deframe(d.rest + chunks[i]) == next
    ensures Deframe(start + Flatten(chunks[..i + 1])) == Deframed(d.messages + next.messages, next.rest, next.error)
  {
    ChunkStep(start + Flatten(chunks[..i]), chunks[i], d, next);
    assert chunks[..i + 1] == chunks[..i] + [chunks[i]];
    FlattenSnoc(chunks[..i], chunks[i]);
    assert start + Flatten(chunks[..i + 1]) == start + Flatten(chunks[..i]) + chunks[i];
  }

  /** The action payload carries the user id and one action byte. */
  const ActionPayloadSize: nat := 5

  /** DataView.setUint32(offset, value, false) on a buffer. */
  method SetUint32(a: array<byte>, offset: nat, value: int)
    requires offset + 4 <= a.Length
    modifies a
    ensures a[..] == old(a[..offset]) + U32Bytes(value) + old(a[offset + 4..])
  {
    var w := U32Bytes(value);
    a[offset] := w[0];
    a[offset + 1] := w[1];
    a[offset + 2] := w[2];
    a[offset + 3] := w[3];
  }

  /** sendMessage: builds the 13-byte header for message and returns what is handed to
      the transport, the header and then the message itself.  The clock reading is the
      parameter now. */
  method SendMessage(messageId: byte, message: seq<byte>, now: nat) returns (sent: seq<seq<byte>>)
    ensures sent == [EncodeHeader(messageId, now, |message|), message]
  {
    var header := new byte[HeaderSize];
    header[0] := messageId;
    SetUint32(header, 1, |message| + TimestampSize);
    assert header[..5] == [messageId] + U32Bytes(|message| + TimestampSize);
    var timestamp := now;
    var timestampFirstHalf := timestamp / TWO_32;
    var timestampSecondHalf := timestamp % TWO_32;
    SetUint32(header, 5, timestampFirstHalf);
    assert header[..9] == [messageId] + U32Bytes(|message| + TimestampSize) + U32Bytes(timestampFirstHalf);
    SetUint32(header, 9, timestampSecondHalf);
    assert header[..] == [messageId] + U32Bytes(|message| + TimestampSize) + U32Bytes(timestampFirstHalf) + U32Bytes(timestampSecondHalf);
    sent := [header[..], message];
  }

  /** What sendMessage hands to the transport reaches a fresh decoder as exactly one
      message, even when the header and the message arrive as separate chunks. */
  lemma SentMessageIsReceived(messageId: byte, message: seq<byte>, now: nat)
    requires now < TWO_64 && |message| + TimestampSize < TWO_32
    ensures FeedAll([], [EncodeHeader(messageId, now, |message|), message])
         == Deframed([Message(messageId, now, message)], [], None)
    ensures Deframe(EncodeHeader(messageId, now, |message|) + message)
         == Deframed([Message(messageId, now, message)], [], None)
  {
    var header := EncodeHeader(messageId, now, |message|);
    var chunks := [header, message];
    ChunkingIrrelevant([], chunks);
    FlattenPair(header, message);
    assert [] + Flatten(chunks) == header + message;
    DecodeEncodeOne(Message(messageId, now, message));
  }

  /** The receiving side of one sendMessage on the decoder class: a fresh decoder fed the
      header and then the payload, one Feed call each, yields exactly the one message,
      with nothing left buffered and no error. */
  method ReceiveSent(messageId: byte, message: seq<byte>, now: nat)
    returns (decoder: StreamDecoder, messages: seq<Message>, error: Option<FrameError>)
    requires now < TWO_64 && |message| + TimestampSize < TWO_32
    ensures decoder.Valid() && decoder.Pending() == []
    ensures messages == [Message(messageId, now, message)] && error == None
  {
    var sent := SendMessage(messageId, message, now);
    var header, payload := sent[0], sent[1];
    decoder := new StreamDecoder();
    var first, firstError := decoder.Feed(header);
    assert [] + header == header;
    ghost var between := decoder.Pending();
    var second, secondError := decoder.Feed(payload);
    messages := first + second;
    error := secondError;
    TwoFeedsReceiveSent(messageId, message, now, first, between, firstError, second, decoder.Pending(), secondError);
  }

  /** Why ReceiveSent holds: the results of the two Feed calls, as Feed's contract
      states them, add up to the one message and an empty buffer. */
  lemma TwoFeedsReceiveSent(messageId: byte, message: seq<byte>, now: nat,
                            first: seq<Message>, between: seq<byte>, firstError: Option<FrameError>,
                            second: seq<Message>, after: seq<byte>, secondError: Option<FrameError>)
    requires now < TWO_64 && |message| + TimestampSize < TWO_32
    requires Deframe(EncodeHeader(messageId, now, |message|)) == Deframed(first, between, firstError)
    requires Deframe(between + message) == Deframed(second, after, secondError)
    ensures first + second == [Message(messageId, now, message)]
    ensures after == [] && secondError == None
  {
    var header := EncodeHeader(messageId, now, |message|);
    ChunkStep(header, message, Deframed(first, between, firstError), Deframed(second, after, secondError));
    SentMessageIsReceived(messageId, message, now);
  }

  lemma FlattenPair(a: seq<byte>, b: seq<byte>)
    ensures Flatten([a, b]) == a + b
  {
    assert [a, b][1..] == [b];
    assert [b][1..] == [];
    assert Flatten([b]) == b + Flatten([]);
    assert b + [] == b;
  }

  /** The keys whose state sendPlayerAction reports. */
  datatype Key = Up | Down | Left | Right | Bomb

  /** action.get(k) is truthy: the key is present and held. */
  predicate Held(action: map<Key, bool>, k: Key)
    ensures k !in action ==> !Held(action, k)
    ensures k in action ==> (Held(action, k) <==> action[k])
  {
    k in action && action[k]
  }

  /** The action byte: bit 0 UP, bit 1 DOWN, bit 2 LEFT, bit 3 RIGHT, bit 4 BOMB. */
  function ActionByte(action: map<Key, bool>): (b: nat)
    ensures b < 32
    ensures (b % 2 == 1) == Held(action, Up)
    ensures ((b / 2) % 2 == 1) == Held(action, Down)
    ensures ((b / 4) % 2 == 1) == Held(action, Left)
    ensures ((b / 8) % 2 == 1) == Held(action, Right)
    ensures ((b / 16) % 2 == 1) == Held(action, Bomb)
  {
    (if Held(action, Up) then 1 else 0)
      + (if Held(action, Down) then 2 else 0)
      + (if Held(action, Left) then 4 else 0)
      + (if Held(action, Right) then 8 else 0)
      + (if Held(action, Bomb) then 16 else 0)
  }

  /** UP and BOMB held, nothing else reported: bits 0 and 4, the byte 0x11. */
  lemma UpAndBombByte()
    ensures ActionByte(map[Up := true, Bomb := true]) == 0x11
    ensures ActionByte(map[Up := true, Bomb := true, Down := false]) == 0x11
  {
  }

  /** The five payload bytes: user id (big-endian, reduced modulo 2^32), then the action byte. */
  function ActionPayload(userid: int, action: map<Key, bool>): (p: seq<byte>)
    ensures |p| == ActionPayloadSize
    ensures GetU32(p, 0) == userid % TWO_32
    ensures p[4] as nat == ActionByte(action)
  {
    var r := U32Bytes(userid) + [ActionByte(action) as byte];
    GetU32OfU32Bytes(userid, [], [ActionByte(action) as byte]);
    assert [] + U32Bytes(userid) + [ActionByte(action) as byte] == r;
    r
  }

  /** sendPlayerAction: sets one bit per held key, builds the 5-byte payload and sends it
      as a message of type clientAction (the value of MessageTypes.CLIENT_ACTION). */
  method SendPlayerAction(userid: int, action: map<Key, bool>, clientAction: byte, now: nat)
    returns (sent: seq<seq<byte>>)
    ensures sent == [EncodeHeader(clientAction, now, ActionPayloadSize), ActionPayload(userid, action)]
  {
    var actionByte: bv8 := 0;
    if Held(action, Up) { actionByte := actionByte | 1; }
    assert actionByte as int == (if Held(action, Up) then 1 else 0);
    if Held(action, Down) { actionByte := actionByte | (1 << 1); }
    assert actionByte as int == (if Held(action, Up) then 1 else 0) + (if Held(action, Down) then 2 else 0);
    if Held(action, Left) { actionByte := actionByte | (1 << 2); }
    if Held(action, Right) { actionByte := actionByte | (1 << 3); }
    if Held(action, Bomb) { actionByte := actionByte | (1 << 4); }
    assert actionByte as int == ActionByte(action);
    var buf := new byte[ActionPayloadSize];
    SetUint32(buf, 0, userid);
    buf[4] := actionByte as int as byte;
    assert buf[..] == ActionPayload(userid, action);
    sent := SendMessage(clientAction, buf[..], now);
  }
}
