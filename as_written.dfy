/** The receive handler of client/js/socket.tsx exactly as its index arithmetic reads,
 *  step by step, on plain values.  Each step comes with an input on which it departs
 *  from the decoder that module Socket proves correct.
 *
 *  Indexing conventions of the typed arrays involved: a view created at offset `off`
 *  maps its index `i` to buffer index `off + i`; a write to an index at or past a
 *  Uint8Array's end is ignored; a read past its end yields `undefined`, which a
 *  Uint8Array store turns into 0; a DataView read past its end throws a RangeError.
 */
module AsWritten {
  import opened Bytes
  import opened FrameCodec

  /** The 1000-byte buffer the handler starts with (an ArrayBuffer is zero-filled). */
  function ZeroBuffer(): (b: seq<byte>)
    ensures |b| == 1000 && forall j :: 0 <= j < |b| ==> b[j] == 0
  {
    seq(1000, _ => 0 as byte)
  }

  // ---------------------------------------------------------------------------
  // Appending a chunk (lines 28-32)

  /** The copy loop as written: bufView starts at bytesInBuf and the loop writes
      bufView[i + bytesInBuf], i.e. buffer index 2 * bytesInBuf + i; writes past the
      buffer's end are dropped.  The new count is bytesInBuf + |data| regardless. */
  function CopyAsWritten(buf: seq<byte>, bytesInBuf: nat, data: seq<byte>): (r: (seq<byte>, nat))
    requires bytesInBuf <= |buf|
    ensures |r.0| == |buf| && r.1 == bytesInBuf + |data|
    ensures forall j :: 0 <= j < |buf| && 2 * bytesInBuf <= j < 2 * bytesInBuf + |data| ==> r.0[j] == data[j - 2 * bytesInBuf]
    ensures forall j :: 0 <= j < |buf| && !(2 * bytesInBuf <= j < 2 * bytesInBuf + |data|) ==> r.0[j] == buf[j]
  {
    (seq(|buf|, j requires 0 <= j < |buf| =>
       if 2 * bytesInBuf <= j < 2 * bytesInBuf + |data| then data[j - 2 * bytesInBuf] else buf[j]),
     bytesInBuf + |data|)
  }

  /** Three buffered bytes [1, 2, 3] and a one-byte chunk [4]: the chunk lands at index 6,
      and the counted pending bytes read [1, 2, 3, 0] instead of [1, 2, 3, 4]. */
  lemma CopyMisplacesChunk()
    ensures var buf := [1, 2, 3] + ZeroBuffer()[3..];
      var (after, count) := CopyAsWritten(buf, 3, [4]);
      && count == 4
      && after[..count] == [1, 2, 3, 0]
      && after[..count] != buf[..3] + [4]
  {
    var buf: seq<byte> := [1, 2, 3] + ZeroBuffer()[3..];
    var (after, count) := CopyAsWritten(buf, 3, [4]);
    assert after[3] == buf[3] == 0;
    assert after[..count] == [after[0], after[1], after[2], after[3]];
  }

  /** A chunk longer than the fixed buffer: an empty buffer receiving 1001 bytes keeps
      1000 of them but counts 1001, so a frame of 1001 or more bytes can never be read. */
  lemma CopyOverflows(data: seq<byte>)
    requires |data| == 1001
    ensures var (after, count) := CopyAsWritten(ZeroBuffer(), 0, data);
      && count == 1001
      && |after| < count
      && after == data[..1000]
  {
  }

  // ---------------------------------------------------------------------------
  // The decoding loop (lines 36-51)

  /** The completeness test at line 39 as written: the unread region is measured from
      the start of the buffer rather than from the cursor. */
  predicate CompleteAsWritten(bytesInBuf: nat, frameLength: nat)
    ensures CompleteAsWritten(bytesInBuf, frameLength) <==> CompleteFromCursor(bytesInBuf, 0, frameLength)
  {
    bytesInBuf - TypeAndLengthSize >= frameLength
  }

  /** The test the loop needs: frameLength + 5 bytes from the cursor on. */
  predicate CompleteFromCursor(bytesInBuf: nat, bytesRead: nat, frameLength: nat)
    requires bytesRead <= bytesInBuf
  {
    bytesInBuf - bytesRead - TypeAndLengthSize >= frameLength
  }

  /** A 13-byte first frame followed by the first 6 bytes of a second frame whose
      header declares frameLength 8.  At bytesRead 13, line 39 as written accepts the second
      frame, although only 6 of its 13 bytes are there, and line 43 then throws.  Decoding
      from the cursor instead returns the first message and keeps the partial second frame. */
  lemma CompletenessIgnoresCursor()
    ensures var s := EncodeMessage(Message(1, 0, [])) + [2, 0, 0, 0, 8, 0];
      var buf := s + ZeroBuffer()[|s|..];
      && |s| == 19
      && CompleteAsWritten(19, GetU32(s[13..], 1))
      && !CompleteFromCursor(19, 13, GetU32(s[13..], 1))
      && TimestampAsWritten(buf, 19, 13) == None
      && Deframe(s) == Deframed([Message(1, 0, [])], s[13..], None)
  {
    var m1 := Message(1, 0, []);
    var m2 := Message(2, 0, []);
    var tail: seq<byte> := [2, 0, 0, 0, 8, 0];
    var s := EncodeMessage(m1) + tail;
    assert GetU32(tail, 1) == 8;
    assert s[13..] == tail;
    EncodedHeader(m2, []);
    assert EncodeMessage(m2) + [] == EncodeMessage(m2);
    assert EncodeMessage(m2)[..6] == tail;
    PartialFrameWaits(m2, 6);
    DecodeEncode(m1, tail);
  }

  /** The decoding loop as written: while more than 5 bytes are unread it tests the frame
      and advances only when the test succeeds; there is no other way out of the loop.
      Stepping it once from bytesRead: */
  function LoopStepAsWritten(bytesInBuf: nat, bytesRead: nat, frameLength: nat): (next: nat)
    ensures next == bytesRead || next == bytesRead + frameLength + TypeAndLengthSize
  {
    if CompleteAsWritten(bytesInBuf, frameLength) then bytesRead + frameLength + TypeAndLengthSize else bytesRead
  }

  /** The decoding loop as written, run for at most `iterations` iterations from bytesRead
      over the first bytesInBuf bytes of the buffer.  Each iteration re-reads frameLength
      at the cursor, as lines 37-38 do.  The result is the cursor reached, or None when a
      timestamp read of lines 43-44 throws.  The cursor never moves back: it moves, or the
      handler throws, only when more than 5 bytes are unread and the test of line 39 accepts
      the frame at the cursor. */
  function RunAsWritten(buf: seq<byte>, bytesInBuf: nat, bytesRead: nat, iterations: nat): (r: Option<nat>)
    requires bytesInBuf <= |buf|
    ensures r.Some? ==> bytesRead <= r.value
    ensures r == Some(bytesRead)
      || (bytesRead + TypeAndLengthSize < bytesInBuf
          && CompleteAsWritten(bytesInBuf, GetU32(buf[bytesRead..bytesInBuf], 1)))
    decreases iterations
  {
    if iterations == 0 || bytesInBuf <= bytesRead + TypeAndLengthSize then Some(bytesRead)
    else
      var frameLength := GetU32(buf[bytesRead..bytesInBuf], 1);
      if CompleteAsWritten(bytesInBuf, frameLength) && TimestampAsWritten(buf, bytesInBuf, bytesRead).None? then None
      else RunAsWritten(buf, bytesInBuf, LoopStepAsWritten(bytesInBuf, bytesRead, frameLength), iterations - 1)
  }

  /** Whenever more than 5 bytes are unread and the test of line 39 rejects the frame at
      the cursor, no number of iterations moves the cursor, so the guard stays true and the
      loop never exits.  This follows from RunAsWritten's contract, whose recursive proof
      carries the induction. */
  lemma SpinsOnIncompleteFrame(buf: seq<byte>, bytesInBuf: nat, bytesRead: nat, iterations: nat)
    requires bytesRead + TypeAndLengthSize < bytesInBuf <= |buf|
    requires !CompleteAsWritten(bytesInBuf, GetU32(buf[bytesRead..bytesInBuf], 1))
    ensures RunAsWritten(buf, bytesInBuf, bytesRead, iterations) == Some(bytesRead)
    ensures bytesInBuf - RunAsWritten(buf, bytesInBuf, bytesRead, iterations).value > TypeAndLengthSize
  {
  }

  /** The 13-byte header of a frame with a one-byte payload, alone in the buffer
      (frameLength 9, the payload byte still to come): the handler spins on it. */
  lemma LoneHeaderSpins(messageType: byte, timestamp: nat, iterations: nat)
    ensures var buf := EncodeHeader(messageType, timestamp, 1) + ZeroBuffer()[HeaderSize..];
      && RunAsWritten(buf, HeaderSize, 0, iterations) == Some(0)
      && HeaderSize - RunAsWritten(buf, HeaderSize, 0, iterations).value > TypeAndLengthSize
  {
    var header := EncodeHeader(messageType, timestamp, 1);
    var buf := header + ZeroBuffer()[HeaderSize..];
    HeaderFields(messageType, timestamp, 1, []);
    assert header + [] == header;
    assert buf[0..HeaderSize] == header;
    SpinsOnIncompleteFrame(buf, HeaderSize, 0, iterations);
  }

  /** Two frames whose timestamp reads stay inside the view: an empty-payload frame
      (frameLength 8), then one with a 12-byte payload (frameLength 20), then 2 stray bytes.
      The loop as written reads each frameLength at its own cursor, accepts both frames and
      exits at bytesRead 38. */
  lemma TwoFramesAsWritten()
    ensures var s := EncodeMessage(Message(1, 0, [])) + EncodeMessage(Message(2, 0, seq(12, _ => 0))) + [0, 0];
      var buf := s + ZeroBuffer()[|s|..];
      && |s| == 40
      && GetU32(buf[0..40], 1) == 8
      && GetU32(buf[13..40], 1) == 20
      && RunAsWritten(buf, 40, 0, 3) == Some(38)
  {
    var m1 := Message(1, 0, []);
    var m2 := Message(2, 0, seq(12, _ => 0));
    var s := EncodeMessage(m1) + EncodeMessage(m2) + [0, 0];
    var buf := s + ZeroBuffer()[|s|..];
    EncodedHeader(m1, EncodeMessage(m2) + [0, 0]);
    EncodedHeader(m2, [0, 0]);
    assert s == EncodeMessage(m1) + (EncodeMessage(m2) + [0, 0]);
    assert buf[0..40] == s;
    assert buf[13..40] == EncodeMessage(m2) + [0, 0];
    assert RunAsWritten(buf, 40, 38, 1) == Some(38);
    assert RunAsWritten(buf, 40, 13, 2) == Some(38);
  }

  /** The timestamp reads at lines 43-44 as written: `view` starts at bytesRead, and the
      offsets bytesRead + 5 and bytesRead + 9 are added to it again.  None stands for
      the RangeError a DataView read past its end throws. */
  function TimestampAsWritten(buf: seq<byte>, bytesInBuf: nat, bytesRead: nat): (t: Option<nat>)
    requires bytesRead <= bytesInBuf <= |buf|
    ensures t.Some? <==> 2 * bytesRead + HeaderSize <= bytesInBuf
  {
    var viewLength := bytesInBuf - bytesRead;
    if bytesRead + 9 + 4 <= viewLength then
      Some(JoinTimestamp(GetU32(buf, 2 * bytesRead + 5), GetU32(buf, 2 * bytesRead + 9)))
    else None
  }

  /** Two empty-payload frames back to back: reading the second one's timestamp at
      bytesRead 13 throws, while the stream decodes to both messages. */
  lemma SecondTimestampThrows()
    ensures var m1 := Message(1, 7, []);
      var m2 := Message(2, 9, []);
      var s := EncodeMessage(m1) + EncodeMessage(m2);
      && |s| == 26
      && TimestampAsWritten(s, 26, 13) == None
      && Deframe(s) == Deframed([m1, m2], [], None)
  {
    var m1 := Message(1, 7, []);
    var m2 := Message(2, 9, []);
    DecodeEncode(m1, EncodeMessage(m2));
    DecodeEncodeOne(m2);
  }

  // ---------------------------------------------------------------------------
  // Compaction (lines 53-61)

  /** The compaction loop as written: copyView starts at bytesRead and the loop reads
      copyView[i + bytesRead], i.e. buffer index 2 * bytesRead + i, for i below the
      copyView's length; a read past copyView's end stores 0. */
  function CompactAsWritten(buf: seq<byte>, bytesInBuf: nat, bytesRead: nat): (r: (seq<byte>, nat))
    requires bytesRead <= bytesInBuf <= |buf|
    ensures |r.0| == |buf| && r.1 == bytesInBuf - bytesRead
    ensures forall j :: 0 <= j < bytesInBuf - bytesRead && bytesRead != 0 ==>
      r.0[j] == (if j + bytesRead < bytesInBuf - bytesRead then buf[2 * bytesRead + j] else 0)
  {
    var count := bytesInBuf - bytesRead;
    if bytesRead == 0 then (buf, count)
    else
      (seq(|buf|, j requires 0 <= j < |buf| =>
         if j < count then (if j + bytesRead < count then buf[2 * bytesRead + j] else 0) else buf[j]),
       count)
  }

  /** A 13-byte frame followed by one leftover byte 7: after compaction the leftover
      should be at index 0, and as written index 0 holds 0. */
  lemma CompactionLosesTail()
    ensures var s := EncodeMessage(Message(1, 0, [])) + [7];
      var buf := s + ZeroBuffer()[|s|..];
      var (after, count) := CompactAsWritten(buf, 14, 13);
      && count == 1
      && after[..count] == [0]
      && buf[13..14] == [7]
  {
    var s := EncodeMessage(Message(1, 0, [])) + [7];
    var buf := s + ZeroBuffer()[|s|..];
    var (after, count) := CompactAsWritten(buf, 14, 13);
    assert after[..count] == [after[0]];
    assert buf[13] == s[13] == 7;
  }
}
