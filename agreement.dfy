/** The client and the server agree on the action byte: the server's toByte lays the flags
 *  out exactly as the client's sendPlayerAction does.  Taking Deframe as the definition
 *  of how frames are cut out of the stream on the receiving side, an action the client
 *  sends is decoded by the server's decode to the keys the client held.
 */
module Agreement {
  import opened Bytes
  import opened FrameCodec
  import opened Socket
  import opened Player

  /** The server-side record of the keys the client holds. */
  function HeldAction(action: map<Key, bool>): PlayerAction {
    PlayerAction(Held(action, Up), Held(action, Down), Held(action, Left), Held(action, Right), Held(action, Bomb))
  }

  /** For the same held keys, the server's toByte equals the client's action byte. */
  lemma ToByteMatchesClient(action: map<Key, bool>)
    ensures ToByte(HeldAction(action)) as int == ActionByte(action)
  {
  }

  /** End to end: the header and the payload sendPlayerAction sends, arriving as those two
      chunks at a fresh decoder, yield one message whose content the server's decode
      turns back into the held keys. */
  lemma PlayerActionRoundTrip(userid: int, action: map<Key, bool>, clientAction: byte, now: nat)
    requires now < TWO_64
    ensures var payload := ActionPayload(userid, action);
      && FeedAll([], [EncodeHeader(clientAction, now, ActionPayloadSize), payload])
         == Deframed([Message(clientAction, now, payload)], [], None)
      && Decode(payload) == HeldAction(action)
  {
    var payload := ActionPayload(userid, action);
    SentMessageIsReceived(clientAction, payload, now);
    ToByteMatchesClient(action);
    DecodeToByte(HeldAction(action), payload);
  }
}
