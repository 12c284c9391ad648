/** The server's view of a player's input: the five-flag action record, its one-byte
 *  encoding, and the player object whose action a CLIENT_ACTION message replaces.
 */
module Player {
  import opened Bytes

  /** Length of a client action message's content: a 4-byte user id and the action byte. */
  const ActionMessageLength: nat := 5

  /** Which controls the player holds. */
  datatype PlayerAction = PlayerAction(up: bool, down: bool, left: bool, right: bool, bomb: bool)

  /** toByte: one bit per flag, up = 1, down = 2, left = 4, right = 8, bomb = 16.  The bits
      are distinct, so or-ing them in one by one is the same as adding them. */
  function ToByte(a: PlayerAction): (b: byte)
    ensures b < 32
    ensures (b % 2 == 1) == a.up
    ensures ((b / 2) % 2 == 1) == a.down
    ensures ((b / 4) % 2 == 1) == a.left
    ensures ((b / 8) % 2 == 1) == a.right
    ensures ((b / 16) % 2 == 1) == a.bomb
  {
    (if a.up then 1 else 0)
      + (if a.down then 2 else 0)
      + (if a.left then 4 else 0)
      + (if a.right then 8 else 0)
      + (if a.bomb then 16 else 0)
  }

  /** decode: reads bits 0..4 of content[4], the action byte.  Indexing content[4]
      needs at least ActionMessageLength bytes.  Re-encoding the result keeps exactly
      those five bits. */
  function Decode(content: seq<byte>): (a: PlayerAction)
    requires |content| >= ActionMessageLength
    ensures ToByte(a) as int == content[4] as int % 32
  {
    var actionByte := content[4];
    LowFiveBits(actionByte as int);
    PlayerAction(
      up := actionByte % 2 == 1,
      down := (actionByte / 2) % 2 == 1,
      left := (actionByte / 4) % 2 == 1,
      right := (actionByte / 8) % 2 == 1,
      bomb := (actionByte / 16) % 2 == 1)
  }

  /** Round trip: whatever surrounds it, an action byte made by ToByte decodes to the
      action it was made from. */
  lemma DecodeToByte(a: PlayerAction, content: seq<byte>)
    requires |content| >= ActionMessageLength && content[4] == ToByte(a)
    ensures Decode(content) == a
  {
  }

  /** The other direction: re-encoding a decoded action keeps bits 0..4 of the action
      byte and drops bits 5..7. */
  lemma ToByteDecode(content: seq<byte>)
    requires |content| >= ActionMessageLength
    ensures ToByte(Decode(content)) as int == content[4] as int % 32
  {
    LowFiveBits(content[4] as int);
  }

  /** A number's residue modulo 32 is the sum of its five lowest bits. */
  lemma LowFiveBits(b: int)
    requires 0 <= b
    ensures b % 32 == b % 2 + 2 * ((b / 2) % 2) + 4 * ((b / 4) % 2) + 8 * ((b / 8) % 2) + 16 * ((b / 16) % 2)
  {
    Bit1(b);
    Bit2(b);
    Bit3(b);
    Bit4(b);
  }

  /** Bit 1 of b lifts the residue modulo 2 to the residue modulo 4. */
  lemma Bit1(b: int)
    requires 0 <= b
    ensures b % 4 == b % 2 + 2 * ((b / 2) % 2)
  {
    var q, r := b / 4, b % 4;
    assert b == 4 * q + r;
    assert b / 2 == 2 * q + r / 2;
  }

  /** Bit 2 of b lifts the residue modulo 4 to the residue modulo 8. */
  lemma Bit2(b: int)
    requires 0 <= b
    ensures b % 8 == b % 4 + 4 * ((b / 4) % 2)
  {
    var q, r := b / 8, b % 8;
    assert b == 8 * q + r;
    assert b / 4 == 2 * q + r / 4;
  }

  /** Bit 3 of b lifts the residue modulo 8 to the residue modulo 16. */
  lemma Bit3(b: int)
    requires 0 <= b
    ensures b % 16 == b % 8 + 8 * ((b / 8) % 2)
  {
    var q, r := b / 16, b % 16;
    assert b == 16 * q + r;
    assert b / 8 == 2 * q + r / 8;
  }

  /** Bit 4 of b lifts the residue modulo 16 to the residue modulo 32. */
  lemma Bit4(b: int)
    requires 0 <= b
    ensures b % 32 == b % 16 + 16 * ((b / 16) % 2)
  {
    var q, r := b / 32, b % 32;
    assert b == 32 * q + r;
    assert b / 16 == 2 * q + r / 16;
  }

  /** Decode depends on the action byte's low five bits alone: not on the user id bytes
      0..3, not on bits 5..7, not on anything after byte 4. */
  lemma DecodeReadsLowBitsOnly(c: seq<byte>, d: seq<byte>)
    requires |c| >= ActionMessageLength && |d| >= ActionMessageLength
    ensures Decode(c) == Decode(d) <==> c[4] as int % 32 == d[4] as int % 32
  {
    ToByteDecode(c);
    ToByteDecode(d);
  }

  /** The game entity that owns a player; its position and size are not part of this model. */
  class Entity {
  }

  /** A player: its entity, the controls it currently holds, and the way it faces. */
  class Player {
    var entity: Entity?
    var action: PlayerAction
    var direction: byte

    /** update: replaces the held controls and nothing else. */
    method Update(a: PlayerAction)
      modifies this
      ensures action == a
      ensures entity == old(entity) && direction == old(direction)
    {
      action := a;
    }

    /** processPlayerAction: the content of a client action message becomes the held controls. */
    method ProcessPlayerAction(content: seq<byte>)
      requires |content| >= ActionMessageLength
      modifies this
      ensures action == Decode(content)
      ensures ToByte(action) as int == content[4] as int % 32
      ensures entity == old(entity) && direction == old(direction)
    {
      var playerAction := Decode(content);
      Update(playerAction);
      ToByteDecode(content);
    }
  }
}
