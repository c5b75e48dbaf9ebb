// src/net/classicube/packets/cpe/ExtRemovePlayerNamePacket.java: removes an
// entry from the client's player list. No opcode byte precedes the id.

module NetExtRemovePlayerNamePacket {
  import opened JavaNum

  /** The id is final, fixed by the constructor. */
  datatype ExtRemovePlayerNamePacket = ExtRemovePlayerNamePacket(playerID: JByte)

  /** `write`: exactly one byte, the player id; nothing else is written. */
  function Write(p: ExtRemovePlayerNamePacket): (r: seq<Octet>)
    ensures |r| == 1 && ByteAt(r, 0) == p.playerID
  {
    ByteBytes(p.playerID)
  }
}
