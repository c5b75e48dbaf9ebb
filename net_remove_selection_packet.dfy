// src/net/classicube/packets/cpe/RemoveSelectionPacket.java: removes a
// highlighted selection from the client. No opcode byte precedes the id.

module NetRemoveSelectionPacket {
  import opened JavaNum

  /** The id is final, fixed by the constructor. */
  datatype RemoveSelectionPacket = RemoveSelectionPacket(toRemoveID: JByte)

  /** `write`: exactly one byte, the selection id. */
  function Write(p: RemoveSelectionPacket): (r: seq<Octet>)
    ensures |r| == 1 && ByteAt(r, 0) == p.toRemoveID
  {
    ByteBytes(p.toRemoveID)
  }
}
