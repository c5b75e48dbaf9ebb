// src/net/classicube/packets/cpe/HeldBlockPacket.java: sets the block in the
// client's hand. The block enum of this snapshot is not part of this model, so
// the block is given by its id. No opcode byte precedes the fields.

module NetHeldBlockPacket {
  import opened JavaNum

  datatype HeldBlockPacket = HeldBlockPacket(blockId: JByte, force: bool)

  /** `write`: the block id, then `force` as 1 or 0. */
  function Write(p: HeldBlockPacket): (r: seq<Octet>)
    ensures |r| == 2 && ByteAt(r, 0) == p.blockId
    ensures r[1] == 0 || r[1] == 1
    ensures r[1] == 1 <==> p.force
  {
    ByteBytes(p.blockId) + ByteBytes(if p.force then 1 else 0)
  }
}
