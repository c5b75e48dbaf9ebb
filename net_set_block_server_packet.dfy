// src/net/classicube/packets/SetBlockServerPacket.java: the server telling a client that one
// block changed.

module NetSetBlockServerPacket {
  import opened Wrappers
  import opened JavaNum
  import opened NetPacket
  import NetPacketType

  /** The bytes `read` consumes: everything after the opcode. */
  const PayloadSize := 7

  class SetBlockServerPacket {
    var x: JShort
    var y: JShort
    var z: JShort
    var blockType: JByte

    /** A new packet: every number 0, every string empty. */
    constructor()
      ensures x == 0 && y == 0 && z == 0 && blockType == 0
    {
      x, y, z, blockType := 0, 0, 0, 0;
    }

    /** `write`: opcode 0x06, x, y and z as big-endian shorts, then the block
        type; there is no mode field. */
    function Write(): (r: seq<Octet>)
      reads this
      ensures |r| == 1 + PayloadSize
      ensures ByteAt(r, 0) == NetPacketType.Id(NetPacketType.SET_BLOCK_SERVER)
    {
      TypeByte(NetPacketType.SET_BLOCK_SERVER)
      + ShortBytes(x)
      + ShortBytes(y)
      + ShortBytes(z)
      + ByteBytes(blockType)
    }

    /** `read`: the fields in `write` order from the bytes after the opcode.
        A field is assigned once all of its bytes have arrived; when the
        input runs out the read fails, keeping what it already assigned. */
    method Read(input: seq<Octet>) returns (r: Result<nat>)
      modifies this
      ensures r.Ok? <==> |input| >= PayloadSize
      ensures r.Ok? ==> r.value == PayloadSize
      ensures r.Err? ==> r.reason == EndOfStream
      ensures |input| >= 2 ==> x == ShortAt(input, 0)
      ensures |input| < 2 ==> x == old(x)
      ensures |input| >= 4 ==> y == ShortAt(input, 2)
      ensures |input| < 4 ==> y == old(y)
      ensures |input| >= 6 ==> z == ShortAt(input, 4)
      ensures |input| < 6 ==> z == old(z)
      ensures |input| >= 7 ==> blockType == ByteAt(input, 6)
      ensures |input| < 7 ==> blockType == old(blockType)
      ensures r.Ok? ==> Write()[1..] == input[..PayloadSize]
    {
      if |input| < 2 {
        return Err(EndOfStream);
      }
      x := ShortAt(input, 0);
      if |input| < 4 {
        return Err(EndOfStream);
      }
      y := ShortAt(input, 2);
      if |input| < 6 {
        return Err(EndOfStream);
      }
      z := ShortAt(input, 4);
      if |input| < 7 {
        return Err(EndOfStream);
      }
      blockType := ByteAt(input, 6);
      ShortBytesOfShortAt(input, 0);
      ShortBytesOfShortAt(input, 2);
      ShortBytesOfShortAt(input, 4);
      ByteBytesOfByteAt(input, 6);
      assert input[..PayloadSize] == input[0..2] + input[2..4] + input[4..6] + input[6..7];
      return Ok(PayloadSize);
    }
  }

  /** What `Read` decodes from the bytes `write` put after the opcode is every field;
      with `Read`'s re-encoding this makes the payload and the fields one-to-one. */
  lemma RoundTrip(p: SetBlockServerPacket)
    ensures var w := p.Write()[1..];
      ShortAt(w, 0) == p.x
      && ShortAt(w, 2) == p.y
      && ShortAt(w, 4) == p.z
      && ByteAt(w, 6) == p.blockType
  {
    var w := p.Write()[1..];
    assert w == ShortBytes(p.x) + ShortBytes(p.y) + ShortBytes(p.z) + ByteBytes(p.blockType);
    assert w[0..2] == ShortBytes(p.x);
    assert w[2..4] == ShortBytes(p.y);
    assert w[4..6] == ShortBytes(p.z);
    assert w[6..7] == ByteBytes(p.blockType);
    ShortRoundTrip(p.x);
    ShortRoundTrip(p.y);
    ShortRoundTrip(p.z);
    ByteRoundTrip(p.blockType);
  }
}
