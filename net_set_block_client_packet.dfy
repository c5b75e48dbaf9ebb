// src/net/classicube/packets/SetBlockClientPacket.java: a client placing or destroying a block.

module NetSetBlockClientPacket {
  import opened Wrappers
  import opened JavaNum
  import opened NetPacket
  import NetPacketType
  import NetSetBlockMode

  /** The bytes `read` consumes: everything after the opcode. */
  const PayloadSize := 8

  class SetBlockClientPacket {
    var x: JShort
    var y: JShort
    var z: JShort
    var mode: JByte
    var blockType: JByte

    /** A new packet: every number 0, every string empty. */
    constructor()
      ensures x == 0 && y == 0 && z == 0 && mode == 0 && blockType == 0
    {
      x, y, z, mode, blockType := 0, 0, 0, 0, 0;
    }

    /** `write`: opcode 0x05, x, y and z as big-endian shorts, the mode, then the
        block type. */
    function Write(): (r: seq<Octet>)
      reads this
      ensures |r| == 1 + PayloadSize
      ensures ByteAt(r, 0) == NetPacketType.Id(NetPacketType.SET_BLOCK)
    {
      TypeByte(NetPacketType.SET_BLOCK)
      + ShortBytes(x)
      + ShortBytes(y)
      + ShortBytes(z)
      + ByteBytes(mode)
      + ByteBytes(blockType)
    }

    /** `read`: the fields in `write` order from the bytes after the opcode.
        A field is assigned once all of its bytes have arrived; when the
        input runs out the read fails, keeping what it already assigned. */
    method Read(input: seq<Octet>) returns (r: Result<nat>)
      modifies this
      ensures r.Ok? <==> |input| >= PayloadSize
      ensures r.Ok? ==> r.value == PayloadSize
      ensures r.Err? ==> r.reason == EndOfStream
      ensures |input| >= 2 ==> x == ShortAt(input, 0)
      ensures |input| < 2 ==> x == old(x)
      ensures |input| >= 4 ==> y == ShortAt(input, 2)
      ensures |input| < 4 ==> y == old(y)
      ensures |input| >= 6 ==> z == ShortAt(input, 4)
      ensures |input| < 6 ==> z == old(z)
      ensures |input| >= 7 ==> mode == ByteAt(input, 6)
      ensures |input| < 7 ==> mode == old(mode)
      ensures |input| >= 8 ==> blockType == ByteAt(input, 7)
      ensures |input| < 8 ==> blockType == old(blockType)
      ensures r.Ok? ==> Write()[1..] == input[..PayloadSize]
    {
      if |input| < 2 {
        return Err(EndOfStream);
      }
      x := ShortAt(input, 0);
      if |input| < 4 {
        return Err(EndOfStream);
      }
      y := ShortAt(input, 2);
      if |input| < 6 {
        return Err(EndOfStream);
      }
      z := ShortAt(input, 4);
      if |input| < 7 {
        return Err(EndOfStream);
      }
      mode := ByteAt(input, 6);
      if |input| < 8 {
        return Err(EndOfStream);
      }
      blockType := ByteAt(input, 7);
      ShortBytesOfShortAt(input, 0);
      ShortBytesOfShortAt(input, 2);
      ShortBytesOfShortAt(input, 4);
      ByteBytesOfByteAt(input, 6);
      ByteBytesOfByteAt(input, 7);
      assert input[..PayloadSize] == input[0..2] + input[2..4] + input[4..6] + input[6..7] + input[7..8];
      return Ok(PayloadSize);
    }

    /** `setMode`: the int narrowed to a byte, so only its low 8 bits are kept. */
    method SetMode(m: int)
      modifies this
      ensures mode == ToByte(m) && Low8(mode) == Low8(m)
      ensures x == old(x) && y == old(y) && z == old(z) && blockType == old(blockType)
    {
      mode := ToByte(m);
    }

    /** `getMode`: the mode byte looked up in SetBlockMode; null for anything
        but 0 (destroy) and 1 (place). */
    function GetMode(): (r: Option<NetSetBlockMode.SetBlockMode>)
      reads this
      ensures r == Some(NetSetBlockMode.DESTROY) <==> mode == 0
      ensures r == Some(NetSetBlockMode.PLACE) <==> mode == 1
      ensures r.None? <==> mode != 0 && mode != 1
    {
      NetSetBlockMode.GetById(mode)
    }
  }

  /** What `Read` decodes from the bytes `write` put after the opcode is every field;
      with `Read`'s re-encoding this makes the payload and the fields one-to-one. */
  lemma RoundTrip(p: SetBlockClientPacket)
    ensures var w := p.Write()[1..];
      ShortAt(w, 0) == p.x
      && ShortAt(w, 2) == p.y
      && ShortAt(w, 4) == p.z
      && ByteAt(w, 6) == p.mode
      && ByteAt(w, 7) == p.blockType
  {
    var w := p.Write()[1..];
    assert w == ShortBytes(p.x) + ShortBytes(p.y) + ShortBytes(p.z) + ByteBytes(p.mode) + ByteBytes(p.blockType);
    assert w[0..2] == ShortBytes(p.x);
    assert w[2..4] == ShortBytes(p.y);
    assert w[4..6] == ShortBytes(p.z);
    assert w[6..7] == ByteBytes(p.mode);
    assert w[7..8] == ByteBytes(p.blockType);
    ShortRoundTrip(p.x);
    ShortRoundTrip(p.y);
    ShortRoundTrip(p.z);
    ByteRoundTrip(p.mode);
    ByteRoundTrip(p.blockType);
  }
}
