// src/classic/packets/LevelFinalizePacket.java: the end of a level transfer, carrying the
// level's dimensions.

module ClassicLevelFinalizePacket {
  import opened Wrappers
  import opened JavaNum
  import opened ClassicPacket
  import ClassicPacketType
  import NetPacket

  /** The bytes `read` consumes: everything after the opcode. */
  const PayloadSize := 6

  class LevelFinalizePacket {
    var xSize: JShort
    var ySize: JShort
    var zSize: JShort

    /** A new packet: every number 0, every string empty. */
    constructor()
      ensures xSize == 0 && ySize == 0 && zSize == 0
    {
      xSize, ySize, zSize := 0, 0, 0;
    }

    /** `write`: opcode 0x04, then the x, y and z sizes as big-endian shorts. */
    function Write(): (r: seq<Octet>)
      reads this
      ensures |r| == 1 + PayloadSize
      ensures ByteAt(r, 0) == ClassicPacketType.Id(ClassicPacketType.LEVEL_FINALIZE)
    {
      TypeByte(ClassicPacketType.LEVEL_FINALIZE)
      + ShortBytes(xSize)
      + ShortBytes(ySize)
      + ShortBytes(zSize)
    }

    /** `read`: the fields in `write` order from the bytes after the opcode.
        A field is assigned once all of its bytes have arrived; when the
        input runs out the read fails, keeping what it already assigned. */
    method Read(input: seq<Octet>) returns (r: Result<nat>)
      modifies this
      ensures r.Ok? <==> |input| >= PayloadSize
      ensures r.Ok? ==> r.value == PayloadSize
      ensures r.Err? ==> r.reason == EndOfStream
      ensures |input| >= 2 ==> xSize == ShortAt(input, 0)
      ensures |input| < 2 ==> xSize == old(xSize)
      ensures |input| >= 4 ==> ySize == ShortAt(input, 2)
      ensures |input| < 4 ==> ySize == old(ySize)
      ensures |input| >= 6 ==> zSize == ShortAt(input, 4)
      ensures |input| < 6 ==> zSize == old(zSize)
      ensures r.Ok? ==> Write()[1..] == input[..PayloadSize]
    {
      if |input| < 2 {
        return Err(EndOfStream);
      }
      xSize := ShortAt(input, 0);
      if |input| < 4 {
        return Err(EndOfStream);
      }
      ySize := ShortAt(input, 2);
      if |input| < 6 {
        return Err(EndOfStream);
      }
      zSize := ShortAt(input, 4);
      ShortBytesOfShortAt(input, 0);
      ShortBytesOfShortAt(input, 2);
      ShortBytesOfShortAt(input, 4);
      assert input[..PayloadSize] == input[0..2] + input[2..4] + input[4..6];
      return Ok(PayloadSize);
    }
  }

  /** What `Read` decodes from the bytes `write` put after the opcode is every field;
      with `Read`'s re-encoding this makes the payload and the fields one-to-one. */
  lemma RoundTrip(p: LevelFinalizePacket)
    ensures var w := p.Write()[1..];
      ShortAt(w, 0) == p.xSize
      && ShortAt(w, 2) == p.ySize
      && ShortAt(w, 4) == p.zSize
  {
    var w := p.Write()[1..];
    assert w == ShortBytes(p.xSize) + ShortBytes(p.ySize) + ShortBytes(p.zSize);
    assert w[0..2] == ShortBytes(p.xSize);
    assert w[2..4] == ShortBytes(p.ySize);
    assert w[4..6] == ShortBytes(p.zSize);
    ShortRoundTrip(p.xSize);
    ShortRoundTrip(p.ySize);
    ShortRoundTrip(p.zSize);
  }
}
