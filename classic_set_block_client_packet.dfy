// src/classic/packets/SetBlockClientPacket.java: a client placing or destroying a block.

module ClassicSetBlockClientPacket {
  import opened Wrappers
  import opened JavaNum
  import opened ClassicPacket
  import ClassicPacketType
  import NetPacket

  /** The bytes `read` consumes: everything after the opcode. */
  const PayloadSize := 8

  class SetBlockClientPacket {
    var x: JShort
    var y: JShort
    var z: JShort
    var mode: JByte
    var blockType: JByte

    /** A new packet: every number 0, every string empty. */
    constructor()
      ensures x == 0 && y == 0 && z == 0 && mode == 0 && blockType == 0
    {
      x, y, z, mode, blockType := 0, 0, 0, 0, 0;
    }

    /** `write`: opcode 0x05, x, y and z as big-endian shorts, the mode, then the
        block type. */
    function Write(): (r: seq<Octet>)
      reads this
      ensures |r| == 1 + PayloadSize
      ensures ByteAt(r, 0) == ClassicPacketType.Id(ClassicPacketType.SET_BLOCK)
    {
      TypeByte(ClassicPacketType.SET_BLOCK)
      + ShortBytes(x)
      + ShortBytes(y)
      + ShortBytes(z)
      + ByteBytes(mode)
      + ByteBytes(blockType)
    }

    /** `read`: the fields in `write` order from the bytes after the opcode.
        A field is assigned once all of its bytes have arrived; when the
        input runs out the read fails, keeping what it already assigned. */
    method Read(input: seq<Octet>) returns (r: Result<nat>)
      modifies this
      ensures r.Ok? <==> |input| >= PayloadSize
      ensures r.Ok? ==> r.value == PayloadSize
      ensures r.Err? ==> r.reason == EndOfStream
      ensures |input| >= 2 ==> x == ShortAt(input, 0)
      ensures |input| < 2 ==> x == old(x)
      ensures |input| >= 4 ==> y == ShortAt(input, 2)
      ensures |input| < 4 ==> y == old(y)
      ensures |input| >= 6 ==> z == ShortAt(input, 4)
      ensures |input| < 6 ==> z == old(z)
      ensures |input| >= 7 ==> mode == ByteAt(input, 6)
      ensures |input| < 7 ==> mode == old(mode)
      ensures |input| >= 8 ==> blockType == ByteAt(input, 7)
      ensures |input| < 8 ==> blockType == old(blockType)
      ensures r.Ok? ==> Write()[1..] == input[..PayloadSize]
    {
      ReadFields(input);
      if |input| < PayloadSize {
        return Err(EndOfStream);
      }
      PayloadOfFields(input);
      assert Write()[1..] == ShortBytes(x) + ShortBytes(y) + ShortBytes(z) + ByteBytes(mode) + ByteBytes(blockType);
      return Ok(PayloadSize);
    }

    /** The assignments of `read`, each field once its bytes have arrived. */
    method ReadFields(input: seq<Octet>)
      modifies this`x, this`y, this`z, this`mode, this`blockType
      ensures |input| >= 2 ==> x == ShortAt(input, 0)
      ensures |input| < 2 ==> x == old(x)
      ensures |input| >= 4 ==> y == ShortAt(input, 2)
      ensures |input| < 4 ==> y == old(y)
      ensures |input| >= 6 ==> z == ShortAt(input, 4)
      ensures |input| < 6 ==> z == old(z)
      ensures |input| >= 7 ==> mode == ByteAt(input, 6)
      ensures |input| < 7 ==> mode == old(mode)
      ensures |input| >= 8 ==> blockType == ByteAt(input, 7)
      ensures |input| < 8 ==> blockType == old(blockType)
    {
      if |input| < 2 {
        return;
      }
      x := ShortAt(input, 0);
      if |input| < 4 {
        return;
      }
      y := ShortAt(input, 2);
      if |input| < 6 {
        return;
      }
      z := ShortAt(input, 4);
      if |input| < 7 {
        return;
      }
      mode := ByteAt(input, 6);
      if |input| < 8 {
        return;
      }
      blockType := ByteAt(input, 7);
    }

    /** `setMode`: the int narrowed to a byte, so only its low 8 bits are kept;
        `getMode` widens it back, so it reads as -128..127. */
    method SetMode(m: int)
      modifies this
      ensures mode == ToByte(m) && Low8(mode) == Low8(m)
      ensures x == old(x) && y == old(y) && z == old(z) && blockType == old(blockType)
    {
      mode := ToByte(m);
    }
  }

  /** What `Read` decodes from the bytes `write` put after the opcode is every field;
      with `Read`'s re-encoding this makes the payload and the fields one-to-one. */
  lemma RoundTrip(p: SetBlockClientPacket)
    ensures var w := p.Write()[1..];
      ShortAt(w, 0) == p.x
      && ShortAt(w, 2) == p.y
      && ShortAt(w, 4) == p.z
      && ByteAt(w, 6) == p.mode
      && ByteAt(w, 7) == p.blockType
  {
    var w := p.Write()[1..];
    assert w == ShortBytes(p.x) + ShortBytes(p.y) + ShortBytes(p.z) + ByteBytes(p.mode) + ByteBytes(p.blockType);
    assert w[0..2] == ShortBytes(p.x);
    assert w[2..4] == ShortBytes(p.y);
    assert w[4..6] == ShortBytes(p.z);
    assert w[6..7] == ByteBytes(p.mode);
    assert w[7..8] == ByteBytes(p.blockType);
    ShortRoundTrip(p.x);
    ShortRoundTrip(p.y);
    ShortRoundTrip(p.z);
    ByteRoundTrip(p.mode);
    ByteRoundTrip(p.blockType);
  }

  /** Re-encoding the fields read from a full payload gives the payload back. */
  lemma PayloadOfFields(input: seq<Octet>)
    requires |input| >= PayloadSize
    ensures ShortBytes(ShortAt(input, 0)) + ShortBytes(ShortAt(input, 2)) + ShortBytes(ShortAt(input, 4))
      + ByteBytes(ByteAt(input, 6)) + ByteBytes(ByteAt(input, 7)) == input[..PayloadSize]
  {
    ShortBytesOfShortAt(input, 0);
    ShortBytesOfShortAt(input, 2);
    ShortBytesOfShortAt(input, 4);
    ByteBytesOfByteAt(input, 6);
    ByteBytesOfByteAt(input, 7);
    assert input[..PayloadSize] == input[0..2] + input[2..4] + input[4..6] + input[6..7] + input[7..8];
  }
}
