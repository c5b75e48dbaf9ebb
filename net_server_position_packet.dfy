// src/net/classicube/packets/ServerPositionPacket.java: the server moving a player (id -1 means
// the client itself).

module NetServerPositionPacket {
  import opened Wrappers
  import opened JavaNum
  import opened NetPacket
  import NetPacketType

  /** The bytes `read` consumes: everything after the opcode. */
  const PayloadSize := 9

  class ServerPositionPacket {
    var playerId: JByte
    var x: JShort
    var y: JShort
    var z: JShort
    var yaw: JByte
    var pitch: JByte

    /** A new packet: every number 0, every string empty. */
    constructor()
      ensures playerId == 0 && x == 0 && y == 0 && z == 0 && yaw == 0 && pitch == 0
    {
      playerId, x, y, z, yaw, pitch := 0, 0, 0, 0, 0, 0;
    }

    /** `write`: opcode 0x08 (the same byte as the client's position packet),
        the player id, x, y and z as big-endian shorts, then yaw and pitch. */
    function Write(): (r: seq<Octet>)
      reads this
      ensures |r| == 1 + PayloadSize
      ensures ByteAt(r, 0) == NetPacketType.Id(NetPacketType.SET_POSITION_ORIENTATION)
    {
      TypeByte(NetPacketType.SET_POSITION_ORIENTATION)
      + ByteBytes(playerId)
      + ShortBytes(x)
      + ShortBytes(y)
      + ShortBytes(z)
      + ByteBytes(yaw)
      + ByteBytes(pitch)
    }

    /** `read`: the fields in `write` order from the bytes after the opcode.
        A field is assigned once all of its bytes have arrived; when the
        input runs out the read fails, keeping what it already assigned. */
    method Read(input: seq<Octet>) returns (r: Result<nat>)
      modifies this
      ensures r.Ok? <==> |input| >= PayloadSize
      ensures r.Ok? ==> r.value == PayloadSize
      ensures r.Err? ==> r.reason == EndOfStream
      ensures |input| >= 1 ==> playerId == ByteAt(input, 0)
      ensures |input| < 1 ==> playerId == old(playerId)
      ensures |input| >= 3 ==> x == ShortAt(input, 1)
      ensures |input| < 3 ==> x == old(x)
      ensures |input| >= 5 ==> y == ShortAt(input, 3)
      ensures |input| < 5 ==> y == old(y)
      ensures |input| >= 7 ==> z == ShortAt(input, 5)
      ensures |input| < 7 ==> z == old(z)
      ensures |input| >= 8 ==> yaw == ByteAt(input, 7)
      ensures |input| < 8 ==> yaw == old(yaw)
      ensures |input| >= 9 ==> pitch == ByteAt(input, 8)
      ensures |input| < 9 ==> pitch == old(pitch)
      ensures r.Ok? ==> Write()[1..] == input[..PayloadSize]
    {
      ReadFields(input);
      if |input| < PayloadSize {
        return Err(EndOfStream);
      }
      PayloadOfFields(input);
      assert Write()[1..] == ByteBytes(playerId) + ShortBytes(x) + ShortBytes(y) + ShortBytes(z)
        + ByteBytes(yaw) + ByteBytes(pitch);
      return Ok(PayloadSize);
    }

    /** The assignments of `read`, each field once its bytes have arrived. */
    method ReadFields(input: seq<Octet>)
      modifies this`playerId, this`x, this`y, this`z, this`yaw, this`pitch
      ensures |input| >= 1 ==> playerId == ByteAt(input, 0)
      ensures |input| < 1 ==> playerId == old(playerId)
      ensures |input| >= 3 ==> x == ShortAt(input, 1)
      ensures |input| < 3 ==> x == old(x)
      ensures |input| >= 5 ==> y == ShortAt(input, 3)
      ensures |input| < 5 ==> y == old(y)
      ensures |input| >= 7 ==> z == ShortAt(input, 5)
      ensures |input| < 7 ==> z == old(z)
      ensures |input| >= 8 ==> yaw == ByteAt(input, 7)
      ensures |input| < 8 ==> yaw == old(yaw)
      ensures |input| >= 9 ==> pitch == ByteAt(input, 8)
      ensures |input| < 9 ==> pitch == old(pitch)
    {
      if |input| < 1 {
        return;
      }
      playerId := ByteAt(input, 0);
      if |input| < 3 {
        return;
      }
      x := ShortAt(input, 1);
      if |input| < 5 {
        return;
      }
      y := ShortAt(input, 3);
      if |input| < 7 {
        return;
      }
      z := ShortAt(input, 5);
      if |input| < 8 {
        return;
      }
      yaw := ByteAt(input, 7);
      if |input| < 9 {
        return;
      }
      pitch := ByteAt(input, 8);
    }
  }

  /** What `Read` decodes from the bytes `write` put after the opcode is every field;
      with `Read`'s re-encoding this makes the payload and the fields one-to-one. */
  lemma RoundTrip(p: ServerPositionPacket)
    ensures var w := p.Write()[1..];
      ByteAt(w, 0) == p.playerId
      && ShortAt(w, 1) == p.x
      && ShortAt(w, 3) == p.y
      && ShortAt(w, 5) == p.z
      && ByteAt(w, 7) == p.yaw
      && ByteAt(w, 8) == p.pitch
  {
    var w := p.Write()[1..];
    assert w == ByteBytes(p.playerId) + ShortBytes(p.x) + ShortBytes(p.y) + ShortBytes(p.z) + ByteBytes(p.yaw) + ByteBytes(p.pitch);
    assert w[0..1] == ByteBytes(p.playerId);
    assert w[1..3] == ShortBytes(p.x);
    assert w[3..5] == ShortBytes(p.y);
    assert w[5..7] == ShortBytes(p.z);
    assert w[7..8] == ByteBytes(p.yaw);
    assert w[8..9] == ByteBytes(p.pitch);
    ByteRoundTrip(p.playerId);
    ShortRoundTrip(p.x);
    ShortRoundTrip(p.y);
    ShortRoundTrip(p.z);
    ByteRoundTrip(p.yaw);
    ByteRoundTrip(p.pitch);
  }

  /** Re-encoding the fields read from a full payload gives the payload back. */
  lemma PayloadOfFields(input: seq<Octet>)
    requires |input| >= PayloadSize
    ensures ByteBytes(ByteAt(input, 0)) + ShortBytes(ShortAt(input, 1)) + ShortBytes(ShortAt(input, 3))
      + ShortBytes(ShortAt(input, 5)) + ByteBytes(ByteAt(input, 7)) + ByteBytes(ByteAt(input, 8)) == input[..PayloadSize]
  {
    ByteBytesOfByteAt(input, 0);
    ShortBytesOfShortAt(input, 1);
    ShortBytesOfShortAt(input, 3);
    ShortBytesOfShortAt(input, 5);
    ByteBytesOfByteAt(input, 7);
    ByteBytesOfByteAt(input, 8);
    assert input[..PayloadSize] == input[0..1] + input[1..3] + input[3..5] + input[5..7] + input[7..8] + input[8..9];
  }
}
