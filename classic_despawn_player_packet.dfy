// src/classic/packets/DespawnPlayerPacket.java: the server removing a player from a
// client's view.

module ClassicDespawnPlayerPacket {
  import opened Wrappers
  import opened JavaNum
  import opened ClassicPacket
  import ClassicPacketType
  import NetPacket

  /** The bytes `read` consumes: everything after the opcode. */
  const PayloadSize := 1

  class DespawnPlayerPacket {
    var playerId: JByte

    /** A new packet: every number 0, every string empty. */
    constructor()
      ensures playerId == 0
    {
      playerId := 0;
    }

    /** `write`: opcode 0x0c, then the player id. */
    function Write(): (r: seq<Octet>)
      reads this
      ensures |r| == 1 + PayloadSize
      ensures ByteAt(r, 0) == ClassicPacketType.Id(ClassicPacketType.DESPAWN_PLAYER)
    {
      TypeByte(ClassicPacketType.DESPAWN_PLAYER)
      + ByteBytes(playerId)
    }

    /** `read`: the fields in `write` order from the bytes after the opcode.
        A field is assigned once all of its bytes have arrived; when the
        input runs out the read fails, keeping what it already assigned. */
    method Read(input: seq<Octet>) returns (r: Result<nat>)
      modifies this
      ensures r.Ok? <==> |input| >= PayloadSize
      ensures r.Ok? ==> r.value == PayloadSize
      ensures r.Err? ==> r.reason == EndOfStream
      ensures |input| >= 1 ==> playerId == ByteAt(input, 0)
      ensures |input| < 1 ==> playerId == old(playerId)
      ensures r.Ok? ==> Write()[1..] == input[..PayloadSize]
    {
      if |input| < 1 {
        return Err(EndOfStream);
      }
      playerId := ByteAt(input, 0);
      ByteBytesOfByteAt(input, 0);
      assert input[..PayloadSize] == input[0..1];
      return Ok(PayloadSize);
    }
  }

  /** What `Read` decodes from the bytes `write` put after the opcode is every field;
      with `Read`'s re-encoding this makes the payload and the fields one-to-one. */
  lemma RoundTrip(p: DespawnPlayerPacket)
    ensures var w := p.Write()[1..];
      ByteAt(w, 0) == p.playerId
  {
    var w := p.Write()[1..];
    assert w == ByteBytes(p.playerId);
    assert w[0..1] == ByteBytes(p.playerId);
    ByteRoundTrip(p.playerId);
  }
}
