// src/classic/packets/DisconnectPlayerPacket.java: the server closing a session with a reason.

module ClassicDisconnectPlayerPacket {
  import opened Wrappers
  import opened JavaNum
  import opened ClassicPacket
  import ClassicPacketType
  import NetPacket

  /** The bytes `read` consumes: everything after the opcode. */
  const PayloadSize := 64

  class DisconnectPlayerPacket {
    var reason: string

    /** A new packet: every number 0, every string empty. */
    constructor()
      ensures reason == ""
    {
      reason := "";
    }

    /** `write`: opcode 0x0e, then the reason as a 64-byte field (a longer reason
        loses its tail). */
    function Write(): (r: seq<Octet>)
      reads this
      ensures |r| == 1 + PayloadSize
      ensures ByteAt(r, 0) == ClassicPacketType.Id(ClassicPacketType.DISCONNECT_PLAYER)
    {
      TypeByte(ClassicPacketType.DISCONNECT_PLAYER)
      + WriteString(reason)
    }

    /** `read`: the fields in `write` order from the bytes after the opcode.
        A field is assigned once all of its bytes have arrived; when the
        input runs out the read fails, keeping what it already assigned. */
    method Read(input: seq<Octet>) returns (r: Result<nat>)
      modifies this
      ensures r.Ok? <==> |input| >= PayloadSize
      ensures r.Ok? ==> r.value == PayloadSize
      ensures r.Err? ==> r.reason == EndOfStream
      ensures |input| >= 64 ==> reason == ReadString(input[0..64])
      ensures |input| < 64 ==> reason == old(reason)
    {
      if |input| < 64 {
        return Err(EndOfStream);
      }
      reason := ReadString(input[0..64]);
      return Ok(PayloadSize);
    }
  }

  /** What `Read` decodes from the bytes `write` put after the opcode is every field;
      every string that fits the 64-byte field comes back. */
  lemma RoundTrip(p: DisconnectPlayerPacket)
    requires NetPacket.Fits(p.reason)
    ensures var w := p.Write()[1..];
      ReadString(w[0..64]) == p.reason
  {
    var w := p.Write()[1..];
    assert w == WriteString(p.reason);
    assert w[0..64] == WriteString(p.reason);
    StringRoundTrip(p.reason);
  }
}
