// src/net/classicube/packets/PlayerIdentificationPacket.java: the first packet a client sends:
// protocol version, name, verification key and the byte that announces CPE.

module NetPlayerIdentificationPacket {
  import opened Wrappers
  import opened JavaNum
  import opened NetPacket
  import NetPacketType

  /** The bytes `read` consumes: everything after the opcode. */
  const PayloadSize := 130

  class PlayerIdentificationPacket {
    var protocolVersion: JByte
    var username: string
    var verificationKey: string
    var paddingByte: JByte

    /** A new packet: every number 0, every string empty. */
    constructor()
      ensures protocolVersion == 0 && username == "" && verificationKey == "" && paddingByte == 0
    {
      protocolVersion, username, verificationKey, paddingByte := 0, "", "", 0;
    }

    /** `write`: opcode 0x00, the version byte, the 64-byte username, the
        64-byte verification key, then the padding byte. */
    function Write(): (r: seq<Octet>)
      reads this
      ensures |r| == 1 + PayloadSize
      ensures ByteAt(r, 0) == NetPacketType.Id(NetPacketType.PLAYER_IDENTIFICATION)
    {
      TypeByte(NetPacketType.PLAYER_IDENTIFICATION)
      + ByteBytes(protocolVersion)
      + WriteString(username)
      + WriteString(verificationKey)
      + ByteBytes(paddingByte)
    }

    /** `read`: the fields in `write` order from the bytes after the opcode.
        A field is assigned once all of its bytes have arrived; when the
        input runs out the read fails, keeping what it already assigned. */
    method Read(input: seq<Octet>) returns (r: Result<nat>)
      modifies this
      ensures r.Ok? <==> |input| >= PayloadSize
      ensures r.Ok? ==> r.value == PayloadSize
      ensures r.Err? ==> r.reason == EndOfStream
      ensures |input| >= 1 ==> protocolVersion == ByteAt(input, 0)
      ensures |input| < 1 ==> protocolVersion == old(protocolVersion)
      ensures |input| >= 65 ==> username == ReadString(input[1..65])
      ensures |input| < 65 ==> username == old(username)
      ensures |input| >= 129 ==> verificationKey == ReadString(input[65..129])
      ensures |input| < 129 ==> verificationKey == old(verificationKey)
      ensures |input| >= 130 ==> paddingByte == ByteAt(input, 129)
      ensures |input| < 130 ==> paddingByte == old(paddingByte)
    {
      if |input| < 1 {
        return Err(EndOfStream);
      }
      protocolVersion := ByteAt(input, 0);
      if |input| < 65 {
        return Err(EndOfStream);
      }
      username := ReadString(input[1..65]);
      if |input| < 129 {
        return Err(EndOfStream);
      }
      verificationKey := ReadString(input[65..129]);
      if |input| < 130 {
        return Err(EndOfStream);
      }
      paddingByte := ByteAt(input, 129);
      return Ok(PayloadSize);
    }
  }

  /** What `Read` decodes from the bytes `write` put after the opcode is every field;
      every string that fits the 64-byte field comes back. */
  lemma RoundTrip(p: PlayerIdentificationPacket)
    requires Fits(p.username) && Fits(p.verificationKey)
    ensures var w := p.Write()[1..];
      ByteAt(w, 0) == p.protocolVersion
      && ReadString(w[1..65]) == p.username
      && ReadString(w[65..129]) == p.verificationKey
      && ByteAt(w, 129) == p.paddingByte
  {
    var w := p.Write()[1..];
    assert w == ByteBytes(p.protocolVersion) + WriteString(p.username) + WriteString(p.verificationKey) + ByteBytes(p.paddingByte);
    assert w[0..1] == ByteBytes(p.protocolVersion);
    assert w[1..65] == WriteString(p.username);
    assert w[65..129] == WriteString(p.verificationKey);
    assert w[129..130] == ByteBytes(p.paddingByte);
    ByteRoundTrip(p.protocolVersion);
    StringRoundTrip(p.username);
    StringRoundTrip(p.verificationKey);
    ByteRoundTrip(p.paddingByte);
  }
}
