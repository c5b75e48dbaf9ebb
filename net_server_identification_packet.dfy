// src/net/classicube/packets/ServerIdentificationPacket.java: the server's answer to an
// identification: protocol version, server name, message of the day, user type.

module NetServerIdentificationPacket {
  import opened Wrappers
  import opened JavaNum
  import opened NetPacket
  import NetPacketType

  /** The bytes `read` consumes: everything after the opcode. */
  const PayloadSize := 130

  class ServerIdentificationPacket {
    var protocolVersion: JByte
    var serverName: string
    var serverMOTD: string
    var userType: JByte

    /** A new packet: every number 0, every string empty. */
    constructor()
      ensures protocolVersion == 0 && serverName == "" && serverMOTD == "" && userType == 0
    {
      protocolVersion, serverName, serverMOTD, userType := 0, "", "", 0;
    }

    /** `write`: opcode 0x00, the version byte, the 64-byte server name, the
        64-byte message of the day, then the user type. */
    function Write(): (r: seq<Octet>)
      reads this
      ensures |r| == 1 + PayloadSize
      ensures ByteAt(r, 0) == NetPacketType.Id(NetPacketType.SERVER_IDENTIFICATION)
    {
      TypeByte(NetPacketType.SERVER_IDENTIFICATION)
      + ByteBytes(protocolVersion)
      + WriteString(serverName)
      + WriteString(serverMOTD)
      + ByteBytes(userType)
    }

    /** `read`: the fields in `write` order from the bytes after the opcode.
        A field is assigned once all of its bytes have arrived; when the
        input runs out the read fails, keeping what it already assigned. */
    method Read(input: seq<Octet>) returns (r: Result<nat>)
      modifies this
      ensures r.Ok? <==> |input| >= PayloadSize
      ensures r.Ok? ==> r.value == PayloadSize
      ensures r.Err? ==> r.reason == EndOfStream
      ensures |input| >= 1 ==> protocolVersion == ByteAt(input, 0)
      ensures |input| < 1 ==> protocolVersion == old(protocolVersion)
      ensures |input| >= 65 ==> serverName == ReadString(input[1..65])
      ensures |input| < 65 ==> serverName == old(serverName)
      ensures |input| >= 129 ==> serverMOTD == ReadString(input[65..129])
      ensures |input| < 129 ==> serverMOTD == old(serverMOTD)
      ensures |input| >= 130 ==> userType == ByteAt(input, 129)
      ensures |input| < 130 ==> userType == old(userType)
    {
      if |input| < 1 {
        return Err(EndOfStream);
      }
      protocolVersion := ByteAt(input, 0);
      if |input| < 65 {
        return Err(EndOfStream);
      }
      serverName := ReadString(input[1..65]);
      if |input| < 129 {
        return Err(EndOfStream);
      }
      serverMOTD := ReadString(input[65..129]);
      if |input| < 130 {
        return Err(EndOfStream);
      }
      userType := ByteAt(input, 129);
      return Ok(PayloadSize);
    }
  }

  /** What `Read` decodes from the bytes `write` put after the opcode is every field;
      every string that fits the 64-byte field comes back. */
  lemma RoundTrip(p: ServerIdentificationPacket)
    requires Fits(p.serverName) && Fits(p.serverMOTD)
    ensures var w := p.Write()[1..];
      ByteAt(w, 0) == p.protocolVersion
      && ReadString(w[1..65]) == p.serverName
      && ReadString(w[65..129]) == p.serverMOTD
      && ByteAt(w, 129) == p.userType
  {
    var w := p.Write()[1..];
    assert w == ByteBytes(p.protocolVersion) + WriteString(p.serverName) + WriteString(p.serverMOTD) + ByteBytes(p.userType);
    assert w[0..1] == ByteBytes(p.protocolVersion);
    assert w[1..65] == WriteString(p.serverName);
    assert w[65..129] == WriteString(p.serverMOTD);
    assert w[129..130] == ByteBytes(p.userType);
    ByteRoundTrip(p.protocolVersion);
    StringRoundTrip(p.serverName);
    StringRoundTrip(p.serverMOTD);
    ByteRoundTrip(p.userType);
  }
}
