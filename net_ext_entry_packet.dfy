// src/net/classicube/packets/cpe/ExtEntryPacket.java: one supported extension
// and its version. No opcode byte precedes the fields.

module NetExtEntryPacket {
  import opened JavaNum
  import opened NetPacket

  /** Name and version are the constructor's arguments and never change. */
  datatype ExtEntryPacket = ExtEntryPacket(extensionName: string, version: JInt)

  /** `write`: the name as a 64-byte field, then the version's low 8 bits. */
  function Write(p: ExtEntryPacket): (r: seq<Octet>)
    ensures |r| == StringWidth + 1
    ensures r[StringWidth] == Low8(p.version)
    ensures Fits(p.extensionName) ==> ReadString(r[..StringWidth]) == p.extensionName
  {
    var r := WriteString(p.extensionName) + ByteBytes(p.version);
    assert r[..StringWidth] == WriteString(p.extensionName);
    if Fits(p.extensionName) then StringRoundTrip(p.extensionName); r else r
  }
}
