// src/net/classicube/packets/cpe/ExtInfoPacket.java: the server's extension
// announcement. Like every CPE packet it inherits a `write` that emits nothing,
// so no opcode byte precedes the fields.

module NetExtInfoPacket {
  import opened JavaNum
  import opened NetPacket

  /** `write`: the application name as a 64-byte field, then the extension count
      as a short, which is always 1. The application name is the server's
      `APP_NAME`, a parameter here; the class's own `appName` constant is unused. */
  function Write(appName: string): (r: seq<Octet>)
    ensures |r| == StringWidth + 2
    ensures r[..StringWidth] == WriteString(appName)
    ensures ShortAt(r, StringWidth) == 1
    ensures Fits(appName) ==> ReadString(r[..StringWidth]) == appName
  {
    var r := WriteString(appName) + ShortBytes(1);
    assert r[..StringWidth] == WriteString(appName);
    if Fits(appName) then StringRoundTrip(appName); r else r
  }
}
