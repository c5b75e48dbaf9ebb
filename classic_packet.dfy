// src/classic/packets/Packet.java: the base of every packet of the classic
// snapshot. Its `write` and `read` are abstract, so what it fixes is the
// 64-byte string field, the same field as the ClassiCube snapshot's.

module ClassicPacket {
  import opened JavaNum
  import opened JavaText
  import ClassicPacketType
  import NetPacket

  const StringWidth := 64

  /** `writeString`: the string's UTF-8 bytes cut to 64, then zeros up to 64. */
  function WriteString(s: string): (r: seq<Octet>)
    ensures |r| == StringWidth
  {
    var u := Utf8(s);
    if |u| >= StringWidth then u[..StringWidth]
    else u + seq(StringWidth - |u|, _ => 0)
  }

  /** `readString`: exactly 64 bytes, decoded as UTF-8 and trimmed. */
  function ReadString(b: seq<Octet>): (s: string)
    requires |b| == StringWidth
    ensures IsTrimmed(s)
  {
    Trim(Decode(b))
  }

  /** The classic field is byte for byte the ClassiCube snapshot's field. */
  lemma SameFieldAsNet(s: string, b: seq<Octet>)
    requires |b| == StringWidth
    ensures WriteString(s) == NetPacket.WriteString(s)
    ensures ReadString(b) == NetPacket.ReadString(b)
  {
    var u := Utf8(s);
    if |u| < StringWidth {
      assert u[..|u|] == u;
    }
  }

  /** Reading back what `writeString` wrote gives the string for every ASCII
      string of at most 64 characters with nothing `trim` would strip. */
  lemma StringRoundTrip(s: string)
    requires NetPacket.Fits(s)
    ensures ReadString(WriteString(s)) == s
  {
    SameFieldAsNet(s, WriteString(s));
    NetPacket.StringRoundTrip(s);
  }

  /** The opcode byte each classic packet writes first. */
  function TypeByte(t: ClassicPacketType.PacketType): (r: seq<Octet>)
    ensures |r| == 1 && ByteAt(r, 0) == ClassicPacketType.Id(t)
  {
    ByteBytes(ClassicPacketType.Id(t))
  }
}
