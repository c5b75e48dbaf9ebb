// src/net/classicube/packets/cpe/EnvColorsPacket.java: sets one of the
// client's environment colours. No opcode byte precedes the fields.

module NetEnvColorsPacket {
  import opened Wrappers
  import opened JavaNum
  import opened JavaAwt
  import NetEnvColorType

  /** Colour type and colour are final, fixed by the constructor. */
  datatype EnvColorsPacket = EnvColorsPacket(colorType: NetEnvColorType.EnvColorType, color: Color)

  /** `write`: the colour type's value, then red, green and blue as big-endian
      shorts: 7 bytes. The alpha component is not written. */
  function Write(p: EnvColorsPacket): (r: seq<Octet>)
    requires p.color.Valid()
    ensures |r| == 7
    ensures NetEnvColorType.FromValue(ByteAt(r, 0)) == Some(p.colorType)
    ensures UShortAt(r, 1) == p.color.red
    ensures UShortAt(r, 3) == p.color.green
    ensures UShortAt(r, 5) == p.color.blue
  {
    NetEnvColorType.FromValueExact(0, p.colorType, p.colorType);
    ByteBytes(NetEnvColorType.Value(p.colorType))
    + ShortBytes(p.color.red)
    + ShortBytes(p.color.green)
    + ShortBytes(p.color.blue)
  }
}
