// src/net/classicube/packets/cpe/EnvWeatherPacket.java: sets the weather the
// client shows. No opcode byte precedes the field.

module NetEnvWeatherPacket {
  import opened Wrappers
  import opened JavaNum
  import NetWeatherType

  /** The weather type is final, fixed by the constructor. */
  datatype EnvWeatherPacket = EnvWeatherPacket(weatherType: NetWeatherType.WeatherType)

  /** `write`: one byte, the weather type's id, which names the type again. */
  function Write(p: EnvWeatherPacket): (r: seq<Octet>)
    ensures |r| == 1
    ensures NetWeatherType.GetById(ByteAt(r, 0)) == Some(p.weatherType)
  {
    NetWeatherType.GetByIdExact(0, p.weatherType, p.weatherType);
    ByteBytes(NetWeatherType.Id(p.weatherType))
  }
}
