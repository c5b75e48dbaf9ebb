// src/net/classicube/packets/SpawnPlayerPacket.java: announces a player to a client, with its
// name and its fixed-point position.

module NetSpawnPlayerPacket {
  import opened Wrappers
  import opened JavaNum
  import opened NetPacket
  import NetPacketType

  /** The bytes `read` consumes: everything after the opcode. */
  const PayloadSize := 73

  class SpawnPlayerPacket {
    var playerId: JByte
    var playerName: string
    var x: JShort
    var y: JShort
    var z: JShort
    var yaw: JByte
    var pitch: JByte

    /** A new packet: every number 0, every string empty. */
    constructor()
      ensures playerId == 0 && playerName == "" && x == 0 && y == 0 && z == 0 && yaw == 0 && pitch == 0
    {
      playerId, playerName, x, y, z, yaw, pitch := 0, "", 0, 0, 0, 0, 0;
    }

    /** `write`: opcode 0x07, the player id, the 64-byte name, x, y and z as
        big-endian shorts, then yaw and pitch. */
    function Write(): (r: seq<Octet>)
      reads this
      ensures |r| == 1 + PayloadSize
      ensures ByteAt(r, 0) == NetPacketType.Id(NetPacketType.SPAWN_PLAYER)
    {
      TypeByte(NetPacketType.SPAWN_PLAYER)
      + ByteBytes(playerId)
      + WriteString(playerName)
      + ShortBytes(x)
      + ShortBytes(y)
      + ShortBytes(z)
      + ByteBytes(yaw)
      + ByteBytes(pitch)
    }

    /** `read`: the fields in `write` order from the bytes after the opcode.
        A field is assigned once all of its bytes have arrived; when the
        input runs out the read fails, keeping what it already assigned. */
    method Read(input: seq<Octet>) returns (r: Result<nat>)
      modifies this
      ensures r.Ok? <==> |input| >= PayloadSize
      ensures r.Ok? ==> r.value == PayloadSize
      ensures r.Err? ==> r.reason == EndOfStream
      ensures |input| >= 1 ==> playerId == ByteAt(input, 0)
      ensures |input| < 1 ==> playerId == old(playerId)
      ensures |input| >= 65 ==> playerName == ReadString(input[1..65])
      ensures |input| < 65 ==> playerName == old(playerName)
      ensures |input| >= 67 ==> x == ShortAt(input, 65)
      ensures |input| < 67 ==> x == old(x)
      ensures |input| >= 69 ==> y == ShortAt(input, 67)
      ensures |input| < 69 ==> y == old(y)
      ensures |input| >= 71 ==> z == ShortAt(input, 69)
      ensures |input| < 71 ==> z == old(z)
      ensures |input| >= 72 ==> yaw == ByteAt(input, 71)
      ensures |input| < 72 ==> yaw == old(yaw)
      ensures |input| >= 73 ==> pitch == ByteAt(input, 72)
      ensures |input| < 73 ==> pitch == old(pitch)
    {
      ReadIdentity(input);
      if |input| < 65 {
        return Err(EndOfStream);
      }
      ReadPosition(input);
      if |input| < PayloadSize {
        return Err(EndOfStream);
      }
      return Ok(PayloadSize);
    }

    /** The first two fields of `read`: the id, then the 64-byte name. */
    method ReadIdentity(input: seq<Octet>)
      modifies this`playerId, this`playerName
      ensures |input| >= 1 ==> playerId == ByteAt(input, 0)
      ensures |input| < 1 ==> playerId == old(playerId)
      ensures |input| >= 65 ==> playerName == ReadString(input[1..65])
      ensures |input| < 65 ==> playerName == old(playerName)
    {
      if |input| < 1 {
        return;
      }
      playerId := ByteAt(input, 0);
      if |input| < 65 {
        return;
      }
      playerName := ReadString(input[1..65]);
    }

    /** The remaining fields of `read`, each once its bytes have arrived. */
    method ReadPosition(input: seq<Octet>)
      requires |input| >= 65
      modifies this`x, this`y, this`z, this`yaw, this`pitch
      ensures |input| >= 67 ==> x == ShortAt(input, 65)
      ensures |input| < 67 ==> x == old(x)
      ensures |input| >= 69 ==> y == ShortAt(input, 67)
      ensures |input| < 69 ==> y == old(y)
      ensures |input| >= 71 ==> z == ShortAt(input, 69)
      ensures |input| < 71 ==> z == old(z)
      ensures |input| >= 72 ==> yaw == ByteAt(input, 71)
      ensures |input| < 72 ==> yaw == old(yaw)
      ensures |input| >= 73 ==> pitch == ByteAt(input, 72)
      ensures |input| < 73 ==> pitch == old(pitch)
    {
      if |input| < 67 {
        return;
      }
      x := ShortAt(input, 65);
      if |input| < 69 {
        return;
      }
      y := ShortAt(input, 67);
      if |input| < 71 {
        return;
      }
      z := ShortAt(input, 69);
      if |input| < 72 {
        return;
      }
      yaw := ByteAt(input, 71);
      if |input| < 73 {
        return;
      }
      pitch := ByteAt(input, 72);
    }
  }

  /** What `Read` decodes from the bytes `write` put after the opcode is every field;
      every string that fits the 64-byte field comes back. */
  lemma RoundTrip(p: SpawnPlayerPacket)
    requires Fits(p.playerName)
    ensures var w := p.Write()[1..];
      ByteAt(w, 0) == p.playerId
      && ReadString(w[1..65]) == p.playerName
      && ShortAt(w, 65) == p.x
      && ShortAt(w, 67) == p.y
      && ShortAt(w, 69) == p.z
      && ByteAt(w, 71) == p.yaw
      && ByteAt(w, 72) == p.pitch
  {
    var w := p.Write()[1..];
    WriteLayout(p);
    ByteRoundTrip(p.playerId);
    StringRoundTrip(p.playerName);
    ShortRoundTrip(p.x);
    ShortRoundTrip(p.y);
    ShortRoundTrip(p.z);
    ByteRoundTrip(p.yaw);
    ByteRoundTrip(p.pitch);
  }

  /** Where each field lies in the bytes after the opcode. */
  lemma WriteLayout(p: SpawnPlayerPacket)
    ensures var w := p.Write()[1..];
      |w| == PayloadSize
      && w[0..1] == ByteBytes(p.playerId)
      && w[1..65] == WriteString(p.playerName)
      && w[65..67] == ShortBytes(p.x)
      && w[67..69] == ShortBytes(p.y)
      && w[69..71] == ShortBytes(p.z)
      && w[71..72] == ByteBytes(p.yaw)
      && w[72..73] == ByteBytes(p.pitch)
  {
    var head := ByteBytes(p.playerId) + WriteString(p.playerName);
    var tail := ShortBytes(p.x) + ShortBytes(p.y) + ShortBytes(p.z) + ByteBytes(p.yaw) + ByteBytes(p.pitch);
    var w := p.Write()[1..];
    assert w == head + tail;
    assert w[..65] == head && w[65..] == tail;
    assert tail[0..2] == ShortBytes(p.x);
    assert tail[2..4] == ShortBytes(p.y);
    assert tail[4..6] == ShortBytes(p.z);
    assert tail[6..7] == ByteBytes(p.yaw);
    assert tail[7..8] == ByteBytes(p.pitch);
  }
}
