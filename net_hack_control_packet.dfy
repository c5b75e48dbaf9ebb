// src/net/classicube/packets/cpe/HackControlPacket.java: which movement hacks
// the client may use. No opcode byte precedes the fields.

module NetHackControlPacket {
  import opened JavaNum

  /** All fields are final, fixed by the constructor. */
  datatype HackControlPacket = HackControlPacket(
    flying: bool, noclip: bool, speeding: bool, spawnControl: bool, thirdPerson: bool,
    jumpHeight: JShort)

  /** `boolToByte`: 1 for true, 0 for false. */
  function BoolToByte(value: bool): (b: JByte)
    ensures b == 0 || b == 1
    ensures b == 1 <==> value
  {
    if value then 1 else 0
  }

  /** `write`: the five flags as 0/1 bytes in declaration order, then the jump
      height as a big-endian short: 7 bytes. */
  function Write(p: HackControlPacket): (r: seq<Octet>)
    ensures |r| == 7
    ensures forall i :: 0 <= i < 5 ==> r[i] == 0 || r[i] == 1
    ensures ShortAt(r, 5) == p.jumpHeight
  {
    ByteBytes(BoolToByte(p.flying))
    + ByteBytes(BoolToByte(p.noclip))
    + ByteBytes(BoolToByte(p.speeding))
    + ByteBytes(BoolToByte(p.spawnControl))
    + ByteBytes(BoolToByte(p.thirdPerson))
    + ShortBytes(p.jumpHeight)
  }

  /** Each flag is at its own position, 1 exactly when it is set. */
  lemma WriteFlags(p: HackControlPacket)
    ensures var r := Write(p);
      (r[0] == 1 <==> p.flying) && (r[1] == 1 <==> p.noclip)
      && (r[2] == 1 <==> p.speeding) && (r[3] == 1 <==> p.spawnControl)
      && (r[4] == 1 <==> p.thirdPerson)
  {
  }
}
