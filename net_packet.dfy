// src/net/classicube/packets/Packet.java: the base of every packet of the
// ClassiCube snapshot: the 64-byte string field and the opcode byte.

module NetPacket {
  import opened JavaNum
  import opened JavaText
  import NetPacketType

  /** Every string field is this many bytes on the wire. */
  const StringWidth := 64

  function Zeros(n: nat): (r: seq<Octet>)
    ensures |r| == n && forall i :: 0 <= i < n ==> r[i] == 0
  {
    seq(n, _ => 0)
  }

  function MinInt(a: int, b: int): (m: int)
    ensures m <= a && m <= b && (m == a || m == b)
  {
    if a <= b then a else b
  }

  /** `writeString`: a 64-byte field holding the first min(n, 64) bytes of the
      string's UTF-8 encoding, the rest zero. Longer strings lose their tail. */
  function WriteString(s: string): (r: seq<Octet>)
    ensures |r| == StringWidth
    ensures var u := Utf8(s); var k := MinInt(|u|, StringWidth);
      r[..k] == u[..k] && forall i :: k <= i < StringWidth ==> r[i] == 0
  {
    var u := Utf8(s);
    var k := MinInt(|u|, StringWidth);
    u[..k] + Zeros(StringWidth - k)
  }

  /** `readString`: exactly 64 bytes, decoded as UTF-8 and trimmed, so the zero
      padding and any leading or trailing character up to U+0020 are gone. */
  function ReadString(b: seq<Octet>): (s: string)
    requires |b| == StringWidth
    ensures IsTrimmed(s)
  {
    Trim(Decode(b))
  }

  /** A string survives the field unchanged when it is ASCII, at most 64
      characters, and has nothing `trim` would strip. */
  predicate Fits(s: string) {
    IsAscii(s) && |s| <= StringWidth && IsTrimmed(s)
  }

  lemma DecodeZeros(n: nat)
    ensures Decode(Zeros(n)) == Nuls(n)
  {
  }

  lemma DecodeAppend(a: seq<Octet>, b: seq<Octet>)
    ensures Decode(a + b) == Decode(a) + Decode(b)
  {
  }

  /** Reading back what `writeString` wrote gives the string for every string that fits. */
  lemma StringRoundTrip(s: string)
    requires Fits(s)
    ensures ReadString(WriteString(s)) == s
  {
    Utf8Ascii(s);
    DecodeAscii(s);
    var u := Utf8(s);
    assert u[..|u|] == u;
    DecodeAppend(u, Zeros(StringWidth - |s|));
    DecodeZeros(StringWidth - |s|);
    TrimPadded(s, StringWidth - |s|);
  }

  /** Reading is idempotent on its own output: a string read from a field fits
      the field's trimming, so trimming it again changes nothing. */
  lemma ReadStringStable(b: seq<Octet>)
    requires |b| == StringWidth
    ensures Trim(ReadString(b)) == ReadString(b)
  {
    TrimOfTrimmed(ReadString(b));
  }

  /** The base `write`: the single opcode byte of the packet's type. */
  function TypeByte(t: NetPacketType.PacketType): (r: seq<Octet>)
    ensures |r| == 1 && ByteAt(r, 0) == NetPacketType.Id(t)
  {
    ByteBytes(NetPacketType.Id(t))
  }
}
