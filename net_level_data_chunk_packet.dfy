// src/net/classicube/packets/LevelDataChunkPacket.java: one piece of the
// compressed level, always carried in a 1024-byte buffer.

module NetLevelDataChunkPacket {
  import opened Wrappers
  import opened JavaNum
  import opened NetPacket
  import NetPacketType

  const ChunkSize := 1024

  /** The bytes `read` consumes: length, buffer and percentage. */
  const PayloadSize := 2 + ChunkSize + 1

  function ZeroBytes(n: nat): (r: seq<JByte>)
    ensures |r| == n && forall i :: 0 <= i < n ==> r[i] == 0
  {
    seq(n, _ => 0)
  }

  class LevelDataChunkPacket {
    var chunkLength: JShort
    var chunkData: array<JByte>
    var percentComplete: JByte

    predicate Valid()
      reads this
    {
      chunkData.Length == ChunkSize
    }

    /** A new packet: an all-zero buffer of 1024 bytes, length and percentage 0. */
    constructor()
      ensures Valid() && fresh(chunkData)
      ensures chunkData[..] == ZeroBytes(ChunkSize)
      ensures chunkLength == 0 && percentComplete == 0
    {
      chunkLength, percentComplete := 0, 0;
      chunkData := new JByte[ChunkSize](_ => 0);
    }

    /** `write`: opcode 0x03, the length as a big-endian short, the whole
        1024-byte buffer whatever the length says, then the percentage. */
    function Write(): (r: seq<Octet>)
      requires Valid()
      reads this, chunkData
      ensures |r| == 1 + PayloadSize
      ensures ByteAt(r, 0) == NetPacketType.Id(NetPacketType.LEVEL_DATA_CHUNK)
    {
      TypeByte(NetPacketType.LEVEL_DATA_CHUNK)
      + ShortBytes(chunkLength)
      + Octets(chunkData[..])
      + ByteBytes(percentComplete)
    }

    /** `read`: the length, a fresh 1024-byte buffer filled from the input, then
        the percentage. When the input runs out inside the buffer, the bytes that
        did arrive are in it and the rest are zero. */
    method Read(input: seq<Octet>) returns (r: Result<nat>)
      requires Valid()
      modifies this
      ensures Valid()
      ensures r.Ok? <==> |input| >= PayloadSize
      ensures r.Ok? ==> r.value == PayloadSize
      ensures r.Err? ==> r.reason == EndOfStream
      ensures |input| >= 2 ==> chunkLength == ShortAt(input, 0)
      ensures |input| < 2 ==> chunkLength == old(chunkLength) && chunkData == old(chunkData)
      ensures |input| >= 2 ==> fresh(chunkData)
      ensures |input| >= 2 + ChunkSize ==> chunkData[..] == JBytes(input[2..2 + ChunkSize])
      ensures 2 <= |input| < 2 + ChunkSize ==>
        chunkData[..] == JBytes(input[2..]) + ZeroBytes(2 + ChunkSize - |input|)
      ensures |input| >= PayloadSize ==> percentComplete == ByteAt(input, 2 + ChunkSize)
      ensures |input| < PayloadSize ==> percentComplete == old(percentComplete)
      ensures r.Ok? ==> Write()[1..] == input[..PayloadSize]
    {
      if |input| < 2 {
        return Err(EndOfStream);
      }
      chunkLength := ShortAt(input, 0);
      chunkData := new JByte[ChunkSize](_ => 0);
      var n := if |input| - 2 < ChunkSize then |input| - 2 else ChunkSize;
      var i := 0;
      while i < n
        invariant 0 <= i <= n
        invariant fresh(chunkData) && chunkData.Length == ChunkSize
        invariant chunkLength == ShortAt(input, 0) && percentComplete == old(percentComplete)
        invariant chunkData[..] == JBytes(input[2..2 + i]) + ZeroBytes(ChunkSize - i)
      {
        chunkData[i] := ToByte(input[2 + i]);
        i := i + 1;
      }
      if n < ChunkSize {
        assert input[2..2 + n] == input[2..];
      } else {
        assert chunkData[..] == JBytes(input[2..2 + ChunkSize]) + [];
      }
      if |input| < PayloadSize {
        return Err(EndOfStream);
      }
      percentComplete := ByteAt(input, 2 + ChunkSize);
      ShortBytesOfShortAt(input, 0);
      OctetsRoundTrip(input[2..2 + ChunkSize]);
      ByteBytesOfByteAt(input, 2 + ChunkSize);
      assert input[..PayloadSize] ==
        input[0..2] + input[2..2 + ChunkSize] + input[2 + ChunkSize..PayloadSize];
      return Ok(PayloadSize);
    }

    /** `getChunkData`: a copy of the first `chunkLength` bytes, zero-extended when
        the length exceeds the buffer; a negative length throws. */
    method GetChunkData() returns (r: Result<seq<JByte>>)
      requires Valid()
      ensures r.Err? <==> chunkLength < 0
      ensures r.Ok? && chunkLength <= ChunkSize ==> r.value == chunkData[..chunkLength]
      ensures r.Ok? && chunkLength > ChunkSize ==>
        r.value == chunkData[..] + ZeroBytes(chunkLength - ChunkSize)
    {
      if chunkLength < 0 {
        return Err("NegativeArraySizeException");
      }
      if chunkLength <= ChunkSize {
        return Ok(chunkData[..chunkLength]);
      }
      return Ok(chunkData[..] + ZeroBytes(chunkLength - ChunkSize));
    }

    /** `setChunkData`: clear the buffer, copy in at most 1024 bytes, and set the
        length to the number copied, overriding any earlier `setChunkLength`. */
    method SetChunkData(data: seq<JByte>)
      requires Valid()
      modifies this, chunkData
      ensures Valid() && chunkData == old(chunkData)
      ensures var k := if |data| < ChunkSize then |data| else ChunkSize;
        chunkLength == k && chunkData[..] == data[..k] + ZeroBytes(ChunkSize - k)
      ensures percentComplete == old(percentComplete)
    {
      var i := 0;
      while i < ChunkSize
        invariant 0 <= i <= ChunkSize
        invariant chunkData == old(chunkData) && chunkData.Length == ChunkSize
        invariant percentComplete == old(percentComplete)
        invariant forall j :: 0 <= j < i ==> chunkData[j] == 0
      {
        chunkData[i] := 0;
        i := i + 1;
      }
      var k := if |data| < ChunkSize then |data| else ChunkSize;
      assert chunkData[..] == data[..0] + ZeroBytes(ChunkSize);
      i := 0;
      while i < k
        invariant 0 <= i <= k
        invariant chunkData == old(chunkData) && chunkData.Length == ChunkSize
        invariant percentComplete == old(percentComplete)
        invariant chunkData[..] == data[..i] + ZeroBytes(ChunkSize - i)
      {
        chunkData[i] := data[i];
        i := i + 1;
      }
      chunkLength := k;
    }
  }

  /** What `Read` decodes from the bytes `write` put after the opcode is the
      length, the whole buffer and the percentage. */
  lemma RoundTrip(p: LevelDataChunkPacket)
    requires p.Valid()
    ensures var w := p.Write()[1..];
      ShortAt(w, 0) == p.chunkLength
      && JBytes(w[2..2 + ChunkSize]) == p.chunkData[..]
      && ByteAt(w, 2 + ChunkSize) == p.percentComplete
  {
    var w := p.Write()[1..];
    assert w == ShortBytes(p.chunkLength) + Octets(p.chunkData[..]) + ByteBytes(p.percentComplete);
    assert w[0..2] == ShortBytes(p.chunkLength);
    assert w[2..2 + ChunkSize] == Octets(p.chunkData[..]);
    assert w[2 + ChunkSize..2 + ChunkSize + 1] == ByteBytes(p.percentComplete);
    ShortRoundTrip(p.chunkLength);
    BytesRoundTrip(p.chunkData[..]);
    ByteRoundTrip(p.percentComplete);
  }
}
