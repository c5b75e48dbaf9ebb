// classic/level/LevelGenerator.java: the flat world of the single-world
// snapshot (bedrock at y = 0, grass at y = 1, air above) and the buffer that
// is gzip-compressed for the level transfer.

module ClassicLevelGenerator {
  import opened JavaNum
  import opened LevelFormat
  import opened ClassicBlockType
  import ClassicLevel

  /** The layer rule of `getBlockType`. */
  function GetBlockType(x: int, y: int, z: int): (t: BlockType)
    ensures t == BEDROCK <==> y == 0
    ensures t == GRASS_BLOCK <==> y == 1
    ensures t == AIR <==> y != 0 && y != 1
  {
    if y == 0 then BEDROCK
    else if y == 1 then GRASS_BLOCK
    else AIR
  }

  class LevelGenerator {
    var width: JShort
    var height: JShort
    var depth: JShort

    /** The default dimensions are 256 x 64 x 256. */
    constructor ()
      ensures width == 256 && height == 64 && depth == 256
    {
      width, height, depth := 256, 64, 256;
    }

    constructor Sized(width: JShort, height: JShort, depth: JShort)
      ensures this.width == width && this.height == height && this.depth == depth
    {
      this.width, this.height, this.depth := width, height, depth;
    }

    /** A new level of the generator's dimensions, filled cell by cell with
        `getBlockType`, y outermost, then z, then x. */
    method GenerateFlatWorld() returns (level: ClassicLevel.Level)
      requires width >= 0 && height >= 0 && depth >= 0
      requires width * height * depth < MaxCells
      ensures fresh(level.blocks) && level.Valid()
      ensures level.width == width && level.height == height && level.depth == depth
      ensures forall i, j, k :: InBox(i, j, k, width as int, height as int, depth as int) ==>
        level.blocks[i, j, k] == Id(GetBlockType(i, j, k))
    {
      level := new ClassicLevel.Level(width as nat, height as nat, depth as nat);
      var y := 0;
      while y < height as int
        invariant 0 <= y <= height as int
        invariant level.Valid() && level.width == width && level.height == height && level.depth == depth
        invariant forall i, j, k :: InBox(i, j, k, width as int, height as int, depth as int) ==>
          level.blocks[i, j, k] == if j < y then Id(GetBlockType(i, j, k)) else ClassicLevel.Air
      {
        var z := 0;
        while z < depth as int
          invariant 0 <= z <= depth as int
          invariant forall i, j, k :: InBox(i, j, k, width as int, height as int, depth as int) ==>
            level.blocks[i, j, k] == if Before(j, k, 0, y, z, 0) then Id(GetBlockType(i, j, k)) else ClassicLevel.Air
        {
          var x := 0;
          while x < width as int
            invariant 0 <= x <= width as int
            invariant forall i, j, k :: InBox(i, j, k, width as int, height as int, depth as int) ==>
              level.blocks[i, j, k] == if Before(j, k, i, y, z, x) then Id(GetBlockType(i, j, k)) else ClassicLevel.Air
          {
            level.SetBlock(x, y, z, Id(GetBlockType(x, y, z)));
            x := x + 1;
          }
          z := z + 1;
        }
        y := y + 1;
      }
    }

    /** `compressLevelData`: gzip applied to the 4-byte big-endian length of
        the exported blocks followed by the blocks themselves. */
    method CompressLevelData(level: ClassicLevel.Level, gzip: seq<Octet> -> seq<Octet>) returns (r: seq<Octet>)
      requires level.Valid()
      ensures r == gzip(LengthPrefixed(Flatten(level.Cells(), level.width, level.height, level.depth)))
    {
      var rawData := level.GetBlockData();
      r := gzip(IntBytes(|rawData|) + Octets(rawData));
    }

    method SetWidth(width: JShort)
      modifies this
      ensures this.width == width && height == old(height) && depth == old(depth)
    {
      this.width := width;
    }

    method SetHeight(height: JShort)
      modifies this
      ensures this.height == height && width == old(width) && depth == old(depth)
    {
      this.height := height;
    }

    method SetDepth(depth: JShort)
      modifies this
      ensures this.depth == depth && width == old(width) && height == old(height)
    {
      this.depth := depth;
    }
  }

  /** The uncompressed transfer buffer: `writeInt(length)` then the bytes. */
  function LengthPrefixed(data: seq<JByte>): (r: seq<Octet>)
    ensures |r| == 4 + |data|
  {
    IntBytes(|data|) + Octets(data)
  }

  /** The receiver reads back the length and the blocks. */
  lemma LengthPrefixedRoundTrip(data: seq<JByte>)
    requires |data| < 0x8000_0000
    ensures IntAt(LengthPrefixed(data), 0) == |data|
    ensures JBytes(LengthPrefixed(data)[4..]) == data
  {
    var r := LengthPrefixed(data);
    assert r[..4] == IntBytes(|data|);
    IntRoundTrip(|data|);
    assert IntAt(r, 0) == IntAt(IntBytes(|data|), 0);
    assert r[4..] == Octets(data);
    BytesRoundTrip(data);
  }
}
