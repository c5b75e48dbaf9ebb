// classic/level/Level.java: the single-world snapshot's level, a mutable
// 3-D grid of block ids with bounds-checked access, flat export and import,
// and the level file layout (gzip itself is not modelled).

module ClassicLevel {
  import opened JavaNum
  import opened Wrappers
  import opened LevelFormat

  /** The id `getBlock` answers outside the level. */
  const Air: JByte := 0

  class Level {
    const width: nat
    const height: nat
    const depth: nat
    const blocks: array3<JByte>

    ghost predicate Valid() {
      blocks.Length0 == width && blocks.Length1 == height && blocks.Length2 == depth &&
      width * height * depth < MaxCells
    }

    /** The grid as a value, g[x][y][z]. */
    ghost function Cells(): (g: Grid)
      requires Valid()
      reads blocks
      ensures Shaped(g, width, height, depth)
    {
      seq(width, x requires 0 <= x < width reads blocks =>
        seq(height, y requires 0 <= y < height reads blocks =>
          seq(depth, z requires 0 <= z < depth reads blocks => blocks[x, y, z])))
    }

    /** A new level is all air. */
    constructor (w: nat, h: nat, d: nat)
      requires w * h * d < MaxCells
      ensures Valid() && fresh(blocks)
      ensures width == w && height == h && depth == d
      ensures forall x, y, z :: InBox(x, y, z, w, h, d) ==> blocks[x, y, z] == Air
    {
      width, height, depth := w, h, d;
      blocks := new JByte[w, h, d]((_, _, _) => Air);
    }

    /** Writes one cell if it is inside the level; nothing else changes. */
    method SetBlock(x: int, y: int, z: int, blockType: JByte)
      requires Valid()
      modifies blocks
      ensures forall i, j, k :: InBox(i, j, k, width, height, depth) ==>
        blocks[i, j, k] == if i == x && j == y && k == z then blockType else old(blocks[i, j, k])
    {
      if InBox(x, y, z, width, height, depth) {
        blocks[x, y, z] := blockType;
      }
    }

    /** Reads one cell; outside the level the answer is air. */
    method GetBlock(x: JShort, y: JShort, z: JShort) returns (b: JByte)
      requires Valid()
      ensures InBox(x, y, z, width, height, depth) ==> b == blocks[x, y, z]
      ensures !InBox(x, y, z, width, height, depth) ==> b == Air
    {
      if InBox(x, y, z, width, height, depth) {
        return blocks[x, y, z];
      }
      return 0;
    }

    /** The dimensions as `short`s, as the packets carry them. */
    function GetWidth(): (s: JShort)
      ensures (width - s) % 0x1_0000 == 0
      ensures width < 0x8000 ==> s == width
    {
      ToShort(width)
    }

    function GetHeight(): (s: JShort)
      ensures (height - s) % 0x1_0000 == 0
      ensures height < 0x8000 ==> s == height
    {
      ToShort(height)
    }

    function GetDepth(): (s: JShort)
      ensures (depth - s) % 0x1_0000 == 0
      ensures depth < 0x8000 ==> s == depth
    {
      ToShort(depth)
    }

    /** Exports the grid, y outermost, then z, then x. */
    method GetBlockData() returns (r: seq<JByte>)
      requires Valid()
      ensures r == Flatten(Cells(), width, height, depth)
    {
      ghost var g := Cells();
      ghost var flat := Flatten(g, width, height, depth);
      var n := width * height * depth;
      var a := new JByte[n];
      var index := 0;
      var y := 0;
      while y < height
        invariant 0 <= y <= height
        invariant index == y * depth * width
        invariant forall j :: 0 <= j < index && j < n ==> a[j] == flat[j]
      {
        var z := 0;
        LayerStep(width, depth, y);
        while z < depth
          invariant 0 <= z <= depth
          invariant index == (y * depth + z) * width
          invariant forall j :: 0 <= j < index && j < n ==> a[j] == flat[j]
        {
          var x := 0;
          while x < width
            invariant 0 <= x <= width
            invariant index == (y * depth + z) * width + x
            invariant forall j :: 0 <= j < index && j < n ==> a[j] == flat[j]
          {
            FlattenAt(g, width, height, depth, x, y, z);
            assert g[x][y][z] == blocks[x, y, z];
            a[index] := blocks[x, y, z];
            index := index + 1;
            x := x + 1;
          }
          RowStep(width, depth, y, z);
          z := z + 1;
        }
        LayerStep(width, depth, y);
        y := y + 1;
      }
      Volume(width, height, depth);
      r := a[..];
    }

    /** Imports a flat array in the order `GetBlockData` exports; the array
        must hold at least width * height * depth blocks. */
    method SetBlockData(data: seq<JByte>)
      requires Valid() && |data| >= width * height * depth
      modifies blocks
      ensures Cells() == Unflatten(data[..width * height * depth], width, height, depth)
    {
      var index := 0;
      var y := 0;
      while y < height
        invariant 0 <= y <= height
        invariant index == y * depth * width
        invariant forall i, j, k :: InBox(i, j, k, width, height, depth) && j < y ==>
          blocks[i, j, k] == CellOf(data, width, height, depth, i, j, k)
      {
        var z := 0;
        LayerStep(width, depth, y);
        while z < depth
          invariant 0 <= z <= depth
          invariant index == (y * depth + z) * width
          invariant forall i, j, k :: InBox(i, j, k, width, height, depth) && Before(j, k, 0, y, z, 0) ==>
            blocks[i, j, k] == CellOf(data, width, height, depth, i, j, k)
        {
          var x := 0;
          while x < width
            invariant 0 <= x <= width
            invariant index == (y * depth + z) * width + x
            invariant forall i, j, k :: InBox(i, j, k, width, height, depth) && Before(j, k, i, y, z, x) ==>
              blocks[i, j, k] == CellOf(data, width, height, depth, i, j, k)
          {
            IndexBound(width, height, depth, x, y, z);
            assert index == Index(width, height, depth, x, y, z);
            blocks[x, y, z] := data[index];
            index := index + 1;
            x := x + 1;
          }
          RowStep(width, depth, y, z);
          z := z + 1;
        }
        LayerStep(width, depth, y);
        y := y + 1;
      }
      UnflattenOf(Cells(), data, width, height, depth);
    }

    /** `saveToFile` before gzip: the three dimensions, then the exported blocks. */
    method SaveToFile() returns (file: seq<Octet>)
      requires Valid()
      ensures file == FileBytes(width, height, depth, Flatten(Cells(), width, height, depth))
    {
      var data := GetBlockData();
      file := ShortBytes(width) + ShortBytes(height) + ShortBytes(depth) + Octets(data);
    }

    /** `loadFromFile` after gunzip: a new level of the stored dimensions
        holding the stored blocks, or the failure `ParseFile` names. */
    static method LoadFromFile(file: seq<Octet>) returns (r: Result<Level>)
      ensures r.Ok? <==> ParseFile(file).Ok?
      ensures r.Err? ==> r.reason == ParseFile(file).reason
      ensures r.Ok? ==>
        var f := ParseFile(file).value;
        var level := r.value;
        level.Valid() && fresh(level.blocks) &&
        level.width == f.width && level.height == f.height && level.depth == f.depth &&
        level.Cells() == Unflatten(f.data, f.width, f.height, f.depth)
    {
      var parsed := ParseFile(file);
      if parsed.Err? {
        return Err(parsed.reason);
      }
      var f := parsed.value;
      var level := new Level(f.width, f.height, f.depth);
      level.SetBlockData(f.data);
      assert f.data[..f.width * f.height * f.depth] == f.data;
      return Ok(level);
    }
  }
}
