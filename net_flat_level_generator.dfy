// net/classicube/level/FlatLevelGenerator.java: a bedrock floor, a grass
// layer above it, and a glass shell of radius 16 around the level's centre.

module NetFlatLevelGenerator {
  import opened JavaNum
  import opened LevelFormat
  import opened NetLevel
  import NetLevelGenerator

  // The block ids of the Classic protocol for the three block types used
  // here (the net.classicube.api.enums.BlockType enum is not part of this model).
  const BEDROCK: JByte := 7
  const GRASS_BLOCK: JByte := 2
  const GLASS: JByte := 20

  /** The shell radius `generateLevel` draws. */
  const ShellRadius := 16

  /** What a generated level holds at (x, y, z): the shell is drawn last, so it
      wins over both layers. */
  function FlatCell(x: int, y: int, z: int, w: int, h: int, d: int): JByte
  {
    if InShell(x - w / 2, y - h / 2, z - d / 2, ShellRadius) then GLASS
    else if y == 0 then BEDROCK
    else if y == 1 then GRASS_BLOCK
    else Air
  }

  /** A cell is glass exactly when its squared distance from the centre lies
      in (15^2, 16^2]; otherwise the layers decide. */
  lemma FlatCellByDistance(x: int, y: int, z: int, w: int, h: int, d: int)
    ensures var ox, oy, oz := x - w / 2, y - h / 2, z - d / 2;
      var dist := ox * ox + oy * oy + oz * oz;
      (FlatCell(x, y, z, w, h, d) == GLASS <==> 225 < dist <= 256) &&
      (!(225 < dist <= 256) ==>
        FlatCell(x, y, z, w, h, d) == (if y == 0 then BEDROCK else if y == 1 then GRASS_BLOCK else Air))
  {
    ShellIsDistance(x - w / 2, y - h / 2, z - d / 2, ShellRadius);
  }

  class FlatLevelGenerator {
    /** The `LevelGenerator` part of the object. */
    const base: NetLevelGenerator.LevelGenerator

    constructor ()
      ensures fresh(base)
      ensures base.width == 256 && base.height == 64 && base.depth == 256
    {
      base := new NetLevelGenerator.LevelGenerator();
    }

    /** The sized constructor fixes the seed to 0. */
    constructor Sized(width: JShort, height: JShort, depth: JShort)
      ensures fresh(base)
      ensures base.width == width && base.height == height && base.depth == depth
    {
      base := new NetLevelGenerator.LevelGenerator.Sized(width, height, depth, 0);
    }

    /** The generated level depends on the dimensions only. */
    method GenerateLevel() returns (level: Level)
      requires base.width >= 0 && base.height >= 0 && base.depth >= 0
      requires base.width * base.height * base.depth < MaxCells
      ensures fresh(level.blocks) && level.Valid()
      ensures level.width == base.width && level.height == base.height && level.depth == base.depth
      ensures forall i, j, k :: InBox(i, j, k, level.width, level.height, level.depth) ==>
        level.blocks[i, j, k] == FlatCell(i, j, k, level.width, level.height, level.depth)
    {
      level := base.GenerateBasicLevel();
      var w, h, d := base.width as int, base.height as int, base.depth as int;
      level.FillCuboid(0, 0, 0, w - 1, 0, d - 1, BEDROCK);
      level.FillCuboid(0, 1, 0, w - 1, 1, d - 1, GRASS_BLOCK);
      var center := level.GetCenter();
      level.CreateHollowSphere(center.0, center.1, center.2, ShellRadius, GLASS);
    }
  }
}
