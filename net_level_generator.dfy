// net/classicube/level/LevelGenerator.java: the base of the world
// generators: the dimensions and the all-air starting level.

module NetLevelGenerator {
  import opened JavaNum
  import opened LevelFormat
  import NetLevel

  class LevelGenerator {
    var width: JShort
    var height: JShort
    var depth: JShort

    /** The no-argument constructor: 256 x 64 x 256 (its random seed is not modelled). */
    constructor ()
      ensures width == 256 && height == 64 && depth == 256
    {
      width, height, depth := 256, 64, 256;
    }

    /** The sized constructor keeps the given dimensions; the seed only feeds
        `random`, which no modelled generator reads. */
    constructor Sized(width: JShort, height: JShort, depth: JShort, seed: int)
      ensures this.width == width && this.height == height && this.depth == depth
    {
      this.width, this.height, this.depth := width, height, depth;
    }

    function GetWidth(): JShort reads this { width }
    function GetHeight(): JShort reads this { height }
    function GetDepth(): JShort reads this { depth }

    /** A new level of the generator's dimensions, cleared to air over the
        whole box (0, 0, 0)..(width - 1, height - 1, depth - 1). */
    method GenerateBasicLevel() returns (level: NetLevel.Level)
      requires width >= 0 && height >= 0 && depth >= 0
      requires width * height * depth < MaxCells
      ensures fresh(level.blocks) && level.Valid()
      ensures level.width == width && level.height == height && level.depth == depth
      ensures forall i, j, k :: InBox(i, j, k, width as int, height as int, depth as int) ==>
        level.blocks[i, j, k] == NetLevel.Air
    {
      level := new NetLevel.Level(width as nat, height as nat, depth as nat);
      level.ClearArea(0, 0, 0, width - 1, height - 1, depth - 1);
    }
  }

}
