// classic/api/BlockType.java: the fifty Classic block types. Each constant is
// represented by its declaration index, which is also its id.

module ClassicBlockType {
  import opened JavaNum
  import opened Wrappers
  import opened JavaEnum

  /** AIR(0), STONE(1), GRASS_BLOCK(2), ..., MOSSY_COBBLESTONE(48), OBSIDIAN(49). */
  type BlockType = t: int | 0 <= t < 50

  const AIR: BlockType := 0
  const GRASS_BLOCK: BlockType := 2
  const BEDROCK: BlockType := 7
  const FLOWING_WATER: BlockType := 8
  const STATIONARY_WATER: BlockType := 9
  const FLOWING_LAVA: BlockType := 10
  const STATIONARY_LAVA: BlockType := 11
  const GLASS: BlockType := 20
  const RED_CLOTH: BlockType := 21
  const WHITE_CLOTH: BlockType := 36

  /** `values()`, in declaration order. */
  function Values(): (v: seq<BlockType>)
    ensures |v| == 50
  {
    seq(50, i requires 0 <= i < 50 => i as BlockType)
  }

  /** `getId()`: the constructor stores `(byte) id`. */
  function Id(t: BlockType): (b: JByte)
    ensures b == t
  {
    ToByte(t)
  }

  function Ids(): (ids: seq<int>)
    ensures |ids| == 50
  {
    seq(50, i requires 0 <= i < 50 => Id(Values()[i]) as int)
  }

  /** `getById`: the first constant with the id, or null. */
  function GetById(id: JByte): Option<BlockType>
  {
    match IndexOf(Ids(), id) {
      case None => None
      case Some(i) => Some(Values()[i])
    }
  }

  /** The ids are exactly 0..49: a lookup succeeds on those and only those. */
  lemma GetByIdDefined(id: JByte)
    ensures GetById(id).Some? <==> 0 <= id <= 49
    ensures GetById(id).Some? ==> Id(GetById(id).value) == id
  {
    if 0 <= id <= 49 {
      assert Ids()[id] == id;
    }
  }

  lemma GetByIdOfId(t: BlockType)
    ensures GetById(Id(t)) == Some(t)
  {
    assert Ids()[t] == t;
  }

  predicate IsLiquid(t: BlockType) {
    t == FLOWING_WATER || t == STATIONARY_WATER || t == FLOWING_LAVA || t == STATIONARY_LAVA
  }

  predicate IsSolid(t: BlockType) {
    t != AIR && !IsLiquid(t)
  }

  predicate IsCloth(t: BlockType) {
    Id(RED_CLOTH) <= Id(t) <= Id(WHITE_CLOTH)
  }

  /** The liquids are ids 8..11, the solids every other id but air, the
      cloths ids 21..36. */
  lemma Classes(t: BlockType)
    ensures IsLiquid(t) <==> 8 <= Id(t) <= 11
    ensures IsSolid(t) <==> Id(t) != 0 && !(8 <= Id(t) <= 11)
    ensures IsCloth(t) <==> 21 <= Id(t) <= 36
  {
  }
}
