// src/net/classicube/api/Location.java: a position in fixed-point units of
// 1/32 block, with the block coordinates derived by an arithmetic shift.

module NetLocation {
  import opened JavaNum

  /** The fields a `Location` is built from; the block coordinates `x`, `y`, `z`
      are computed from them, so they are functions here. */
  datatype Location = Location(rawX: JShort, rawY: JShort, rawZ: JShort, yaw: JByte, pitch: JByte)
  {
    /** `getX`: `rawX >> 5`, the floor of rawX / 32. */
    function X(): (b: int)
      ensures b * 32 <= rawX < b * 32 + 32
    {
      ShiftRight5(rawX)
    }

    function Y(): (b: int)
      ensures b * 32 <= rawY < b * 32 + 32
    {
      ShiftRight5(rawY)
    }

    function Z(): (b: int)
      ensures b * 32 <= rawZ < b * 32 + 32
    {
      ShiftRight5(rawZ)
    }
  }

  /** `v >> 5` on a Java int: rounds toward negative infinity, unlike Java's
      `v / 32`; Dafny's `/` by a positive divisor rounds the same way. */
  function ShiftRight5(v: int): (b: int)
    ensures b * 32 <= v < b * 32 + 32
  {
    v / 32
  }

  /** `(short) (v << 5)` for a short v. */
  function ShiftLeft5(v: JShort): (s: JShort)
    ensures s == ToShort(v * 32)
  {
    ToShort(v * 32)
  }

  /** `fromBlockCoordinates(x, y, z, yaw, pitch)`. */
  function FromBlockCoordinates(x: JShort, y: JShort, z: JShort, yaw: JByte, pitch: JByte): (l: Location)
    ensures l.yaw == yaw && l.pitch == pitch
    ensures -1024 <= x < 1024 ==> l.X() == x && l.rawX == x * 32
    ensures -1024 <= y < 1024 ==> l.Y() == y && l.rawY == y * 32
    ensures -1024 <= z < 1024 ==> l.Z() == z && l.rawZ == z * 32
  {
    Location(ShiftLeft5(x), ShiftLeft5(y), ShiftLeft5(z), yaw, pitch)
  }

  /** The three-argument overload: facing yaw 0, pitch 0. */
  function FromBlock(x: JShort, y: JShort, z: JShort): (l: Location)
    ensures l.yaw == 0 && l.pitch == 0
    ensures l == FromBlockCoordinates(x, y, z, 0, 0)
  {
    FromBlockCoordinates(x, y, z, 0, 0)
  }

  /** `add`: the new raw value is `(x << 5) + (dx << 5)` cut to a short, so it is
      block-aligned and the old sub-block fraction is gone. */
  function Add(l: Location, dx: JShort, dy: JShort, dz: JShort): (r: Location)
    ensures r.yaw == l.yaw && r.pitch == l.pitch
    ensures r.rawX == ToShort((l.X() + dx) * 32)
    ensures r.rawY == ToShort((l.Y() + dy) * 32)
    ensures r.rawZ == ToShort((l.Z() + dz) * 32)
  {
    Location(ToShort(l.X() * 32 + dx * 32), ToShort(l.Y() * 32 + dy * 32),
             ToShort(l.Z() * 32 + dz * 32), l.yaw, l.pitch)
  }

  /** Within the short range, `add` moves the block coordinates by exactly the
      offsets and leaves the position on a block corner. */
  lemma AddMovesBlocks(l: Location, dx: JShort, dy: JShort, dz: JShort)
    requires -1024 <= l.X() + dx < 1024 && -1024 <= l.Y() + dy < 1024 && -1024 <= l.Z() + dz < 1024
    ensures var r := Add(l, dx, dy, dz);
      r.X() == l.X() + dx && r.Y() == l.Y() + dy && r.Z() == l.Z() + dz
      && r.rawX % 32 == 0 && r.rawY % 32 == 0 && r.rawZ % 32 == 0
  {
    var r := Add(l, dx, dy, dz);
    BlockAligned(l.X() + dx);
    BlockAligned(l.Y() + dy);
    BlockAligned(l.Z() + dz);
  }

  lemma BlockAligned(b: int)
    requires -1024 <= b < 1024
    ensures ToShort(b * 32) == b * 32 && ShiftRight5(b * 32) == b
  {
    var v := b * 32;
    var s := ShiftRight5(v);
    assert s * 32 <= b * 32 < s * 32 + 32;
    assert s == b;
  }

  /** `clone`: a location with the same raw coordinates, yaw and pitch. */
  function Clone(l: Location): (r: Location)
    ensures r.rawX == l.rawX && r.rawY == l.rawY && r.rawZ == l.rawZ
    ensures r.yaw == l.yaw && r.pitch == l.pitch
    ensures r.X() == l.X() && r.Y() == l.Y() && r.Z() == l.Z()
  {
    Location(l.rawX, l.rawY, l.rawZ, l.yaw, l.pitch)
  }
}
