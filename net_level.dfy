// net/classicube/level/Level.java: the world as a mutable 3-D grid of block
// ids, with bounds-checked access, flat export and import, the region
// helpers used by the generators, and the level file layout.

module NetLevel {
  import opened JavaNum
  import opened Wrappers
  import opened LevelFormat

  /** The id of AIR, which `clearArea` writes. */
  const Air: JByte := 0

  function Min(a: int, b: int): int { if a <= b then a else b }
  function Max(a: int, b: int): int { if a >= b then a else b }

  /** The low corner of a region after clamping: `max(0, min(a, b))`. */
  function Lo(a: int, b: int): int { Max(0, Min(a, b)) }
  /** The high corner of a region after clamping: `min(dim - 1, max(a, b))`. */
  function Hi(a: int, b: int, dim: int): int { Min(dim - 1, Max(a, b)) }

  /** The cells `fillCuboid` writes. */
  predicate InCuboid(x: int, y: int, z: int, x1: int, y1: int, z1: int, x2: int, y2: int, z2: int,
                     w: int, h: int, d: int)
  {
    Lo(x1, x2) <= x <= Hi(x1, x2, w) &&
    Lo(y1, y2) <= y <= Hi(y1, y2, h) &&
    Lo(z1, z2) <= z <= Hi(z1, z2, d)
  }

  /** The cells the two loops of `createWalls` write: the faces z = minZ and
      z = maxZ over the clamped x range, then the faces x = minX and x = maxX
      strictly between them. */
  predicate InWalls(x: int, y: int, z: int, x1: int, y1: int, z1: int, x2: int, y2: int, z2: int,
                    w: int, h: int, d: int)
  {
    var minX, maxX := Lo(x1, x2), Hi(x1, x2, w);
    var minZ, maxZ := Lo(z1, z2), Hi(z1, z2, d);
    Lo(y1, y2) <= y <= Hi(y1, y2, h) &&
    ((minX <= x <= maxX && (z == minZ || z == maxZ)) ||
     (minZ < z < maxZ && (x == minX || x == maxX)))
  }

  /** Offsets `fillCircle` writes: the square [-r, r]^2 cut by x^2 + z^2 <= r^2. */
  predicate InDisc(ox: int, oz: int, r: int) {
    -r <= ox <= r && -r <= oz <= r && ox * ox + oz * oz <= r * r
  }

  /** Offsets `fillSphere` writes. */
  predicate InBall(ox: int, oy: int, oz: int, r: int) {
    -r <= ox <= r && -r <= oy <= r && -r <= oz <= r && ox * ox + oy * oy + oz * oz <= r * r
  }

  /** Offsets `createHollowSphere` writes: (r - 1)^2 < distance^2 <= r^2. */
  predicate InShell(ox: int, oy: int, oz: int, r: int) {
    var dist := ox * ox + oy * oy + oz * oz;
    -r <= ox <= r && -r <= oy <= r && -r <= oz <= r && dist <= r * r && dist > (r - 1) * (r - 1)
  }

  /** Only the clamped range is visited, and the corners may come in either order. */
  lemma CuboidCorners(i: int, j: int, k: int, x1: int, y1: int, z1: int, x2: int, y2: int, z2: int,
                      w: int, h: int, d: int)
    requires InBox(i, j, k, w, h, d)
    ensures InCuboid(i, j, k, x1, y1, z1, x2, y2, z2, w, h, d) <==>
      (Min(x1, x2) <= i <= Max(x1, x2) && Min(y1, y2) <= j <= Max(y1, y2) && Min(z1, z2) <= k <= Max(z1, z2))
    ensures InCuboid(i, j, k, x1, y1, z1, x2, y2, z2, w, h, d) == InCuboid(i, j, k, x2, y2, z2, x1, y1, z1, w, h, d)
  {
  }

  /** Inside the clamped box, the walls are exactly the cells on an x or z face. */
  lemma WallsInsideBox(i: int, j: int, k: int, x1: int, y1: int, z1: int, x2: int, y2: int, z2: int,
                       w: int, h: int, d: int)
    requires InCuboid(i, j, k, x1, y1, z1, x2, y2, z2, w, h, d)
    ensures InWalls(i, j, k, x1, y1, z1, x2, y2, z2, w, h, d) <==>
      (i == Lo(x1, x2) || i == Hi(x1, x2, w) || k == Lo(z1, z2) || k == Hi(z1, z2, d))
  {
  }

  /** When the corners lie beyond the level in x, the clamped x range is
      empty, yet the second loop of `createWalls` still paints the x = width - 1
      face: a cell outside the clamped box is written. */
  lemma WallsLeakOutsideBox()
    ensures InWalls(3, 0, 2, 10, 0, 0, 10, 0, 4, 4, 1, 5)
    ensures !InCuboid(3, 0, 2, 10, 0, 0, 10, 0, 4, 4, 1, 5)
  {
  }

  /** The walls of the clamped box: its cells on an x or z face. */
  predicate InBoxWalls(x: int, y: int, z: int, x1: int, y1: int, z1: int, x2: int, y2: int, z2: int,
                       w: int, h: int, d: int)
  {
    InCuboid(x, y, z, x1, y1, z1, x2, y2, z2, w, h, d) &&
    (x == Lo(x1, x2) || x == Hi(x1, x2, w) || z == Lo(z1, z2) || z == Hi(z1, z2, d))
  }

  /** Once the clamped box is non-empty, the loops of `createWalls` write
      exactly the walls of the box. */
  lemma WallsOfNonEmptyBox(i: int, j: int, k: int, x1: int, y1: int, z1: int, x2: int, y2: int, z2: int,
                           w: int, h: int, d: int)
    requires InBox(i, j, k, w, h, d)
    requires Lo(x1, x2) <= Hi(x1, x2, w) && Lo(z1, z2) <= Hi(z1, z2, d)
    ensures InWalls(i, j, k, x1, y1, z1, x2, y2, z2, w, h, d) <==>
      InBoxWalls(i, j, k, x1, y1, z1, x2, y2, z2, w, h, d)
  {
  }

  lemma SquareGrows(a: int, r: int)
    requires 0 <= r < a
    ensures r * r < a * a
  {
    assert a * a - r * r == (a - r) * (a + r);
    MulMono(1, a - r, a + r);
  }

  /** For a non-negative radius the loop's box is no restriction: a squared
      offset of at most r^2 already bounds every coordinate by r. */
  lemma SquareBounds(a: int, rest: int, r: int)
    requires r >= 0 && rest >= 0 && a * a + rest <= r * r
    ensures -r <= a <= r
  {
    if a > r {
      SquareGrows(a, r);
    } else if a < -r {
      SquareGrows(-a, r);
    }
  }

  lemma DiscIsDistance(ox: int, oz: int, r: int)
    requires r >= 0
    ensures InDisc(ox, oz, r) <==> ox * ox + oz * oz <= r * r
  {
    if ox * ox + oz * oz <= r * r {
      SquareBounds(ox, oz * oz, r);
      SquareBounds(oz, ox * ox, r);
    }
  }

  lemma BallIsDistance(ox: int, oy: int, oz: int, r: int)
    requires r >= 0
    ensures InBall(ox, oy, oz, r) <==> ox * ox + oy * oy + oz * oz <= r * r
  {
    if ox * ox + oy * oy + oz * oz <= r * r {
      SquareBounds(ox, oy * oy + oz * oz, r);
      SquareBounds(oy, ox * ox + oz * oz, r);
      SquareBounds(oz, ox * ox + oy * oy, r);
    }
  }

  /** `createHollowSphere` writes exactly the offsets with (r - 1)^2 < d2 <= r^2. */
  lemma ShellIsDistance(ox: int, oy: int, oz: int, r: int)
    requires r >= 0
    ensures InShell(ox, oy, oz, r) <==>
      (r - 1) * (r - 1) < ox * ox + oy * oy + oz * oz <= r * r
  {
    BallIsDistance(ox, oy, oz, r);
  }

  /** The shell is the ball minus the ball of radius r - 1. */
  lemma ShellIsBallDifference(ox: int, oy: int, oz: int, r: int)
    requires r >= 1
    ensures InShell(ox, oy, oz, r) <==> InBall(ox, oy, oz, r) && !InBall(ox, oy, oz, r - 1)
  {
    BallIsDistance(ox, oy, oz, r);
    BallIsDistance(ox, oy, oz, r - 1);
  }

  class Level {
    const width: nat
    const height: nat
    const depth: nat
    const blocks: array3<JByte>

    ghost predicate Valid() {
      blocks.Length0 == width && blocks.Length1 == height && blocks.Length2 == depth &&
      width * height * depth < MaxCells
    }

    /** The grid as a value, g[x][y][z]. */
    ghost function Cells(): (g: Grid)
      requires Valid()
      reads blocks
      ensures Shaped(g, width, height, depth)
    {
      seq(width, x requires 0 <= x < width reads blocks =>
        seq(height, y requires 0 <= y < height reads blocks =>
          seq(depth, z requires 0 <= z < depth reads blocks => blocks[x, y, z])))
    }

    /** A new level is all air. */
    constructor (w: nat, h: nat, d: nat)
      requires w * h * d < MaxCells
      ensures Valid() && fresh(blocks)
      ensures width == w && height == h && depth == d
      ensures forall x, y, z :: InBox(x, y, z, w, h, d) ==> blocks[x, y, z] == Air
    {
      width, height, depth := w, h, d;
      blocks := new JByte[w, h, d]((_, _, _) => Air);
    }

    predicate IsInBounds(x: int, y: int, z: int) {
      InBox(x, y, z, width, height, depth)
    }

    /** Writes one cell if it is inside the level; nothing else changes. */
    method SetBlock(x: int, y: int, z: int, blockType: JByte)
      requires Valid()
      modifies blocks
      ensures forall i, j, k :: InBox(i, j, k, width, height, depth) ==>
        blocks[i, j, k] == if i == x && j == y && k == z then blockType else old(blocks[i, j, k])
    {
      if IsInBounds(x, y, z) {
        blocks[x, y, z] := blockType;
      }
    }

    /** Reads one cell; outside the level the answer is air. */
    method GetBlock(x: JShort, y: JShort, z: JShort) returns (b: JByte)
      requires Valid()
      ensures IsInBounds(x, y, z) ==> b == blocks[x, y, z]
      ensures !IsInBounds(x, y, z) ==> b == Air
    {
      if IsInBounds(x, y, z) {
        return blocks[x, y, z];
      }
      return 0;
    }

    /** The midpoint of each dimension, rounded down. */
    function GetCenter(): (c: (int, int, int))
      ensures 2 * c.0 <= width <= 2 * c.0 + 1
      ensures 2 * c.1 <= height <= 2 * c.1 + 1
      ensures 2 * c.2 <= depth <= 2 * c.2 + 1
    {
      (width / 2, height / 2, depth / 2)
    }

    /** The dimensions as `short`s, as the packets carry them. */
    function GetWidth(): (s: JShort)
      ensures (width - s) % 0x1_0000 == 0
      ensures width < 0x8000 ==> s == width
    {
      ToShort(width)
    }

    function GetHeight(): (s: JShort)
      ensures (height - s) % 0x1_0000 == 0
      ensures height < 0x8000 ==> s == height
    {
      ToShort(height)
    }

    function GetDepth(): (s: JShort)
      ensures (depth - s) % 0x1_0000 == 0
      ensures depth < 0x8000 ==> s == depth
    {
      ToShort(depth)
    }

    /** Exports the grid, y outermost, then z, then x. */
    method GetBlockData() returns (r: seq<JByte>)
      requires Valid()
      ensures r == Flatten(Cells(), width, height, depth)
    {
      ghost var g := Cells();
      ghost var flat := Flatten(g, width, height, depth);
      var n := width * height * depth;
      var a := new JByte[n];
      var index := 0;
      var y := 0;
      while y < height
        invariant 0 <= y <= height
        invariant index == y * depth * width
        invariant forall j :: 0 <= j < index && j < n ==> a[j] == flat[j]
      {
        var z := 0;
        LayerStep(width, depth, y);
        while z < depth
          invariant 0 <= z <= depth
          invariant index == (y * depth + z) * width
          invariant forall j :: 0 <= j < index && j < n ==> a[j] == flat[j]
        {
          var x := 0;
          while x < width
            invariant 0 <= x <= width
            invariant index == (y * depth + z) * width + x
            invariant forall j :: 0 <= j < index && j < n ==> a[j] == flat[j]
          {
            FlattenAt(g, width, height, depth, x, y, z);
            assert g[x][y][z] == blocks[x, y, z];
            a[index] := blocks[x, y, z];
            index := index + 1;
            x := x + 1;
          }
          RowStep(width, depth, y, z);
          z := z + 1;
        }
        LayerStep(width, depth, y);
        y := y + 1;
      }
      Volume(width, height, depth);
      r := a[..];
    }

    /** Imports a flat array in the order `GetBlockData` exports; the array
        must hold at least width * height * depth blocks. */
    method SetBlockData(data: seq<JByte>)
      requires Valid() && |data| >= width * height * depth
      modifies blocks
      ensures Cells() == Unflatten(data[..width * height * depth], width, height, depth)
    {
      var index := 0;
      var y := 0;
      while y < height
        invariant 0 <= y <= height
        invariant index == y * depth * width
        invariant forall i, j, k :: InBox(i, j, k, width, height, depth) && j < y ==>
          blocks[i, j, k] == CellOf(data, width, height, depth, i, j, k)
      {
        var z := 0;
        LayerStep(width, depth, y);
        while z < depth
          invariant 0 <= z <= depth
          invariant index == (y * depth + z) * width
          invariant forall i, j, k :: InBox(i, j, k, width, height, depth) && Before(j, k, 0, y, z, 0) ==>
            blocks[i, j, k] == CellOf(data, width, height, depth, i, j, k)
        {
          var x := 0;
          while x < width
            invariant 0 <= x <= width
            invariant index == (y * depth + z) * width + x
            invariant forall i, j, k :: InBox(i, j, k, width, height, depth) && Before(j, k, i, y, z, x) ==>
              blocks[i, j, k] == CellOf(data, width, height, depth, i, j, k)
          {
            IndexBound(width, height, depth, x, y, z);
            assert index == Index(width, height, depth, x, y, z);
            blocks[x, y, z] := data[index];
            index := index + 1;
            x := x + 1;
          }
          RowStep(width, depth, y, z);
          z := z + 1;
        }
        LayerStep(width, depth, y);
        y := y + 1;
      }
      UnflattenOf(Cells(), data, width, height, depth);
    }

    /** Sets every cell of the clamped box spanned by the two corners, looping
        y, then z, then x; no other cell changes. */
    method FillCuboid(x1: int, y1: int, z1: int, x2: int, y2: int, z2: int, block: JByte)
      requires Valid()
      modifies blocks
      ensures forall i, j, k :: InBox(i, j, k, width, height, depth) ==>
        blocks[i, j, k] == if InCuboid(i, j, k, x1, y1, z1, x2, y2, z2, width, height, depth) then block
                           else old(blocks[i, j, k])
    {
      var minX, maxX := Lo(x1, x2), Hi(x1, x2, width);
      var minY, maxY := Lo(y1, y2), Hi(y1, y2, height);
      var minZ, maxZ := Lo(z1, z2), Hi(z1, z2, depth);
      var y := minY;
      while y <= maxY
        invariant minY <= y <= Max(minY, maxY + 1)
        invariant forall i, j, k :: InBox(i, j, k, width, height, depth) ==>
          blocks[i, j, k] == if InCuboid(i, j, k, x1, y1, z1, x2, y2, z2, width, height, depth) && j < y then block
                             else old(blocks[i, j, k])
      {
        var z := minZ;
        while z <= maxZ
          invariant minZ <= z <= Max(minZ, maxZ + 1)
          invariant forall i, j, k :: InBox(i, j, k, width, height, depth) ==>
            blocks[i, j, k] == if InCuboid(i, j, k, x1, y1, z1, x2, y2, z2, width, height, depth) && Before(j, k, 0, y, z, 0) then block
                               else old(blocks[i, j, k])
        {
          var x := minX;
          while x <= maxX
            invariant minX <= x <= Max(minX, maxX + 1)
            invariant forall i, j, k :: InBox(i, j, k, width, height, depth) ==>
              blocks[i, j, k] == if InCuboid(i, j, k, x1, y1, z1, x2, y2, z2, width, height, depth) && Before(j, k, i, y, z, x) then block
                                 else old(blocks[i, j, k])
          {
            SetBlock(x, y, z, block);
            x := x + 1;
          }
          z := z + 1;
        }
        y := y + 1;
      }
    }

    /** `clearArea`: fills the clamped box with air. */
    method ClearArea(x1: int, y1: int, z1: int, x2: int, y2: int, z2: int)
      requires Valid()
      modifies blocks
      ensures forall i, j, k :: InBox(i, j, k, width, height, depth) ==>
        blocks[i, j, k] == if InCuboid(i, j, k, x1, y1, z1, x2, y2, z2, width, height, depth) then Air
                           else old(blocks[i, j, k])
    {
      FillCuboid(x1, y1, z1, x2, y2, z2, Air);
    }

    /** The two loops of `createWalls`: the z = minZ and z = maxZ faces over the
        clamped x and y ranges, then the x = minX and x = maxX faces for z
        strictly between minZ and maxZ. Writes outside the level are dropped by
        `SetBlock`. */
    method CreateWalls(x1: int, y1: int, z1: int, x2: int, y2: int, z2: int, block: JByte)
      requires Valid()
      modifies blocks
      ensures forall i, j, k :: InBox(i, j, k, width, height, depth) ==>
        blocks[i, j, k] == if InWalls(i, j, k, x1, y1, z1, x2, y2, z2, width, height, depth) then block
                           else old(blocks[i, j, k])
    {
      var minX, maxX := Lo(x1, x2), Hi(x1, x2, width);
      var minY, maxY := Lo(y1, y2), Hi(y1, y2, height);
      var minZ, maxZ := Lo(z1, z2), Hi(z1, z2, depth);
      var x := minX;
      while x <= maxX
        invariant minX <= x <= Max(minX, maxX + 1)
        invariant forall i, j, k :: InBox(i, j, k, width, height, depth) ==>
          blocks[i, j, k] == if minY <= j <= maxY && minX <= i < x && (k == minZ || k == maxZ) then block
                             else old(blocks[i, j, k])
      {
        var y := minY;
        while y <= maxY
          invariant minY <= y <= Max(minY, maxY + 1)
          invariant forall i, j, k :: InBox(i, j, k, width, height, depth) ==>
            blocks[i, j, k] == if minY <= j <= maxY && (minX <= i < x || (i == x && j < y)) && (k == minZ || k == maxZ) then block
                               else old(blocks[i, j, k])
        {
          SetBlock(x, y, minZ, block);
          SetBlock(x, y, maxZ, block);
          y := y + 1;
        }
        x := x + 1;
      }
      var z := minZ + 1;
      while z < maxZ
        invariant minZ + 1 <= z <= Max(minZ + 1, maxZ)
        invariant forall i, j, k :: InBox(i, j, k, width, height, depth) ==>
          blocks[i, j, k] == if (minY <= j <= maxY && minX <= i <= maxX && (k == minZ || k == maxZ)) ||
                                (minY <= j <= maxY && minZ < k < z && (i == minX || i == maxX)) then block
                             else old(blocks[i, j, k])
      {
        var y := minY;
        while y <= maxY
          invariant minY <= y <= Max(minY, maxY + 1)
          invariant forall i, j, k :: InBox(i, j, k, width, height, depth) ==>
            blocks[i, j, k] == if (minY <= j <= maxY && minX <= i <= maxX && (k == minZ || k == maxZ)) ||
                                  (minY <= j <= maxY && (minZ < k < z || (k == z && j < y)) && (i == minX || i == maxX)) then block
                               else old(blocks[i, j, k])
        {
          SetBlock(minX, y, z, block);
          SetBlock(maxX, y, z, block);
          y := y + 1;
        }
        z := z + 1;
      }
    }

    /** Sets the level cells at height y whose offset from (centerX, centerZ)
        lies in the disc of the given radius. */
    method FillCircle(centerX: int, centerZ: int, y: int, radius: int, block: JByte)
      requires Valid()
      modifies blocks
      ensures forall i, j, k :: InBox(i, j, k, width, height, depth) ==>
        blocks[i, j, k] == if j == y && InDisc(i - centerX, k - centerZ, radius) then block
                           else old(blocks[i, j, k])
    {
      var rSquared := radius * radius;
      var ox := -radius;
      while ox <= radius
        invariant -radius <= ox <= Max(-radius, radius + 1)
        invariant forall i, j, k :: InBox(i, j, k, width, height, depth) ==>
          blocks[i, j, k] == if j == y && InDisc(i - centerX, k - centerZ, radius) && i - centerX < ox then block
                             else old(blocks[i, j, k])
      {
        var oz := -radius;
        while oz <= radius
          invariant -radius <= oz <= Max(-radius, radius + 1)
          invariant forall i, j, k :: InBox(i, j, k, width, height, depth) ==>
            blocks[i, j, k] == if j == y && InDisc(i - centerX, k - centerZ, radius) &&
                                  Before(i - centerX, k - centerZ, 0, ox, oz, 0) then block
                               else old(blocks[i, j, k])
        {
          if ox * ox + oz * oz <= rSquared {
            if IsInBounds(centerX + ox, y, centerZ + oz) {
              SetBlock(centerX + ox, y, centerZ + oz, block);
            }
          }
          oz := oz + 1;
        }
        ox := ox + 1;
      }
    }

    /** Sets the level cells whose offset from the centre lies in the ball of
        the given radius, looping x, then y, then z offsets. */
    method FillSphere(centerX: int, centerY: int, centerZ: int, radius: int, block: JByte)
      requires Valid()
      modifies blocks
      ensures forall i, j, k :: InBox(i, j, k, width, height, depth) ==>
        blocks[i, j, k] == if InBall(i - centerX, j - centerY, k - centerZ, radius) then block
                           else old(blocks[i, j, k])
    {
      var rSquared := radius * radius;
      var ox := -radius;
      while ox <= radius
        invariant -radius <= ox <= Max(-radius, radius + 1)
        invariant forall i, j, k :: InBox(i, j, k, width, height, depth) ==>
          blocks[i, j, k] == if InBall(i - centerX, j - centerY, k - centerZ, radius) && i - centerX < ox then block
                             else old(blocks[i, j, k])
      {
        var oy := -radius;
        while oy <= radius
          invariant -radius <= oy <= Max(-radius, radius + 1)
          invariant forall i, j, k :: InBox(i, j, k, width, height, depth) ==>
            blocks[i, j, k] == if InBall(i - centerX, j - centerY, k - centerZ, radius) &&
                                  Before(i - centerX, j - centerY, 0, ox, oy, 0) then block
                               else old(blocks[i, j, k])
        {
          var oz := -radius;
          while oz <= radius
            invariant -radius <= oz <= Max(-radius, radius + 1)
            invariant forall i, j, k :: InBox(i, j, k, width, height, depth) ==>
              blocks[i, j, k] == if InBall(i - centerX, j - centerY, k - centerZ, radius) &&
                                    Before(i - centerX, j - centerY, k - centerZ, ox, oy, oz) then block
                                 else old(blocks[i, j, k])
          {
            if ox * ox + oy * oy + oz * oz <= rSquared {
              if IsInBounds(centerX + ox, centerY + oy, centerZ + oz) {
                SetBlock(centerX + ox, centerY + oy, centerZ + oz, block);
              }
            }
            oz := oz + 1;
          }
          oy := oy + 1;
        }
        ox := ox + 1;
      }
    }

    /** Sets the level cells whose squared distance d2 from the centre
        satisfies (radius - 1)^2 < d2 <= radius^2. */
    method CreateHollowSphere(centerX: int, centerY: int, centerZ: int, radius: int, block: JByte)
      requires Valid()
      modifies blocks
      ensures forall i, j, k :: InBox(i, j, k, width, height, depth) ==>
        blocks[i, j, k] == if InShell(i - centerX, j - centerY, k - centerZ, radius) then block
                           else old(blocks[i, j, k])
    {
      var rSquared := radius * radius;
      var rSquaredMin := (radius - 1) * (radius - 1);
      var ox := -radius;
      while ox <= radius
        invariant -radius <= ox <= Max(-radius, radius + 1)
        invariant forall i, j, k :: InBox(i, j, k, width, height, depth) ==>
          blocks[i, j, k] == if InShell(i - centerX, j - centerY, k - centerZ, radius) && i - centerX < ox then block
                             else old(blocks[i, j, k])
      {
        var oy := -radius;
        while oy <= radius
          invariant -radius <= oy <= Max(-radius, radius + 1)
          invariant forall i, j, k :: InBox(i, j, k, width, height, depth) ==>
            blocks[i, j, k] == if InShell(i - centerX, j - centerY, k - centerZ, radius) &&
                                  Before(i - centerX, j - centerY, 0, ox, oy, 0) then block
                               else old(blocks[i, j, k])
        {
          var oz := -radius;
          while oz <= radius
            invariant -radius <= oz <= Max(-radius, radius + 1)
            invariant forall i, j, k :: InBox(i, j, k, width, height, depth) ==>
              blocks[i, j, k] == if InShell(i - centerX, j - centerY, k - centerZ, radius) &&
                                    Before(i - centerX, j - centerY, k - centerZ, ox, oy, oz) then block
                                 else old(blocks[i, j, k])
          {
            var distSquared := ox * ox + oy * oy + oz * oz;
            if distSquared <= rSquared && distSquared > rSquaredMin {
              if IsInBounds(centerX + ox, centerY + oy, centerZ + oz) {
                SetBlock(centerX + ox, centerY + oy, centerZ + oz, block);
              }
            }
            oz := oz + 1;
          }
          oy := oy + 1;
        }
        ox := ox + 1;
      }
    }

    /** `saveToFile` before gzip: the three dimensions, then the exported blocks. */
    method SaveToFile() returns (file: seq<Octet>)
      requires Valid()
      ensures file == FileBytes(width, height, depth, Flatten(Cells(), width, height, depth))
    {
      var data := GetBlockData();
      file := ShortBytes(width) + ShortBytes(height) + ShortBytes(depth) + Octets(data);
    }

    /** `loadFromFile` after gunzip: a new level of the stored dimensions
        holding the stored blocks, or the failure `ParseFile` names. */
    static method LoadFromFile(file: seq<Octet>) returns (r: Result<Level>)
      ensures r.Ok? <==> ParseFile(file).Ok?
      ensures r.Err? ==> r.reason == ParseFile(file).reason
      ensures r.Ok? ==>
        var f := ParseFile(file).value;
        var level := r.value;
        level.Valid() && fresh(level.blocks) &&
        level.width == f.width && level.height == f.height && level.depth == f.depth &&
        level.Cells() == Unflatten(f.data, f.width, f.height, f.depth)
    {
      var parsed := ParseFile(file);
      if parsed.Err? {
        return Err(parsed.reason);
      }
      var f := parsed.value;
      var level := new Level(f.width, f.height, f.depth);
      level.SetBlockData(f.data);
      assert f.data[..f.width * f.height * f.depth] == f.data;
      return Ok(level);
    }

    /** `createWalls` with an empty clamped box left alone: every cell written
        lies inside the box. */
    method CreateBoxWalls(x1: int, y1: int, z1: int, x2: int, y2: int, z2: int, block: JByte)
      requires Valid()
      modifies blocks
      ensures forall i, j, k :: InBox(i, j, k, width, height, depth) ==>
        blocks[i, j, k] == if InBoxWalls(i, j, k, x1, y1, z1, x2, y2, z2, width, height, depth) then block
                           else old(blocks[i, j, k])
    {
      if Lo(x1, x2) > Hi(x1, x2, width) || Lo(z1, z2) > Hi(z1, z2, depth) {
        return;
      }
      CreateWalls(x1, y1, z1, x2, y2, z2, block);
      forall i, j, k | InBox(i, j, k, width, height, depth)
        ensures InWalls(i, j, k, x1, y1, z1, x2, y2, z2, width, height, depth) ==
          InBoxWalls(i, j, k, x1, y1, z1, x2, y2, z2, width, height, depth)
      {
        WallsOfNonEmptyBox(i, j, k, x1, y1, z1, x2, y2, z2, width, height, depth);
      }
    }
  }
}
