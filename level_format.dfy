// The flat block layout and the level file format shared by both `Level`
// classes. A grid indexed [x][y][z] is exported with y outermost, then z,
// then x, so cell (x, y, z) sits at index (y * depth + z) * width + x. A level
// file (before gzip) is the three dimensions as big-endian 16-bit values
// followed by the exported blocks.

module LevelFormat {
  import opened JavaNum
  import opened Wrappers

  /** A grid of block ids, indexed g[x][y][z]. */
  type Grid = seq<seq<seq<JByte>>>

  predicate Shaped(g: Grid, w: nat, h: nat, d: nat) {
    |g| == w &&
    (forall x :: 0 <= x < w ==> |g[x]| == h) &&
    (forall x, y :: 0 <= x < w && 0 <= y < h ==> |g[x][y]| == d)
  }

  /** Cell (x, y, z) lies inside a w x h x d level. */
  predicate InBox(x: int, y: int, z: int, w: int, h: int, d: int) {
    0 <= x < w && 0 <= y < h && 0 <= z < d
  }

  /** Lexicographic order on loop positions, used to say which cells a loop has visited. */
  predicate Before(a1: int, a2: int, a3: int, b1: int, b2: int, b3: int) {
    a1 < b1 || (a1 == b1 && (a2 < b2 || (a2 == b2 && a3 < b3)))
  }

  // ---- arithmetic facts about the layout ----

  lemma MulMono(a: int, b: int, c: int)
    requires a <= b && c >= 0
    ensures a * c <= b * c
  {
    assert b * c - a * c == (b - a) * c;
  }

  lemma MulSign(k: int, w: int)
    requires w > 0
    ensures k >= 1 ==> k * w >= w
    ensures k <= -1 ==> k * w <= -w
  {
    if k >= 1 {
      MulMono(1, k, w);
    }
    if k <= -1 {
      MulMono(k, -1, w);
    }
  }

  /** Division and remainder are determined by q * w + r with 0 <= r < w. */
  lemma DivModOf(q: int, r: int, w: int)
    requires w > 0 && 0 <= r < w
    ensures (q * w + r) / w == q && (q * w + r) % w == r
  {
    var a := q * w + r;
    var q', r' := a / w, a % w;
    assert a == q' * w + r';
    assert (q - q') * w == r' - r;
    MulSign(q - q', w);
  }

  lemma DivLess(a: int, w: int, n: int)
    requires w > 0 && 0 <= a < n * w
    ensures 0 <= a / w < n
  {
    var q := a / w;
    assert q * w <= a;
    assert (q - n) * w < 0;
    MulSign(q - n, w);
  }

  /** Where cell (x, y, z) sits in the flat export. */
  function Index(w: nat, h: nat, d: nat, x: nat, y: nat, z: nat): nat
  {
    (y * d + z) * w + x
  }

  lemma IndexBound(w: nat, h: nat, d: nat, x: nat, y: nat, z: nat)
    requires x < w && y < h && z < d
    ensures Index(w, h, d, x, y, z) < w * h * d
  {
    MulMono(y, h - 1, d);
    MulMono(y * d + z + 1, h * d, w);
    Volume(w, h, d);
  }

  lemma Volume(w: nat, h: nat, d: nat)
    ensures w * h * d == (h * d) * w
  {
  }

  lemma PositiveFactors(w: nat, h: nat, d: nat)
    requires w * h * d > 0
    ensures w > 0 && h > 0 && d > 0
  {
    if w == 0 || h == 0 || d == 0 {
      assert w * h == 0 || d == 0;
    }
  }

  /** The cell that sits at flat index i. */
  lemma Decompose(w: nat, h: nat, d: nat, i: nat)
    requires i < w * h * d
    ensures w > 0 && d > 0
    ensures 0 <= i / w && 0 <= i % w < w
    ensures 0 <= (i / w) / d < h && 0 <= (i / w) % d < d
    ensures Index(w, h, d, i % w, (i / w) / d, (i / w) % d) == i
  {
    PositiveFactors(w, h, d);
    Volume(w, h, d);
    var q, x := i / w, i % w;
    DivLess(i, w, h * d);
    DivLess(q, d, h);
    var y, z := q / d, q % d;
    assert q == y * d + z;
    assert i == q * w + x;
  }

  /** Flat index i of a cell gives the cell back. */
  lemma Compose(w: nat, h: nat, d: nat, x: nat, y: nat, z: nat)
    requires x < w && y < h && z < d
    ensures var i := Index(w, h, d, x, y, z);
      i % w == x && (i / w) / d == y && (i / w) % d == z
  {
    DivModOf(y * d + z, x, w);
    DivModOf(y, z, d);
  }

  /** `getBlockData`'s order: y outermost, then z, then x. */
  function Flatten(g: Grid, w: nat, h: nat, d: nat): (r: seq<JByte>)
    requires Shaped(g, w, h, d)
    ensures |r| == w * h * d
  {
    seq(w * h * d, i requires 0 <= i < w * h * d =>
      Decompose(w, h, d, i);
      g[i % w][(i / w) / d][(i / w) % d])
  }

  /** The block a flat array holds for cell (x, y, z). */
  function CellOf(a: seq<JByte>, w: nat, h: nat, d: nat, x: nat, y: nat, z: nat): JByte
    requires |a| >= w * h * d && x < w && y < h && z < d
  {
    IndexBound(w, h, d, x, y, z);
    a[Index(w, h, d, x, y, z)]
  }

  /** The grid that `setBlockData` builds from a flat array. */
  function Unflatten(a: seq<JByte>, w: nat, h: nat, d: nat): (g: Grid)
    requires |a| == w * h * d
    ensures Shaped(g, w, h, d)
  {
    seq(w, x requires 0 <= x < w =>
      seq(h, y requires 0 <= y < h =>
        seq(d, z requires 0 <= z < d => CellOf(a, w, h, d, x, y, z))))
  }

  lemma FlattenAt(g: Grid, w: nat, h: nat, d: nat, x: nat, y: nat, z: nat)
    requires Shaped(g, w, h, d) && x < w && y < h && z < d
    ensures Index(w, h, d, x, y, z) < w * h * d
    ensures Flatten(g, w, h, d)[Index(w, h, d, x, y, z)] == g[x][y][z]
  {
    IndexBound(w, h, d, x, y, z);
    Compose(w, h, d, x, y, z);
  }

  /** Two grids of one shape that agree on every cell are equal. */
  lemma GridExt(g1: Grid, g2: Grid, w: nat, h: nat, d: nat)
    requires Shaped(g1, w, h, d) && Shaped(g2, w, h, d)
    requires forall x, y, z :: 0 <= x < w && 0 <= y < h && 0 <= z < d ==> g1[x][y][z] == g2[x][y][z]
    ensures g1 == g2
  {
    forall x | 0 <= x < w
      ensures g1[x] == g2[x]
    {
      forall y | 0 <= y < h
        ensures g1[x][y] == g2[x][y]
      {
      }
    }
  }

  /** Importing an exported grid gives the grid back. */
  lemma UnflattenFlatten(g: Grid, w: nat, h: nat, d: nat)
    requires Shaped(g, w, h, d)
    ensures Unflatten(Flatten(g, w, h, d), w, h, d) == g
  {
    var g' := Unflatten(Flatten(g, w, h, d), w, h, d);
    forall x, y, z | 0 <= x < w && 0 <= y < h && 0 <= z < d
      ensures g'[x][y][z] == g[x][y][z]
    {
      FlattenAt(g, w, h, d, x, y, z);
    }
    GridExt(g', g, w, h, d);
  }

  lemma UnflattenAt(a: seq<JByte>, w: nat, h: nat, d: nat, x: nat, y: nat, z: nat)
    requires |a| == w * h * d && x < w && y < h && z < d
    ensures Unflatten(a, w, h, d)[x][y][z] == CellOf(a, w, h, d, x, y, z)
  {
  }

  /** A grid whose every cell is the one `CellOf` picks is the imported grid. */
  lemma UnflattenOf(g: Grid, a: seq<JByte>, w: nat, h: nat, d: nat)
    requires Shaped(g, w, h, d) && |a| >= w * h * d
    requires forall x, y, z :: 0 <= x < w && 0 <= y < h && 0 <= z < d ==> g[x][y][z] == CellOf(a, w, h, d, x, y, z)
    ensures g == Unflatten(a[..w * h * d], w, h, d)
  {
    var n := w * h * d;
    var g' := Unflatten(a[..n], w, h, d);
    forall x, y, z | 0 <= x < w && 0 <= y < h && 0 <= z < d
      ensures g[x][y][z] == g'[x][y][z]
    {
      IndexBound(w, h, d, x, y, z);
      UnflattenAt(a[..n], w, h, d, x, y, z);
    }
    GridExt(g, g', w, h, d);
  }

  lemma FlattenUnflattenAt(a: seq<JByte>, w: nat, h: nat, d: nat, i: nat)
    requires |a| == w * h * d && i < |a|
    ensures Flatten(Unflatten(a, w, h, d), w, h, d)[i] == a[i]
  {
    var g := Unflatten(a, w, h, d);
    Decompose(w, h, d, i);
    var x, y, z := i % w, (i / w) / d, (i / w) % d;
    assert x < w && y < h && z < d;
    assert |g[x]| == h;
    assert |g[x][y]| == d;
    assert Flatten(g, w, h, d)[i] == g[x][y][z];
    UnflattenAt(a, w, h, d, x, y, z);
  }

  /** Exporting an imported array gives the array back. */
  lemma FlattenUnflatten(a: seq<JByte>, w: nat, h: nat, d: nat)
    requires |a| == w * h * d
    ensures Flatten(Unflatten(a, w, h, d), w, h, d) == a
  {
    forall i | 0 <= i < |a|
      ensures Flatten(Unflatten(a, w, h, d), w, h, d)[i] == a[i]
    {
      FlattenUnflattenAt(a, w, h, d, i);
    }
  }

  /** Loop-step arithmetic of the export and import loops. */
  lemma RowStep(w: nat, d: nat, y: nat, z: nat)
    ensures (y * d + z) * w + w == (y * d + z + 1) * w
  {
  }

  lemma LayerStep(w: nat, d: nat, y: nat)
    ensures (y * d + d) * w == (y + 1) * d * w
    ensures (y * d + 0) * w == y * d * w
  {
  }

  /** Java arrays are indexed by `int`: a level has fewer than 2^31 cells. */
  const MaxCells := 0x8000_0000

  /** The number of cells of a width x height x depth level. */
  function CellCount(w: nat, h: nat, d: nat): nat
  {
    w * h * d
  }

  /** The contents of a level file once gzip is undone. */
  datatype LevelFile = LevelFile(width: nat, height: nat, depth: nat, data: seq<JByte>)

  /** What `saveToFile` writes: `writeShort` of each dimension, then the blocks. */
  function FileBytes(w: int, h: int, d: int, data: seq<JByte>): (r: seq<Octet>)
    ensures |r| == 6 + |data|
  {
    ShortBytes(w) + ShortBytes(h) + ShortBytes(d) + Octets(data)
  }

  /** What `loadFromFile` accepts: the dimensions are read as unsigned 16-bit
      values, then `readFully` needs width * height * depth more bytes. A
      product of 2^31 or more overflows `int` and fails (negative array size,
      or an index out of bounds in `setBlockData`). */
  function ParseFile(file: seq<Octet>): (r: Result<LevelFile>)
    ensures r.Ok? ==> |r.value.data| == r.value.width * r.value.height * r.value.depth
  {
    if |file| < 6 then Err("EOF")
    else
      var w, h, d := UShortAt(file, 0), UShortAt(file, 2), UShortAt(file, 4);
      var n := CellCount(w, h, d);
      if n >= MaxCells then Err("array size")
      else if |file| < 6 + n then Err("EOF")
      else Ok(LevelFile(w, h, d, JBytes(file[6..6 + n])))
  }

  /** Loading what was saved gives back the dimensions and the blocks. */
  lemma FileRoundTrip(w: nat, h: nat, d: nat, data: seq<JByte>)
    requires w < 0x1_0000 && h < 0x1_0000 && d < 0x1_0000
    requires |data| == w * h * d < MaxCells
    ensures ParseFile(FileBytes(w, h, d, data)) == Ok(LevelFile(w, h, d, data))
  {
    var file := FileBytes(w, h, d, data);
    UShortRoundTrip(w);
    UShortRoundTrip(h);
    UShortRoundTrip(d);
    assert file[0..2] == ShortBytes(w);
    assert file[2..4] == ShortBytes(h);
    assert file[4..6] == ShortBytes(d);
    assert UShortAt(file, 0) == w && UShortAt(file, 2) == h && UShortAt(file, 4) == d;
    assert file[6..6 + |data|] == Octets(data);
    BytesRoundTrip(data);
  }

  /** A file shorter than its header promises is refused. */
  lemma TruncatedFileFails(file: seq<Octet>)
    requires |file| >= 6
    requires |file| < 6 + UShortAt(file, 0) * UShortAt(file, 2) * UShortAt(file, 4)
    ensures ParseFile(file).Err?
  {
  }

  /** Saving a grid and loading the file gives back the dimensions and the grid. */
  lemma SaveLoadRoundTrip(g: Grid, w: nat, h: nat, d: nat)
    requires Shaped(g, w, h, d)
    requires w < 0x1_0000 && h < 0x1_0000 && d < 0x1_0000 && w * h * d < MaxCells
    ensures var r := ParseFile(FileBytes(w, h, d, Flatten(g, w, h, d)));
      r.Ok? && r.value.width == w && r.value.height == h && r.value.depth == d &&
      Unflatten(r.value.data, w, h, d) == g
  {
    FileRoundTrip(w, h, d, Flatten(g, w, h, d));
    UnflattenFlatten(g, w, h, d);
  }
}
