// src/net/classicube/packets/cpe/MakeSelectionPacket.java: highlights a cuboid
// on the client. Writing stamps a class-wide counter into the selection and
// advances it. No opcode byte precedes the fields.

module NetMakeSelectionPacket {
  import opened JavaNum
  import opened JavaAwt
  import opened NetPacket
  import opened NetLocation

  /** The `BlockSelection` holder the packet reads and stamps. */
  /** The label is held in `caption`, since `label` is a Dafny keyword. */
  class BlockSelection {
    var point1: Location
    var point2: Location
    var outlineColor: Color
    var caption: string
    var selectionId: JByte

    constructor(point1: Location, point2: Location, outlineColor: Color, caption: string)
      ensures this.point1 == point1 && this.point2 == point2
      ensures this.outlineColor == outlineColor && this.caption == caption
      ensures selectionId == 0
    {
      this.point1, this.point2 := point1, point2;
      this.outlineColor, this.caption := outlineColor, caption;
      selectionId := 0;
    }
  }

  /** The static `selectionId` byte, shared by every MakeSelectionPacket. */
  class SelectionCounter {
    var selectionId: JByte

    constructor()
      ensures selectionId == 0
    {
      selectionId := 0;
    }
  }

  /** The counter step as written: a byte increment, then a reset when the byte
      exceeds 127, which a byte never does. */
  function NextSelectionId(b: JByte): JByte
  {
    var n := ToByte(b + 1);
    if n > 127 then ToByte(0) else n
  }

  /** The reset never fires: after 127 the counter goes to -128, not 0. */
  lemma CounterWrapsNegative(b: JByte)
    ensures NextSelectionId(b) == ToByte(b + 1)
    ensures NextSelectionId(127) == -128
  {
  }

  /** The step the comparison was meant to give: ids cycle through 0..127. */
  function NextSelectionIdCorrected(b: JByte): (n: JByte)
    ensures 0 <= b < 127 ==> n == b + 1
    ensures b == 127 ==> n == 0
    ensures 0 <= b <= 127 ==> 0 <= n <= 127
  {
    if b + 1 > 127 then 0 else b + 1
  }

  /** The twenty bytes after the label: the block coordinates of both corners,
      then the outline's red, green, blue and alpha, each as a big-endian short. */
  function Corners(point1: Location, point2: Location, color: Color): (r: seq<Octet>)
    ensures |r| == 20
  {
    ShortsBytes(CornerValues(point1, point2, color))
  }

  function CornerValues(point1: Location, point2: Location, color: Color): seq<int>
  {
    [point1.X(), point1.Y(), point1.Z(), point2.X(), point2.Y(), point2.Z(),
     color.red, color.green, color.blue, color.alpha]
  }

  /** Each short of the twenty bytes reads back as the value written there:
      the corners as signed shorts, the colour components as unsigned ones. */
  lemma CornersRoundTrip(point1: Location, point2: Location, color: Color)
    requires color.Valid()
    ensures var r := Corners(point1, point2, color);
      ShortAt(r, 0) == point1.X() && ShortAt(r, 2) == point1.Y() && ShortAt(r, 4) == point1.Z() &&
      ShortAt(r, 6) == point2.X() && ShortAt(r, 8) == point2.Y() && ShortAt(r, 10) == point2.Z() &&
      UShortAt(r, 12) == color.red && UShortAt(r, 14) == color.green &&
      UShortAt(r, 16) == color.blue && UShortAt(r, 18) == color.alpha
  {
    CornerPointsRoundTrip(point1, point2, color);
    CornerColorRoundTrip(point1, point2, color);
  }

  lemma CornerPointsRoundTrip(point1: Location, point2: Location, color: Color)
    ensures var r := Corners(point1, point2, color);
      ShortAt(r, 0) == point1.X() && ShortAt(r, 2) == point1.Y() && ShortAt(r, 4) == point1.Z() &&
      ShortAt(r, 6) == point2.X() && ShortAt(r, 8) == point2.Y() && ShortAt(r, 10) == point2.Z()
  {
    FirstCornerRoundTrip(point1, point2, color);
    SecondCornerRoundTrip(point1, point2, color);
  }

  lemma FirstCornerRoundTrip(point1: Location, point2: Location, color: Color)
    ensures var r := Corners(point1, point2, color);
      ShortAt(r, 0) == point1.X() && ShortAt(r, 2) == point1.Y() && ShortAt(r, 4) == point1.Z()
  {
    var v := CornerValues(point1, point2, color);
    ShortsAt(v, 0); ShortsAt(v, 1); ShortsAt(v, 2);
  }

  lemma SecondCornerRoundTrip(point1: Location, point2: Location, color: Color)
    ensures var r := Corners(point1, point2, color);
      ShortAt(r, 6) == point2.X() && ShortAt(r, 8) == point2.Y() && ShortAt(r, 10) == point2.Z()
  {
    var v := CornerValues(point1, point2, color);
    ShortsAt(v, 3); ShortsAt(v, 4); ShortsAt(v, 5);
  }

  lemma CornerColorRoundTrip(point1: Location, point2: Location, color: Color)
    requires color.Valid()
    ensures var r := Corners(point1, point2, color);
      UShortAt(r, 12) == color.red && UShortAt(r, 14) == color.green &&
      UShortAt(r, 16) == color.blue && UShortAt(r, 18) == color.alpha
  {
    var v := CornerValues(point1, point2, color);
    ShortsAt(v, 6); ShortsAt(v, 7); ShortsAt(v, 8); ShortsAt(v, 9);
  }

  /** Values written one after another as big-endian shorts. */
  function ShortsBytes(v: seq<int>): (r: seq<Octet>)
    ensures |r| == 2 * |v|
  {
    if v == [] then [] else ShortBytes(v[0]) + ShortsBytes(v[1..])
  }

  /** The i-th short of `ShortsBytes` reads back as the i-th value. */
  lemma {:induction false} ShortsAt(v: seq<int>, i: nat)
    requires i < |v| && -0x8000 <= v[i] < 0x1_0000
    ensures v[i] < 0x8000 ==> ShortAt(ShortsBytes(v), 2 * i) == v[i]
    ensures v[i] >= 0 ==> UShortAt(ShortsBytes(v), 2 * i) == v[i]
  {
    if i == 0 {
      if v[0] < 0x8000 {
        ShortAtIn([], v[0], ShortsBytes(v[1..]));
      }
      if v[0] >= 0 {
        UShortAtIn([], v[0], ShortsBytes(v[1..]));
      }
      assert ShortsBytes(v) == [] + ShortBytes(v[0]) + ShortsBytes(v[1..]);
    } else {
      ShortsAt(v[1..], i - 1);
      var t := ShortsBytes(v[1..]);
      assert ShortsBytes(v) == ShortBytes(v[0]) + t;
      assert ShortsBytes(v)[2 * i] == t[2 * (i - 1)];
      assert ShortsBytes(v)[2 * i + 1] == t[2 * (i - 1) + 1];
    }
  }

  /** The bytes `write` emits for a selection stamped with `id`: the id, the
      64-byte label, then the corners and the colour: 85 bytes. */
  function Layout(id: JByte, caption: string, point1: Location, point2: Location, color: Color): (r: seq<Octet>)
    requires color.Valid()
    ensures |r| == 1 + StringWidth + 20
    ensures r[1..1 + StringWidth] == WriteString(caption)
    ensures r[1 + StringWidth..] == Corners(point1, point2, color)
  {
    var r := ByteBytes(id) + WriteString(caption) + Corners(point1, point2, color);
    ThreeParts(ByteBytes(id), WriteString(caption), Corners(point1, point2, color));
    r
  }

  /** Slicing a three-part concatenation recovers each part. */
  lemma ThreeParts(a: seq<Octet>, b: seq<Octet>, c: seq<Octet>)
    ensures (a + b + c)[..|a|] == a
    ensures (a + b + c)[|a|..|a| + |b|] == b
    ensures (a + b + c)[|a| + |b|..] == c
  {
  }

  /** The id reads back from the first byte, and a label that fits the 64-byte
      field reads back from the bytes after it. */
  lemma LayoutRoundTrip(id: JByte, caption: string, point1: Location, point2: Location, color: Color)
    requires color.Valid()
    ensures ByteAt(Layout(id, caption, point1, point2, color), 0) == id
    ensures Fits(caption) ==> ReadString(Layout(id, caption, point1, point2, color)[1..1 + StringWidth]) == caption
  {
    var r := Layout(id, caption, point1, point2, color);
    ByteRoundTrip(id);
    assert r[0] == ByteBytes(id)[0];
    assert ByteAt(r, 0) == ByteAt(ByteBytes(id), 0);
    if Fits(caption) {
      StringRoundTrip(caption);
    }
  }

  class MakeSelectionPacket {
    const blockSelection: BlockSelection

    constructor(blockSelection: BlockSelection)
      ensures this.blockSelection == blockSelection
    {
      this.blockSelection := blockSelection;
    }

    /** `write`: stamps the counter into the selection, emits the selection with
        that id, then advances the counter once. */
    method Write(counter: SelectionCounter) returns (r: seq<Octet>)
      requires blockSelection.outlineColor.Valid()
      modifies blockSelection, counter
      ensures blockSelection.caption == old(blockSelection.caption)
      ensures blockSelection.point1 == old(blockSelection.point1)
      ensures blockSelection.point2 == old(blockSelection.point2)
      ensures blockSelection.outlineColor == old(blockSelection.outlineColor)
      ensures blockSelection.selectionId == old(counter.selectionId)
      ensures counter.selectionId == NextSelectionId(old(counter.selectionId))
      ensures r == Layout(old(counter.selectionId), blockSelection.caption,
        blockSelection.point1, blockSelection.point2, blockSelection.outlineColor)
    {
      blockSelection.selectionId := counter.selectionId;
      r := Layout(counter.selectionId, blockSelection.caption,
        blockSelection.point1, blockSelection.point2, blockSelection.outlineColor);
      counter.selectionId := NextSelectionId(counter.selectionId);
    }
  }
}
