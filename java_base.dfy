// Semantics of the JDK pieces the server relies on: Java's fixed-width
// integers and their casts, the big-endian encodings of DataOutputStream and
// DataInputStream, and the String operations used by the protocol code.

module Wrappers {
  datatype Option<T> = None | Some(value: T)

  /** An operation that either succeeds with a value or fails with a reason
      (a Java exception or an early error return). */
  datatype Result<T> = Ok(value: T) | Err(reason: string)
}

module JavaNum {
  /** One byte on the wire, as an unsigned value. */
  type Octet = b: int | 0 <= b < 0x100
  /** Java `byte`. */
  type JByte = b: int | -0x80 <= b < 0x80
  /** Java `short`. */
  type JShort = s: int | -0x8000 <= s < 0x8000
  /** Java `int`. */
  type JInt = i: int | -0x8000_0000 <= i < 0x8000_0000

  /** What a `DataInputStream` read throws when the input ends first. */
  const EndOfStream: string := "EOFException"

  /** The narrowing cast `(byte) n`: the low 8 bits read as two's complement. */
  function ToByte(n: int): (b: JByte)
    ensures (n - b) % 0x100 == 0
    ensures -0x80 <= n < 0x80 ==> b == n
  {
    var u := n % 0x100;
    if u < 0x80 then u else u - 0x100
  }

  /** The narrowing cast `(short) n`. */
  function ToShort(n: int): (s: JShort)
    ensures (n - s) % 0x1_0000 == 0
    ensures -0x8000 <= n < 0x8000 ==> s == n
  {
    var u := n % 0x1_0000;
    if u < 0x8000 then u else u - 0x1_0000
  }

  /** Wrap-around of 32-bit `int` arithmetic. */
  function ToInt(n: int): (i: JInt)
    ensures (n - i) % 0x1_0000_0000 == 0
    ensures -0x8000_0000 <= n < 0x8000_0000 ==> i == n
  {
    var u := n % 0x1_0000_0000;
    if u < 0x8000_0000 then u else u - 0x1_0000_0000
  }

  /** `n & 0xFF`: the low 8 bits as an unsigned value. */
  function Low8(n: int): (u: Octet)
    ensures (n - u) % 0x100 == 0
  {
    n % 0x100
  }

  /** Java's `/` on a positive divisor: truncates toward zero. */
  function JavaDiv(a: int, b: int): (q: int)
    requires b > 0
    ensures a >= 0 ==> q == a / b
    ensures a < 0 ==> q == -((-a) / b)
  {
    if a >= 0 then a / b else -((-a) / b)
  }

  /** `DataOutputStream.writeByte(v)`: the low 8 bits. */
  function ByteBytes(v: int): (r: seq<Octet>)
    ensures |r| == 1
  {
    [v % 0x100]
  }

  /** `DataOutputStream.writeShort(v)`: the low 16 bits, high byte first. */
  function ShortBytes(v: int): (r: seq<Octet>)
    ensures |r| == 2
  {
    var u := v % 0x1_0000;
    [u / 0x100, u % 0x100]
  }

  /** `DataOutputStream.writeInt(v)`: the low 32 bits, high byte first. */
  function IntBytes(v: int): (r: seq<Octet>)
    ensures |r| == 4
  {
    var u := v % 0x1_0000_0000;
    var hi, lo := u / 0x1_0000, u % 0x1_0000;
    [hi / 0x100, hi % 0x100, lo / 0x100, lo % 0x100]
  }

  /** `DataInputStream.readByte()` at offset i. */
  function ByteAt(s: seq<Octet>, i: nat): JByte
    requires i < |s|
  {
    ToByte(s[i])
  }

  /** `DataInputStream.readUnsignedShort()` at offset i (what `readShort() & 0xFFFF` gives). */
  function UShortAt(s: seq<Octet>, i: nat): (u: int)
    requires i + 2 <= |s|
    ensures 0 <= u < 0x1_0000
  {
    (s[i] as int) * 0x100 + s[i + 1]
  }

  /** `DataInputStream.readShort()` at offset i. */
  function ShortAt(s: seq<Octet>, i: nat): JShort
    requires i + 2 <= |s|
  {
    ToShort(UShortAt(s, i))
  }

  /** `DataInputStream.readInt()` at offset i. */
  function IntAt(s: seq<Octet>, i: nat): JInt
    requires i + 4 <= |s|
  {
    ToInt((((s[i] as int) * 0x100 + s[i + 1]) * 0x100 + s[i + 2]) * 0x100 + s[i + 3])
  }

  /** The signed bytes of a Java `byte[]` as they go onto the wire. */
  function Octets(b: seq<JByte>): (r: seq<Octet>)
    ensures |r| == |b|
    ensures forall i :: 0 <= i < |b| ==> r[i] == (b[i] as int) % 0x100
  {
    seq(|b|, i requires 0 <= i < |b| => (b[i] as int) % 0x100)
  }

  /** The signed bytes that `readFully` stores for wire bytes. */
  function JBytes(s: seq<Octet>): (r: seq<JByte>)
    ensures |r| == |s|
    ensures forall i :: 0 <= i < |s| ==> r[i] == ToByte(s[i])
  {
    seq(|s|, i requires 0 <= i < |s| => ToByte(s[i]))
  }

  lemma ByteRoundTrip(v: JByte)
    ensures ByteAt(ByteBytes(v), 0) == v
  {
  }

  lemma ShortRoundTrip(v: JShort)
    ensures ShortAt(ShortBytes(v), 0) == v
  {
  }

  lemma UShortRoundTrip(v: int)
    requires 0 <= v < 0x1_0000
    ensures UShortAt(ShortBytes(v), 0) == v
  {
  }

  lemma IntRoundTrip(v: JInt)
    ensures IntAt(IntBytes(v), 0) == v
  {
    var u := v % 0x1_0000_0000;
    var hi, lo := u / 0x1_0000, u % 0x1_0000;
    var b := IntBytes(v);
    assert (b[0] as int) * 0x100 + b[1] == hi;
    assert (b[2] as int) * 0x100 + b[3] == lo;
    assert u == hi * 0x1_0000 + lo;
    calc {
      (((b[0] as int) * 0x100 + b[1]) * 0x100 + b[2]) * 0x100 + b[3];
      hi * 0x1_0000 + (b[2] as int) * 0x100 + b[3];
      u;
    }
  }

  /** Writing back a byte that was read reproduces the wire byte. */
  lemma ByteBytesOfByteAt(s: seq<Octet>, i: nat)
    requires i < |s|
    ensures ByteBytes(ByteAt(s, i)) == s[i..i + 1]
  {
  }

  /** Writing back a short that was read reproduces the two wire bytes. */
  lemma ShortBytesOfShortAt(s: seq<Octet>, i: nat)
    requires i + 2 <= |s|
    ensures ShortBytes(ShortAt(s, i)) == s[i..i + 2]
  {
  }

  /** A short written in the middle of a stream reads back at its offset. */
  lemma ShortAtIn(a: seq<Octet>, v: JShort, b: seq<Octet>)
    ensures ShortAt(a + ShortBytes(v) + b, |a|) == v
  {
    var s := a + ShortBytes(v) + b;
    assert s[|a|] == ShortBytes(v)[0] && s[|a| + 1] == ShortBytes(v)[1];
    ShortRoundTrip(v);
  }

  /** The unsigned form of `ShortAtIn`, for values 0..65535. */
  lemma UShortAtIn(a: seq<Octet>, v: int, b: seq<Octet>)
    requires 0 <= v < 0x1_0000
    ensures UShortAt(a + ShortBytes(v) + b, |a|) == v
  {
    var s := a + ShortBytes(v) + b;
    assert s[|a|] == ShortBytes(v)[0] && s[|a| + 1] == ShortBytes(v)[1];
    UShortRoundTrip(v);
  }

  lemma BytesRoundTrip(b: seq<JByte>)
    ensures JBytes(Octets(b)) == b
  {
  }

  lemma OctetsRoundTrip(s: seq<Octet>)
    ensures Octets(JBytes(s)) == s
  {
  }
}

module JavaText {
  import opened JavaNum

  predicate IsAscii(s: string) {
    forall i :: 0 <= i < |s| ==> s[i] as int < 0x80
  }

  /** The UTF-8 encoding of one Unicode scalar value. */
  function Utf8Char(c: char): (r: seq<Octet>)
    ensures 1 <= |r| <= 4
    ensures |r| == 1 <==> c as int < 0x80
  {
    var n := c as int;
    if n < 0x80 then [n]
    else if n < 0x800 then [0xC0 + n / 0x40, 0x80 + n % 0x40]
    else if n < 0x1_0000 then [0xE0 + n / 0x1000, 0x80 + (n / 0x40) % 0x40, 0x80 + n % 0x40]
    else [0xF0 + n / 0x4_0000, 0x80 + (n / 0x1000) % 0x40, 0x80 + (n / 0x40) % 0x40, 0x80 + n % 0x40]
  }

  /** `s.getBytes(UTF_8)`. */
  function Utf8(s: string): seq<Octet>
  {
    if s == [] then [] else Utf8Char(s[0]) + Utf8(s[1..])
  }

  lemma {:induction false} Utf8Ascii(s: string)
    requires IsAscii(s)
    ensures |Utf8(s)| == |s|
    ensures forall i :: 0 <= i < |s| ==> Utf8(s)[i] == s[i] as int
  {
    if s != [] {
      Utf8Ascii(s[1..]);
    }
  }

  /** `new String(bytes, UTF_8)`, exact on ASCII bytes; every other byte is
      decoded to the replacement character U+FFFD. */
  function Decode(b: seq<Octet>): (r: string)
    ensures |r| == |b|
  {
    seq(|b|, i requires 0 <= i < |b| => if b[i] < 0x80 then b[i] as char else '�')
  }

  lemma DecodeAscii(s: string)
    requires IsAscii(s)
    ensures Decode(Utf8(s)) == s
  {
    Utf8Ascii(s);
  }

  /** Number of leading characters `String.trim` removes (code point <= U+0020). */
  function LeadingBlanks(s: string): (k: nat)
    ensures k <= |s|
    ensures forall i :: 0 <= i < k ==> s[i] <= ' '
    ensures k < |s| ==> s[k] > ' '
  {
    if s != [] && s[0] <= ' ' then 1 + LeadingBlanks(s[1..]) else 0
  }

  /** Number of trailing characters `String.trim` removes. */
  function TrailingBlanks(s: string): (k: nat)
    ensures k <= |s|
    ensures forall i :: |s| - k <= i < |s| ==> s[i] <= ' '
    ensures k < |s| ==> s[|s| - 1 - k] > ' '
  {
    if s != [] && s[|s| - 1] <= ' ' then 1 + TrailingBlanks(s[..|s| - 1]) else 0
  }

  /** `String.trim()`: drops leading and trailing characters <= U+0020. */
  function Trim(s: string): (r: string)
    ensures |r| <= |s|
    ensures r == [] || (r[0] > ' ' && r[|r| - 1] > ' ')
  {
    var rest := s[LeadingBlanks(s)..];
    rest[..|rest| - TrailingBlanks(rest)]
  }

  /** No leading or trailing character that `trim` would remove. */
  predicate IsTrimmed(s: string) {
    s == [] || (s[0] > ' ' && s[|s| - 1] > ' ')
  }

  function Nuls(n: nat): (r: string)
    ensures |r| == n && forall i :: 0 <= i < n ==> r[i] == '\0'
  {
    seq(n, _ => '\0')
  }

  lemma TrailingOfPadded(s: string, n: nat)
    requires s != [] && s[|s| - 1] > ' '
    ensures TrailingBlanks(s + Nuls(n)) == n
  {
    var t := s + Nuls(n);
    assert forall i :: |s| <= i < |t| ==> t[i] == '\0';
    assert t[|t| - 1 - n] == s[|s| - 1];
  }

  /** Trimming a trimmed text padded with NULs gives back the text. */
  lemma TrimPadded(s: string, n: nat)
    requires IsTrimmed(s)
    ensures Trim(s + Nuls(n)) == s
  {
    var t := s + Nuls(n);
    if s == [] {
      assert t == Nuls(n);
      assert LeadingBlanks(t) == |t|;
    } else {
      assert t[0] == s[0];
      assert LeadingBlanks(t) == 0;
      assert t[0..] == t;
      TrailingOfPadded(s, n);
      assert t[..|t| - n] == s;
    }
  }

  lemma TrimOfTrimmed(s: string)
    requires IsTrimmed(s)
    ensures Trim(s) == s
  {
    TrimPadded(s, 0);
    assert s + Nuls(0) == s;
  }

  /** Java's `toLowerCase` on the ASCII letters. */
  function LowerChar(c: char): (r: char)
    ensures 'A' <= c <= 'Z' ==> r as int == c as int + 32
    ensures !('A' <= c <= 'Z') ==> r == c
  {
    if 'A' <= c <= 'Z' then (c as int + 32) as char else c
  }

  function Lower(s: string): (r: string)
    ensures |r| == |s|
    ensures forall i :: 0 <= i < |s| ==> r[i] == LowerChar(s[i])
  {
    seq(|s|, i requires 0 <= i < |s| => LowerChar(s[i]))
  }

  lemma LowerIdempotent(s: string)
    ensures Lower(Lower(s)) == Lower(s)
  {
  }

  /** `a.equalsIgnoreCase(b)` */
  predicate EqualsIgnoreCase(a: string, b: string) {
    Lower(a) == Lower(b)
  }

  /** `s.startsWith(p)` */
  predicate StartsWith(s: string, p: string) {
    |p| <= |s| && s[..|p|] == p
  }
}

module JavaEnum {
  import opened Wrappers

  /** The linear search the enum lookups (`getById`, `fromId`, `fromValue`)
      perform over `values()`: the index of the first declared constant whose
      id matches, or None. */
  function IndexOf(ids: seq<int>, id: int): (r: Option<nat>)
    ensures r.Some? ==> r.value < |ids| && ids[r.value] == id
    ensures r.Some? ==> forall j :: 0 <= j < r.value ==> ids[j] != id
    ensures r.None? <==> forall j :: 0 <= j < |ids| ==> ids[j] != id
  {
    if ids == [] then None
    else if ids[0] == id then Some(0)
    else match IndexOf(ids[1..], id) {
      case None => None
      case Some(i) => Some(i + 1)
    }
  }

  predicate Distinct(ids: seq<int>) {
    forall i, j :: 0 <= i < j < |ids| ==> ids[i] != ids[j]
  }

  /** With distinct ids, the search finds each constant at its own position. */
  lemma IndexOfDistinct(ids: seq<int>, k: nat)
    requires Distinct(ids) && k < |ids|
    ensures IndexOf(ids, ids[k]) == Some(k)
  {
  }
}

module JavaAwt {
  /** `java.awt.Color`: four components, each 0..255. */
  datatype Color = Color(red: int, green: int, blue: int, alpha: int)
  {
    predicate Valid() {
      0 <= red < 0x100 && 0 <= green < 0x100 && 0 <= blue < 0x100 && 0 <= alpha < 0x100
    }
  }
}

module JavaSplit {
  import opened Wrappers
  import opened JavaText

  /** `sep` occurs in `s` at position j. */
  predicate OccursAt(s: string, sep: string, j: nat)
  {
    j + |sep| <= |s| && s[j..j + |sep|] == sep
  }

  lemma OccursShift(s: string, sep: string, j: nat)
    requires s != []
    ensures OccursAt(s, sep, j + 1) == OccursAt(s[1..], sep, j)
  {
    if j + 1 + |sep| <= |s| {
      assert s[j + 1..j + 1 + |sep|] == s[1..][j..j + |sep|];
    }
  }

  /** `s.indexOf(sep)`: the first position where `sep` occurs. */
  function Find(s: string, sep: string): (r: Option<nat>)
    requires sep != []
    ensures r.Some? ==> OccursAt(s, sep, r.value)
    ensures r.Some? ==> forall j: nat :: j < r.value ==> !OccursAt(s, sep, j)
    ensures r.None? ==> forall j: nat :: !OccursAt(s, sep, j)
    decreases |s|
  {
    if |s| < |sep| then None
    else if s[..|sep|] == sep then Some(0)
    else match Find(s[1..], sep) {
      case None =>
        forall j: nat
          ensures !OccursAt(s, sep, j)
        {
          if j == 0 {
            assert s[0..|sep|] == s[..|sep|];
          } else {
            OccursShift(s, sep, j - 1);
          }
        }
        None
      case Some(i) =>
        OccursShift(s, sep, i);
        forall j: nat | j < i + 1
          ensures !OccursAt(s, sep, j)
        {
          if j == 0 {
            assert s[0..|sep|] == s[..|sep|];
          } else {
            OccursShift(s, sep, j - 1);
          }
        }
        Some(i + 1)
    }
  }

  /** The pieces between the occurrences of `sep`, empty ones included. */
  function Pieces(s: string, sep: string): (r: seq<string>)
    requires sep != []
    ensures |r| >= 1
    decreases |s|
  {
    match Find(s, sep)
    case None => [s]
    case Some(i) => [s[..i]] + Pieces(s[i + |sep|..], sep)
  }

  /** `String.join(sep, parts)`. */
  function Join(parts: seq<string>, sep: string): string
  {
    if parts == [] then []
    else if |parts| == 1 then parts[0]
    else parts[0] + sep + Join(parts[1..], sep)
  }

  /** Joining the pieces with the separator gives the text back. */
  lemma {:induction false} JoinPieces(s: string, sep: string)
    requires sep != []
    ensures Join(Pieces(s, sep), sep) == s
    decreases |s|
  {
    match Find(s, sep)
    case None =>
    case Some(i) =>
      var rest := Pieces(s[i + |sep|..], sep);
      JoinPieces(s[i + |sep|..], sep);
      assert Pieces(s, sep) == [s[..i]] + rest;
      assert Join([s[..i]] + rest, sep) == s[..i] + sep + Join(rest, sep) by {
        assert ([s[..i]] + rest)[1..] == rest;
      }
      assert s == s[..i] + sep + s[i + |sep|..];
  }

  /** No character of `s` is `c`. */
  predicate Free(s: string, c: char)
  {
    forall i :: 0 <= i < |s| ==> s[i] != c
  }

  /** `sep` does not occur in a text free of its first character. */
  lemma FindNone(s: string, sep: string)
    requires sep != [] && Free(s, sep[0])
    ensures Find(s, sep) == None
  {
  }

  /** An occurrence with no earlier copy of the separator's first character
      is the first occurrence. */
  lemma FindFirstChar(s: string, sep: string, k: nat)
    requires sep != [] && OccursAt(s, sep, k)
    requires forall j :: 0 <= j < k ==> s[j] != sep[0]
    ensures Find(s, sep) == Some(k)
  {
    var r := Find(s, sep).value;
    assert s[r..r + |sep|][0] == sep[0];
  }

  /** Parts free of the separator's first character, joined by it, cut back
      into the same parts. */
  lemma {:induction false} PiecesOfJoin(parts: seq<string>, sep: string)
    requires sep != [] && |parts| >= 1
    requires forall i :: 0 <= i < |parts| ==> Free(parts[i], sep[0])
    ensures Pieces(Join(parts, sep), sep) == parts
    decreases |parts|
  {
    var s := Join(parts, sep);
    if |parts| == 1 {
      FindNone(s, sep);
    } else {
      var p0, rest := parts[0], parts[1..];
      var tail := Join(rest, sep);
      assert s == p0 + sep + tail;
      assert s[..|p0|] == p0 && s[|p0|..|p0| + |sep|] == sep && s[|p0| + |sep|..] == tail;
      assert Free(p0, sep[0]);
      FindFirstChar(s, sep, |p0|);
      assert Pieces(s, sep) == [p0] + Pieces(tail, sep);
      PiecesOfJoin(rest, sep);
      assert parts == [p0] + rest;
    }
  }

  /** `split` takes such a join apart again, up to trailing empty parts. */
  lemma SplitOfJoin(parts: seq<string>, sep: string)
    requires sep != [] && |parts| >= 1
    requires forall i :: 0 <= i < |parts| ==> Free(parts[i], sep[0])
    ensures |parts| == 1 ==> Split(Join(parts, sep), sep) == parts
    ensures |parts| > 1 ==> Split(Join(parts, sep), sep) == DropTrailingEmpty(parts)
  {
    PiecesOfJoin(parts, sep);
    if |parts| > 1 {
      var s := Join(parts, sep);
      assert s == parts[0] + sep + Join(parts[1..], sep);
      assert s[|parts[0]|..|parts[0]| + |sep|] == sep;
    }
  }

  /** What `split` does after cutting when the limit is 0: trailing empty
      strings are discarded. */
  function DropTrailingEmpty(parts: seq<string>): (r: seq<string>)
    ensures |r| <= |parts| && r == parts[..|r|]
    ensures r == [] || r[|r| - 1] != []
    ensures forall i :: |r| <= i < |parts| ==> parts[i] == []
  {
    if parts != [] && parts[|parts| - 1] == [] then DropTrailingEmpty(parts[..|parts| - 1])
    else parts
  }

  /** `s.split(sep)` for a separator with no regular-expression metacharacters:
      the text alone when `sep` does not occur, otherwise the pieces without the
      trailing empty ones. */
  function Split(s: string, sep: string): (r: seq<string>)
    requires sep != []
  {
    if Find(s, sep).None? then [s] else DropTrailingEmpty(Pieces(s, sep))
  }

  /** The characters the regular expression `\s` matches. */
  predicate IsSpace(c: char)
  {
    c == ' ' || c == '\t' || c == '\n' || c == '\r' || c as int == 0x0B || c as int == 0x0C
  }

  predicate NoSpace(s: string)
  {
    forall i :: 0 <= i < |s| ==> !IsSpace(s[i])
  }

  /** The position of the first whitespace character. */
  function FirstSpace(s: string): (r: Option<nat>)
    ensures r.Some? ==> r.value < |s| && IsSpace(s[r.value]) && NoSpace(s[..r.value])
    ensures r.None? <==> NoSpace(s)
  {
    if s == [] then None
    else if IsSpace(s[0]) then Some(0)
    else match FirstSpace(s[1..]) {
      case None => None
      case Some(i) => assert s[..i + 1] == [s[0]] + s[1..][..i]; Some(i + 1)
    }
  }

  /** The length of the whitespace run `\s+` matches at the start of `s`. */
  function SpaceRun(s: string): (k: nat)
    ensures k <= |s|
    ensures forall i :: 0 <= i < k ==> IsSpace(s[i])
    ensures k < |s| ==> !IsSpace(s[k])
  {
    if s != [] && IsSpace(s[0]) then 1 + SpaceRun(s[1..]) else 0
  }

  /** The pieces between whitespace runs, empty ones included. */
  function SpacePieces(s: string): (r: seq<string>)
    ensures |r| >= 1
    decreases |s|
  {
    match FirstSpace(s)
    case None => [s]
    case Some(i) =>
      var rest := s[i..];
      [s[..i]] + SpacePieces(rest[SpaceRun(rest)..])
  }

  /** `s.split("\\s+")`. */
  function SplitSpace(s: string): seq<string>
  {
    if FirstSpace(s).None? then [s] else DropTrailingEmpty(SpacePieces(s))
  }

  /** `s.split("\\s+", 2)`: the text before the first whitespace run and,
      when there is one, everything after it. */
  function SplitSpaceOnce(s: string): (r: seq<string>)
    ensures 1 <= |r| <= 2 && NoSpace(r[0])
    ensures |r| == 2 ==> r[1] == [] || !IsSpace(r[1][0])
  {
    match FirstSpace(s)
    case None => [s]
    case Some(i) =>
      var rest := s[i..];
      [s[..i], rest[SpaceRun(rest)..]]
  }

  /** Words without whitespace joined by single spaces split back into the
      words. */
  lemma {:induction false} SplitSpaceJoin(words: seq<string>)
    requires |words| >= 1
    requires forall i :: 0 <= i < |words| ==> words[i] != [] && NoSpace(words[i])
    ensures SpacePieces(Join(words, " ")) == words
  {
    var s := Join(words, " ");
    if |words| == 1 {
      assert FirstSpace(s).None?;
    } else {
      var tail := Join(words[1..], " ");
      assert s == words[0] + " " + tail;
      JoinHead(words[1..]);
      OneSpace(words[0], tail);
      SplitSpaceJoin(words[1..]);
      var rest := s[|words[0]|..];
      assert SpacePieces(s) == [words[0]] + SpacePieces(rest[1..]);
      assert words == [words[0]] + words[1..];
    }
  }

  /** `split("\\s+")` takes such a line back apart into the words. */
  lemma SplitSpaceOfJoin(words: seq<string>)
    requires |words| >= 1
    requires forall i :: 0 <= i < |words| ==> words[i] != [] && NoSpace(words[i])
    ensures SplitSpace(Join(words, " ")) == words
  {
    var s := Join(words, " ");
    SplitSpaceJoin(words);
    if FirstSpace(s).None? {
      assert SpacePieces(s) == [s];
    } else {
      assert DropTrailingEmpty(words) == words;
    }
  }

  /** `split("\\s+", 2)` on such a line gives the first word and the rest. */
  lemma SplitSpaceOnceOfJoin(words: seq<string>)
    requires |words| >= 2
    requires forall i :: 0 <= i < |words| ==> words[i] != [] && NoSpace(words[i])
    ensures SplitSpaceOnce(Join(words, " ")) == [words[0], Join(words[1..], " ")]
  {
    var tail := Join(words[1..], " ");
    var s := words[0] + " " + tail;
    assert Join(words, " ") == s;
    JoinHead(words[1..]);
    OneSpace(words[0], tail);
    assert s[..|words[0]|] == words[0];
  }

  /** A single space between a word and a text not starting with whitespace is
      the first whitespace run. */
  lemma OneSpace(a: string, b: string)
    requires NoSpace(a) && (b == [] || !IsSpace(b[0]))
    ensures var s := a + " " + b;
      FirstSpace(s) == Some(|a|) && s[..|a|] == a && SpaceRun(s[|a|..]) == 1 && s[|a|..][1..] == b
  {
    var s := a + " " + b;
    assert s[..|a|] == a;
    FirstSpaceAt(s, |a|);
    assert s[|a|..] == " " + b;
  }

  /** A whitespace character with none before it is the first one. */
  lemma FirstSpaceAt(s: string, k: nat)
    requires k < |s| && IsSpace(s[k]) && NoSpace(s[..k])
    ensures FirstSpace(s) == Some(k)
  {
  }

  lemma {:induction false} JoinHead(words: seq<string>)
    requires |words| >= 1 && words[0] != []
    ensures Join(words, " ") != [] && Join(words, " ")[0] == words[0][0]
  {
  }
}
