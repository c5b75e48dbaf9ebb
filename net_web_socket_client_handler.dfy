// src/net/classicube/WebSocketClientHandler.java: the WebSocket transport of
// the ClassiCube server (framing from section 5.2 of RFC 6455, masking from
// section 5.3). The output stream gathers writes in a buffer and sends each
// non-empty flush as one binary frame; the input stream decodes frames from
// the socket and serves their payload byte by byte.
//
// The socket's input is the sequence `source` of bytes not yet read, all of
// them available (a read of n bytes gets min(n, what is left)); the socket's
// output is the sequence `wire` of bytes written to it.

module NetWebSocketClientHandler {
  import opened Wrappers
  import opened JavaNum

  /** What `new byte[n]` throws for a negative n. */
  const NegativeSize: string := "NegativeArraySizeException"

  /** The first byte of every frame the server sends: FIN set, opcode 2
      (binary data). */
  const FinalBinary: Octet := 0x82

  /** Java arrays hold fewer than 2^31 elements. */
  const MaxArray := 0x8000_0000

  // ---- Arithmetic of the length fields ----

  function Pow2(k: nat): (r: nat)
    ensures r > 0
  {
    if k == 0 then 1 else 2 * Pow2(k - 1)
  }

  lemma Pow2Values()
    ensures Pow2(0) == 1 && Pow2(8) == 0x100 && Pow2(16) == 0x1_0000 && Pow2(24) == 0x100_0000
  {
    assert Pow2(8) == 0x100 by {
      assert Pow2(4) == 16;
    }
    assert Pow2(16) == 0x1_0000 by {
      assert Pow2(12) == 0x1000;
    }
    assert Pow2(24) == 0x100_0000 by {
      assert Pow2(20) == 0x10_0000;
    }
  }

  /** n with its low k bytes shifted out. */
  function ShrBytes(n: nat, k: nat): nat
  {
    if k == 0 then n else ShrBytes(n / 0x100, k - 1)
  }

  /** Java's `n >> d` on a non-negative `int` for a whole number of bytes d:
      the shift distance is taken modulo 32 (section 15.19 of the Java
      Language Specification). */
  function Shr(n: nat, d: nat): nat
    requires d % 8 == 0
  {
    ShrBytes(n, (d % 32) / 8)
  }

  /** The shifts the writer uses, as divisions; 32 to 56 wrap round. */
  lemma ShrValues(n: nat)
    ensures Shr(n, 0) == Shr(n, 32) == n
    ensures Shr(n, 8) == Shr(n, 40) == n / 0x100
    ensures Shr(n, 16) == Shr(n, 48) == n / 0x1_0000
    ensures Shr(n, 24) == Shr(n, 56) == n / 0x100_0000
  {
    var n1 := n / 0x100;
    var n2 := n1 / 0x100;
    assert ShrBytes(n, 1) == ShrBytes(n1, 0);
    assert ShrBytes(n, 2) == ShrBytes(n1, 1) == ShrBytes(n2, 0);
    assert ShrBytes(n, 3) == ShrBytes(n1, 2) == ShrBytes(n2, 1) == ShrBytes(n2 / 0x100, 0);
  }

  /** The value of bytes read as one big-endian unsigned number, after the
      value acc of the bytes before them. */
  function BigEndianFrom(acc: int, s: seq<Octet>): int
    decreases |s|
  {
    if s == [] then acc else BigEndianFrom(acc * 0x100 + s[0], s[1..])
  }

  function BigEndian(s: seq<Octet>): int
  {
    BigEndianFrom(0, s)
  }

  lemma {:induction false} BigEndianFromAppend(acc: int, a: seq<Octet>, b: seq<Octet>)
    ensures BigEndianFrom(acc, a + b) == BigEndianFrom(BigEndianFrom(acc, a), b)
    decreases |a|
  {
    if a == [] {
      assert a + b == b;
    } else {
      assert (a + b)[1..] == a[1..] + b;
      BigEndianFromAppend(acc * 0x100 + a[0], a[1..], b);
    }
  }

  /** Prefixes equal modulo 2^32 stay equal modulo 2^32 whatever follows. */
  lemma {:induction false} BigEndianFromCongruent(a: int, b: int, s: seq<Octet>)
    requires (a - b) % 0x1_0000_0000 == 0
    ensures (BigEndianFrom(a, s) - BigEndianFrom(b, s)) % 0x1_0000_0000 == 0
    decreases |s|
  {
    if s != [] {
      var q := (a - b) / 0x1_0000_0000;
      assert a - b == 0x1_0000_0000 * q;
      assert (a * 0x100 + s[0]) - (b * 0x100 + s[0]) == 0x1_0000_0000 * (q * 0x100);
      BigEndianFromCongruent(a * 0x100 + s[0], b * 0x100 + s[0], s[1..]);
    }
  }

  /** Four bytes after a value a, spelled out. */
  lemma BigEndianUnfold4(a: int, s: seq<Octet>)
    requires |s| == 4
    ensures BigEndianFrom(a, s) == (((a * 0x100 + s[0]) * 0x100 + s[1]) * 0x100 + s[2]) * 0x100 + s[3]
  {
    var s1 := s[1..];
    var s2 := s1[1..];
    var s3 := s2[1..];
    assert s3[1..] == [];
    assert BigEndianFrom(a, s) == BigEndianFrom(a * 0x100 + s[0], s1);
    assert BigEndianFrom(a * 0x100 + s[0], s1) == BigEndianFrom((a * 0x100 + s[0]) * 0x100 + s[1], s2);
    assert BigEndianFrom((a * 0x100 + s[0]) * 0x100 + s[1], s2) ==
      BigEndianFrom(((a * 0x100 + s[0]) * 0x100 + s[1]) * 0x100 + s[2], s3);
  }

  /** Four bytes after a value a put it 32 bits up. */
  lemma BigEndianFour(a: int, s: seq<Octet>)
    requires |s| == 4
    ensures BigEndianFrom(a, s) == a * 0x1_0000_0000 + BigEndian(s)
  {
    BigEndianUnfold4(a, s);
    BigEndianUnfold4(0, s);
  }

  /** The bytes `sendWebSocketFrame` writes for shifts by 24, 16, 8 and 0 are
      the four bytes of the `int`, high first. */
  lemma ShiftBytes(n: nat)
    requires n < 0x8000_0000
    ensures Shr(n, 24) % 0x100 == IntBytes(n)[0] && Shr(n, 16) % 0x100 == IntBytes(n)[1]
    ensures Shr(n, 8) % 0x100 == IntBytes(n)[2] && Shr(n, 0) % 0x100 == IntBytes(n)[3]
    ensures BigEndian(IntBytes(n)) == n
  {
    var b := IntBytes(n);
    IntBytesValue(n);
    BigEndianUnfold4(0, b);
    ShiftsOfBytes(n, b[0], b[1], b[2], b[3]);
  }

  /** Shifting a number made of four bytes by 24, 16, 8 and 0 and keeping
      the low 8 bits gives those bytes. */
  lemma ShiftsOfBytes(n: nat, b0: Octet, b1: Octet, b2: Octet, b3: Octet)
    requires n == (((b0 as int) * 0x100 + b1) * 0x100 + b2) * 0x100 + b3
    ensures Shr(n, 24) % 0x100 == b0 && Shr(n, 16) % 0x100 == b1
    ensures Shr(n, 8) % 0x100 == b2 && Shr(n, 0) % 0x100 == b3
  {
    ShrValues(n);
    var x2 := ((b0 as int) * 0x100 + b1) * 0x100 + b2;
    assert n / 0x100 == x2;
    assert n / 0x1_0000 == (b0 as int) * 0x100 + b1 by {
      assert n == ((b0 as int) * 0x100 + b1) * 0x1_0000 + ((b2 as int) * 0x100 + b3);
    }
    assert n / 0x100_0000 == b0 by {
      assert n == (b0 as int) * 0x100_0000 + (((b1 as int) * 0x100 + b2) * 0x100 + b3);
    }
  }

  /** The four bytes of a non-negative `int`, high first, make it up. */
  lemma IntBytesValue(n: nat)
    requires n < 0x8000_0000
    ensures var b := IntBytes(n);
      (((b[0] as int) * 0x100 + b[1]) * 0x100 + b[2]) * 0x100 + b[3] == n
  {
    var b := IntBytes(n);
    IntRoundTrip(n);
    var v := (((b[0] as int) * 0x100 + b[1]) * 0x100 + b[2]) * 0x100 + b[3];
    assert IntAt(b, 0) == ToInt(v);
    assert 0 <= v < 0x1_0000_0000;
  }

  /** Two numbers with the same remainder modulo 2^32 make the same `int`. */
  lemma ToIntCongruent(a: int, b: int)
    requires (a - b) % 0x1_0000_0000 == 0
    ensures ToInt(a) == ToInt(b)
  {
    var q := (a - b) / 0x1_0000_0000;
    assert a == b + 0x1_0000_0000 * q;
    assert a % 0x1_0000_0000 == b % 0x1_0000_0000;
  }

  /** `(a << 8) | b` for an `int` a and a value b of `InputStream.read()`:
      -1 (end of stream) sets every bit; a byte fills the low 8 bits the
      shift cleared. */
  function ShiftOr(a: JInt, b: int): (r: JInt)
    requires -1 <= b < 0x100
    ensures b >= 0 ==> r == ToInt(a * 0x100 + b)
  {
    ShiftClearsLowByte(a);
    if b == -1 then -1 else
      var r := ToInt(a * 0x100) + b;
      ToIntCongruent(r, a * 0x100 + b);
      r
  }

  lemma ShiftClearsLowByte(a: int)
    ensures ToInt(a * 0x100) % 0x100 == 0
    ensures ToInt(a * 0x100) <= 0x7FFF_FF00
  {
    var t := ToInt(a * 0x100);
    var q := (a * 0x100 - t) / 0x1_0000_0000;
    assert a * 0x100 - t == 0x1_0000_0000 * q;
    assert t == 0x100 * (a - 0x100_0000 * q);
  }

  // ---- Masking (section 5.3 of RFC 6455) ----

  /** Bitwise exclusive or of the low k bits of a and b. */
  function XorBits(a: nat, b: nat, k: nat): (r: nat)
    ensures r < Pow2(k)
  {
    if k == 0 then 0 else (if a % 2 == b % 2 then 0 else 1) + 2 * XorBits(a / 2, b / 2, k - 1)
  }

  /** The low k bits of a. */
  function LowBits(a: nat, k: nat): nat
  {
    if k == 0 then 0 else a % 2 + 2 * LowBits(a / 2, k - 1)
  }

  /** Java's `^` on two bytes, as octets. */
  function Xor(a: Octet, b: Octet): Octet
  {
    Pow2Values();
    XorBits(a, b, 8)
  }

  lemma {:induction false} XorBitsTwice(a: nat, b: nat, k: nat)
    ensures XorBits(XorBits(a, b, k), b, k) == LowBits(a, k)
  {
    if k > 0 {
      var a0, a1, b0, b1 := a % 2, a / 2, b % 2, b / 2;
      var bit := if a0 == b0 then 0 else 1;
      var rest := XorBits(a1, b1, k - 1);
      var x := XorBits(a, b, k);
      assert x == bit + 2 * rest;
      assert x % 2 == bit && x / 2 == rest;
      XorBitsTwice(a1, b1, k - 1);
      assert XorBits(x, b, k) == (if bit == b0 then 0 else 1) + 2 * XorBits(rest, b1, k - 1);
      assert (if bit == b0 then 0 else 1) == a0;
    }
  }

  lemma {:induction false} LowBitsOfSmall(a: nat, k: nat)
    requires a < Pow2(k)
    ensures LowBits(a, k) == a
  {
    if k > 0 {
      LowBitsOfSmall(a / 2, k - 1);
    }
  }

  lemma XorTwice(a: Octet, b: Octet)
    ensures Xor(Xor(a, b), b) == a
  {
    XorBitsTwice(a, b, 8);
    Pow2Values();
    LowBitsOfSmall(a, 8);
  }

  /** Octet i of the data XORed with octet i mod 4 of the key. */
  function Masked(data: seq<Octet>, key: seq<Octet>): (r: seq<Octet>)
    requires |key| == 4
    ensures |r| == |data|
  {
    seq(|data|, i requires 0 <= i < |data| => Xor(data[i], key[i % 4]))
  }

  /** Masking twice with the same key gives the data back. */
  lemma MaskTwice(data: seq<Octet>, key: seq<Octet>)
    requires |key| == 4
    ensures Masked(Masked(data, key), key) == data
  {
    forall i | 0 <= i < |data|
      ensures Masked(Masked(data, key), key)[i] == data[i]
    {
      XorTwice(data[i], key[i % 4]);
    }
  }

  // ---- The frame the server sends ----

  /** The first k of the eight long-form length bytes. */
  function LongBytes(n: nat, k: nat): (r: seq<Octet>)
    requires k <= 8
    ensures |r| == k
    ensures forall j :: 0 <= j < k ==> r[j] == Shr(n, 8 * (7 - j)) % 0x100
  {
    if k == 0 then [] else LongBytes(n, k - 1) + [Shr(n, 8 * (7 - (k - 1))) % 0x100]
  }

  /** The length part of an outbound frame as `sendWebSocketFrame` writes it:
      one byte below 126; 126 and 16 bits; otherwise 127 and the eight bytes
      `(length >> (8 * i)) & 0xFF` for i = 7 down to 0. The mask bit is never
      set. */
  function LengthField(n: nat): (r: seq<Octet>)
    requires n < MaxArray
    ensures |r| > 0 && r[0] < 0x80
  {
    if n < 126 then [n]
    else if n < 0x1_0000 then [126, Shr(n, 8) % 0x100, n % 0x100]
    else [127] + LongBytes(n, 8)
  }

  /** `sendWebSocketFrame(payload)`. */
  function Frame(payload: seq<Octet>): seq<Octet>
    requires |payload| < MaxArray
  {
    [FinalBinary] + LengthField(|payload|) + payload
  }

  /** Every outbound frame is final, binary and unmasked, and a payload
      under 65536 bytes has its length in the minimal RFC 6455 form. */
  lemma FrameHeader(payload: seq<Octet>)
    requires |payload| < MaxArray
    ensures var f := Frame(payload);
      f[0] >= 0x80 && f[0] % 0x10 == 2 && f[1] < 0x80 &&
      (|payload| < 126 ==> f[1] == |payload| && f[2..] == payload) &&
      (126 <= |payload| < 0x1_0000 ==> f[1] == 126 && (f[2] as int) * 0x100 + f[3] == |payload| && f[4..] == payload) &&
      (|payload| >= 0x1_0000 ==> f[1] == 127 && f[10..] == payload)
  {
    var n := |payload|;
    ShrValues(n);
  }

  /** Above 65535 the eight length bytes are the four bytes of the `int`
      twice: the shift distances 56 to 32 wrap round to 24 to 0. */
  lemma LongLengthBytes(n: nat)
    requires 0x1_0000 <= n < MaxArray
    ensures LengthField(n)[1..] == IntBytes(n) + IntBytes(n)
  {
    ShiftBytes(n);
    var lf := LongBytes(n, 8);
    assert LengthField(n)[1..] == lf;
    ShrValues(n);
    var four := IntBytes(n);
    assert lf[0] == four[0] && lf[1] == four[1] && lf[2] == four[2] && lf[3] == four[3];
    assert lf[4] == four[0] && lf[5] == four[1] && lf[6] == four[2] && lf[7] == four[3];
  }

  /** Finding: for a payload of 65536 bytes or more the length is written
      twice, so read as the unsigned 64-bit length of section 5.2 of RFC 6455
      the eight bytes say n * 2^32 + n, not n. */
  lemma LongLengthDoubled(n: nat)
    requires 0x1_0000 <= n < MaxArray
    ensures BigEndian(LengthField(n)[1..]) == n * 0x1_0000_0000 + n
  {
    var four := IntBytes(n);
    LongLengthBytes(n);
    ShiftBytes(n);
    BigEndianFromAppend(0, four, four);
    BigEndianFour(n, four);
  }

  /** A 65536-byte payload is announced as 2^48 + 2^16 bytes. */
  lemma LongLengthExample()
    ensures BigEndian(LengthField(0x1_0000)[1..]) == 0x1_0000_0001_0000
  {
    LongLengthDoubled(0x1_0000);
  }

  lemma BigEndianZeros(acc: int)
    ensures BigEndianFrom(acc, [0, 0, 0, 0]) == acc * 0x1_0000_0000
  {
    BigEndianFour(acc, [0, 0, 0, 0]);
    var z: seq<Octet> := [0, 0, 0, 0];
    assert z[1..][1..][1..][1..] == [];
  }

  /** The length part the section asks for: the same as written below 65536,
      and 127 with the plain 64-bit big-endian length above. */
  function LengthFieldCorrected(n: nat): (r: seq<Octet>)
    requires n < MaxArray
    ensures |r| > 0 && r[0] < 0x80
    ensures n < 0x1_0000 ==> r == LengthField(n)
    ensures n >= 0x1_0000 ==> r[0] == 127 && |r| == 9 && BigEndian(r[1..]) == n
  {
    if n < 0x1_0000 then LengthField(n)
    else
      var four := IntBytes(n);
      var r := [127, 0, 0, 0, 0] + four;
      assert r[1..] == [0, 0, 0, 0] + four;
      BigEndianFromAppend(0, [0, 0, 0, 0], four);
      BigEndianZeros(0);
      ShiftBytes(n);
      r
  }

  function FrameCorrected(payload: seq<Octet>): seq<Octet>
    requires |payload| < MaxArray
  {
    [FinalBinary] + LengthFieldCorrected(|payload|) + payload
  }

  // ---- Decoding (the reader) ----

  /** `InputStream.read()`: the next byte, or -1 at the end. */
  function ReadOne(s: seq<Octet>): (r: (int, seq<Octet>))
    ensures -1 <= r.0 < 0x100
    ensures s == [] ==> r == (-1, [])
    ensures s != [] ==> r == (s[0], s[1..])
  {
    if s == [] then (-1, []) else (s[0], s[1..])
  }

  /** The number of reads of a 64-bit length. */
  const LengthReads := 8

  /** The reads of a 64-bit length, folded into an `int`. */
  function Length64(p: JInt, s: seq<Octet>, k: nat): (r: (JInt, seq<Octet>))
    ensures |r.1| <= |s|
    decreases k
  {
    if k == 0 then (p, s) else Length64(ShiftOr(p, ReadOne(s).0), ReadOne(s).1, k - 1)
  }

  /** One read of the 64-bit length. */
  lemma Length64Step(p: JInt, s: seq<Octet>, k: nat, b: int, rest: seq<Octet>)
    requires k > 0 && (b, rest) == ReadOne(s)
    ensures Length64(p, s, k) == Length64(ShiftOr(p, b), rest, k - 1)
  {
  }

  /** With the bytes there, the `int` keeps the low 32 bits of the big-endian
      value. */
  lemma {:induction false} Length64Value(p: JInt, s: seq<Octet>, k: nat)
    requires k <= |s|
    ensures Length64(p, s, k) == (ToInt(BigEndianFrom(p, s[..k])), s[k..])
    decreases k
  {
    if k == 0 {
      assert s[..0] == [];
    } else {
      var q := ShiftOr(p, s[0]);
      Length64Value(q, s[1..], k - 1);
      assert s[1..][k - 1..] == s[k..];
      assert s[1..][..k - 1] == s[1..k] == s[..k][1..];
      ShiftOrFold(p, s[0], s[1..k]);
    }
  }

  /** Folding the rest of the bytes after `(p << 8) | b` keeps the low 32
      bits of folding them after the exact value. */
  lemma ShiftOrFold(p: JInt, b: Octet, tail: seq<Octet>)
    ensures ToInt(BigEndianFrom(ShiftOr(p, b), tail)) == ToInt(BigEndianFrom(p * 0x100 + b, tail))
  {
    BigEndianFromCongruent(ShiftOr(p, b), p * 0x100 + b, tail);
    ToIntCongruent(BigEndianFrom(ShiftOr(p, b), tail), BigEndianFrom(p * 0x100 + b, tail));
  }

  /** The extended length: 126 is followed by 16 bits, 127 by 64 bits read
      into an `int`; smaller codes are the length. */
  function ExtLength(code: int, s: seq<Octet>): (r: (JInt, seq<Octet>))
    requires 0 <= code < 0x80
    ensures |r.1| <= |s|
  {
    if code == 126 then
      var hi := ReadOne(s);
      var lo := ReadOne(hi.1);
      (ShiftOr(hi.0, lo.0), lo.1)
    else if code == 127 then Length64(0, s, LengthReads)
    else (code, s)
  }

  /** Eight length bytes whose big-endian value is n modulo 2^32 read as n. */
  lemma Length64Of(n: nat, eight: seq<Octet>, t: seq<Octet>)
    requires n < MaxArray && |eight| == 8
    requires (BigEndian(eight) - n) % 0x1_0000_0000 == 0
    ensures ExtLength(127, eight + t) == (n, t)
  {
    Length64Value(0, eight + t, LengthReads);
    assert (eight + t)[..8] == eight && (eight + t)[8..] == t;
    ToIntCongruent(BigEndian(eight), n);
  }

  /** The reader takes the as-written length part back to the length. */
  lemma ExtLengthOf(n: nat, t: seq<Octet>)
    requires n < MaxArray
    ensures ExtLength(LengthField(n)[0], LengthField(n)[1..] + t) == (n, t)
  {
    if n < 126 {
      assert LengthField(n)[1..] + t == t;
    } else if n < 0x1_0000 {
      ExtLengthOf16(n, t);
    } else {
      ExtLengthOfLong(n, t);
    }
  }

  lemma ExtLengthOf16(n: nat, t: seq<Octet>)
    requires 126 <= n < 0x1_0000
    ensures ExtLength(LengthField(n)[0], LengthField(n)[1..] + t) == (n, t)
  {
    var hi, lo := n / 0x100, n % 0x100;
    ShrValues(n);
    assert LengthField(n) == [126, hi, lo];
    assert LengthField(n)[1..] + t == [hi] + ([lo] + t);
    assert ShiftOr(hi, lo) == n by {
      assert hi * 0x100 + lo == n;
    }
  }

  lemma ExtLengthOfLong(n: nat, t: seq<Octet>)
    requires 0x1_0000 <= n < MaxArray
    ensures ExtLength(LengthField(n)[0], LengthField(n)[1..] + t) == (n, t)
  {
    var lf := LengthField(n);
    LongLengthDoubled(n);
    assert BigEndian(lf[1..]) - n == 0x1_0000_0000 * n;
    Length64Of(n, lf[1..], t);
  }

  /** So does the corrected length part. */
  lemma ExtLengthOfCorrected(n: nat, t: seq<Octet>)
    requires n < MaxArray
    ensures ExtLength(LengthFieldCorrected(n)[0], LengthFieldCorrected(n)[1..] + t) == (n, t)
  {
    if n < 0x1_0000 {
      ExtLengthOf(n, t);
    } else {
      Length64Of(n, LengthFieldCorrected(n)[1..], t);
    }
  }

  /** `source.read(maskKey, 0, 4)`: up to four bytes into a zeroed key. */
  function ReadKey(s: seq<Octet>): (r: (seq<Octet>, seq<Octet>))
    ensures |r.0| == 4 && |r.1| <= |s|
    ensures |s| >= 4 ==> r == (s[..4], s[4..])
    ensures |s| < 4 ==> r.0[..|s|] == s && r.1 == []
  {
    if |s| >= 4 then (s[..4], s[4..]) else (s + seq(4 - |s|, _ => 0), [])
  }

  /** What `readFrame` learns before the payload: the FIN bit, the opcode
      (parsed and never used), the mask bit, the length as an `int`, the key
      (zero when the frame is unmasked; the reader then never uses it), and
      the input left. */
  datatype Header = Header(fin: bool, opcode: int, masked: bool, length: JInt, key: seq<Octet>, rest: seq<Octet>)

  function ParseHeader(s: seq<Octet>): (r: Result<Header>)
    ensures r.Ok? ==> |r.value.key| == 4 && |r.value.rest| + 2 <= |s|
    ensures |s| < 2 <==> r == Err(EndOfStream)
  {
    if |s| < 2 then Err(EndOfStream)
    else
      var masked := s[1] >= 0x80;
      var ext := ExtLength(s[1] % 0x80, s[2..]);
      var key := if masked then ReadKey(ext.1) else ([0, 0, 0, 0], ext.1);
      Ok(Header(s[0] >= 0x80, s[0] % 0x10, masked, ext.0, key.0, key.1))
  }

  /** The payload `readFrame` leaves in the buffer and the input after it. A
      non-final frame's payload is dropped for the next frame's. */
  function DecodeFrame(s: seq<Octet>): Result<(seq<Octet>, seq<Octet>)>
    decreases |s|
  {
    match ParseHeader(s)
    case Err(e) => Err(e)
    case Ok(h) =>
      if h.length < 0 then Err(NegativeSize)
      else if |h.rest| < h.length then Err(EndOfStream)
      else
        var data := if h.masked then Masked(h.rest[..h.length], h.key) else h.rest[..h.length];
        if h.fin then Ok((data, h.rest[h.length..])) else DecodeFrame(h.rest[h.length..])
  }

  /** The header of an unmasked frame: first byte, length code, then the
      extended length. */
  lemma ParseUnmasked(first: Octet, code: Octet, t: seq<Octet>)
    requires code < 0x80
    ensures ParseHeader([first, code] + t) ==
      Ok(Header(first >= 0x80, first % 0x10, false, ExtLength(code, t).0, [0, 0, 0, 0], ExtLength(code, t).1))
  {
    var s := [first, code] + t;
    assert s[0] == first && s[1] == code && s[2..] == t;
    assert s[1] % 0x80 == code && s[1] < 0x80;
    assert ExtLength(s[1] % 0x80, s[2..]) == ExtLength(code, t);
  }

  /** The header of a masked frame: the key follows the extended length. */
  lemma ParseMasked(first: Octet, code: Octet, t: seq<Octet>)
    requires 0x80 <= code
    ensures ParseHeader([first, code] + t) ==
      var ext := ExtLength(code - 0x80, t);
      Ok(Header(first >= 0x80, first % 0x10, true, ext.0, ReadKey(ext.1).0, ReadKey(ext.1).1))
  {
    var s := [first, code] + t;
    assert s[0] == first && s[1] == code && s[2..] == t;
    assert s[1] % 0x80 == code - 0x80 && s[1] >= 0x80;
    assert ExtLength(s[1] % 0x80, s[2..]) == ExtLength(code - 0x80, t);
  }

  /** A frame whose header parses to a length n with n bytes after it. */
  lemma DecodeOfHeader(s: seq<Octet>, payload: seq<Octet>, rest: seq<Octet>)
    requires ParseHeader(s).Ok?
    requires ParseHeader(s).value.length == |payload| && ParseHeader(s).value.rest == payload + rest
    ensures var h := ParseHeader(s).value;
      DecodeFrame(s) ==
        if !h.fin then DecodeFrame(rest)
        else if h.masked then Ok((Masked(payload, h.key), rest))
        else Ok((payload, rest))
  {
    var h := ParseHeader(s).value;
    assert h.rest[..h.length] == payload && h.rest[h.length..] == rest;
  }

  /** An unmasked frame with the as-written length part decodes to its
      payload when the first byte has FIN set, whatever its opcode, and is
      skipped for the next frame when it has not. */
  lemma DecodeUnmasked(first: Octet, payload: seq<Octet>, rest: seq<Octet>)
    requires |payload| < MaxArray
    ensures DecodeFrame([first] + LengthField(|payload|) + payload + rest) ==
      if first >= 0x80 then Ok((payload, rest)) else DecodeFrame(rest)
  {
    var lf := LengthField(|payload|);
    var s := [first] + lf + payload + rest;
    assert s == [first, lf[0]] + (lf[1..] + (payload + rest));
    ExtLengthOf(|payload|, payload + rest);
    ParseUnmasked(first, lf[0], lf[1..] + (payload + rest));
    DecodeOfHeader(s, payload, rest);
  }

  /** The reader gives back every payload the writer frames. */
  lemma DecodeOfFrame(payload: seq<Octet>, rest: seq<Octet>)
    requires |payload| < MaxArray
    ensures DecodeFrame(Frame(payload) + rest) == Ok((payload, rest))
  {
    DecodeUnmasked(FinalBinary, payload, rest);
  }

  /** Close (0x88) and ping (0x89) frames are delivered as data. */
  lemma ControlFramesAsData(payload: seq<Octet>, rest: seq<Octet>)
    requires |payload| < MaxArray
    ensures DecodeFrame([0x88] + LengthField(|payload|) + payload + rest) == Ok((payload, rest))
    ensures DecodeFrame([0x89] + LengthField(|payload|) + payload + rest) == Ok((payload, rest))
  {
    DecodeUnmasked(0x88, payload, rest);
    DecodeUnmasked(0x89, payload, rest);
  }

  /** A message in two fragments arrives as its last fragment alone. */
  lemma LastFragmentOnly(first: seq<Octet>, last: seq<Octet>, rest: seq<Octet>)
    requires |first| < MaxArray && |last| < MaxArray
    ensures DecodeFrame([0x02] + LengthField(|first|) + first + (Frame(last) + rest)) == Ok((last, rest))
  {
    DecodeUnmasked(0x02, first, Frame(last) + rest);
    DecodeOfFrame(last, rest);
  }

  /** The frame a client sends: final, binary, masked with the key, with the
      length in the section's form. */
  function ClientFrame(payload: seq<Octet>, key: seq<Octet>): seq<Octet>
    requires |payload| < MaxArray && |key| == 4
  {
    var lf := LengthFieldCorrected(|payload|);
    [FinalBinary, lf[0] + 0x80] + lf[1..] + key + Masked(payload, key)
  }

  /** The reader unmasks a client's frame back to its payload. */
  lemma DecodeOfClientFrame(payload: seq<Octet>, key: seq<Octet>, rest: seq<Octet>)
    requires |payload| < MaxArray && |key| == 4
    ensures DecodeFrame(ClientFrame(payload, key) + rest) == Ok((payload, rest))
  {
    var lf := LengthFieldCorrected(|payload|);
    var masked := Masked(payload, key);
    var s := ClientFrame(payload, key) + rest;
    var t := key + (masked + rest);
    assert s == [FinalBinary, lf[0] + 0x80] + (lf[1..] + t);
    ExtLengthOfCorrected(|payload|, t);
    assert ReadKey(t) == (key, masked + rest);
    ParseMasked(FinalBinary, lf[0] + 0x80, lf[1..] + t);
    DecodeOfHeader(s, masked, rest);
    MaskTwice(payload, key);
  }

  /** The corrected writer's frames decode to their payload too. */
  lemma DecodeOfFrameCorrected(payload: seq<Octet>, rest: seq<Octet>)
    requires |payload| < MaxArray
    ensures DecodeFrame(FrameCorrected(payload) + rest) == Ok((payload, rest))
  {
    var lf := LengthFieldCorrected(|payload|);
    var s := FrameCorrected(payload) + rest;
    assert s == [FinalBinary, lf[0]] + (lf[1..] + (payload + rest));
    ExtLengthOfCorrected(|payload|, payload + rest);
    ParseUnmasked(FinalBinary, lf[0], lf[1..] + (payload + rest));
    DecodeOfHeader(s, payload, rest);
  }

  // ---- The streams ----

  /** `WebSocketOutputStream`: `buffer` is the `ByteArrayOutputStream`,
      `wire` what has gone to the socket. */
  class WebSocketOutputStream {
    var buffer: seq<Octet>
    var wire: seq<Octet>

    constructor ()
      ensures buffer == [] && wire == []
    {
      buffer, wire := [], [];
    }

    /** `write(int)`: the low 8 bits join the buffer. */
    method Write(b: int)
      modifies this`buffer
      ensures buffer == old(buffer) + [Low8(b)]
    {
      buffer := buffer + [Low8(b)];
    }

    /** `write(byte[], off, len)`. */
    method WriteBytes(b: seq<Octet>, off: nat, len: nat)
      requires off + len <= |b|
      modifies this`buffer
      ensures buffer == old(buffer) + b[off .. off + len]
    {
      buffer := buffer + b[off .. off + len];
    }

    /** `flush`: a non-empty buffer goes out as exactly one frame and is
        emptied; an empty one sends nothing. */
    method Flush()
      requires |buffer| < MaxArray
      modifies this
      ensures buffer == []
      ensures old(buffer) == [] ==> wire == old(wire)
      ensures old(buffer) != [] ==> wire == old(wire) + Frame(old(buffer))
    {
      var data := buffer;
      if |data| > 0 {
        SendWebSocketFrame(data);
        buffer := [];
      }
    }

    /** `sendWebSocketFrame`: 0x82, the length part, the payload. */
    method SendWebSocketFrame(payload: seq<Octet>)
      requires |payload| < MaxArray
      modifies this`wire
      ensures wire == old(wire) + Frame(payload)
    {
      var n := |payload|;
      var frame := [FinalBinary];
      if n < 126 {
        frame := frame + [n];
      } else if n < 0x1_0000 {
        frame := frame + [126, Shr(n, 8) % 0x100, n % 0x100];
      } else {
        var bytes := LongLength(n);
        frame := frame + [127] + bytes;
      }
      assert frame == [FinalBinary] + LengthField(n);
      frame := frame + payload;
      wire := wire + frame;
    }

    /** The loop of `sendWebSocketFrame` for a long payload: the bytes
        `(length >> (8 * i)) & 0xFF` for i = 7 down to 0. */
    method LongLength(n: nat) returns (bytes: seq<Octet>)
      ensures bytes == LongBytes(n, 8)
    {
      bytes := [];
      var i := 7;
      while i >= 0
        invariant -1 <= i <= 7
        invariant bytes == LongBytes(n, 7 - i)
        decreases i
      {
        bytes := bytes + [Shr(n, 8 * i) % 0x100];
        i := i - 1;
      }
    }
  }

  /** `WebSocketInputStream`: `buffer` is the `ByteArrayInputStream` of the
      last frame (None while there is none), `source` the unread input. */
  class WebSocketInputStream {
    var source: seq<Octet>
    var buffer: Option<seq<Octet>>

    constructor (source: seq<Octet>)
      ensures this.source == source && buffer == None
    {
      this.source := source;
      buffer := None;
    }

    /** `source.read()`. */
    method ReadSource() returns (b: int)
      modifies this`source
      ensures (b, source) == ReadOne(old(source))
    {
      if source == [] {
        return -1;
      }
      b := source[0];
      source := source[1..];
    }

    /** The extended-length reads of `readFrame` after the second byte. */
    method ReadLength(code: int) returns (length: JInt)
      requires 0 <= code < 0x80
      modifies this`source
      ensures (length, source) == ExtLength(code, old(source))
    {
      length := code;
      if code == 126 {
        var hi := ReadSource();
        var lo := ReadSource();
        length := ShiftOr(hi, lo);
      } else if code == 127 {
        length := ReadLength64();
      }
    }

    /** The eight reads of a 64-bit length, each shifted into an `int`. */
    method ReadLength64() returns (length: JInt)
      modifies this`source
      ensures (length, source) == Length64(0, old(source), LengthReads)
    {
      length := 0;
      for i := 0 to LengthReads
        invariant Length64(length, source, LengthReads - i) == Length64(0, old(source), LengthReads)
      {
        length := ShiftIn(length, LengthReads - i);
      }
    }

    /** `payloadLength = (payloadLength << 8) | source.read()`: one read of
        the 64-bit length. */
    method ShiftIn(p: JInt, ghost k: nat) returns (q: JInt)
      requires k > 0
      modifies this`source
      ensures Length64(p, old(source), k) == Length64(q, source, k - 1)
    {
      ghost var before := source;
      var b := ReadSource();
      Length64Step(p, before, k, b, source);
      q := ShiftOr(p, b);
    }

    /** `source.read(maskKey, 0, 4)` into a new zeroed key. */
    method ReadMaskKey() returns (key: seq<Octet>)
      modifies this`source
      ensures (key, source) == ReadKey(old(source))
    {
      if |source| >= 4 {
        key := source[..4];
        source := source[4..];
      } else {
        key := source + seq(4 - |source|, _ => 0);
        source := [];
      }
    }

    /** The header part of `readFrame`, up to and including the mask key. */
    method ReadHeader() returns (r: Result<Header>)
      modifies this`source
      ensures r == ParseHeader(old(source))
      ensures r.Ok? ==> source == r.value.rest
    {
      var firstByte := ReadSource();
      if firstByte == -1 {
        return Err(EndOfStream);
      }
      var secondByte := ReadSource();
      if secondByte == -1 {
        return Err(EndOfStream);
      }
      var isMasked := secondByte >= 0x80;
      var payloadLength := ReadLength(secondByte % 0x80);
      var maskKey := [0, 0, 0, 0];
      if isMasked {
        maskKey := ReadMaskKey();
      }
      return Ok(Header(firstByte >= 0x80, firstByte % 0x10, isMasked, payloadLength, maskKey, source));
    }

    /** The payload loop of `readFrame`: reads until `length` bytes are in,
        failing when the input ends first. */
    method ReadPayload(length: nat) returns (r: Result<array<Octet>>)
      modifies this`source
      ensures r.Ok? ==> fresh(r.value)
      ensures r.Ok? ==> |old(source)| >= length && r.value[..] == old(source)[..length]
      ensures r.Ok? ==> source == old(source)[length..]
      ensures r.Err? ==> |old(source)| < length && r.reason == EndOfStream
    {
      var payload := new Octet[length];
      var bytesRead := 0;
      while bytesRead < length
        invariant 0 <= bytesRead <= length && bytesRead <= |old(source)|
        invariant payload[..bytesRead] == old(source)[..bytesRead]
        invariant source == old(source)[bytesRead..]
        decreases length - bytesRead
      {
        if source == [] {
          return Err(EndOfStream);
        }
        var read := if |source| < length - bytesRead then |source| else length - bytesRead;
        forall j | 0 <= j < read {
          payload[bytesRead + j] := source[j];
        }
        source := source[read..];
        bytesRead := bytesRead + read;
      }
      return Ok(payload);
    }

    /** The unmasking loop: `payload[i] ^= maskKey[i % 4]` in place. */
    static method Unmask(payload: array<Octet>, key: seq<Octet>)
      requires |key| == 4
      modifies payload
      ensures payload[..] == Masked(old(payload[..]), key)
    {
      for i := 0 to payload.Length
        invariant payload[..i] == Masked(old(payload[..]), key)[..i]
        invariant payload[i..] == old(payload[..])[i..]
      {
        payload[i] := Xor(payload[i], key[i % 4]);
      }
    }

    /** `readFrame`: the next frame's payload becomes the buffer; after a
        non-final frame the next frame is read over it. */
    method ReadFrame() returns (err: Option<string>)
      modifies this`source, this`buffer
      ensures DecodeFrame(old(source)).Ok? ==>
        err == None && buffer == Some(DecodeFrame(old(source)).value.0) && source == DecodeFrame(old(source)).value.1
      ensures DecodeFrame(old(source)).Err? ==> err == Some(DecodeFrame(old(source)).reason)
      decreases |source|
    {
      var header := ReadHeader();
      if header.Err? {
        return Some(header.reason);
      }
      var h := header.value;
      if h.length < 0 {
        return Some(NegativeSize);
      }
      var read := ReadPayload(h.length);
      if read.Err? {
        return Some(read.reason);
      }
      var payload := read.value;
      if h.masked {
        Unmask(payload, h.key);
      }
      buffer := Some(payload[..]);
      if !h.fin {
        err := ReadFrame();
      } else {
        err := None;
      }
    }

    /** `read()`: the next buffered byte, reading a frame first when the
        buffer is missing or used up; an empty frame gives -1. */
    method Read() returns (r: Result<int>)
      modifies this`source, this`buffer
      ensures old(buffer).Some? && old(buffer).value != [] ==>
        r == Ok(old(buffer).value[0]) && buffer == Some(old(buffer).value[1..]) && source == old(source)
      ensures !(old(buffer).Some? && old(buffer).value != []) ==>
        match DecodeFrame(old(source))
        case Err(e) => r == Err(e)
        case Ok((p, rest)) =>
          source == rest &&
          (p == [] ==> r == Ok(-1) && buffer == Some([])) &&
          (p != [] ==> r == Ok(p[0]) && buffer == Some(p[1..]))
    {
      if buffer == None || buffer.value == [] {
        var err := ReadFrame();
        if err.Some? {
          return Err(err.value);
        }
      }
      if buffer == None {
        return Ok(-1);
      }
      var data := buffer.value;
      if data == [] {
        return Ok(-1);
      }
      r := Ok(data[0]);
      buffer := Some(data[1..]);
    }

    /** `read(b, off, len)`: up to len buffered bytes (-1 and nothing when the
        buffer is used up), reading a frame first when the buffer
        is missing or used up. */
    method ReadBytes(len: nat) returns (r: Result<(int, seq<Octet>)>)
      modifies this`source, this`buffer
      ensures old(buffer).Some? && old(buffer).value != [] ==>
        source == old(source) && r == Ok(Take(old(buffer).value, len)) &&
        buffer == Some(old(buffer).value[|r.value.1|..])
      ensures !(old(buffer).Some? && old(buffer).value != []) ==>
        match DecodeFrame(old(source))
        case Err(e) => r == Err(e)
        case Ok((p, rest)) =>
          source == rest && r == Ok(Take(p, len)) && buffer == Some(p[|r.value.1|..])
    {
      if buffer == None || buffer.value == [] {
        var err := ReadFrame();
        if err.Some? {
          return Err(err.value);
        }
      }
      if buffer == None {
        return Ok((-1, []));
      }
      var data := buffer.value;
      var taken := Take(data, len);
      r := Ok(taken);
      buffer := Some(data[|taken.1|..]);
    }
  }

  /** `ByteArrayInputStream.read(b, off, len)` on the bytes left: the count
      and the bytes; -1 and nothing when none are left. */
  function Take(data: seq<Octet>, len: nat): (r: (int, seq<Octet>))
    ensures |r.1| <= |data| && r.1 == data[..|r.1|]
    ensures data == [] ==> r == (-1, [])
    ensures data != [] ==> r.0 == |r.1| == (if len < |data| then len else |data|)
  {
    if data == [] then (-1, [])
    else
      var n := if len < |data| then len else |data|;
      (n, data[..n])
  }
}
