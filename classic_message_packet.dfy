// src/classic/packets/MessagePacket.java: a chat line, in either direction. The setter
// sanitizes; `read` does not.

module ClassicMessagePacket {
  import opened Wrappers
  import opened JavaNum
  import opened ClassicPacket
  import ClassicPacketType
  import NetPacket

  /** The bytes `read` consumes: everything after the opcode. */
  const PayloadSize := 65

  class MessagePacket {
    var playerId: JByte
    var message: string

    /** A new packet: every number 0, every string empty. */
    constructor()
      ensures playerId == 0 && message == ""
    {
      playerId, message := 0, "";
    }

    /** `write`: opcode 0x0d, the player id, then the message as a 64-byte
        field. */
    function Write(): (r: seq<Octet>)
      reads this
      ensures |r| == 1 + PayloadSize
      ensures ByteAt(r, 0) == ClassicPacketType.Id(ClassicPacketType.MESSAGE)
    {
      TypeByte(ClassicPacketType.MESSAGE)
      + ByteBytes(playerId)
      + WriteString(message)
    }

    /** `read`: the fields in `write` order from the bytes after the opcode.
        A field is assigned once all of its bytes have arrived; when the
        input runs out the read fails, keeping what it already assigned. */
    method Read(input: seq<Octet>) returns (r: Result<nat>)
      modifies this
      ensures r.Ok? <==> |input| >= PayloadSize
      ensures r.Ok? ==> r.value == PayloadSize
      ensures r.Err? ==> r.reason == EndOfStream
      ensures |input| >= 1 ==> playerId == ByteAt(input, 0)
      ensures |input| < 1 ==> playerId == old(playerId)
      ensures |input| >= 65 ==> message == ReadString(input[1..65])
      ensures |input| < 65 ==> message == old(message)
    {
      if |input| < 1 {
        return Err(EndOfStream);
      }
      playerId := ByteAt(input, 0);
      if |input| < 65 {
        return Err(EndOfStream);
      }
      message := ReadString(input[1..65]);
      return Ok(PayloadSize);
    }

    /** `setMessage`: stores the sanitized text, never the raw argument. */
    method SetMessage(m: string)
      modifies this
      ensures message == Sanitized(m) && playerId == old(playerId)
    {
      message := SanitizeMessage(m);
    }

    /** `sanitizeMessage`: strip every trailing '&', cut to 64 characters, then
        replace each character outside 0x20..0x7E by a space. */
    static method SanitizeMessage(input: string) returns (r: string)
      ensures r == Sanitized(input)
      ensures |r| <= MaxLength
      ensures forall i :: 0 <= i < |r| ==> IsPrintable(r[i])
      ensures forall i :: 0 <= i < |r| ==> r[i] == Printable(input[i])
      ensures |StripAmpersands(input)| <= MaxLength ==> !EndsWithAmpersand(r)
    {
      var s := input;
      while |s| > 0 && s[|s| - 1] == '&'
        invariant s == input[..|s|]
        invariant StripAmpersands(s) == StripAmpersands(input)
        decreases |s|
      {
        s := s[..|s| - 1];
      }
      if |s| > MaxLength {
        s := s[..MaxLength];
      }
      r := ReplaceInvalid(s);
    }
  }

  /** What `Read` decodes from the bytes `write` put after the opcode is every field;
      every string that fits the 64-byte field comes back. */
  lemma RoundTrip(p: MessagePacket)
    requires NetPacket.Fits(p.message)
    ensures var w := p.Write()[1..];
      ByteAt(w, 0) == p.playerId
      && ReadString(w[1..65]) == p.message
  {
    var w := p.Write()[1..];
    assert w == ByteBytes(p.playerId) + WriteString(p.message);
    assert w[0..1] == ByteBytes(p.playerId);
    assert w[1..65] == WriteString(p.message);
    ByteRoundTrip(p.playerId);
    StringRoundTrip(p.message);
  }

  /** The longest a sanitized message is. */
  const MaxLength := 64

  predicate EndsWithAmpersand(s: string) {
    |s| > 0 && s[|s| - 1] == '&'
  }

  /** The input with every trailing '&' removed: the longest prefix that does
      not end in '&' and is followed only by '&'. */
  function StripAmpersands(s: string): (r: string)
    ensures |r| <= |s| && r == s[..|r|]
    ensures !EndsWithAmpersand(r)
    ensures forall i :: |r| <= i < |s| ==> s[i] == '&'
    decreases |s|
  {
    if EndsWithAmpersand(s) then StripAmpersands(s[..|s| - 1]) else s
  }

  predicate IsPrintable(c: char) {
    ' ' <= c <= '~'
  }

  /** What `replaceAll("[^\\x20-\\x7E]", " ")` does to one character. */
  function Printable(c: char): (d: char)
    ensures IsPrintable(d)
    ensures IsPrintable(c) ==> d == c
  {
    if IsPrintable(c) then c else ' '
  }

  function ReplaceInvalid(s: string): (r: string)
    ensures |r| == |s| && forall i :: 0 <= i < |s| ==> r[i] == Printable(s[i])
  {
    seq(|s|, i requires 0 <= i < |s| => Printable(s[i]))
  }

  function Truncate(s: string): (r: string)
    ensures |r| <= MaxLength && |r| <= |s| && r == s[..|r|]
    ensures |s| <= MaxLength ==> r == s
  {
    if |s| > MaxLength then s[..MaxLength] else s
  }

  /** `sanitizeMessage` as written: strip, then cut, then replace. */
  function Sanitized(input: string): string
  {
    ReplaceInvalid(Truncate(StripAmpersands(input)))
  }

  /** Cutting after stripping can leave an '&' at the end: 63 letters, '&' and one
      more letter keep their '&' as the 64th and last character. */
  lemma TruncationExposesAmpersand()
    ensures var s := seq(63, _ => 'a') + "&b";
      |Sanitized(s)| == MaxLength && EndsWithAmpersand(Sanitized(s))
  {
    var s := seq(63, _ => 'a') + "&b";
    assert !EndsWithAmpersand(s);
    assert StripAmpersands(s) == s;
    assert Truncate(s)[63] == '&';
  }

  /** Sanitizing with the cut first and the strip second: no trailing '&'
      whatever the input's length. */
  function SanitizedCorrected(input: string): (r: string)
    ensures |r| <= MaxLength && |r| <= |input|
    ensures forall i :: 0 <= i < |r| ==> r[i] == Printable(input[i])
    ensures !EndsWithAmpersand(r)
    ensures |StripAmpersands(input)| <= MaxLength ==> r == Sanitized(input)
  {
    ReplaceInvalid(StripAmpersands(Truncate(input)))
  }
}
