// src/net/classicube/DualProtocolServer.java: the listening side of the
// ClassiCube server. It looks at the first bytes of each new connection:
// "GET" starts an HTTP exchange (a WebSocket upgrade for the web client, or a
// page from its cache), anything else is the native protocol and gets a
// client handler while there is room.
//
// A connection is a `Connection` whose `input` holds the bytes not yet read,
// all of them available (a read of n bytes gets min(n, what is left), -1 when
// nothing is left), and whose `output` holds the bytes written. SHA-1 and
// Base64 are parameters, and so is the number of connected clients.

module NetDualProtocolServer {
  import opened Wrappers
  import opened JavaNum
  import opened JavaText
  import opened JavaSplit

  /** The GUID section 4.2.2 of RFC 6455 appends to the client's key. */
  const WebSocketGuid: string := "258EAFA5-E914-47DA-95CA-C5AB0DC85B11"

  const Crlf: string := "\r\n"

  /** The size of the lookahead buffer and of the header buffer. */
  const LookaheadSize := 4
  const HeaderCapacity := 4092

  /** What `Arrays.copyOf` throws for a negative length, and what indexing
      past the end of an array throws. */
  const NegativeSize: string := "NegativeArraySizeException"
  const IndexOutOfBounds: string := "ArrayIndexOutOfBoundsException"

  /** The bytes 'G', 'E', 'T'. */
  const Get: seq<Octet> := [0x47, 0x45, 0x54]

  /** The page the cache holds for "/" until the web guest page replaces it:
      the bytes of "WEB GUEST DISABELD". */
  const DisabledPage: seq<Octet> :=
    [0x57, 0x45, 0x42, 0x20, 0x47, 0x55, 0x45, 0x53, 0x54, 0x20, 0x44, 0x49, 0x53, 0x41, 0x42, 0x45, 0x4C, 0x44]

  datatype CachedResponse = CachedResponse(content: seq<Octet>, contentType: string)

  /** How `handleInitialConnection` ends for one connection. */
  datatype Outcome =
    | Native(stream: seq<Octet>, started: bool)  // native protocol: the bytes the handler reads; whether it was started
    | Page(response: seq<Octet>)                 // plain HTTP: the bytes sent (none for an unknown path), then closed
    | Upgraded(response: seq<Octet>)             // WebSocket: the 101 response sent, a handler started
    | Unanswered                                 // "GET" and then nothing: nothing is done
    | Escaped(exception: string)                 // an unchecked exception leaves the connection listener
    | Dropped                                    // (corrected reader only) an empty connection is closed

  // ---- Reading the first bytes ----

  /** `in.read(b, 0, n)`: how many bytes were read (-1 when none are left)
      and the bytes. */
  function ReadUpTo(input: seq<Octet>, n: nat): (r: (int, seq<Octet>))
    requires n > 0
    ensures input == [] <==> r.0 == -1
    ensures r.0 >= 0 ==> r.0 == Min(n, |input|) && r.0 == |r.1| && r.1 == input[..r.0]
    ensures r.0 == -1 ==> r.1 == []
  {
    if input == [] then (-1, []) else (Min(n, |input|), input[..Min(n, |input|)])
  }

  function Min(a: int, b: int): int
  {
    if a < b then a else b
  }

  function Zeros(n: nat): (r: seq<Octet>)
    ensures |r| == n && forall i :: 0 <= i < n ==> r[i] == 0
  {
    seq(n, _ => 0)
  }

  /** The four-byte lookahead: the count `read` returned and the buffer,
      zero where nothing was read. */
  function Lookahead(input: seq<Octet>): (r: (int, seq<Octet>))
    ensures |r.1| == LookaheadSize
  {
    var (read, bytes) := ReadUpTo(input, LookaheadSize);
    (read, bytes + Zeros(LookaheadSize - |bytes|))
  }

  /** The test on the lookahead: something was read and the buffer starts
      with 'G', 'E', 'T'. */
  predicate IsGet(read: int, buffer: seq<Octet>)
    requires |buffer| == LookaheadSize
  {
    read > 0 && buffer[0] == 'G' as int && buffer[1] == 'E' as int && buffer[2] == 'T' as int
  }

  /** A connection goes the HTTP way exactly when its first three bytes are
      "GET": a shorter read leaves a zero where 'T' would be. */
  lemma SniffIff(input: seq<Octet>)
    ensures IsGet(Lookahead(input).0, Lookahead(input).1) <==> |input| >= 3 && input[..3] == Get
  {
    var (read, buffer) := Lookahead(input);
    if |input| >= 3 {
      assert buffer[..3] == input[..3];
    }
  }

  // ---- Request headers ----

  /** What `parseHeaders` keeps of one line: a line with ": " at an index
      above 0 gives the lowercased text before it and the text after it. */
  function Entry(line: string): Option<(string, string)>
  {
    match Find(line, ": ")
    case Some(c) => if c > 0 then Some((Lower(line[..c]), line[c + 2..])) else None
    case None => None
  }

  /** The map `parseHeaders` builds from the lines: each kept line puts its
      entry, over an earlier one with the same key. */
  function HeadersOf(lines: seq<string>): map<string, string>
    decreases |lines|
  {
    if lines == [] then map[]
    else
      var m := HeadersOf(lines[..|lines| - 1]);
      match Entry(lines[|lines| - 1])
      case None => m
      case Some((k, v)) => m[k := v]
  }

  /** `parseHeaders`: the header text split on CRLF, each line's entry put
      into the map in order. */
  method ParseHeaders(headerStr: string) returns (headers: map<string, string>)
    ensures headers == HeadersOf(Split(headerStr, Crlf))
  {
    var lines := Split(headerStr, Crlf);
    headers := map[];
    for i := 0 to |lines|
      invariant headers == HeadersOf(lines[..i])
    {
      var line := lines[i];
      HeadersStep(lines, i);
      var colon := Find(line, ": ");
      if colon.Some? && colon.value > 0 {
        headers := headers[Lower(line[..colon.value]) := line[colon.value + 2..]];
      }
    }
    assert lines[..|lines|] == lines;
  }

  predicate Defines(line: string, k: string)
  {
    Entry(line).Some? && Entry(line).value.0 == k
  }

  /** The last line that defines k: the reference for what the map holds. */
  function LastDefining(lines: seq<string>, k: string): (r: Option<nat>)
    ensures r.Some? ==> r.value < |lines| && Defines(lines[r.value], k)
    ensures r.Some? ==> forall j :: r.value < j < |lines| ==> !Defines(lines[j], k)
    ensures r.None? ==> forall j :: 0 <= j < |lines| ==> !Defines(lines[j], k)
    decreases |lines|
  {
    if lines == [] then None
    else if Defines(lines[|lines| - 1], k) then Some(|lines| - 1)
    else
      var init := lines[..|lines| - 1];
      assert forall j :: 0 <= j < |init| ==> init[j] == lines[j];
      LastDefining(init, k)
  }

  /** A key is in the map exactly when some line defines it, and its value is
      the one of the last line that does: a later duplicate wins. */
  lemma {:induction false} HeaderLookup(lines: seq<string>, k: string)
    ensures k in HeadersOf(lines) <==> LastDefining(lines, k).Some?
    ensures k in HeadersOf(lines) ==> HeadersOf(lines)[k] == Entry(lines[LastDefining(lines, k).value]).value.1
    decreases |lines|
  {
    if lines != [] && !Defines(lines[|lines| - 1], k) {
      HeaderLookup(lines[..|lines| - 1], k);
    }
  }

  /** Every key of the map is in lower case. */
  lemma {:induction false} HeaderKeysLower(lines: seq<string>)
    ensures forall k :: k in HeadersOf(lines) ==> Lower(k) == k
    decreases |lines|
  {
    if lines != [] {
      HeaderKeysLower(lines[..|lines| - 1]);
      match Entry(lines[|lines| - 1])
      case None =>
      case Some((k, v)) =>
        var line := lines[|lines| - 1];
        var c := Find(line, ": ").value;
        LowerIdempotent(line[..c]);
    }
  }

  /** A line "Name: value" with a name free of ':' gives the lowercased name
      and the value. */
  lemma EntryOf(name: string, value: string)
    requires name != [] && Free(name, ':')
    ensures Entry(name + ": " + value) == Some((Lower(name), value))
  {
    var line := name + ": " + value;
    assert line[|name|..|name| + 2] == ": ";
    FindFirstChar(line, ": ", |name|);
    assert line[..|name|] == name && line[|name| + 2..] == value;
  }

  /** A line without ':' is not kept. */
  lemma EntryNone(line: string)
    requires Free(line, ':')
    ensures Entry(line) == None
  {
    FindNone(line, ": ");
  }

  lemma HeadersSnoc(lines: seq<string>, line: string)
    ensures HeadersOf(lines + [line]) ==
      match Entry(line)
      case None => HeadersOf(lines)
      case Some((k, v)) => HeadersOf(lines)[k := v]
  {
    assert (lines + [line])[..|lines|] == lines;
  }

  lemma HeadersStep(lines: seq<string>, i: nat)
    requires i < |lines|
    ensures HeadersOf(lines[..i + 1]) ==
      if Entry(lines[i]).Some? then HeadersOf(lines[..i])[Entry(lines[i]).value.0 := Entry(lines[i]).value.1]
      else HeadersOf(lines[..i])
  {
    assert lines[..i + 1] == lines[..i] + [lines[i]];
    HeadersSnoc(lines[..i], lines[i]);
  }

  // ---- The upgrade check and the request path ----

  /** `isWebSocketUpgrade`: the upgrade header is "websocket" in any case and
      the protocol header is exactly "ClassiCube"; the Connection header is
      not looked at. */
  predicate IsWebSocketUpgrade(headers: map<string, string>)
  {
    "upgrade" in headers && EqualsIgnoreCase("websocket", headers["upgrade"]) &&
    "sec-websocket-protocol" in headers && headers["sec-websocket-protocol"] == "ClassiCube"
  }

  /** The check does not depend on the Connection header. */
  lemma UpgradeIgnoresConnection(headers: map<string, string>, value: string)
    ensures IsWebSocketUpgrade(headers["connection" := value]) <==> IsWebSocketUpgrade(headers)
    ensures IsWebSocketUpgrade(headers - {"connection"}) <==> IsWebSocketUpgrade(headers)
  {
  }

  /** The upgrade value is compared ignoring case, the protocol exactly. */
  lemma UpgradeCase(headers: map<string, string>)
    requires IsWebSocketUpgrade(headers)
    ensures IsWebSocketUpgrade(headers["upgrade" := "WebSocket"])
    ensures !IsWebSocketUpgrade(headers["sec-websocket-protocol" := "classicube"])
  {
    assert Lower("WebSocket") == "websocket";
    assert "classicube" != "ClassiCube" by {
      assert "classicube"[0] != "ClassiCube"[0];
    }
  }

  /** The first line that starts with "GET". */
  function RequestLine(lines: seq<string>): (r: Option<string>)
    ensures r.Some? ==> r.value in lines && StartsWith(r.value, "GET")
    ensures r.None? <==> forall i :: 0 <= i < |lines| ==> !StartsWith(lines[i], "GET")
  {
    if lines == [] then None
    else if StartsWith(lines[0], "GET") then Some(lines[0])
    else
      var r := RequestLine(lines[1..]);
      assert forall i :: 1 <= i < |lines| ==> lines[i] == lines[1..][i - 1];
      r
  }

  /** `getRequestedPath` as written: the second space-separated word of the
      first "GET" line, "" when there is no such line, and an exception when
      that line has no second word. */
  function RequestedPath(headerStr: string): Result<string>
  {
    match RequestLine(Split(headerStr, Crlf))
    case None => Ok("")
    case Some(line) =>
      var words := Split(line, " ");
      if |words| < 2 then Err(IndexOutOfBounds) else Ok(words[1])
  }

  /** For a request line "GET <path> <version>" first, the path. */
  lemma RequestedPathOfRequest(path: string, version: string, more: seq<string>)
    requires path != [] && version != []
    requires Free(path, ' ') && Free(path, '\r') && Free(version, ' ') && Free(version, '\r')
    requires forall i :: 0 <= i < |more| ==> Free(more[i], '\r')
    ensures RequestedPath(Join(["GET " + path + " " + version] + more, Crlf)) == Ok(path)
  {
    var line := "GET " + path + " " + version;
    RequestLineFree(path, version);
    var lines := [line] + more;
    forall i | 0 <= i < |lines|
      ensures Free(lines[i], '\r')
    {
      if i > 0 {
        assert lines[i] == more[i - 1];
      }
    }
    FirstLineRequest(lines);
    SplitRequestLine(path, version);
  }

  /** "GET <path> <version>" starts with "GET" and has no CR if its words have none. */
  lemma RequestLineFree(path: string, version: string)
    requires Free(path, '\r') && Free(version, '\r')
    ensures Free("GET " + path + " " + version, '\r') && StartsWith("GET " + path + " " + version, "GET")
  {
    var get := "GET";
    FreeOfThree(get, '\r');
    var space := " ";
    assert Free(space, '\r');
    var line := get + space + path + space + version;
    FreeAppend(get, space, '\r');
    FreeAppend(get + space, path, '\r');
    FreeAppend(get + space + path, space, '\r');
    FreeAppend(get + space + path + space, version, '\r');
    assert line == get + (space + path + space + version);
    assert line[..3] == get;
    assert "GET " == get + space;
    assert line == "GET " + path + " " + version;
  }

  /** The words of "GET <path> <version>". */
  lemma SplitRequestLine(path: string, version: string)
    requires path != [] && version != [] && Free(path, ' ') && Free(version, ' ')
    ensures Split("GET " + path + " " + version, " ") == ["GET", path, version]
  {
    var parts := ["GET", path, version];
    assert Join(parts, " ") == "GET " + path + " " + version by {
      assert parts[1..][1..] == [version];
      assert Join(parts[1..], " ") == path + " " + version;
      assert "GET " == "GET" + " ";
    }
    SplitOfJoin(parts, " ");
  }

  /** Lines free of CR whose first line starts with "GET": that line is the
      request line. */
  lemma FirstLineRequest(lines: seq<string>)
    requires |lines| >= 1 && StartsWith(lines[0], "GET")
    requires forall i :: 0 <= i < |lines| ==> Free(lines[i], '\r')
    ensures RequestLine(Split(Join(lines, Crlf), Crlf)) == Some(lines[0])
  {
    SplitOfJoin(lines, Crlf);
    var r := Split(Join(lines, Crlf), Crlf);
    assert |r| >= 1 && r[0] == lines[0];
  }

  lemma FreeAppend(a: string, b: string, c: char)
    requires Free(a, c) && Free(b, c)
    ensures Free(a + b, c)
  {
  }

  /** Three characters none of which is c. */
  lemma FreeOfThree(s: string, c: char)
    requires |s| == 3 && s[0] != c && s[1] != c && s[2] != c
    ensures Free(s, c)
  {
  }

  /** Finding: a "GET" line with no space (a bare "GET" line) makes
      `split(" ")[1]` throw. */
  lemma PathlessGetEscapes(more: seq<string>)
    requires forall i :: 0 <= i < |more| ==> Free(more[i], '\r')
    ensures RequestedPath(Join(["GET"] + more, Crlf)) == Err(IndexOutOfBounds)
  {
    BareGet();
    var lines := ["GET"] + more;
    forall i | 0 <= i < |lines|
      ensures Free(lines[i], '\r')
    {
      if i > 0 {
        assert lines[i] == more[i - 1];
      }
    }
    FirstLineRequest(lines);
  }

  /** The bare line "GET" has no CR and is one word. */
  lemma BareGet()
    ensures Free("GET", '\r') && StartsWith("GET", "GET") && Split("GET", " ") == ["GET"]
  {
    var get := "GET";
    FreeOfThree(get, '\r');
    FreeOfThree(get, ' ');
    FindNone(get, " ");
  }

  /** The path as intended: "" also when the "GET" line has no second word. */
  function RequestedPathCorrected(headerStr: string): (r: string)
    ensures RequestedPath(headerStr).Ok? ==> r == RequestedPath(headerStr).value
    ensures RequestedPath(headerStr).Err? ==> r == ""
  {
    match RequestLine(Split(headerStr, Crlf))
    case None => ""
    case Some(line) =>
      var words := Split(line, " ");
      if |words| < 2 then "" else words[1]
  }

  // ---- The answers ----

  /** `generateAcceptKey`: Base64 of the SHA-1 digest of the key followed by
      the GUID, SHA-1 and Base64 given as functions. */
  function AcceptKey(key: string, sha1: seq<Octet> -> seq<Octet>, base64: seq<Octet> -> string): string
  {
    base64(sha1(Utf8(key + WebSocketGuid)))
  }

  /** The 101 answer to an upgrade. */
  function HandshakeResponse(acceptKey: string): string
  {
    "HTTP/1.1 101 Switching Protocols\r\n" +
    "Upgrade: websocket\r\n" +
    "Connection: Upgrade\r\n" +
    "Sec-WebSocket-Accept: " + acceptKey + "\r\n" +
    "Sec-WebSocket-Protocol: ClassiCube\r\n\r\n"
  }

  /** `String.valueOf(n)` for n >= 0. */
  function Decimal(n: nat): (r: string)
    ensures r != []
    decreases n
  {
    (if n < 10 then "" else Decimal(n / 10)) + [('0' as int + n % 10) as char]
  }

  /** `sendResponse`: the 200 header with type and length, then the content. */
  function HttpOk(response: CachedResponse): seq<Octet>
  {
    Utf8("HTTP/1.1 200 OK\r\nContent-Type: " + response.contentType +
         "\r\nContent-Length: " + Decimal(|response.content|) + "\r\n\r\n") + response.content
  }

  /** `handleWebSocketRequest` on the header text. */
  function WebRequest(headerStr: string, cache: map<string, CachedResponse>,
                      sha1: seq<Octet> -> seq<Octet>, base64: seq<Octet> -> string): Outcome
  {
    var headers := HeadersOf(Split(headerStr, Crlf));
    if !IsWebSocketUpgrade(headers) || "sec-websocket-key" !in headers then
      match RequestedPath(headerStr)
      case Err(e) => Escaped(e)
      case Ok(path) => Page(if path in cache then HttpOk(cache[path]) else [])
    else Upgraded(Utf8(HandshakeResponse(AcceptKey(headers["sec-websocket-key"], sha1, base64))))
  }

  /** `handleInitialConnection` on the bytes the client sends. */
  function Dispatch(input: seq<Octet>, cache: map<string, CachedResponse>, clientCount: int, maxPlayers: int,
                    sha1: seq<Octet> -> seq<Octet>, base64: seq<Octet> -> string): Outcome
  {
    var (read, buffer) := Lookahead(input);
    if IsGet(read, buffer) then
      var (read2, header) := ReadUpTo(input[read..], HeaderCapacity);
      if read2 > 0 then WebRequest(Decode(buffer + header), cache, sha1, base64) else Unanswered
    else if read < 0 then Escaped(NegativeSize)
    else Native(buffer[..read] + input[read..], clientCount < maxPlayers)
  }

  /** The number of bytes a read returning n delivered. */
  function Count(n: int): nat
  {
    if n < 0 then 0 else n
  }

  /** The buffer after the lookahead read is the one `Lookahead` describes. */
  lemma LookaheadRead(input: seq<Octet>, buffer: seq<Octet>, read: int)
    requires |buffer| == LookaheadSize
    requires Count(read) <= LookaheadSize
    requires (read, buffer[..Count(read)]) == ReadUpTo(input, LookaheadSize)
    requires buffer[Count(read)..] == Zeros(LookaheadSize - Count(read))
    ensures (read, buffer) == Lookahead(input)
  {
    assert buffer == buffer[..Count(read)] + buffer[Count(read)..];
  }

  /** How many bytes `handleInitialConnection` itself takes from the socket. */
  function Consumed(input: seq<Octet>): (n: nat)
    ensures n <= |input|
  {
    var (read, buffer) := Lookahead(input);
    if read < 0 then 0
    else if IsGet(read, buffer) then read + |ReadUpTo(input[read..], HeaderCapacity).1|
    else read
  }

  /** A native connection's handler reads every byte the client sent, the
      lookahead ones first, none twice; it is started exactly while there is
      room. */
  lemma NativeKeepsEveryByte(input: seq<Octet>, cache: map<string, CachedResponse>, clientCount: int, maxPlayers: int,
                             sha1: seq<Octet> -> seq<Octet>, base64: seq<Octet> -> string)
    requires input != [] && !(|input| >= 3 && input[..3] == Get)
    ensures Dispatch(input, cache, clientCount, maxPlayers, sha1, base64) == Native(input, clientCount < maxPlayers)
  {
    SniffIff(input);
    var (read, buffer) := Lookahead(input);
    assert buffer[..read] == input[..read];
    assert input[..read] + input[read..] == input;
  }

  /** A "GET" connection never reaches the native handler. */
  lemma GetIsNeverNative(input: seq<Octet>, cache: map<string, CachedResponse>, clientCount: int, maxPlayers: int,
                         sha1: seq<Octet> -> seq<Octet>, base64: seq<Octet> -> string)
    requires |input| >= 3 && input[..3] == Get
    ensures !Dispatch(input, cache, clientCount, maxPlayers, sha1, base64).Native?
  {
    SniffIff(input);
  }

  /** Finding: a connection closed before its first byte makes
      `Arrays.copyOf(buffer, -1)` throw, which the listener does not catch. */
  lemma EmptyConnectionEscapes(cache: map<string, CachedResponse>, clientCount: int, maxPlayers: int,
                               sha1: seq<Octet> -> seq<Octet>, base64: seq<Octet> -> string)
    ensures Dispatch([], cache, clientCount, maxPlayers, sha1, base64) == Escaped(NegativeSize)
  {
  }

  /** The same steps with the two failures handled: an empty connection is
      closed, a path-less "GET" line asks for "". */
  function WebRequestCorrected(headerStr: string, cache: map<string, CachedResponse>,
                               sha1: seq<Octet> -> seq<Octet>, base64: seq<Octet> -> string): (o: Outcome)
    ensures !o.Escaped?
    ensures !WebRequest(headerStr, cache, sha1, base64).Escaped? ==> o == WebRequest(headerStr, cache, sha1, base64)
  {
    var headers := HeadersOf(Split(headerStr, Crlf));
    if !IsWebSocketUpgrade(headers) || "sec-websocket-key" !in headers then
      var path := RequestedPathCorrected(headerStr);
      Page(if path in cache then HttpOk(cache[path]) else [])
    else Upgraded(Utf8(HandshakeResponse(AcceptKey(headers["sec-websocket-key"], sha1, base64))))
  }

  function DispatchCorrected(input: seq<Octet>, cache: map<string, CachedResponse>, clientCount: int, maxPlayers: int,
                             sha1: seq<Octet> -> seq<Octet>, base64: seq<Octet> -> string): (o: Outcome)
    ensures !o.Escaped?
    ensures input == [] ==> o == Dropped
    ensures input != [] && !Dispatch(input, cache, clientCount, maxPlayers, sha1, base64).Escaped? ==>
      o == Dispatch(input, cache, clientCount, maxPlayers, sha1, base64)
  {
    var (read, buffer) := Lookahead(input);
    if IsGet(read, buffer) then
      var (read2, header) := ReadUpTo(input[read..], HeaderCapacity);
      if read2 > 0 then WebRequestCorrected(Decode(buffer + header), cache, sha1, base64) else Unanswered
    else if read < 0 then Dropped
    else Native(buffer[..read] + input[read..], clientCount < maxPlayers)
  }

  // ---- The sockets and the server ----

  /** One accepted socket. */
  class Connection {
    var input: seq<Octet>
    var output: seq<Octet>
    var closed: bool

    constructor (input: seq<Octet>)
      ensures this.input == input && output == [] && !closed
    {
      this.input := input;
      output, closed := [], false;
    }

    /** `getInputStream().read(b, off, len)`. */
    method Read(b: array<Octet>, off: nat, len: nat) returns (n: int)
      requires len > 0 && off + len <= b.Length
      modifies this`input, b
      ensures (n, Copied(b, off, n)) == ReadUpTo(old(input), len)
      ensures input == old(input)[Count(n)..]
      ensures b[..off] == old(b[..off]) && b[off + Count(n)..] == old(b[off + Count(n)..])
    {
      if input == [] {
        assert Copied(b, off, -1) == [];
        return -1;
      }
      n := Min(len, |input|);
      forall j | 0 <= j < n {
        b[off + j] := input[j];
      }
      assert b[off..off + n] == input[..n];
      input := input[n..];
    }
  }

  /** The bytes a read returning n put into b at off. */
  function Copied(b: array<Octet>, off: nat, n: int): seq<Octet>
    reads b
  {
    if off + Count(n) <= b.Length then b[off..off + Count(n)] else []
  }

  /** The two `System.arraycopy` calls: a new array holding the lookahead
      bytes followed by the first n bytes of the header buffer. */
  method Concat(lookahead: seq<Octet>, header: array<Octet>, n: nat) returns (full: array<Octet>)
    requires n <= header.Length
    ensures fresh(full) && full[..] == lookahead + header[..n]
  {
    full := new Octet[|lookahead| + n](_ => 0);
    forall j | 0 <= j < |lookahead| {
      full[j] := lookahead[j];
    }
    forall j | 0 <= j < n {
      full[|lookahead| + j] := header[j];
    }
  }

  class DualProtocolServer {
    /** `webCache`: pages by path. */
    var webCache: map<string, CachedResponse>
    /** The sockets of `wsClients`. */
    var wsClients: set<Connection>
    /** The input streams of the native client handlers started, in order. */
    var nativeStreams: seq<seq<Octet>>
    const maxPlayers: int

    /** The constructor without the web guest set-up: the cache answers "/"
        with the disabled page. */
    constructor (maxPlayers: int)
      ensures webCache == map["/" := CachedResponse(DisabledPage, "text/html")]
      ensures wsClients == {} && nativeStreams == [] && this.maxPlayers == maxPlayers
    {
      webCache := map["/" := CachedResponse(DisabledPage, "text/html")];
      wsClients, nativeStreams := {}, [];
      this.maxPlayers := maxPlayers;
    }

    /** `handleInitialConnection`. */
    method HandleInitialConnection(socket: Connection, clientCount: int,
                                   sha1: seq<Octet> -> seq<Octet>, base64: seq<Octet> -> string) returns (o: Outcome)
      modifies socket, this`wsClients, this`nativeStreams
      ensures o == Dispatch(old(socket.input), webCache, clientCount, maxPlayers, sha1, base64)
      ensures socket.input == old(socket.input)[Consumed(old(socket.input))..]
      ensures socket.output == old(socket.output) + (if o.Page? || o.Upgraded? then o.response else [])
      ensures socket.closed == (old(socket.closed) || o.Page? || (o.Native? && !o.started))
      ensures wsClients == old(wsClients) + (if o.Upgraded? then {socket} else {})
      ensures nativeStreams == old(nativeStreams) + (if o.Native? && o.started then [o.stream] else [])
    {
      ghost var input := socket.input;
      var buffer := new Octet[LookaheadSize](_ => 0);
      var read := socket.Read(buffer, 0, LookaheadSize);
      LookaheadRead(input, buffer[..], read);
      if read > 0 && buffer[0] == 'G' as int && buffer[1] == 'E' as int && buffer[2] == 'T' as int {
        o := HandleGet(socket, buffer[..], sha1, base64);
      } else if read < 0 {
        o := Escaped(NegativeSize);
      } else {
        o := HandleTcpConnection(socket, buffer[..read] + socket.input, clientCount);
      }
    }

    /** The "GET" branch of `handleInitialConnection`: one read of up to 4092
        bytes, and the request made of the four lookahead bytes and those. */
    method HandleGet(socket: Connection, lookahead: seq<Octet>,
                     sha1: seq<Octet> -> seq<Octet>, base64: seq<Octet> -> string) returns (o: Outcome)
      requires |lookahead| == LookaheadSize
      modifies socket, this`wsClients
      ensures var (read, header) := ReadUpTo(old(socket.input), HeaderCapacity);
        o == (if read > 0 then WebRequest(Decode(lookahead + header), webCache, sha1, base64) else Unanswered)
      ensures socket.input == old(socket.input)[|ReadUpTo(old(socket.input), HeaderCapacity).1|..]
      ensures socket.output == old(socket.output) + (if o.Page? || o.Upgraded? then o.response else [])
      ensures socket.closed == (old(socket.closed) || o.Page?)
      ensures wsClients == old(wsClients) + (if o.Upgraded? then {socket} else {})
    {
      var header := new Octet[HeaderCapacity](_ => 0);
      var read := socket.Read(header, 0, HeaderCapacity);
      if read > 0 {
        var fullHeader := Concat(lookahead, header, read);
        o := HandleWebSocketRequest(socket, Decode(fullHeader[..]), sha1, base64);
      } else {
        o := Unanswered;
      }
    }

    /** `handleWebSocketRequest`. */
    method HandleWebSocketRequest(socket: Connection, headerStr: string,
                                  sha1: seq<Octet> -> seq<Octet>, base64: seq<Octet> -> string) returns (o: Outcome)
      modifies socket`output, socket`closed, this`wsClients
      ensures o == WebRequest(headerStr, webCache, sha1, base64)
      ensures socket.output == old(socket.output) + (if o.Page? || o.Upgraded? then o.response else [])
      ensures socket.closed == (old(socket.closed) || o.Page?)
      ensures wsClients == old(wsClients) + (if o.Upgraded? then {socket} else {})
    {
      var headers := ParseHeaders(headerStr);
      if !IsWebSocketUpgrade(headers) || "sec-websocket-key" !in headers {
        var path := RequestedPath(headerStr);
        if path.Err? {
          return Escaped(path.reason);
        }
        o := HandleHttpRequest(socket, path.value);
        socket.closed := true;
        return;
      }
      var acceptKey := AcceptKey(headers["sec-websocket-key"], sha1, base64);
      var response := Utf8(HandshakeResponse(acceptKey));
      socket.output := socket.output + response;
      wsClients := wsClients + {socket};
      o := Upgraded(response);
    }

    /** `handleHttpRequest`: the cached page for the path, if any, sent and
        the socket closed; nothing for an unknown path. */
    method HandleHttpRequest(socket: Connection, path: string) returns (o: Outcome)
      modifies socket`output, socket`closed
      ensures o == Page(if path in webCache then HttpOk(webCache[path]) else [])
      ensures socket.output == old(socket.output) + o.response
      ensures socket.closed == (old(socket.closed) || path in webCache)
    {
      if path in webCache {
        var response := HttpOk(webCache[path]);
        socket.output := socket.output + response;
        socket.closed := true;
        return Page(response);
      }
      return Page([]);
    }

    /** `handleTCPConnection`: a handler on the stream while the client count
        is below the maximum, otherwise the socket is closed. */
    method HandleTcpConnection(socket: Connection, stream: seq<Octet>, clientCount: int) returns (o: Outcome)
      modifies socket`closed, this`nativeStreams
      ensures o == Native(stream, clientCount < maxPlayers)
      ensures socket.closed == (old(socket.closed) || clientCount >= maxPlayers)
      ensures nativeStreams == old(nativeStreams) + (if clientCount < maxPlayers then [stream] else [])
    {
      if clientCount < maxPlayers {
        nativeStreams := nativeStreams + [stream];
      } else {
        socket.closed := true;
      }
      o := Native(stream, clientCount < maxPlayers);
    }
  }
}
