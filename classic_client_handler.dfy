// src/classic/ClientHandler.java: one player's session on the single-world
// server, and the static table of connected clients keyed by player id.
//
// The socket's output is the sequence `sent` of packets written to it; the
// socket's input is replaced by the decoded packet fields passed in. Writes are
// taken to succeed, `isConnected()` to hold, and the concurrent table becomes a
// plain map updated one call at a time.

module ClassicClientHandler {
  import opened Wrappers
  import opened JavaNum
  import ClassicLevel
  import ClassicBlockType
  import ClassicPacketType
  import ClassicMessagePacket
  import ClassicLevelGenerator
  import LevelFormat
  import NetClientHandler
  import NetLevelDataChunkPacket

  const ChunkSize := 1024
  /** Raw units added to the spawn height: one block and a bit over half. */
  const SpawnLift := 51
  /** The largest block id `isValidBlockChange` accepts. */
  const MaxBlockId := 49

  /** A packet as the handler writes it to a client's stream. */
  datatype Packet =
    | ServerIdentification(protocolVersion: JByte, serverName: string, serverMotd: string, userType: JByte)
    | LevelInitialize
    | LevelDataChunk(chunkLength: JShort, chunkData: seq<JByte>, percentComplete: JByte)
    | LevelFinalize(xSize: JShort, ySize: JShort, zSize: JShort)
    | SpawnPlayer(playerId: JByte, playerName: string, x: JShort, y: JShort, z: JShort, yaw: JByte, pitch: JByte)
    | ServerPosition(playerId: JByte, x: JShort, y: JShort, z: JShort, yaw: JByte, pitch: JByte)
    | SetBlockServer(x: JShort, y: JShort, z: JShort, blockType: JByte)
    /** The client-format block packet (opcode 0x05), which the
        default-package handler also writes to clients. */
    | SetBlock(x: JShort, y: JShort, z: JShort, mode: JByte, blockType: JByte)
    | DespawnPlayer(playerId: JByte)
    | Message(playerId: JByte, message: string)
    | DisconnectPlayer(reason: string)

  /** What the handler asks of the server object. */
  datatype ServerSettings = ServerSettings(protocolVersion: JByte, serverName: string, serverMotd: string)

  // ---- Player ids ----

  /** The counter after `getNextPlayerId`: a byte post-increment, put back to
      0 once it has turned negative. */
  function FollowingId(n: JByte): (m: JByte)
    ensures 0 <= n ==> m == (n + 1) % 128
  {
    var next := ToByte(n + 1);
    if next < 0 then 0 else next
  }

  /** The ids k successive calls hand out from a counter at n. */
  function IdsFrom(n: JByte, k: nat): (r: seq<JByte>)
    ensures |r| == k
    decreases k
  {
    if k == 0 then [] else [n] + IdsFrom(FollowingId(n), k - 1)
  }

  /** From any counter in 0..127, the i-th id handed out is n + i modulo 128:
      the ids stay in 0..127 and come round again after 128 calls, whether or
      not their holders have left. */
  lemma {:induction false} IdsCycle(n: JByte, k: nat)
    requires 0 <= n <= 127
    ensures forall i :: 0 <= i < k ==> IdsFrom(n, k)[i] == (n + i) % 128
    decreases k
  {
    if k > 0 {
      var m := FollowingId(n);
      IdsCycle(m, k - 1);
      forall i | 0 <= i < k
        ensures IdsFrom(n, k)[i] == (n + i) % 128
      {
        if i > 0 {
          assert IdsFrom(n, k)[i] == IdsFrom(m, k - 1)[i - 1];
          if n < 127 {
            assert m == n + 1;
          } else {
            assert m == 0;
            assert (n + i) % 128 == (i - 1) % 128;
          }
        }
      }
    }
  }

  /** The 129th handler gets the first one's id again. */
  lemma IdReused()
    ensures IdsFrom(0, 129)[128] == IdsFrom(0, 129)[0] == 0
  {
    IdsCycle(0, 129);
  }

  // ---- The client table, keyed by id ----

  /** `clients.put(playerId, this)`: whoever held the id is replaced. */
  function AfterJoin(clients: map<JByte, ClientHandler>, id: JByte, h: ClientHandler): (r: map<JByte, ClientHandler>)
    ensures id in r && r[id] == h
    ensures forall k :: k in r && k != id ==> k in clients && r[k] == clients[k]
    ensures forall k :: k in clients ==> k in r
  {
    clients[id := h]
  }

  /** The table after `disconnectPlayer` as written: for any id but -1,
      `clients.remove(playerId)` drops the entry under the id, whichever
      handler it holds. */
  function AfterDisconnect(clients: map<JByte, ClientHandler>, id: JByte): (r: map<JByte, ClientHandler>)
    ensures id != -1 ==> id !in r
    ensures forall k :: k in clients && k != id ==> k in r && r[k] == clients[k]
    ensures forall k :: k in r ==> k in clients && r[k] == clients[k]
  {
    if id != -1 then clients - {id} else clients
  }

  /** A player whose id has been handed out again, when leaving, takes the
      newcomer's entry with it: after a joins under 0 and b joins under the
      reused 0, a's disconnect leaves b out of the table. */
  lemma ReusedIdDropsNewcomer(a: ClientHandler, b: ClientHandler)
    requires a != b
    ensures var afterB := AfterJoin(AfterJoin(map[], 0, a), 0, b);
      b in afterB.Values && b !in AfterDisconnect(afterB, 0).Values
  {
    var afterB := AfterJoin(AfterJoin(map[], 0, a), 0, b);
    assert afterB[0] == b;
    assert AfterDisconnect(afterB, 0) == map[];
  }

  /** The removal the table needs, `clients.remove(playerId, this)`: the entry
      goes only while it still holds the leaving handler. */
  function AfterDisconnectCorrected(clients: map<JByte, ClientHandler>, id: JByte, h: ClientHandler): (r: map<JByte, ClientHandler>)
    ensures h !in r.Values || h in clients.Values
    ensures forall k :: k in clients ==> (k in r <==> !(k == id && clients[k] == h))
    ensures forall k :: k in r ==> k in clients && r[k] == clients[k]
  {
    if id in clients && clients[id] == h then clients - {id} else clients
  }

  /** The corrected removal keeps every handler other than the leaving one. */
  lemma CorrectedKeepsOthers(clients: map<JByte, ClientHandler>, id: JByte, h: ClientHandler, other: ClientHandler)
    requires other in clients.Values && other != h
    ensures other in AfterDisconnectCorrected(clients, id, h).Values
  {
    var k :| k in clients && clients[k] == other;
    assert AfterDisconnectCorrected(clients, id, h)[k] == other;
  }

  /** With the corrected removal, the newcomer of `ReusedIdDropsNewcomer` stays. */
  lemma CorrectedKeepsNewcomer(a: ClientHandler, b: ClientHandler)
    requires a != b
    ensures b in AfterDisconnectCorrected(AfterJoin(AfterJoin(map[], 0, a), 0, b), 0, a).Values
  {
    var afterB := AfterJoin(AfterJoin(map[], 0, a), 0, b);
    CorrectedKeepsOthers(afterB, 0, a, b);
  }

  // ---- Validation ----

  /** `isValidPosition`: the raw coordinates, divided by 32 with Java's
      truncating division, name a block inside the level. */
  predicate IsValidPosition(newX: JShort, newY: JShort, newZ: JShort, width: JShort, height: JShort, depth: JShort) {
    0 <= JavaDiv(newX, 32) < width && 0 <= JavaDiv(newY, 32) < height && 0 <= JavaDiv(newZ, 32) < depth
  }

  lemma DivRange(a: int, w: int)
    ensures 0 <= JavaDiv(a, 32) < w <==> 0 < w && -32 < a < 32 * w
  {
  }

  /** The check accepts exactly the raw coordinates from -31 up to 32 times the
      dimension, less one: the truncating division lets -31..-1, which lie in
      block -1 outside the level, through as block 0. */
  lemma PositionValidRange(newX: JShort, newY: JShort, newZ: JShort, width: JShort, height: JShort, depth: JShort)
    ensures IsValidPosition(newX, newY, newZ, width, height, depth) <==>
      0 < width && -32 < newX < 32 * width &&
      0 < height && -32 < newY < 32 * height &&
      0 < depth && -32 < newZ < 32 * depth
  {
    DivRange(newX, width);
    DivRange(newY, height);
    DivRange(newZ, depth);
  }

  /** `isValidBlockChange`: the coordinates lie inside the level, the mode is
      0 or 1 and the block type 0..49. */
  predicate IsValidBlockChange(px: JShort, py: JShort, pz: JShort, mode: JByte, blockType: JByte,
                               width: JShort, height: JShort, depth: JShort)
  {
    0 <= px < width && 0 <= py < height && 0 <= pz < depth &&
    (mode == 0 || mode == 1) &&
    0 <= blockType <= MaxBlockId
  }

  /** A change passes exactly when its cell is in the level, its mode is
      destroy or place, and its type is one `BlockType.getById` knows. */
  lemma BlockChangeExact(px: JShort, py: JShort, pz: JShort, mode: JByte, blockType: JByte,
                         width: JShort, height: JShort, depth: JShort)
    ensures IsValidBlockChange(px, py, pz, mode, blockType, width, height, depth) <==>
      LevelFormat.InBox(px, py, pz, width, height, depth) && mode in {0, 1} &&
      ClassicBlockType.GetById(blockType).Some?
  {
    ClassicBlockType.GetByIdDefined(blockType);
  }

  /** The block an accepted change writes: air for mode 0, the type for 1. */
  function WrittenBlock(mode: JByte, blockType: JByte): JByte
  {
    if mode == 0 then 0 else blockType
  }

  /** `server.getBlock`: the level's cell, or air outside the level. */
  ghost function CurrentBlock(level: ClassicLevel.Level, x: int, y: int, z: int): JByte
    requires level.Valid()
    reads level.blocks
  {
    if LevelFormat.InBox(x, y, z, level.width, level.height, level.depth) then level.blocks[x, y, z] else 0
  }

  // ---- The game loop's dispatch ----

  datatype Handler = PositionHandler | BlockHandler | MessageHandler

  /** The `switch` of `gameLoop` on `PacketType.fromId` of the byte read;
      every other type is logged and skipped. */
  function HandlerFor(t: ClassicPacketType.PacketType): (r: Option<Handler>)
    ensures r == Some(PositionHandler) <==> t == ClassicPacketType.POSITION_ORIENTATION
    ensures r == Some(BlockHandler) <==> t == ClassicPacketType.SET_BLOCK
    ensures r == Some(MessageHandler) <==> t == ClassicPacketType.MESSAGE
  {
    match t
    case POSITION_ORIENTATION => Some(PositionHandler)
    case SET_BLOCK => Some(BlockHandler)
    case MESSAGE => Some(MessageHandler)
    case _ => None
  }

  /** The byte of a position update reaches the position handler and never
      the chat one: 0x08 and 0x0d resolve to the client-side constants. */
  lemma DispatchOfBytes()
    ensures HandlerFor(ClassicPacketType.FromId(0x08)) == Some(PositionHandler)
    ensures HandlerFor(ClassicPacketType.FromId(0x05)) == Some(BlockHandler)
    ensures HandlerFor(ClassicPacketType.FromId(0x0d)) == Some(MessageHandler)
    ensures HandlerFor(ClassicPacketType.FromId(0x0c)) == None
  {
    ClassicPacketType.FromIdExamples(0x08);
    ClassicPacketType.FromIdExamples(0x0d);
  }

  // ---- Spawning ----

  /** `(short) (getWidth() / 2 * 32)`, and the same for the depth. */
  function SpawnX(width: JShort): JShort { ToShort(JavaDiv(width, 2) * 32) }

  /** `(short) ((getHeight() / 2 * 32) + 51)`. */
  function SpawnY(height: JShort): JShort { ToShort(JavaDiv(height, 2) * 32 + SpawnLift) }

  /** Where spawning puts a player lies in the middle column, and passes the
      position check of the same level exactly when the level is at least
      three blocks high: the lift of 51 units puts the player in the block
      above the middle one. */
  lemma SpawnValidExactly(width: JShort, height: JShort, depth: JShort)
    requires 1 <= width <= 2047 && 1 <= height <= 2045 && 1 <= depth <= 2047
    ensures SpawnX(width) == width / 2 * 32 && SpawnX(depth) == depth / 2 * 32
    ensures SpawnY(height) == height / 2 * 32 + SpawnLift
    ensures IsValidPosition(SpawnX(width), SpawnY(height), SpawnX(depth), width, height, depth) <==> height >= 3
  {
    assert JavaDiv(height / 2 * 32 + SpawnLift, 32) == height / 2 + 1;
  }

  // ---- Level transfer ----

  /** The bytes of chunk k that carry data: at most 1024. */
  function ChunkLength(n: nat, k: nat): (m: nat)
    requires k * ChunkSize < n
    ensures 0 < m <= ChunkSize
  {
    NetClientHandler.Min(ChunkSize, n - k * ChunkSize)
  }

  /** The chunk packets `sendCompressedLevelData` writes for the compressed
      bytes, in order: the length set by `setChunkLength`, the zero-filled
      1024-byte buffer, and the percentage. */
  function Chunks(data: seq<JByte>): (r: seq<Packet>)
    ensures |r| == NetClientHandler.ChunkCount(|data|)
  {
    var total := NetClientHandler.ChunkCount(|data|);
    seq(total, k requires 0 <= k < total =>
      NetClientHandler.ChunkStart(k, |data|);
      LevelDataChunk(ChunkLength(|data|, k) as JShort, NetClientHandler.ChunkBytes(data, k),
                     NetClientHandler.Percent(k, total)))
  }

  /** The bytes of one chunk packet that its length field marks as data. */
  function Used(p: Packet): seq<JByte>
  {
    if p.LevelDataChunk? && 0 <= p.chunkLength <= |p.chunkData| then p.chunkData[..p.chunkLength] else []
  }

  /** What a receiver puts back together from chunk packets. */
  function Payload(chunks: seq<Packet>): seq<JByte>
  {
    if chunks == [] then [] else Payload(chunks[..|chunks| - 1]) + Used(chunks[|chunks| - 1])
  }

  /** Packets whose data parts are the consecutive 1024-byte stretches of
      the data put back its first k * 1024 bytes from their first k. */
  lemma {:induction false} PayloadPrefix(data: seq<JByte>, c: seq<Packet>, k: nat)
    requires k <= |c|
    requires forall i :: 0 <= i < |c| ==>
      (i * ChunkSize < |data| &&
       Used(c[i]) == data[i * ChunkSize .. NetClientHandler.Min((i + 1) * ChunkSize, |data|)])
    ensures Payload(c[..k]) == data[..NetClientHandler.Min(k * ChunkSize, |data|)]
  {
    if k > 0 {
      var s := (k - 1) * ChunkSize;
      var e := NetClientHandler.Min(k * ChunkSize, |data|);
      assert s < |data| && Used(c[k - 1]) == data[s .. e];
      PayloadSnoc(c, k);
      PayloadPrefix(data, c, k - 1);
      SliceSplit(data, s, e);
    }
  }

  lemma PayloadSnoc(c: seq<Packet>, k: nat)
    requires 0 < k <= |c|
    ensures Payload(c[..k]) == Payload(c[..k - 1]) + Used(c[k - 1])
  {
    assert c[..k][..k - 1] == c[..k - 1];
  }

  lemma SliceSplit<T>(s: seq<T>, i: nat, j: nat)
    requires i <= j <= |s|
    ensures s[..j] == s[..i] + s[i .. j]
  {
  }

  /** The data part of chunk k is the stretch of the data from k * 1024 to
      the next chunk's start or the end of the data. */
  lemma UsedChunk(data: seq<JByte>, k: nat)
    requires k < NetClientHandler.ChunkCount(|data|)
    ensures k * ChunkSize < |data|
    ensures Used(Chunks(data)[k]) == data[k * ChunkSize .. NetClientHandler.Min((k + 1) * ChunkSize, |data|)]
  {
    NetClientHandler.ChunkStart(k, |data|);
    var c := Chunks(data)[k];
    assert c.chunkLength == ChunkLength(|data|, k);
    assert c.chunkData == NetClientHandler.ChunkBytes(data, k);
  }

  /** The data parts of the chunks, in order, are exactly the compressed
      bytes: nothing lost, nothing repeated, no padding. */
  lemma ChunksReassemble(data: seq<JByte>)
    ensures Payload(Chunks(data)) == data
  {
    var c := Chunks(data);
    var total := NetClientHandler.ChunkCount(|data|);
    forall i | 0 <= i < |c|
      ensures i * ChunkSize < |data| &&
        Used(c[i]) == data[i * ChunkSize .. NetClientHandler.Min((i + 1) * ChunkSize, |data|)]
    {
      UsedChunk(data, i);
    }
    PayloadPrefix(data, c, total);
    assert c[..total] == c;
    if total > 0 {
      NetClientHandler.ChunkStart(total - 1, |data|);
    }
  }

  /** Every chunk is a full 1024-byte buffer whose length field counts its
      data bytes; the percentages never fall and the last is 100. */
  lemma ChunkFields(data: seq<JByte>, k: nat)
    requires k < NetClientHandler.ChunkCount(|data|)
    ensures var c := Chunks(data)[k];
      |c.chunkData| == ChunkSize && 0 < c.chunkLength <= ChunkSize &&
      0 <= c.percentComplete <= 100 &&
      (k + 1 < |Chunks(data)| ==> c.percentComplete <= Chunks(data)[k + 1].percentComplete) &&
      (k + 1 == |Chunks(data)| ==> c.percentComplete == 100)
  {
    NetClientHandler.ChunkStart(k, |data|);
    NetClientHandler.ChunkPercents(NetClientHandler.ChunkCount(|data|), k);
    if k + 1 < NetClientHandler.ChunkCount(|data|) {
      NetClientHandler.ChunkStart(k + 1, |data|);
    }
  }

  /** Everything `sendLevelData` writes: LevelInitialize, the chunks of the
      compressed, length-prefixed block data, and LevelFinalize with the
      dimensions. */
  ghost function LevelTransfer(level: ClassicLevel.Level, gzip: seq<Octet> -> seq<Octet>): seq<Packet>
    requires level.Valid()
    reads level.blocks
  {
    var data := LevelFormat.Flatten(level.Cells(), level.width, level.height, level.depth);
    [LevelInitialize] + Chunks(JBytes(gzip(ClassicLevelGenerator.LengthPrefixed(data)))) +
    [LevelFinalize(level.GetWidth(), level.GetHeight(), level.GetDepth())]
  }

  // ---- The handler ----

  /** Broadcast loop over a set of clients. */
  method SendAll(p: Packet, recipients: set<ClientHandler>)
    modifies recipients`sent
    ensures forall c :: c in recipients ==> c.sent == old(c.sent) + [p]
  {
    var rest := recipients;
    while rest != {}
      invariant rest <= recipients
      invariant forall c :: c in recipients - rest ==> c.sent == old(c.sent) + [p]
      invariant forall c :: c in rest ==> c.sent == old(c.sent)
      decreases |rest|
    {
      var c :| c in rest;
      c.sent := c.sent + [p];
      rest := rest - {c};
    }
  }

  /** The spawn packets of a sequence of clients. */
  ghost function Spawns(order: seq<ClientHandler>): seq<Packet>
    reads (set c | c in order)`username, (set c | c in order)`x, (set c | c in order)`y,
      (set c | c in order)`z, (set c | c in order)`yaw, (set c | c in order)`pitch
  {
    if order == [] then [] else Spawns(order[..|order| - 1]) + [order[|order| - 1].SpawnOf()]
  }

  lemma SpawnsAppend(order: seq<ClientHandler>, c: ClientHandler)
    ensures Spawns(order + [c]) == Spawns(order) + [c.SpawnOf()]
  {
    assert (order + [c])[..|order|] == order;
  }

  /** The static fields of the handler class: the client table and the id
      counter. */
  class ClientTable {
    var clients: map<JByte, ClientHandler>
    var nextPlayerId: JByte

    ghost predicate Valid()
      reads this
    {
      0 <= nextPlayerId <= 127
    }

    constructor ()
      ensures clients == map[] && nextPlayerId == 0 && Valid()
    {
      clients, nextPlayerId := map[], 0;
    }

    /** `getNextPlayerId`. */
    method NextPlayerId() returns (id: JByte)
      modifies this`nextPlayerId
      ensures id == old(nextPlayerId) && nextPlayerId == FollowingId(id)
      ensures old(Valid()) ==> Valid() && 0 <= id <= 127
    {
      id := nextPlayerId;
      nextPlayerId := ToByte(nextPlayerId + 1);
      if nextPlayerId < 0 {
        nextPlayerId := 0;
      }
    }

    /** The clients other than h. */
    function Others(h: ClientHandler): set<ClientHandler>
      reads this
    {
      clients.Values - {h}
    }
  }

  class ClientHandler {
    const playerId: JByte
    var username: string
    var x: JShort
    var y: JShort
    var z: JShort
    var yaw: JByte
    var pitch: JByte
    /** Everything written to this client's socket, in order. */
    var sent: seq<Packet>
    /** Whether the server has closed this socket. */
    var closed: bool

    /** A new handler takes the next id from the counter. */
    constructor (table: ClientTable)
      modifies table`nextPlayerId
      ensures playerId == old(table.nextPlayerId) && table.nextPlayerId == FollowingId(playerId)
      ensures username == "" && sent == [] && !closed
      ensures x == 0 && y == 0 && z == 0 && yaw == 0 && pitch == 0
    {
      var id := table.NextPlayerId();
      playerId := id;
      username := "";
      x, y, z, yaw, pitch := 0, 0, 0, 0, 0;
      sent := [];
      closed := false;
    }

    /** The spawn packet describing this player to another client. */
    function SpawnOf(): Packet
      reads this`username, this`x, this`y, this`z, this`yaw, this`pitch
    {
      SpawnPlayer(playerId, username, x, y, z, yaw, pitch)
    }

    /** `handlePlayerIdentification`: the first byte must be 0x00 and the
        protocol version the server's; otherwise the player is disconnected
        with the reason. On success the name is stored and the server's
        identification is sent. */
    method HandlePlayerIdentification(firstPacketId: JByte, protocolVersion: JByte, name: string,
                                      server: ServerSettings, table: ClientTable) returns (ok: bool)
      modifies this`username, this`sent, this`closed, table`clients, table.clients.Values`sent
      ensures ok <==> firstPacketId == 0 && protocolVersion == server.protocolVersion
      ensures ok ==> username == name && closed == old(closed) && table.clients == old(table.clients)
      ensures ok ==>
        sent == old(sent) + [ServerIdentification(server.protocolVersion, server.serverName, server.serverMotd, 0)]
      ensures ok ==> forall c :: c in table.clients.Values && c != this ==> c.sent == old(c.sent)
      ensures !ok ==> username == old(username) && closed
      ensures !ok ==> table.clients == AfterDisconnect(old(table.clients), playerId)
      ensures !ok ==>
        var reason := if firstPacketId != 0 then "Invalid initial packet" else "Incompatible protocol version";
        sent == old(sent) + (if old(closed) then [] else [DisconnectPlayer(reason)])
      ensures !ok ==> forall c :: c in old(table.clients.Values) && c != this ==>
        c.sent == old(c.sent) + (if playerId != -1 && c in table.clients.Values then [DespawnPlayer(playerId)] else [])
    {
      if firstPacketId != ClassicPacketType.Id(ClassicPacketType.PLAYER_IDENTIFICATION) {
        Disconnect("Invalid initial packet", table);
        return false;
      }
      if protocolVersion != server.protocolVersion {
        Disconnect("Incompatible protocol version", table);
        return false;
      }
      username := name;
      sent := sent + [ServerIdentification(server.protocolVersion, server.serverName, server.serverMotd, 0)];
      return true;
    }

    /** What `run` does after a successful identification and before the
        game loop: the level, the spawn, the spawn exchange, then the entry in
        the table under this handler's id. */
    method Join(level: ClassicLevel.Level, gzip: seq<Octet> -> seq<Octet>, table: ClientTable)
      returns (ghost order: seq<ClientHandler>)
      requires level.Valid()
      modifies this`x, this`y, this`z, this`yaw, this`pitch, this`sent, table`clients, table.Others(this)`sent
      ensures x == SpawnX(level.GetWidth()) && y == SpawnY(level.GetHeight()) && z == SpawnX(level.GetDepth())
      ensures yaw == 0 && pitch == 0
      ensures sent == old(sent) + LevelTransfer(level, gzip) +
        [SpawnPlayer(-1, username, x, y, z, 0, 0), ServerPosition(-1, x, y, z, 0, 0)] + Spawns(order)
      ensures forall c :: c in order <==> c in old(table.Others(this))
      ensures forall c :: c in old(table.Others(this)) ==> c.sent == old(c.sent) + [SpawnOf()]
      ensures table.clients == AfterJoin(old(table.clients), playerId, this)
    {
      Enter(level, gzip);
      order := Announce(table);
    }

    /** The part of the join that goes to this client alone. */
    method Enter(level: ClassicLevel.Level, gzip: seq<Octet> -> seq<Octet>)
      requires level.Valid()
      modifies this`x, this`y, this`z, this`yaw, this`pitch, this`sent
      ensures x == SpawnX(level.GetWidth()) && y == SpawnY(level.GetHeight()) && z == SpawnX(level.GetDepth())
      ensures yaw == 0 && pitch == 0
      ensures sent == old(sent) + LevelTransfer(level, gzip) +
        [SpawnPlayer(-1, username, x, y, z, 0, 0), ServerPosition(-1, x, y, z, 0, 0)]
    {
      SendLevelData(level, gzip);
      Spawn(level);
    }

    /** The spawn exchange, then the entry in the table. */
    method Announce(table: ClientTable) returns (ghost order: seq<ClientHandler>)
      modifies this`sent, table`clients, table.Others(this)`sent
      ensures sent == old(sent) + Spawns(order)
      ensures forall c :: c in order <==> c in old(table.Others(this))
      ensures forall c :: c in old(table.Others(this)) ==> c.sent == old(c.sent) + [SpawnOf()]
      ensures table.clients == AfterJoin(old(table.clients), playerId, this)
    {
      order := BroadcastSpawn(table);
      table.clients := table.clients[playerId := this];
    }

    /** `sendLevelData`. */
    method SendLevelData(level: ClassicLevel.Level, gzip: seq<Octet> -> seq<Octet>)
      requires level.Valid()
      modifies this`sent
      ensures sent == old(sent) + LevelTransfer(level, gzip)
    {
      sent := sent + [LevelInitialize];
      var levelData := level.GetBlockData();
      var compressed := JBytes(gzip(ClassicLevelGenerator.LengthPrefixed(levelData)));
      SendCompressedLevelData(compressed);
      sent := sent + [LevelFinalize(level.GetWidth(), level.GetHeight(), level.GetDepth())];
    }

    /** The chunk loop of `sendCompressedLevelData`. */
    method SendCompressedLevelData(compressed: seq<JByte>)
      modifies this`sent
      ensures sent == old(sent) + Chunks(compressed)
    {
      var total := NetClientHandler.ChunkCount(|compressed|);
      var i := 0;
      var chunkIndex := 0;
      while i < |compressed|
        invariant i == chunkIndex * ChunkSize
        invariant chunkIndex <= total
        invariant i < |compressed| ==> chunkIndex < total
        invariant i >= |compressed| ==> chunkIndex == total
        invariant sent == old(sent) + Chunks(compressed)[..chunkIndex]
        decreases |compressed| - i
      {
        NetClientHandler.ChunkStart(chunkIndex, |compressed|);
        var remainingBytes := NetClientHandler.Min(ChunkSize, |compressed| - i);
        var chunkData := compressed[i .. i + remainingBytes] + NetLevelDataChunkPacket.ZeroBytes(ChunkSize - remainingBytes);
        var chunk := LevelDataChunk(remainingBytes as JShort, chunkData, NetClientHandler.Percent(chunkIndex, total));
        assert chunk == Chunks(compressed)[chunkIndex];
        sent := sent + [chunk];
        assert Chunks(compressed)[..chunkIndex + 1] == Chunks(compressed)[..chunkIndex] + [Chunks(compressed)[chunkIndex]];
        i := i + ChunkSize;
        chunkIndex := chunkIndex + 1;
        if i < |compressed| {
          NetClientHandler.ChunkStart(chunkIndex, |compressed|);
        }
      }
      assert Chunks(compressed)[..chunkIndex] == Chunks(compressed);
    }

    /** `spawnPlayer`: the pose becomes the middle of the level, one block and
        a bit up, facing 0; the client gets its own spawn and position with id
        -1. */
    method Spawn(level: ClassicLevel.Level)
      modifies this`x, this`y, this`z, this`yaw, this`pitch, this`sent
      ensures x == SpawnX(level.GetWidth()) && y == SpawnY(level.GetHeight()) && z == SpawnX(level.GetDepth())
      ensures yaw == 0 && pitch == 0
      ensures sent == old(sent) + [SpawnPlayer(-1, username, x, y, z, 0, 0), ServerPosition(-1, x, y, z, 0, 0)]
    {
      x := SpawnX(level.GetWidth());
      y := SpawnY(level.GetHeight());
      z := SpawnX(level.GetDepth());
      yaw, pitch := 0, 0;
      sent := sent + [SpawnPlayer(-1, username, x, y, z, yaw, pitch)];
      sent := sent + [ServerPosition(-1, x, y, z, yaw, pitch)];
    }

    /** `broadcastSpawn`: every other client gets this player's spawn, and
        this player gets theirs. */
    method BroadcastSpawn(table: ClientTable) returns (ghost order: seq<ClientHandler>)
      modifies this`sent, table.Others(this)`sent
      ensures forall c :: c in order <==> c in table.Others(this)
      ensures sent == old(sent) + Spawns(order)
      ensures forall c :: c in table.Others(this) ==> c.sent == old(c.sent) + [SpawnOf()]
    {
      order := ExchangeAll(table.Others(this));
    }

    /** The loop of `broadcastSpawn` over the other clients. */
    method ExchangeAll(others: set<ClientHandler>) returns (ghost order: seq<ClientHandler>)
      requires this !in others
      modifies this`sent, others`sent
      ensures forall c :: c in order <==> c in others
      ensures sent == old(sent) + Spawns(order)
      ensures forall c :: c in others ==> c.sent == old(c.sent) + [SpawnOf()]
    {
      var rest := others;
      order := [];
      while rest != {}
        invariant rest <= others
        invariant forall c :: c in order <==> c in others && c !in rest
        invariant forall c :: c in others - rest ==> c.sent == old(c.sent) + [SpawnOf()]
        invariant forall c :: c in rest ==> c.sent == old(c.sent)
        invariant sent == old(sent) + Spawns(order)
        decreases |rest|
      {
        var c :| c in rest;
        ExchangeSpawns(c, order, old(sent));
        order := order + [c];
        rest := rest - {c};
      }
    }

    /** One round of `broadcastSpawn`: `sendSpawnPacket(client, this)`, then
        `sendSpawnPacket(this, client)`. */
    method ExchangeSpawns(c: ClientHandler, ghost order: seq<ClientHandler>, ghost before: seq<Packet>)
      requires c != this
      requires sent == before + Spawns(order)
      modifies this`sent, c`sent
      ensures c.sent == old(c.sent) + [SpawnOf()]
      ensures sent == old(sent) + [c.SpawnOf()]
      ensures sent == before + Spawns(order + [c])
    {
      c.sent := c.sent + [SpawnOf()];
      sent := sent + [c.SpawnOf()];
      SpawnsAppend(order, c);
    }

    /** `handleClientPosition`: a valid position becomes the stored pose and
        goes to every other client; otherwise this client alone gets its
        stored pose back. Both carry this player's own id. */
    method HandleClientPosition(newX: JShort, newY: JShort, newZ: JShort, newYaw: JByte, newPitch: JByte,
                                level: ClassicLevel.Level, table: ClientTable)
      modifies this`x, this`y, this`z, this`yaw, this`pitch, this`sent, table.Others(this)`sent
      ensures var ok := IsValidPosition(newX, newY, newZ, level.GetWidth(), level.GetHeight(), level.GetDepth());
        && (ok ==> x == newX && y == newY && z == newZ && yaw == newYaw && pitch == newPitch && sent == old(sent))
        && (ok ==> forall c :: c in table.Others(this) ==>
              c.sent == old(c.sent) + [ServerPosition(playerId, newX, newY, newZ, newYaw, newPitch)])
        && (!ok ==> x == old(x) && y == old(y) && z == old(z) && yaw == old(yaw) && pitch == old(pitch))
        && (!ok ==> sent == old(sent) + [ServerPosition(playerId, x, y, z, yaw, pitch)])
        && (!ok ==> forall c :: c in table.Others(this) ==> c.sent == old(c.sent))
    {
      if IsValidPosition(newX, newY, newZ, level.GetWidth(), level.GetHeight(), level.GetDepth()) {
        x, y, z, yaw, pitch := newX, newY, newZ, newYaw, newPitch;
        SendAll(ServerPosition(playerId, x, y, z, yaw, pitch), table.Others(this));
      } else {
        sent := sent + [ServerPosition(playerId, x, y, z, yaw, pitch)];
      }
    }

    /** `handleSetBlock`: an accepted change writes air (mode 0) or the type
        (mode 1) and goes to every client in the table, this one included; a
        refused change is answered, to this client only, with the block now at
        those coordinates. */
    method HandleSetBlock(px: JShort, py: JShort, pz: JShort, mode: JByte, blockType: JByte,
                          level: ClassicLevel.Level, table: ClientTable)
      requires level.Valid()
      modifies level.blocks, this`sent, table.clients.Values`sent
      ensures IsValidBlockChange(px, py, pz, mode, blockType, level.GetWidth(), level.GetHeight(), level.GetDepth()) ==>
        (forall i, j, k :: LevelFormat.InBox(i, j, k, level.width, level.height, level.depth) ==>
           level.blocks[i, j, k] == if i == px && j == py && k == pz then WrittenBlock(mode, blockType) else old(level.blocks[i, j, k])) &&
        (forall c :: c in table.clients.Values ==> c.sent == old(c.sent) + [SetBlockServer(px, py, pz, WrittenBlock(mode, blockType))]) &&
        (this !in table.clients.Values ==> sent == old(sent))
      ensures !IsValidBlockChange(px, py, pz, mode, blockType, level.GetWidth(), level.GetHeight(), level.GetDepth()) ==>
        unchanged(level.blocks) &&
        sent == old(sent) + [SetBlockServer(px, py, pz, old(CurrentBlock(level, px, py, pz)))] &&
        forall c :: c in table.Others(this) ==> c.sent == old(c.sent)
    {
      if IsValidBlockChange(px, py, pz, mode, blockType, level.GetWidth(), level.GetHeight(), level.GetDepth()) {
        var written := if mode == 0 then 0 else blockType;
        level.SetBlock(px, py, pz, written);
        BroadcastBlockChange(px, py, pz, written, table);
      } else {
        var current := level.GetBlock(px, py, pz);
        sent := sent + [SetBlockServer(px, py, pz, current)];
      }
    }

    /** `broadcastBlockChange`: the block packet goes to every client in the
        table, this one included when it is there. */
    method BroadcastBlockChange(blockX: JShort, blockY: JShort, blockZ: JShort, blockType: JByte, table: ClientTable)
      modifies table.clients.Values`sent
      ensures forall c :: c in table.clients.Values ==> c.sent == old(c.sent) + [SetBlockServer(blockX, blockY, blockZ, blockType)]
      ensures this !in table.clients.Values ==> sent == old(sent)
    {
      SendAll(SetBlockServer(blockX, blockY, blockZ, blockType), table.clients.Values);
    }

    /** `handleMessage`: "name: message", sanitized by the message packet's
        setter, goes to every client in the table, this one included. */
    method HandleMessage(message: string, table: ClientTable)
      modifies table.clients.Values`sent
      ensures var line := ClassicMessagePacket.Sanitized(username + ": " + message);
        |line| <= ClassicMessagePacket.MaxLength &&
        forall c :: c in table.clients.Values ==> c.sent == old(c.sent) + [Message(playerId, line)]
    {
      var line := ClassicMessagePacket.MessagePacket.SanitizeMessage(username + ": " + message);
      SendAll(Message(playerId, line), table.clients.Values);
    }

    /** `disconnectPlayer`, which has no guard: while the socket is open the
        reason is sent and the socket closed; then, on every call, the entry
        under this player's id leaves the table and every other client gets
        the despawn. */
    method Disconnect(reason: string, table: ClientTable)
      modifies this`sent, this`closed, table`clients, table.clients.Values`sent
      ensures closed
      ensures sent == old(sent) + (if old(closed) then [] else [DisconnectPlayer(reason)])
      ensures table.clients == AfterDisconnect(old(table.clients), playerId)
      ensures forall c :: c in old(table.clients.Values) && c != this ==>
        c.sent == old(c.sent) + (if playerId != -1 && c in table.clients.Values then [DespawnPlayer(playerId)] else [])
    {
      if !closed {
        sent := sent + [DisconnectPlayer(reason)];
        closed := true;
      }
      if playerId != -1 {
        table.clients := table.clients - {playerId};
        assert table.Others(this) <= old(table.clients.Values);
        SendAll(DespawnPlayer(playerId), table.Others(this));
      }
    }
  }
}
