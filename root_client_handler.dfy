// src/ClientHandler.java: the first, default-package version of a player's
// session. It shares the classic packets with the single-world server but
// differs in its checks: positions are checked in raw fixed-point units, block
// changes against the level generator's dimensions, and an accepted block
// change is stored as the requested type whatever the mode and forwarded in
// the client's own packet format to every other client.
//
// The generator's dimensions and the server's level are parameters (the
// source reads them through static calls). The socket's output is `sent`;
// writes are taken to succeed and `isConnected()` to hold.

module RootClientHandler {
  import opened JavaNum
  import ClassicLevel
  import ClassicMessagePacket
  import ClassicLevelGenerator
  import LevelFormat
  import NetClientHandler
  import NetLevelDataChunkPacket
  import CH = ClassicClientHandler

  /** `MinecraftClassicServer`'s constants. */
  const ProtocolVersion: JByte := 7
  const ServerName := "Java Classic Server"
  const ServerMotd := "Welcome to a basic Minecraft Classic server!"

  /** The pose a new handler starts with, before `spawnPlayer`. */
  const StartX: JShort := 5
  const StartY: JShort := 30
  const StartZ: JShort := 5

  // ---- Player ids ----

  /** Two numbers with the same remainder modulo 256 make the same byte. */
  lemma ToByteCongruent(a: int, b: int)
    requires (a - b) % 0x100 == 0
    ensures ToByte(a) == ToByte(b)
  {
    var q := (a - b) / 0x100;
    assert a == b + 0x100 * q;
    assert a % 0x100 == b % 0x100;
  }

  /** The ids k successive constructors take from a counter at n: the
      unguarded `nextPlayerId++` on a byte. */
  function IdsFrom(n: JByte, k: nat): (r: seq<JByte>)
    ensures |r| == k
    decreases k
  {
    if k == 0 then [] else [n] + IdsFrom(ToByte(n + 1), k - 1)
  }

  /** The i-th id is n + i wrapped to a byte: ids climb to 127, go on at
      -128 and only come round again after 256 handlers. */
  lemma {:induction false} IdsWrap(n: JByte, k: nat)
    ensures forall i :: 0 <= i < k ==> IdsFrom(n, k)[i] == ToByte(n + i)
    decreases k
  {
    if k > 0 {
      var m := ToByte(n + 1);
      IdsWrap(m, k - 1);
      forall i | 0 <= i < k
        ensures IdsFrom(n, k)[i] == ToByte(n + i)
      {
        if i > 0 {
          assert IdsFrom(n, k)[i] == IdsFrom(m, k - 1)[i - 1];
          ToByteCongruent(m + (i - 1), n + i);
        }
      }
    }
  }

  /** From a fresh counter the 129th handler gets -128, the 256th gets -1
      (the id the protocol reserves for "yourself") and the 257th gets 0
      again. */
  lemma IdsGoNegative()
    ensures IdsFrom(0, 257)[128] == -128
    ensures IdsFrom(0, 257)[255] == -1
    ensures IdsFrom(0, 257)[256] == IdsFrom(0, 257)[0] == 0
  {
    IdsWrap(0, 257);
  }

  // ---- Checks ----

  /** `isValidPosition`: the raw coordinates lie in [0, 32 times the
      generator's dimension). */
  predicate IsValidPosition(newX: JShort, newY: JShort, newZ: JShort, width: JShort, height: JShort, depth: JShort) {
    0 <= newX < width * 32 && 0 <= newY < height * 32 && 0 <= newZ < depth * 32
  }

  /** The raw check is the single-world check without its leak: it accepts
      exactly the positions the other accepts whose coordinates are not
      negative, so -31..-1 are refused here. */
  lemma StricterThanClassic(newX: JShort, newY: JShort, newZ: JShort, width: JShort, height: JShort, depth: JShort)
    ensures IsValidPosition(newX, newY, newZ, width, height, depth) <==>
      CH.IsValidPosition(newX, newY, newZ, width, height, depth) && newX >= 0 && newY >= 0 && newZ >= 0
  {
    CH.PositionValidRange(newX, newY, newZ, width, height, depth);
  }

  /** The spawn point, in raw units: the middle of the level, and one block
      and a bit above the middle height. */
  function SpawnX(width: JShort): JShort { ToShort(width * 16) }
  function SpawnY(height: JShort): JShort { ToShort(height * 16 + CH.SpawnLift) }

  /** For every level whose spawn fits a `short`, the spawn passes the
      position check exactly when the level is at least four blocks high:
      lower levels put it above the top. */
  lemma SpawnValidExactly(width: JShort, height: JShort, depth: JShort)
    requires 1 <= width <= 2047 && 1 <= height <= 2044 && 1 <= depth <= 2047
    ensures IsValidPosition(SpawnX(width), SpawnY(height), SpawnX(depth), width, height, depth) <==> height >= 4
  {
  }

  /** The block an accepted change stores, as written: the requested type,
      whatever the mode. */
  function StoredBlock(mode: JByte, blockType: JByte): JByte
  {
    blockType
  }

  /** Destroying a stone block stores stone: the server's level keeps a block
      that the sender has removed and that every other client, told by the
      forwarded mode-0 packet, removes too. */
  lemma DestroyStoresHeldBlock(width: JShort, height: JShort, depth: JShort)
    requires width >= 1 && height >= 1 && depth >= 1
    ensures CH.IsValidBlockChange(0, 0, 0, 0, 1, width, height, depth)
    ensures StoredBlock(0, 1) == 1 != CH.WrittenBlock(0, 1)
  {
  }

  /** The evidently intended block: air for a destroy, the type for a place,
      as the single-world handler stores it. */
  function StoredBlockCorrected(mode: JByte, blockType: JByte): (b: JByte)
    requires mode == 0 || mode == 1
    ensures mode == 0 ==> b == 0
    ensures mode == 1 ==> b == blockType
  {
    CH.WrittenBlock(mode, blockType)
  }

  // ---- Level transfer ----

  /** Everything `sendLevelData` writes: LevelInitialize, the chunks of the
      compressed, length-prefixed block data, and LevelFinalize with the
      generator's dimensions (not the level's). */
  ghost function LevelTransfer(level: ClassicLevel.Level, gzip: seq<Octet> -> seq<Octet>,
                               width: JShort, height: JShort, depth: JShort): seq<CH.Packet>
    requires level.Valid()
    reads level.blocks
  {
    var data := LevelFormat.Flatten(level.Cells(), level.width, level.height, level.depth);
    [CH.LevelInitialize] + CH.Chunks(JBytes(gzip(ClassicLevelGenerator.LengthPrefixed(data)))) +
    [CH.LevelFinalize(width, height, depth)]
  }

  // ---- The handler ----

  /** Broadcast loop over a set of clients. */
  method SendAll(p: CH.Packet, recipients: set<ClientHandler>)
    modifies recipients`sent
    ensures forall c :: c in recipients ==> c.sent == old(c.sent) + [p]
  {
    var rest := recipients;
    while rest != {}
      invariant rest <= recipients
      invariant forall c :: c in recipients - rest ==> c.sent == old(c.sent) + [p]
      invariant forall c :: c in rest ==> c.sent == old(c.sent)
      decreases |rest|
    {
      var c :| c in rest;
      c.sent := c.sent + [p];
      rest := rest - {c};
    }
  }

  /** The spawn packets of a sequence of clients. */
  ghost function Spawns(order: seq<ClientHandler>): seq<CH.Packet>
    reads (set c | c in order)`username, (set c | c in order)`x, (set c | c in order)`y,
      (set c | c in order)`z, (set c | c in order)`yaw, (set c | c in order)`pitch
  {
    if order == [] then [] else Spawns(order[..|order| - 1]) + [order[|order| - 1].SpawnOf()]
  }

  lemma SpawnsAppend(order: seq<ClientHandler>, c: ClientHandler)
    ensures Spawns(order + [c]) == Spawns(order) + [c.SpawnOf()]
  {
    assert (order + [c])[..|order|] == order;
  }

  /** The static fields: the client table and the id counter. */
  class ClientTable {
    var clients: map<JByte, ClientHandler>
    var nextPlayerId: JByte

    constructor ()
      ensures clients == map[] && nextPlayerId == 0
    {
      clients, nextPlayerId := map[], 0;
    }

    /** The clients other than h. */
    function Others(h: ClientHandler): set<ClientHandler>
      reads this
    {
      clients.Values - {h}
    }
  }

  class ClientHandler {
    const playerId: JByte
    var username: string
    var x: JShort
    var y: JShort
    var z: JShort
    var yaw: JByte
    var pitch: JByte
    /** Everything written to this client's socket, in order. */
    var sent: seq<CH.Packet>
    /** Whether the server has closed this socket. */
    var closed: bool

    /** A new handler takes the counter's value as its id and increments the
        counter, with no wrap guard; it starts at (5, 30, 5). */
    constructor (table: ClientTable)
      modifies table`nextPlayerId
      ensures playerId == old(table.nextPlayerId) && table.nextPlayerId == ToByte(playerId + 1)
      ensures username == "" && sent == [] && !closed
      ensures x == StartX && y == StartY && z == StartZ && yaw == 0 && pitch == 0
    {
      playerId := table.nextPlayerId;
      table.nextPlayerId := ToByte(table.nextPlayerId + 1);
      username := "";
      x, y, z, yaw, pitch := StartX, StartY, StartZ, 0, 0;
      sent := [];
      closed := false;
    }

    /** The spawn packet describing this player to another client. */
    function SpawnOf(): CH.Packet
      reads this`username, this`x, this`y, this`z, this`yaw, this`pitch
    {
      CH.SpawnPlayer(playerId, username, x, y, z, yaw, pitch)
    }

    /** The start of `run`: a first byte other than 0x00 disconnects with
        "Invalid initial packet" and ends the session; otherwise
        `handlePlayerIdentification` runs, and `run` goes on to the join even
        when that has disconnected the player for a protocol mismatch. */
    method Identify(firstPacketId: JByte, protocolVersion: JByte, name: string, table: ClientTable)
      returns (proceeds: bool)
      requires this !in table.clients.Values
      modifies this`username, this`sent, this`closed, table`clients, table.clients.Values`sent
      ensures proceeds <==> firstPacketId == 0
      ensures firstPacketId != 0 ==>
        closed && sent == old(sent) + (if old(closed) then [] else [CH.DisconnectPlayer("Invalid initial packet")])
      ensures firstPacketId == 0 && protocolVersion == ProtocolVersion ==>
        username == name && closed == old(closed) &&
        sent == old(sent) + [CH.ServerIdentification(ProtocolVersion, ServerName, ServerMotd, 0)]
      ensures firstPacketId == 0 && protocolVersion != ProtocolVersion ==>
        closed && username == old(username) &&
        sent == old(sent) + (if old(closed) then [] else [CH.DisconnectPlayer("Incompatible protocol version")])
    {
      if firstPacketId == 0 {
        HandlePlayerIdentification(protocolVersion, name, table);
        return true;
      }
      Disconnect("Invalid initial packet", table);
      return false;
    }

    /** `handlePlayerIdentification`: a protocol version other than 7
        disconnects with the reason; otherwise the name is stored and the
        server's identification sent. */
    method HandlePlayerIdentification(protocolVersion: JByte, name: string, table: ClientTable)
      requires this !in table.clients.Values
      modifies this`username, this`sent, this`closed, table`clients, table.clients.Values`sent
      ensures protocolVersion == ProtocolVersion ==>
        username == name && closed == old(closed) &&
        sent == old(sent) + [CH.ServerIdentification(ProtocolVersion, ServerName, ServerMotd, 0)]
      ensures protocolVersion == ProtocolVersion ==> table.clients == old(table.clients)
      ensures protocolVersion != ProtocolVersion ==>
        closed && username == old(username) &&
        sent == old(sent) + (if old(closed) then [] else [CH.DisconnectPlayer("Incompatible protocol version")])
      ensures protocolVersion != ProtocolVersion ==> table.clients == old(table.clients) - {playerId}
    {
      if protocolVersion != ProtocolVersion {
        Disconnect("Incompatible protocol version", table);
        return;
      }
      username := name;
      sent := sent + [CH.ServerIdentification(ProtocolVersion, ServerName, ServerMotd, 0)];
    }

    /** What `run` does once identification is over and the socket still
        counts as connected: the entry in the table under this handler's id
        first, then the level, the spawn and the spawn exchange. A handler
        that held the same id before is displaced and hears nothing. */
    method Join(level: ClassicLevel.Level, gzip: seq<Octet> -> seq<Octet>,
                width: JShort, height: JShort, depth: JShort, table: ClientTable)
      returns (ghost order: seq<ClientHandler>)
      requires level.Valid()
      modifies this`x, this`y, this`z, this`yaw, this`pitch, this`sent, table`clients, table.clients.Values`sent
      ensures table.clients == old(table.clients)[playerId := this]
      ensures x == SpawnX(width) && y == SpawnY(height) && z == SpawnX(depth) && yaw == 0 && pitch == 0
      ensures sent == old(sent) + LevelTransfer(level, gzip, width, height, depth) +
        [CH.ServerPosition(playerId, x, y, z, 0, 0)] + Spawns(order)
      ensures forall c :: c in order <==> c in table.Others(this)
      ensures forall c :: c in table.Others(this) ==> c.sent == old(c.sent) + [SpawnOf()]
      ensures forall c :: c in old(table.clients.Values) && c !in table.clients.Values ==> c.sent == old(c.sent)
    {
      ghost var gone := table.clients.Values - table.clients[playerId := this].Values;
      table.clients := table.clients[playerId := this];
      assert table.clients[playerId] == this;
      assert this !in gone;
      assert forall c :: c in table.Others(this) ==> c !in gone;
      SendLevelData(level, gzip, width, height, depth);
      Spawn(width, height, depth);
      order := BroadcastSpawn(table);
      assert forall c :: c in gone ==> c.sent == old(c.sent);
    }

    /** `sendLevelData`: the level goes out in 1024-byte chunks with their
        percentages, and the finalize packet carries the generator's
        dimensions. */
    method SendLevelData(level: ClassicLevel.Level, gzip: seq<Octet> -> seq<Octet>,
                         width: JShort, height: JShort, depth: JShort)
      requires level.Valid()
      modifies this`sent
      ensures sent == old(sent) + LevelTransfer(level, gzip, width, height, depth)
    {
      sent := sent + [CH.LevelInitialize];
      var levelData := level.GetBlockData();
      var compressed := JBytes(gzip(ClassicLevelGenerator.LengthPrefixed(levelData)));
      SendChunks(compressed);
      sent := sent + [CH.LevelFinalize(width, height, depth)];
    }

    /** The chunk loop of `sendLevelData`. */
    method SendChunks(compressed: seq<JByte>)
      modifies this`sent
      ensures sent == old(sent) + CH.Chunks(compressed)
    {
      var totalChunks := NetClientHandler.ChunkCount(|compressed|);
      var i := 0;
      var chunkIndex := 0;
      while i < |compressed|
        invariant i == chunkIndex * CH.ChunkSize
        invariant chunkIndex <= totalChunks
        invariant i < |compressed| ==> chunkIndex < totalChunks
        invariant i >= |compressed| ==> chunkIndex == totalChunks
        invariant sent == old(sent) + CH.Chunks(compressed)[..chunkIndex]
        decreases |compressed| - i
      {
        NetClientHandler.ChunkStart(chunkIndex, |compressed|);
        var remainingBytes := NetClientHandler.Min(CH.ChunkSize, |compressed| - i);
        var chunkData := compressed[i .. i + remainingBytes] + NetLevelDataChunkPacket.ZeroBytes(CH.ChunkSize - remainingBytes);
        var chunk := CH.LevelDataChunk(remainingBytes as JShort, chunkData, NetClientHandler.Percent(chunkIndex, totalChunks));
        assert chunk == CH.Chunks(compressed)[chunkIndex];
        sent := sent + [chunk];
        assert CH.Chunks(compressed)[..chunkIndex + 1] == CH.Chunks(compressed)[..chunkIndex] + [CH.Chunks(compressed)[chunkIndex]];
        i := i + CH.ChunkSize;
        chunkIndex := chunkIndex + 1;
        if i < |compressed| {
          NetClientHandler.ChunkStart(chunkIndex, |compressed|);
        }
      }
      assert CH.Chunks(compressed)[..chunkIndex] == CH.Chunks(compressed);
    }

    /** `spawnPlayer`: the pose becomes the spawn point facing 0, and the
        client gets it in a position packet carrying its own id. */
    method Spawn(width: JShort, height: JShort, depth: JShort)
      modifies this`x, this`y, this`z, this`yaw, this`pitch, this`sent
      ensures x == SpawnX(width) && y == SpawnY(height) && z == SpawnX(depth) && yaw == 0 && pitch == 0
      ensures sent == old(sent) + [CH.ServerPosition(playerId, x, y, z, 0, 0)]
    {
      x := ToShort(width * 16);
      y := ToShort(height * 16 + 51);
      z := ToShort(depth * 16);
      yaw, pitch := 0, 0;
      sent := sent + [CH.ServerPosition(playerId, x, y, z, yaw, pitch)];
    }

    /** `broadcastSpawn`: every other client gets this player's spawn, and
        this player gets theirs. */
    method BroadcastSpawn(table: ClientTable) returns (ghost order: seq<ClientHandler>)
      modifies this`sent, table.Others(this)`sent
      ensures forall c :: c in order <==> c in table.Others(this)
      ensures sent == old(sent) + Spawns(order)
      ensures forall c :: c in table.Others(this) ==> c.sent == old(c.sent) + [SpawnOf()]
    {
      order := ExchangeAll(table.Others(this));
    }

    /** The loop of `broadcastSpawn` over the other clients. */
    method ExchangeAll(others: set<ClientHandler>) returns (ghost order: seq<ClientHandler>)
      requires this !in others
      modifies this`sent, others`sent
      ensures forall c :: c in order <==> c in others
      ensures sent == old(sent) + Spawns(order)
      ensures forall c :: c in others ==> c.sent == old(c.sent) + [SpawnOf()]
    {
      var rest := others;
      order := [];
      while rest != {}
        invariant rest <= others
        invariant forall c :: c in order <==> c in others && c !in rest
        invariant forall c :: c in others - rest ==> c.sent == old(c.sent) + [SpawnOf()]
        invariant forall c :: c in rest ==> c.sent == old(c.sent)
        invariant sent == old(sent) + Spawns(order)
        decreases |rest|
      {
        var c :| c in rest;
        ExchangeSpawns(c, order, old(sent));
        order := order + [c];
        rest := rest - {c};
      }
    }

    /** One round of `broadcastSpawn`. */
    method ExchangeSpawns(c: ClientHandler, ghost order: seq<ClientHandler>, ghost before: seq<CH.Packet>)
      requires c != this
      requires sent == before + Spawns(order)
      modifies this`sent, c`sent
      ensures c.sent == old(c.sent) + [SpawnOf()]
      ensures sent == old(sent) + [c.SpawnOf()]
      ensures sent == before + Spawns(order + [c])
    {
      c.sent := c.sent + [SpawnOf()];
      sent := sent + [c.SpawnOf()];
      SpawnsAppend(order, c);
    }

    /** `handleClientPosition`: a valid position becomes the stored pose and
        goes to every other client; otherwise this client alone gets its
        stored pose back. */
    method HandleClientPosition(newX: JShort, newY: JShort, newZ: JShort, newYaw: JByte, newPitch: JByte,
                                width: JShort, height: JShort, depth: JShort, table: ClientTable)
      modifies this`x, this`y, this`z, this`yaw, this`pitch, this`sent, table.Others(this)`sent
      ensures var ok := IsValidPosition(newX, newY, newZ, width, height, depth);
        && (ok ==> x == newX && y == newY && z == newZ && yaw == newYaw && pitch == newPitch && sent == old(sent))
        && (ok ==> forall c :: c in table.Others(this) ==>
              c.sent == old(c.sent) + [CH.ServerPosition(playerId, newX, newY, newZ, newYaw, newPitch)])
        && (!ok ==> x == old(x) && y == old(y) && z == old(z) && yaw == old(yaw) && pitch == old(pitch))
        && (!ok ==> sent == old(sent) + [CH.ServerPosition(playerId, x, y, z, yaw, pitch)])
        && (!ok ==> forall c :: c in table.Others(this) ==> c.sent == old(c.sent))
    {
      if IsValidPosition(newX, newY, newZ, width, height, depth) {
        x, y, z, yaw, pitch := newX, newY, newZ, newYaw, newPitch;
        SendAll(CH.ServerPosition(playerId, x, y, z, yaw, pitch), table.Others(this));
      } else {
        sent := sent + [CH.ServerPosition(playerId, x, y, z, yaw, pitch)];
      }
    }

    /** `handleSetBlock`: an accepted change stores the requested type and
        goes, in the client's packet as received, to every other client; a
        refused change is answered, to this client only, with a mode-1 packet
        carrying the block now at those coordinates. */
    method HandleSetBlock(px: JShort, py: JShort, pz: JShort, mode: JByte, blockType: JByte,
                          level: ClassicLevel.Level, width: JShort, height: JShort, depth: JShort,
                          table: ClientTable)
      requires level.Valid()
      modifies level.blocks, this`sent, table.Others(this)`sent
      ensures CH.IsValidBlockChange(px, py, pz, mode, blockType, width, height, depth) ==>
        (forall i, j, k :: LevelFormat.InBox(i, j, k, level.width, level.height, level.depth) ==>
           level.blocks[i, j, k] == if i == px && j == py && k == pz then StoredBlock(mode, blockType) else old(level.blocks[i, j, k])) &&
        (forall c :: c in table.Others(this) ==> c.sent == old(c.sent) + [CH.SetBlock(px, py, pz, mode, blockType)]) &&
        sent == old(sent)
      ensures !CH.IsValidBlockChange(px, py, pz, mode, blockType, width, height, depth) ==>
        unchanged(level.blocks) &&
        sent == old(sent) + [CH.SetBlock(px, py, pz, 1, old(CH.CurrentBlock(level, px, py, pz)))] &&
        forall c :: c in table.Others(this) ==> c.sent == old(c.sent)
    {
      if CH.IsValidBlockChange(px, py, pz, mode, blockType, width, height, depth) {
        level.SetBlock(px, py, pz, blockType);
        SendAll(CH.SetBlock(px, py, pz, mode, blockType), table.Others(this));
      } else {
        var currentBlockType := level.GetBlock(px, py, pz);
        sent := sent + [CH.SetBlock(px, py, pz, 1, currentBlockType)];
      }
    }

    /** `handleMessage`: "name:message", sanitized by the message packet's
        setter, goes to every client in the table, this one included. */
    method HandleMessage(message: string, table: ClientTable)
      modifies table.clients.Values`sent
      ensures var line := ClassicMessagePacket.Sanitized(username + ":" + message);
        |line| <= ClassicMessagePacket.MaxLength &&
        forall c :: c in table.clients.Values ==> c.sent == old(c.sent) + [CH.Message(playerId, line)]
    {
      var line := ClassicMessagePacket.MessagePacket.SanitizeMessage(username + ":" + message);
      SendAll(CH.Message(playerId, line), table.clients.Values);
    }

    /** `disconnectPlayer`: while the socket is open the reason is sent and
        the socket closed; then, on every call, the entry under this
        player's id leaves the table and every client left in it gets the
        despawn. */
    method Disconnect(reason: string, table: ClientTable)
      modifies this`sent, this`closed, table`clients, table.clients.Values`sent
      ensures closed
      ensures table.clients == old(table.clients) - {playerId}
      ensures this !in old(table.clients.Values) ==>
        sent == old(sent) + (if old(closed) then [] else [CH.DisconnectPlayer(reason)])
      ensures forall c :: c in table.clients.Values && c != this ==> c.sent == old(c.sent) + [CH.DespawnPlayer(playerId)]
      ensures forall c :: c in old(table.clients.Values) && c !in table.clients.Values && c != this ==> c.sent == old(c.sent)
    {
      if !closed {
        sent := sent + [CH.DisconnectPlayer(reason)];
        closed := true;
      }
      table.clients := table.clients - {playerId};
      assert table.clients.Values <= old(table.clients.Values);
      SendAll(CH.DespawnPlayer(playerId), table.clients.Values);
    }
  }
}
