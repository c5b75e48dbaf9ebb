// src/net/classicube/level/LevelManager.java: the named levels of the server,
// the level each player is in, and moving a player from one level to another.
//
// The `levels` directory is the map `files` from level name to the bytes of
// its `.dat` file as they are before gzip (gzip and gunzip are taken to undo
// each other). The player map is keyed by the player's handler, since the
// API's `Player` cache gives one Player per handler.

module NetLevelManager {
  import opened Wrappers
  import opened JavaNum
  import LevelFormat
  import NetLevel
  import NetClientHandler
  import NetLevelDataChunkPacket

  type Handler = NetClientHandler.ClientHandler
  type Packet = NetClientHandler.Packet

  /** The bytes `saveToFile` writes for a level. */
  ghost function FileOf(level: NetLevel.Level): seq<Octet>
    requires level.Valid()
    reads level.blocks
  {
    LevelFormat.FileBytes(level.width, level.height, level.depth,
      LevelFormat.Flatten(level.Cells(), level.width, level.height, level.depth))
  }

  /** A saved level loads back with its dimensions and every cell. */
  lemma SavedLevelReloads(level: NetLevel.Level)
    requires level.Valid() && level.width < 0x1_0000 && level.height < 0x1_0000 && level.depth < 0x1_0000
    ensures var r := LevelFormat.ParseFile(FileOf(level));
      r.Ok? && r.value.width == level.width && r.value.height == level.height &&
      r.value.depth == level.depth &&
      LevelFormat.Unflatten(r.value.data, r.value.width, r.value.height, r.value.depth) == level.Cells()
  {
    LevelFormat.SaveLoadRoundTrip(level.Cells(), level.width, level.height, level.depth);
  }

  /** `teleportToSpawn`'s packet: id -1 at `(short) (dimension * 32 / 2)` on
      each axis, yaw and pitch 0. */
  function SpawnPosition(level: NetLevel.Level): Packet
  {
    NetClientHandler.ServerPosition(-1,
      ToShort(JavaDiv(level.GetWidth() * 32, 2)),
      ToShort(JavaDiv(level.GetHeight() * 32, 2)),
      ToShort(JavaDiv(level.GetDepth() * 32, 2)), 0, 0)
  }

  /** For a dimension below 1024 the spawn coordinate is 16 per block: the
      middle of the level in 1/32-block units. */
  lemma SpawnPositionIsCentre(level: NetLevel.Level)
    requires level.width < 1024 && level.height < 1024 && level.depth < 1024
    ensures SpawnPosition(level).x == 16 * level.width
    ensures SpawnPosition(level).y == 16 * level.height
    ensures SpawnPosition(level).z == 16 * level.depth
  {
    assert JavaDiv(level.width * 32, 2) == 16 * level.width;
    assert JavaDiv(level.height * 32, 2) == 16 * level.height;
    assert JavaDiv(level.depth * 32, 2) == 16 * level.depth;
  }

  /** Everything `sendLevelToPlayer` writes: the transfer of the level, then
      the spawn position. */
  ghost function LevelToPlayer(level: NetLevel.Level, gzip: seq<Octet> -> seq<Octet>): seq<Packet>
    requires level.Valid()
    reads level.blocks
  {
    NetClientHandler.LevelTransfer(level, gzip) + [SpawnPosition(level)]
  }

  /** What a handler's `sendPacket` makes of a run of non-CPE packets: all of
      them, unless the handler is DISCONNECTED. */
  function Gate(state: NetClientHandler.ClientState, ps: seq<Packet>): seq<Packet>
  {
    if state == NetClientHandler.DISCONNECTED then [] else ps
  }

  lemma GateStep(h: Handler, ps: seq<Packet>, p: Packet)
    requires !p.IsCPE()
    ensures Gate(h.state, ps + [p]) == Gate(h.state, ps) + h.Out(p)
  {
  }

  /** Two gated sends in a row make one gated send of both runs. */
  lemma GateCompose(state: NetClientHandler.ClientState, s0: seq<Packet>, s1: seq<Packet>, s2: seq<Packet>,
                    ps: seq<Packet>, qs: seq<Packet>)
    requires s1 == s0 + Gate(state, ps)
    requires s2 == s1 + Gate(state, qs)
    ensures s2 == s0 + Gate(state, ps + qs)
  {
  }

  class LevelManager {
    var levels: map<string, NetLevel.Level>
    var playerLevels: map<Handler, string>
    var files: map<string, seq<Octet>>

    /** Every registered level is well formed. */
    ghost predicate Valid()
      reads this`levels
    {
      forall n :: n in levels ==> levels[n].Valid()
    }

    constructor(files: map<string, seq<Octet>>)
      ensures Valid() && levels == map[] && playerLevels == map[] && this.files == files
    {
      levels := map[];
      playerLevels := map[];
      this.files := files;
    }

    /** `setPlayerLevel`. */
    method SetPlayerLevel(player: Handler, levelName: string)
      modifies this`playerLevels
      ensures playerLevels == old(playerLevels)[player := levelName]
    {
      playerLevels := playerLevels[player := levelName];
    }

    /** `getLevel`: null (None) for an unknown name. */
    function GetLevel(name: string): (r: Option<NetLevel.Level>)
      reads this
      ensures r.Some? <==> name in levels
      ensures r.Some? ==> r.value == levels[name]
    {
      if name in levels then Some(levels[name]) else None
    }

    /** `getPlayerLevel`: null (None) for a player in no level. */
    function GetPlayerLevel(player: Handler): (r: Option<string>)
      reads this
      ensures r.Some? <==> player in playerLevels
      ensures r.Some? ==> r.value == playerLevels[player]
    {
      if player in playerLevels then Some(playerLevels[player]) else None
    }

    function LevelExists(name: string): (r: bool)
      reads this
      ensures r <==> GetLevel(name).Some?
    {
      name in levels
    }

    /** `loadLevel`: fails when there is no file of that name or the file does
        not parse; otherwise the name maps to the loaded level. */
    method LoadLevel(name: string) returns (ok: bool)
      requires Valid()
      modifies this`levels
      ensures Valid()
      ensures ok <==> name in files && LevelFormat.ParseFile(files[name]).Ok?
      ensures !ok ==> levels == old(levels)
      ensures ok ==> name in levels && levels == old(levels)[name := levels[name]] && fresh(levels[name].blocks)
      ensures ok ==>
        var f := LevelFormat.ParseFile(files[name]).value;
        levels[name].width == f.width && levels[name].height == f.height && levels[name].depth == f.depth &&
        levels[name].Cells() == LevelFormat.Unflatten(f.data, f.width, f.height, f.depth)
    {
      if name !in files {
        return false;
      }
      var loaded := NetLevel.Level.LoadFromFile(files[name]);
      if loaded.Err? {
        return false;
      }
      levels := levels[name := loaded.value];
      return true;
    }

    /** `createLevel`: refused when the name is taken; otherwise the generated
        level is registered and saved at once. */
    method CreateLevel(name: string, generated: NetLevel.Level) returns (ok: bool)
      requires Valid() && generated.Valid()
      modifies this`levels, this`files
      ensures Valid()
      ensures ok <==> name !in old(levels)
      ensures !ok ==> levels == old(levels) && files == old(files)
      ensures ok ==> levels == old(levels)[name := generated]
      ensures ok ==> files == old(files)[name := FileOf(generated)]
    {
      if name in levels {
        return false;
      }
      levels := levels[name := generated];
      var saved := SaveLevel(name);
      return true;
    }

    /** `saveLevel`: refused for an unknown name; otherwise the level's file
        is (re)written. */
    method SaveLevel(name: string) returns (ok: bool)
      requires Valid()
      modifies this`files
      ensures ok <==> name in levels
      ensures !ok ==> files == old(files)
      ensures ok ==> files == old(files)[name := FileOf(levels[name])]
    {
      if name !in levels {
        return false;
      }
      var file := levels[name].SaveToFile();
      files := files[name := file];
      return true;
    }

    /** `saveAllLevels`: every registered level is written; other files stay. */
    method SaveAllLevels()
      requires Valid()
      modifies this`files
      ensures forall n :: n in levels ==> n in files && files[n] == FileOf(levels[n])
      ensures forall n :: n !in levels ==> (n in files <==> n in old(files)) && (n in files ==> files[n] == old(files)[n])
    {
      var rest := levels.Keys;
      while rest != {}
        invariant rest <= levels.Keys
        invariant forall n :: n in levels && n !in rest ==> n in files && files[n] == FileOf(levels[n])
        invariant forall n :: n !in levels ==> (n in files <==> n in old(files)) && (n in files ==> files[n] == old(files)[n])
        decreases |rest|
      {
        var n :| n in rest;
        var saved := SaveLevel(n);
        rest := rest - {n};
      }
    }

    /** `deleteLevel`: refused while any player is mapped to the name (no name
        is protected); otherwise the level and its file are gone. */
    method DeleteLevel(name: string) returns (ok: bool)
      modifies this`levels, this`files
      ensures ok <==> name !in old(playerLevels).Values
      ensures !ok ==> levels == old(levels) && files == old(files)
      ensures ok ==> levels == old(levels) - {name} && files == old(files) - {name}
    {
      if name in playerLevels.Values {
        return false;
      }
      levels := levels - {name};
      files := files - {name};
      return true;
    }

    /** `switchPlayerLevel`. An unknown level changes nothing. Otherwise the
        other players of the old level (if any) see the player despawn, the
        player receives the new level and the spawn position, the map is
        updated, the player receives a spawn of every other player of the new
        level, and they receive the player's spawn, made from its stored pose,
        which the transfer did not move. */
    method SwitchPlayerLevel(player: Handler, levelName: string, gzip: seq<Octet> -> seq<Octet>,
                             reg: NetClientHandler.ClientRegistry)
      returns (ok: bool, ghost order: seq<Handler>)
      requires Valid()
      modifies this`playerLevels, player`sent, reg.clients.Values`sent
      ensures ok <==> levelName in levels
      ensures !ok ==> playerLevels == old(playerLevels) && player.sent == old(player.sent)
      ensures !ok ==> forall c :: c in reg.clients.Values ==> c.sent == old(c.sent)
      ensures ok ==> playerLevels == old(playerLevels)[player := levelName]
      ensures ok ==> forall c :: c in order <==> c in reg.ClientsInLevelExcept(playerLevels, player)
      ensures ok ==>
        player.sent == old(player.sent) +
          Gate(player.state, LevelToPlayer(levels[levelName], gzip) + NetClientHandler.Spawns(order))
      ensures ok ==> forall c :: c in reg.clients.Values && c != player ==>
        c.sent == old(c.sent) +
          (if c in old(reg.ClientsInLevelExcept(playerLevels, player))
           then c.Out(NetClientHandler.DespawnPlayer(player.playerId)) else []) +
          (if c in reg.ClientsInLevelExcept(playerLevels, player)
           then c.Out(NetClientHandler.SpawnPlayer(player.playerId, player.username,
                  old(player.x), old(player.y), old(player.z), old(player.yaw), old(player.pitch)))
           else [])
    {
      if levelName !in levels {
        return false, [];
      }
      order := Move(player, levelName, levels[levelName], gzip, reg);
      return true, order;
    }

    /** The body of `switchPlayerLevel` once the level is known. */
    method Move(player: Handler, levelName: string, level: NetLevel.Level, gzip: seq<Octet> -> seq<Octet>,
                reg: NetClientHandler.ClientRegistry)
      returns (ghost order: seq<Handler>)
      requires level.Valid()
      modifies this`playerLevels, player`sent, reg.clients.Values`sent
      ensures playerLevels == old(playerLevels)[player := levelName]
      ensures forall c :: c in order <==> c in reg.ClientsInLevelExcept(playerLevels, player)
      ensures player.sent == old(player.sent) + Gate(player.state, LevelToPlayer(level, gzip) + NetClientHandler.Spawns(order))
      ensures forall c :: c in reg.clients.Values && c != player ==>
        c.sent == old(c.sent) +
          (if c in old(reg.ClientsInLevelExcept(playerLevels, player))
           then c.Out(NetClientHandler.DespawnPlayer(player.playerId)) else []) +
          (if c in reg.ClientsInLevelExcept(playerLevels, player) then c.Out(player.SpawnOf()) else [])
    {
      ghost var leaving := reg.ClientsInLevelExcept(playerLevels, player);
      ghost var transferData := LevelToPlayer(level, gzip);
      Depart(player, levelName, level, gzip, reg);
      ghost var transferred := player.sent;
      label Left:
      ghost var arriving := reg.ClientsInLevelExcept(playerLevels, player);
      order := Arrive(player, reg);
      forall c | c in reg.clients.Values && c != player
        ensures c.sent == old(c.sent) +
          (if c in leaving then c.Out(NetClientHandler.DespawnPlayer(player.playerId)) else []) +
          (if c in arriving then c.Out(player.SpawnOf()) else [])
      {
        assert old@Left(c.sent) == old(c.sent) +
          (if c in leaving then c.Out(NetClientHandler.DespawnPlayer(player.playerId)) else []);
      }
      GateCompose(player.state, old(player.sent), transferred, player.sent, transferData, NetClientHandler.Spawns(order));
    }

    /** Leaving the old level: the others there see the player despawn, the
        player receives the new level, and the player's level is updated. */
    method Depart(player: Handler, levelName: string, level: NetLevel.Level, gzip: seq<Octet> -> seq<Octet>,
                  reg: NetClientHandler.ClientRegistry)
      requires level.Valid()
      modifies this`playerLevels, player`sent, reg.clients.Values`sent
      ensures playerLevels == old(playerLevels)[player := levelName]
      ensures player.sent == old(player.sent) + Gate(player.state, LevelToPlayer(level, gzip))
      ensures forall c :: c in reg.clients.Values && c != player ==>
        c.sent == old(c.sent) +
          (if c in old(reg.ClientsInLevelExcept(playerLevels, player))
           then c.Out(NetClientHandler.DespawnPlayer(player.playerId)) else [])
    {
      Leave(player, reg);
      SendLevelToPlayer(player, level, gzip);
      playerLevels := playerLevels[player := levelName];
    }

    /** `broadcastPacketToLevelExcept` of the despawn, when the player was in a
        level. */
    method Leave(player: Handler, reg: NetClientHandler.ClientRegistry)
      modifies reg.clients.Values`sent
      ensures player.sent == old(player.sent)
      ensures forall c :: c in reg.clients.Values && c != player ==>
        c.sent == old(c.sent) +
          (if c in reg.ClientsInLevelExcept(playerLevels, player)
           then c.Out(NetClientHandler.DespawnPlayer(player.playerId)) else [])
    {
      if player in playerLevels {
        reg.SendAll(NetClientHandler.DespawnPlayer(player.playerId), reg.ClientsInLevelExcept(playerLevels, player));
      }
    }

    /** The two spawn steps in the new level: the player receives every other
        player's spawn, and they receive the player's. */
    method Arrive(player: Handler, reg: NetClientHandler.ClientRegistry) returns (ghost order: seq<Handler>)
      modifies player`sent, reg.clients.Values`sent
      ensures forall c :: c in order <==> c in reg.ClientsInLevelExcept(playerLevels, player)
      ensures player.sent == old(player.sent) + Gate(player.state, NetClientHandler.Spawns(order))
      ensures forall c :: c in reg.clients.Values && c != player ==>
        c.sent == old(c.sent) + (if c in reg.ClientsInLevelExcept(playerLevels, player) then c.Out(player.SpawnOf()) else [])
    {
      order := SendExistingSpawns(player, reg.ClientsInLevelExcept(playerLevels, player));
      reg.SendAll(player.SpawnOf(), reg.ClientsInLevelExcept(playerLevels, player));
    }

    /** `sendLevelToPlayer`: the transfer, then `teleportToSpawn`. */
    method SendLevelToPlayer(player: Handler, level: NetLevel.Level, gzip: seq<Octet> -> seq<Octet>)
      requires level.Valid()
      modifies player`sent
      ensures player.sent == old(player.sent) + Gate(player.state, LevelToPlayer(level, gzip))
    {
      player.SendPacket(NetClientHandler.LevelInitialize);
      var levelData := level.GetBlockData();
      var compressed := JBytes(gzip(NetClientHandler.CompressionInput(levelData)));
      SendCompressedData(player, compressed);
      player.SendPacket(NetClientHandler.LevelFinalize(level.GetWidth(), level.GetHeight(), level.GetDepth()));
      player.SendPacket(SpawnPosition(level));
    }

    /** One round of the chunk loop: the packet for the chunk starting at
        byte i, built as the loop builds it. */
    method BuildChunk(compressed: seq<JByte>, i: nat, chunkIndex: nat) returns (sending: Packet)
      requires i == chunkIndex * NetClientHandler.ChunkSize < |compressed|
      ensures chunkIndex < |NetClientHandler.Chunks(compressed)|
      ensures sending == NetClientHandler.Chunks(compressed)[chunkIndex]
    {
      NetClientHandler.ChunkStart(chunkIndex, |compressed|);
      var chunkPacket := new NetLevelDataChunkPacket.LevelDataChunkPacket();
      var remainingBytes := NetClientHandler.Min(NetClientHandler.ChunkSize, |compressed| - i);
      chunkPacket.chunkLength := ToShort(remainingBytes);
      var chunkData := compressed[i .. i + remainingBytes] +
        NetLevelDataChunkPacket.ZeroBytes(NetClientHandler.ChunkSize - remainingBytes);
      assert chunkData == NetClientHandler.ChunkBytes(compressed, chunkIndex);
      chunkPacket.SetChunkData(chunkData);
      assert chunkPacket.chunkData[..] == chunkData by {
        assert chunkData[..NetClientHandler.ChunkSize] == chunkData;
        assert NetLevelDataChunkPacket.ZeroBytes(0) == [];
      }
      chunkPacket.percentComplete := NetClientHandler.Percent(chunkIndex, NetClientHandler.ChunkCount(|compressed|));
      sending := NetClientHandler.LevelDataChunk(chunkPacket.chunkLength, chunkPacket.chunkData[..],
        chunkPacket.percentComplete);
      NetClientHandler.ChunkIs(compressed, chunkIndex);
    }

    /** `sendCompressedData`: the same chunking as the handler's own transfer. */
    method SendCompressedData(player: Handler, compressed: seq<JByte>)
      modifies player`sent
      ensures player.sent == old(player.sent) + Gate(player.state, NetClientHandler.Chunks(compressed))
    {
      var chunks := NetClientHandler.Chunks(compressed);
      var total := NetClientHandler.ChunkCount(|compressed|);
      var i := 0;
      var chunkIndex := 0;
      while i < |compressed|
        invariant i == chunkIndex * NetClientHandler.ChunkSize
        invariant chunkIndex <= total
        invariant i < |compressed| ==> chunkIndex < total
        invariant i >= |compressed| ==> chunkIndex == total
        invariant player.sent == old(player.sent) + Gate(player.state, chunks[..chunkIndex])
      {
        var sending := BuildChunk(compressed, i, chunkIndex);
        assert chunks[..chunkIndex + 1] == chunks[..chunkIndex] + [sending];
        GateStep(player, chunks[..chunkIndex], sending);
        player.SendPacket(sending);
        i := i + NetClientHandler.ChunkSize;
        chunkIndex := chunkIndex + 1;
      }
      assert chunks[..chunkIndex] == chunks;
    }

    /** The loop over the new level's clients: the spawn of every other one
        goes to the player. */
    method SendExistingSpawns(player: Handler, others: set<Handler>) returns (ghost order: seq<Handler>)
      requires player !in others
      modifies player`sent
      ensures forall c :: c in order <==> c in others
      ensures player.sent == old(player.sent) + Gate(player.state, NetClientHandler.Spawns(order))
    {
      var rest := others;
      order := [];
      while rest != {}
        invariant rest <= others
        invariant forall c :: c in order <==> c in others && c !in rest
        invariant player.sent == old(player.sent) + Gate(player.state, NetClientHandler.Spawns(order))
        decreases |rest|
      {
        var c :| c in rest;
        SendSpawn(player, c, order, old(player.sent));
        order := order + [c];
        rest := rest - {c};
      }
    }

    /** One step of `SendExistingSpawns`: the spawn of `c` joins the gated run. */
    method SendSpawn(player: Handler, c: Handler, ghost order: seq<Handler>, ghost before: seq<Packet>)
      requires player.sent == before + Gate(player.state, NetClientHandler.Spawns(order))
      modifies player`sent
      ensures player.sent == before + Gate(player.state, NetClientHandler.Spawns(order + [c]))
    {
      ghost var prefix := NetClientHandler.Spawns(order);
      NetClientHandler.SpawnsAppend(order, c);
      GateStep(player, prefix, c.SpawnOf());
      player.SendPacket(c.SpawnOf());
      assert NetClientHandler.Spawns(order) == prefix;
    }
  }
}
