// src/net/classicube/ClientHandler.java: one connected player's session on
// the ClassiCube server, and the static table of connected clients.
//
// The socket's output is the sequence `sent` of packets the handler wrote,
// each packet a value whose byte layout is the `Write` of the packet module of
// the same name. Reading from the socket is replaced by the decoded packet
// fields passed in. Locks, the atomic state and the concurrent client table
// become plain fields, updated one call at a time.

module NetClientHandler {
  import opened Wrappers
  import opened JavaNum
  import opened JavaText
  import NetPlayerIDManager
  import NetLevel
  import NetSetBlockMode
  import NetPacketType
  import NetLevelDataChunkPacket
  import LevelFormat

  const MaxMessageLength := 64
  /** The padding byte by which a client announces the CPE extensions. */
  const CpeMagic: JByte := 0x42
  /** The user type sent to operators. */
  const OpUserType: JByte := 0x64
  /** The level every block read and write goes to, whatever the player's level. */
  const MainLevel := "main"
  const ChunkSize := 1024
  const PlayerGroup := "players"

  datatype ClientState = CONNECTING | IDENTIFYING | ACTIVE | DISCONNECTING | DISCONNECTED

  /** A packet as the handler hands it to `sendPacket`. */
  datatype Packet =
    | ServerIdentification(protocolVersion: JByte, serverName: string, serverMotd: string, userType: JByte)
    | LevelInitialize
    | LevelDataChunk(chunkLength: JShort, chunkData: seq<JByte>, percentComplete: JByte)
    | LevelFinalize(xSize: JShort, ySize: JShort, zSize: JShort)
    | SpawnPlayer(playerId: JByte, playerName: string, x: JShort, y: JShort, z: JShort, yaw: JByte, pitch: JByte)
    | ServerPosition(playerId: JByte, x: JShort, y: JShort, z: JShort, yaw: JByte, pitch: JByte)
    | SetBlockServer(x: JShort, y: JShort, z: JShort, blockType: JByte)
    | DespawnPlayer(playerId: JByte)
    | Message(playerId: JByte, message: string)
    | DisconnectPlayer(reason: string)
    | ExtAddPlayerName(nameId: JByte, autocompleteName: string, listName: string, groupName: string, groupRank: JByte)
    | ExtRemovePlayerName(playerId: JByte)
    | MakeSelection(bytes: seq<Octet>)
    | RemoveSelection(selectionId: JByte)
  {
    /** The packets whose classes extend `CPEPacket`. */
    predicate IsCPE() {
      ExtAddPlayerName? || ExtRemovePlayerName? || MakeSelection? || RemoveSelection?
    }
  }

  /** `sendPacket`'s two gates: nothing is written once the handler is
      DISCONNECTED, and a CPE packet only to a client that announced CPE. */
  predicate Delivers(state: ClientState, supportsCPE: bool, p: Packet) {
    state != DISCONNECTED && (!p.IsCPE() || supportsCPE)
  }

  /** The identification packet as read from the client. */
  datatype Identification = Identification(protocolVersion: JByte, username: string, verificationKey: string, paddingByte: JByte)

  /** What the handler asks of the server object during identification. */
  datatype ServerSettings = ServerSettings(
    protocolVersion: JByte, serverName: string, serverMotd: string,
    verifyPlayers: bool, enableWebGuests: bool, banList: set<string>, opList: set<string>)

  /** `isValidWebGuest`: web guests may join unverified under "[Guest]"
      followed by one or more decimal digits. */
  predicate IsValidWebGuest(enableWebGuests: bool, username: string) {
    enableWebGuests && StartsWith(username, "[Guest]") && |username| > 7 &&
    forall i :: 7 <= i < |username| ==> '0' <= username[i] <= '9'
  }

  /** Every rejection `handlePlayerIdentification` and `validatePlayer` make,
      in their order; `verified` is the server's name-verification answer. */
  datatype Rejection = InvalidInitialPacket | IncompatibleVersion | NameTaken | VerificationFailed | Banned

  function Reason(r: Rejection): string {
    match r
    case InvalidInitialPacket => "Invalid initial packet"
    case IncompatibleVersion => "Incompatible protocol version"
    case NameTaken => "A player with that name is already online!"
    case VerificationFailed => "Name verification failed!"
    case Banned => "You are banned!"
  }

  function Admission(firstPacketId: JByte, packet: Identification, server: ServerSettings,
                     verified: bool, isWebSocket: bool, online: set<string>): Option<Rejection>
  {
    if firstPacketId != NetPacketType.Id(NetPacketType.PLAYER_IDENTIFICATION) then Some(InvalidInitialPacket)
    else if packet.protocolVersion != server.protocolVersion then Some(IncompatibleVersion)
    else if exists n :: n in online && EqualsIgnoreCase(packet.username, n) then Some(NameTaken)
    else if server.verifyPlayers && !verified &&
            (!isWebSocket || !IsValidWebGuest(server.enableWebGuests, packet.username)) then Some(VerificationFailed)
    else if packet.username in server.banList then Some(Banned)
    else None
  }

  /** A client is admitted exactly when none of the checks fires: the first
      byte is 0x00, the versions agree, no online name equals the new one
      ignoring case, the name is verified (or, over WebSocket, a valid web
      guest) unless verification is off, and the name is not banned. */
  lemma AdmissionExact(firstPacketId: JByte, packet: Identification, server: ServerSettings,
                       verified: bool, isWebSocket: bool, online: set<string>)
    ensures Admission(firstPacketId, packet, server, verified, isWebSocket, online).None? <==>
      firstPacketId == 0 && packet.protocolVersion == server.protocolVersion &&
      (forall n :: n in online ==> !EqualsIgnoreCase(packet.username, n)) &&
      (server.verifyPlayers && !verified ==> isWebSocket && IsValidWebGuest(server.enableWebGuests, packet.username)) &&
      packet.username !in server.banList
  {
  }

  /** A web guest name is "[Guest]" and at least one digit, nothing else. */
  lemma WebGuestExample()
    ensures IsValidWebGuest(true, "[Guest]42")
    ensures !IsValidWebGuest(true, "[Guest]")
    ensures !IsValidWebGuest(true, "[Guest]4x")
    ensures !IsValidWebGuest(false, "[Guest]42")
  {
    assert "[Guest]4x"[8] == 'x';
  }

  // ---- Level transfer: the chunking loop of `sendCompressedLevelData` ----

  function Min(a: int, b: int): int { if a <= b then a else b }

  /** `totalChunks`: the chunk count, rounded up. */
  function ChunkCount(n: nat): nat { (n + ChunkSize - 1) / ChunkSize }

  lemma ChunkStart(k: nat, n: nat)
    requires k < ChunkCount(n)
    ensures k * ChunkSize < n
  {
  }

  /** The 1024-byte buffer of chunk k: that stretch of the data, zero-filled
      past the end of the data. */
  function ChunkBytes(data: seq<JByte>, k: nat): (r: seq<JByte>)
    requires k * ChunkSize < |data|
    ensures |r| == ChunkSize
  {
    var n := Min(ChunkSize, |data| - k * ChunkSize);
    data[k * ChunkSize .. k * ChunkSize + n] + NetLevelDataChunkPacket.ZeroBytes(ChunkSize - n)
  }

  /** `(byte) ((chunkIndex + 1) * 100 / totalChunks)`. */
  function Percent(k: nat, total: nat): JByte
    requires k < total
  {
    ToByte((k + 1) * 100 / total)
  }

  /** The chunk packets of a transfer, in order. The length field of every one
      is 1024, because `setChunkData` with the full buffer overrides the
      `setChunkLength` made just before it. */
  function Chunks(data: seq<JByte>): (r: seq<Packet>)
    ensures |r| == ChunkCount(|data|)
  {
    seq(ChunkCount(|data|), k requires 0 <= k < ChunkCount(|data|) =>
      ChunkStart(k, |data|);
      LevelDataChunk(ChunkSize as JShort, ChunkBytes(data, k), Percent(k, ChunkCount(|data|))))
  }

  lemma ChunkIs(data: seq<JByte>, k: nat)
    requires k < ChunkCount(|data|)
    ensures k * ChunkSize < |data|
    ensures Chunks(data)[k] == LevelDataChunk(ChunkSize as JShort, ChunkBytes(data, k), Percent(k, ChunkCount(|data|)))
  {
    ChunkStart(k, |data|);
  }

  /** The percentages never exceed 100, never fall, and the last one is 100. */
  lemma ChunkPercents(t: nat, k: nat)
    requires k < t
    ensures 0 <= Percent(k, t) <= 100
    ensures k + 1 < t ==> Percent(k, t) <= Percent(k + 1, t)
    ensures k + 1 == t ==> Percent(k, t) == 100
  {
    PercentRange(k, t);
    if k + 1 < t {
      PercentRises(k, t);
    } else {
      PercentLast(t);
    }
  }

  /** Consecutive percentages never fall, for any number of chunks. */
  lemma PercentRises(k: nat, t: nat)
    requires k + 1 < t
    ensures Percent(k, t) <= Percent(k + 1, t)
  {
    PercentRange(k, t);
    PercentRange(k + 1, t);
    DivMonotone((k + 1) * 100, (k + 2) * 100, t);
  }

  /** The last percentage is 100, for any number of chunks. */
  lemma PercentLast(t: nat)
    requires 0 < t
    ensures Percent(t - 1, t) == 100
  {
    PercentRange(t - 1, t);
    MulDivCancel(100, t);
  }

  lemma MulDivCancel(c: nat, t: nat)
    requires 0 < t
    ensures t * c / t == c
  {
    var q := t * c / t;
    assert q * t <= t * c < q * t + t;
    assert q * t < (c + 1) * t;
    MulLess(q, c + 1, t);
    assert c * t < (q + 1) * t;
    MulLess(c, q + 1, t);
  }

  /** One percentage: the quotient itself, at most 100. */
  lemma PercentRange(k: nat, t: nat)
    requires k < t
    ensures 0 <= Percent(k, t) == (k + 1) * 100 / t <= 100
  {
    var a := (k + 1) * 100;
    assert 0 <= a / t by { DivNonNegative(a, t); }
    assert (k + 1) * 100 <= t * 100;
    DivBound((k + 1) * 100, t, 100);
  }

  lemma DivNonNegative(a: nat, t: nat)
    requires 0 < t
    ensures 0 <= a / t
  {
  }

  lemma DivBound(a: nat, t: nat, c: nat)
    requires 0 < t && a <= t * c
    ensures a / t <= c
  {
  }

  lemma DivMonotone(a: nat, b: nat, t: nat)
    requires 0 < t && a <= b
    ensures a / t <= b / t
  {
    var qa, qb := a / t, b / t;
    assert qa * t <= a;
    assert b < qb * t + t;
    assert qb * t + t == (qb + 1) * t;
    MulLess(qa, qb + 1, t);
  }

  lemma MulLess(m: nat, n: nat, t: nat)
    requires m * t < n * t
    ensures m < n
  {
  }

  /** No byte is lost or moved: byte j of the data is byte j % 1024 of chunk
      j / 1024, and the slots after the data's end are zero. */
  lemma ChunksCarryData(data: seq<JByte>, j: nat)
    requires j < ChunkCount(|data|) * ChunkSize
    ensures j / ChunkSize < |Chunks(data)|
    ensures Chunks(data)[j / ChunkSize].chunkData[j % ChunkSize] == if j < |data| then data[j] else 0
  {
    var k := j / ChunkSize;
    ChunkStart(k, |data|);
    var s := k * ChunkSize;
    assert j == s + j % ChunkSize;
    var n := Min(ChunkSize, |data| - s);
    var b := ChunkBytes(data, k);
    assert b == data[s .. s + n] + NetLevelDataChunkPacket.ZeroBytes(ChunkSize - n);
    if j < |data| {
      assert j % ChunkSize < n;
      assert b[j % ChunkSize] == data[s .. s + n][j % ChunkSize];
    } else {
      assert j % ChunkSize >= n;
      assert b[j % ChunkSize] == NetLevelDataChunkPacket.ZeroBytes(ChunkSize - n)[j % ChunkSize - n];
    }
  }

  /** The bytes handed to gzip: the data's length as a big-endian int, then the data. */
  function CompressionInput(levelData: seq<JByte>): (r: seq<Octet>)
    ensures |r| == 4 + |levelData|
    ensures r[4..] == Octets(levelData)
  {
    IntBytes(|levelData|) + Octets(levelData)
  }

  // ---- Spawn arithmetic ----

  /** `spawnPlayer`'s coordinates: the middle block of each dimension in
      fixed-point units, 51 units up, narrowed to short. */
  function SpawnX(width: JShort): JShort { ToShort(JavaDiv(width, 2) * 32) }
  function SpawnY(height: JShort): JShort { ToShort(JavaDiv(height, 2) * 32 + 51) }
  function SpawnZ(depth: JShort): JShort { ToShort(JavaDiv(depth, 2) * 32) }

  /** `isValidPosition`: Java's truncating `/ 32` of each coordinate inside the level. */
  predicate IsValidPosition(newX: JShort, newY: JShort, newZ: JShort, width: JShort, height: JShort, depth: JShort) {
    0 <= JavaDiv(newX, 32) < width && 0 <= JavaDiv(newY, 32) < height && 0 <= JavaDiv(newZ, 32) < depth
  }

  /** The spawn point passes the position check of the same level when every
      dimension fits a short's spawn arithmetic and the level is at least
      three blocks high (51 units lift the player one block above the middle). */
  lemma SpawnIsValidPosition(width: JShort, height: JShort, depth: JShort)
    requires 1 <= width <= 2047 && 3 <= height <= 2045 && 1 <= depth <= 2047
    ensures IsValidPosition(SpawnX(width), SpawnY(height), SpawnZ(depth), width, height, depth)
  {
    assert SpawnX(width) == width / 2 * 32;
    assert SpawnY(height) == height / 2 * 32 + 51;
    assert SpawnZ(depth) == depth / 2 * 32;
    assert JavaDiv(height / 2 * 32 + 51, 32) == height / 2 + 1;
  }

  /** The truncating division lets raw coordinates -31..-1, which lie in
      block -1 just outside the level, pass the check as block 0. */
  lemma NegativeFractionAccepted()
    ensures IsValidPosition(-1, -31, -16, 1, 1, 1)
  {
  }

  /** The check with floor division (`>> 5`, as `Location` converts). */
  predicate IsValidPositionCorrected(newX: JShort, newY: JShort, newZ: JShort, width: JShort, height: JShort, depth: JShort) {
    0 <= newX / 32 < width && 0 <= newY / 32 < height && 0 <= newZ / 32 < depth
  }

  /** With floor division the check holds exactly for raw coordinates inside
      the level's fixed-point box. */
  lemma CorrectedPositionExact(newX: JShort, newY: JShort, newZ: JShort, width: JShort, height: JShort, depth: JShort)
    ensures IsValidPositionCorrected(newX, newY, newZ, width, height, depth) <==>
      0 <= newX < width * 32 && 0 <= newY < height * 32 && 0 <= newZ < depth * 32
  {
  }

  // ---- The game loop's dispatch table ----

  datatype Handler = PositionHandler | BlockHandler | MessageHandler

  /** `initializePacketHandlers` looked up by `PacketType.fromId` of the byte read. */
  function HandlerFor(t: NetPacketType.PacketType): (r: Option<Handler>)
    ensures r.Some? <==> t in {NetPacketType.POSITION_ORIENTATION, NetPacketType.SET_BLOCK, NetPacketType.MESSAGE}
  {
    match t
    case POSITION_ORIENTATION => Some(PositionHandler)
    case SET_BLOCK => Some(BlockHandler)
    case MESSAGE => Some(MessageHandler)
    case _ => None
  }

  /** The opcodes 0x08, 0x05 and 0x0d reach the position, block and chat
      handlers; every other opcode is logged and skipped. */
  lemma DispatchByOpcode(b: JByte)
    ensures HandlerFor(NetPacketType.FromId(b)) ==
      if b == 0x08 then Some(PositionHandler)
      else if b == 0x05 then Some(BlockHandler)
      else if b == 0x0d then Some(MessageHandler)
      else None
  {
  }

  /** `isValidBlockChange`: inside "main", a known mode and a known block type. */
  predicate IsValidBlockChange(px: JShort, py: JShort, pz: JShort, mode: JByte, blockType: JByte,
                               main: NetLevel.Level, blockIds: set<JByte>)
  {
    0 <= px < main.GetWidth() && 0 <= py < main.GetHeight() && 0 <= pz < main.GetDepth() &&
    NetSetBlockMode.GetById(mode).Some? && blockType in blockIds
  }

  /** The block an accepted change writes: air when destroying, otherwise the
      type the place event carries after its listeners ran. */
  function PlacedBlock(mode: JByte, placedType: JByte): (b: JByte)
    ensures NetSetBlockMode.GetById(mode) == Some(NetSetBlockMode.DESTROY) ==> b == 0
    ensures NetSetBlockMode.GetById(mode) == Some(NetSetBlockMode.PLACE) ==> b == placedType
  {
    if NetSetBlockMode.GetById(mode) == Some(NetSetBlockMode.DESTROY) then 0 else placedType
  }

  /** Everything `sendLevelData` writes for the level. */
  ghost function LevelTransfer(main: NetLevel.Level, gzip: seq<Octet> -> seq<Octet>): seq<Packet>
    requires main.Valid()
    reads main.blocks
  {
    var levelData := LevelFormat.Flatten(main.Cells(), main.width, main.height, main.depth);
    [LevelInitialize] + Chunks(JBytes(gzip(CompressionInput(levelData)))) +
    [LevelFinalize(main.GetWidth(), main.GetHeight(), main.GetDepth())]
  }

  /** The spawn packets of the given players, in order. */
  ghost function Spawns(order: seq<ClientHandler>): seq<Packet>
    reads (set c | c in order)`username, (set c | c in order)`x, (set c | c in order)`y,
      (set c | c in order)`z, (set c | c in order)`yaw, (set c | c in order)`pitch
  {
    if order == [] then [] else Spawns(order[..|order| - 1]) + [order[|order| - 1].SpawnOf()]
  }

  /** The id `cleanup` frees, read with `& 0xFF`, is a valid slot exactly
      when the handler's id is not -1. */
  lemma FreedIdIsInRange(id: JByte)
    ensures Low8(id) < NetPlayerIDManager.MaxPlayers <==> id != -1
  {
  }

  lemma SpawnsAppend(order: seq<ClientHandler>, c: ClientHandler)
    ensures Spawns(order + [c]) == Spawns(order) + [c.SpawnOf()]
  {
    assert (order + [c])[..|order|] == order;
  }

  // ---- The handler ----

  class ClientHandler {
    const playerId: JByte
    /** Whether this handler serves a WebSocket connection (`instanceof WebSocketClientHandler`). */
    const isWebSocket: bool
    var state: ClientState
    var supportsCPE: bool
    /** The name; the empty string stands for Java's `null` before identification. */
    var username: string
    var x: JShort
    var y: JShort
    var z: JShort
    var yaw: JByte
    var pitch: JByte
    /** Everything written to the socket, oldest first. */
    var sent: seq<Packet>

    constructor(playerId: JByte, isWebSocket: bool)
      ensures this.playerId == playerId && this.isWebSocket == isWebSocket
      ensures state == CONNECTING && !supportsCPE && username == ""
      ensures x == 0 && y == 0 && z == 0 && yaw == 0 && pitch == 0
      ensures sent == []
    {
      this.playerId := playerId;
      this.isWebSocket := isWebSocket;
      state := CONNECTING;
      supportsCPE := false;
      username := "";
      x, y, z, yaw, pitch := 0, 0, 0, 0, 0;
      sent := [];
    }

    /** What `sendPacket(p)` writes now: p itself, or nothing when a gate closes. */
    function Out(p: Packet): (r: seq<Packet>)
      reads this`state, this`supportsCPE
      ensures r == [] || r == [p]
      ensures r == [p] <==> Delivers(state, supportsCPE, p)
    {
      if Delivers(state, supportsCPE, p) then [p] else []
    }

    /** The spawn packet describing this player to others (`sendSpawnPacket`). */
    function SpawnOf(): Packet
      reads this`username, this`x, this`y, this`z, this`yaw, this`pitch
    {
      SpawnPlayer(playerId, username, x, y, z, yaw, pitch)
    }

    method SendPacket(p: Packet)
      modifies this`sent
      ensures sent == old(sent) + Out(p)
    {
      if state == DISCONNECTED {
        return;
      }
      if p.IsCPE() && !supportsCPE {
        return;
      }
      sent := sent + [p];
    }

    /** `handlePlayerIdentification` with `validatePlayer`. A rejection calls
        `disconnectPlayer`, but the state is still CONNECTING, so that call does
        nothing: no reason reaches the client, and the id taken when the handler
        was made stays held. On admission it answers with the server
        identification (user type 0x64 for operators) and announces the name to
        every client in the table. */
    method HandlePlayerIdentification(firstPacketId: JByte, packet: Identification, server: ServerSettings,
                                      verified: bool, reg: ClientRegistry, playerLevels: map<ClientHandler, string>)
      returns (ok: bool)
      requires state == CONNECTING && reg.idManager.Valid() && this !in reg.clients.Values
      modifies this`state, this`supportsCPE, this`username, this`sent, reg`clients, reg.idManager.usedIds, reg.clients.Values`sent
      ensures ok <==> Admission(firstPacketId, packet, server, verified, isWebSocket, old(reg.OnlineNames())).None?
      ensures state == CONNECTING && reg.clients == old(reg.clients)
      ensures reg.idManager.usedIds[..] == old(reg.idManager.usedIds[..])
      ensures !ok ==> sent == old(sent) && forall c :: c in reg.clients.Values ==> c.sent == old(c.sent)
      ensures ok ==> username == packet.username && supportsCPE == (packet.paddingByte == CpeMagic)
      ensures ok ==>
        sent == old(sent) +
          [ServerIdentification(server.protocolVersion, server.serverName, server.serverMotd,
                                if Lower(packet.username) in server.opList then OpUserType else 0)]
      ensures ok ==> forall c :: c in reg.clients.Values ==> c.sent == old(c.sent) + c.Out(NameAnnouncement())
    {
      // The checks in the order `validatePlayer` makes them; the padding byte
      // is read once the first packet is known, the name once the version is.
      var rejection := Admission(firstPacketId, packet, server, verified, isWebSocket, reg.OnlineNames());
      if firstPacketId == NetPacketType.Id(NetPacketType.PLAYER_IDENTIFICATION) {
        supportsCPE := packet.paddingByte == CpeMagic;
        if packet.protocolVersion == server.protocolVersion {
          username := packet.username;
        }
      }
      if rejection.Some? {
        Disconnect(Reason(rejection.value), reg, playerLevels);
        return false;
      }
      Welcome(server, reg);
      return true;
    }

    /** The admitted client's answer and the announcement of its name. */
    method Welcome(server: ServerSettings, reg: ClientRegistry)
      requires state == CONNECTING && this !in reg.clients.Values
      modifies this`sent, reg.clients.Values`sent
      ensures sent == old(sent) +
        [ServerIdentification(server.protocolVersion, server.serverName, server.serverMotd,
                              if Lower(username) in server.opList then OpUserType else 0)]
      ensures forall c :: c in reg.clients.Values ==> c.sent == old(c.sent) + c.Out(NameAnnouncement())
    {
      var userType: JByte := if Lower(username) in server.opList then OpUserType else 0;
      SendPacket(ServerIdentification(server.protocolVersion, server.serverName, server.serverMotd, userType));
      reg.BroadcastPacket(NameAnnouncement());
    }

    /** `sendCurrentBlockState`: the block now at the position (air outside the
        level), when the block type is known; otherwise the lookup's null makes
        the reply fail and nothing is written. */
    ghost function CorrectionOf(px: JShort, py: JShort, pz: JShort, main: NetLevel.Level,
                                blockIds: set<JByte>): seq<Packet>
      requires main.Valid()
      reads this, main.blocks
    {
      var current: JByte := if main.IsInBounds(px, py, pz) then main.blocks[px, py, pz] else 0;
      if current in blockIds then Out(SetBlockServer(px, py, pz, current)) else []
    }

    /** `sendPlayerNamePacket`'s packet: the name in the "players" group, rank 0. */
    function NameAnnouncement(): Packet
      reads this
    {
      ExtAddPlayerName(playerId, username, username, PlayerGroup, 0)
    }

    /** `disconnectPlayer` as evidently intended for a client that has not yet
        joined: any state before teardown starts gets the reason and frees the
        id, so a rejected identification leaks nothing. */
    method DisconnectCorrected(reason: string, reg: ClientRegistry, playerLevels: map<ClientHandler, string>)
      requires reg.idManager.Valid()
      modifies this`state, this`sent, reg`clients, reg.idManager.usedIds, reg.clients.Values`sent
      ensures old(state) in {DISCONNECTING, DISCONNECTED} ==>
        state == old(state) && sent == old(sent) && reg.clients == old(reg.clients) &&
        reg.idManager.usedIds[..] == old(reg.idManager.usedIds[..])
      ensures old(state) !in {DISCONNECTING, DISCONNECTED} ==>
        state == DISCONNECTED && |sent| > |old(sent)| && sent[|old(sent)|] == DisconnectPlayer(reason)
      ensures old(state) !in {DISCONNECTING, DISCONNECTED} && playerId != -1 ==>
        reg.clients == old(reg.clients) - {playerId} && reg.idManager.IsIdAvailable(playerId)
    {
      if state == DISCONNECTING || state == DISCONNECTED {
        return;
      }
      state := DISCONNECTING;
      SendDisconnectPacket(reason, reg);
      Cleanup(reg, playerLevels);
    }

    /** The part of `run` after a successful identification: the state becomes
        ACTIVE, the level named "main" is transferred, the player is spawned,
        spawns are exchanged with the other players of its level, and only then
        is it entered into the client table. When the player has no level while
        the table holds clients, `broadcastSpawn` throws (`thrown`): the player
        never enters the table, and `run`'s `finally` disconnects it with
        "Connection closed". */
    method Join(main: NetLevel.Level, gzip: seq<Octet> -> seq<Octet>, reg: ClientRegistry,
                playerLevels: map<ClientHandler, string>) returns (thrown: bool, ghost order: seq<ClientHandler>)
      requires main.Valid() && reg.idManager.Valid()
      modifies this`state, this`sent, this`x, this`y, this`z, this`yaw, this`pitch, reg`clients,
        reg.idManager.usedIds, reg.clients.Values`sent
      ensures thrown <==> old(reg.LevelLookupThrows(playerLevels, this))
      ensures x == SpawnX(main.GetWidth()) && y == SpawnY(main.GetHeight()) && z == SpawnZ(main.GetDepth())
      ensures yaw == 0 && pitch == 0
      ensures !thrown ==> state == ACTIVE
      ensures !thrown ==> sent == old(sent) + LevelTransfer(main, gzip) + [
          SpawnPlayer(-1, username, x, y, z, 0, 0), ServerPosition(-1, x, y, z, 0, 0)] + Spawns(order)
      ensures !thrown ==> |order| == |old(reg.ClientsInLevelExcept(playerLevels, this))|
      ensures !thrown ==> forall c :: c in order <==> c in old(reg.ClientsInLevelExcept(playerLevels, this))
      ensures !thrown ==> forall c :: c in old(reg.clients.Values) && c != this ==>
        c.sent == old(c.sent) + if c in old(reg.ClientsInLevelExcept(playerLevels, this)) then c.Out(SpawnOf()) else []
      ensures !thrown ==> reg.clients == old(reg.clients)[playerId := this]
      ensures !thrown ==> reg.idManager.usedIds[..] == old(reg.idManager.usedIds[..])
      ensures thrown ==> state == DISCONNECTED
      ensures thrown ==> (sent == old(sent) + LevelTransfer(main, gzip) + [
          SpawnPlayer(-1, username, x, y, z, 0, 0), ServerPosition(-1, x, y, z, 0, 0),
          DisconnectPlayer("Connection closed")] +
          (if this in old(reg.clients.Values) && supportsCPE then [ExtRemovePlayerName(playerId)] else []))
      ensures thrown && playerId != -1 ==> reg.clients == old(reg.clients) - {playerId}
      ensures thrown && Low8(playerId) < NetPlayerIDManager.MaxPlayers ==>
        reg.idManager.usedIds[..] == old(reg.idManager.usedIds[..])[Low8(playerId) := false]
      ensures thrown && playerId == -1 ==>
        reg.clients == old(reg.clients) && reg.idManager.usedIds[..] == old(reg.idManager.usedIds[..])
      ensures thrown ==> forall c :: c in old(reg.clients.Values) && c != this ==>
        c.sent == old(c.sent) + c.Out(ExtRemovePlayerName(playerId))
    {
      thrown := reg.LevelLookupThrows(playerLevels, this);
      if thrown {
        order := [];
        JoinRefused(main, gzip, reg, playerLevels);
      } else {
        order := JoinAccepted(main, gzip, reg, playerLevels);
      }
    }

    /** `run`'s join for a player whose spawn exchange goes through: it ends
        ACTIVE and in the table, having exchanged spawns with exactly the other
        players of its level. */
    method JoinAccepted(main: NetLevel.Level, gzip: seq<Octet> -> seq<Octet>, reg: ClientRegistry,
                        playerLevels: map<ClientHandler, string>) returns (ghost order: seq<ClientHandler>)
      requires main.Valid() && !reg.LevelLookupThrows(playerLevels, this)
      modifies this`state, this`sent, this`x, this`y, this`z, this`yaw, this`pitch, reg`clients,
        reg.ClientsInLevelExcept(playerLevels, this)`sent
      ensures state == ACTIVE
      ensures x == SpawnX(main.GetWidth()) && y == SpawnY(main.GetHeight()) && z == SpawnZ(main.GetDepth())
      ensures yaw == 0 && pitch == 0
      ensures sent == old(sent) + LevelTransfer(main, gzip) + [
          SpawnPlayer(-1, username, x, y, z, 0, 0), ServerPosition(-1, x, y, z, 0, 0)] + Spawns(order)
      ensures |order| == |old(reg.ClientsInLevelExcept(playerLevels, this))|
      ensures forall c :: c in order <==> c in old(reg.ClientsInLevelExcept(playerLevels, this))
      ensures forall c :: c in old(reg.ClientsInLevelExcept(playerLevels, this)) ==>
        c.sent == old(c.sent) + c.Out(SpawnOf())
      ensures reg.clients == old(reg.clients)[playerId := this]
    {
      Enter(main, gzip);
      var thrown;
      thrown, order := Announce(reg, playerLevels);
    }

    /** `run`'s join for a player with no level while the table holds clients:
        the level and the player's own spawn go out, the spawn exchange throws
        before sending anything, and `run`'s `finally` disconnects the player,
        who never entered the table. */
    method JoinRefused(main: NetLevel.Level, gzip: seq<Octet> -> seq<Octet>, reg: ClientRegistry,
                       playerLevels: map<ClientHandler, string>)
      requires main.Valid() && reg.idManager.Valid()
      requires reg.LevelLookupThrows(playerLevels, this)
      modifies this`state, this`sent, this`x, this`y, this`z, this`yaw, this`pitch, reg`clients,
        reg.idManager.usedIds, reg.clients.Values`sent
      ensures state == DISCONNECTED
      ensures x == SpawnX(main.GetWidth()) && y == SpawnY(main.GetHeight()) && z == SpawnZ(main.GetDepth())
      ensures yaw == 0 && pitch == 0
      ensures sent == old(sent) + LevelTransfer(main, gzip) + [
          SpawnPlayer(-1, username, x, y, z, 0, 0), ServerPosition(-1, x, y, z, 0, 0),
          DisconnectPlayer("Connection closed")] +
          (if this in old(reg.clients.Values) && supportsCPE then [ExtRemovePlayerName(playerId)] else [])
      ensures playerId != -1 ==> reg.clients == old(reg.clients) - {playerId}
      ensures Low8(playerId) < NetPlayerIDManager.MaxPlayers ==>
        reg.idManager.usedIds[..] == old(reg.idManager.usedIds[..])[Low8(playerId) := false]
      ensures playerId == -1 ==>
        reg.clients == old(reg.clients) && reg.idManager.usedIds[..] == old(reg.idManager.usedIds[..])
      ensures forall c :: c in old(reg.clients.Values) && c != this ==>
        c.sent == old(c.sent) + c.Out(ExtRemovePlayerName(playerId))
    {
      Enter(main, gzip);
      CloseConnection(reg, playerLevels);
    }

    /** The spawn exchange of a player with no level while the table holds
        clients: `broadcastSpawn` throws before sending anything, and `run`'s
        `finally` runs `disconnectPlayer("Connection closed")` from ACTIVE. No
        despawn goes out, since the player is in no level (in the source the
        despawn's own lookup throws as well, after the id is freed). */
    method CloseConnection(reg: ClientRegistry, playerLevels: map<ClientHandler, string>)
      requires reg.idManager.Valid() && state == ACTIVE && reg.LevelLookupThrows(playerLevels, this)
      modifies this`state, this`sent, reg`clients, reg.idManager.usedIds, reg.clients.Values`sent
      ensures state == DISCONNECTED
      ensures sent == old(sent) + [DisconnectPlayer("Connection closed")] +
        (if this in old(reg.clients.Values) && supportsCPE then [ExtRemovePlayerName(playerId)] else [])
      ensures playerId != -1 ==> reg.clients == old(reg.clients) - {playerId}
      ensures Low8(playerId) < NetPlayerIDManager.MaxPlayers ==>
        reg.idManager.usedIds[..] == old(reg.idManager.usedIds[..])[Low8(playerId) := false]
      ensures playerId == -1 ==>
        reg.clients == old(reg.clients) && reg.idManager.usedIds[..] == old(reg.idManager.usedIds[..])
      ensures forall c :: c in old(reg.clients.Values) && c != this ==>
        c.sent == old(c.sent) + c.Out(ExtRemovePlayerName(playerId))
    {
      var thrown, order := BroadcastSpawn(reg, playerLevels);
      FreedIdIsInRange(playerId);
      Disconnect("Connection closed", reg, playerLevels);
    }

    /** `run`'s join as evidently intended: the player is first placed in
        "main" (`setPlayerLevel`), so the spawn exchange cannot throw, the
        player always enters the table, and none of its level broadcasts can
        throw afterwards. */
    method JoinCorrected(main: NetLevel.Level, gzip: seq<Octet> -> seq<Octet>, reg: ClientRegistry,
                         playerLevels: map<ClientHandler, string>)
      returns (levels: map<ClientHandler, string>, ghost order: seq<ClientHandler>)
      requires main.Valid()
      modifies this`state, this`sent, this`x, this`y, this`z, this`yaw, this`pitch, reg`clients,
        reg.clients.Values`sent
      ensures levels == playerLevels[this := MainLevel]
      ensures !reg.LevelLookupThrows(levels, this)
      ensures state == ACTIVE
      ensures x == SpawnX(main.GetWidth()) && y == SpawnY(main.GetHeight()) && z == SpawnZ(main.GetDepth())
      ensures yaw == 0 && pitch == 0
      ensures sent == old(sent) + LevelTransfer(main, gzip) + [
          SpawnPlayer(-1, username, x, y, z, 0, 0), ServerPosition(-1, x, y, z, 0, 0)] + Spawns(order)
      ensures forall c :: c in order <==> c in old(reg.ClientsInLevel(playerLevels, MainLevel)) && c != this
      ensures forall c :: c in old(reg.clients.Values) && c != this ==>
        c.sent == old(c.sent) + if c in order then c.Out(SpawnOf()) else []
      ensures reg.clients == old(reg.clients)[playerId := this]
    {
      levels := playerLevels[this := MainLevel];
      ghost var peers := reg.ClientsInLevelExcept(levels, this);
      assert forall c :: c in peers <==> c in reg.ClientsInLevel(playerLevels, MainLevel) && c != this;
      order := JoinAccepted(main, gzip, reg, levels);
    }

    /** The rest of `run`'s join: spawns are exchanged, then the client is
        entered into the table, unless the exchange threw. */
    method Announce(reg: ClientRegistry, playerLevels: map<ClientHandler, string>)
      returns (thrown: bool, ghost order: seq<ClientHandler>)
      requires state == ACTIVE
      modifies this`sent, reg`clients, reg.ClientsInLevelExcept(playerLevels, this)`sent
      ensures thrown <==> old(reg.LevelLookupThrows(playerLevels, this))
      ensures sent == old(sent) + Spawns(order)
      ensures |order| == |old(reg.ClientsInLevelExcept(playerLevels, this))|
      ensures forall c :: c in order <==> c in old(reg.ClientsInLevelExcept(playerLevels, this))
      ensures forall c :: c in old(reg.ClientsInLevelExcept(playerLevels, this)) ==>
        c.sent == old(c.sent) + c.Out(SpawnOf())
      ensures reg.clients == if thrown then old(reg.clients) else old(reg.clients)[playerId := this]
    {
      thrown, order := BroadcastSpawn(reg, playerLevels);
      if !thrown {
        reg.clients := reg.clients[playerId := this];
      }
    }

    /** The joining player's own part of `joinLevel`: the level transfer
        followed by its spawn at the level's centre. */
    method Enter(main: NetLevel.Level, gzip: seq<Octet> -> seq<Octet>)
      requires main.Valid()
      modifies this`state, this`sent, this`x, this`y, this`z, this`yaw, this`pitch
      ensures state == ACTIVE
      ensures x == SpawnX(main.GetWidth()) && y == SpawnY(main.GetHeight()) && z == SpawnZ(main.GetDepth())
      ensures yaw == 0 && pitch == 0
      ensures sent == old(sent) + LevelTransfer(main, gzip) + [
          SpawnPlayer(-1, username, x, y, z, 0, 0), ServerPosition(-1, x, y, z, 0, 0)]
    {
      state := ACTIVE;
      SendLevelData(main, gzip);
      Spawn(main);
    }

    /** `sendLevelData`: LevelInitialize, the chunks of the gzip-compressed
        data, and LevelFinalize with the level's dimensions. */
    method SendLevelData(main: NetLevel.Level, gzip: seq<Octet> -> seq<Octet>)
      requires main.Valid() && state == ACTIVE
      modifies this`sent
      ensures sent == old(sent) + LevelTransfer(main, gzip)
    {
      var levelData := main.GetBlockData();
      var compressed := JBytes(gzip(CompressionInput(levelData)));
      var finalize := LevelFinalize(main.GetWidth(), main.GetHeight(), main.GetDepth());
      assert LevelTransfer(main, gzip) == [LevelInitialize] + Chunks(compressed) + [finalize];
      SendPacket(LevelInitialize);
      SendCompressedLevelData(compressed);
      SendPacket(finalize);
    }

    /** The chunk loop: each chunk is a fresh packet whose buffer holds the
        next stretch of the data, with the percentage of chunks sent so far. */
    method SendCompressedLevelData(compressed: seq<JByte>)
      requires state == ACTIVE
      modifies this`sent
      ensures sent == old(sent) + Chunks(compressed)
    {
      var total := ChunkCount(|compressed|);
      var i := 0;
      var chunkIndex := 0;
      while i < |compressed|
        invariant i == chunkIndex * ChunkSize
        invariant chunkIndex <= total
        invariant i < |compressed| ==> chunkIndex < total
        invariant i >= |compressed| ==> chunkIndex == total
        invariant sent == old(sent) + Chunks(compressed)[..chunkIndex]
      {
        ChunkStart(chunkIndex, |compressed|);
        var chunkPacket := new NetLevelDataChunkPacket.LevelDataChunkPacket();
        var remainingBytes := Min(ChunkSize, |compressed| - i);
        chunkPacket.chunkLength := ToShort(remainingBytes);
        var chunkData := compressed[i .. i + remainingBytes] + NetLevelDataChunkPacket.ZeroBytes(ChunkSize - remainingBytes);
        assert chunkData == ChunkBytes(compressed, chunkIndex);
        chunkPacket.SetChunkData(chunkData);
        assert chunkPacket.chunkData[..] == chunkData by {
          assert chunkData[..ChunkSize] == chunkData;
          assert NetLevelDataChunkPacket.ZeroBytes(0) == [];
        }
        chunkPacket.percentComplete := Percent(chunkIndex, total);
        var sending := LevelDataChunk(chunkPacket.chunkLength, chunkPacket.chunkData[..], chunkPacket.percentComplete);
        ChunkIs(compressed, chunkIndex);
        assert sending == Chunks(compressed)[chunkIndex];
        SendPacket(sending);
        assert Chunks(compressed)[..chunkIndex + 1] == Chunks(compressed)[..chunkIndex] + [Chunks(compressed)[chunkIndex]];
        i := i + ChunkSize;
        chunkIndex := chunkIndex + 1;
      }
      assert Chunks(compressed)[..chunkIndex] == Chunks(compressed);
    }

    /** `spawnPlayer`: the pose becomes the spawn point of "main", sent to the
        player as its own spawn and position, both with id -1. */
    method Spawn(main: NetLevel.Level)
      requires state == ACTIVE
      modifies this`x, this`y, this`z, this`yaw, this`pitch, this`sent
      ensures x == SpawnX(main.GetWidth()) && y == SpawnY(main.GetHeight()) && z == SpawnZ(main.GetDepth())
      ensures yaw == 0 && pitch == 0
      ensures sent == old(sent) + [SpawnPlayer(-1, username, x, y, z, 0, 0), ServerPosition(-1, x, y, z, 0, 0)]
    {
      x := SpawnX(main.GetWidth());
      y := SpawnY(main.GetHeight());
      z := SpawnZ(main.GetDepth());
      yaw := 0;
      pitch := 0;
      SendPacket(SpawnPlayer(-1, username, x, y, z, yaw, pitch));
      SendPacket(ServerPosition(-1, x, y, z, yaw, pitch));
    }

    /** `broadcastSpawn`: with every other player of its level, in the table's
        iteration order, this player's spawn goes to the other and the other's
        spawn comes back to this player. For a player with no level the lookup
        throws before anything is sent, unless the table is empty. */
    method BroadcastSpawn(reg: ClientRegistry, playerLevels: map<ClientHandler, string>)
      returns (thrown: bool, ghost order: seq<ClientHandler>)
      requires state == ACTIVE
      modifies this`sent, reg.ClientsInLevelExcept(playerLevels, this)`sent
      ensures thrown <==> reg.LevelLookupThrows(playerLevels, this)
      ensures thrown ==> order == [] && sent == old(sent)
      ensures |order| == |reg.ClientsInLevelExcept(playerLevels, this)|
      ensures forall c :: c in order <==> c in reg.ClientsInLevelExcept(playerLevels, this)
      ensures sent == old(sent) + Spawns(order)
      ensures forall c :: c in reg.ClientsInLevelExcept(playerLevels, this) ==> c.sent == old(c.sent) + c.Out(SpawnOf())
    {
      thrown := reg.LevelLookupThrows(playerLevels, this);
      if thrown {
        return thrown, [];
      }
      order := ExchangeAll(reg.ClientsInLevelExcept(playerLevels, this));
    }

    /** The loop of `broadcastSpawn` over the other players. */
    method ExchangeAll(others: set<ClientHandler>) returns (ghost order: seq<ClientHandler>)
      requires state == ACTIVE && this !in others
      modifies this`sent, others`sent
      ensures |order| == |others| && forall c :: c in order <==> c in others
      ensures sent == old(sent) + Spawns(order)
      ensures forall c :: c in others ==> c.sent == old(c.sent) + c.Out(SpawnOf())
    {
      var rest := others;
      order := [];
      while rest != {}
        invariant rest <= others
        invariant forall c :: c in order <==> c in others && c !in rest
        invariant |order| + |rest| == |others|
        invariant forall c :: c in others - rest ==> c.sent == old(c.sent) + c.Out(SpawnOf())
        invariant forall c :: c in rest ==> c.sent == old(c.sent)
        invariant sent == old(sent) + Spawns(order)
        decreases |rest|
      {
        var c :| c in rest;
        ExchangeSpawns(c, order, old(sent));
        order := order + [c];
        rest := rest - {c};
      }
    }

    /** One round of `broadcastSpawn`: `sendSpawnPacket(client, this)`, then
        `sendSpawnPacket(this, client)`. */
    method ExchangeSpawns(c: ClientHandler, ghost order: seq<ClientHandler>, ghost before: seq<Packet>)
      requires c != this && state == ACTIVE
      requires sent == before + Spawns(order)
      modifies this`sent, c`sent
      ensures c.sent == old(c.sent) + c.Out(SpawnOf())
      ensures sent == old(sent) + [c.SpawnOf()]
      ensures sent == before + Spawns(order + [c])
    {
      SpawnsAppend(order, c);
      c.SendPacket(SpawnOf());
      SendPacket(c.SpawnOf());
    }

    /** `handleClientPosition`: a position inside "main" becomes the stored pose
        and goes to the other players of the level; any other position is
        answered with the stored pose, to this player only. When the player has
        no level the broadcast's lookup throws after the pose is stored
        (`thrown`), and the game loop disconnects the player with
        "Unexpected error: " and the exception's message. */
    method HandleClientPosition(newX: JShort, newY: JShort, newZ: JShort, newYaw: JByte, newPitch: JByte,
                                main: NetLevel.Level, reg: ClientRegistry, playerLevels: map<ClientHandler, string>)
      returns (thrown: bool)
      modifies this`x, this`y, this`z, this`yaw, this`pitch, this`sent, reg.ClientsInLevelExcept(playerLevels, this)`sent
      ensures thrown <==> (IsValidPosition(newX, newY, newZ, main.GetWidth(), main.GetHeight(), main.GetDepth()) &&
        reg.LevelLookupThrows(playerLevels, this))
      ensures var ok := IsValidPosition(newX, newY, newZ, main.GetWidth(), main.GetHeight(), main.GetDepth());
        && (ok ==> x == newX && y == newY && z == newZ && yaw == newYaw && pitch == newPitch && sent == old(sent))
        && (ok ==> forall c :: c in reg.ClientsInLevelExcept(playerLevels, this) ==>
              c.sent == old(c.sent) + c.Out(ServerPosition(playerId, newX, newY, newZ, newYaw, newPitch)))
        && (!ok ==> x == old(x) && y == old(y) && z == old(z) && yaw == old(yaw) && pitch == old(pitch))
        && (!ok ==> sent == old(sent) + Out(ServerPosition(playerId, x, y, z, yaw, pitch)))
        && (!ok ==> forall c :: c in reg.ClientsInLevelExcept(playerLevels, this) ==> c.sent == old(c.sent))
    {
      if !IsValidPosition(newX, newY, newZ, main.GetWidth(), main.GetHeight(), main.GetDepth()) {
        SendPacket(ServerPosition(playerId, x, y, z, yaw, pitch));
        return false;
      }
      x, y, z, yaw, pitch := newX, newY, newZ, newYaw, newPitch;
      thrown := reg.LevelLookupThrows(playerLevels, this);
      if thrown {
        return;
      }
      reg.SendAll(ServerPosition(playerId, x, y, z, yaw, pitch), reg.ClientsInLevelExcept(playerLevels, this));
    }

    /** `handleMessage`: a message over 64 characters is dropped; one starting
        with "/" is handed, without the slash, to the command registry (the
        returned text); any other goes as "name:message" to every player of the
        sender's level, the sender included. When the sender has no level that
        broadcast's lookup throws instead (`thrown`), and the game loop
        disconnects the sender. */
    method HandleMessage(message: string, reg: ClientRegistry, playerLevels: map<ClientHandler, string>)
      returns (command: Option<string>, thrown: bool)
      modifies reg.LevelOf(playerLevels, this)`sent
      ensures thrown <==> (|message| <= MaxMessageLength && !StartsWith(message, "/") &&
        reg.LevelLookupThrows(playerLevels, this))
      ensures |message| > MaxMessageLength ==> command == None
      ensures |message| <= MaxMessageLength && StartsWith(message, "/") ==> command == Some(message[1..])
      ensures command.Some? || |message| > MaxMessageLength ==>
        forall c :: c in reg.LevelOf(playerLevels, this) ==> c.sent == old(c.sent)
      ensures command.None? && |message| <= MaxMessageLength ==>
        forall c :: c in reg.LevelOf(playerLevels, this) ==>
          c.sent == old(c.sent) + c.Out(Message(playerId, username + ":" + message))
    {
      if |message| > MaxMessageLength {
        return None, false;
      }
      if StartsWith(message, "/") {
        return Some(message[1..]), false;
      }
      command := None;
      thrown := reg.LevelLookupThrows(playerLevels, this);
      if thrown {
        return;
      }
      reg.SendAll(Message(playerId, username + ":" + message), reg.LevelOf(playerLevels, this));
    }

    /** `handleSetBlock` on the level named "main". A change outside it, with an
        unknown mode or an unknown block is answered with the block there now,
        when that block is known. A valid change is offered to the event
        listeners (`cancelled`, and `placedType`, the block type the place event
        carries afterwards); unless cancelled, the cell becomes air (destroy) or
        the placed type, and the change goes to every player of the level; for
        a player with no level that broadcast throws after the cell is
        written (`thrown`). The handler's own catch logs that exception, so
        the player stays connected and the game loop goes on. */
    method HandleSetBlock(px: JShort, py: JShort, pz: JShort, mode: JByte, blockType: JByte,
                          main: NetLevel.Level, blockIds: set<JByte>, cancelled: bool, placedType: JByte,
                          reg: ClientRegistry, playerLevels: map<ClientHandler, string>)
      returns (thrown: bool)
      requires main.Valid()
      modifies main.blocks, this`sent, reg.LevelOf(playerLevels, this)`sent
      ensures thrown <==> (IsValidBlockChange(px, py, pz, mode, blockType, main, blockIds) && !cancelled &&
        reg.LevelLookupThrows(playerLevels, this))
      ensures !IsValidBlockChange(px, py, pz, mode, blockType, main, blockIds) ==>
        unchanged(main.blocks) && sent == old(sent) + old(CorrectionOf(px, py, pz, main, blockIds)) &&
        forall c :: c in reg.LevelOf(playerLevels, this) && c != this ==> c.sent == old(c.sent)
      ensures IsValidBlockChange(px, py, pz, mode, blockType, main, blockIds) && cancelled ==>
        unchanged(main.blocks) && sent == old(sent) &&
        forall c :: c in reg.LevelOf(playerLevels, this) ==> c.sent == old(c.sent)
      ensures IsValidBlockChange(px, py, pz, mode, blockType, main, blockIds) && !cancelled ==>
        var written := PlacedBlock(mode, placedType);
        && (forall i, j, k :: LevelFormat.InBox(i, j, k, main.width, main.height, main.depth) ==>
              main.blocks[i, j, k] == if i == px && j == py && k == pz then written else old(main.blocks[i, j, k]))
        && (forall c :: c in reg.LevelOf(playerLevels, this) ==>
              c.sent == old(c.sent) + c.Out(SetBlockServer(px, py, pz, written)))
        && (this !in reg.LevelOf(playerLevels, this) ==> sent == old(sent))
    {
      if !IsValidBlockChange(px, py, pz, mode, blockType, main, blockIds) {
        SendCurrentBlockState(px, py, pz, main, blockIds);
        return false;
      }
      thrown := false;
      var m := NetSetBlockMode.GetById(mode).value;
      if NetSetBlockMode.IsDestroy(m) {
        if !cancelled {
          thrown := ChangeBlock(px, py, pz, 0, main, reg, playerLevels);
        }
      } else if NetSetBlockMode.IsPlace(m) {
        if !cancelled {
          thrown := ChangeBlock(px, py, pz, placedType, main, reg, playerLevels);
        }
      }
    }

    /** The reply to a rejected change. */
    method SendCurrentBlockState(px: JShort, py: JShort, pz: JShort, main: NetLevel.Level, blockIds: set<JByte>)
      requires main.Valid()
      modifies this`sent
      ensures sent == old(sent) + CorrectionOf(px, py, pz, main, blockIds)
    {
      var current := main.GetBlock(px, py, pz);
      if current in blockIds {
        SendPacket(SetBlockServer(px, py, pz, current));
      }
    }

    /** An accepted change: the cell is written and the level is told, unless
        the player has no level and the lookup throws. */
    method ChangeBlock(px: JShort, py: JShort, pz: JShort, b: JByte, main: NetLevel.Level,
                       reg: ClientRegistry, playerLevels: map<ClientHandler, string>)
      returns (thrown: bool)
      requires main.Valid()
      modifies main.blocks, reg.LevelOf(playerLevels, this)`sent
      ensures thrown <==> reg.LevelLookupThrows(playerLevels, this)
      ensures forall i, j, k :: LevelFormat.InBox(i, j, k, main.width, main.height, main.depth) ==>
        main.blocks[i, j, k] == if i == px && j == py && k == pz then b else old(main.blocks[i, j, k])
      ensures forall c :: c in reg.LevelOf(playerLevels, this) ==> c.sent == old(c.sent) + c.Out(SetBlockServer(px, py, pz, b))
    {
      main.SetBlock(px, py, pz, b);
      thrown := reg.LevelLookupThrows(playerLevels, this);
      if thrown {
        return;
      }
      reg.SendAll(SetBlockServer(px, py, pz, b), reg.LevelOf(playerLevels, this));
    }

    /** `disconnectPlayer`: runs only when the state moves from ACTIVE to
        DISCONNECTING, so teardown happens at most once. It writes the
        disconnect packet, tells every client to drop the name from its list,
        removes the client from the table, frees its id, despawns it from its
        level, and ends DISCONNECTED. */
    method Disconnect(reason: string, reg: ClientRegistry, playerLevels: map<ClientHandler, string>)
      requires reg.idManager.Valid()
      modifies this`state, this`sent, reg`clients, reg.idManager.usedIds, reg.clients.Values`sent
      ensures old(state) != ACTIVE ==>
        state == old(state) && sent == old(sent) && reg.clients == old(reg.clients) &&
        reg.idManager.usedIds[..] == old(reg.idManager.usedIds[..]) &&
        forall c :: c in old(reg.clients.Values) ==> c.sent == old(c.sent)
      ensures old(state) == ACTIVE ==> state == DISCONNECTED
      ensures old(state) == ACTIVE ==>
        sent == old(sent) + [DisconnectPlayer(reason)] +
          (if this in old(reg.clients.Values) && supportsCPE then [ExtRemovePlayerName(playerId)] else [])
      ensures old(state) == ACTIVE && playerId != -1 ==>
        reg.clients == old(reg.clients) - {playerId} &&
        reg.idManager.usedIds[..] == old(reg.idManager.usedIds[..])[Low8(playerId) := false]
      ensures old(state) == ACTIVE && playerId == -1 ==>
        reg.clients == old(reg.clients) && reg.idManager.usedIds[..] == old(reg.idManager.usedIds[..])
      ensures old(state) == ACTIVE ==>
        forall c :: c in old(reg.clients.Values) && c != this ==>
          c.sent == old(c.sent) + c.Out(ExtRemovePlayerName(playerId)) +
            (if playerId != -1 && c in reg.ClientsInLevelExcept(playerLevels, this) then c.Out(DespawnPlayer(playerId)) else [])
    {
      if state != ACTIVE {
        return;
      }
      state := DISCONNECTING;
      SendDisconnectPacket(reason, reg);
      Cleanup(reg, playerLevels);
    }

    /** `sendDisconnectPacket`: the reason to this client, then the name's
        removal to every client in the table. */
    method SendDisconnectPacket(reason: string, reg: ClientRegistry)
      requires state == DISCONNECTING
      modifies this`sent, reg.clients.Values`sent
      ensures sent == old(sent) + [DisconnectPlayer(reason)] +
        (if this in reg.clients.Values && supportsCPE then [ExtRemovePlayerName(playerId)] else [])
      ensures forall c :: c in reg.clients.Values && c != this ==>
        c.sent == old(c.sent) + c.Out(ExtRemovePlayerName(playerId))
    {
      SendPacket(DisconnectPlayer(reason));
      reg.BroadcastPacket(ExtRemovePlayerName(playerId));
    }

    /** `cleanup`: unless the id is -1, drop the table entry, free the id and
        despawn the player from its level; the state ends DISCONNECTED. For a
        player with no level the despawn's lookup throws when other clients
        remain; nobody is sent anything either way, and the state is still set
        in the `finally`. */
    method Cleanup(reg: ClientRegistry, playerLevels: map<ClientHandler, string>)
      requires reg.idManager.Valid() && state == DISCONNECTING
      modifies this`state, reg`clients, reg.idManager.usedIds, reg.clients.Values`sent
      ensures state == DISCONNECTED
      ensures playerId != -1 ==>
        reg.clients == old(reg.clients) - {playerId} &&
        reg.idManager.usedIds[..] == old(reg.idManager.usedIds[..])[Low8(playerId) := false]
      ensures playerId == -1 ==>
        reg.clients == old(reg.clients) && reg.idManager.usedIds[..] == old(reg.idManager.usedIds[..])
      ensures forall c :: c in old(reg.clients.Values) && c != this ==>
        c.sent == old(c.sent) +
          (if playerId != -1 && c in reg.ClientsInLevelExcept(playerLevels, this) then c.Out(DespawnPlayer(playerId)) else [])
      ensures sent == old(sent)
    {
      if playerId != -1 {
        ghost var before := reg.clients.Values;
        reg.clients := reg.clients - {playerId};
        assert reg.clients.Values <= before;
        reg.idManager.ReleaseId(playerId);
        reg.BroadcastDespawn(this, playerLevels);
      }
      state := DISCONNECTED;
    }
  }

  /** The static members of `ClientHandler`: the client table and the id manager. */
  class ClientRegistry {
    var clients: map<JByte, ClientHandler>
    const idManager: NetPlayerIDManager.PlayerIDManager

    constructor()
      ensures clients == map[] && idManager.Valid() && fresh(idManager) && fresh(idManager.usedIds)
    {
      clients := map[];
      idManager := new NetPlayerIDManager.PlayerIDManager();
    }

    /** `getClientsInLevel`: the clients the level manager places in the level.
        A client with no entry is in no level. */
    function ClientsInLevel(playerLevels: map<ClientHandler, string>, levelName: string): set<ClientHandler>
      reads this
    {
      set c | c in clients.Values && c in playerLevels && playerLevels[c] == levelName
    }

    /** The names of the clients in the table. */
    function OnlineNames(): set<string>
      reads this, clients.Values
    {
      set c | c in clients.Values :: c.username
    }

    /** The clients of the player's level, the player included when it is in
        the table; none when it has no level. */
    function LevelOf(playerLevels: map<ClientHandler, string>, player: ClientHandler): set<ClientHandler>
      reads this
    {
      if player in playerLevels then ClientsInLevel(playerLevels, playerLevels[player]) else {}
    }

    /** `getClientsInLevel` of a player's level when the player has none: the
        filter calls `equals` on the null name, which throws a
        NullPointerException as soon as the table holds any client. */
    predicate LevelLookupThrows(playerLevels: map<ClientHandler, string>, player: ClientHandler)
      reads this
    {
      player !in playerLevels && |clients| > 0
    }

    /** The other clients in the level of `except`, or none when it has no level. */
    function ClientsInLevelExcept(playerLevels: map<ClientHandler, string>, except: ClientHandler): set<ClientHandler>
      reads this
    {
      if except in playerLevels then ClientsInLevel(playerLevels, playerLevels[except]) - {except} else {}
    }

    /** The loop over a set of clients behind every broadcast. */
    method SendAll(p: Packet, recipients: set<ClientHandler>)
      modifies recipients`sent
      ensures forall c :: c in recipients ==> c.sent == old(c.sent) + c.Out(p)
    {
      var rest := recipients;
      while rest != {}
        invariant rest <= recipients
        invariant forall c :: c in recipients - rest ==> c.sent == old(c.sent) + c.Out(p)
        invariant forall c :: c in rest ==> c.sent == old(c.sent)
        decreases |rest|
      {
        var c :| c in rest;
        c.SendPacket(p);
        rest := rest - {c};
      }
    }

    /** `broadcastPacket`: every client in the table. */
    method BroadcastPacket(p: Packet)
      modifies clients.Values`sent
      ensures forall c :: c in clients.Values ==> c.sent == old(c.sent) + c.Out(p)
    {
      SendAll(p, clients.Values);
    }

    /** `broadcastDespawn`: the other clients of the player's level. */
    method BroadcastDespawn(player: ClientHandler, playerLevels: map<ClientHandler, string>)
      modifies clients.Values`sent
      ensures forall c :: c in clients.Values ==>
        c.sent == old(c.sent) + if c in ClientsInLevelExcept(playerLevels, player) then c.Out(DespawnPlayer(player.playerId)) else []
    {
      SendAll(DespawnPlayer(player.playerId), ClientsInLevelExcept(playerLevels, player));
    }
  }
}
