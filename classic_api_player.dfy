// src/classic/api/Player.java: the plugin-facing view of one connected client
// of the single-world server. It reads and writes blocks through the server's
// level, guarded by its own position and type checks, and talks to the client
// through its handler.
//
// The position check reads the dimensions of a level generator; they are
// parameters here, as is the server's level.

module ClassicApiPlayer {
  import opened JavaNum
  import ClassicLevel
  import ClassicBlockType
  import ClassicClientHandler
  import ClassicMessagePacket
  import LevelFormat

  /** A pose as `getLocation` reports it. */
  datatype Location = Location(x: JShort, y: JShort, z: JShort, yaw: JByte, pitch: JByte)

  /** `isValidBlockPosition`: every coordinate lies in [0, dimension). */
  predicate IsValidBlockPosition(x: int, y: int, z: int, width: JShort, height: JShort, depth: JShort) {
    x >= 0 && x < width && y >= 0 && y < height && z >= 0 && z < depth
  }

  /** `isValidBlockType`: the id is 0..49. */
  predicate IsValidBlockType(blockType: JByte) {
    blockType >= 0 && blockType <= ClassicClientHandler.MaxBlockId
  }

  /** The type check accepts exactly the ids `BlockType.getById` knows. */
  lemma BlockTypeKnown(blockType: JByte)
    ensures IsValidBlockType(blockType) <==> ClassicBlockType.GetById(blockType).Some?
  {
    ClassicBlockType.GetByIdDefined(blockType);
  }

  /** A position passes exactly when it is a cell of a box of the generator's
      dimensions, and then the `short` casts `setBlock` and `getBlock` apply
      leave the coordinates as they are. */
  lemma BlockPositionInBox(x: int, y: int, z: int, width: JShort, height: JShort, depth: JShort)
    ensures IsValidBlockPosition(x, y, z, width, height, depth) <==>
      LevelFormat.InBox(x, y, z, width, height, depth)
    ensures IsValidBlockPosition(x, y, z, width, height, depth) ==>
      ToShort(x) == x && ToShort(y) == y && ToShort(z) == z
  {
  }

  /** Against the same dimensions, the plugin checks accept a block exactly
      when a client's place request (mode 1) for it would be accepted. */
  lemma SameAsPlaceRequest(x: JShort, y: JShort, z: JShort, blockType: JByte,
                           width: JShort, height: JShort, depth: JShort)
    ensures IsValidBlockPosition(x, y, z, width, height, depth) && IsValidBlockType(blockType) <==>
      ClassicClientHandler.IsValidBlockChange(x, y, z, 1, blockType, width, height, depth)
  {
  }

  /** What `getBlock` answers: the level's cell when the position passes the
      check, air otherwise (and also when the level is smaller than the
      generator's box). */
  ghost function BlockAt(level: ClassicLevel.Level, x: int, y: int, z: int,
                         width: JShort, height: JShort, depth: JShort): JByte
    requires level.Valid()
    reads level.blocks
  {
    if IsValidBlockPosition(x, y, z, width, height, depth) then ClassicClientHandler.CurrentBlock(level, x, y, z)
    else ClassicLevel.Air
  }

  class Player {
    const handler: ClassicClientHandler.ClientHandler

    constructor (handler: ClassicClientHandler.ClientHandler)
      ensures this.handler == handler
    {
      this.handler := handler;
    }

    /** `getLocation`: the handler's stored pose. */
    function GetLocation(): (l: Location)
      reads handler`x, handler`y, handler`z, handler`yaw, handler`pitch
      ensures l.x == handler.x && l.y == handler.y && l.z == handler.z
      ensures l.yaw == handler.yaw && l.pitch == handler.pitch
    {
      Location(handler.x, handler.y, handler.z, handler.yaw, handler.pitch)
    }

    /** `sendMessage`: a server message (sender id -1), sanitized by the
        packet's setter, to this client only. */
    method SendMessage(message: string)
      modifies handler`sent
      ensures handler.sent == old(handler.sent) +
        [ClassicClientHandler.Message(-1, ClassicMessagePacket.Sanitized(message))]
      ensures |ClassicMessagePacket.Sanitized(message)| <= ClassicMessagePacket.MaxLength
    {
      var line := ClassicMessagePacket.MessagePacket.SanitizeMessage(message);
      handler.sent := handler.sent + [ClassicClientHandler.Message(-1, line)];
    }

    /** `setBlock`: a position and type that pass the checks are written to
        the level and broadcast to every client; anything else does nothing. */
    method SetBlock(x: int, y: int, z: int, blockType: JByte, level: ClassicLevel.Level,
                    width: JShort, height: JShort, depth: JShort, table: ClassicClientHandler.ClientTable)
      requires level.Valid()
      modifies level.blocks, table.clients.Values`sent
      ensures IsValidBlockPosition(x, y, z, width, height, depth) && IsValidBlockType(blockType) ==>
        (forall i, j, k :: LevelFormat.InBox(i, j, k, level.width, level.height, level.depth) ==>
           level.blocks[i, j, k] == if i == x && j == y && k == z then blockType else old(level.blocks[i, j, k])) &&
        (LevelFormat.InBox(x, y, z, level.width, level.height, level.depth) ==>
           BlockAt(level, x, y, z, width, height, depth) == blockType) &&
        forall c :: c in table.clients.Values ==>
          c.sent == old(c.sent) + [ClassicClientHandler.SetBlockServer(x as JShort, y as JShort, z as JShort, blockType)]
      ensures !(IsValidBlockPosition(x, y, z, width, height, depth) && IsValidBlockType(blockType)) ==>
        unchanged(level.blocks) && forall c :: c in table.clients.Values ==> c.sent == old(c.sent)
    {
      if IsValidBlockPosition(x, y, z, width, height, depth) && IsValidBlockType(blockType) {
        BlockPositionInBox(x, y, z, width, height, depth);
        level.SetBlock(ToShort(x), ToShort(y), ToShort(z), blockType);
        handler.BroadcastBlockChange(ToShort(x), ToShort(y), ToShort(z), blockType, table);
      }
    }

    /** `getBlock`: the level's block at a position that passes the check, and
        air everywhere else. */
    method GetBlock(x: int, y: int, z: int, level: ClassicLevel.Level,
                    width: JShort, height: JShort, depth: JShort) returns (b: JByte)
      requires level.Valid()
      ensures b == BlockAt(level, x, y, z, width, height, depth)
      ensures !IsValidBlockPosition(x, y, z, width, height, depth) ==> b == ClassicLevel.Air
      ensures LevelFormat.InBox(x, y, z, width, height, depth) ==>
        LevelFormat.InBox(x, y, z, level.width, level.height, level.depth) ==> b == level.blocks[x, y, z]
    {
      if IsValidBlockPosition(x, y, z, width, height, depth) {
        BlockPositionInBox(x, y, z, width, height, depth);
        b := level.GetBlock(ToShort(x), ToShort(y), ToShort(z));
        return;
      }
      return 0;
    }

    /** `kick`: the handler's `disconnectPlayer` with the reason. */
    method Kick(reason: string, table: ClassicClientHandler.ClientTable)
      modifies handler`sent, handler`closed, table`clients, table.clients.Values`sent
      ensures handler.closed
      ensures handler.sent == old(handler.sent) +
        (if old(handler.closed) then [] else [ClassicClientHandler.DisconnectPlayer(reason)])
      ensures table.clients == ClassicClientHandler.AfterDisconnect(old(table.clients), handler.playerId)
    {
      handler.Disconnect(reason, table);
    }
  }
}
