# Minecraft Classic server core in Dafny

This project models the protocol and game-state core of a Java server for the
Minecraft Classic protocol (version 7) and its ClassiCube extensions (CPE).
The repository holds three generations of the same server, and each is
modelled separately:

- `src/net/classicube` is the current server. It has a dual HTTP/WebSocket and
  native listener, the level manager, the player id pool, the event and
  command registries, the CPE packets and the plugin-facing `Player` and
  `Location`. Its modules are prefixed `Net`.
- `src/classic` is the single-world server with its own packet set,
  `BlockType`, `ChatColors`, `PlayerList` and plugin `Player`. Its modules are
  prefixed `Classic`.
- `src/ClientHandler.java` is the oldest handler, in the default package. Its
  module is `RootClientHandler`.

There is one module per Java source file. A few shared modules model the JDK
behaviour the server relies on:

- `Wrappers` holds `Option` and `Result`.
- `JavaNum` covers `byte`/`short`/`int` casts and wrap-around, truncating
  division and the big-endian encodings of `DataOutputStream`/`DataInputStream`.
- `JavaText` covers the UTF-8 bytes of a string, `String.trim`, lower-casing
  and `equalsIgnoreCase`.
- `JavaSplit` covers `split`.
- `JavaEnum` covers enum lookup by id.
- `JavaAwt` covers `java.awt.Color`.
- `LevelFormat` covers the x-y-z flattening of a level and its file layout.

How the Java maps onto Dafny:

- **Packets.** `write` is a function `Write` from the packet's fields to the
  bytes on the wire; only `MakeSelectionPacket`'s is a method, because it
  advances the selection counter. `read`, where the packet has one, is a
  method `Read` with `modifies this`: it assigns the fields from the input
  bytes and returns a `Result` holding the number of bytes consumed, or an
  error when the input is too short. Each packet file proves the byte layout, the number of bytes consumed and the
  read-after-write round trip. The CPE packets' `write` begins with
  `CPEPacket.write`, which writes nothing, so they go out without an opcode
  byte; their `Write` functions reproduce this, and the byte counts they state
  include no opcode. Strings travel in zero-padded 64-byte fields.
  An ASCII string of at most 64 characters with no leading or trailing
  character at or below U+0020 comes back unchanged. Packets whose setters or `read` change fields in place are
  classes with those fields. `LevelDataChunkPacket` keeps its 1024-byte array.
- **Handlers and levels.** They are classes with the Java fields.
  - A socket's output is a `sent` sequence of packets, and sending appends to it.
  - The static `clients` tables are registry objects whose maps the methods
    update.
  - Levels are `array3` grids. `getBlockData`/`setBlockData` and the fill
    helpers are loops proved against the pure flattening in `LevelFormat`.
  - Every handler operation states the new state of the handler, of the
    table and of every other client's output.
- **Web side.** `parseHeaders` and the request-path and upgrade checks are
  functions. The WebSocket streams are classes over their buffers, proved
  against a frame encoder and decoder of section 5.2 of RFC 6455. Unmasking
  (section 5.3) is its own inverse.
- **Registries and lists.** The event and command registries, the player id
  pool and `PlayerList` are classes whose methods are specified by functions
  of the old state, with the ordering and membership properties proved as
  lemmas.


## Model

| member | source | states |
|---|---|---|
| ClassicPacket.WriteString | src/classic/packets/Packet.java:27-32 | a string field is always exactly 64 bytes |
| ClassicPacket.ReadString | src/classic/packets/Packet.java:21-25 | a 64-byte field reads back as a string with no leading or trailing character that `trim` strips |
| ClassicPacket.SameFieldAsNet | src/classic/packets/Packet.java:21-32 | the classic string field is written and read byte for byte like the ClassiCube one |
| ClassicPacket.StringRoundTrip | src/classic/packets/Packet.java:21-32 | reading back a written field gives the string for every ASCII string of at most 64 characters with no padding `trim` would remove |
| ClassicPacket.TypeByte | src/classic/packets/Packet.java:10-16 | the opcode byte a packet writes first is its type's id |
| ClassicClientPositionPacket.ClientPositionPacket.constructor | src/classic/packets/ClientPositionPacket.java:15-17 | a new packet has every field 0 |
| ClassicClientPositionPacket.ClientPositionPacket.Write | src/classic/packets/ClientPositionPacket.java:19-28 | the packet is ten bytes and starts with the POSITION_ORIENTATION opcode 0x08 |
| ClassicClientPositionPacket.ClientPositionPacket.Read | src/classic/packets/ClientPositionPacket.java:30-38 | `read` succeeds exactly when nine bytes are there; each field holds its bytes once they have all arrived and keeps its old value otherwise; on success `write` gives the nine bytes back after the opcode |
| ClassicClientPositionPacket.RoundTrip | src/classic/packets/ClientPositionPacket.java:19-38 | decoding the bytes `write` puts after the opcode gives back the id, x, y, z, yaw and pitch |
| ClassicDespawnPlayerPacket.DespawnPlayerPacket.constructor | src/classic/packets/DespawnPlayerPacket.java:10-12 | a new packet has player id 0 |
| ClassicDespawnPlayerPacket.DespawnPlayerPacket.Write | src/classic/packets/DespawnPlayerPacket.java:14-18 | the packet is two bytes and starts with the DESPAWN_PLAYER opcode 0x0c |
| ClassicDespawnPlayerPacket.DespawnPlayerPacket.Read | src/classic/packets/DespawnPlayerPacket.java:20-23 | `read` succeeds exactly when one byte is there, and then the id is that byte and `write` gives it back |
| ClassicDespawnPlayerPacket.RoundTrip | src/classic/packets/DespawnPlayerPacket.java:14-23 | decoding the byte `write` puts after the opcode gives back the player id |
| ClassicDisconnectPlayerPacket.DisconnectPlayerPacket.constructor | src/classic/packets/DisconnectPlayerPacket.java:8-10 | a new packet has the empty reason (null is modelled as "") |
| ClassicDisconnectPlayerPacket.DisconnectPlayerPacket.Write | src/classic/packets/DisconnectPlayerPacket.java:12-16 | the packet is 65 bytes and starts with the DISCONNECT_PLAYER opcode 0x0e |
| ClassicDisconnectPlayerPacket.DisconnectPlayerPacket.Read | src/classic/packets/DisconnectPlayerPacket.java:18-21 | `read` succeeds exactly when 64 bytes are there, and then the reason is the string field they hold; otherwise the reason is unchanged |
| ClassicDisconnectPlayerPacket.RoundTrip | src/classic/packets/DisconnectPlayerPacket.java:12-21 | a reason that fits the 64-byte field is read back unchanged from what `write` puts after the opcode |
| ClassicLevelFinalizePacket.LevelFinalizePacket.constructor | src/classic/packets/LevelFinalizePacket.java:10-12 | a new packet has all three sizes 0 |
| ClassicLevelFinalizePacket.LevelFinalizePacket.Write | src/classic/packets/LevelFinalizePacket.java:14-20 | the packet is seven bytes and starts with the LEVEL_FINALIZE opcode 0x04 |
| ClassicLevelFinalizePacket.LevelFinalizePacket.Read | src/classic/packets/LevelFinalizePacket.java:22-27 | `read` succeeds exactly when six bytes are there; each size holds its two bytes once they have arrived and keeps its old value otherwise; on success `write` gives the six bytes back |
| ClassicLevelFinalizePacket.RoundTrip | src/classic/packets/LevelFinalizePacket.java:14-27 | decoding the bytes `write` puts after the opcode gives back the three sizes |
| ClassicMessagePacket.MessagePacket.constructor | src/classic/packets/MessagePacket.java:9-11 | a new packet has id 0 and the empty message (null is modelled as "") |
| ClassicMessagePacket.MessagePacket.Write | src/classic/packets/MessagePacket.java:13-18 | the packet is 66 bytes and starts with the MESSAGE opcode 0x0d |
| ClassicMessagePacket.MessagePacket.Read | src/classic/packets/MessagePacket.java:20-24 | `read` succeeds exactly when 65 bytes are there; the id holds the first byte once it has arrived, the message the string field once all 64 bytes have, and each keeps its old value otherwise |
| ClassicMessagePacket.MessagePacket.SetMessage | src/classic/packets/MessagePacket.java:38-40 | the stored message is always the sanitized argument, and the id is untouched |
| ClassicMessagePacket.MessagePacket.SanitizeMessage | src/classic/packets/MessagePacket.java:42-55 | the result is at most 64 characters, all printable ASCII, each the input's character at that position or a space in its place; it ends without '&' whenever the stripped input fits in 64 characters |
| ClassicMessagePacket.RoundTrip | src/classic/packets/MessagePacket.java:13-24 | decoding the bytes `write` puts after the opcode gives back the id, and the message when it fits the 64-byte field |
| ClassicMessagePacket.StripAmpersands | src/classic/packets/MessagePacket.java:43-46 | the loop leaves the longest prefix not ending in '&'; everything it removed is '&' |
| ClassicMessagePacket.Printable | src/classic/packets/MessagePacket.java:53-54 | a character outside 0x20-0x7E becomes a space; a printable one is kept |
| ClassicMessagePacket.ReplaceInvalid | src/classic/packets/MessagePacket.java:53-54 | `replaceAll` keeps the length and treats every character on its own |
| ClassicMessagePacket.Truncate | src/classic/packets/MessagePacket.java:48-51 | the cut keeps a prefix of at most 64 characters and leaves a text of 64 or fewer alone |
| ClassicMessagePacket.TruncationExposesAmpersand | src/classic/packets/MessagePacket.java:42-55 | 63 letters, "&" and one more letter sanitize to 64 characters ending in '&', although the strip ran first |
| ClassicMessagePacket.SanitizedCorrected | src/classic/packets/MessagePacket.java:42-55 | cutting first and stripping second never leaves a trailing '&', keeps the printable-character mapping, and agrees with the source whenever the stripped input fits |
| ClassicPacketType.Id | src/classic/packets/PacketType.java:30-38 | `getId` is -1 for UNKNOWN and for no other constant |
| ClassicPacketType.Ordinal | src/classic/packets/PacketType.java:3-28 | there are twenty constants, numbered in declaration order |
| ClassicPacketType.FromId | src/classic/packets/PacketType.java:40-47 | a constant other than UNKNOWN that `fromId` returns has the requested id |
| ClassicPacketType.FromIdIsFirst | src/classic/packets/PacketType.java:40-47 | `fromId` returns the first constant in declaration order with that id, and UNKNOWN only when no other constant has it |
| ClassicPacketType.FromIdOfId | src/classic/packets/PacketType.java:5-47 | a constant comes back from its own id exactly when it is not SERVER_IDENTIFICATION, SET_POSITION_ORIENTATION or MESSAGE_SERVER, which share ids with earlier client-to-server constants |
| ClassicPacketType.FromIdExamples | src/classic/packets/PacketType.java:5-47 | 0x00, 0x08 and 0x0d resolve to the client-to-server constants, and every id from 0x10 up is UNKNOWN |
| ClassicSetBlockClientPacket.SetBlockClientPacket.constructor | src/classic/packets/SetBlockClientPacket.java:14-16 | a new packet has every field 0 |
| ClassicSetBlockClientPacket.SetBlockClientPacket.Write | src/classic/packets/SetBlockClientPacket.java:18-26 | the packet is nine bytes and starts with the SET_BLOCK opcode 0x05 |
| ClassicSetBlockClientPacket.SetBlockClientPacket.Read | src/classic/packets/SetBlockClientPacket.java:28-37 | `read` succeeds exactly when eight bytes are there; each field holds its bytes once they have arrived and keeps its old value otherwise; on success `write` gives the eight bytes back |
| ClassicSetBlockClientPacket.SetBlockClientPacket.ReadFields | src/classic/packets/SetBlockClientPacket.java:29-34 | each assignment of `read` takes its field from its offset once its bytes are there, and leaves it alone otherwise |
| ClassicSetBlockClientPacket.SetBlockClientPacket.SetMode | src/classic/packets/SetBlockClientPacket.java:76-78 | `setMode` keeps the low 8 bits of the int, as a signed byte, and changes no other field |
| ClassicSetBlockClientPacket.RoundTrip | src/classic/packets/SetBlockClientPacket.java:18-37 | decoding the bytes `write` puts after the opcode gives back x, y, z, the mode and the block type |
| ClassicSetBlockClientPacket.PayloadOfFields | src/classic/packets/SetBlockClientPacket.java:18-37 | re-encoding the fields read from eight bytes gives those eight bytes |
| ClassicSetBlockPacket.SetBlockPacket.constructor | src/classic/packets/SetBlockPacket.java:14-16 | a new packet has every field 0 |
| ClassicSetBlockPacket.SetBlockPacket.Write | src/classic/packets/SetBlockPacket.java:18-28 | the packet is nine bytes and starts with the SET_BLOCK opcode 0x05 |
| ClassicSetBlockPacket.SetBlockPacket.Read | src/classic/packets/SetBlockPacket.java:30-39 | `read` succeeds exactly when eight bytes are there; each field holds its bytes once they have arrived and keeps its old value otherwise; on success `write` gives the eight bytes back |
| ClassicSetBlockPacket.SetBlockPacket.ReadFields | src/classic/packets/SetBlockPacket.java:31-36 | each assignment of `read` takes its field from its offset once its bytes are there, and leaves it alone otherwise |
| ClassicSetBlockPacket.RoundTrip | src/classic/packets/SetBlockPacket.java:18-39 | decoding the bytes `write` puts after the opcode gives back x, y, z, the mode and the block type |
| ClassicSetBlockPacket.PayloadOfFields | src/classic/packets/SetBlockPacket.java:18-39 | re-encoding the fields read from eight bytes gives those eight bytes |
| ClassicSetBlockServerPacket.SetBlockServerPacket.constructor | src/classic/packets/SetBlockServerPacket.java:13-15 | a new packet has every field 0 |
| ClassicSetBlockServerPacket.SetBlockServerPacket.Write | src/classic/packets/SetBlockServerPacket.java:17-26 | the packet is eight bytes and starts with the SET_BLOCK_SERVER opcode 0x06 |
| ClassicSetBlockServerPacket.SetBlockServerPacket.Read | src/classic/packets/SetBlockServerPacket.java:28-34 | `read` succeeds exactly when seven bytes are there; each field holds its bytes once they have arrived and keeps its old value otherwise; on success `write` gives the seven bytes back |
| ClassicSetBlockServerPacket.RoundTrip | src/classic/packets/SetBlockServerPacket.java:17-34 | decoding the bytes `write` puts after the opcode gives back x, y, z and the block type |
| ClassicBlockType.Values | src/classic/api/BlockType.java:3-54 | there are fifty block types |
| ClassicBlockType.Id | src/classic/api/BlockType.java:55-63 | narrowing the constructor argument to a byte loses nothing: each type's id is its declaration index |
| ClassicBlockType.GetByIdDefined | src/classic/api/BlockType.java:65-72 | `getById` finds a type exactly for the ids 0 to 49, and the type it finds has that id; any other byte gives null |
| ClassicBlockType.GetByIdOfId | src/classic/api/BlockType.java:61-72 | every type is found again from its own id |
| ClassicBlockType.Classes | src/classic/api/BlockType.java:74-85 | liquids are exactly the ids 8 to 11, solids every other id except air, cloth exactly 21 to 36 |
| ClassicChatColors.Code | src/classic/api/ChatColors.java:4-34 | a colour's code is two characters: '&' and the colour's digit |
| ClassicChatColors.FirstPrefix | src/classic/api/ChatColors.java:39-55 | the lookup loop returns a colour whose code starts the text, and nothing exactly when no colour's code does |
| ClassicChatColors.GetColor | src/classic/api/ChatColors.java:47-56 | a colour `getColor` returns is one whose code starts the text |
| ClassicChatColors.CodesExact | src/classic/api/ChatColors.java:4-19 | every colour is among `values()`, its digit is a lower-case hex digit, and no two colours share a digit |
| ClassicChatColors.ColorOf | src/classic/api/ChatColors.java:4-19 | every lower-case hex digit is some colour's digit |
| ClassicChatColors.StartsWithColorExact | src/classic/api/ChatColors.java:36-45 | `startsWithColor` holds exactly for texts of two or more characters beginning with '&' and a lower-case hex digit, so "&A" is not a code |
| ClassicChatColors.GetColorAgrees | src/classic/api/ChatColors.java:36-56 | `getColor` returns a colour exactly when `startsWithColor` holds, and it is the colour of the text's second character |
| ClassicPlayerList.LeqTotal | src/classic/PlayerList.java:74-75 | the string order `Collections.sort` uses is total |
| ClassicPlayerList.Insert | src/classic/PlayerList.java:74-75 | inserting into a sorted list keeps it sorted and adds exactly that name |
| ClassicPlayerList.Loaded | src/classic/PlayerList.java:57-64 | every name loaded from a file is lower case |
| ClassicPlayerList.LoadedHas | src/classic/PlayerList.java:59-63 | every line that is neither blank nor a '#' comment contributes its trimmed, lower-cased text |
| ClassicPlayerList.LoadedFrom | src/classic/PlayerList.java:59-63 | every loaded name comes from such a line |
| ClassicPlayerList.KeyOfReloadable | src/classic/PlayerList.java:60-61 | a trimmed, lower-case name not starting with '#' passes the line filter unchanged |
| ClassicPlayerList.ReloadAfterSave | src/classic/PlayerList.java:53-80 | loading a saved file gives back the saved set, provided every name survives the line filter (non-empty, trimmed, lower-case, not starting with "#") and holds no line terminator |
| ClassicPlayerList.PlayerList.constructor | src/classic/PlayerList.java:14-19 | a new list holds what the file holds, or nothing when there is no file |
| ClassicPlayerList.PlayerList.Add | src/classic/PlayerList.java:21-28 | true exactly when the lower-cased name was new; the set gains it either way, and only a true result rewrites the file, as the sorted listing of the new set |
| ClassicPlayerList.PlayerList.Remove | src/classic/PlayerList.java:30-37 | true exactly when the lower-cased name was there; the set loses it, and only a true result rewrites the file |
| ClassicPlayerList.PlayerList.Contains | src/classic/PlayerList.java:39-41 | a name matches in any casing of a stored name |
| ClassicPlayerList.PlayerList.Clear | src/classic/PlayerList.java:47-51 | the set is empty and the file is rewritten empty |
| ClassicPlayerList.PlayerList.Size | src/classic/PlayerList.java:86-92 | the size is 0 exactly when the list is empty |
| ClassicPlayerList.PlayerList.LoadFromFile | src/classic/PlayerList.java:53-70 | a missing file changes nothing; otherwise the set becomes the kept lines, trimmed and lower-cased, and the file is not touched |
| ClassicPlayerList.PlayerList.SaveToFile | src/classic/PlayerList.java:72-80 | the file becomes every name exactly once, sorted; the set is unchanged |
| LevelFormat.Decompose | src/classic/level/Level.java:52-63 | every flat index below width * height * depth belongs to exactly the cell the export loop visits at that step |
| LevelFormat.Compose | src/classic/level/Level.java:52-63 | the flat index of a cell gives that cell back |
| LevelFormat.Flatten | src/classic/level/Level.java:52-63 | the export has width * height * depth blocks |
| LevelFormat.FlattenAt | src/classic/level/Level.java:55-59 | cell (x, y, z) lands at index (y * depth + z) * width + x of the export |
| LevelFormat.Unflatten | src/classic/level/Level.java:65-74 | the import of an array of the right length is a grid of the level's shape |
| LevelFormat.UnflattenFlatten | src/classic/level/Level.java:52-74 | importing an exported grid gives the grid back |
| LevelFormat.FlattenUnflatten | src/classic/level/Level.java:52-74 | exporting an imported array gives the array back |
| LevelFormat.UnflattenOf | src/classic/level/Level.java:65-74 | a grid holding, for every cell, the block at that cell's flat index is the import of the array's first width * height * depth blocks |
| LevelFormat.FileBytes | src/classic/level/Level.java:76-91 | a saved level is six header bytes followed by one byte per block |
| LevelFormat.ParseFile | src/classic/level/Level.java:93-114 | an accepted file carries exactly width * height * depth blocks |
| LevelFormat.FileRoundTrip | src/classic/level/Level.java:76-114 | loading what was saved gives back the dimensions and the exported blocks, for dimensions below 65536 and fewer than 2^31 cells |
| LevelFormat.TruncatedFileFails | src/classic/level/Level.java:108-109 | a file shorter than its header promises is refused, as `readFully` does |
| LevelFormat.SaveLoadRoundTrip | src/classic/level/Level.java:52-114 | saving a grid and loading the file gives back the dimensions and every cell |
| ClassicLevel.Level.Cells | src/classic/level/Level.java:10-19 | the grid has the level's width, height and depth |
| ClassicLevel.Level.constructor | src/classic/level/Level.java:15-20 | a new level has the given dimensions and is all air (block 0) |
| ClassicLevel.Level.SetBlock | src/classic/level/Level.java:22-31 | a cell inside the level takes the block; a position outside it changes nothing, and no other cell changes |
| ClassicLevel.Level.GetBlock | src/classic/level/Level.java:33-38 | inside the level the answer is the stored block; outside it is 0 |
| ClassicLevel.Level.GetWidth | src/classic/level/Level.java:40-42 | the `short` cast keeps the width modulo 2^16, and a width below 32768 unchanged |
| ClassicLevel.Level.GetHeight | src/classic/level/Level.java:44-46 | the `short` cast keeps the height modulo 2^16, and a height below 32768 unchanged |
| ClassicLevel.Level.GetDepth | src/classic/level/Level.java:48-50 | the `short` cast keeps the depth modulo 2^16, and a depth below 32768 unchanged |
| ClassicLevel.Level.GetBlockData | src/classic/level/Level.java:52-63 | the three nested loops produce the export of the grid: y outermost, then z, then x |
| ClassicLevel.Level.SetBlockData | src/classic/level/Level.java:65-74 | the three nested loops make the grid the import of the array's first width * height * depth blocks |
| ClassicLevel.Level.SaveToFile | src/classic/level/Level.java:76-91 | the file (before gzip) is the three dimensions as 16-bit values, then the export |
| ClassicLevel.Level.LoadFromFile | src/classic/level/Level.java:93-114 | a file is accepted exactly when it parses; the new level has the stored dimensions and holds the import of the stored blocks, and a refused file gives the parse failure |
| ClassicLevelGenerator.GetBlockType | src/classic/level/LevelGenerator.java:39-48 | bedrock exactly at y = 0, grass exactly at y = 1, air everywhere else |
| ClassicLevelGenerator.LevelGenerator.constructor | src/classic/level/LevelGenerator.java:11-17 | the default dimensions are 256 x 64 x 256 |
| ClassicLevelGenerator.LevelGenerator.Sized | src/classic/level/LevelGenerator.java:19-23 | the generator takes the given dimensions |
| ClassicLevelGenerator.LevelGenerator.GenerateFlatWorld | src/classic/level/LevelGenerator.java:25-37 | a new level of the generator's dimensions in which every cell holds the id of `getBlockType` for that cell |
| ClassicLevelGenerator.LevelGenerator.CompressLevelData | src/classic/level/LevelGenerator.java:49-65 | the result is gzip of the export's length as a 4-byte big-endian int followed by the export |
| ClassicLevelGenerator.LevelGenerator.SetWidth | src/classic/level/LevelGenerator.java:79-81 | only the width changes |
| ClassicLevelGenerator.LevelGenerator.SetHeight | src/classic/level/LevelGenerator.java:83-85 | only the height changes |
| ClassicLevelGenerator.LevelGenerator.SetDepth | src/classic/level/LevelGenerator.java:87-89 | only the depth changes |
| ClassicLevelGenerator.LengthPrefixed | src/classic/level/LevelGenerator.java:52-58 | the buffer is four bytes longer than the data |
| ClassicLevelGenerator.LengthPrefixedRoundTrip | src/classic/level/LevelGenerator.java:52-58 | a receiver reads the length back from the first four bytes and the blocks from the rest |
| ClassicApiPlayer.BlockTypeKnown | src/classic/api/Player.java:65-67 | the type check accepts exactly the ids `BlockType.getById` knows |
| ClassicApiPlayer.BlockPositionInBox | src/classic/api/Player.java:43-63 | a position passes exactly when it is a cell of the generator's box, and then the `short` casts leave the coordinates unchanged |
| ClassicApiPlayer.SameAsPlaceRequest | src/classic/api/Player.java:41-67 | against the same dimensions the plugin checks accept a block exactly when a client's place request for it would be accepted |
| ClassicApiPlayer.Player.constructor | src/classic/api/Player.java:14-16 | the player wraps the given handler |
| ClassicApiPlayer.Player.GetLocation | src/classic/api/Player.java:26-28 | the location is the handler's stored position and orientation |
| ClassicApiPlayer.Player.SendMessage | src/classic/api/Player.java:30-39 | this client alone receives one server message (id -1) carrying the sanitized text, at most 64 characters |
| ClassicApiPlayer.Player.SetBlock | src/classic/api/Player.java:41-46 | when position and type pass, that cell alone takes the block and every client receives the change; otherwise neither the level nor any client changes |
| ClassicApiPlayer.Player.GetBlock | src/classic/api/Player.java:48-53 | a position that fails the check gives 0; inside both the generator's box and the level it gives the stored block |
| ClassicApiPlayer.Player.Kick | src/classic/api/Player.java:55-57 | the handler is closed, an open one receives the disconnect packet with the reason, and its id leaves the client table |
| ClassicClientHandler.FollowingId | src/classic/ClientHandler.java:314-318 | from any counter in 0..127 the next counter is one more, wrapping 127 round to 0 |
| ClassicClientHandler.IdsFrom | src/classic/ClientHandler.java:314-318 | k successive calls hand out k ids |
| ClassicClientHandler.IdsCycle | src/classic/ClientHandler.java:314-318 | the i-th id handed out from a counter n in 0..127 is (n + i) modulo 128, so ids repeat every 128 players |
| ClassicClientHandler.IdReused | src/classic/ClientHandler.java:314-318 | the 129th player gets id 0 again, the same as the first |
| ClassicClientHandler.AfterJoin | src/classic/ClientHandler.java:56 | the table maps the new id to the joining handler, keeps every other entry, and loses no key |
| ClassicClientHandler.AfterDisconnect | src/classic/ClientHandler.java:366-367 | for any id but -1 the id is gone from the table whoever holds it; every other entry is kept and nothing is added |
| ClassicClientHandler.ReusedIdDropsNewcomer | src/classic/ClientHandler.java:366-367 | when a second player has been given the id of a first one and the first leaves, the table becomes empty: the newcomer is removed |
| ClassicClientHandler.AfterDisconnectCorrected | src/classic/ClientHandler.java:366-367 | a key is removed exactly when it is the leaving id and maps to the leaving handler; nothing else changes |
| ClassicClientHandler.CorrectedKeepsOthers | src/classic/ClientHandler.java:366-367 | the corrected removal keeps every handler other than the leaving one |
| ClassicClientHandler.CorrectedKeepsNewcomer | src/classic/ClientHandler.java:366-367 | with the corrected removal the newcomer holding a reused id stays in the table |
| ClassicClientHandler.PositionValidRange | src/classic/ClientHandler.java:320-328 | a position passes exactly when each raw coordinate lies strictly between -32 and 32 times the level's size on that axis (and the size is positive), because Java's division truncates toward zero |
| ClassicClientHandler.BlockChangeExact | src/classic/ClientHandler.java:330-349 | a block change passes exactly when its cell is inside the level, its mode is 0 or 1, and its type is a known block id |
| ClassicClientHandler.HandlerFor | src/classic/ClientHandler.java:218-230 | the game loop reaches the position handler exactly for a position packet, the block handler exactly for a set-block packet, the message handler exactly for a message packet, and ignores anything else; the default-package handler (src/ClientHandler.java:259-278) switches the same way over the same packet types |
| ClassicClientHandler.DispatchOfBytes | src/classic/ClientHandler.java:216-230 | bytes 0x08, 0x05 and 0x0d reach the position, block and message handlers, and byte 0x0c reaches none |
| ClassicClientHandler.SpawnValidExactly | src/classic/ClientHandler.java:159-161 | the spawn point is the middle column, 51 raw units above the half height, and it passes the position check exactly when the level is at least 3 high |
| ClassicClientHandler.ChunkLength | src/classic/ClientHandler.java:117-119 | every chunk carries between 1 and 1024 data bytes |
| ClassicClientHandler.Chunks | src/classic/ClientHandler.java:112-128 | there are as many chunk packets as 1024-byte stretches of the compressed data, rounding up |
| ClassicClientHandler.PayloadPrefix | src/classic/ClientHandler.java:112-128 | the data parts of the first k chunks are the first k * 1024 bytes of the compressed data (or all of it) |
| ClassicClientHandler.UsedChunk | src/classic/ClientHandler.java:115-121 | the data part of chunk k is the stretch of the compressed data from k * 1024 up to (k + 1) * 1024 or its end |
| ClassicClientHandler.ChunksReassemble | src/classic/ClientHandler.java:112-128 | a receiver that joins the data parts of the chunks in order gets back exactly the compressed data |
| ClassicClientHandler.ChunkFields | src/classic/ClientHandler.java:117-125 | every chunk is a full 1024-byte buffer whose length counts its data, its percentage never goes down, and the last one reports 100 |
| ClassicClientHandler.SendAll | src/classic/ClientHandler.java:187-194 | a broadcast appends the packet to every recipient's stream and to no other |
| ClassicClientHandler.SpawnsAppend | src/classic/ClientHandler.java:187-194 | the spawns of one more client are the spawns so far followed by that client's spawn |
| ClassicClientHandler.ClientTable.constructor | src/classic/ClientHandler.java:17-18 | the server starts with an empty client table and the id counter at 0 |
| ClassicClientHandler.ClientTable.NextPlayerId | src/classic/ClientHandler.java:314-318 | returns the counter and advances it by the wrapping step; from a valid counter the id is in 0..127 and the counter stays valid |
| ClassicClientHandler.ClientHandler.constructor | src/classic/ClientHandler.java:32-37 | a new handler takes the next id from the counter, and starts with no name, nothing sent, an open socket and a zero pose |
| ClassicClientHandler.ClientHandler.HandlePlayerIdentification | src/classic/ClientHandler.java:72-100 | identification succeeds exactly when the first byte is 0x00 and the protocol version matches; success stores the name and sends the server identification only; failure closes the socket, sends the disconnect if it was open, removes the id from the table and tells the clients still in it that the player left |
| ClassicClientHandler.ClientHandler.Join | src/classic/ClientHandler.java:53-56 | after joining, the player stands at the spawn point, has received the level, its own spawn and position and the spawns of all the others, every other client has received its spawn once, and the table maps its id to it |
| ClassicClientHandler.ClientHandler.Enter | src/classic/ClientHandler.java:53-54 | the level transfer followed by the spawn and position packets go to this client alone, and its pose becomes the spawn point |
| ClassicClientHandler.ClientHandler.Announce | src/classic/ClientHandler.java:55-56 | every other client gets this player's spawn, this client gets the spawns of exactly the others, and the table then maps its id to it |
| ClassicClientHandler.ClientHandler.SendLevelData | src/classic/ClientHandler.java:102-106 | the client receives LevelInitialize, the chunks of the gzip-compressed level data (its length first), and LevelFinalize with the level's size, in that order |
| ClassicClientHandler.ClientHandler.SendCompressedLevelData | src/classic/ClientHandler.java:112-128 | the loop sends exactly the chunk packets of the compressed data, in order |
| ClassicClientHandler.ClientHandler.Spawn | src/classic/ClientHandler.java:158-185 | the pose becomes the middle of the level 51 units up with yaw and pitch 0, and the client receives its own spawn (id -1) and then its position |
| ClassicClientHandler.ClientHandler.BroadcastSpawn | src/classic/ClientHandler.java:187-194 | every other client receives this player's spawn once, and this client receives the spawn of each other client once, in some order |
| ClassicClientHandler.ClientHandler.ExchangeAll | src/classic/ClientHandler.java:187-194 | the loop visits exactly the given clients: each receives this player's spawn, and this client's stream grows by their spawns in visiting order |
| ClassicClientHandler.ClientHandler.ExchangeSpawns | src/classic/ClientHandler.java:189-192 | one round: the other client receives this player's spawn and this client receives the other's |
| ClassicClientHandler.ClientHandler.HandleClientPosition | src/classic/ClientHandler.java:244-298 | a valid position becomes the stored pose and goes to every other client, with nothing sent back; an invalid one leaves the pose, sends the stored pose back as a correction, and reaches no other client |
| ClassicClientHandler.ClientHandler.HandleSetBlock | src/classic/ClientHandler.java:393-456 | an accepted change writes air (mode 0) or the type (mode 1) into that cell only and goes to every client in the table; a refused one changes no block, sends this client the cell's current block, and reaches no other client |
| ClassicClientHandler.ClientHandler.BroadcastBlockChange | src/classic/ClientHandler.java:424-440 | every client in the table receives the block packet once |
| ClassicClientHandler.ClientHandler.HandleMessage | src/classic/ClientHandler.java:300-311 | every client in the table receives "name: message" from this player's id, sanitized as the message packet does |
| ClassicClientHandler.ClientHandler.Disconnect | src/classic/ClientHandler.java:352-391 | the socket ends closed, the disconnect goes out only if it was open, the id is removed from the table, and every other client still in the table is told that the player left (unless the id is -1) |
| RootClientHandler.ToByteCongruent | src/ClientHandler.java:29 | two numbers that agree modulo 256 narrow to the same byte |
| RootClientHandler.IdsFrom | src/ClientHandler.java:25-29 | k successive handlers take k ids |
| RootClientHandler.IdsWrap | src/ClientHandler.java:25-29 | the i-th id handed out from a counter n is n + i wrapped to a signed byte: ids run up to 127, go on at -128 and come round only after 256 handlers |
| RootClientHandler.IdsGoNegative | src/ClientHandler.java:25-29 | from a fresh counter the 129th handler gets -128, the 256th gets -1 (the id the protocol uses for "yourself") and the 257th gets 0 again |
| RootClientHandler.StricterThanClassic | src/ClientHandler.java:435-441 | a position passes exactly when each raw coordinate lies in [0, 32 times the generator's size): the single-world check restricted to non-negative coordinates |
| RootClientHandler.SpawnValidExactly | src/ClientHandler.java:210-226 | for every level whose spawn point fits a short, the spawn point (half the size times 32, 51 units up) passes the position check exactly when the level is at least 4 blocks high |
| RootClientHandler.DestroyStoresHeldBlock | src/ClientHandler.java:132-134 | a destroy (mode 0) of stone at (0, 0, 0) passes the check and stores stone, not air |
| RootClientHandler.StoredBlockCorrected | src/ClientHandler.java:132-134 | the intended stored block: air for a destroy, the requested type for a place |
| RootClientHandler.SendAll | src/ClientHandler.java:399-402 | a broadcast appends the packet to every recipient's stream and to no other |
| RootClientHandler.SpawnsAppend | src/ClientHandler.java:237-252 | the spawns of one more client are the spawns so far followed by that client's spawn |
| RootClientHandler.ClientTable.constructor | src/ClientHandler.java:24-25 | the server starts with an empty client table and the id counter at 0 |
| RootClientHandler.ClientHandler.constructor | src/ClientHandler.java:20-30 | a new handler takes the counter as its id and bumps the counter with byte wrap-around; it starts at (5, 30, 5) facing 0, with no name, nothing sent and an open socket |
| RootClientHandler.ClientHandler.Identify | src/ClientHandler.java:38-46 | the session goes on exactly when the first byte is 0x00; any other first byte closes the socket with "Invalid initial packet"; after 0x00 a matching version stores the name and sends the identification, and a mismatch closes the socket with "Incompatible protocol version" |
| RootClientHandler.ClientHandler.HandlePlayerIdentification | src/ClientHandler.java:291-315 | a version of 7 stores the name, sends the server identification and leaves the table alone; any other version sends the disconnect (if the socket was open), closes it and removes the player's id from the table |
| RootClientHandler.ClientHandler.Join | src/ClientHandler.java:48-54 | the table maps the player's id to it first (displacing any earlier holder), the player receives the level, its position and the spawns of exactly the other clients, and each of them receives the player's spawn once |
| RootClientHandler.ClientHandler.SendLevelData | src/ClientHandler.java:62-111 | the client receives LevelInitialize, the chunks of the gzip-compressed, length-prefixed level data, and LevelFinalize carrying the generator's dimensions, in that order |
| RootClientHandler.ClientHandler.SendChunks | src/ClientHandler.java:83-98 | the loop sends exactly the chunk packets of the compressed data, in order: 1024-byte buffers with the data length and the percentage (k + 1) * 100 / total |
| RootClientHandler.ClientHandler.Spawn | src/ClientHandler.java:210-226 | the pose becomes half the generator's size times 32 on x and z and that plus 51 on y, facing 0, and the client receives it in a position packet carrying its own id rather than -1 |
| RootClientHandler.ClientHandler.BroadcastSpawn | src/ClientHandler.java:228-253 | every other client receives this player's spawn once, and this client receives the spawn of each other client once, in some order |
| RootClientHandler.ClientHandler.ExchangeAll | src/ClientHandler.java:237-252 | the loop visits exactly the given clients: each receives this player's spawn, and this client's stream grows by their spawns in visiting order |
| RootClientHandler.ClientHandler.ExchangeSpawns | src/ClientHandler.java:238-251 | one round: the other client receives this player's spawn and this client receives the other's |
| RootClientHandler.ClientHandler.HandleClientPosition | src/ClientHandler.java:317-390 | a valid position becomes the stored pose and goes to every other client, with nothing sent back; an invalid one leaves the pose, sends the stored pose back, and reaches no other client |
| RootClientHandler.ClientHandler.HandleSetBlock | src/ClientHandler.java:123-187 | a change whose cell is inside the generator's dimensions, whose mode is 0 or 1 and whose type is 0 to 49 writes the requested type into that cell only and is forwarded as received to every other client; any other change leaves the level alone and sends this client a mode-1 packet with the cell's current block |
| RootClientHandler.ClientHandler.HandleMessage | src/ClientHandler.java:391-403 | every client in the table, this one included, receives "name:message" from this player's id, sanitized and at most 64 characters long |
| RootClientHandler.ClientHandler.Disconnect | src/ClientHandler.java:405-433 | the socket ends closed, the disconnect goes out only if it was open, the entry under the id leaves the table whoever holds it, and every client still in the table receives the despawn |
| NetClientHandler.AdmissionExact | src/net/classicube/ClientHandler.java:245-296 | a client is admitted exactly when the first byte is 0x00, the protocol versions agree, no online name equals the new one ignoring case, the name is verified (or, over WebSocket, a valid web guest) unless verification is off, and the name is not banned |
| NetClientHandler.WebGuestExample | src/net/classicube/ClientHandler.java:298-303 | with web guests enabled, "[Guest]42" is a web guest, while "[Guest]" and "[Guest]4x" are not; with them disabled no name is |
| NetClientHandler.ChunkStart | src/net/classicube/ClientHandler.java:349-351 | every chunk index below the count starts inside the data |
| NetClientHandler.ChunkBytes | src/net/classicube/ClientHandler.java:354-360 | every chunk buffer is exactly 1024 bytes |
| NetClientHandler.Chunks | src/net/classicube/ClientHandler.java:344-373 | the transfer has one chunk packet per 1024-byte stretch of the data, rounding up |
| NetClientHandler.ChunkIs | src/net/classicube/ClientHandler.java:351-363 | chunk k carries length 1024, the k-th zero-padded stretch of the data, and the percentage (k + 1) * 100 / total |
| NetClientHandler.ChunkPercents | src/net/classicube/ClientHandler.java:361 | every percentage lies in 0..100, the percentages never fall from one chunk to the next, and the last one is 100 |
| NetClientHandler.PercentRises | src/net/classicube/ClientHandler.java:361 | consecutive percentages never fall, for any number of chunks |
| NetClientHandler.PercentLast | src/net/classicube/ClientHandler.java:361 | the last chunk always reports 100 |
| NetClientHandler.PercentRange | src/net/classicube/ClientHandler.java:361 | a percentage is the quotient itself, between 0 and 100, so the narrowing to a byte loses nothing |
| NetClientHandler.ChunksCarryData | src/net/classicube/ClientHandler.java:351-363 | no byte is lost or moved: byte j of the data is byte j mod 1024 of chunk j / 1024, and the slots past the end of the data are zero |
| NetClientHandler.CompressionInput | src/net/classicube/ClientHandler.java:375-387 | what gzip compresses is four length bytes followed by exactly the level data |
| NetClientHandler.SpawnIsValidPosition | src/net/classicube/ClientHandler.java:403-429 | the spawn point passes the position check of the same level whenever the level is at least 3 blocks high and its spawn arithmetic fits a short |
| NetClientHandler.NegativeFractionAccepted | src/net/classicube/ClientHandler.java:677-686 | the raw position (-1, -31, -16), which lies in block -1 outside a 1x1x1 level, passes the check |
| NetClientHandler.CorrectedPositionExact | src/net/classicube/ClientHandler.java:677-686 | with floor division a position passes exactly when each raw coordinate lies in [0, 32 times the level's size) |
| NetClientHandler.HandlerFor | src/net/classicube/ClientHandler.java:69-75 | exactly the position, set-block and message packet types have a handler |
| NetClientHandler.DispatchByOpcode | src/net/classicube/ClientHandler.java:218-239 | the opcodes 0x08, 0x05 and 0x0d reach the position, block and chat handlers, and every other opcode is skipped |
| NetClientHandler.PlacedBlock | src/net/classicube/ClientHandler.java:548-579 | an accepted destroy writes air and an accepted place writes the type the place event carries |
| NetClientHandler.SpawnsAppend | src/net/classicube/ClientHandler.java:431-441 | the spawns of one more player are the spawns so far followed by that player's spawn |
| NetClientHandler.ClientHandler.constructor | src/net/classicube/ClientHandler.java:40-62 | a new handler holds the id it was given, is CONNECTING, has not announced CPE, has no name, a zero pose and nothing sent |
| NetClientHandler.ClientHandler.Out | src/net/classicube/ClientHandler.java:163-178 | a packet is written exactly when the handler is not DISCONNECTED and the packet is not a CPE packet to a client without CPE; otherwise nothing is |
| NetClientHandler.ClientHandler.SendPacket | src/net/classicube/ClientHandler.java:163-178 | the stream grows by the packet exactly when both gates let it through |
| NetClientHandler.ClientHandler.HandlePlayerIdentification | src/net/classicube/ClientHandler.java:245-326 | the client is admitted exactly when the checks pass (AdmissionExact); admission stores the name, records CPE support from padding byte 0x42, answers with the server identification (user type 0x64 for operators) and announces the name to every client in the table; a rejection sends nothing, keeps the table and keeps the id held |
| NetClientHandler.ClientHandler.Welcome | src/net/classicube/ClientHandler.java:305-326 | the client receives the server identification with the operator's user type, and every client in the table receives the name announcement through its gates |
| NetClientHandler.ClientHandler.Join | src/net/classicube/ClientHandler.java:200-216 | the join throws exactly when the player has no level while the table holds clients. If it does not, the state is ACTIVE, the player stands at the spawn point of "main", has received the level, its own spawn and position and the spawns of exactly the other players of its level, each of them has received its spawn through their gates, and the player is in the table. If it does, the player has received the level, its own spawn and position and then the reason "Connection closed", it never enters the table, its id is freed, it ends DISCONNECTED, and every client only receives the name's removal through its gates |
| NetClientHandler.ClientHandler.JoinAccepted | src/net/classicube/ClientHandler.java:202-206 | for a player whose spawn exchange cannot throw: the state is ACTIVE, the player has received the level, its own spawn and position and the spawns of exactly the other players of its level, each of them has received its spawn, and the player is in the table |
| NetClientHandler.ClientHandler.JoinRefused | src/net/classicube/ClientHandler.java:200-216 | for a player with no level while the table holds clients: the player receives the level, its own spawn and position and the reason "Connection closed", never enters the table, has its id freed and ends DISCONNECTED, and the other clients receive only the name's removal |
| NetClientHandler.ClientHandler.CloseConnection | src/net/classicube/ClientHandler.java:213-215 | after `broadcastSpawn` throws, `run`'s `finally` sends "Connection closed", removes the name from every client's list, leaves the table without the id, frees the id and ends DISCONNECTED, with no despawn sent |
| NetClientHandler.ClientHandler.JoinCorrected | src/net/classicube/level/LevelManager.java:29-31 | as intended, the player is placed in "main" before joining: the join cannot throw, the player ends ACTIVE and in the table, and it exchanges spawns with exactly the other players placed in "main" |
| NetClientHandler.ClientHandler.Announce | src/net/classicube/ClientHandler.java:205-206 | the spawn exchange with exactly the other players of the level, then the entry in the table; when the exchange throws (no level, non-empty table) nothing is sent and the table is unchanged |
| NetClientHandler.ClientHandler.Enter | src/net/classicube/ClientHandler.java:202-204 | the state becomes ACTIVE, and the level transfer followed by the player's own spawn and position go to this client |
| NetClientHandler.ClientHandler.SendLevelData | src/net/classicube/ClientHandler.java:333-401 | the client receives LevelInitialize, the chunks of the gzip-compressed, length-prefixed level data, and LevelFinalize with the level's dimensions, in that order |
| NetClientHandler.ClientHandler.SendCompressedLevelData | src/net/classicube/ClientHandler.java:344-373 | the loop sends exactly the chunk packets of the compressed data, in order |
| NetClientHandler.ClientHandler.Spawn | src/net/classicube/ClientHandler.java:403-429 | the pose becomes the middle of "main" 51 units up, facing 0, and the client receives its own spawn and then its position, both with id -1 |
| NetClientHandler.ClientHandler.BroadcastSpawn | src/net/classicube/ClientHandler.java:431-441 | the lookup throws exactly when the player has no level and the table holds clients, and then nothing is sent; otherwise every other player of the level receives this player's spawn once, and this player receives the spawn of each of them once, in some order |
| NetClientHandler.ClientHandler.ExchangeAll | src/net/classicube/ClientHandler.java:431-441 | the loop visits exactly the given players: each receives this player's spawn, and this player's stream grows by their spawns in visiting order |
| NetClientHandler.ClientHandler.ExchangeSpawns | src/net/classicube/ClientHandler.java:434-439 | one round: the other player receives this player's spawn, and this player receives the other's |
| NetClientHandler.ClientHandler.HandleClientPosition | src/net/classicube/ClientHandler.java:457-507 | a valid position becomes the stored pose and goes to the other players of the level, with nothing sent back, except that for a player with no level (the table always holding it) the broadcast throws after the pose is stored and nothing is sent; an invalid one leaves the pose, sends the stored pose back to this player only, reaches no other player and never throws |
| NetClientHandler.ClientHandler.HandleMessage | src/net/classicube/ClientHandler.java:509-529 | a message over 64 characters is dropped; one starting with "/" goes, without the slash, to the command registry and to no player; any other goes as "name:message" to every player of the sender's level, the sender included, and throws, sending nothing, exactly when the sender has no level while the table holds clients |
| NetClientHandler.ClientHandler.HandleSetBlock | src/net/classicube/ClientHandler.java:531-589 | an invalid change leaves the level alone and answers this player alone with the block there now (when that block is known); a valid change that a listener cancels changes nothing and sends nothing; any other writes air or the placed type into that cell only and goes to every player of the level, and throws after the write exactly when the player has no level while the table holds clients; a player outside its own level's client set, as in the thrown case, receives nothing. `handleSetBlock`'s own catch logs the exception, so the player stays connected |
| NetClientHandler.ClientHandler.SendCurrentBlockState | src/net/classicube/ClientHandler.java:581-589 | the reply carries the block now at the position when its type is known, and is empty otherwise |
| NetClientHandler.ClientHandler.ChangeBlock | src/net/classicube/ClientHandler.java:563-578 | the cell and no other is written, and every player of the level receives the block change; the broadcast throws exactly when the player has no level while the table holds clients |
| NetClientHandler.ClientHandler.Disconnect | src/net/classicube/ClientHandler.java:596-609 | only an ACTIVE handler tears down, so it happens at most once: it sends the reason, tells every client to drop the name, leaves the table, frees its id, despawns from its level's other players and ends DISCONNECTED; in any other state nothing changes |
| NetClientHandler.ClientHandler.DisconnectCorrected | src/net/classicube/ClientHandler.java:596-609 | as intended, any state before teardown starts (including CONNECTING) sends the reason and frees the id |
| NetClientHandler.ClientHandler.SendDisconnectPacket | src/net/classicube/ClientHandler.java:611-622 | this client receives the reason, and every client in the table receives the name's removal through its gates |
| NetClientHandler.ClientHandler.Cleanup | src/net/classicube/ClientHandler.java:624-645 | unless the id is -1, the table entry is dropped, the id is freed and the other players of the level receive the despawn (none for a player with no level, whose despawn lookup throws); the state ends DISCONNECTED |
| NetClientHandler.ClientRegistry.constructor | src/net/classicube/ClientHandler.java:33-35 | the server starts with an empty client table and an id manager with no id in use |
| NetClientHandler.ClientRegistry.SendAll | src/net/classicube/ClientHandler.java:107-129 | every recipient receives the packet through its own gates, and no other client is touched |
| NetClientHandler.ClientRegistry.BroadcastPacket | src/net/classicube/ClientHandler.java:77-87 | every client in the table receives the packet through its gates |
| NetClientHandler.ClientRegistry.BroadcastDespawn | src/net/classicube/ClientHandler.java:639-645 | exactly the other players of the leaving player's level receive the despawn |
| JavaNum.ByteRoundTrip | src/net/classicube/packets/Packet.java:31-33 | a byte written with `writeByte` reads back as the same byte |
| JavaNum.ShortRoundTrip | src/net/classicube/packets/ServerPositionPacket.java:23-33 | a short written with `writeShort` reads back as the same short |
| JavaNum.IntRoundTrip | src/net/classicube/ClientHandler.java:378 | an int written with `writeInt` reads back as the same int |
| JavaNum.BytesRoundTrip | src/net/classicube/packets/Packet.java:15-26 | a `byte[]` written out and read back with `readFully` is the same array |
| JavaText.DecodeAscii | src/net/classicube/packets/Packet.java:15-26 | ASCII text encoded and decoded as UTF-8 comes back unchanged |
| JavaText.TrimPadded | src/net/classicube/packets/Packet.java:15-26 | a text with nothing for `trim` to remove at either end, padded with NULs as `writeString` pads it, comes back unchanged from `trim` |
| JavaText.LowerIdempotent | src/net/classicube/api/CommandRegistry.java:11-16 | lower-casing twice is lower-casing once, so a name lower-cased at registration matches one lower-cased at lookup |
| JavaEnum.IndexOfDistinct | src/net/classicube/packets/PacketType.java:44-50 | with distinct ids, the linear search of an enum lookup finds each constant at its own position |
| JavaSplit.SplitOfJoin | src/net/classicube/DualProtocolServer.java:188 | `split` on a separator takes apart lines joined by it, up to trailing empty lines |
| JavaSplit.SplitSpaceOfJoin | src/net/classicube/api/CommandRegistry.java:17 | `split("\\s+")` takes words joined by single spaces back apart into the words |
| JavaSplit.SplitSpaceOnceOfJoin | src/net/classicube/api/CommandRegistry.java:15 | `split("\\s+", 2)` on words joined by single spaces gives the first word and the rest of the line |
| NetLevel.CuboidCorners | src/net/classicube/level/Level.java:128-144 | inside the level, a cell is filled exactly when each coordinate lies between the two corners' values, and swapping the corners changes nothing |
| NetLevel.WallsInsideBox | src/net/classicube/level/Level.java:146-171 | inside the clamped box, `createWalls` writes exactly the cells on one of its x or z faces |
| NetLevel.WallsLeakOutsideBox | src/net/classicube/level/Level.java:146-171 | with both x corners at 10 in a level 4 wide, the clamped x range is empty, yet the second loop writes the cell (3, 0, 2), which lies outside the clamped box |
| NetLevel.WallsOfNonEmptyBox | src/net/classicube/level/Level.java:146-171 | once the clamped box is non-empty, `createWalls` writes exactly the walls of that box |
| NetLevel.SquareBounds | src/net/classicube/level/Level.java:173-228 | an offset whose square fits in r squared lies in [-r, r], so the loops' square bounds exclude nothing |
| NetLevel.DiscIsDistance | src/net/classicube/level/Level.java:173-187 | for a non-negative radius, `fillCircle` writes exactly the offsets with x squared plus z squared at most r squared |
| NetLevel.BallIsDistance | src/net/classicube/level/Level.java:189-206 | for a non-negative radius, `fillSphere` writes exactly the offsets whose squared distance is at most r squared |
| NetLevel.ShellIsDistance | src/net/classicube/level/Level.java:208-228 | for a non-negative radius, `createHollowSphere` writes exactly the offsets whose squared distance d2 satisfies (r - 1) squared < d2 <= r squared |
| NetLevel.ShellIsBallDifference | src/net/classicube/level/Level.java:208-228 | for a radius of at least 1, the hollow sphere is the ball of radius r without the ball of radius r - 1 |
| NetLevel.Level.Cells | src/net/classicube/level/Level.java:13 | the grid has the level's width, height and depth |
| NetLevel.Level.constructor | src/net/classicube/level/Level.java:19-24 | a new level has the given dimensions and every cell is air |
| NetLevel.Level.SetBlock | src/net/classicube/level/Level.java:68-76 | a cell inside the level takes the new block and no other cell changes; outside the level nothing changes |
| NetLevel.Level.GetBlock | src/net/classicube/level/Level.java:78-83 | inside the level the answer is the cell, outside it is air |
| NetLevel.Level.GetCenter | src/net/classicube/level/Level.java:240-242 | each coordinate of the centre is half the dimension, rounded down |
| NetLevel.Level.GetWidth | src/net/classicube/level/Level.java:244-246 | the width narrowed to a short: equal to the width whenever it fits |
| NetLevel.Level.GetHeight | src/net/classicube/level/Level.java:248-250 | the height narrowed to a short: equal to the height whenever it fits |
| NetLevel.Level.GetDepth | src/net/classicube/level/Level.java:252-254 | the depth narrowed to a short: equal to the depth whenever it fits |
| NetLevel.Level.GetBlockData | src/net/classicube/level/Level.java:85-96 | the export is the grid flattened with y outermost, then z, then x, one byte per cell |
| NetLevel.Level.SetBlockData | src/net/classicube/level/Level.java:98-107 | the grid becomes the first width * height * depth bytes unflattened in the export's order, so importing an export restores the level |
| NetLevel.Level.FillCuboid | src/net/classicube/level/Level.java:128-144 | exactly the cells of the clamped box spanned by the corners take the block; every other cell keeps its value |
| NetLevel.Level.ClearArea | src/net/classicube/level/Level.java:230-232 | exactly the cells of the clamped box become air |
| NetLevel.Level.CreateWalls | src/net/classicube/level/Level.java:146-171 | exactly the cells the two loops reach (the z faces over the x range, then the x faces strictly between) take the block, whether or not the clamped box is empty |
| NetLevel.Level.CreateBoxWalls | src/net/classicube/level/Level.java:146-171 | the corrected walls: exactly the walls of the clamped box take the block, and an empty box changes nothing |
| NetLevel.Level.FillCircle | src/net/classicube/level/Level.java:173-187 | exactly the level cells at height y whose offset from the centre lies in the disc take the block |
| NetLevel.Level.FillSphere | src/net/classicube/level/Level.java:189-206 | exactly the level cells whose offset from the centre lies in the ball take the block |
| NetLevel.Level.CreateHollowSphere | src/net/classicube/level/Level.java:208-228 | exactly the level cells whose offset from the centre lies in the shell take the block |
| NetLevel.Level.SaveToFile | src/net/classicube/level/Level.java:54-64 | the file (before gzip) is the three dimensions as shorts followed by the exported blocks |
| NetLevel.Level.LoadFromFile | src/net/classicube/level/Level.java:26-42 | loading succeeds exactly when the file parses, and fails with the parser's reason otherwise; a loaded level has the stored dimensions and blocks |
| NetLevelManager.SavedLevelReloads | src/net/classicube/level/Level.java:26-64 | a level whose dimensions fit in a short loads back from the file `saveToFile` wrote with the same dimensions and every cell unchanged |
| NetLevelManager.SpawnPositionIsCentre | src/net/classicube/level/LevelManager.java:198-207 | for dimensions below 1024 the spawn packet puts the player at 16 units per block on each axis, the middle of the level in 1/32-block units |
| NetLevelManager.LevelManager.constructor | src/net/classicube/level/LevelManager.java:26-28 | a new manager holds no level and maps no player, over the given file store |
| NetLevelManager.LevelManager.SetPlayerLevel | src/net/classicube/level/LevelManager.java:30-32 | the player is mapped to the name and every other player keeps their level |
| NetLevelManager.LevelManager.GetLevel | src/net/classicube/level/LevelManager.java:209-211 | a level is returned exactly when the name is registered, and it is the registered one |
| NetLevelManager.LevelManager.GetPlayerLevel | src/net/classicube/level/LevelManager.java:213-215 | a name is returned exactly when the player is mapped, and it is the mapped one |
| NetLevelManager.LevelManager.LevelExists | src/net/classicube/level/LevelManager.java:221-223 | true exactly when `getLevel` finds the name |
| NetLevelManager.LevelManager.LoadLevel | src/net/classicube/level/LevelManager.java:42-51 | succeeds exactly when a file of that name exists and parses; a failure leaves the levels alone; a success registers a fresh level with the file's dimensions and cells under the name |
| NetLevelManager.LevelManager.CreateLevel | src/net/classicube/level/LevelManager.java:53-66 | refused exactly when the name is taken, and then nothing changes; otherwise the generated level is registered and its file written at once |
| NetLevelManager.LevelManager.SaveLevel | src/net/classicube/level/LevelManager.java:68-77 | refused exactly for an unknown name, and then no file changes; otherwise only that level's file is rewritten with its current contents |
| NetLevelManager.LevelManager.SaveAllLevels | src/net/classicube/level/LevelManager.java:79-87 | afterwards every registered level's file holds that level, and every other file is as before |
| NetLevelManager.LevelManager.DeleteLevel | src/net/classicube/level/LevelManager.java:225-237 | refused exactly while some player is mapped to the name, and then nothing changes; otherwise the level and its file are both removed |
| NetLevelManager.LevelManager.SwitchPlayerLevel | src/net/classicube/level/LevelManager.java:89-143 | succeeds exactly when the level is registered, and otherwise nobody hears anything and no mapping changes; on success the old level's other players see the despawn, the player gets the level transfer, the spawn position and the spawns of exactly the new level's other players, and each of those gets the player's spawn |
| NetLevelManager.LevelManager.Move | src/net/classicube/level/LevelManager.java:95-137 | with the level known: the player is mapped to it, receives the transfer followed by the spawns of exactly the level's other players, and every other client receives the despawn and spawn that its level membership calls for |
| NetLevelManager.LevelManager.Depart | src/net/classicube/level/LevelManager.java:97-110 | the old level's other players see the player despawn, the player receives the new level and its spawn position, and the mapping moves to the new level |
| NetLevelManager.LevelManager.Leave | src/net/classicube/level/LevelManager.java:97-104 | the despawn reaches exactly the other players mapped to the player's old level, and the player itself hears nothing |
| NetLevelManager.LevelManager.Arrive | src/net/classicube/level/LevelManager.java:112-136 | the player receives the spawns of exactly the other players now in its level, and each of them receives the player's spawn |
| NetLevelManager.LevelManager.SendLevelToPlayer | src/net/classicube/level/LevelManager.java:145-163 | the player receives initialize, the level's chunks, finalize with the level's dimensions and the centred spawn position, all subject to its connection state |
| NetLevelManager.LevelManager.BuildChunk | src/net/classicube/level/LevelManager.java:183-192 | the packet built at a chunk start is exactly the handler's chunk of that index: length, zero-padded 1024 bytes and percentage |
| NetLevelManager.LevelManager.SendCompressedData | src/net/classicube/level/LevelManager.java:179-196 | the player receives exactly the chunk sequence the handler's own transfer uses, subject to its connection state |
| NetLevelManager.LevelManager.SendExistingSpawns | src/net/classicube/level/LevelManager.java:112-124 | the player receives one spawn for each of the given other clients, each once |
| NetLevelManager.LevelManager.SendSpawn | src/net/classicube/level/LevelManager.java:114-123 | one more spawn, carrying the other client's id, name and pose, joins the player's gated run |
| NetLocation.Location.X | src/net/classicube/api/Location.java:12-21 | the block x coordinate is the floor of rawX / 32: rawX lies in the 32 units starting at 32 times it, negative values included |
| NetLocation.Location.Y | src/net/classicube/api/Location.java:12-21 | the block y coordinate is the floor of rawY / 32 |
| NetLocation.Location.Z | src/net/classicube/api/Location.java:12-21 | the block z coordinate is the floor of rawZ / 32 |
| NetLocation.FromBlockCoordinates | src/net/classicube/api/Location.java:23-25 | yaw and pitch are kept, and for block coordinates whose raw value fits in a short the location lies on that block's corner and reports the same block coordinates back |
| NetLocation.FromBlock | src/net/classicube/api/Location.java:27-29 | the three-argument overload is the five-argument one facing yaw 0 and pitch 0 |
| NetLocation.Add | src/net/classicube/api/Location.java:81-83 | yaw and pitch are kept, and each raw coordinate becomes 32 times the moved block coordinate cut to a short, so the sub-block fraction is dropped |
| NetLocation.AddMovesBlocks | src/net/classicube/api/Location.java:81-83 | within the short range the block coordinates move by exactly the offsets and the result is block-aligned |
| NetLocation.Clone | src/net/classicube/api/Location.java:92-94 | the copy agrees with the original in every raw coordinate, block coordinate, yaw and pitch |
| NetApiPlayer.NextId | src/net/classicube/api/Player.java:59 | selection ids count up from 0 to 126 and then wrap back to 0 |
| NetApiPlayer.TableBound | src/net/classicube/api/Player.java:44-60 | a selection table whose keys are ids 0..126 holds at most 127 entries |
| NetApiPlayer.Player.constructor | src/net/classicube/api/Player.java:17-25 | a new player wraps its handler, has no selections and starts its ids at 0 |
| NetApiPlayer.Player.ValidBound | src/net/classicube/api/Player.java:44-60 | while the ids stay in 0..126 the table never exceeds 127 entries |
| NetApiPlayer.Player.SendSelection | src/net/classicube/api/Player.java:44-60 | an entry is evicted exactly when the table is full; the selection is entered under the old next id, which then advances modulo 127; the client gets the eviction's removal followed by the make-selection packet, whose id comes from the packet class's counter |
| NetApiPlayer.Player.SendMakeSelection | src/net/classicube/api/Player.java:53-58 | a delivered packet restamps the selection with the counter's id and advances the counter; an undelivered one changes neither; the caption, corners and colour are kept |
| NetApiPlayer.Player.RemoveOldestSelection | src/net/classicube/api/Player.java:73-76 | some key of a non-empty table is removed and its removal packet sent; which key is not fixed |
| NetApiPlayer.Player.RemoveSelection | src/net/classicube/api/Player.java:62-71 | the id leaves the table, and the removal packet goes out exactly when the id was in it |
| NetApiPlayer.Player.Teleport | src/net/classicube/api/Player.java:79-88 | every connected client, not only this player, receives the position packet with id -1 and the location's raw coordinates, yaw and pitch |
| NetApiPlayer.Player.GetLocation | src/net/classicube/api/Player.java:90-92 | the location's raw coordinates, yaw and pitch are the handler's stored pose |
| NetApiPlayer.Player.SendMessage | src/net/classicube/api/Player.java:94-106 | the client receives one message from id -1 for each piece of the split text, in order |
| NetApiPlayer.Player.IsOP | src/net/classicube/api/Player.java:109-111 | true exactly when the lower-cased name is on the op list |
| NetApiPlayer.Player.SetOP | src/net/classicube/api/Player.java:113-119 | the op list gains or loses exactly the lower-cased name, and afterwards `isOP` answers the value set |
| NetApiPlayer.Player.Kick | src/net/classicube/api/Player.java:121-123 | `disconnectPlayer` with the reason, as `Disconnect` states it: an active handler receives the disconnect packet with the reason (and its own name removal when it is in the table and speaks CPE), every other client in the table receives the name removal and, when it shares the player's level, the despawn; unless the id is -1 the id leaves the client table and is freed; the handler ends DISCONNECTED. A handler that is not active, the table, the id pool and every client's stream stay as they were |
| NetApiPlayer.PlayerCache.constructor | src/net/classicube/api/Player.java:18 | the cache starts empty |
| NetApiPlayer.PlayerCache.GetInstance | src/net/classicube/api/Player.java:27-29 | a cached handler gets its existing player and the cache is unchanged; otherwise a fresh player with no selections is made and cached under the handler |
| NetApiPlayer.PlayerCache.RemoveFromCache | src/net/classicube/api/Player.java:32-34 | exactly that handler's entry is removed |
| NetPlayerIDManager.NextClear | src/net/classicube/PlayerIDManager.java:16 | the first clear position: every earlier bit is set and the bit there, if inside the set, is clear |
| NetPlayerIDManager.PlayerIDManager.constructor | src/net/classicube/PlayerIDManager.java:9-12 | a new manager holds 255 ids, none of them in use |
| NetPlayerIDManager.PlayerIDManager.GetNextAvailableId | src/net/classicube/PlayerIDManager.java:14-26 | returns the lowest free id as a Java byte and marks it held, or fails and changes nothing when all 255 ids are held |
| NetPlayerIDManager.PlayerIDManager.ReleaseId | src/net/classicube/PlayerIDManager.java:28-36 | clears exactly the bit of the id read as unsigned, and ignores an id that reads as 255 |
| NetPlayerIDManager.PlayerIDManager.IsIdAvailable | src/net/classicube/PlayerIDManager.java:38-41 | an available id means fewer than 255 ids are held and the next request returns an id no larger than it |
| NetPlayerIDManager.PlayerIDManager.GetActiveIdCount | src/net/classicube/PlayerIDManager.java:43-45 | the count is at most 255 and reaches 255 exactly when the next request fails |
| NetPlayerIDManager.AcquireIsFresh | src/net/classicube/PlayerIDManager.java:14-26 | the id handed out was free and is held afterwards, so the next request cannot return it again, and the count grows by one |
| NetPlayerIDManager.ReleaseUndoesAcquire | src/net/classicube/PlayerIDManager.java:25-34 | the byte handed out reads back as the same id, including ids of 128 and above, and releasing it restores the bits as they were |
| NetPlayerIDManager.ExhaustedWhenFull | src/net/classicube/PlayerIDManager.java:16-21 | the request fails exactly when all 255 ids are held |
| NetPlayerIDManager.ReleaseFrees | src/net/classicube/PlayerIDManager.java:28-36 | a held id that is released is clear again and the count drops by one |
| NetPlayerIDManager.CountSet | src/net/classicube/PlayerIDManager.java:24 | setting a clear bit raises the count by one |
| NetPlayerIDManager.CountClear | src/net/classicube/PlayerIDManager.java:34 | clearing a bit lowers the count by one exactly when the bit was set |
| NetEventRegistry.Place | src/net/classicube/api/event/EventRegistry.java:47-50 | the stable sort puts an appended entry after every entry of at least its priority and before every lower one |
| NetEventRegistry.Insert | src/net/classicube/api/event/EventRegistry.java:40-50 | adding then sorting keeps the list in non-increasing priority, and the result is the old entries plus the new one as a multiset |
| NetEventRegistry.InsertIsStable | src/net/classicube/api/event/EventRegistry.java:47-50 | the sort is stable: the new entry follows every earlier entry of equal or higher priority and precedes every lower one, and the other entries keep their relative order |
| NetEventRegistry.Without | src/net/classicube/api/event/EventRegistry.java:61-63 | `removeIf` keeps exactly the entries of other listeners, and a sorted list stays sorted |
| NetEventRegistry.Dispatch | src/net/classicube/api/event/EventRegistry.java:76-91 | the listeners that run are a prefix of the list in order, and a non-empty list runs at least its first listener |
| NetEventRegistry.DispatchStopsOnlyOnCancel | src/net/classicube/api/event/EventRegistry.java:76-91 | when no handler returns normally with the event cancelled, every listener runs |
| NetEventRegistry.DispatchFirstAlwaysRuns | src/net/classicube/api/event/EventRegistry.java:76-86 | the first listener runs even for an event that arrives cancelled, and a first handler that cancels without throwing is the only one to run |
| NetEventRegistry.Add | src/net/classicube/api/event/EventRegistry.java:40-50 | one registration adds exactly one entry to its event class's list, creating the list if absent, keeps the table sorted, and leaves every other class alone |
| NetEventRegistry.Register | src/net/classicube/api/event/EventRegistry.java:20-53 | registration over any methods leaves every list sorted and non-empty |
| NetEventRegistry.RegisterKeeps | src/net/classicube/api/event/EventRegistry.java:20-53 | registration only adds: every existing class and entry stays |
| NetEventRegistry.RegisterAddsAll | src/net/classicube/api/event/EventRegistry.java:20-53 | when registration raises no error, every annotated method has a valid signature and its entry is in its class's list |
| NetEventRegistry.Unregistered | src/net/classicube/api/event/EventRegistry.java:55-70 | no entry of the listener remains, and no class is left with an empty list |
| NetEventRegistry.EventRegistry.constructor | src/net/classicube/api/event/EventRegistry.java:16-17 | the table starts empty |
| NetEventRegistry.EventRegistry.RegisterListener | src/net/classicube/api/event/EventRegistry.java:20-53 | the loop leaves the table and the error that the registration function gives, stopping at the first bad signature with the earlier methods registered |
| NetEventRegistry.EventRegistry.UnregisterListener | src/net/classicube/api/event/EventRegistry.java:55-70 | the loop over the classes leaves exactly the table with the listener's entries and the emptied classes removed |
| NetEventRegistry.EventRegistry.CallEvent | src/net/classicube/api/event/EventRegistry.java:72-94 | the loop runs exactly the dispatch of the event's own class's listeners, with none for an unknown class, and returns the event as they left it |
| NetMakeSelectionPacket.BlockSelection.constructor | src/net/classicube/api/BlockSelection.java:12-17 | a selection holds the given corners, colour and label, with id 0 |
| NetMakeSelectionPacket.SelectionCounter.constructor | src/net/classicube/packets/cpe/MakeSelectionPacket.java:13 | the class-wide counter starts at 0 |
| NetMakeSelectionPacket.CounterWrapsNegative | src/net/classicube/packets/cpe/MakeSelectionPacket.java:35-39 | the reset never fires: the counter step is a plain byte increment, so 127 is followed by -128 |
| NetMakeSelectionPacket.NextSelectionIdCorrected | src/net/classicube/packets/cpe/MakeSelectionPacket.java:35-39 | the intended step counts up from 0 and returns to 0 after 127, so ids stay in 0..127 |
| NetMakeSelectionPacket.Corners | src/net/classicube/packets/cpe/MakeSelectionPacket.java:25-34 | the corner and colour fields take exactly twenty bytes |
| NetMakeSelectionPacket.CornersRoundTrip | src/net/classicube/packets/cpe/MakeSelectionPacket.java:25-34 | each of the ten shorts reads back as the value written there: the block coordinates of both corners as signed shorts, then red, green, blue and alpha as unsigned ones |
| NetMakeSelectionPacket.ShortsAt | src/net/classicube/packets/cpe/MakeSelectionPacket.java:25-34 | the i-th big-endian short of a run of shorts reads back as the i-th value, signed or unsigned as it fits |
| NetMakeSelectionPacket.Layout | src/net/classicube/packets/cpe/MakeSelectionPacket.java:20-34 | the packet body is 85 bytes: the id, the 64-byte label field and the twenty corner and colour bytes, in that order |
| NetMakeSelectionPacket.LayoutRoundTrip | src/net/classicube/packets/cpe/MakeSelectionPacket.java:22-24 | the id reads back from the first byte, and a label that fits the field reads back from the 64 bytes after it |
| NetMakeSelectionPacket.MakeSelectionPacket.constructor | src/net/classicube/packets/cpe/MakeSelectionPacket.java:14-17 | the packet holds the given selection |
| NetMakeSelectionPacket.MakeSelectionPacket.Write | src/net/classicube/packets/cpe/MakeSelectionPacket.java:20-40 | the selection is stamped with the counter's value and written under that id, its other fields unchanged, and then the counter takes one step |
| NetDualProtocolServer.ReadUpTo | src/net/classicube/DualProtocolServer.java:120 | a read of up to n bytes returns -1 exactly on an exhausted stream, otherwise min(n, available) and those first bytes |
| NetDualProtocolServer.Lookahead | src/net/classicube/DualProtocolServer.java:119-120 | the lookahead buffer is always four bytes long, whatever the read returned |
| NetDualProtocolServer.SniffIff | src/net/classicube/DualProtocolServer.java:122 | a connection takes the HTTP branch exactly when its first three bytes are "GET"; a shorter read never does |
| NetDualProtocolServer.ParseHeaders | src/net/classicube/DualProtocolServer.java:229-241 | the loop builds the map `HeadersOf` describes for the lines of the CRLF split |
| NetDualProtocolServer.LastDefining | src/net/classicube/DualProtocolServer.java:231-238 | the reference for a header's value: the index of the last line defining the key, none when no line does |
| NetDualProtocolServer.HeaderLookup | src/net/classicube/DualProtocolServer.java:229-241 | a key is in the header map exactly when some line defines it, and its value comes from the last such line |
| NetDualProtocolServer.HeaderKeysLower | src/net/classicube/DualProtocolServer.java:234-235 | every key of the header map is lower case |
| NetDualProtocolServer.EntryOf | src/net/classicube/DualProtocolServer.java:232-237 | a line "Name: value" gives the lower-cased name and the value |
| NetDualProtocolServer.EntryNone | src/net/classicube/DualProtocolServer.java:232-233 | a line without a colon adds nothing to the map |
| NetDualProtocolServer.HeadersSnoc | src/net/classicube/DualProtocolServer.java:231-239 | one more line updates the map with its entry, over an earlier value for the same key |
| NetDualProtocolServer.UpgradeIgnoresConnection | src/net/classicube/DualProtocolServer.java:224-227 | the upgrade test does not look at the Connection header |
| NetDualProtocolServer.UpgradeCase | src/net/classicube/DualProtocolServer.java:225-226 | the Upgrade value is compared ignoring case, the protocol value exactly |
| NetDualProtocolServer.RequestLine | src/net/classicube/DualProtocolServer.java:189-194 | the chosen line starts with "GET"; there is none exactly when no line does |
| NetDualProtocolServer.RequestedPathOfRequest | src/net/classicube/DualProtocolServer.java:187-195 | for a request whose first line is "GET path version", the path is its second word |
| NetDualProtocolServer.SplitRequestLine | src/net/classicube/DualProtocolServer.java:191 | "GET path version" splits on spaces into its three words |
| NetDualProtocolServer.FirstLineRequest | src/net/classicube/DualProtocolServer.java:188-192 | a first line starting with "GET" is the request line whatever follows |
| NetDualProtocolServer.PathlessGetEscapes | src/net/classicube/DualProtocolServer.java:191 | a bare "GET" request line makes `split(" ")[1]` throw ArrayIndexOutOfBoundsException |
| NetDualProtocolServer.RequestedPathCorrected | src/net/classicube/DualProtocolServer.java:187-195 | the intended path: the same as the source wherever it returns, and "" where it throws |
| NetDualProtocolServer.Consumed | src/net/classicube/DualProtocolServer.java:117-143 | the server takes no more bytes than the client sent |
| NetDualProtocolServer.NativeKeepsEveryByte | src/net/classicube/DualProtocolServer.java:135-143 | a non-empty, non-"GET" connection reaches the native handler with every byte it sent, in order, the lookahead first; the handler starts exactly while the client count is below the maximum |
| NetDualProtocolServer.GetIsNeverNative | src/net/classicube/DualProtocolServer.java:122-134 | a connection starting with "GET" never reaches the native handler |
| NetDualProtocolServer.EmptyConnectionEscapes | src/net/classicube/DualProtocolServer.java:137-139 | a connection closed before its first byte makes `Arrays.copyOf(buffer, -1)` throw NegativeArraySizeException |
| NetDualProtocolServer.WebRequestCorrected | src/net/classicube/DualProtocolServer.java:197-206 | the intended web handling never throws, and agrees with the source wherever the source does not throw |
| NetDualProtocolServer.DispatchCorrected | src/net/classicube/DualProtocolServer.java:117-144 | the intended first-contact handling never throws, drops an empty connection, and otherwise agrees with the source |
| NetDualProtocolServer.Connection.constructor | src/net/classicube/DualProtocolServer.java:106 | a freshly accepted socket: the client's bytes pending, nothing sent, open |
| NetDualProtocolServer.Connection.Read | src/net/classicube/DualProtocolServer.java:120 | `read(b, off, len)` fills `b[off..]` with what `ReadUpTo` returns, consumes exactly those bytes and leaves the rest of `b` alone |
| NetDualProtocolServer.Concat | src/net/classicube/DualProtocolServer.java:126-128 | the full header is the four lookahead bytes followed by the bytes of the second read |
| NetDualProtocolServer.DualProtocolServer.constructor | src/net/classicube/DualProtocolServer.java:43-53 | the cache answers "/" with the disabled page; no WebSocket client and no native handler yet |
| NetDualProtocolServer.DualProtocolServer.HandleInitialConnection | src/net/classicube/DualProtocolServer.java:117-144 | the outcome is `Dispatch` of the client's bytes; it consumes `Consumed` bytes, sends the page or handshake of that outcome, closes the socket exactly for a page or a refused native client, and registers the WebSocket client or the native stream |
| NetDualProtocolServer.DualProtocolServer.HandleGet | src/net/classicube/DualProtocolServer.java:123-134 | the "GET" branch: one read of up to 4092 bytes, then the web request of the lookahead plus those bytes, or nothing on end of stream |
| NetDualProtocolServer.DualProtocolServer.HandleWebSocketRequest | src/net/classicube/DualProtocolServer.java:197-222 | the outcome is `WebRequest` of the header text: the handshake is sent and the socket registered for an upgrade, otherwise the page is sent and the socket closed |
| NetDualProtocolServer.DualProtocolServer.HandleHttpRequest | src/net/classicube/DualProtocolServer.java:169-185 | a cached path is answered with a 200 header, its type and length, then the content, and the socket is closed; an unknown path gets nothing |
| NetDualProtocolServer.DualProtocolServer.HandleTcpConnection | src/net/classicube/DualProtocolServer.java:244-254 | below the maximum the stream gets a native handler; otherwise the socket is closed |
| NetWebSocketClientHandler.ShrValues | src/net/classicube/WebSocketClientHandler.java:143-148 | `>>` on an `int` by 32 to 56 shifts by that distance minus 32; by 0 to 24 it is a division by 2^distance |
| NetWebSocketClientHandler.BigEndianFromAppend | src/net/classicube/WebSocketClientHandler.java:76-78 | folding bytes big-endian over a concatenation folds the second part over the result of the first |
| NetWebSocketClientHandler.BigEndianFromCongruent | src/net/classicube/WebSocketClientHandler.java:76-78 | prefixes equal modulo 2^32 stay equal modulo 2^32 after any further bytes, which is why an `int` accumulator keeps the low 32 bits |
| NetWebSocketClientHandler.BigEndianFour | src/net/classicube/WebSocketClientHandler.java:76-78 | four more bytes move an accumulated value 32 bits up |
| NetWebSocketClientHandler.ShiftBytes | src/net/classicube/WebSocketClientHandler.java:147-149 | the bytes written for shifts 24, 16, 8 and 0 are the four big-endian bytes of the length, whose value is the length |
| NetWebSocketClientHandler.ShiftsOfBytes | src/net/classicube/WebSocketClientHandler.java:148 | shifting a four-byte number by 24, 16, 8, 0 and masking with 0xFF gives its bytes back |
| NetWebSocketClientHandler.IntBytesValue | src/net/classicube/WebSocketClientHandler.java:147-149 | the four big-endian bytes of a non-negative `int` make it up |
| NetWebSocketClientHandler.ToIntCongruent | src/net/classicube/WebSocketClientHandler.java:77 | numbers equal modulo 2^32 are the same `int` |
| NetWebSocketClientHandler.ShiftOr | src/net/classicube/WebSocketClientHandler.java:73-77 | `(a << 8) \| b` for a read byte b is the `int` of a * 256 + b |
| NetWebSocketClientHandler.ShiftClearsLowByte | src/net/classicube/WebSocketClientHandler.java:77 | `a << 8` has its low 8 bits clear |
| NetWebSocketClientHandler.XorBits | src/net/classicube/WebSocketClientHandler.java:96 | the exclusive or of the low k bits stays below 2^k |
| NetWebSocketClientHandler.XorBitsTwice | src/net/classicube/WebSocketClientHandler.java:96 | an exclusive or applied twice with the same bits gives the low bits back |
| NetWebSocketClientHandler.XorTwice | src/net/classicube/WebSocketClientHandler.java:96 | `(a ^ b) ^ b == a` on bytes |
| NetWebSocketClientHandler.Masked | src/net/classicube/WebSocketClientHandler.java:94-98 | unmasking keeps the payload's length |
| NetWebSocketClientHandler.MaskTwice | src/net/classicube/WebSocketClientHandler.java:94-98 | masking with the same key twice gives the data back, so unmasking inverts a client's masking |
| NetWebSocketClientHandler.LongBytes | src/net/classicube/WebSocketClientHandler.java:147-149 | byte j of the long length form is `(length >> 8 * (7 - j)) & 0xFF` |
| NetWebSocketClientHandler.LengthField | src/net/classicube/WebSocketClientHandler.java:139-150 | the length part is never empty and never has the mask bit set |
| NetWebSocketClientHandler.FrameHeader | src/net/classicube/WebSocketClientHandler.java:135-155 | every frame is final, binary and unmasked; below 126 the length is one byte, below 65536 it is 126 and 16 bits, above it is 127; the payload follows unchanged |
| NetWebSocketClientHandler.LongLengthBytes | src/net/classicube/WebSocketClientHandler.java:145-150 | above 65535 the eight length bytes are the four bytes of the length written twice |
| NetWebSocketClientHandler.LongLengthDoubled | src/net/classicube/WebSocketClientHandler.java:145-150 | read as the 64-bit length of section 5.2 of RFC 6455, those eight bytes say n * 2^32 + n instead of n |
| NetWebSocketClientHandler.LongLengthExample | src/net/classicube/WebSocketClientHandler.java:145-150 | a 65536-byte payload is announced as 2^48 + 2^16 bytes |
| NetWebSocketClientHandler.LengthFieldCorrected | src/net/classicube/WebSocketClientHandler.java:139-150 | the intended length part: the same below 65536, and 127 with the eight-byte big-endian value n above |
| NetWebSocketClientHandler.ReadOne | src/net/classicube/WebSocketClientHandler.java:60-66 | `read()` gives the next byte and consumes it, or -1 at the end of the input |
| NetWebSocketClientHandler.Length64Step | src/net/classicube/WebSocketClientHandler.java:76-78 | each of the eight reads shifts one more byte into the `int` |
| NetWebSocketClientHandler.Length64Value | src/net/classicube/WebSocketClientHandler.java:74-79 | with eight bytes there, the `int` length is the low 32 bits of their big-endian value and exactly those bytes are consumed |
| NetWebSocketClientHandler.ShiftOrFold | src/net/classicube/WebSocketClientHandler.java:77 | shifting into an `int` and then folding the rest keeps the low 32 bits of the exact fold |
| NetWebSocketClientHandler.ExtLength | src/net/classicube/WebSocketClientHandler.java:70-79 | reading the extended length consumes no more than the input |
| NetWebSocketClientHandler.Length64Of | src/net/classicube/WebSocketClientHandler.java:74-79 | eight bytes whose value is n modulo 2^32 are read as n |
| NetWebSocketClientHandler.ExtLengthOf | src/net/classicube/WebSocketClientHandler.java:70-79 | the reader takes the as-written length part back to the length for every payload size |
| NetWebSocketClientHandler.ExtLengthOfCorrected | src/net/classicube/WebSocketClientHandler.java:70-79 | the reader takes the corrected length part back to the length too |
| NetWebSocketClientHandler.ReadKey | src/net/classicube/WebSocketClientHandler.java:81-84 | the key is four bytes: the next four when there are four, otherwise what is left followed by zeros |
| NetWebSocketClientHandler.ParseHeader | src/net/classicube/WebSocketClientHandler.java:59-84 | a parsed header has a four-byte key and consumes at least two bytes; fewer than two bytes is end of stream |
| NetWebSocketClientHandler.ParseUnmasked | src/net/classicube/WebSocketClientHandler.java:59-79 | an unmasked header is FIN from bit 7, the opcode from the low 4 bits and the extended length |
| NetWebSocketClientHandler.ParseMasked | src/net/classicube/WebSocketClientHandler.java:59-84 | a masked header reads its key after the extended length |
| NetWebSocketClientHandler.DecodeOfHeader | src/net/classicube/WebSocketClientHandler.java:86-104 | after a header for n bytes with n bytes present, a final frame yields its (unmasked) payload and a non-final one is replaced by the next frame |
| NetWebSocketClientHandler.DecodeUnmasked | src/net/classicube/WebSocketClientHandler.java:59-105 | an unmasked frame with FIN decodes to its payload whatever its opcode; without FIN it is skipped for the next frame |
| NetWebSocketClientHandler.DecodeOfFrame | src/net/classicube/WebSocketClientHandler.java:59-155 | the reader gives back every payload the writer frames, leaving the following bytes unread |
| NetWebSocketClientHandler.ControlFramesAsData | src/net/classicube/WebSocketClientHandler.java:63-100 | close and ping frames are delivered as data |
| NetWebSocketClientHandler.LastFragmentOnly | src/net/classicube/WebSocketClientHandler.java:100-104 | a message in two fragments arrives as its last fragment alone |
| NetWebSocketClientHandler.DecodeOfClientFrame | src/net/classicube/WebSocketClientHandler.java:59-105 | the reader unmasks a client's masked frame back to its payload |
| NetWebSocketClientHandler.DecodeOfFrameCorrected | src/net/classicube/WebSocketClientHandler.java:59-105 | the corrected writer's frames decode to their payload too |
| NetWebSocketClientHandler.WebSocketOutputStream.constructor | src/net/classicube/WebSocketClientHandler.java:110-114 | a new stream has nothing buffered and nothing sent |
| NetWebSocketClientHandler.WebSocketOutputStream.Write | src/net/classicube/WebSocketClientHandler.java:117-119 | `write(int)` appends the low 8 bits to the buffer |
| NetWebSocketClientHandler.WebSocketOutputStream.WriteBytes | src/net/classicube/WebSocketClientHandler.java:122-124 | `write(b, off, len)` appends that slice to the buffer |
| NetWebSocketClientHandler.WebSocketOutputStream.Flush | src/net/classicube/WebSocketClientHandler.java:127-133 | a non-empty buffer goes out as exactly one frame and is emptied; an empty one sends nothing |
| NetWebSocketClientHandler.WebSocketOutputStream.SendWebSocketFrame | src/net/classicube/WebSocketClientHandler.java:135-155 | the wire gains exactly `Frame(payload)`: 0x82, the length part, the payload |
| NetWebSocketClientHandler.WebSocketOutputStream.LongLength | src/net/classicube/WebSocketClientHandler.java:146-149 | the loop writes the eight bytes `LongBytes` describes |
| NetWebSocketClientHandler.WebSocketInputStream.constructor | src/net/classicube/WebSocketClientHandler.java:39-41 | a new stream has no frame buffered |
| NetWebSocketClientHandler.WebSocketInputStream.ReadSource | src/net/classicube/WebSocketClientHandler.java:60-66 | one `source.read()` as `ReadOne` describes |
| NetWebSocketClientHandler.WebSocketInputStream.ReadLength | src/net/classicube/WebSocketClientHandler.java:70-79 | the reads after the second byte give `ExtLength` and consume what it consumes |
| NetWebSocketClientHandler.WebSocketInputStream.ReadLength64 | src/net/classicube/WebSocketClientHandler.java:74-79 | the eight-read loop gives `Length64` |
| NetWebSocketClientHandler.WebSocketInputStream.ReadMaskKey | src/net/classicube/WebSocketClientHandler.java:81-84 | the key read gives `ReadKey` |
| NetWebSocketClientHandler.WebSocketInputStream.ReadHeader | src/net/classicube/WebSocketClientHandler.java:59-84 | the header reads give `ParseHeader` of the input and leave the rest unread |
| NetWebSocketClientHandler.WebSocketInputStream.ReadPayload | src/net/classicube/WebSocketClientHandler.java:86-92 | the payload loop reads exactly the next length bytes, or fails with end of stream when fewer are left |
| NetWebSocketClientHandler.WebSocketInputStream.ReadFrame | src/net/classicube/WebSocketClientHandler.java:59-105 | `readFrame` buffers the payload `DecodeFrame` gives and consumes that frame, or reports its error |
| NetWebSocketClientHandler.WebSocketInputStream.Read | src/net/classicube/WebSocketClientHandler.java:44-49 | `read()` returns the next buffered byte, reading a frame first when the buffer is missing or used up; an empty frame gives -1 |
| NetWebSocketClientHandler.WebSocketInputStream.ReadBytes | src/net/classicube/WebSocketClientHandler.java:52-57 | `read(b, off, len)` returns up to len buffered bytes, reading a frame first when the buffer is missing or used up |
| NetWebSocketClientHandler.Take | src/net/classicube/WebSocketClientHandler.java:56 | `ByteArrayInputStream.read(b, off, len)` gives min(len, left) bytes from the front, or -1 when none are left |
| NetWebSocketClientHandler.Length64 | src/net/classicube/WebSocketClientHandler.java:74-79 | the eight reads of a 64-bit length never consume more input than there is |
| NetWebSocketClientHandler.ExtLengthOf16 | src/net/classicube/WebSocketClientHandler.java:72-73 | for lengths from 126 to 65535 the reader takes the two-byte length part the writer emits back to the length, leaving the rest of the input |
| NetWebSocketClientHandler.ExtLengthOfLong | src/net/classicube/WebSocketClientHandler.java:74-79 | for longer lengths the reader still recovers the length from the as-written eight bytes, because the doubled copy lies above the 32 bits an `int` keeps |
| NetWebSocketClientHandler.WebSocketInputStream.ShiftIn | src/net/classicube/WebSocketClientHandler.java:77 | one shift-and-read step moves exactly one byte of the remaining reads into the accumulated length |
| NetWebSocketClientHandler.WebSocketInputStream.Unmask | src/net/classicube/WebSocketClientHandler.java:94-98 | the payload array becomes its old contents masked with the key in place |
| NetPacket.WriteString | src/net/classicube/packets/Packet.java:21-26 | the field is 64 bytes: the first min(n, 64) bytes of the string's UTF-8 encoding, then zeros, so a longer string loses its tail |
| NetPacket.ReadString | src/net/classicube/packets/Packet.java:15-19 | the string read from 64 bytes is trimmed: no leading or trailing character up to U+0020 remains |
| NetPacket.StringRoundTrip | src/net/classicube/packets/Packet.java:15-26 | reading back what `writeString` wrote gives the string for every ASCII string of at most 64 characters with nothing for `trim` to strip |
| NetPacket.ReadStringStable | src/net/classicube/packets/Packet.java:15-19 | trimming a string that was read changes nothing |
| NetPacket.TypeByte | src/net/classicube/packets/Packet.java:32-34 | the base `write` emits one byte, the packet type's id |
| NetDisconnectPlayerPacket.DisconnectPlayerPacket.constructor | src/net/classicube/packets/DisconnectPlayerPacket.java:10-12 | a new packet has an empty reason |
| NetDisconnectPlayerPacket.DisconnectPlayerPacket.Write | src/net/classicube/packets/DisconnectPlayerPacket.java:15-18 | 65 bytes: the type's opcode, then the reason's 64-byte field |
| NetDisconnectPlayerPacket.DisconnectPlayerPacket.Read | src/net/classicube/packets/DisconnectPlayerPacket.java:21-23 | succeeds exactly when 64 bytes are present, consuming them; otherwise fails at end of stream; the reason is set from the field only when the whole field arrived |
| NetDisconnectPlayerPacket.RoundTrip | src/net/classicube/packets/DisconnectPlayerPacket.java:15-23 | a reason that fits the field reads back from what `write` put after the opcode |
| NetPlayerIdentificationPacket.PlayerIdentificationPacket.constructor | src/net/classicube/packets/PlayerIdentificationPacket.java:13-15 | a new packet has version 0, empty name and key, and padding 0 |
| NetPlayerIdentificationPacket.PlayerIdentificationPacket.Write | src/net/classicube/packets/PlayerIdentificationPacket.java:18-24 | 131 bytes, opcode first |
| NetPlayerIdentificationPacket.PlayerIdentificationPacket.Read | src/net/classicube/packets/PlayerIdentificationPacket.java:27-32 | succeeds exactly when all 130 bytes are present; each field, in order, is set from its bytes when they arrived, and a truncated input leaves the later fields as they were |
| NetPlayerIdentificationPacket.RoundTrip | src/net/classicube/packets/PlayerIdentificationPacket.java:18-32 | the version and padding bytes read back from what `write` emitted, and so do the name and key when they fit the field |
| NetServerIdentificationPacket.ServerIdentificationPacket.constructor | src/net/classicube/packets/ServerIdentificationPacket.java:13-15 | a new packet has version 0, empty name and message of the day, and user type 0 |
| NetServerIdentificationPacket.ServerIdentificationPacket.Write | src/net/classicube/packets/ServerIdentificationPacket.java:18-24 | 131 bytes, opcode first |
| NetServerIdentificationPacket.ServerIdentificationPacket.Read | src/net/classicube/packets/ServerIdentificationPacket.java:27-32 | succeeds exactly when all 130 bytes are present; each field, in order, is set from its bytes when they arrived, and a truncated input leaves the later fields as they were |
| NetServerIdentificationPacket.RoundTrip | src/net/classicube/packets/ServerIdentificationPacket.java:18-32 | the version and user type read back from what `write` emitted, and so do the name and message of the day when they fit the field |
| NetServerPositionPacket.ServerPositionPacket.constructor | src/net/classicube/packets/ServerPositionPacket.java:15-17 | a new packet has every field 0 |
| NetServerPositionPacket.ServerPositionPacket.Write | src/net/classicube/packets/ServerPositionPacket.java:20-28 | ten bytes, with the opcode the client's position packet also uses |
| NetServerPositionPacket.ServerPositionPacket.Read | src/net/classicube/packets/ServerPositionPacket.java:31-38 | succeeds exactly when all nine bytes are present, and then re-encoding the packet gives the input back; each field is set once its bytes arrived, and the later ones otherwise keep their values |
| NetServerPositionPacket.ServerPositionPacket.ReadFields | src/net/classicube/packets/ServerPositionPacket.java:32-37 | each field is set from its bytes once they have arrived, and is otherwise left as it was |
| NetServerPositionPacket.RoundTrip | src/net/classicube/packets/ServerPositionPacket.java:20-38 | every field reads back from what `write` put after the opcode |
| NetServerPositionPacket.PayloadOfFields | src/net/classicube/packets/ServerPositionPacket.java:20-38 | re-encoding the fields read from a full payload gives the payload back |
| NetSetBlockClientPacket.SetBlockClientPacket.constructor | src/net/classicube/packets/SetBlockClientPacket.java:17-19 | a new packet has every field 0 |
| NetSetBlockClientPacket.SetBlockClientPacket.Write | src/net/classicube/packets/SetBlockClientPacket.java:22-29 | nine bytes, opcode first |
| NetSetBlockClientPacket.SetBlockClientPacket.Read | src/net/classicube/packets/SetBlockClientPacket.java:32-40 | succeeds exactly when all eight bytes are present, and then re-encoding the packet gives the input back; each field is set once its bytes arrived, and the later ones otherwise keep their values |
| NetSetBlockClientPacket.SetBlockClientPacket.SetMode | src/net/classicube/packets/SetBlockClientPacket.java:82-84 | the int is narrowed to a byte, so only its low eight bits survive, and no other field changes |
| NetSetBlockClientPacket.SetBlockClientPacket.GetMode | src/net/classicube/packets/SetBlockClientPacket.java:78-80 | mode byte 0 is DESTROY, 1 is PLACE, and any other byte gives null |
| NetSetBlockClientPacket.RoundTrip | src/net/classicube/packets/SetBlockClientPacket.java:22-40 | every field reads back from what `write` put after the opcode |
| NetSetBlockServerPacket.SetBlockServerPacket.constructor | src/net/classicube/packets/SetBlockServerPacket.java:13-15 | a new packet has every field 0 |
| NetSetBlockServerPacket.SetBlockServerPacket.Write | src/net/classicube/packets/SetBlockServerPacket.java:18-26 | eight bytes, opcode first |
| NetSetBlockServerPacket.SetBlockServerPacket.Read | src/net/classicube/packets/SetBlockServerPacket.java:29-34 | succeeds exactly when all seven bytes are present, and then re-encoding the packet gives the input back; each field is set once its bytes arrived, and the later ones otherwise keep their values |
| NetSetBlockServerPacket.RoundTrip | src/net/classicube/packets/SetBlockServerPacket.java:18-34 | every field reads back from what `write` put after the opcode |
| NetSpawnPlayerPacket.SpawnPlayerPacket.constructor | src/net/classicube/packets/SpawnPlayerPacket.java:16-18 | a new packet has every number 0 and an empty name |
| NetSpawnPlayerPacket.SpawnPlayerPacket.Write | src/net/classicube/packets/SpawnPlayerPacket.java:21-30 | 74 bytes, opcode first |
| NetSpawnPlayerPacket.SpawnPlayerPacket.Read | src/net/classicube/packets/SpawnPlayerPacket.java:33-41 | succeeds exactly when all 73 bytes are present; each field, in order, is set from its bytes when they arrived, and a truncated input leaves the later fields as they were |
| NetSpawnPlayerPacket.SpawnPlayerPacket.ReadIdentity | src/net/classicube/packets/SpawnPlayerPacket.java:34-35 | the id and then the name are set once their bytes have arrived |
| NetSpawnPlayerPacket.SpawnPlayerPacket.ReadPosition | src/net/classicube/packets/SpawnPlayerPacket.java:36-40 | the coordinates, yaw and pitch are each set once their bytes have arrived |
| NetSpawnPlayerPacket.RoundTrip | src/net/classicube/packets/SpawnPlayerPacket.java:21-41 | the id, coordinates, yaw and pitch read back from what `write` emitted, and so does a name that fits the field |
| NetSpawnPlayerPacket.WriteLayout | src/net/classicube/packets/SpawnPlayerPacket.java:21-30 | each field occupies its own slice of the bytes after the opcode, in `write` order |
| NetLevelDataChunkPacket.LevelDataChunkPacket.constructor | src/net/classicube/packets/LevelDataChunkPacket.java:14-17 | a new packet has a fresh all-zero 1024-byte buffer, length 0 and percentage 0 |
| NetLevelDataChunkPacket.LevelDataChunkPacket.Write | src/net/classicube/packets/LevelDataChunkPacket.java:20-25 | 1028 bytes, opcode first: the length, the whole buffer whatever the length says, and the percentage |
| NetLevelDataChunkPacket.LevelDataChunkPacket.Read | src/net/classicube/packets/LevelDataChunkPacket.java:28-33 | succeeds exactly when all 1027 bytes are present, and then re-encoding gives the input back; once the length has arrived the buffer is a fresh one holding the bytes that arrived, zero beyond them |
| NetLevelDataChunkPacket.LevelDataChunkPacket.GetChunkData | src/net/classicube/packets/LevelDataChunkPacket.java:44-46 | a negative length fails as `Arrays.copyOf` does; otherwise the copy has exactly the length's bytes, the buffer's first ones then zeros past 1024 |
| NetLevelDataChunkPacket.LevelDataChunkPacket.SetChunkData | src/net/classicube/packets/LevelDataChunkPacket.java:48-52 | the same buffer is cleared and holds the first min(n, 1024) bytes of the data, and the length becomes that count, its percentage unchanged |
| NetLevelDataChunkPacket.RoundTrip | src/net/classicube/packets/LevelDataChunkPacket.java:20-33 | the length, every buffer byte and the percentage read back from what `write` put after the opcode |
| NetEnvColorsPacket.Write | src/net/classicube/packets/cpe/EnvColorsPacket.java:21-27 | seven bytes: the colour type's value, which names the type again, then red, green and blue as unsigned shorts that read back as the components |
| NetEnvWeatherPacket.Write | src/net/classicube/packets/cpe/EnvWeatherPacket.java:19-22 | one byte, the weather type's id, which names the type again |
| NetExtAddPlayerNamePacket.ExtAddPlayerNamePacket.constructor | src/net/classicube/packets/cpe/ExtAddPlayerNamePacket.java:15-17 | a new packet has id and rank 0 and empty names |
| NetExtAddPlayerNamePacket.ExtAddPlayerNamePacket.Write | src/net/classicube/packets/cpe/ExtAddPlayerNamePacket.java:20-27 | 195 bytes: the name id as a short, so a negative byte is sign-extended and reads back the same, then the three 64-byte name fields in order, then the rank |
| NetExtEntryPacket.Write | src/net/classicube/packets/cpe/ExtEntryPacket.java:20-24 | 65 bytes: the extension name, which reads back when it fits the field, then the version's low eight bits |
| NetExtInfoPacket.Write | src/net/classicube/packets/cpe/ExtInfoPacket.java:18-22 | 66 bytes: the application name, which reads back when it fits the field, then an extension count of 1 |
| NetExtRemovePlayerNamePacket.Write | src/net/classicube/packets/cpe/ExtRemovePlayerNamePacket.java:17-20 | exactly one byte, the player id |
| NetHackControlPacket.BoolToByte | src/net/classicube/packets/cpe/HackControlPacket.java:28-30 | the byte is 1 exactly for true and 0 otherwise |
| NetHackControlPacket.Write | src/net/classicube/packets/cpe/HackControlPacket.java:33-41 | seven bytes: five flag bytes, each 0 or 1, then the jump height as a short that reads back |
| NetHackControlPacket.WriteFlags | src/net/classicube/packets/cpe/HackControlPacket.java:33-41 | each flag has its own byte, in declaration order, and that byte is 1 exactly when the flag is set |
| NetHeldBlockPacket.Write | src/net/classicube/packets/cpe/HeldBlockPacket.java:21-25 | two bytes: the block id, then 1 exactly when the change is forced and 0 otherwise |
| NetRemoveSelectionPacket.Write | src/net/classicube/packets/cpe/RemoveSelectionPacket.java:17-20 | exactly one byte, the selection id |
| NetPacketType.Id | src/net/classicube/packets/PacketType.java:38-55 | only UNKNOWN has id -1: every other constant's argument narrows to a different byte |
| NetPacketType.FromId | src/net/classicube/packets/PacketType.java:44-51 | a constant other than UNKNOWN is returned only for its own id |
| NetPacketType.FromIdIsFirst | src/net/classicube/packets/PacketType.java:44-51 | the first constant in declaration order with the id wins, and UNKNOWN comes back only when no other constant has the id |
| NetPacketType.FromIdOfId | src/net/classicube/packets/PacketType.java:5-51 | a constant comes back from its own id exactly when it is not one of the three server packets whose byte a client packet declared earlier already uses |
| NetPacketType.FromIdExamples | src/net/classicube/packets/PacketType.java:5-47 | the bytes 0x00, 0x08 and 0x0d, shared by a client and a server packet, resolve to the client packet |
| NetPacketType.FromIdCpeExamples | src/net/classicube/packets/PacketType.java:5-51 | the CPE bytes resolve to their packets, and an unlisted byte or -1 to UNKNOWN |
| NetSetBlockMode.GetById | src/net/classicube/api/enums/SetBlockMode.java:13-20 | a mode is returned only for its own id |
| NetSetBlockMode.GetByIdExact | src/net/classicube/api/enums/SetBlockMode.java:4-20 | exactly the bytes 0 and 1 name a mode, and each mode comes back from its id |
| NetSetBlockMode.ModesDistinct | src/net/classicube/api/enums/SetBlockMode.java:4-32 | the mode ids are distinct, and each mode is exactly one of destroy and place |
| NetWeatherType.GetById | src/net/classicube/api/enums/WeatherType.java:14-21 | a weather type is returned only for its own id |
| NetWeatherType.GetByIdExact | src/net/classicube/api/enums/WeatherType.java:4-21 | exactly 0, 1 and 2 name a weather type, each type comes back from its id, and the ids are distinct |
| NetEnvColorType.FromValue | src/net/classicube/api/enums/EnvColorType.java:17-24 | a colour type is returned only for its own value |
| NetEnvColorType.FromValueExact | src/net/classicube/api/enums/EnvColorType.java:4-24 | exactly 0 to 5 name a colour type, each type comes back from its value, and the values are distinct |
| NetFlatLevelGenerator.FlatCellByDistance | src/net/classicube/level/FlatLevelGenerator.java:16-26 | a generated cell is glass exactly when its squared distance from the centre lies in (225, 256]; every other cell is bedrock on layer 0, grass on layer 1 and air above |
| NetFlatLevelGenerator.FlatLevelGenerator.constructor | src/net/classicube/level/FlatLevelGenerator.java:7-9 | the default generator is 256 by 64 by 256 |
| NetFlatLevelGenerator.FlatLevelGenerator.Sized | src/net/classicube/level/FlatLevelGenerator.java:11-13 | the sized generator keeps the given dimensions |
| NetFlatLevelGenerator.FlatLevelGenerator.GenerateLevel | src/net/classicube/level/FlatLevelGenerator.java:16-26 | a fresh well-formed level of the generator's dimensions whose every cell is the flat world's block there: the glass shell of radius 16 drawn over the bedrock and grass layers |
| NetLevelGenerator.LevelGenerator.constructor | src/net/classicube/level/LevelGenerator.java:13-15 | the default dimensions are 256 by 64 by 256 |
| NetLevelGenerator.LevelGenerator.Sized | src/net/classicube/level/LevelGenerator.java:17-22 | the dimensions are the given ones |
| NetLevelGenerator.LevelGenerator.GenerateBasicLevel | src/net/classicube/level/LevelGenerator.java:28-35 | a fresh well-formed level of the generator's dimensions, with every cell air |
| NetCommandRegistry.Parse | src/net/classicube/api/CommandRegistry.java:15-17 | the command name has no whitespace and is already lower case |
| NetCommandRegistry.ParseWords | src/net/classicube/api/CommandRegistry.java:15-17 | a line of non-empty words joined by single spaces parses into its first word lower-cased and the remaining words as arguments |
| NetCommandRegistry.CommandRegistry.constructor | src/net/classicube/api/CommandRegistry.java:8 | the registry starts empty |
| NetCommandRegistry.CommandRegistry.RegisterCommand | src/net/classicube/api/CommandRegistry.java:10-12 | the command is stored under the lower-cased name, replacing any earlier one, and every other name is kept |
| NetCommandRegistry.CommandRegistry.ExecuteCommand | src/net/classicube/api/CommandRegistry.java:14-35 | the unknown-command reply exactly when the name is not registered; the permission reply exactly when the command is operator-only and the sender is not an operator; otherwise the command runs with the parsed arguments, and its reply, or the error prefix and the exception's message, goes back |
| NetCommandRegistry.RegisteredNameRuns | src/net/classicube/api/CommandRegistry.java:14-19 | a registered name is found whatever casing it is typed in, and the remaining words reach the command as its arguments |

## Left out

- Sockets, accept loops and stream plumbing are not modelled. This covers `DelegatingSocket`, the `MinecraftClassicServer` classes, the root game loop and `DualProtocolServer.startConnectionListener`/`sendResponse`. A socket's output is a sequence the handler appends to, and its input is a byte sequence the reader consumes.
- Every write to a socket is taken to succeed. The `IOException` paths are left out, except where the source turns a failure into a state change the model states, such as an escaping exception in the dual-protocol listener.
- Threads, locks, `AtomicReference`, `ConcurrentHashMap`, `CopyOnWriteArrayList`, timers and `synchronized` are modelled sequentially. The compare-and-swap in `disconnectPlayer` is a plain check-and-set.
- `HashMap`, `HashSet` and `ConcurrentHashMap` iteration order is not known. A broadcast over the client table proceeds in an order chosen by the model, and each client's output is stated per client. The order of `getDeclaredMethods` is a parameter of listener registration.
- gzip compression and decompression (`GZIPOutputStream`/`GZIPInputStream`) is foreign code. Compressed bytes are a parameter, and the model covers the layout before compression and the chunking after it.
- MD5, SHA-1 and Base64 are parameters. The WebSocket accept value is composed from them as section 4.2.2 of RFC 6455 describes, but the hashes themselves are not modelled. This covers `generateAcceptKey`, `HeartbeatManager.generateMppass` and `verifyPlayerKey`.
- `RootClientHandler` leaves out the default-package handler's `verifyPlayerKey` (never called), the placeholder `handleBlockUpdates`/`getBlockUpdatesForPosition` and its game-loop I/O.
- Both `HeartbeatManager` classes, `getPublicIP`, `fetchWebTex`, `setupWebguest`, `SecureRandom` salts and other HTTP clients are network I/O and are not modelled.
- Randomness and floating point are not modelled: `BackroomsGenerator`, `Location.distance`, the `double` helpers of `ClientPositionPacket`, `Level.toString` percentages, and the random seed of `LevelGenerator`.
- Reflection and plugin loading are not modelled (`PluginLoader`, the method scan of `EventRegistry.registerListener`). A listener method is a value holding its declared event type, its priority and whether it is annotated. Invoking it is a function parameter that returns the event and whether it threw.
- Configuration and command glue are not modelled: `Config`, both `API` classes, `ConsoleCommandSender` and the `Command` interfaces. `API.splitMessage` is the `split` parameter of `NetApiPlayer.Player.SendMessage`, and `MinecraftClassicServer.APP_NAME` is the `appName` parameter of `NetExtInfoPacket.Write`.
- The plain data holders are left out: `BlockSelection`'s setters and `toString`, `classic/api/Location`, `RegisteredCommand`, `RegisteredListener` and the event classes. `NetMakeSelectionPacket.BlockSelection` keeps only the fields the packet writes.
- Packets with no fields are not modelled separately: both `LevelInitializePacket` classes and `CPEPacket`. The two `LevelInitializePacket` classes write only their opcode byte, which `NetPacket.TypeByte` and the packet-type lookups cover. `CPEPacket.write` writes nothing at all, so each CPE subclass's `Write` states that subclass's whole output.
- The per-cell `broadcastBlockChange` calls of the net `Level` fill helpers are network side effects and are left out. The helpers are modelled as grid updates only.
- The net `Level`'s `getName`/`setName`/`toString`, `Location.getBlockType`/`setBlockType`/`toString`, `Player.getIPAddress`/`getUsername`/`getLevel`/`getHandle`, `CommandRegistry.getCommands`, and the net `ClientHandler`'s `broadcastPacketExcept`, `getByName` and `getClientCount` are accessors or unused helpers and are not modelled.
- The abstract `LevelGenerator` used by `generateFlatWorld` and the static `LevelGenerator.getWidth`/`MinecraftClassicServer.setBlock` do not resolve in the source. They are represented by the concrete generator and level the model defines.
- `net.classicube.api.enums.BlockType` is not part of this model. Its ids are taken to be the protocol block ids (air 0, grass 2, bedrock 7, glass 20), the same as the classic `BlockType`.
- A Java `null` string is modelled as the empty string wherever the source only tests it for null before use.
- A packet's `read` consumes a `DataInputStream`; the model's `Read` takes the input as a byte sequence and reports how many bytes it consumed instead of advancing a stream.
- `JavaText.Utf8` and its decoder are exact for ASCII only. Any byte at or above 0x80 decodes to U+FFFD, so round trips are stated for ASCII strings. Java's full UTF-8 handling is not modelled.
- Lower-casing and `equalsIgnoreCase` fold the ASCII letters only. Java also folds other Unicode letters.
- ClassicLevel.Level.constructor: requires fewer than 2^31 cells; Java throws `NegativeArraySizeException` for a negative dimension and `OutOfMemoryError` for a huge level, neither of which is modelled.
- NetLevel.Level.constructor: requires fewer than 2^31 cells, for the same reason.
- ClassicLevelGenerator.LevelGenerator.GenerateFlatWorld: requires non-negative dimensions and fewer than 2^31 cells, the conditions under which the Java array allocation succeeds.
- NetLevelGenerator.LevelGenerator.GenerateBasicLevel: requires non-negative dimensions and fewer than 2^31 cells, for the same reason.
- NetFlatLevelGenerator.FlatLevelGenerator.GenerateLevel: requires non-negative dimensions and fewer than 2^31 cells, for the same reason.
- NetLevel.Level.SetBlockData: requires an array of at least width × height × depth bytes. A shorter array makes Java throw `ArrayIndexOutOfBoundsException` after a partial write, which is not modelled.
- ClassicLevel.Level.SetBlockData: requires an array of at least width × height × depth bytes, for the same reason.
- ClassicDisconnectPlayerPacket.DisconnectPlayerPacket.constructor: Java leaves `reason` null, so writing a packet whose reason was never set throws `NullPointerException` in `writeString`. The model starts the reason at "" and writes 64 zero bytes instead.
- ClassicMessagePacket.MessagePacket.constructor: Java leaves `message` null, so writing a packet whose message was never set throws `NullPointerException` in `writeString`. The model starts the message at "".
- NetDisconnectPlayerPacket.DisconnectPlayerPacket.constructor: Java leaves `reason` null, so writing the packet before `setReason` throws `NullPointerException` in `writeString`. The model starts the reason at "".
- NetPlayerIdentificationPacket.PlayerIdentificationPacket.constructor: Java leaves `username` and `verificationKey` null, so writing the packet before both are set throws `NullPointerException`. The model starts both at "".
- NetServerIdentificationPacket.ServerIdentificationPacket.constructor: Java leaves `serverName` and `serverMOTD` null, so writing the packet before both are set throws `NullPointerException`. The model starts both at "".
- NetSpawnPlayerPacket.SpawnPlayerPacket.constructor: Java leaves `playerName` null, so writing the packet before `setPlayerName` throws `NullPointerException`. The model starts the name at "".
- NetExtAddPlayerNamePacket.ExtAddPlayerNamePacket.constructor: Java leaves the three names null, so writing the packet before all three are set throws `NullPointerException`. The model starts them at "".
- NetLevel.Level.FillCircle: the radius, the squared offsets, their sum and the centre-plus-offset coordinates are unbounded integers. Java computes them in 32-bit `int`, so the contract matches Java only while they fit, that is for a radius of at most 32767 and centres far enough from the `int` limits. Beyond that Java wraps and writes other cells, which is not modelled.
- NetLevel.Level.FillSphere: the same arithmetic is unbounded. The three squared offsets add up within `int` only for a radius of at most 26754, and beyond that Java wraps, which is not modelled.
- NetLevel.Level.CreateHollowSphere: the same as `FillSphere`, including the inner bound (radius - 1)²; the contract matches Java for a radius of at most 26754.
- ClassicPlayerList.PlayerList.SaveToFile: the file is modelled as its list of lines. A name holding a line terminator is written by `Files.write` as text that `readAllLines` splits into several lines, and the model does not show that split.
- ClassicPlayerList.ReloadAfterSave: the round trip is stated only for names without '\n' or '\r', because of that split. A saved name holding one reads back as several names.
- NetClientHandler.ClientHandler.Cleanup: for a player with no level and other clients online, Java's despawn lookup throws after the id is freed, so `Player.removeFromCache` and the closing of the socket are skipped and the exception leaves `disconnectPlayer`. The model sends the same packets and ends in the same state, but does not show the skipped steps or the escaping exception.
- NetClientHandler.ClientHandler.HandleClientPosition: `thrown` stands for the `NullPointerException` of the level lookup. The game loop's reaction, `disconnectPlayer("Unexpected error: " + message)`, is `Disconnect` with that reason; the exception's message text is not modelled. The same holds for `HandleMessage`. It does not hold for `HandleSetBlock`: `handleSetBlock` catches every exception itself and only logs it, so after a thrown set-block the player stays connected and the game loop goes on.
- NetClientHandler.ClientHandler.Join: `run` calls `EventRegistry.callEvent(new PlayerJoinEvent(Player.getInstance(this)))` after `clients.put`. That event, the `PlayerCache` entry `getInstance` creates and anything the join listeners do (including packets they send) are not modelled, so the packets Join states are those of the join itself; a listener may add more. The refused join throws before the event and is not affected.

## Findings

| source | as written | input that shows it | evidently intended | confidence | as-written member | corrected member |
|---|---|---|---|---|---|---|
| src/net/classicube/level/Level.java:146-171 | `createWalls` clamps the corners to the level, but its second loop paints the `minX` and `maxX` faces even when the clamped x range is empty | both x corners at 10 in a level 4 wide, 1 high and 5 deep, z from 0 to 4: the cell (3, 0, 2) is written although it lies outside the clamped box | only the walls of the clamped box are written, and an empty box is left alone | not executed | NetLevel.WallsLeakOutsideBox | NetLevel.Level.CreateBoxWalls |
| src/classic/packets/MessagePacket.java:42-55 | `sanitizeMessage` strips trailing '&' before it cuts the text to 64 characters, so the cut can leave a dangling colour-code '&' at the end | 63 letters, then "&", then one more letter: the result is 64 characters ending in '&' | no sanitized message ends in '&' | not executed | ClassicMessagePacket.TruncationExposesAmpersand | ClassicMessagePacket.SanitizedCorrected |
| src/net/classicube/packets/cpe/MakeSelectionPacket.java:35-39 | the counter is a `byte`, so `selectionId > 127` never holds and the increment wraps to -128 | the counter at 127: the next id is -128 | ids cycle through 0..127, back to 0 after 127 | not executed | NetMakeSelectionPacket.CounterWrapsNegative | NetMakeSelectionPacket.NextSelectionIdCorrected |
| src/net/classicube/DualProtocolServer.java:137-139 | a connection that closes before its first byte makes `read` return -1, and `Arrays.copyOf(buffer, -1)` throws an exception the listener does not catch | an empty input stream | the empty connection is closed quietly | not executed | NetDualProtocolServer.EmptyConnectionEscapes | NetDualProtocolServer.DispatchCorrected |
| src/net/classicube/DualProtocolServer.java:187-195 | `getRequestedPath` takes `split(" ")[1]` of the first line starting with "GET", which throws when that line has no space | the request line "GET" alone | the path is "" when the line has no second word | not executed | NetDualProtocolServer.PathlessGetEscapes | NetDualProtocolServer.RequestedPathCorrected |
| src/net/classicube/ClientHandler.java:596-609 | a rejected identification calls `disconnectPlayer`, which acts only in the ACTIVE state; during identification the state is CONNECTING, so no reason is sent and the player id stays taken | an identification whose protocol version is not the server's | the client gets the disconnect reason and its id is freed | not executed | NetClientHandler.ClientHandler.HandlePlayerIdentification | NetClientHandler.ClientHandler.DisconnectCorrected |
| src/net/classicube/ClientHandler.java:677-686 | `isValidPosition` divides the raw coordinates by 32 with Java's truncating division, so raw -31..-1 count as block 0 | the raw position (-1, -31, -16) in a 1×1×1 level passes, though it lies in block -1 | a position passes exactly when each raw coordinate lies in [0, 32 × size) | not executed | NetClientHandler.NegativeFractionAccepted | NetClientHandler.CorrectedPositionExact |
| src/classic/ClientHandler.java:366-367 | the player id counter wraps after 127, and a leaving player removes its id with `clients.remove(playerId)`, taking a newcomer that reused the id with it | player a joins with id 0, the counter wraps, player b joins with id 0, then a disconnects: b is no longer in the table | the entry is removed only while it still holds the leaving handler (`remove(playerId, this)`) | not executed | ClassicClientHandler.ReusedIdDropsNewcomer | ClassicClientHandler.AfterDisconnectCorrected |
| src/ClientHandler.java:132-134 | a valid block change stores the packet's block type whatever the mode, so a destroy (mode 0) stores the held block | mode 0 with block type stone at (0, 0, 0): the level keeps stone, while every client removes the block | a destroy stores air and a place stores the requested type | not executed | RootClientHandler.DestroyStoresHeldBlock | RootClientHandler.StoredBlockCorrected |
| src/net/classicube/ClientHandler.java:431-435 | `broadcastSpawn` (and the position, chat and block broadcasts) looks up the player's level with `getPlayerLevel`, which nothing in the join sets, and `getClientsInLevel` then calls `equals` on that null name for each client in the table | a second player joins while a first is online: its spawn exchange throws, it receives "Connection closed" and never enters the table; the first player's first valid move throws likewise and disconnects it | a joining player is placed in "main" (`setPlayerLevel`) before the exchange, so every lookup finds a level | not executed | NetClientHandler.ClientHandler.Join | NetClientHandler.ClientHandler.JoinCorrected |
| src/net/classicube/WebSocketClientHandler.java:145-150 | the eight-byte length is written as `(n >> 8i) & 0xFF` on an `int`, and Java masks shift counts to five bits, so the bytes are the four bytes of n written twice | a payload of 65536 bytes is announced as 2^48 + 2^16 bytes | the eight bytes are the plain 64-bit big-endian length, per section 5.2 of RFC 6455 | not executed | NetWebSocketClientHandler.LongLengthDoubled | NetWebSocketClientHandler.LengthFieldCorrected |
