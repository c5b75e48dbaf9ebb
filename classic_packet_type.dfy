// src/classic/packets/PacketType.java: the opcode table of the classic
// snapshot (no CPE entries) and the same first-match lookup.

module ClassicPacketType {
  import opened JavaNum

  datatype PacketType =
    | PLAYER_IDENTIFICATION
    | SET_BLOCK
    | POSITION_ORIENTATION
    | MESSAGE
    | SERVER_IDENTIFICATION
    | PING
    | LEVEL_INITIALIZE
    | LEVEL_DATA_CHUNK
    | LEVEL_FINALIZE
    | SET_BLOCK_SERVER
    | SPAWN_PLAYER
    | SET_POSITION_ORIENTATION
    | POSITION_ORIENTATION_UPDATE
    | POSITION_UPDATE
    | ORIENTATION_UPDATE
    | DESPAWN_PLAYER
    | MESSAGE_SERVER
    | DISCONNECT_PLAYER
    | UPDATE_USER_TYPE
    | UNKNOWN

  /** `getId`: the constructor argument narrowed to a byte. */
  function Id(t: PacketType): (b: JByte)
    ensures b == -1 <==> t == UNKNOWN
  {
    match t
    case PLAYER_IDENTIFICATION => 0x00
    case SET_BLOCK => 0x05
    case POSITION_ORIENTATION => 0x08
    case MESSAGE => 0x0d
    case SERVER_IDENTIFICATION => 0x00
    case PING => 0x01
    case LEVEL_INITIALIZE => 0x02
    case LEVEL_DATA_CHUNK => 0x03
    case LEVEL_FINALIZE => 0x04
    case SET_BLOCK_SERVER => 0x06
    case SPAWN_PLAYER => 0x07
    case SET_POSITION_ORIENTATION => 0x08
    case POSITION_ORIENTATION_UPDATE => 0x09
    case POSITION_UPDATE => 0x0a
    case ORIENTATION_UPDATE => 0x0b
    case DESPAWN_PLAYER => 0x0c
    case MESSAGE_SERVER => 0x0d
    case DISCONNECT_PLAYER => 0x0e
    case UPDATE_USER_TYPE => 0x0f
    case UNKNOWN => -1
  }

  /** The position of a constant in `values()`, that is, in declaration order. */
  function Ordinal(t: PacketType): (k: nat)
    ensures k < 20
  {
    match t
    case PLAYER_IDENTIFICATION => 0
    case SET_BLOCK => 1
    case POSITION_ORIENTATION => 2
    case MESSAGE => 3
    case SERVER_IDENTIFICATION => 4
    case PING => 5
    case LEVEL_INITIALIZE => 6
    case LEVEL_DATA_CHUNK => 7
    case LEVEL_FINALIZE => 8
    case SET_BLOCK_SERVER => 9
    case SPAWN_PLAYER => 10
    case SET_POSITION_ORIENTATION => 11
    case POSITION_ORIENTATION_UPDATE => 12
    case POSITION_UPDATE => 13
    case ORIENTATION_UPDATE => 14
    case DESPAWN_PLAYER => 15
    case MESSAGE_SERVER => 16
    case DISCONNECT_PLAYER => 17
    case UPDATE_USER_TYPE => 18
    case UNKNOWN => 19
  }

  /** `fromId`: the loop over `values()` unrolled, so the first constant in
      declaration order whose id matches is returned, and UNKNOWN when none does. */
  function FromId(id: JByte): (t: PacketType)
    ensures t != UNKNOWN ==> Id(t) == id
  {
    if Id(PLAYER_IDENTIFICATION) == id then PLAYER_IDENTIFICATION
    else if Id(SET_BLOCK) == id then SET_BLOCK
    else if Id(POSITION_ORIENTATION) == id then POSITION_ORIENTATION
    else if Id(MESSAGE) == id then MESSAGE
    else if Id(SERVER_IDENTIFICATION) == id then SERVER_IDENTIFICATION
    else if Id(PING) == id then PING
    else if Id(LEVEL_INITIALIZE) == id then LEVEL_INITIALIZE
    else if Id(LEVEL_DATA_CHUNK) == id then LEVEL_DATA_CHUNK
    else if Id(LEVEL_FINALIZE) == id then LEVEL_FINALIZE
    else if Id(SET_BLOCK_SERVER) == id then SET_BLOCK_SERVER
    else if Id(SPAWN_PLAYER) == id then SPAWN_PLAYER
    else if Id(SET_POSITION_ORIENTATION) == id then SET_POSITION_ORIENTATION
    else if Id(POSITION_ORIENTATION_UPDATE) == id then POSITION_ORIENTATION_UPDATE
    else if Id(POSITION_UPDATE) == id then POSITION_UPDATE
    else if Id(ORIENTATION_UPDATE) == id then ORIENTATION_UPDATE
    else if Id(DESPAWN_PLAYER) == id then DESPAWN_PLAYER
    else if Id(MESSAGE_SERVER) == id then MESSAGE_SERVER
    else if Id(DISCONNECT_PLAYER) == id then DISCONNECT_PLAYER
    else if Id(UPDATE_USER_TYPE) == id then UPDATE_USER_TYPE
    else if Id(UNKNOWN) == id then UNKNOWN
    else UNKNOWN
  }
  /** Nothing earlier in declaration order than `FromId(id)` has that id, and
      UNKNOWN is returned only when no constant other than UNKNOWN has it. */
  lemma FromIdIsFirst(id: JByte, u: PacketType)
    requires Id(u) == id
    ensures FromId(id) != UNKNOWN || u == UNKNOWN
    ensures Ordinal(FromId(id)) <= Ordinal(u)
  {
  }

  /** A constant comes back from its own id exactly when it is not one of the
      three server-to-client twins shadowed by 0x00, 0x08 and 0x0d. */
  lemma FromIdOfId(t: PacketType)
    ensures FromId(Id(t)) == t <==>
      t != SERVER_IDENTIFICATION && t != SET_POSITION_ORIENTATION && t != MESSAGE_SERVER
  {
  }

  /** The shared bytes resolve to the client-to-server constants, and there are
      no extension opcodes: every id from 0x10 up is UNKNOWN. */
  lemma FromIdExamples(id: JByte)
    ensures FromId(0x00) == PLAYER_IDENTIFICATION
    ensures FromId(0x08) == POSITION_ORIENTATION
    ensures FromId(0x0d) == MESSAGE
    ensures id >= 0x10 ==> FromId(id) == UNKNOWN
  {
    FromIdOfId(PLAYER_IDENTIFICATION);
    FromIdOfId(POSITION_ORIENTATION);
    FromIdOfId(MESSAGE);
  }
}
