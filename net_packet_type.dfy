// src/net/classicube/packets/PacketType.java: the opcode table of the
// ClassiCube snapshot, including its CPE entries, and the first-match lookup.

module NetPacketType {
  import opened JavaNum

  datatype PacketType =
    | PLAYER_IDENTIFICATION
    | SET_BLOCK
    | POSITION_ORIENTATION
    | MESSAGE
    | SERVER_IDENTIFICATION
    | PING
    | LEVEL_INITIALIZE
    | LEVEL_DATA_CHUNK
    | LEVEL_FINALIZE
    | SET_BLOCK_SERVER
    | SPAWN_PLAYER
    | SET_POSITION_ORIENTATION
    | POSITION_ORIENTATION_UPDATE
    | POSITION_UPDATE
    | ORIENTATION_UPDATE
    | DESPAWN_PLAYER
    | MESSAGE_SERVER
    | DISCONNECT_PLAYER
    | UPDATE_USER_TYPE
    | CPE_EXTINFO
    | CPE_EXTENTRY
    | CPE_MAKE_SELECTION
    | CPE_REMOVE_SELECTION
    | CPE_EXT_ADD_PLAYERNAME
    | CPE_EXT_REMOVE_PLAYER_NAME
    | UNKNOWN

  /** `getId`: the constructor argument narrowed to a byte. */
  function Id(t: PacketType): (b: JByte)
    ensures b == -1 <==> t == UNKNOWN
  {
    match t
    case PLAYER_IDENTIFICATION => 0x00
    case SET_BLOCK => 0x05
    case POSITION_ORIENTATION => 0x08
    case MESSAGE => 0x0d
    case SERVER_IDENTIFICATION => 0x00
    case PING => 0x01
    case LEVEL_INITIALIZE => 0x02
    case LEVEL_DATA_CHUNK => 0x03
    case LEVEL_FINALIZE => 0x04
    case SET_BLOCK_SERVER => 0x06
    case SPAWN_PLAYER => 0x07
    case SET_POSITION_ORIENTATION => 0x08
    case POSITION_ORIENTATION_UPDATE => 0x09
    case POSITION_UPDATE => 0x0a
    case ORIENTATION_UPDATE => 0x0b
    case DESPAWN_PLAYER => 0x0c
    case MESSAGE_SERVER => 0x0d
    case DISCONNECT_PLAYER => 0x0e
    case UPDATE_USER_TYPE => 0x0f
    case CPE_EXTINFO => 0x10
    case CPE_EXTENTRY => 0x11
    case CPE_MAKE_SELECTION => 0x1A
    case CPE_REMOVE_SELECTION => 0x1B
    case CPE_EXT_ADD_PLAYERNAME => 0x16
    case CPE_EXT_REMOVE_PLAYER_NAME => 0x18
    case UNKNOWN => -1
  }

  /** The position of a constant in `values()`, that is, in declaration order. */
  function Ordinal(t: PacketType): (k: nat)
    ensures k < 26
  {
    match t
    case PLAYER_IDENTIFICATION => 0
    case SET_BLOCK => 1
    case POSITION_ORIENTATION => 2
    case MESSAGE => 3
    case SERVER_IDENTIFICATION => 4
    case PING => 5
    case LEVEL_INITIALIZE => 6
    case LEVEL_DATA_CHUNK => 7
    case LEVEL_FINALIZE => 8
    case SET_BLOCK_SERVER => 9
    case SPAWN_PLAYER => 10
    case SET_POSITION_ORIENTATION => 11
    case POSITION_ORIENTATION_UPDATE => 12
    case POSITION_UPDATE => 13
    case ORIENTATION_UPDATE => 14
    case DESPAWN_PLAYER => 15
    case MESSAGE_SERVER => 16
    case DISCONNECT_PLAYER => 17
    case UPDATE_USER_TYPE => 18
    case CPE_EXTINFO => 19
    case CPE_EXTENTRY => 20
    case CPE_MAKE_SELECTION => 21
    case CPE_REMOVE_SELECTION => 22
    case CPE_EXT_ADD_PLAYERNAME => 23
    case CPE_EXT_REMOVE_PLAYER_NAME => 24
    case UNKNOWN => 25
  }

  /** `fromId`: the loop over `values()` unrolled, each test against that
      constant's id, so the first constant in declaration order whose id
      matches is returned, and UNKNOWN when none does. */
  function FromId(id: JByte): (t: PacketType)
    ensures t != UNKNOWN ==> Id(t) == id
  {
    if id == 0x00 then PLAYER_IDENTIFICATION
    else if id == 0x05 then SET_BLOCK
    else if id == 0x08 then POSITION_ORIENTATION
    else if id == 0x0d then MESSAGE
    else if id == 0x00 then SERVER_IDENTIFICATION
    else if id == 0x01 then PING
    else if id == 0x02 then LEVEL_INITIALIZE
    else if id == 0x03 then LEVEL_DATA_CHUNK
    else if id == 0x04 then LEVEL_FINALIZE
    else if id == 0x06 then SET_BLOCK_SERVER
    else if id == 0x07 then SPAWN_PLAYER
    else if id == 0x08 then SET_POSITION_ORIENTATION
    else if id == 0x09 then POSITION_ORIENTATION_UPDATE
    else if id == 0x0a then POSITION_UPDATE
    else if id == 0x0b then ORIENTATION_UPDATE
    else if id == 0x0c then DESPAWN_PLAYER
    else if id == 0x0d then MESSAGE_SERVER
    else if id == 0x0e then DISCONNECT_PLAYER
    else if id == 0x0f then UPDATE_USER_TYPE
    else if id == 0x10 then CPE_EXTINFO
    else if id == 0x11 then CPE_EXTENTRY
    else if id == 0x1A then CPE_MAKE_SELECTION
    else if id == 0x1B then CPE_REMOVE_SELECTION
    else if id == 0x16 then CPE_EXT_ADD_PLAYERNAME
    else if id == 0x18 then CPE_EXT_REMOVE_PLAYER_NAME
    else if id == -1 then UNKNOWN
    else UNKNOWN
  }
  /** Nothing earlier in declaration order than `FromId(id)` has that id, and
      UNKNOWN is returned only when no constant other than UNKNOWN has it. */
  lemma FromIdIsFirst(id: JByte, u: PacketType)
    requires Id(u) == id
    ensures FromId(id) != UNKNOWN || u == UNKNOWN
    ensures Ordinal(FromId(id)) <= Ordinal(u)
  {
  }

  /** A constant comes back from its own id exactly when it is not one of the
      three server-to-client twins shadowed by 0x00, 0x08 and 0x0d. */
  lemma FromIdOfId(t: PacketType)
    ensures FromId(Id(t)) == t <==>
      t != SERVER_IDENTIFICATION && t != SET_POSITION_ORIENTATION && t != MESSAGE_SERVER
  {
    match t
    case PLAYER_IDENTIFICATION => {}
    case SET_BLOCK => {}
    case POSITION_ORIENTATION => {}
    case MESSAGE => {}
    case SERVER_IDENTIFICATION => {}
    case PING => {}
    case LEVEL_INITIALIZE => {}
    case LEVEL_DATA_CHUNK => {}
    case LEVEL_FINALIZE => {}
    case SET_BLOCK_SERVER => {}
    case SPAWN_PLAYER => {}
    case SET_POSITION_ORIENTATION => {}
    case POSITION_ORIENTATION_UPDATE => {}
    case POSITION_UPDATE => {}
    case ORIENTATION_UPDATE => {}
    case DESPAWN_PLAYER => {}
    case MESSAGE_SERVER => {}
    case DISCONNECT_PLAYER => {}
    case UPDATE_USER_TYPE => {}
    case CPE_EXTINFO => {}
    case CPE_EXTENTRY => {}
    case CPE_MAKE_SELECTION => {}
    case CPE_REMOVE_SELECTION => {}
    case CPE_EXT_ADD_PLAYERNAME => {}
    case CPE_EXT_REMOVE_PLAYER_NAME => {}
    case UNKNOWN => {}
  }

  /** The bytes shared by a client and a server packet resolve to the
      client packet. */
  lemma FromIdExamples()
    ensures FromId(0x00) == PLAYER_IDENTIFICATION
    ensures FromId(0x08) == POSITION_ORIENTATION
    ensures FromId(0x0d) == MESSAGE
  {
    FromIdOfId(PLAYER_IDENTIFICATION);
    FromIdOfId(POSITION_ORIENTATION);
    FromIdOfId(MESSAGE);
  }

  /** The CPE bytes resolve to their packets; an unlisted byte and -1 to UNKNOWN. */
  lemma FromIdCpeExamples()
    ensures FromId(0x10) == CPE_EXTINFO && FromId(0x11) == CPE_EXTENTRY
    ensures FromId(0x16) == CPE_EXT_ADD_PLAYERNAME && FromId(0x18) == CPE_EXT_REMOVE_PLAYER_NAME
    ensures FromId(0x1A) == CPE_MAKE_SELECTION && FromId(0x1B) == CPE_REMOVE_SELECTION
    ensures FromId(0x12) == UNKNOWN && FromId(-1) == UNKNOWN
  {
    FromIdOfId(CPE_EXTINFO);
    FromIdOfId(CPE_EXTENTRY);
    FromIdOfId(CPE_EXT_ADD_PLAYERNAME);
    FromIdOfId(CPE_EXT_REMOVE_PLAYER_NAME);
    FromIdOfId(CPE_MAKE_SELECTION);
    FromIdOfId(CPE_REMOVE_SELECTION);
  }
}
