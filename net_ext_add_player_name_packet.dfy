// src/net/classicube/packets/cpe/ExtAddPlayerNamePacket.java: an entry of the
// client's player list. The setters fill the fields one by one; no opcode byte
// precedes them on the wire.

module NetExtAddPlayerNamePacket {
  import opened JavaNum
  import opened NetPacket

  class ExtAddPlayerNamePacket {
    var nameID: JByte
    var autocompletePlayerName: string
    var listPlayerName: string
    var groupName: string
    var groupRank: JByte

    constructor()
      ensures nameID == 0 && groupRank == 0
      ensures autocompletePlayerName == "" && listPlayerName == "" && groupName == ""
    {
      nameID, groupRank := 0, 0;
      autocompletePlayerName, listPlayerName, groupName := "", "", "";
    }

    /** `write`: the name id as a short, so a negative byte is sign-extended
        (-1 becomes 0xFFFF), then the autocomplete, list and group names as 64-byte
        fields, then the group rank: 195 bytes. */
    function Write(): (r: seq<Octet>)
      reads this
      ensures |r| == 2 + 3 * StringWidth + 1
      ensures ShortAt(r, 0) == nameID && UShortAt(r, 0) == nameID % 0x1_0000
      ensures r[2..2 + StringWidth] == WriteString(autocompletePlayerName)
      ensures r[2 + StringWidth..2 + 2 * StringWidth] == WriteString(listPlayerName)
      ensures r[2 + 2 * StringWidth..2 + 3 * StringWidth] == WriteString(groupName)
      ensures ByteAt(r, 2 + 3 * StringWidth) == groupRank
    {
      ShortBytes(nameID)
      + WriteString(autocompletePlayerName)
      + WriteString(listPlayerName)
      + WriteString(groupName)
      + ByteBytes(groupRank)
    }
  }
}
