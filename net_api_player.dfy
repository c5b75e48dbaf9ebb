// src/net/classicube/api/Player.java: the plugin-facing view of a connected
// client. It keeps a table of the selections shown to the player, answers
// operator questions from the op list, and moves players by broadcasting a
// position packet.

module NetApiPlayer {
  import opened Wrappers
  import opened JavaNum
  import opened JavaText
  import NetClientHandler
  import NetMakeSelectionPacket
  import NetLocation
  import ClassicPlayerList

  /** The table of active selections holds at most this many entries, and the
      ids handed out cycle through 0 .. MaxSelections - 1. */
  const MaxSelections := 127

  /** The next id after `n`: `(byte) ((n + 1) % 127)`. */
  function NextId(n: JByte): (r: JByte)
    requires 0 <= n < MaxSelections
    ensures 0 <= r < MaxSelections
    ensures n < MaxSelections - 1 ==> r == n + 1
    ensures n == MaxSelections - 1 ==> r == 0
  {
    (n + 1) % MaxSelections
  }

  /** The bytes 0 .. n - 1. */
  function IdsBelow(n: nat): (s: set<JByte>)
    requires n <= 128
    ensures forall k: JByte :: k in s <==> 0 <= k < n
  {
    if n == 0 then {} else IdsBelow(n - 1) + {(n - 1) as JByte}
  }

  lemma {:induction false} IdsBelowSize(n: nat)
    requires n <= 128
    ensures |IdsBelow(n)| == n
  {
    if n > 0 {
      IdsBelowSize(n - 1);
      assert (n - 1) as JByte !in IdsBelow(n - 1);
    }
  }

  /** A table keyed by ids in 0..126 has at most 127 entries. */
  lemma TableBound(m: map<JByte, NetMakeSelectionPacket.BlockSelection>)
    requires forall k :: k in m ==> 0 <= k < MaxSelections
    ensures |m| <= MaxSelections
  {
    IdsBelowSize(MaxSelections);
    assert m.Keys <= IdsBelow(MaxSelections);
    SubsetSize(m.Keys, IdsBelow(MaxSelections));
  }

  lemma SubsetSize<T>(a: set<T>, b: set<T>)
    requires a <= b
    ensures |a| <= |b|
  {
    assert b == a + (b - a);
  }

  class Player {
    const handle: NetClientHandler.ClientHandler
    var activeSelections: map<JByte, NetMakeSelectionPacket.BlockSelection>
    var nextSelectionId: JByte

    /** What `sendSelection` keeps: the next id is in 0..126 and so is every
        key, which bounds the table at 127 entries. */
    ghost predicate Valid()
      reads this
    {
      0 <= nextSelectionId < MaxSelections &&
      forall k :: k in activeSelections ==> 0 <= k < MaxSelections
    }

    /** A new player has no selections and starts its ids at 0. */
    constructor(handle: NetClientHandler.ClientHandler)
      ensures Valid() && this.handle == handle
      ensures activeSelections == map[] && nextSelectionId == 0
    {
      this.handle := handle;
      activeSelections := map[];
      nextSelectionId := 0;
    }

    lemma ValidBound()
      requires Valid()
      ensures |activeSelections| <= MaxSelections
    {
      TableBound(activeSelections);
    }

    /** `sendSelection`: a full table first loses one entry (whichever key the
        map's iteration yields first), then the selection is stamped with the
        next id, entered under it and sent. The packet is written only when
        the client takes CPE packets, and writing restamps the selection with
        the packet class's own counter and advances that counter. */
    method SendSelection(selection: NetMakeSelectionPacket.BlockSelection,
                         counter: NetMakeSelectionPacket.SelectionCounter)
      returns (ghost evicted: Option<JByte>)
      requires Valid() && selection.outlineColor.Valid()
      modifies this`activeSelections, this`nextSelectionId, handle`sent, selection, counter
      ensures Valid()
      ensures |activeSelections| <= MaxSelections
      ensures evicted.Some? <==> |old(activeSelections)| >= MaxSelections
      ensures evicted.Some? ==> evicted.value in old(activeSelections)
      ensures activeSelections ==
        (if evicted.Some? then old(activeSelections) - {evicted.value} else old(activeSelections))
          [old(nextSelectionId) := selection]
      ensures nextSelectionId == NextId(old(nextSelectionId))
      ensures selection.caption == old(selection.caption) && selection.point1 == old(selection.point1)
      ensures selection.point2 == old(selection.point2) && selection.outlineColor == old(selection.outlineColor)
      ensures var made := NetMakeSelectionPacket.Layout(old(counter.selectionId), selection.caption,
                            selection.point1, selection.point2, selection.outlineColor);
        handle.sent == old(handle.sent) +
          (if evicted.Some? then handle.Out(NetClientHandler.RemoveSelection(evicted.value)) else []) +
          handle.Out(NetClientHandler.MakeSelection(made))
      ensures NetClientHandler.Delivers(handle.state, handle.supportsCPE, NetClientHandler.MakeSelection([])) ==>
        selection.selectionId == old(counter.selectionId) &&
        counter.selectionId == NetMakeSelectionPacket.NextSelectionId(old(counter.selectionId))
      ensures !NetClientHandler.Delivers(handle.state, handle.supportsCPE, NetClientHandler.MakeSelection([])) ==>
        selection.selectionId == old(nextSelectionId) && counter.selectionId == old(counter.selectionId)
    {
      evicted := None;
      if |activeSelections| >= MaxSelections {
        evicted := RemoveOldestSelection();
      }
      selection.selectionId := nextSelectionId;
      activeSelections := activeSelections[nextSelectionId := selection];
      SendMakeSelection(selection, counter);
      nextSelectionId := NextId(nextSelectionId);
      ValidBound();
    }

    /** `handle.sendPacket(new MakeSelectionPacket(selection))`: the packet's
        `write`, and with it the restamping, runs only when the packet is
        delivered. */
    method SendMakeSelection(selection: NetMakeSelectionPacket.BlockSelection,
                             counter: NetMakeSelectionPacket.SelectionCounter)
      requires selection.outlineColor.Valid()
      modifies handle`sent, selection, counter
      ensures selection.caption == old(selection.caption) && selection.point1 == old(selection.point1)
      ensures selection.point2 == old(selection.point2) && selection.outlineColor == old(selection.outlineColor)
      ensures handle.sent == old(handle.sent) + handle.Out(NetClientHandler.MakeSelection(
        NetMakeSelectionPacket.Layout(old(counter.selectionId), selection.caption,
          selection.point1, selection.point2, selection.outlineColor)))
      ensures NetClientHandler.Delivers(handle.state, handle.supportsCPE, NetClientHandler.MakeSelection([])) ==>
        selection.selectionId == old(counter.selectionId) &&
        counter.selectionId == NetMakeSelectionPacket.NextSelectionId(old(counter.selectionId))
      ensures !NetClientHandler.Delivers(handle.state, handle.supportsCPE, NetClientHandler.MakeSelection([])) ==>
        selection.selectionId == old(selection.selectionId) && counter.selectionId == old(counter.selectionId)
    {
      if NetClientHandler.Delivers(handle.state, handle.supportsCPE, NetClientHandler.MakeSelection([])) {
        var packet := new NetMakeSelectionPacket.MakeSelectionPacket(selection);
        var bytes := packet.Write(counter);
        handle.SendPacket(NetClientHandler.MakeSelection(bytes));
      }
    }

    /** `removeOldestSelection`: the first key of the map's iteration, which for
        a hash map is not the oldest entry; any key may come first. */
    method RemoveOldestSelection() returns (ghost key: Option<JByte>)
      requires Valid() && activeSelections != map[]
      modifies this`activeSelections, handle`sent
      ensures Valid() && nextSelectionId == old(nextSelectionId)
      ensures key.Some? && key.value in old(activeSelections)
      ensures activeSelections == old(activeSelections) - {key.value}
      ensures handle.sent == old(handle.sent) + handle.Out(NetClientHandler.RemoveSelection(key.value))
    {
      var oldest :| oldest in activeSelections;
      var removed := RemoveSelection(oldest);
      key := Some(oldest);
    }

    /** `removeSelection`: the remove packet goes out only when the id was in
        the table. */
    method RemoveSelection(selectionId: JByte) returns (removed: bool)
      requires Valid()
      modifies this`activeSelections, handle`sent
      ensures Valid() && nextSelectionId == old(nextSelectionId)
      ensures removed <==> selectionId in old(activeSelections)
      ensures activeSelections == old(activeSelections) - {selectionId}
      ensures handle.sent == old(handle.sent) +
        if removed then handle.Out(NetClientHandler.RemoveSelection(selectionId)) else []
    {
      removed := selectionId in activeSelections;
      activeSelections := activeSelections - {selectionId};
      if removed {
        handle.SendPacket(NetClientHandler.RemoveSelection(selectionId));
      }
    }

    /** `teleport`: the position packet with id -1 goes to every connected
        client, not only to this player. */
    method Teleport(location: NetLocation.Location, reg: NetClientHandler.ClientRegistry)
      modifies reg.clients.Values`sent
      ensures forall c :: c in reg.clients.Values ==>
        c.sent == old(c.sent) + c.Out(NetClientHandler.ServerPosition(-1,
          location.rawX, location.rawY, location.rawZ, location.yaw, location.pitch))
    {
      reg.BroadcastPacket(NetClientHandler.ServerPosition(-1,
        location.rawX, location.rawY, location.rawZ, location.yaw, location.pitch));
    }

    /** `getLocation`: the handler's stored pose. */
    function GetLocation(): (l: NetLocation.Location)
      reads handle`x, handle`y, handle`z, handle`yaw, handle`pitch
      ensures l.rawX == handle.x && l.rawY == handle.y && l.rawZ == handle.z
      ensures l.yaw == handle.yaw && l.pitch == handle.pitch
    {
      NetLocation.Location(handle.x, handle.y, handle.z, handle.yaw, handle.pitch)
    }

    /** `sendMessage`: each piece the splitter yields, in order, as a message
        from id -1. */
    method SendMessage(message: string, split: string -> seq<string>)
      modifies handle`sent
      ensures handle.sent == old(handle.sent) + MessagesTo(handle, split(message))
    {
      var pieces := split(message);
      var i := 0;
      while i < |pieces|
        invariant 0 <= i <= |pieces|
        invariant handle.sent == old(handle.sent) + MessagesTo(handle, pieces[..i])
      {
        MessagesSnoc(handle, pieces, i);
        handle.SendPacket(NetClientHandler.Message(-1, pieces[i]));
        i := i + 1;
      }
      assert pieces[..|pieces|] == pieces;
    }

    /** `isOP`: the lower-cased name is on the op list. */
    function IsOP(ops: ClassicPlayerList.PlayerList): (r: bool)
      reads handle`username, ops
      ensures r <==> Lower(handle.username) in ops.players
    {
      LowerIdempotent(handle.username);
      ops.Contains(Lower(handle.username))
    }

    /** `setOP`: adds or removes the lower-cased name; afterwards `isOP`
        answers `op`. */
    method SetOP(op: bool, ops: ClassicPlayerList.PlayerList)
      requires ops.Valid()
      modifies ops
      ensures ops.Valid()
      ensures IsOP(ops) == op
      ensures op ==> ops.players == old(ops.players) + {Lower(handle.username)}
      ensures !op ==> ops.players == old(ops.players) - {Lower(handle.username)}
    {
      LowerIdempotent(handle.username);
      if op {
        var added := ops.Add(Lower(handle.username));
      } else {
        var removed := ops.Remove(Lower(handle.username));
      }
    }

    /** `kick`: the handler's guarded disconnect. */
    method Kick(reason: string, reg: NetClientHandler.ClientRegistry,
                playerLevels: map<NetClientHandler.ClientHandler, string>)
      requires reg.idManager.Valid()
      modifies handle`state, handle`sent, reg`clients, reg.idManager.usedIds, reg.clients.Values`sent
      ensures old(handle.state) != NetClientHandler.ACTIVE ==>
        handle.state == old(handle.state) && handle.sent == old(handle.sent) && reg.clients == old(reg.clients) &&
        reg.idManager.usedIds[..] == old(reg.idManager.usedIds[..]) &&
        forall c :: c in old(reg.clients.Values) ==> c.sent == old(c.sent)
      ensures old(handle.state) == NetClientHandler.ACTIVE ==> handle.state == NetClientHandler.DISCONNECTED
      ensures old(handle.state) == NetClientHandler.ACTIVE ==>
        handle.sent == old(handle.sent) + [NetClientHandler.DisconnectPlayer(reason)] +
          (if handle in old(reg.clients.Values) && handle.supportsCPE
           then [NetClientHandler.ExtRemovePlayerName(handle.playerId)] else [])
      ensures old(handle.state) == NetClientHandler.ACTIVE && handle.playerId != -1 ==>
        reg.clients == old(reg.clients) - {handle.playerId} &&
        reg.idManager.usedIds[..] == old(reg.idManager.usedIds[..])[Low8(handle.playerId) := false]
      ensures old(handle.state) == NetClientHandler.ACTIVE && handle.playerId == -1 ==>
        reg.clients == old(reg.clients) && reg.idManager.usedIds[..] == old(reg.idManager.usedIds[..])
      ensures old(handle.state) == NetClientHandler.ACTIVE ==>
        forall c :: c in old(reg.clients.Values) && c != handle ==>
          c.sent == old(c.sent) + c.Out(NetClientHandler.ExtRemovePlayerName(handle.playerId)) +
            (if handle.playerId != -1 && c in reg.ClientsInLevelExcept(playerLevels, handle)
             then c.Out(NetClientHandler.DespawnPlayer(handle.playerId)) else [])
    {
      handle.Disconnect(reason, reg, playerLevels);
    }
  }

  /** The messages a player receives for the pieces of a text. */
  ghost function MessagesTo(handle: NetClientHandler.ClientHandler, pieces: seq<string>): seq<NetClientHandler.Packet>
    reads handle`state, handle`supportsCPE
  {
    if pieces == [] then []
    else MessagesTo(handle, pieces[..|pieces| - 1]) + handle.Out(NetClientHandler.Message(-1, pieces[|pieces| - 1]))
  }

  lemma MessagesSnoc(handle: NetClientHandler.ClientHandler, pieces: seq<string>, i: nat)
    requires i < |pieces|
    ensures MessagesTo(handle, pieces[..i + 1]) ==
      MessagesTo(handle, pieces[..i]) + handle.Out(NetClientHandler.Message(-1, pieces[i]))
  {
    assert pieces[..i + 1][..i] == pieces[..i];
  }

  /** `playerCache`: one Player per handler, made on first request. */
  class PlayerCache {
    var players: map<NetClientHandler.ClientHandler, Player>

    /** Every cached Player belongs to the handler it is cached under. */
    ghost predicate Valid()
      reads this
    {
      forall h :: h in players ==> players[h].handle == h
    }

    constructor()
      ensures Valid() && players == map[]
    {
      players := map[];
    }

    /** `getInstance`: the cached Player of the handler, or a new one that is
        cached from then on. */
    method GetInstance(handle: NetClientHandler.ClientHandler) returns (p: Player)
      requires Valid()
      modifies this
      ensures Valid()
      ensures p.handle == handle && handle in players && players[handle] == p
      ensures handle in old(players) ==> p == old(players)[handle] && players == old(players)
      ensures handle !in old(players) ==>
        fresh(p) && p.Valid() && p.activeSelections == map[] && players == old(players)[handle := p]
    {
      if handle in players {
        return players[handle];
      }
      p := new Player(handle);
      players := players[handle := p];
    }

    /** `removeFromCache`: the next request makes a fresh Player. */
    method RemoveFromCache(handle: NetClientHandler.ClientHandler)
      requires Valid()
      modifies this
      ensures Valid()
      ensures players == old(players) - {handle}
      ensures handle !in players
    {
      players := players - {handle};
    }
  }
}
