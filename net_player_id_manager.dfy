// net/classicube/PlayerIDManager.java: hands out the lowest free player id
// in 0..254 from a bit set and takes ids back.

module NetPlayerIDManager {
  import opened JavaNum
  import opened Wrappers

  const MaxPlayers := 255

  /** `nextClearBit(0)` on the bits held in `s`: the first clear position, or
      |s| when every bit is set. */
  function NextClear(s: seq<bool>): (n: nat)
    ensures n <= |s|
    ensures forall i :: 0 <= i < n ==> s[i]
    ensures n < |s| ==> !s[n]
  {
    if s == [] || !s[0] then 0 else 1 + NextClear(s[1..])
  }

  /** `cardinality()`: the number of set bits. */
  function Count(s: seq<bool>): (c: nat)
    ensures c <= |s|
  {
    if s == [] then 0 else (if s[0] then 1 else 0) + Count(s[1..])
  }

  lemma {:induction false} CountSet(s: seq<bool>, n: nat)
    requires n < |s| && !s[n]
    ensures Count(s[n := true]) == Count(s) + 1
  {
    if n > 0 {
      assert s[n := true][1..] == s[1..][n - 1 := true];
      CountSet(s[1..], n - 1);
    }
  }

  lemma {:induction false} CountClear(s: seq<bool>, n: nat)
    requires n < |s|
    ensures Count(s[n := false]) == if s[n] then Count(s) - 1 else Count(s)
  {
    if n > 0 {
      assert s[n := false][1..] == s[1..][n - 1 := false];
      CountClear(s[1..], n - 1);
    }
  }

  /** Every bit set: the count is the length. */
  lemma {:induction false} CountFull(s: seq<bool>)
    requires forall i :: 0 <= i < |s| ==> s[i]
    ensures Count(s) == |s|
  {
    if s != [] {
      CountFull(s[1..]);
    }
  }

  /** `(byte) n` read back with `& 0xFF` is n again, for ids above 127 too. */
  lemma IdBytes(n: int)
    requires 0 <= n < 0x100
    ensures Low8(ToByte(n)) == n
  {
  }

  class PlayerIDManager {
    /** `usedIds`: bit i is set while id i is held. */
    const usedIds: array<bool>

    ghost predicate Valid() reads this {
      usedIds.Length == MaxPlayers
    }

    constructor ()
      ensures Valid() && fresh(usedIds)
      ensures forall i :: 0 <= i < MaxPlayers ==> !usedIds[i]
    {
      usedIds := new bool[MaxPlayers](_ => false);
    }

    /** Marks and returns the lowest free id as a Java byte (ids of 128 and
        more come out negative); fails and changes nothing when all 255 ids
        are held. */
    method GetNextAvailableId() returns (r: Result<JByte>)
      requires Valid()
      modifies usedIds
      ensures var n := NextClear(old(usedIds[..]));
        if n < MaxPlayers then r == Ok(ToByte(n)) && usedIds[..] == old(usedIds[..])[n := true]
        else r.Err? && usedIds[..] == old(usedIds[..])
    {
      var nextId := NextClear(usedIds[..]);
      if nextId >= MaxPlayers {
        return Err("No player IDs available (maximum 255 reached)");
      }
      usedIds[nextId] := true;
      return Ok(ToByte(nextId));
    }

    /** Clears the id's bit; ids that read as 255 after `& 0xFF` are ignored. */
    method ReleaseId(id: JByte)
      requires Valid()
      modifies usedIds
      ensures Low8(id) < MaxPlayers ==> usedIds[..] == old(usedIds[..])[Low8(id) := false]
      ensures Low8(id) >= MaxPlayers ==> usedIds[..] == old(usedIds[..])
    {
      var positiveId := Low8(id);
      if positiveId < MaxPlayers {
        usedIds[positiveId] := false;
      }
    }

    /** `isIdAvailable`: the id, read with `& 0xFF`, is in range and clear; an
        available id means the manager is not exhausted. */
    predicate IsIdAvailable(id: JByte)
      requires Valid()
      reads this, usedIds
      ensures IsIdAvailable(id) ==> Count(usedIds[..]) < MaxPlayers && NextClear(usedIds[..]) <= Low8(id)
    {
      if Low8(id) < MaxPlayers && !usedIds[Low8(id)] then
        CountBelowLength(usedIds[..], Low8(id));
        true
      else
        false
    }

    /** `getActiveIdCount`: the number of held ids, which reaches 255 exactly
        when the next request fails. */
    function GetActiveIdCount(): (c: nat)
      requires Valid()
      reads this, usedIds
      ensures c <= MaxPlayers
      ensures c == MaxPlayers <==> NextClear(usedIds[..]) >= MaxPlayers
    {
      ExhaustedWhenFull(usedIds[..]);
      Count(usedIds[..])
    }
  }

  /** The id handed out was free and is held afterwards, so the next request
      cannot return it again; the count of held ids grows by one. */
  lemma AcquireIsFresh(s: seq<bool>)
    requires |s| == MaxPlayers && NextClear(s) < MaxPlayers
    ensures var n := NextClear(s);
      !s[n] && NextClear(s[n := true]) != n && Count(s[n := true]) == Count(s) + 1
  {
    CountSet(s, NextClear(s));
  }

  /** Releasing the id just handed out restores the bits it found. */
  lemma ReleaseUndoesAcquire(s: seq<bool>)
    requires |s| == MaxPlayers && NextClear(s) < MaxPlayers
    ensures var n := NextClear(s);
      Low8(ToByte(n)) == n && s[n := true][Low8(ToByte(n)) := false] == s
  {
    var n := NextClear(s);
    IdBytes(n);
  }

  /** The request fails exactly when all 255 ids are held. */
  lemma ExhaustedWhenFull(s: seq<bool>)
    requires |s| == MaxPlayers
    ensures NextClear(s) >= MaxPlayers <==> Count(s) == MaxPlayers
  {
    if NextClear(s) >= MaxPlayers {
      CountFull(s);
    } else {
      CountBelowLength(s, NextClear(s));
    }
  }

  lemma {:induction false} CountBelowLength(s: seq<bool>, n: nat)
    requires n < |s| && !s[n]
    ensures Count(s) < |s|
  {
    if n > 0 {
      CountBelowLength(s[1..], n - 1);
    }
  }

  /** A released id that was held is available again, and the count drops by one. */
  lemma ReleaseFrees(s: seq<bool>, id: JByte)
    requires |s| == MaxPlayers && Low8(id) < MaxPlayers && s[Low8(id)]
    ensures !s[Low8(id) := false][Low8(id)]
    ensures Count(s[Low8(id) := false]) == Count(s) - 1
  {
    CountClear(s, Low8(id));
  }
}
