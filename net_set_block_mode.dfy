// src/net/classicube/api/enums/SetBlockMode.java: the mode byte of a client's
// block change.

module NetSetBlockMode {
  import opened Wrappers
  import opened JavaNum

  datatype SetBlockMode = DESTROY | PLACE

  /** `getModeId`. */
  function ModeId(m: SetBlockMode): JByte
  {
    match m
    case DESTROY => 0x00
    case PLACE => 0x01
  }

  /** `getById`: the loop over `values()` unrolled; null when no mode has the id. */
  function GetById(id: JByte): (r: Option<SetBlockMode>)
    ensures r.Some? ==> ModeId(r.value) == id
  {
    if ModeId(DESTROY) == id then Some(DESTROY)
    else if ModeId(PLACE) == id then Some(PLACE)
    else None
  }

  predicate IsDestroy(m: SetBlockMode) { m == DESTROY }

  predicate IsPlace(m: SetBlockMode) { m == PLACE }

  /** Exactly the bytes 0 and 1 name a mode, and each mode comes back from its id. */
  lemma GetByIdExact(id: JByte, m: SetBlockMode)
    ensures GetById(id).Some? <==> id == 0 || id == 1
    ensures GetById(ModeId(m)) == Some(m)
  {
  }

  /** The ids are distinct, and every mode is exactly one of destroy and place. */
  lemma ModesDistinct(m: SetBlockMode, n: SetBlockMode)
    ensures ModeId(m) == ModeId(n) ==> m == n
    ensures IsDestroy(m) != IsPlace(m)
  {
  }
}
