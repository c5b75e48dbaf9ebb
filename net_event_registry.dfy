// src/net/classicube/api/event/EventRegistry.java: the static table of event
// listeners, kept per event class in priority order, and the dispatch loop that
// stops once an event is cancelled.

module NetEventRegistry {
  import opened Wrappers

  /** The identity of a listener object. */
  datatype ListenerRef = ListenerRef(id: nat)

  /** An annotated handler method, as reflection finds it: its name, whether it
      carries `@EventHandler`, the event class of its single parameter (None when
      the signature is not one `Event` parameter) and the annotation's priority. */
  datatype HandlerMethod = HandlerMethod(name: string, annotated: bool, eventType: Option<string>, priority: int)

  /** `RegisteredListener`. */
  datatype RegisteredListener = RegisteredListener(listener: ListenerRef, handler: HandlerMethod, priority: int)

  /** An event: its runtime class, whether it is cancelled and the rest of its
      state. */
  datatype Event = Event(cls: string, cancelled: bool, data: string)

  /** What invoking a handler does: the event's new state, and whether the
      handler threw. */
  datatype Invocation = Invocation(event: Event, threw: bool)

  /** Non-increasing priority, the order the comparator sorts into. */
  predicate SortedDesc(list: seq<RegisteredListener>)
  {
    forall i, j :: 0 <= i < j < |list| ==> list[i].priority >= list[j].priority
  }

  /** Where a stable sort puts an entry appended to a sorted list: after every
      entry of at least its priority. */
  function Place(list: seq<RegisteredListener>, p: int): (k: nat)
    requires SortedDesc(list)
    ensures k <= |list|
    ensures forall i :: 0 <= i < k ==> list[i].priority >= p
    ensures forall i :: k <= i < |list| ==> list[i].priority < p
  {
    if list == [] || list[|list| - 1].priority >= p then |list|
    else Place(list[..|list| - 1], p)
  }

  /** `add` followed by the stable `sort` by descending priority. */
  function Insert(list: seq<RegisteredListener>, e: RegisteredListener): (r: seq<RegisteredListener>)
    requires SortedDesc(list)
    ensures SortedDesc(r)
    ensures |r| == |list| + 1 && multiset(r) == multiset(list) + multiset{e}
  {
    var k := Place(list, e.priority);
    assert list == list[..k] + list[k..];
    list[..k] + [e] + list[k..]
  }

  /** The stable sort keeps registration order among equal priorities: the new
      entry follows every earlier entry of the same priority and precedes every
      lower one. */
  lemma InsertIsStable(list: seq<RegisteredListener>, e: RegisteredListener, i: nat)
    requires SortedDesc(list) && i < |list|
    ensures var r := Insert(list, e); var k := Place(list, e.priority);
      r[k] == e && (list[i].priority >= e.priority <==> i < k)
      && (i < k ==> r[i] == list[i]) && (i >= k ==> r[i + 1] == list[i])
  {
  }

  /** `removeIf(l -> l.listener == listener)`. */
  function Without(list: seq<RegisteredListener>, listener: ListenerRef): (r: seq<RegisteredListener>)
    ensures forall i :: 0 <= i < |r| ==> r[i].listener != listener
    ensures forall x :: x in r <==> x in list && x.listener != listener
    ensures SortedDesc(list) ==> SortedDesc(r)
  {
    if list == [] then []
    else
      var rest := Without(list[1..], listener);
      assert forall x :: x in list <==> x == list[0] || x in list[1..];
      if list[0].listener == listener then rest else [list[0]] + rest
  }

  /** The dispatch loop over the listeners of the event's class: each is invoked
      in order; the loop stops after an invocation that returns normally with
      the event cancelled. Yields the event and the listeners that ran. */
  function Dispatch(list: seq<RegisteredListener>, event: Event, invoke: (HandlerMethod, Event) -> Invocation): (r: (Event, seq<RegisteredListener>))
    ensures |r.1| <= |list| && r.1 == list[..|r.1|]
    ensures list != [] ==> |r.1| >= 1
  {
    if list == [] then (event, [])
    else
      var step := invoke(list[0].handler, event);
      if !step.threw && step.event.cancelled then (step.event, [list[0]])
      else
        var rest := Dispatch(list[1..], step.event, invoke);
        (rest.0, [list[0]] + rest.1)
  }

  /** The loop stops only on a cancellation: when no handler returns normally
      with the event cancelled, every listener runs. */
  lemma {:induction false} DispatchStopsOnlyOnCancel(list: seq<RegisteredListener>, event: Event,
      invoke: (HandlerMethod, Event) -> Invocation)
    requires forall e: Event, m: HandlerMethod :: invoke(m, e).threw || !invoke(m, e).event.cancelled
    ensures Dispatch(list, event, invoke).1 == list
  {
    if list != [] {
      DispatchStopsOnlyOnCancel(list[1..], invoke(list[0].handler, event).event, invoke);
    }
  }

  /** An event that arrives cancelled still reaches the first listener; one that
      the first listener cancels, without throwing, reaches no other. */
  lemma DispatchFirstAlwaysRuns(list: seq<RegisteredListener>, event: Event,
      invoke: (HandlerMethod, Event) -> Invocation)
    requires list != []
    ensures Dispatch(list, event, invoke).1[0] == list[0]
    ensures var step := invoke(list[0].handler, event);
      !step.threw && step.event.cancelled ==> Dispatch(list, event, invoke) == (step.event, [list[0]])
  {
  }

  /** Every list is sorted and none is empty. */
  predicate ValidTable(table: map<string, seq<RegisteredListener>>)
  {
    forall c :: c in table ==> table[c] != [] && SortedDesc(table[c])
  }

  /** One registration: the entry for m added to its event class's list,
      created if absent, at its stable place; no other class changes. */
  function Add(table: map<string, seq<RegisteredListener>>, listener: ListenerRef, m: HandlerMethod)
    : (r: map<string, seq<RegisteredListener>>)
    requires ValidTable(table) && m.eventType.Some?
    ensures ValidTable(r)
    ensures var c := m.eventType.value;
      c in r && multiset(r[c]) == (if c in table then multiset(table[c]) else multiset{}) + multiset{RegisteredListener(listener, m, m.priority)}
    ensures forall d :: d != m.eventType.value ==> (d in r <==> d in table) && (d in table ==> r[d] == table[d])
  {
    var c := m.eventType.value;
    var list := if c in table then table[c] else [];
    table[c := Insert(list, RegisteredListener(listener, m, m.priority))]
  }

  /** The loop of `registerListener` over the methods reflection finds: each
      annotated method is added to its event class's list at its stable place;
      a method whose signature is not one `Event` parameter stops the loop with
      an error, leaving the earlier methods registered. */
  function Register(table: map<string, seq<RegisteredListener>>, listener: ListenerRef, methods: seq<HandlerMethod>)
    : (r: (map<string, seq<RegisteredListener>>, Option<string>))
    requires ValidTable(table)
    ensures ValidTable(r.0)
    decreases |methods|
  {
    if methods == [] then (table, None)
    else
      var m := methods[0];
      if !m.annotated then Register(table, listener, methods[1..])
      else if m.eventType.None? then (table, Some("Invalid event handler method: " + m.name))
      else Register(Add(table, listener, m), listener, methods[1..])
  }

  /** One step of `Register` on the methods from i on. */
  lemma RegisterUnfold(table: map<string, seq<RegisteredListener>>, listener: ListenerRef,
      methods: seq<HandlerMethod>, i: nat)
    requires ValidTable(table) && i < |methods|
    ensures var m := methods[i];
      var r := Register(table, listener, methods[i..]);
      if !m.annotated then r == Register(table, listener, methods[i + 1..])
      else if m.eventType.None? then r == (table, Some("Invalid event handler method: " + m.name))
      else r == Register(Add(table, listener, m), listener, methods[i + 1..])
  {
    assert methods[i..][0] == methods[i];
    assert methods[i..][1..] == methods[i + 1..];
  }

  /** Registration only adds: no class and no entry is lost. */
  lemma {:induction false} RegisterKeeps(table: map<string, seq<RegisteredListener>>, listener: ListenerRef,
      methods: seq<HandlerMethod>, c: string)
    requires ValidTable(table) && c in table
    ensures c in Register(table, listener, methods).0
    ensures multiset(table[c]) <= multiset(Register(table, listener, methods).0[c])
    decreases |methods|
  {
    if methods != [] {
      var m := methods[0];
      if !m.annotated {
        RegisterKeeps(table, listener, methods[1..], c);
      } else if m.eventType.Some? {
        var t := Add(table, listener, m);
        assert c in t && multiset(table[c]) <= multiset(t[c]);
        RegisterKeeps(t, listener, methods[1..], c);
      }
    }
  }

  /** Without an error, every annotated method ends up in its class's list; an
      error names an annotated method with a bad signature. */
  lemma {:induction false} RegisterAddsAll(table: map<string, seq<RegisteredListener>>, listener: ListenerRef,
      methods: seq<HandlerMethod>, i: nat)
    requires ValidTable(table) && i < |methods| && methods[i].annotated
    ensures var r := Register(table, listener, methods);
      r.1.None? ==> (methods[i].eventType.Some?
        && methods[i].eventType.value in r.0
        && RegisteredListener(listener, methods[i], methods[i].priority) in r.0[methods[i].eventType.value])
    decreases |methods|
  {
    var m := methods[0];
    if !m.annotated {
      assert Register(table, listener, methods) == Register(table, listener, methods[1..]);
      assert methods[1..][i - 1] == methods[i];
      RegisterAddsAll(table, listener, methods[1..], i - 1);
    } else if m.eventType.Some? {
      var d := m.eventType.value;
      var e := RegisteredListener(listener, m, m.priority);
      var t := Add(table, listener, m);
      assert Register(table, listener, methods) == Register(t, listener, methods[1..]);
      if i == 0 {
        assert e in multiset(t[d]);
        RegisterKeeps(t, listener, methods[1..], d);
      } else {
        assert methods[1..][i - 1] == methods[i];
        RegisterAddsAll(t, listener, methods[1..], i - 1);
      }
    }
  }

  /** What `unregisterListener` leaves: each list without that listener's
      entries, and no class whose list became empty. */
  function Unregistered(table: map<string, seq<RegisteredListener>>, listener: ListenerRef)
    : (r: map<string, seq<RegisteredListener>>)
    requires ValidTable(table)
    ensures ValidTable(r)
    ensures forall c :: c in r ==> forall x :: x in r[c] ==> x.listener != listener
  {
    map c | c in table && Without(table[c], listener) != [] :: Without(table[c], listener)
  }

  class EventRegistry {
    var eventListeners: map<string, seq<RegisteredListener>>

    predicate Valid()
      reads this
    {
      ValidTable(eventListeners)
    }

    constructor()
      ensures Valid() && eventListeners == map[]
    {
      eventListeners := map[];
    }

    /** `registerListener`. */
    method RegisterListener(listener: ListenerRef, methods: seq<HandlerMethod>) returns (error: Option<string>)
      requires Valid()
      modifies this
      ensures Valid()
      ensures (eventListeners, error) == Register(old(eventListeners), listener, methods)
    {
      var i := 0;
      while i < |methods|
        invariant 0 <= i <= |methods|
        invariant Valid()
        invariant Register(old(eventListeners), listener, methods) == Register(eventListeners, listener, methods[i..])
      {
        RegisterUnfold(eventListeners, listener, methods, i);
        var m := methods[i];
        if m.annotated {
          if m.eventType.None? {
            return Some("Invalid event handler method: " + m.name);
          }
          eventListeners := Add(eventListeners, listener, m);
        }
        i := i + 1;
      }
      return None;
    }

    /** `unregisterListener`: the entries for every class, one class at a time. */
    method UnregisterListener(listener: ListenerRef)
      requires Valid()
      modifies this
      ensures Valid()
      ensures eventListeners == Unregistered(old(eventListeners), listener)
    {
      ghost var table := eventListeners;
      var keys := eventListeners.Keys;
      while keys != {}
        invariant keys <= table.Keys
        invariant forall d :: d in eventListeners <==> d in table && (d in keys || Without(table[d], listener) != [])
        invariant forall d :: d in eventListeners ==>
          eventListeners[d] == if d in keys then table[d] else Without(table[d], listener)
        decreases |keys|
      {
        var c :| c in keys;
        var kept := Without(eventListeners[c], listener);
        if kept == [] {
          eventListeners := eventListeners - {c};
        } else {
          eventListeners := eventListeners[c := kept];
        }
        keys := keys - {c};
      }
      assert eventListeners.Keys == Unregistered(table, listener).Keys;
    }

    /** `callEvent`: looks the listeners up by the event's own class, runs them
        in order, stops after the first normal return that leaves the event
        cancelled, swallows exceptions, and returns the event. */
    method CallEvent(event: Event, invoke: (HandlerMethod, Event) -> Invocation) returns (result: Event, ran: seq<RegisteredListener>)
      ensures var list := if event.cls in eventListeners then eventListeners[event.cls] else [];
        (result, ran) == Dispatch(list, event, invoke)
    {
      var list := if event.cls in eventListeners then eventListeners[event.cls] else [];
      result, ran := event, [];
      assert list[0..] == list;
      assert Dispatch(list, event, invoke).1 == [] + Dispatch(list, event, invoke).1;
      var i := 0;
      while i < |list|
        invariant 0 <= i <= |list|
        invariant ran == list[..i]
        invariant Dispatch(list, event, invoke) == (var d := Dispatch(list[i..], result, invoke); (d.0, ran + d.1))
      {
        var step := invoke(list[i].handler, result);
        assert list[i..][1..] == list[i + 1..];
        var d := Dispatch(list[i + 1..], step.event, invoke);
        assert ran + ([list[i]] + d.1) == (ran + [list[i]]) + d.1;
        result := step.event;
        ran := ran + [list[i]];
        if !step.threw && result.cancelled {
          assert ran + [] == ran;
          return;
        }
        i := i + 1;
      }
    }
  }
}
