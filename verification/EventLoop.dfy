/** net/eventloop.cpp and net/handle.cpp: registration and the dispatch of
    reported events, where a callback may unregister any handles, its own or
    others, and register new ones. */
module EventLoops {
  import opened Sequences
  import opened Interest

  /** The order in which `handle_event` looks at the reported events. */
  const ORDER: seq<Event> := [READ, WRITE, ERROR, MODIFY, CLOSE]

  class Handle {
    const fd: int
    var events: Mask
    var revents: Mask

    constructor (fd: int, events: Mask)
      ensures this.fd == fd && this.events == events && revents == {}
    {
      this.fd, this.events, this.revents := fd, events, {};
    }
  }

  type Handles = map<int, Handle>

  /** What one callback does to the loop: the descriptors whose handles it
      unregisters, and the handles it registers afterwards, if their descriptors
      are free. */
  datatype Effect = Effect(closes: set<int>, registers: seq<Handle>)

  datatype Call = Call(handle: Handle, event: Event)

  /** A report, and what the callbacks for its events do if they are made. */
  datatype Turn = Turn(fd: int, events: Mask, effects: map<Event, Effect>)

  function EffectOf(t: Turn, e: Event): Effect {
    if e in t.effects then t.effects[e] else Effect({}, [])
  }

  function WithNew(live: Handles, hs: seq<Handle>): Handles
    decreases |hs|
  {
    if hs == [] then live
    else WithNew(if hs[0].fd in live then live else live[hs[0].fd := hs[0]], hs[1..])
  }

  function After(live: Handles, e: Effect): Handles {
    WithNew(live - e.closes, e.registers)
  }

  /** What is registered after some callbacks. */
  function AfterAll(live: Handles, es: seq<Effect>): Handles
    decreases |es|
  {
    if es == [] then live else AfterAll(After(live, es[0]), es[1..])
  }

  /** The events that a turn's handle is called for, out of `order`: the reported ones,
      up to and including the first whose callback unregisters the handle. */
  function Called(t: Turn, order: seq<Event>): seq<Event> {
    if order == [] then []
    else if order[0] !in t.events then Called(t, order[1..])
    else if t.fd in EffectOf(t, order[0]).closes then [order[0]]
    else [order[0]] + Called(t, order[1..])
  }

  function Done(t: Turn, called: seq<Event>): (es: seq<Effect>)
    ensures |es| == |called| && forall i :: 0 <= i < |called| ==> es[i] == EffectOf(t, called[i])
  {
    if called == [] then [] else [EffectOf(t, called[0])] + Done(t, called[1..])
  }

  function CallsTo(h: Handle, called: seq<Event>): (calls: seq<Call>)
    ensures |calls| == |called| && forall i :: 0 <= i < |called| ==> calls[i] == Call(h, called[i])
  {
    if called == [] then [] else [Call(h, called[0])] + CallsTo(h, called[1..])
  }

  /** A dispatch: its callbacks, what is registered afterwards, and whether every
      lookup of a reported descriptor found a handle; it stops where one does not. */
  datatype Dispatched = Dispatched(calls: seq<Call>, live: Handles, ok: bool)

  function DispatchOf(live: Handles, turns: seq<Turn>): Dispatched
    decreases |turns|
  {
    if turns == [] then Dispatched([], live, true)
    else if turns[0].fd !in live then Dispatched([], live, false)
    else
      var called := Called(turns[0], ORDER);
      var later := DispatchOf(AfterAll(live, Done(turns[0], called)), turns[1..]);
      Dispatched(CallsTo(live[turns[0].fd], called) + later.calls, later.live, later.ok)
  }

  predicate OwnNumbers(live: Handles) {
    forall fd :: fd in live ==> live[fd].fd == fd
  }

  // ---------- The loop ----------

  /** The calls so far and those to come from one turn, and what is registered then. */
  function Ahead(live: Handles, calls: seq<Call>, h: Handle, t: Turn, order: seq<Event>): (seq<Call>, Handles) {
    (calls + CallsTo(h, Called(t, order)), AfterAll(live, Done(t, Called(t, order))))
  }

  lemma AheadCall(live: Handles, calls: seq<Call>, h: Handle, t: Turn, order: seq<Event>)
    requires order != [] && order[0] in t.events
    ensures var e := EffectOf(t, order[0]);
            var left := t.(events := if t.fd in e.closes then {} else t.events);
            Ahead(live, calls, h, t, order) == Ahead(After(live, e), calls + [Call(h, order[0])], h, left, order[1..])
  {
    var e, c, rest := EffectOf(t, order[0]), [Call(h, order[0])], Called(t, order[1..]);
    if t.fd in e.closes {
      NotCalled(t.(events := {}), order[1..]);
      AheadParts(live, calls, h, t, order[0], []);
    } else {
      AheadParts(live, calls, h, t, order[0], rest);
    }
  }

  lemma AheadParts(live: Handles, calls: seq<Call>, h: Handle, t: Turn, e: Event, rest: seq<Event>)
    ensures calls + CallsTo(h, [e] + rest) == calls + [Call(h, e)] + CallsTo(h, rest)
    ensures AfterAll(live, Done(t, [e] + rest)) == AfterAll(After(live, EffectOf(t, e)), Done(t, rest))
  {
    assert ([e] + rest)[1..] == rest;
    Assoc(calls, [Call(h, e)], CallsTo(h, rest));
    assert Done(t, [e] + rest)[1..] == Done(t, rest);
  }

  lemma {:induction false} NotCalled(t: Turn, order: seq<Event>)
    requires forall e :: e in order ==> e !in t.events
    ensures Called(t, order) == []
  {
    if order != [] {
      NotCalled(t, order[1..]);
    }
  }

  /** The calls so far and those of a dispatch. */
  function Whole(live: Handles, calls: seq<Call>, turns: seq<Turn>): Dispatched {
    var d := DispatchOf(live, turns);
    Dispatched(calls + d.calls, d.live, d.ok)
  }

  lemma WholeStep(live: Handles, calls: seq<Call>, turns: seq<Turn>)
    requires turns != [] && turns[0].fd in live
    ensures var (now, next) := Ahead(live, calls, live[turns[0].fd], turns[0], ORDER);
            Whole(live, calls, turns) == Whole(next, now, turns[1..])
  {
    var called := Called(turns[0], ORDER);
    var later := DispatchOf(AfterAll(live, Done(turns[0], called)), turns[1..]);
    Assoc(calls, CallsTo(live[turns[0].fd], called), later.calls);
  }

  lemma WholeEnd(live: Handles, calls: seq<Call>, turns: seq<Turn>)
    requires turns == [] || turns[0].fd !in live
    ensures Whole(live, calls, turns) == Dispatched(calls, live, turns == [])
  {
    assert calls + [] == calls;
  }

  class EventLoop {
    var handles: Handles
    var interest: Interests
    var calls: seq<Call>

    /** The loop and its backend know the same descriptors, each under its own number. */
    ghost predicate Valid()
      reads this
    {
      handles.Keys == interest.Keys && OwnNumbers(handles)
    }

    /** `world` holds every handle there is or will be. */
    ghost predicate Within(world: set<Handle>)
      reads this
    {
      forall fd :: fd in handles ==> handles[fd] in world
    }

    constructor ()
      ensures Valid() && handles == map[] && calls == []
    {
      handles, interest, calls := map[], map[], [];
    }

    method RegistHandle(h: Handle)
      requires Valid() && h.fd !in handles
      modifies this`handles, this`interest
      ensures Valid() && handles == old(handles)[h.fd := h] && interest == old(interest)[h.fd := h.events]
    {
      interest := interest[h.fd := h.events];
      handles := handles[h.fd := h];
    }

    /** Also forgets the events still to be handled. */
    method UnregistHandle(h: Handle)
      requires Valid() && h.fd in handles
      modifies this`handles, this`interest, h`revents
      ensures Valid() && handles == old(handles) - {h.fd} && interest == old(interest) - {h.fd} && h.revents == {}
    {
      interest := interest - {h.fd};
      if h.fd in handles {
        handles := handles - {h.fd};
      }
      h.revents := {};
    }

    method UpdateEvent(h: Handle)
      requires Valid() && h.fd in handles
      modifies this`interest
      ensures Valid() && interest == old(interest)[h.fd := h.events]
    {
      interest := interest[h.fd := h.events];
    }

    method UnregistAll(h: Handle, closes: set<int>, ghost world: set<Handle>)
      requires Valid() && Within(world) && (h.fd in handles ==> handles[h.fd] == h)
      modifies this`handles, this`interest, world`revents
      ensures Valid() && Within(world) && handles == old(handles) - closes
      ensures h.revents == if h.fd in closes && h.fd in old(handles) then {} else old(h.revents)
    {
      var left := closes * handles.Keys;
      ghost var all := left;
      while left != {}
        invariant left <= all && Valid() && Within(world) && handles == old(handles) - (all - left)
        invariant h.revents == if h.fd in all - left then {} else old(h.revents)
        decreases left
      {
        HasMember(left);
        var fd :| fd in left;
        UnregistHandle(handles[fd]);
        left := left - {fd};
      }
      assert handles == old(handles) - closes;
    }

    method RegistAll(hs: seq<Handle>, ghost world: set<Handle>)
      requires Valid() && Within(world) && forall g :: g in hs ==> g in world
      modifies this`handles, this`interest
      ensures Valid() && Within(world) && handles == WithNew(old(handles), hs)
    {
      for i := 0 to |hs|
        invariant Valid() && Within(world) && WithNew(handles, hs[i..]) == WithNew(old(handles), hs)
      {
        assert hs[i..][0] == hs[i] && hs[i..][1..] == hs[i + 1..];
        if hs[i].fd !in handles {
          RegistHandle(hs[i]);
        }
      }
    }

    /** One callback, with its effect on the loop. */
    method Callback(h: Handle, e: Event, effect: Effect, ghost world: set<Handle>)
      requires Valid() && Within(world) && (forall g :: g in effect.registers ==> g in world)
      requires h.fd in handles && handles[h.fd] == h
      modifies this, world`revents
      ensures Valid() && Within(world) && calls == old(calls) + [Call(h, e)]
      ensures handles == After(old(handles), effect)
      ensures h.revents == if h.fd in effect.closes then {} else old(h.revents)
      ensures h.revents == {} || (h.fd in handles && handles[h.fd] == h)
    {
      calls := calls + [Call(h, e)];
      UnregistAll(h, effect.closes, world);
      ghost var between := handles;
      RegistAll(effect.registers, world);
      StaysWithNew(between, effect.registers);
    }

    /** One test of `handle_event`; `order` is what is still to be looked at. */
    method Check(h: Handle, e: Event, t: Turn, ghost order: seq<Event>, ghost world: set<Handle>)
      requires Valid() && Within(world) && InWorld(t, world) && h.fd == t.fd
      requires h.revents == {} || (h.fd in handles && handles[h.fd] == h)
      requires order != [] && order[0] == e
      modifies this, world`revents
      ensures Valid() && Within(world) && (h.revents == {} || (h.fd in handles && handles[h.fd] == h))
      ensures Ahead(handles, calls, h, t.(events := h.revents), order[1..])
              == Ahead(old(handles), old(calls), h, t.(events := old(h.revents)), order)
    {
      if e in h.revents {
        AheadCall(handles, calls, h, t.(events := h.revents), order);
        Callback(h, e, EffectOf(t, e), world);
      }
    }

    /** `Handle::handle_event`. */
    method HandleEvent(h: Handle, t: Turn, ghost world: set<Handle>)
      requires Valid() && Within(world) && InWorld(t, world) && h.fd == t.fd && h.revents == t.events
      requires h.fd in handles && handles[h.fd] == h
      modifies this, world`revents
      ensures Valid() && Within(world)
      ensures (calls, handles) == Ahead(old(handles), old(calls), h, t, ORDER)
    {
      ghost var o1 := ORDER[1..];
      ghost var o2 := o1[1..];
      ghost var o3 := o2[1..];
      ghost var o4 := o3[1..];
      Check(h, READ, t, ORDER, world);
      Check(h, WRITE, t, o1, world);
      Check(h, ERROR, t, o2, world);
      Check(h, MODIFY, t, o3, world);
      Check(h, CLOSE, t, o4, world);
      assert o4[1..] == [] && calls + [] == calls;
    }

    /** `ok` is false where the code asserts that a reported descriptor is registered. */
    method DoSelect(turns: seq<Turn>, ghost world: set<Handle>) returns (ok: bool)
      requires Valid() && Within(world) && forall t :: t in turns ==> InWorld(t, world)
      modifies this, world`revents
      ensures Valid()
      ensures var d := DispatchOf(old(handles), turns);
              calls == old(calls) + d.calls && handles == d.live && ok == d.ok
    {
      ok := true;
      ghost var goal := Whole(handles, calls, turns);
      var left := turns;
      while left != []
        invariant ok && Valid() && Within(world) && (forall t :: t in left ==> InWorld(t, world))
        invariant Whole(handles, calls, left) == goal
        decreases |left|
      {
        var fd := left[0].fd;
        if fd !in handles {
          WholeEnd(handles, calls, left);
          return false;
        }
        WholeStep(handles, calls, left);
        var h := handles[fd];
        h.revents := left[0].events;
        HandleEvent(h, left[0], world);
        left := left[1..];
      }
      WholeEnd(handles, calls, left);
    }
  }

  ghost predicate InWorld(t: Turn, world: set<Handle>) {
    forall e, h :: e in t.effects && h in t.effects[e].registers ==> h in world
  }

  lemma {:induction false} StaysWithNew(live: Handles, hs: seq<Handle>)
    ensures forall fd :: fd in live ==> fd in WithNew(live, hs) && WithNew(live, hs)[fd] == live[fd]
    decreases |hs|
  {
    if hs != [] {
      StaysWithNew(if hs[0].fd in live then live else live[hs[0].fd := hs[0]], hs[1..]);
    }
  }
}
