/** net/eventloop.cpp: which lookups of a dispatch succeed, and which handles it calls. */
module DispatchLaws {
  import opened Interest
  import opened EventLoops

  // ---------- What is registered after some callbacks ----------

  /** None of the callbacks unregisters the descriptor. */
  predicate Unclosed(es: seq<Effect>, fd: int) {
    forall e :: e in es ==> fd !in e.closes
  }

  predicate Registers(e: Effect, fd: int) {
    exists h :: h in e.registers && h.fd == fd
  }

  /** Callback `m` registers the descriptor, and none after it unregisters it. */
  predicate Stays(es: seq<Effect>, m: nat, fd: int)
    requires m < |es|
  {
    Registers(es[m], fd) && Unclosed(es[m + 1..], fd)
  }

  /** The descriptor was registered and none of the callbacks unregisters it, or one
      registers it and none after that unregisters it. */
  predicate Present(live: Handles, es: seq<Effect>, fd: int) {
    (fd in live && Unclosed(es, fd)) || exists m :: 0 <= m < |es| && Stays(es, m, fd)
  }

  lemma {:induction false} AfterAllAppend(live: Handles, a: seq<Effect>, b: seq<Effect>)
    ensures AfterAll(live, a + b) == AfterAll(AfterAll(live, a), b)
    decreases |a|
  {
    if a == [] {
      assert a + b == b;
    } else {
      assert (a + b)[1..] == a[1..] + b;
      AfterAllAppend(After(live, a[0]), a[1..], b);
    }
  }

  lemma AfterAllSnoc(live: Handles, es: seq<Effect>, e: Effect)
    ensures AfterAll(live, es + [e]) == After(AfterAll(live, es), e)
  {
    AfterAllAppend(live, es, [e]);
    assert AfterAll(AfterAll(live, es), [e]) == AfterAll(After(AfterAll(live, es), e), []);
  }

  lemma {:induction false} InWithNew(live: Handles, hs: seq<Handle>, fd: int)
    ensures fd in WithNew(live, hs) <==> fd in live || exists h :: h in hs && h.fd == fd
    ensures fd in WithNew(live, hs) ==>
              if fd in live then WithNew(live, hs)[fd] == live[fd] else WithNew(live, hs)[fd] in hs
    decreases |hs|
  {
    if hs != [] {
      InWithNew(if hs[0].fd in live then live else live[hs[0].fd := hs[0]], hs[1..], fd);
    }
  }

  lemma InAfter(live: Handles, e: Effect, fd: int)
    ensures fd in After(live, e) <==> (fd in live && fd !in e.closes) || Registers(e, fd)
    ensures fd in After(live, e) ==>
              if fd in live && fd !in e.closes then After(live, e)[fd] == live[fd]
              else After(live, e)[fd] in e.registers
  {
    InWithNew(live - e.closes, e.registers, fd);
  }

  lemma PresentSnoc(live: Handles, es: seq<Effect>, e: Effect, fd: int)
    ensures Present(live, es + [e], fd) <==> (Present(live, es, fd) && fd !in e.closes) || Registers(e, fd)
  {
    var all := es + [e];
    assert Unclosed(all, fd) <==> Unclosed(es, fd) && fd !in e.closes;
    forall m | 0 <= m < |es|
      ensures Stays(all, m, fd) <==> Stays(es, m, fd) && fd !in e.closes
    {
      assert all[m + 1..] == es[m + 1..] + [e];
    }
    assert Stays(all, |es|, fd) <==> Registers(e, fd);
  }

  /** A descriptor is registered after some callbacks exactly if it is `Present`; under
      it there is the handle of before exactly as long as no callback unregisters it. */
  lemma {:induction false} PresentExact(live: Handles, es: seq<Effect>, fd: int)
    ensures fd in AfterAll(live, es) <==> Present(live, es, fd)
    ensures fd in AfterAll(live, es) ==>
              if fd in live && Unclosed(es, fd) then AfterAll(live, es)[fd] == live[fd]
              else exists e :: e in es && AfterAll(live, es)[fd] in e.registers
    decreases |es|
  {
    if es == [] {
      assert Unclosed(es, fd);
    } else {
      var init, e := es[..|es| - 1], es[|es| - 1];
      assert es == init + [e];
      PresentExact(live, init, fd);
      AfterAllSnoc(live, init, e);
      InAfter(AfterAll(live, init), e, fd);
      PresentSnoc(live, init, e, fd);
      assert Unclosed(es, fd) <==> Unclosed(init, fd) && fd !in e.closes;
    }
  }

  // ---------- Lookups ----------

  /** What the callbacks of some turns do if they are all made. */
  function EffectsOf(turns: seq<Turn>): seq<Effect> {
    if turns == [] then [] else Done(turns[0], Called(turns[0], ORDER)) + EffectsOf(turns[1..])
  }

  /** The lookup of turn `j` succeeds if it is made. */
  predicate Findable(live: Handles, turns: seq<Turn>, j: nat)
    requires j < |turns|
  {
    Present(live, EffectsOf(turns[..j]), turns[j].fd)
  }

  lemma FindableExact(live: Handles, turns: seq<Turn>, j: nat)
    requires j < |turns|
    ensures Findable(live, turns, j) <==> turns[j].fd in AfterAll(live, EffectsOf(turns[..j]))
  {
    PresentExact(live, EffectsOf(turns[..j]), turns[j].fd);
  }

  /** What the first turn leaves for the later ones. */
  lemma FirstTurn(live: Handles, turns: seq<Turn>, j: nat)
    requires 0 < j <= |turns|
    ensures var next := AfterAll(live, Done(turns[0], Called(turns[0], ORDER)));
            AfterAll(live, EffectsOf(turns[..j])) == AfterAll(next, EffectsOf(turns[1..][..j - 1]))
  {
    assert turns[..j][1..] == turns[1..][..j - 1];
    AfterAllAppend(live, Done(turns[0], Called(turns[0], ORDER)), EffectsOf(turns[1..][..j - 1]));
  }

  /** Every lookup of a dispatch succeeds exactly if each reported descriptor is still
      registered, or registered again, after the callbacks of the turns before its own. */
  lemma {:induction false} LookupsSucceed(live: Handles, turns: seq<Turn>)
    ensures DispatchOf(live, turns).ok <==> forall j :: 0 <= j < |turns| ==> Findable(live, turns, j)
    decreases |turns|
  {
    if turns != [] {
      var next := AfterAll(live, Done(turns[0], Called(turns[0], ORDER)));
      LookupsSucceed(next, turns[1..]);
      FindableExact(live, turns, 0);
      assert turns[..0] == [];
      forall j | 0 < j < |turns|
        ensures Findable(live, turns, j) <==> Findable(next, turns[1..], j - 1)
      {
        FirstTurn(live, turns, j);
        FindableExact(live, turns, j);
        FindableExact(next, turns[1..], j - 1);
      }
      if forall j :: 0 <= j < |turns| ==> Findable(live, turns, j) {
        forall i | 0 <= i < |turns[1..]|
          ensures Findable(next, turns[1..], i)
        {
          assert Findable(live, turns, i + 1);
        }
      }
    }
  }

  // ---------- Calls ----------

  /** What is registered when turn `j` comes. */
  function LiveAt(live: Handles, turns: seq<Turn>, j: nat): Handles
    requires j <= |turns|
  {
    AfterAll(live, EffectsOf(turns[..j]))
  }

  /** All lookups up to the one of turn `j` succeed. */
  predicate Reached(live: Handles, turns: seq<Turn>, j: nat)
    requires j < |turns|
  {
    forall i :: 0 <= i <= j ==> Findable(live, turns, i)
  }

  lemma ReachedFirst(live: Handles, turns: seq<Turn>, j: nat)
    requires 0 < j < |turns| && turns[0].fd in live
    ensures var next := AfterAll(live, Done(turns[0], Called(turns[0], ORDER)));
            Reached(live, turns, j) <==> Reached(next, turns[1..], j - 1)
  {
    var next := AfterAll(live, Done(turns[0], Called(turns[0], ORDER)));
    FindableExact(live, turns, 0);
    assert turns[..0] == [];
    forall i | 0 < i < |turns|
      ensures Findable(live, turns, i) <==> Findable(next, turns[1..], i - 1)
    {
      FirstTurn(live, turns, i);
      FindableExact(live, turns, i);
      FindableExact(next, turns[1..], i - 1);
    }
    if Reached(live, turns, j) {
      forall i | 0 <= i <= j - 1
        ensures Findable(next, turns[1..], i)
      {
        assert Findable(live, turns, i + 1);
      }
    }
  }

  /** Turn `j` makes this call. */
  predicate Makes(live: Handles, turns: seq<Turn>, j: nat, c: Call)
    requires j < |turns|
  {
    && Reached(live, turns, j)
    && turns[j].fd in LiveAt(live, turns, j) && c.handle == LiveAt(live, turns, j)[turns[j].fd]
    && c.event in Called(turns[j], ORDER)
  }

  lemma MakesFirst(live: Handles, turns: seq<Turn>, c: Call)
    requires turns != []
    ensures Makes(live, turns, 0, c) <==>
            turns[0].fd in live && c in CallsTo(live[turns[0].fd], Called(turns[0], ORDER))
  {
    FindableExact(live, turns, 0);
    assert turns[..0] == [];
    if turns[0].fd in live {
      var called := Called(turns[0], ORDER);
      var calls := CallsTo(live[turns[0].fd], called);
      if c.handle == live[turns[0].fd] && c.event in called {
        var i :| 0 <= i < |called| && called[i] == c.event;
        assert calls[i] == c;
      }
    }
  }

  /** The calls of a dispatch are exactly those of the turns that are reached, to the
      handle that is registered by then. */
  lemma {:induction false} CallsExact(live: Handles, turns: seq<Turn>, c: Call)
    ensures c in DispatchOf(live, turns).calls <==> exists j :: 0 <= j < |turns| && Makes(live, turns, j, c)
    decreases |turns|
  {
    if turns != [] {
      MakesFirst(live, turns, c);
      if turns[0].fd in live {
        var next := AfterAll(live, Done(turns[0], Called(turns[0], ORDER)));
        CallsExact(next, turns[1..], c);
        forall j | 0 < j < |turns|
          ensures Makes(live, turns, j, c) <==> Makes(next, turns[1..], j - 1, c)
        {
          ReachedFirst(live, turns, j);
          FirstTurn(live, turns, j);
        }
        if exists i :: 0 <= i < |turns[1..]| && Makes(next, turns[1..], i, c) {
          var i :| 0 <= i < |turns[1..]| && Makes(next, turns[1..], i, c);
          assert Makes(live, turns, i + 1, c);
        }
      } else {
        NothingReached(live, turns);
      }
    }
  }

  lemma NothingReached(live: Handles, turns: seq<Turn>)
    requires turns != [] && turns[0].fd !in live
    ensures forall j :: 0 <= j < |turns| ==> !Reached(live, turns, j)
  {
    FindableExact(live, turns, 0);
    assert turns[..0] == [];
    assert !Findable(live, turns, 0);
  }

  /** A handle is called for reported events only; none follows one that unregisters the
      handle, and all of them are called unless there is one. */
  lemma {:induction false} CalledLaws(t: Turn, order: seq<Event>)
    ensures var called := Called(t, order);
            && (forall e :: e in called ==> e in order && e in t.events)
            && (forall i :: 0 <= i < |called| - 1 ==> t.fd !in EffectOf(t, called[i]).closes)
            && (called == [] || t.fd !in EffectOf(t, called[|called| - 1]).closes ==>
                  forall e :: e in order && e in t.events ==> e in called)
  {
    if order != [] {
      CalledLaws(t, order[1..]);
    }
  }

  /** The place of an event in `handle_event`. */
  function Rank(e: Event): nat {
    match e
    case READ => 0
    case WRITE => 1
    case ERROR => 2
    case MODIFY => 3
    case CLOSE => 4
  }

  ghost predicate Ranked(order: seq<Event>) {
    forall i, j :: 0 <= i < j < |order| ==> Rank(order[i]) < Rank(order[j])
  }

  /** The callback of some reported event in front of `e` unregisters the turn's handle. */
  ghost predicate ClosedBefore(t: Turn, order: seq<Event>, e: Event) {
    exists d :: d in order && d in t.events && Rank(d) < Rank(e) && t.fd in EffectOf(t, d).closes
  }

  lemma ClosedBeforeFirst(t: Turn, order: seq<Event>, e: Event)
    requires order != [] && Ranked(order) && e in order
    ensures e == order[0] ==> !ClosedBefore(t, order, e)
    ensures e in order[1..] ==> (ClosedBefore(t, order, e) <==>
              (order[0] in t.events && t.fd in EffectOf(t, order[0]).closes) || ClosedBefore(t, order[1..], e))
  {
    assert forall d :: d in order <==> d == order[0] || d in order[1..];
    assert forall d :: d in order[1..] ==> Rank(order[0]) < Rank(d);
  }

  lemma {:induction false} CalledRanked(t: Turn, order: seq<Event>)
    requires Ranked(order)
    ensures Ranked(Called(t, order))
  {
    if order != [] {
      var later := Called(t, order[1..]);
      CalledRanked(t, order[1..]);
      CalledLaws(t, order[1..]);
      forall i | 0 <= i < |later|
        ensures Rank(order[0]) < Rank(later[i])
      {
        assert later[i] in later;
      }
      RankedCons(order[0], later);
    }
  }

  lemma RankedCons(e: Event, later: seq<Event>)
    requires Ranked(later) && forall i :: 0 <= i < |later| ==> Rank(e) < Rank(later[i])
    ensures Ranked([e] + later) && Ranked([e])
  {}

  lemma {:induction false} CalledExactly(t: Turn, order: seq<Event>, e: Event)
    requires Ranked(order)
    ensures e in Called(t, order) <==> e in order && e in t.events && !ClosedBefore(t, order, e)
  {
    if order != [] && e in order {
      ClosedBeforeFirst(t, order, e);
      if e == order[0] {
        CalledLaws(t, order[1..]);
      } else {
        assert e in order[1..];
        CalledExactly(t, order[1..], e);
      }
    } else {
      CalledLaws(t, order);
    }
  }

  /** A turn calls its handle for READ, WRITE, ERROR, MODIFY and CLOSE, in this order and
      each at most once: for exactly those reported events that none of the callbacks of
      reported events in front of them has unregistered the handle. */
  lemma TurnInOrder(t: Turn, e: Event)
    ensures Ranked(Called(t, ORDER))
    ensures e in Called(t, ORDER) <==>
            && e in t.events
            && forall d :: d in t.events && Rank(d) < Rank(e) ==> t.fd !in EffectOf(t, d).closes
  {
    AllRanked();
    CalledRanked(t, ORDER);
    CalledExactly(t, ORDER, e);
  }

  lemma AllRanked()
    ensures Ranked(ORDER) && forall e :: e in ORDER
  {
    assert ORDER == [READ, WRITE, ERROR, MODIFY, CLOSE];
    forall e: Event
      ensures e in ORDER
    {
      assert ORDER[Rank(e)] == e;
    }
  }

  lemma SomeCalled(t: Turn)
    ensures Called(t, ORDER) == [] <==> t.events == {}
  {
    CalledLaws(t, ORDER);
    if t.events != {} {
      var e :| e in t.events;
      AllRanked();
      assert e in ORDER;
    } else {
      NotCalled(t, ORDER);
    }
  }

  /** The handles that callbacks register are not among those of before. */
  ghost predicate Fresh(live: Handles, turns: seq<Turn>) {
    forall e, h :: e in EffectsOf(turns) && h in e.registers ==> h !in live.Values
  }

  lemma {:induction false} EffectsPrefix(turns: seq<Turn>, j: nat)
    requires j <= |turns|
    ensures forall e :: e in EffectsOf(turns[..j]) ==> e in EffectsOf(turns)
    decreases j
  {
    if j > 0 {
      assert turns[..j][1..] == turns[1..][..j - 1];
      EffectsPrefix(turns[1..], j - 1);
    }
  }

  /** Turn `j` is reached, has an event, and its descriptor was unregistered by an earlier
      callback, or never registered before. */
  predicate CallsNew(live: Handles, turns: seq<Turn>, j: nat)
    requires j < |turns|
  {
    && Reached(live, turns, j) && turns[j].events != {}
    && !(turns[j].fd in live && Unclosed(EffectsOf(turns[..j]), turns[j].fd))
  }

  /** A dispatch calls a handle registered since the events were reported exactly if an
      earlier callback unregisters a descriptor reported behind its own and, before its
      turn, one registers it again (for descriptors that were registered when they were
      reported, as every backend's are). */
  lemma NewHandleCalled(live: Handles, turns: seq<Turn>)
    requires Fresh(live, turns)
    ensures (exists c :: c in DispatchOf(live, turns).calls && c.handle !in live.Values)
            <==> exists j :: 0 <= j < |turns| && CallsNew(live, turns, j)
  {
    forall c, j | 0 <= j < |turns| && Makes(live, turns, j, c)
      ensures c.handle !in live.Values <==> CallsNew(live, turns, j)
    {
      WhoIsCalled(live, turns, j, c);
    }
    if exists j :: 0 <= j < |turns| && CallsNew(live, turns, j) {
      var j :| 0 <= j < |turns| && CallsNew(live, turns, j);
      var c := FirstCall(live, turns, j);
      CallsExact(live, turns, c);
    }
    if exists c :: c in DispatchOf(live, turns).calls && c.handle !in live.Values {
      var c :| c in DispatchOf(live, turns).calls && c.handle !in live.Values;
      CallsExact(live, turns, c);
      var j :| 0 <= j < |turns| && Makes(live, turns, j, c);
      assert CallsNew(live, turns, j);
    }
  }

  lemma WhoIsCalled(live: Handles, turns: seq<Turn>, j: nat, c: Call)
    requires j < |turns| && Fresh(live, turns) && Makes(live, turns, j, c)
    ensures c.handle !in live.Values <==> CallsNew(live, turns, j)
  {
    PresentExact(live, EffectsOf(turns[..j]), turns[j].fd);
    EffectsPrefix(turns, j);
    CalledLaws(turns[j], ORDER);
  }

  lemma FirstCall(live: Handles, turns: seq<Turn>, j: nat) returns (c: Call)
    requires j < |turns| && CallsNew(live, turns, j)
    ensures Makes(live, turns, j, c)
  {
    FindableExact(live, turns, j);
    SomeCalled(turns[j]);
    c := Call(LiveAt(live, turns, j)[turns[j].fd], Called(turns[j], ORDER)[0]);
  }

  /** Every callback unregisters at most its own handle. */
  predicate OwnOnly(turns: seq<Turn>) {
    forall t, e :: t in turns && e in t.effects ==> t.effects[e].closes <= {t.fd}
  }

  predicate DistinctTurns(turns: seq<Turn>) {
    forall i, j :: 0 <= i < j < |turns| ==> turns[i].fd != turns[j].fd
  }

  lemma {:induction false} OwnEffects(turns: seq<Turn>, fd: int)
    requires OwnOnly(turns) && forall t :: t in turns ==> t.fd != fd
    ensures Unclosed(EffectsOf(turns), fd)
  {
    if turns != [] {
      OwnEffects(turns[1..], fd);
      forall e | e in Done(turns[0], Called(turns[0], ORDER))
        ensures fd !in e.closes
      {
        var i :| 0 <= i < |Called(turns[0], ORDER)| && EffectOf(turns[0], Called(turns[0], ORDER)[i]) == e;
      }
    }
  }

  /** If callbacks unregister only their own handles, and the backend reports registered
      descriptors, each once, every lookup succeeds and no new handle is called. */
  lemma OwnOnlyIsSafe(live: Handles, turns: seq<Turn>)
    requires OwnOnly(turns) && DistinctTurns(turns) && Fresh(live, turns)
    requires forall t :: t in turns ==> t.fd in live
    ensures DispatchOf(live, turns).ok
    ensures forall c :: c in DispatchOf(live, turns).calls ==> c.handle in live.Values
  {
    forall j | 0 <= j < |turns|
      ensures turns[j].fd in live && Unclosed(EffectsOf(turns[..j]), turns[j].fd) && Findable(live, turns, j)
    {
      OwnEffects(turns[..j], turns[j].fd);
    }
    LookupsSucceed(live, turns);
    NewHandleCalled(live, turns);
  }

  // ---------- Calls and registration ----------

  /** Every call is of the handle that is registered under its descriptor at that moment,
      which is after the effects of the calls before. */
  ghost predicate CalledWhileRegistered(live: Handles, calls: seq<Call>, es: seq<Effect>) {
    |calls| <= |es| && forall n :: 0 <= n < |calls| ==> RegisteredAt(live, calls[n].handle, es[..n])
  }

  predicate RegisteredAt(live: Handles, h: Handle, es: seq<Effect>) {
    h.fd in AfterAll(live, es) && AfterAll(live, es)[h.fd] == h
  }

  lemma OneTurnRegistered(live: Handles, t: Turn)
    requires OwnNumbers(live) && t.fd in live
    ensures var called := Called(t, ORDER);
            CalledWhileRegistered(live, CallsTo(live[t.fd], called), Done(t, called))
  {
    var called := Called(t, ORDER);
    var es := Done(t, called);
    CalledLaws(t, ORDER);
    forall n | 0 <= n < |called|
      ensures RegisteredAt(live, live[t.fd], es[..n])
    {
      assert Unclosed(es[..n], t.fd);
      PresentExact(live, es[..n], t.fd);
    }
  }

  /** So no callback of a handle runs after it was unregistered, by itself or by another
      one, whatever is registered in between. */
  lemma {:induction false} NoCallAfterUnregister(live: Handles, turns: seq<Turn>)
    requires OwnNumbers(live)
    ensures CalledWhileRegistered(live, DispatchOf(live, turns).calls, EffectsOf(turns))
    decreases |turns|
  {
    if turns != [] && turns[0].fd in live {
      var called := Called(turns[0], ORDER);
      var first, es := CallsTo(live[turns[0].fd], called), Done(turns[0], called);
      var next := AfterAll(live, es);
      OneTurnRegistered(live, turns[0]);
      OwnAfterAll(live, es);
      NoCallAfterUnregister(next, turns[1..]);
      RegisteredAppend(live, first, es, DispatchOf(next, turns[1..]).calls, EffectsOf(turns[1..]));
    }
  }

  lemma RegisteredAppend(live: Handles, a: seq<Call>, es: seq<Effect>, b: seq<Call>, fs: seq<Effect>)
    requires |a| == |es| && CalledWhileRegistered(live, a, es) && CalledWhileRegistered(AfterAll(live, es), b, fs)
    ensures CalledWhileRegistered(live, a + b, es + fs)
  {
    forall n | 0 <= n < |a + b|
      ensures RegisteredAt(live, (a + b)[n].handle, (es + fs)[..n])
    {
      if n < |a| {
        assert (es + fs)[..n] == es[..n];
      } else {
        assert (es + fs)[..n] == es + fs[..n - |a|];
        AfterAllAppend(live, es, fs[..n - |a|]);
        assert RegisteredAt(AfterAll(live, es), b[n - |a|].handle, fs[..n - |a|]);
      }
    }
  }

  lemma {:induction false} OwnWithNew(live: Handles, hs: seq<Handle>)
    requires OwnNumbers(live)
    ensures OwnNumbers(WithNew(live, hs))
    decreases |hs|
  {
    if hs != [] {
      OwnWithNew(if hs[0].fd in live then live else live[hs[0].fd := hs[0]], hs[1..]);
    }
  }

  lemma {:induction false} OwnAfterAll(live: Handles, es: seq<Effect>)
    requires OwnNumbers(live)
    ensures OwnNumbers(AfterAll(live, es))
    decreases |es|
  {
    if es != [] {
      OwnWithNew(live - es[0].closes, es[0].registers);
      OwnAfterAll(After(live, es[0]), es[1..]);
    }
  }

  /** The callback of `a` closes `b`, whose descriptor is used again at once: the new
      handle gets the event that was reported for `b`. */
  lemma StaleEvent(a: Handle, b: Handle, c: Handle)
    requires a.fd != b.fd == c.fd && c != a && c != b
    ensures var live := map[a.fd := a, b.fd := b];
            var turns := [Turn(a.fd, {READ}, map[READ := Effect({b.fd}, [c])]), Turn(b.fd, {READ}, map[])];
            DispatchOf(live, turns).ok && exists d :: d in DispatchOf(live, turns).calls && d.handle == c
  {
    var live := map[a.fd := a, b.fd := b];
    var t, e := Turn(a.fd, {READ}, map[READ := Effect({b.fd}, [c])]), Effect({b.fd}, [c]);
    var turns := [t, Turn(b.fd, {READ}, map[])];
    OnlyRead(t);
    OnlyRead(turns[1]);
    assert turns[1..] == [turns[1]] && turns[1..][1..] == [] && turns[..0] == [] && turns[..1] == [t];
    assert Done(t, [READ]) == [e];
    assert EffectsOf([t]) == [e] + EffectsOf([]);
    assert EffectsOf(turns[..1]) == [e];
    assert Stays([e], 0, b.fd);
    forall j | 0 <= j < 2
      ensures Findable(live, turns, j)
    {}
    LookupsSucceed(live, turns);
    PresentExact(live, [e], b.fd);
    assert LiveAt(live, turns, 1)[b.fd] == c;
    CallsExact(live, turns, Call(c, READ));
    assert Makes(live, turns, 1, Call(c, READ));
  }

  lemma OnlyRead(t: Turn)
    requires t.events == {READ} && (READ in t.effects ==> t.fd !in t.effects[READ].closes)
    ensures Called(t, ORDER) == [READ]
  {
    NotCalled(t, ORDER[1..]);
  }
}
