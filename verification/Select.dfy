/** net/select.cpp: descriptor sets for select(2), a vector of the registered
    descriptors, the map of their positions and the greatest of them. */
module SelectBackend {
  import opened Sequences
  import opened Interest

  const SELECTED: Mask := {READ, WRITE, ERROR}

  /** The events of the sets that a descriptor is in. */
  function Events(fd: int, rfds: set<int>, wfds: set<int>, efds: set<int>): Mask {
    (if fd in rfds then {READ} else {}) + (if fd in wfds then {WRITE} else {}) + (if fd in efds then {ERROR} else {})
  }

  /** What the sets say of some descriptors. */
  function InSets(fds: set<int>, r: set<int>, w: set<int>, e: set<int>): Interests {
    map fd | fd in fds :: Events(fd, r, w, e)
  }

  /** What the sets say of the registered descriptors, and of others: `update_event` sets
      bits of descriptors that are not registered as well. */
  datatype State = State(interests: Interests, stray: Interests)

  function StateOf(fds: set<int>, r: set<int>, w: set<int>, e: set<int>): State {
    State(InSets(fds, r, w, e), InSets((r + w + e) - fds, r, w, e))
  }

  function StrayOf(s: State, fd: int): Mask {
    if fd in s.stray then s.stray[fd] else {}
  }

  predicate Allowed(s: State, op: Op) {
    match op
    case Add(fd, _) => fd >= 0 && fd !in s.interests
    case Update(fd, _) => fd >= 0
    case Remove(fd) => fd in s.interests
  }

  /** Bits left behind count when their descriptor is registered. */
  function Effect(s: State, op: Op): State {
    match op
    case Add(fd, e) => State(s.interests[fd := e * SELECTED + StrayOf(s, fd)], s.stray - {fd})
    case Update(fd, e) =>
      if fd in s.interests then State(s.interests[fd := e * SELECTED], s.stray)
      else if e * SELECTED == {} then State(s.interests, s.stray - {fd})
      else State(s.interests, s.stray[fd := e * SELECTED])
    case Remove(fd) => State(s.interests - {fd}, s.stray)
  }

  predicate AllowedRun(s: State, ops: seq<Op>)
    decreases |ops|
  {
    ops == [] || (Allowed(s, ops[0]) && AllowedRun(Effect(s, ops[0]), ops[1..]))
  }

  function EffectAll(s: State, ops: seq<Op>): State
    decreases |ops|
  {
    if ops == [] then s else EffectAll(Effect(s, ops[0]), ops[1..])
  }

  /** Registering a descriptor gives it the requested interest exactly if no other bit
      was left behind. */
  lemma AddExact(s: State, fd: int, e: Mask)
    ensures Effect(s, Add(fd, e)).interests[fd] == e * SELECTED <==> StrayOf(s, fd) <= e * SELECTED
  {}

  /** As long as only registered descriptors are updated, as the other backends assert,
      there are no such bits, and the sets hold exactly the last interest given. */
  lemma {:induction false} LegalRunsAreClean(m: Interests, ops: seq<Op>)
    requires LegalRun(m, ops) && forall fd :: fd in m ==> fd >= 0
    ensures var s := State(Restrict(m, SELECTED), map[]);
            AllowedRun(s, ops) && EffectAll(s, ops) == State(Restrict(ApplyAll(m, ops), SELECTED), map[])
    decreases |ops|
  {
    if ops != [] {
      var s := State(Restrict(m, SELECTED), map[]);
      RestrictApply(m, ops[0], SELECTED);
      var next := Effect(s, ops[0]);
      SameInterests(next.stray, map[]);
      SameInterests(next.interests, Restrict(Apply(m, ops[0]), SELECTED));
      LegalRunsAreClean(Apply(m, ops[0]), ops[1..]);
    }
  }

  /** The sets changed at one descriptor. */
  predicate Changed(fd: int, events: Mask, r: set<int>, w: set<int>, e: set<int>,
                    r': set<int>, w': set<int>, e': set<int>) {
    && r' == (if READ in events then r + {fd} else r - {fd})
    && w' == (if WRITE in events then w + {fd} else w - {fd})
    && e' == (if ERROR in events then e + {fd} else e - {fd})
  }

  lemma ChangedEvents(fd: int, events: Mask, r: set<int>, w: set<int>, e: set<int>,
                      r': set<int>, w': set<int>, e': set<int>)
    requires Changed(fd, events, r, w, e, r', w', e')
    ensures Events(fd, r', w', e') == events * SELECTED
    ensures forall g :: g != fd ==> Events(g, r', w', e') == Events(g, r, w, e)
  {}

  lemma StateUpdated(fds: set<int>, fd: int, events: Mask, r: set<int>, w: set<int>, e: set<int>,
                     r': set<int>, w': set<int>, e': set<int>)
    requires Changed(fd, events, r, w, e, r', w', e')
    ensures StateOf(fds, r', w', e') == Effect(StateOf(fds, r, w, e), Update(fd, events))
  {
    ChangedEvents(fd, events, r, w, e, r', w', e');
    var s, t := Effect(StateOf(fds, r, w, e), Update(fd, events)), StateOf(fds, r', w', e');
    SameInterests(s.interests, t.interests);
    SameInterests(s.stray, t.stray);
  }

  /** Bits set at one descriptor. */
  predicate Grown(fd: int, events: Mask, r: set<int>, w: set<int>, e: set<int>,
                  r': set<int>, w': set<int>, e': set<int>) {
    && r' == (if READ in events then r + {fd} else r)
    && w' == (if WRITE in events then w + {fd} else w)
    && e' == (if ERROR in events then e + {fd} else e)
  }

  lemma GrownEvents(fd: int, events: Mask, r: set<int>, w: set<int>, e: set<int>,
                    r': set<int>, w': set<int>, e': set<int>)
    requires Grown(fd, events, r, w, e, r', w', e')
    ensures Events(fd, r', w', e') == events * SELECTED + Events(fd, r, w, e)
    ensures forall g :: g != fd ==> Events(g, r', w', e') == Events(g, r, w, e)
    ensures (r' + w' + e') - {fd} == (r + w + e) - {fd}
  {}

  lemma StateAdded(fds: set<int>, fd: int, events: Mask, r: set<int>, w: set<int>, e: set<int>,
                   r': set<int>, w': set<int>, e': set<int>)
    requires fd !in fds && Grown(fd, events, r, w, e, r', w', e')
    ensures StateOf(fds + {fd}, r', w', e') == Effect(StateOf(fds, r, w, e), Add(fd, events))
  {
    GrownEvents(fd, events, r, w, e, r', w', e');
    var s, t := Effect(StateOf(fds, r, w, e), Add(fd, events)), StateOf(fds + {fd}, r', w', e');
    assert StrayOf(StateOf(fds, r, w, e), fd) == Events(fd, r, w, e);
    SameInterests(s.interests, t.interests);
    assert (r' + w' + e') - (fds + {fd}) == ((r + w + e) - fds) - {fd};
    SameInterests(s.stray, t.stray);
  }

  lemma StateRemoved(fds: set<int>, fd: int, r: set<int>, w: set<int>, e: set<int>,
                     r': set<int>, w': set<int>, e': set<int>)
    requires fd in fds && Changed(fd, {}, r, w, e, r', w', e')
    ensures StateOf(fds - {fd}, r', w', e') == Effect(StateOf(fds, r, w, e), Remove(fd))
  {
    ChangedEvents(fd, {}, r, w, e, r', w', e');
    var s, t := Effect(StateOf(fds, r, w, e), Remove(fd)), StateOf(fds - {fd}, r', w', e');
    SameInterests(s.interests, t.interests);
    SameInterests(s.stray, t.stray);
  }

  /** `update_fd` on one descriptor set. */
  function UpdatedSet(fds: set<int>, fd: int, events: Mask, e: Event): set<int> {
    if fd in fds then (if e !in events then fds - {fd} else fds)
    else if e in events then fds + {fd}
    else fds
  }

  ghost predicate IsMax(fds: set<int>, m: int) {
    if fds == {} then m == 0 else m in fds && forall fd :: fd in fds ==> fd <= m
  }

  class Select {
    var readFds: set<int>
    var writeFds: set<int>
    var errorFds: set<int>
    var allFds: seq<int>
    var handles: map<int, int>
    var maxFds: int

    /** `maxFds` is the greatest registered descriptor, 0 when there is none. */
    ghost predicate Valid()
      reads this
    {
      && Inverse(allFds, handles)
      && (forall fd :: fd in handles ==> fd >= 0) && IsMax(handles.Keys, maxFds)
    }

    ghost function Value(): State
      reads this
    {
      StateOf(handles.Keys, readFds, writeFds, errorFds)
    }

    constructor ()
      ensures Valid() && Value() == State(map[], map[])
    {
      readFds, writeFds, errorFds, allFds, handles, maxFds := {}, {}, {}, [], map[], 0;
    }

    method AddHandle(fd: int, events: Mask)
      requires Valid() && fd !in handles && fd >= 0
      modifies this
      ensures Valid() && Value() == Effect(old(Value()), Add(fd, events))
    {
      ghost var fds, r, w, e := handles.Keys, readFds, writeFds, errorFds;
      AddIndex(fd);
      AddBits(fd, events);
      StateAdded(fds, fd, events, r, w, e, readFds, writeFds, errorFds);
    }

    method AddIndex(fd: int)
      requires Inverse(allFds, handles) && IsMax(handles.Keys, maxFds) && fd !in handles && fd >= 0
      requires forall g :: g in handles ==> g >= 0
      modifies this`allFds, this`handles, this`maxFds
      ensures Inverse(allFds, handles) && IsMax(handles.Keys, maxFds) && handles.Keys == old(handles).Keys + {fd}
    {
      if fd > maxFds {
        maxFds := fd;
      }
      allFds := allFds + [fd];
      handles := handles[fd := |allFds| - 1];
      assert fd in handles.Keys && maxFds in handles.Keys;
    }

    method AddBits(fd: int, events: Mask)
      modifies this`readFds, this`writeFds, this`errorFds
      ensures readFds == if READ in events then old(readFds) + {fd} else old(readFds)
      ensures writeFds == if WRITE in events then old(writeFds) + {fd} else old(writeFds)
      ensures errorFds == if ERROR in events then old(errorFds) + {fd} else old(errorFds)
    {
      if READ in events {
        readFds := readFds + {fd};
      }
      if WRITE in events {
        writeFds := writeFds + {fd};
      }
      if ERROR in events {
        errorFds := errorFds + {fd};
      }
    }

    /** Does not ask whether the descriptor is registered. */
    method UpdateEvent(fd: int, events: Mask)
      requires Valid()
      modifies this`readFds, this`writeFds, this`errorFds
      ensures Valid() && Value() == Effect(old(Value()), Update(fd, events))
    {
      ghost var r, w, e := readFds, writeFds, errorFds;
      UpdateSets(fd, events);
      StateUpdated(handles.Keys, fd, events, r, w, e, readFds, writeFds, errorFds);
    }

    method RmHandle(fd: int)
      requires Valid() && fd in handles
      modifies this
      ensures Valid() && Value() == Effect(old(Value()), Remove(fd))
    {
      ghost var fds, r, w, e := handles.Keys, readFds, writeFds, errorFds;
      RmIndex(fd);
      UpdateSets(fd, {});
      StateRemoved(fds, fd, r, w, e, readFds, writeFds, errorFds);
      if allFds == [] {
        maxFds := 0;
        NoKeys(handles);
      } else if fd == maxFds {
        assert allFds[0] in handles.Keys;
        LeastAndGreatest(handles.Keys);
        var last :| last in handles.Keys && forall g :: g in handles.Keys ==> g <= last;
        maxFds := last;
      } else {
        assert maxFds in handles.Keys;
      }
    }

    /** The swap-remove of the vector and its index map. */
    method RmIndex(fd: int)
      requires Inverse(allFds, handles) && fd in handles
      modifies this`allFds, this`handles
      ensures Inverse(allFds, handles) && handles.Keys == old(handles).Keys - {fd}
    {
      var idx := handles[fd];
      ghost var before, index := allFds, handles;
      SwapRemoveInverse(before, index, fd);
      if |allFds| > 1 && idx != |allFds| - 1 {
        var last := allFds[|allFds| - 1];
        handles := handles[last := idx];
        allFds := allFds[idx := last];
      }
      allFds := allFds[..|allFds| - 1];
      handles := handles - {fd};
      assert allFds == SwapRemove(before, idx);
      assert handles == index[before[|before| - 1] := idx] - {fd};
    }

    method UpdateSets(fd: int, events: Mask)
      modifies this`readFds, this`writeFds, this`errorFds
      ensures readFds == if READ in events then old(readFds) + {fd} else old(readFds) - {fd}
      ensures writeFds == if WRITE in events then old(writeFds) + {fd} else old(writeFds) - {fd}
      ensures errorFds == if ERROR in events then old(errorFds) + {fd} else old(errorFds) - {fd}
    {
      readFds := UpdatedSet(readFds, fd, events, READ);
      writeFds := UpdatedSet(writeFds, fd, events, WRITE);
      errorFds := UpdatedSet(errorFds, fd, events, ERROR);
    }

    /** Over any run of operations that its own assertions allow, the sets hold what
        `EffectAll` says. */
    method Replay(ops: seq<Op>)
      requires Valid() && AllowedRun(Value(), ops)
      modifies this
      ensures Valid() && Value() == EffectAll(old(Value()), ops)
    {
      for i := 0 to |ops|
        invariant Valid() && AllowedRun(Value(), ops[i..])
        invariant EffectAll(Value(), ops[i..]) == EffectAll(old(Value()), ops)
      {
        assert Value().interests.Keys == handles.Keys;
        match ops[i] {
          case Add(fd, e) => AddHandle(fd, e);
          case Update(fd, e) => UpdateEvent(fd, e);
          case Remove(fd) => RmHandle(fd);
        }
      }
    }

    /** The scan after select(2) has returned its three sets. */
    method Scan(rfds: set<int>, wfds: set<int>, efds: set<int>) returns (active: seq<Report>)
      ensures exists at :: Finds(allFds, |allFds|, rfds, wfds, efds, at, active)
      ensures Valid() ==> Distinct(active)
    {
      active := [];
      ghost var at: seq<nat> := [];
      for i := 0 to |allFds|
        invariant Finds(allFds, i, rfds, wfds, efds, at, active)
      {
        var revents := Events(allFds[i], rfds, wfds, efds);
        FindsStep(allFds, i, rfds, wfds, efds, at, active);
        if revents != {} {
          active := active + [Report(allFds[i], revents)];
          at := at + [i];
        }
      }
      if Valid() {
        AllDifferent(allFds, handles);
      }
    }
  }

  lemma AllDifferent(fds: seq<int>, index: map<int, int>)
    requires Inverse(fds, index)
    ensures forall i, j :: 0 <= i < j < |fds| ==> fds[i] != fds[j]
  {}

  lemma NoKeys(index: map<int, int>)
    requires Inverse([], index)
    ensures index.Keys == {}
  {
    assert forall fd :: fd !in index;
  }

  /** One report for each of the first `n` descriptors that is in one of the sets, at the
      positions `at`, in order, with exactly the events of its sets, and none for others. */
  ghost predicate Finds(fds: seq<int>, n: nat, rfds: set<int>, wfds: set<int>, efds: set<int>,
                        at: seq<nat>, active: seq<Report>)
    requires n <= |fds|
  {
    && |active| == |at|
    && (forall k :: 0 <= k < |at| ==> at[k] < n)
    && (forall j, k :: 0 <= j < k < |at| ==> at[j] < at[k])
    && (forall i :: 0 <= i < n ==> (i in at <==> fds[i] in rfds + wfds + efds))
    && forall k :: 0 <= k < |at| ==> active[k].fd == fds[at[k]] && Says(rfds, wfds, efds, active[k])
  }

  /** A report has exactly the events of the sets that its descriptor is in. */
  predicate Says(rfds: set<int>, wfds: set<int>, efds: set<int>, r: Report) {
    && (READ in r.events <==> r.fd in rfds) && (WRITE in r.events <==> r.fd in wfds)
    && (ERROR in r.events <==> r.fd in efds) && MODIFY !in r.events && CLOSE !in r.events
  }

  lemma EventsExact(fd: int, rfds: set<int>, wfds: set<int>, efds: set<int>)
    ensures Says(rfds, wfds, efds, Report(fd, Events(fd, rfds, wfds, efds)))
    ensures Events(fd, rfds, wfds, efds) != {} <==> fd in rfds + wfds + efds
  {}

  lemma FindsStep(fds: seq<int>, n: nat, rfds: set<int>, wfds: set<int>, efds: set<int>,
                  at: seq<nat>, active: seq<Report>)
    requires n < |fds| && Finds(fds, n, rfds, wfds, efds, at, active)
    ensures var e := Events(fds[n], rfds, wfds, efds);
            if e == {} then Finds(fds, n + 1, rfds, wfds, efds, at, active)
            else Finds(fds, n + 1, rfds, wfds, efds, at + [n], active + [Report(fds[n], e)])
  {
    EventsExact(fds[n], rfds, wfds, efds);
  }
}
