/** net/kqueue.cpp: the backend that tells the kernel only what changes. */
module KqueueBackend {
  import opened Interest

  datatype Flag = ADD | ENABLE | DISABLE | DELETE | CLEAR

  /** What the kernel has of one filter of one descriptor; `clear` says that an event is
      reported once and not for as long as it lasts. */
  datatype Status = Absent | Disabled(clear: bool) | Enabled(clear: bool)

  type Kernel = map<(int, Event), Status>

  /** The events that have a filter. */
  const FILTERS: Mask := {READ, WRITE, MODIFY}

  function StatusOf(k: Kernel, fd: int, f: Event): Status {
    if (fd, f) in k then k[(fd, f)] else Absent
  }

  /** One change of the kernel's list: what is absent can only be added, and adding
      enables unless it is told to disable. A filter is cleared once it was told to be. */
  function Change(s: Status, flags: set<Flag>): Status {
    var clear := CLEAR in flags || (!s.Absent? && s.clear);
    if ADD in flags then (if DISABLE in flags then Disabled(clear) else Enabled(clear))
    else if s == Absent || DELETE in flags then Absent
    else if ENABLE in flags then Enabled(clear)
    else if DISABLE in flags then Disabled(clear)
    else s
  }

  predicate Refused(s: Status, flags: set<Flag>) {
    s == Absent && ADD !in flags
  }

  predicate Cleared(s: Status) {
    !s.Absent? ==> s.clear
  }

  class Kqueue {
    var kernel: Kernel
    var revents: Interests
    var enableEvents: Interests
    var nEvents: int

    /** What the kernel has enabled is exactly the last interest given, it has every filter
        of an interest ever given to a registered descriptor, and all are to be cleared. */
    ghost predicate Valid()
      reads this
    {
      && revents.Keys == enableEvents.Keys && nEvents == |revents|
      && (forall fd :: fd in revents ==> revents[fd] <= enableEvents[fd])
      && (forall fd, f {:trigger StatusOf(kernel, fd, f)} ::
            && (StatusOf(kernel, fd, f).Enabled? <==> fd in revents && f in revents[fd] && f in FILTERS)
            && (fd in revents && f in enableEvents[fd] && f in FILTERS ==> StatusOf(kernel, fd, f) != Absent)
            && Cleared(StatusOf(kernel, fd, f)))
    }

    constructor ()
      ensures Valid() && revents == map[]
    {
      kernel, revents, enableEvents, nEvents := map[], map[], map[], 0;
    }

    /** One change of one filter; `ok` is false where the kernel refuses it. */
    method Kevent(fd: int, f: Event, flags: set<Flag>) returns (ok: bool)
      modifies this`kernel
      ensures ok == !Refused(StatusOf(old(kernel), fd, f), flags)
      ensures forall g, h {:trigger StatusOf(kernel, g, h)} :: StatusOf(kernel, g, h) ==
                if g == fd && h == f then Change(StatusOf(old(kernel), g, h), flags) else StatusOf(old(kernel), g, h)
    {
      ok := !Refused(StatusOf(kernel, fd, f), flags);
      kernel := kernel[(fd, f) := Change(StatusOf(kernel, fd, f), flags)];
    }

    /** One change for every event of `e` that has a filter; `ok` is false where
        the code asserts that the kernel accepts it. */
    method SetKevent(fd: int, e: Mask, flags: set<Flag>) returns (ok: bool)
      modifies this`kernel
      ensures ok <==> forall f :: f in e * FILTERS ==> !Refused(StatusOf(old(kernel), fd, f), flags)
      ensures forall g, h {:trigger StatusOf(kernel, g, h)} :: StatusOf(kernel, g, h) ==
                if g == fd && h in e * FILTERS then Change(StatusOf(old(kernel), g, h), flags)
                else StatusOf(old(kernel), g, h)
    {
      var read, write, modified := true, true, true;
      if READ in e {
        read := Kevent(fd, READ, flags);
      }
      if WRITE in e {
        write := Kevent(fd, WRITE, flags);
      }
      if MODIFY in e {
        modified := Kevent(fd, MODIFY, flags);
      }
      ok := read && write && modified;
      assert forall f :: f in e * FILTERS <==> f in e && (f == READ || f == WRITE || f == MODIFY);
      if !read {
        assert READ in e * FILTERS;
      } else if !write {
        assert WRITE in e * FILTERS;
      } else if !modified {
        assert MODIFY in e * FILTERS;
      }
    }

    /** `ok` says that every change was accepted; it always is. */
    method AddHandle(fd: int, e: Mask) returns (ok: bool)
      requires Valid() && fd !in revents
      modifies this
      ensures ok && Valid() && revents == old(revents)[fd := e]
    {
      ok := SetKevent(fd, e, {ADD, ENABLE, CLEAR});
      nEvents := nEvents + 1;
      revents := revents[fd := e];
      enableEvents := enableEvents[fd := e];
    }

    /** Enables or disables one filter if its interest changed, adding it the first time. */
    method CheckAndSetEvent(fd: int, e: Mask, re: Mask, enableE: Mask, check: Event) returns (ok: bool)
      requires check in FILTERS && re <= enableE
      requires check in enableE ==> StatusOf(kernel, fd, check) != Absent
      requires (StatusOf(kernel, fd, check).Enabled? <==> check in re) && Cleared(StatusOf(kernel, fd, check))
      modifies this`kernel
      ensures ok
      ensures (StatusOf(kernel, fd, check).Enabled? <==> check in e) && Cleared(StatusOf(kernel, fd, check))
      ensures check in enableE ==> StatusOf(kernel, fd, check) != Absent
      ensures forall g, h {:trigger StatusOf(kernel, g, h)} ::
                g != fd || h != check ==> StatusOf(kernel, g, h) == StatusOf(old(kernel), g, h)
    {
      ok := true;
      var flags: set<Flag> := {};
      if check !in enableE {
        flags := {ADD};
      }
      assert forall f :: f in {check} * FILTERS <==> f == check;
      if check in e && check !in re {
        ok := SetKevent(fd, {check}, flags + {ENABLE, CLEAR});
      } else if check !in e && check in re {
        ok := SetKevent(fd, {check}, flags + {DISABLE, CLEAR});
      }
    }

    method CheckAll(fd: int, e: Mask, re: Mask, enableE: Mask) returns (ok: bool)
      requires re <= enableE
      requires forall f {:trigger StatusOf(kernel, fd, f)} :: f in FILTERS ==>
                 && (f in enableE ==> StatusOf(kernel, fd, f) != Absent)
                 && (StatusOf(kernel, fd, f).Enabled? <==> f in re) && Cleared(StatusOf(kernel, fd, f))
      modifies this`kernel
      ensures ok
      ensures forall f {:trigger StatusOf(kernel, fd, f)} :: f in FILTERS ==>
                 && (f in enableE + e ==> StatusOf(kernel, fd, f) != Absent)
                 && (StatusOf(kernel, fd, f).Enabled? <==> f in e) && Cleared(StatusOf(kernel, fd, f))
      ensures forall g, f {:trigger StatusOf(kernel, g, f)} ::
                g != fd || f !in FILTERS ==> StatusOf(kernel, g, f) == StatusOf(old(kernel), g, f)
    {
      var ok1 := CheckAndSetEvent(fd, e, re, enableE, READ);
      var ok2 := CheckAndSetEvent(fd, e, re, enableE, WRITE);
      var ok3 := CheckAndSetEvent(fd, e, re, enableE, MODIFY);
      ok := ok1 && ok2 && ok3;
    }

    method UpdateEvent(fd: int, e: Mask) returns (ok: bool)
      requires Valid() && fd in revents
      modifies this
      ensures ok && Valid() && revents == old(revents)[fd := e]
    {
      ok := CheckAll(fd, e, revents[fd], enableEvents[fd]);
      revents := revents[fd := e];
      enableEvents := enableEvents[fd := enableEvents[fd] + e];
    }

    /** Deletes the enabled filters only; disabled ones stay with the descriptor. */
    method RmHandle(fd: int) returns (ok: bool)
      requires Valid() && fd in revents
      modifies this
      ensures ok && Valid() && revents == old(revents) - {fd}
      ensures forall g, f {:trigger StatusOf(kernel, g, f)} :: StatusOf(kernel, g, f) ==
                if g == fd && StatusOf(old(kernel), g, f).Enabled? then Absent else StatusOf(old(kernel), g, f)
    {
      ok := SetKevent(fd, revents[fd], {DELETE});
      revents := revents - {fd};
      enableEvents := enableEvents - {fd};
      nEvents := nEvents - 1;
    }

    /** Over any run of operations the code's own assertions allow, the kernel
        accepts every change and has enabled exactly the last interest given. */
    method Replay(ops: seq<Op>) returns (ok: bool)
      requires Valid() && LegalRun(revents, ops)
      modifies this
      ensures ok && Valid() && revents == ApplyAll(old(revents), ops)
    {
      ok := true;
      for i := 0 to |ops|
        invariant ok && Valid() && LegalRun(revents, ops[i..])
        invariant ApplyAll(revents, ops[i..]) == ApplyAll(old(revents), ops)
      {
        match ops[i] {
          case Add(fd, e) => ok := AddHandle(fd, e);
          case Update(fd, e) => ok := UpdateEvent(fd, e);
          case Remove(fd) => ok := RmHandle(fd);
        }
      }
    }
  }

  // ---------- Merging what the kernel reports ----------

  datatype Filter = EVFILT_READ | EVFILT_WRITE | EVFILT_VNODE

  datatype Note = NOTE_DELETE | NOTE_WRITE | NOTE_RENAME

  /** One event that the kernel returns: `error` is its error flag. */
  datatype KEvent = KEvent(ident: int, filter: Filter, error: bool, notes: set<Note>)

  function FromKqueueEvent(filter: Filter, error: bool, notes: set<Note>): Mask {
    var e: Mask :=
      match filter
      case EVFILT_READ => {READ}
      case EVFILT_WRITE => {WRITE}
      case EVFILT_VNODE =>
        (if NOTE_RENAME in notes || NOTE_WRITE in notes then {MODIFY} else {})
        + (if NOTE_DELETE in notes then {CLOSE} else {});
    e + if error then {ERROR} else {}
  }

  /** The returned event says that `e` happened on its descriptor. */
  predicate Tells(k: KEvent, e: Event) {
    match e
    case READ => k.filter == EVFILT_READ
    case WRITE => k.filter == EVFILT_WRITE
    case MODIFY => k.filter == EVFILT_VNODE && (NOTE_WRITE in k.notes || NOTE_RENAME in k.notes)
    case CLOSE => k.filter == EVFILT_VNODE && NOTE_DELETE in k.notes
    case ERROR => k.error
  }

  lemma EventExact(k: KEvent, e: Event)
    ensures e in FromKqueueEvent(k.filter, k.error, k.notes) <==> Tells(k, e)
  {}

  ghost predicate Returned(ks: seq<KEvent>, fd: int) {
    exists i :: 0 <= i < |ks| && ks[i].ident == fd
  }

  /** Some returned event of the descriptor tells of `e`. */
  ghost predicate Told(ks: seq<KEvent>, fd: int, e: Event) {
    exists i :: 0 <= i < |ks| && ks[i].ident == fd && Tells(ks[i], e)
  }

  lemma ToldSnoc(ks: seq<KEvent>, k: KEvent, fd: int, e: Event)
    ensures Told(ks + [k], fd, e) <==> Told(ks, fd, e) || (k.ident == fd && Tells(k, e))
    ensures Returned(ks + [k], fd) <==> Returned(ks, fd) || k.ident == fd
  {
    assert (ks + [k])[|ks|] == k && forall i :: 0 <= i < |ks| ==> (ks + [k])[i] == ks[i];
    if Told(ks, fd, e) {
      var i :| 0 <= i < |ks| && ks[i].ident == fd && Tells(ks[i], e);
      assert (ks + [k])[i].ident == fd && Tells((ks + [k])[i], e);
    }
    if Returned(ks, fd) {
      var i :| 0 <= i < |ks| && ks[i].ident == fd;
      assert (ks + [k])[i].ident == fd;
    }
  }

  /** `active` holds what the returned events tell of each descriptor. */
  ghost predicate Merged(ks: seq<KEvent>, active: map<int, Mask>) {
    && (forall fd :: fd in active <==> Returned(ks, fd))
    && forall fd, e :: fd in active ==> (e in active[fd] <==> Told(ks, fd, e))
  }

  function WithEvent(active: map<int, Mask>, k: KEvent): map<int, Mask> {
    var e := FromKqueueEvent(k.filter, k.error, k.notes);
    active[k.ident := if k.ident in active then active[k.ident] + e else e]
  }

  lemma MergedStep(ks: seq<KEvent>, k: KEvent, active: map<int, Mask>)
    requires Merged(ks, active)
    ensures Merged(ks + [k], WithEvent(active, k))
  {
    var next := WithEvent(active, k);
    forall fd
      ensures fd in next <==> Returned(ks + [k], fd)
    {
      ToldSnoc(ks, k, fd, READ);
    }
    forall fd, e | fd in next
      ensures e in next[fd] <==> Told(ks + [k], fd, e)
    {
      ToldSnoc(ks, k, fd, e);
      EventExact(k, e);
      if fd !in active {
        assert !Told(ks, fd, e);
      }
    }
  }

  /** The first loop of `select`: every descriptor that an event is returned for once, with
      exactly what its events tell. */
  method Merge(ks: seq<KEvent>) returns (active: map<int, Mask>)
    ensures Merged(ks, active)
  {
    active := map[];
    for i := 0 to |ks|
      invariant Merged(ks[..i], active)
    {
      var k := ks[i];
      var e := FromKqueueEvent(k.filter, k.error, k.notes);
      assert ks[..i + 1] == ks[..i] + [k];
      MergedStep(ks[..i], k, active);
      if k.ident !in active {
        active := active[k.ident := e];
      } else {
        active := active[k.ident := active[k.ident] + e];
      }
    }
    assert ks[..|ks|] == ks;
  }

  ghost predicate Listed(list: seq<Report>, fd: int) {
    exists i :: 0 <= i < |list| && list[i].fd == fd
  }

  ghost predicate Ascending(list: seq<Report>) {
    forall i, j :: 0 <= i < j < |list| ==> list[i].fd < list[j].fd
  }

  /** The second loop of `select`, over the map in the order of its keys. */
  method ListInOrder(active: map<int, Mask>) returns (list: seq<Report>)
    ensures Ascending(list)
    ensures forall fd :: fd in active <==> Listed(list, fd)
    ensures forall i :: 0 <= i < |list| ==> list[i].fd in active && list[i].events == active[list[i].fd]
  {
    list := [];
    var keys := active.Keys;
    while keys != {}
      invariant keys <= active.Keys && Ascending(list)
      invariant forall i, k :: 0 <= i < |list| && k in keys ==> list[i].fd < k
      invariant forall i :: 0 <= i < |list| ==> list[i].fd in active && list[i].events == active[list[i].fd]
      invariant forall fd :: fd in active ==> fd in keys || Listed(list, fd)
      decreases keys
    {
      LeastAndGreatest(keys);
      var fd :| fd in keys && forall k :: k in keys ==> fd <= k;
      ghost var before := list;
      list := list + [Report(fd, active[fd])];
      keys := keys - {fd};
      assert list[|before|].fd == fd;
      forall g | Listed(before, g)
        ensures Listed(list, g)
      {
        var j :| 0 <= j < |before| && before[j].fd == g;
        assert list[j].fd == g;
      }
    }
  }

  /** `Kqueue::select`: every descriptor that an event is returned for is listed once, in
      order, with exactly what its events tell. */
  method Select(ks: seq<KEvent>) returns (list: seq<Report>)
    ensures Ascending(list)
    ensures forall fd :: Listed(list, fd) <==> Returned(ks, fd)
    ensures forall i, e :: 0 <= i < |list| ==> (e in list[i].events <==> Told(ks, list[i].fd, e))
  {
    var active := Merge(ks);
    list := ListInOrder(active);
  }
}
