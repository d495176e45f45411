/** net/poll.cpp: a vector of entries for poll(2) and the map of their positions. */
module PollBackend {
  import opened Sequences
  import opened Interest

  /** The bits of a pollfd's requested and returned events that matter here. */
  datatype Bit = POLLIN | POLLOUT | POLLERR | POLLHUP | POLLNVAL

  /** One entry: its requested and its returned events. */
  datatype PollFd = PollFd(fd: int, events: set<Bit>, revents: set<Bit>)

  /** Only READ and WRITE can be requested. */
  const POLLED: Mask := {READ, WRITE}

  function ToPollEvent(events: Mask): set<Bit> {
    (if READ in events then {POLLIN} else {}) + (if WRITE in events then {POLLOUT} else {})
  }

  function FromPollEvent(bits: set<Bit>): Mask {
    (if POLLIN in bits then {READ} else {}) + (if POLLOUT in bits then {WRITE} else {})
    + (if POLLERR in bits then {ERROR} else {})
  }

  /** The events that returned bits stand for. */
  predicate Means(bits: set<Bit>, events: Mask) {
    && (READ in events <==> POLLIN in bits) && (WRITE in events <==> POLLOUT in bits)
    && (ERROR in events <==> POLLERR in bits) && MODIFY !in events && CLOSE !in events
  }

  /** An interest survives the way to poll(2) and back as far as it can be requested, and
      the bits of a mask are the ones of its events. */
  lemma BitsExact(events: Mask, bits: set<Bit>)
    ensures FromPollEvent(ToPollEvent(events)) == events * POLLED
    ensures Means(ToPollEvent(events), events * POLLED) && Means(bits, FromPollEvent(bits))
    ensures ToPollEvent(events) <= {POLLIN, POLLOUT}
  {}

  function Fds(pollfds: seq<PollFd>): (fds: seq<int>)
    ensures |fds| == |pollfds| && forall i :: 0 <= i < |fds| ==> fds[i] == pollfds[i].fd
  {
    seq(|pollfds|, i requires 0 <= i < |pollfds| => pollfds[i].fd)
  }

  /** What the entries ask for. */
  function Asked(pollfds: seq<PollFd>, index: map<int, int>): Interests
    requires forall fd :: fd in index ==> 0 <= index[fd] < |pollfds|
  {
    map fd | fd in index :: FromPollEvent(pollfds[index[fd]].events)
  }

  // ---------- The scan ----------

  function Pending(pollfds: seq<PollFd>): (n: nat)
    ensures n <= |pollfds|
  {
    if pollfds == [] then 0 else (if pollfds[0].revents != {} then 1 else 0) + Pending(pollfds[1..])
  }

  lemma {:induction false} NothingPending(pollfds: seq<PollFd>)
    requires Pending(pollfds) == 0
    ensures forall i :: 0 <= i < |pollfds| ==> pollfds[i].revents == {}
  {
    if pollfds != [] {
      NothingPending(pollfds[1..]);
      assert forall i :: 0 < i < |pollfds| ==> pollfds[i] == pollfds[1..][i - 1];
    }
  }

  /** One report for each of the first `n` entries with returned events, at the positions
      `at`, in order, and none for the others. */
  ghost predicate Reports(pollfds: seq<PollFd>, n: nat, at: seq<nat>, active: seq<Report>)
    requires n <= |pollfds|
  {
    && |active| == |at|
    && (forall k :: 0 <= k < |at| ==> at[k] < n)
    && (forall j, k :: 0 <= j < k < |at| ==> at[j] < at[k])
    && (forall i :: 0 <= i < n ==> (i in at <==> pollfds[i].revents != {}))
    && forall k :: 0 <= k < |at| ==>
         active[k].fd == pollfds[at[k]].fd && Means(pollfds[at[k]].revents, active[k].events)
  }

  lemma ReportsStep(pollfds: seq<PollFd>, n: nat, at: seq<nat>, active: seq<Report>)
    requires n < |pollfds| && Reports(pollfds, n, at, active)
    ensures pollfds[n].revents == {} ==> Reports(pollfds, n + 1, at, active)
    ensures pollfds[n].revents != {} ==> forall e :: Means(pollfds[n].revents, e) ==>
              Reports(pollfds, n + 1, at + [n], active + [Report(pollfds[n].fd, e)])
  {}

  class Poll {
    var pollfds: seq<PollFd>
    var handles: map<int, int>

    ghost predicate Valid()
      reads this
    {
      Inverse(Fds(pollfds), handles)
    }

    ghost function Value(): Interests
      requires Valid()
      reads this
    {
      Asked(pollfds, handles)
    }

    constructor ()
      ensures Valid() && Value() == map[]
    {
      pollfds, handles := [], map[];
    }

    method AddHandle(fd: int, events: Mask)
      requires Valid() && fd !in handles
      modifies this
      ensures Valid() && Value() == old(Value())[fd := events * POLLED]
    {
      pollfds := pollfds + [PollFd(fd, ToPollEvent(events), {})];
      BitsExact(events, {});
      handles := handles[fd := |pollfds| - 1];
      SameInterests(Value(), old(Value())[fd := events * POLLED]);
    }

    method RmHandle(fd: int)
      requires Valid() && fd in handles
      modifies this
      ensures Valid() && Value() == old(Value()) - {fd}
    {
      var idx, size := handles[fd], |pollfds|;
      ghost var before, index := pollfds, handles;
      SwapRemoveInverse(Fds(before), index, fd);
      if size > 1 && idx != size - 1 {
        var last := pollfds[size - 1];
        handles := handles[last.fd := idx];
        pollfds := pollfds[idx := last];
      }
      pollfds := pollfds[..|pollfds| - 1];
      handles := handles - {fd};
      assert pollfds == SwapRemove(before, idx);
      assert Fds(pollfds) == SwapRemove(Fds(before), idx);
      assert handles == index[before[size - 1].fd := idx] - {fd};
      forall g | g in handles
        ensures g in index && pollfds[handles[g]].events == before[index[g]].events
      {
        assert Fds(before)[index[g]] == g;
      }
      SameInterests(Value(), Asked(before, index) - {fd});
    }

    method UpdateEvent(fd: int, events: Mask)
      requires Valid() && fd in handles
      modifies this
      ensures Valid() && Value() == old(Value())[fd := events * POLLED]
    {
      var idx := handles[fd];
      pollfds := pollfds[idx := pollfds[idx].(events := ToPollEvent(events))];
      BitsExact(events, {});
      SameInterests(Value(), old(Value())[fd := events * POLLED]);
    }

    /** Over any run of operations the code's own assertions allow, the entries ask
        for exactly the last interest given. */
    method Replay(ops: seq<Op>)
      requires Valid() && LegalRun(Value(), ops) && Value() == Restrict(Value(), POLLED)
      modifies this
      ensures Valid() && Value() == Restrict(ApplyAll(old(Value()), ops), POLLED)
    {
      ghost var m := Value();
      for i := 0 to |ops|
        invariant Valid() && LegalRun(m, ops[i..]) && Value() == Restrict(m, POLLED)
        invariant ApplyAll(m, ops[i..]) == ApplyAll(old(Value()), ops)
      {
        RestrictApply(m, ops[i], POLLED);
        assert m.Keys == Value().Keys == handles.Keys;
        match ops[i] {
          case Add(fd, e) => AddHandle(fd, e);
          case Update(fd, e) => UpdateEvent(fd, e);
          case Remove(fd) => RmHandle(fd);
        }
        m := Apply(m, ops[i]);
      }
    }

    /** The scan after poll(2) returned `n`, the number of entries with returned events;
        it stops after the last of them. */
    method Scan(n: int) returns (active: seq<Report>)
      requires n > 0 ==> n == Pending(pollfds)
      ensures if n <= 0 then active == []
              else |active| == n && exists at :: Reports(pollfds, |pollfds|, at, active)
    {
      active := [];
      ghost var at: seq<nat> := [];
      if n <= 0 {
        return;
      }
      var left, i := n, 0;
      while i < |pollfds| && left > 0
        invariant 0 <= i <= |pollfds| && left == Pending(pollfds[i..]) == n - |at|
        invariant Reports(pollfds, i, at, active)
      {
        var it := pollfds[i];
        assert pollfds[i..][1..] == pollfds[i + 1..];
        ReportsStep(pollfds, i, at, active);
        BitsExact({}, it.revents);
        if it.revents != {} {
          active := active + [Report(it.fd, FromPollEvent(it.revents))];
          at := at + [i];
          left := left - 1;
        }
        i := i + 1;
      }
      NothingPending(pollfds[i..]);
      assert forall j :: i <= j < |pollfds| ==> pollfds[j] == pollfds[i..][j - i];
      assert Reports(pollfds, |pollfds|, at, active);
    }
  }
}
