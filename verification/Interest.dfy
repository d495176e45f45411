/** What every readiness backend keeps: for each registered descriptor, the
    events its handle is interested in. */
module Interest {
  import opened Sequences

  /** The bits of an event mask; a mask is a set of them. */
  datatype Event = READ | WRITE | ERROR | MODIFY | CLOSE

  type Mask = set<Event>

  type Interests = map<int, Mask>

  /** What a backend reports: a descriptor and events that happened on it. */
  datatype Report = Report(fd: int, events: Mask)

  /** No descriptor is reported twice. */
  ghost predicate Distinct(reports: seq<Report>) {
    forall i, j :: 0 <= i < j < |reports| ==> reports[i].fd != reports[j].fd
  }

  datatype Op = Add(fd: int, events: Mask) | Update(fd: int, events: Mask) | Remove(fd: int)

  /** The assertions of the backends: nothing is added twice, and nothing is
      changed or removed that is not there. */
  predicate Legal(m: Interests, op: Op) {
    match op
    case Add(fd, _) => fd >= 0 && fd !in m
    case Update(fd, _) => fd in m
    case Remove(fd) => fd in m
  }

  function Apply(m: Interests, op: Op): Interests {
    match op
    case Add(fd, e) => m[fd := e]
    case Update(fd, e) => m[fd := e]
    case Remove(fd) => m - {fd}
  }

  predicate LegalRun(m: Interests, ops: seq<Op>)
    decreases |ops|
  {
    ops == [] || (Legal(m, ops[0]) && LegalRun(Apply(m, ops[0]), ops[1..]))
  }

  /** The interest after a run of operations. */
  function ApplyAll(m: Interests, ops: seq<Op>): Interests
    decreases |ops|
  {
    if ops == [] then m else ApplyAll(Apply(m, ops[0]), ops[1..])
  }

  /** The part of an interest a backend can represent. */
  function Restrict(m: Interests, kinds: Mask): Interests {
    map fd | fd in m :: m[fd] * kinds
  }

  lemma RestrictApply(m: Interests, op: Op, kinds: Mask)
    ensures Restrict(Apply(m, op), kinds)
            == Apply(Restrict(m, kinds), if op.Remove? then op else op.(events := op.events * kinds))
  {}

  /** Maps are compared entry by entry. */
  lemma SameInterests(a: Interests, b: Interests)
    requires a.Keys == b.Keys && forall fd :: fd in a ==> a[fd] == b[fd]
    ensures a == b
  {
    forall fd | fd in a
      ensures a[fd] == b[fd]
    {}
    SameMaps(a, b);
  }

  lemma SameMaps<K, V>(a: map<K, V>, b: map<K, V>)
    requires a.Keys == b.Keys && forall k :: k in a ==> a[k] == b[k]
    ensures a == b
  {}

  /** A list of descriptors and the map of their positions. */
  ghost predicate Inverse(fds: seq<int>, index: map<int, int>) {
    && (forall fd :: fd in index ==> 0 <= index[fd] < |fds| && fds[index[fd]] == fd)
    && (forall i :: 0 <= i < |fds| ==> fds[i] in index && index[fds[i]] == i)
  }

  /** The last entry moves to the removed one's place. */
  lemma SwapRemoveInverse(fds: seq<int>, index: map<int, int>, fd: int)
    requires Inverse(fds, index) && fd in index
    ensures Inverse(SwapRemove(fds, index[fd]), index[fds[|fds| - 1] := index[fd]] - {fd})
  {
    var i, last := index[fd], |fds| - 1;
    var r, t := SwapRemove(fds, i), index[fds[last] := i] - {fd};
    forall j | 0 <= j < |r|
      ensures r[j] in t && t[r[j]] == j
    {
      assert r[j] == if j == i then fds[last] else fds[j];
    }
  }

  lemma HasMember(s: set<int>)
    ensures s == {} || exists x :: x in s
  {
    if forall x :: x !in s {
      assert s == {};
    }
  }

  lemma {:induction false} LeastAndGreatest(s: set<int>)
    requires s != {}
    ensures exists m :: m in s && forall k :: k in s ==> m <= k
    ensures exists m :: m in s && forall k :: k in s ==> k <= m
    decreases s
  {
    HasMember(s);
    var x :| x in s;
    var rest := s - {x};
    if rest == {} {
      assert s == {x};
      assert forall k :: k in s ==> x <= k <= x;
    } else {
      LeastAndGreatest(rest);
      var lo :| lo in rest && forall k :: k in rest ==> lo <= k;
      var hi :| hi in rest && forall k :: k in rest ==> k <= hi;
      var lo', hi' := if x < lo then x else lo, if x > hi then x else hi;
      assert lo' in s && hi' in s && forall k :: k in s ==> k == x || k in rest;
      assert forall k :: k in s ==> lo' <= k;
      assert forall k :: k in s ==> k <= hi';
    }
  }
}
