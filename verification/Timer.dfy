/** timer.cpp: starting timers, and the update loop that runs the root's callback
    before it pops the root. */
module Timers {
  import opened Sequences
  import opened Heaps

  const U32: nat := 0x1_0000_0000

  type u32 = n: nat | n < 0x1_0000_0000

  // ---------- Starting timers ----------

  datatype Queue = Queue(heap: Heap, maxId: nat)

  /** When a timer started with a clock reading and a delay, in hundredths of a
      second, expires: the sum is a 32-bit unsigned one. */
  function Expiry(clock: u32, delay: u32): u32 {
    if clock + delay < U32 then clock + delay else clock + delay - U32
  }

  function WithTimer(q: Queue, expiry: nat): Queue {
    Queue(Pushed(q.heap, TimerHandle(q.maxId + 1, expiry)), q.maxId + 1)
  }

  function StartAll(q: Queue, starts: seq<nat>): (r: Queue)
    ensures |r.heap| == |q.heap| + |starts|
    decreases |starts|
  {
    if starts == [] then q else StartAll(WithTimer(q, starts[0]), starts[1..])
  }

  /** The timers a callback starts, given their expiries. */
  function Created(maxId: nat, starts: seq<nat>): (ts: seq<TimerHandle>)
    ensures |ts| == |starts|
    decreases |starts|
  {
    if starts == [] then []
    else [TimerHandle(maxId + 1, starts[0])] + Created(maxId + 1, starts[1..])
  }

  lemma {:induction false} StartAllHeap(q: Queue, starts: seq<nat>)
    requires IsHeap(q.heap)
    ensures var r := StartAll(q, starts);
            && IsHeap(r.heap) && r.maxId == q.maxId + |starts|
            && multiset(r.heap) == multiset(q.heap) + multiset(Created(q.maxId, starts))
    decreases |starts|
  {
    if starts == [] {
      assert multiset(q.heap) + multiset{} == multiset(q.heap);
    } else {
      var t, next := TimerHandle(q.maxId + 1, starts[0]), WithTimer(q, starts[0]);
      var later := Created(q.maxId + 1, starts[1..]);
      PushHeap(q.heap, t);
      StartAllHeap(next, starts[1..]);
      assert multiset(StartAll(next, starts[1..]).heap) == multiset(next.heap) + multiset(later);
      assert multiset(Created(q.maxId, starts)) == multiset{t} + multiset(later);
      Regroup(multiset(q.heap), multiset{t}, multiset(later));
    }
  }

  lemma Regroup(a: multiset<TimerHandle>, b: multiset<TimerHandle>, c: multiset<TimerHandle>)
    ensures (a + b) + c == a + (b + c)
  {}

  lemma Balance(a: multiset<TimerHandle>, c: multiset<TimerHandle>, r: multiset<TimerHandle>, t: multiset<TimerHandle>,
                s: multiset<TimerHandle>, p: multiset<TimerHandle>, f: multiset<TimerHandle>)
    requires a + c == r + t && t + s == p + f
    ensures a + (c + s) == (r + p) + f
  {
    assert a + (c + s) == (a + c) + s;
    assert (r + t) + s == r + (t + s);
    assert r + (p + f) == (r + p) + f;
  }

  predicate AllAfter(starts: seq<nat>, time: nat) {
    forall i :: 0 <= i < |starts| ==> starts[i] >= time
  }

  lemma AllAfterCons(starts: seq<nat>, time: nat)
    requires starts != []
    ensures AllAfter(starts, time) <==> starts[0] >= time && AllAfter(starts[1..], time)
  {
    assert forall i :: 0 < i < |starts| ==> starts[i] == starts[1..][i - 1];
  }

  /** `WithTimer` at the root. */
  lemma WithTimerRoot(q: Queue, e: nat)
    requires IsHeap(q.heap) && q.heap != []
    ensures var r := WithTimer(q, e);
            && IsHeap(r.heap) && r.heap != []
            && r.heap[0].expired <= q.heap[0].expired && r.heap[0].expired <= e
            && (e >= q.heap[0].expired ==> r.heap[0] == q.heap[0])
  {
    var t := TimerHandle(q.maxId + 1, e);
    PushHeap(q.heap, t);
    PushRoot(q.heap, t);
  }

  lemma {:induction false} RootOnlyFalls(q: Queue, starts: seq<nat>)
    requires IsHeap(q.heap) && q.heap != []
    ensures StartAll(q, starts).heap != []
    ensures StartAll(q, starts).heap[0].expired <= q.heap[0].expired
    decreases |starts|
  {
    if starts != [] {
      WithTimerRoot(q, starts[0]);
      RootOnlyFalls(WithTimer(q, starts[0]), starts[1..]);
    }
  }

  /** While a callback runs its own timer is still the root. It is still the
      root when the callback returns, so that `pop` removes it, exactly when no
      timer the callback started expires before it. */
  lemma {:induction false} RootSurvives(q: Queue, starts: seq<nat>)
    requires IsHeap(q.heap) && q.heap != []
    ensures StartAll(q, starts).heap != []
    ensures StartAll(q, starts).heap[0] == q.heap[0] <==> AllAfter(starts, q.heap[0].expired)
    decreases |starts|
  {
    if starts != [] {
      var next := WithTimer(q, starts[0]);
      WithTimerRoot(q, starts[0]);
      RootOnlyFalls(next, starts[1..]);
      AllAfterCons(starts, q.heap[0].expired);
      if starts[0] >= q.heap[0].expired {
        RootSurvives(next, starts[1..]);
      }
    }
  }

  /** With a sum of clock and delay that wraps the timer just run stays and the new one is lost. */
  lemma WrapDropsNewTimer()
    ensures var q, starts := Queue([TimerHandle(1, 100)], 1), [Expiry(100, U32 - 1)];
            var heap := StartAll(q, starts).heap;
            |heap| == 2 && heap[0] != q.heap[0] && Popped(heap) == [q.heap[0]]
  {
    var q, s := Queue([TimerHandle(1, 100)], 1), Expiry(100, U32 - 1);
    var t := TimerHandle(2, 99);
    assert s == 99;
    assert q.heap + [t] == [q.heap[0], t];
    assert Pushed(q.heap, t) == [t, q.heap[0]];
    assert StartAll(q, [s]) == WithTimer(q, s);
  }

  /** One call of start_timer: the clock reading it takes and its delay. */
  datatype Start = Start(clock: u32, delay: u32)

  function Expiries(starts: seq<Start>): (es: seq<nat>)
    ensures |es| == |starts|
  {
    if starts == [] then [] else [Expiry(starts[0].clock, starts[0].delay)] + Expiries(starts[1..])
  }

  /** Calls made while `now` or something later is read from the clock, with sums that
      do not wrap and delays of at least `least`. */
  predicate Ahead(starts: seq<Start>, now: nat, least: nat) {
    forall i :: 0 <= i < |starts| ==>
      now <= starts[i].clock && starts[i].clock + starts[i].delay < U32 && starts[i].delay >= least
  }

  lemma ExpiryExact(clock: u32, delay: u32)
    ensures Expiry(clock, delay) == (clock + delay) % U32
  {}

  /** Such timers expire `least` after `now` or later. */
  lemma {:induction false} AheadExpires(starts: seq<Start>, now: nat, least: nat)
    requires Ahead(starts, now, least)
    ensures AllAfter(Expiries(starts), now + least)
    decreases |starts|
  {
    if starts != [] {
      AheadCons(starts, now, least);
      AheadExpires(starts[1..], now, least);
      AllAfterCons(Expiries(starts), now + least);
    }
  }

  lemma AheadCons(starts: seq<Start>, now: nat, least: nat)
    requires starts != [] && Ahead(starts, now, least)
    ensures Ahead(starts[1..], now, least) && Expiries(starts)[0] >= now + least
    ensures Expiries(starts)[1..] == Expiries(starts[1..])
  {
    ExpiryExact(starts[0].clock, starts[0].delay);
    assert forall i :: 0 <= i < |starts| - 1 ==> starts[1..][i] == starts[i + 1];
  }

  // ---------- Runs of update ----------

  /** What a run of the loop did, round by round, and the queue it left. */
  datatype Log = Log(ran: seq<TimerHandle>, popped: seq<TimerHandle>, started: seq<TimerHandle>, queue: Queue)

  /** One round on a queue whose root is due: the callback, then `pop`. */
  function NextRound(q: Queue, starts: seq<nat>): (next: Queue)
    requires q.heap != []
    ensures |next.heap| == |q.heap| + |starts| - 1
  {
    var s := StartAll(q, starts);
    Queue(Popped(s.heap), s.maxId)
  }

  lemma NextRoundHeap(q: Queue, starts: seq<nat>)
    requires IsHeap(q.heap) && q.heap != []
    ensures IsHeap(NextRound(q, starts).heap)
  {
    StartAllHeap(q, starts);
    PopHeap(StartAll(q, starts).heap);
  }

  predicate Stopped(q: Queue, now: nat) {
    q.heap == [] || q.heap[0].expired > now
  }

  /** What the callbacks do: round `r`'s callback makes the calls `script[r]`, or none. */
  type Script = imap<nat, seq<Start>>

  /** The expiries of what round `r`'s callback starts. */
  function StartsAt(script: Script, r: nat): seq<nat> {
    Expiries(CallsAt(script, r))
  }

  function CallsAt(script: Script, r: nat): seq<Start> {
    if r in script then script[r] else []
  }

  /** One round more; its callback starts timers with the given expiries. */
  function OneMore(log: Log, starts: seq<nat>): Log
    requires log.queue.heap != []
  {
    var q := log.queue;
    Log(log.ran + [q.heap[0]], log.popped + [StartAll(q, starts).heap[0]],
        log.started + Created(q.maxId, starts), NextRound(q, starts))
  }

  /** The first `n` rounds of the loop, or all of them if it stops before. */
  function Rounds(q: Queue, now: nat, script: Script, n: nat): Log {
    if n == 0 then Log([], [], [], q)
    else
      var log := Rounds(q, now, script, n - 1);
      if Stopped(log.queue, now) then log else OneMore(log, StartsAt(script, n - 1))
  }

  lemma RoundsMore(q: Queue, now: nat, script: Script, n: nat)
    ensures var log := Rounds(q, now, script, n);
            Rounds(q, now, script, n + 1) == if Stopped(log.queue, now) then log else OneMore(log, StartsAt(script, n))
  {}

  lemma HeapMore(q: Queue, now: nat, script: Script, n: nat)
    requires IsHeap(Rounds(q, now, script, n).queue.heap)
    ensures IsHeap(Rounds(q, now, script, n + 1).queue.heap)
  {
    var log := Rounds(q, now, script, n);
    RoundsMore(q, now, script, n);
    if !Stopped(log.queue, now) {
      NextRoundHeap(log.queue, StartsAt(script, n));
    }
  }

  lemma RoundsHeap(q: Queue, now: nat, script: Script, n: nat)
    requires IsHeap(q.heap)
    ensures IsHeap(Rounds(q, now, script, n).queue.heap)
  {
    for m := 0 to n
      invariant IsHeap(Rounds(q, now, script, m).queue.heap)
    {
      HeapMore(q, now, script, m);
    }
  }

  /** No callback starts a timer that expires before `time`. */
  ghost predicate AlwaysAfter(script: Script, time: nat) {
    forall r: nat :: AllAfter(StartsAt(script, r), time)
  }

  /** Every call of every callback is made ahead of `now`. */
  ghost predicate AlwaysAhead(script: Script, now: nat, least: nat) {
    forall r: nat :: Ahead(CallsAt(script, r), now, least)
  }

  /** A monotone clock without wrap-around is enough; with delays of at least 1 the
      new timers are not due either. */
  lemma ClockIsEnough(script: Script, now: nat, least: nat)
    requires AlwaysAhead(script, now, least)
    ensures AlwaysAfter(script, now + least)
  {
    forall r: nat
      ensures AllAfter(StartsAt(script, r), now + least)
    {
      AheadExpires(CallsAt(script, r), now, least);
    }
  }

  ghost predicate Ascending(ts: seq<TimerHandle>) {
    forall i, j :: 0 <= i < j < |ts| ==> ts[i].expired <= ts[j].expired
  }

  ghost predicate AllWithin(ts: seq<TimerHandle>, high: nat) {
    forall i :: 0 <= i < |ts| ==> ts[i].expired <= high
  }

  /** What one round does when no new timer expires before the running one. */
  lemma RoundStep(q: Queue, starts: seq<nat>)
    requires IsHeap(q.heap) && q.heap != [] && AllAfter(starts, q.heap[0].expired)
    ensures StartAll(q, starts).heap != [] && StartAll(q, starts).heap[0] == q.heap[0]
    ensures var next := NextRound(q, starts);
            && multiset(q.heap) + multiset(Created(q.maxId, starts)) == multiset{q.heap[0]} + multiset(next.heap)
            && IsHeap(next.heap) && (next.heap != [] ==> next.heap[0].expired >= q.heap[0].expired)
  {
    StartAllHeap(q, starts);
    RootSurvives(q, starts);
    var s, next := StartAll(q, starts), NextRound(q, starts);
    PopHeap(s.heap);
    assert s.heap[0] in multiset(s.heap);
    assert multiset(s.heap) == multiset{s.heap[0]} + multiset(next.heap);
    if next.heap != [] {
      assert next.heap[0] in multiset(next.heap);
      AllAboveRoot(s.heap, next.heap[0]);
    }
  }

  /** What is started after `now` is started after the expiry of a timer that is due. */
  lemma AfterRoot(q: Queue, now: nat, starts: seq<nat>)
    requires !Stopped(q, now) && AllAfter(starts, now)
    ensures AllAfter(starts, q.heap[0].expired)
  {}

  /** Timers ran in order of expiry and none early; what is still queued expires no sooner. */
  ghost predicate InOrder(log: Log, now: nat) {
    && Ascending(log.ran) && AllWithin(log.ran, now)
    && (log.ran == [] || log.queue.heap == [] || log.ran[|log.ran| - 1].expired <= log.queue.heap[0].expired)
  }

  lemma InOrderStep(log: Log, now: nat, starts: seq<nat>)
    requires IsHeap(log.queue.heap) && !Stopped(log.queue, now) && InOrder(log, now)
    requires AllAfter(starts, log.queue.heap[0].expired)
    ensures InOrder(OneMore(log, starts), now)
  {
    RoundStep(log.queue, starts);
    AscendingSnoc(log.ran, log.queue.heap[0], now);
  }

  /** Everything that a run keeps, if no callback starts a timer that expires before `now`:
      `queued` is what was there at the start. */
  ghost predicate Sound(queued: multiset<TimerHandle>, now: nat, log: Log) {
    IsHeap(log.queue.heap) && log.popped == log.ran && InOrder(log, now) && Conserved(queued, log)
  }

  lemma SoundStep(queued: multiset<TimerHandle>, now: nat, log: Log, starts: seq<nat>)
    requires Sound(queued, now, log) && !Stopped(log.queue, now) && AllAfter(starts, now)
    ensures Sound(queued, now, OneMore(log, starts))
  {
    AfterRoot(log.queue, now, starts);
    RoundStep(log.queue, starts);
    InOrderStep(log, now, starts);
    ConserveStep(queued, log, starts);
  }

  lemma SoundMore(queued: multiset<TimerHandle>, q: Queue, now: nat, script: Script, n: nat)
    requires Sound(queued, now, Rounds(q, now, script, n)) && AllAfter(StartsAt(script, n), now)
    ensures Sound(queued, now, Rounds(q, now, script, n + 1))
  {
    var log := Rounds(q, now, script, n);
    RoundsMore(q, now, script, n);
    if !Stopped(log.queue, now) {
      SoundStep(queued, now, log, StartsAt(script, n));
    }
  }

  /** Every round pops the timer it ran; timers run in order of expiry, and none before
      it is due; no timer is lost or run twice. */
  lemma RunsAreSound(q: Queue, now: nat, script: Script, n: nat)
    requires IsHeap(q.heap) && AlwaysAfter(script, now)
    ensures Sound(multiset(q.heap), now, Rounds(q, now, script, n))
  {
    for m := 0 to n
      invariant Sound(multiset(q.heap), now, Rounds(q, now, script, m))
    {
      SoundMore(multiset(q.heap), q, now, script, m);
    }
  }

  lemma AscendingSnoc(ts: seq<TimerHandle>, t: TimerHandle, high: nat)
    requires Ascending(ts) && AllWithin(ts, high) && t.expired <= high
    requires ts == [] || ts[|ts| - 1].expired <= t.expired
    ensures Ascending(ts + [t]) && AllWithin(ts + [t], high)
  {}

  /** Timers `queued` at the start and started are those run and left, with multiplicity. */
  ghost predicate Conserved(queued: multiset<TimerHandle>, log: Log) {
    queued + multiset(log.started) == multiset(log.ran) + multiset(log.queue.heap)
  }

  lemma ConserveStep(queued: multiset<TimerHandle>, log: Log, starts: seq<nat>)
    requires IsHeap(log.queue.heap) && log.queue.heap != [] && Conserved(queued, log)
    requires AllAfter(starts, log.queue.heap[0].expired)
    ensures Conserved(queued, OneMore(log, starts))
  {
    RoundStep(log.queue, starts);
    var created, next := Created(log.queue.maxId, starts), NextRound(log.queue, starts);
    Union(log.started, created);
    Union(log.ran, [log.queue.heap[0]]);
    Balance(queued, multiset(log.started), multiset(log.ran), multiset(log.queue.heap),
            multiset(created), multiset{log.queue.heap[0]}, multiset(next.heap));
  }

  lemma StoppedAll(q: Queue, now: nat)
    requires IsHeap(q.heap) && Stopped(q, now)
    ensures forall t :: t in q.heap ==> t.expired > now
  {
    forall t | t in q.heap
      ensures t.expired > now
    {
      assert t in multiset(q.heap);
      AllAboveRoot(q.heap, t);
    }
  }

  // ---------- Termination ----------

  /** How many timers are due. */
  function Due(h: Heap, now: nat): nat {
    if h == [] then 0 else (if h[0].expired <= now then 1 else 0) + Due(h[1..], now)
  }

  lemma {:induction false} DueAppend(a: Heap, b: Heap, now: nat)
    ensures Due(a + b, now) == Due(a, now) + Due(b, now)
  {
    if a == [] {
      assert a + b == b;
    } else {
      assert (a + b)[1..] == a[1..] + b;
      DueAppend(a[1..], b, now);
    }
  }

  function Without(h: Heap, k: nat): Heap
    requires k < |h|
  {
    h[..k] + h[k + 1..]
  }

  lemma WithoutOne(h: Heap, k: nat)
    requires k < |h|
    ensures multiset(h) == multiset(Without(h, k)) + multiset{h[k]}
  {
    assert h == h[..k] + ([h[k]] + h[k + 1..]);
    Union(h[..k], [h[k]] + h[k + 1..]);
    Union(h[..k], h[k + 1..]);
  }

  lemma DueWithout(h: Heap, k: nat, now: nat)
    requires k < |h|
    ensures Due(h, now) == Due([h[k]], now) + Due(Without(h, k), now)
  {
    assert h == h[..k] + ([h[k]] + h[k + 1..]);
    DueAppend(h[..k], [h[k]] + h[k + 1..], now);
    DueAppend([h[k]], h[k + 1..], now);
    DueAppend(h[..k], h[k + 1..], now);
  }

  lemma {:induction false} DuePermuted(a: Heap, b: Heap, now: nat)
    requires multiset(a) == multiset(b)
    ensures Due(a, now) == Due(b, now)
    decreases |a|
  {
    if a == [] {
      assert |multiset(b)| == 0;
    } else {
      assert a[0] in multiset(b);
      var j :| 0 <= j < |b| && b[j] == a[0];
      WithoutOne(a, 0);
      WithoutOne(b, j);
      Cancel(multiset(Without(a, 0)), multiset(Without(b, j)), multiset{a[0]});
      DuePermuted(Without(a, 0), Without(b, j), now);
      DueWithout(a, 0, now);
      DueWithout(b, j, now);
    }
  }

  lemma Cancel(x: multiset<TimerHandle>, y: multiset<TimerHandle>, z: multiset<TimerHandle>)
    requires x + z == y + z
    ensures x == y
  {
    assert (x + z) - z == x && (y + z) - z == y;
  }

  lemma {:induction false} CreatedNotDue(maxId: nat, starts: seq<nat>, now: nat)
    requires AllAfter(starts, now + 1)
    ensures Due(Created(maxId, starts), now) == 0
    decreases |starts|
  {
    if starts != [] {
      AllAfterCons(starts, now + 1);
      CreatedNotDue(maxId + 1, starts[1..], now);
    }
  }

  /** If every callback reschedules beyond `now`, each round leaves one due timer
      fewer, however many timers it adds. */
  lemma RoundDue(q: Queue, now: nat, starts: seq<nat>)
    requires IsHeap(q.heap) && !Stopped(q, now) && AllAfter(starts, now + 1)
    ensures Due(NextRound(q, starts).heap, now) == Due(q.heap, now) - 1
  {
    RoundStep(q, starts);
    CreatedNotDue(q.maxId, starts, now);
    var created, next := Created(q.maxId, starts), NextRound(q, starts).heap;
    DueAppend(q.heap, created, now);
    DueAppend([q.heap[0]], next, now);
    DuePermuted(q.heap + created, [q.heap[0]] + next, now);
  }

  /** `update` then ends after running as many timers as were due at the start:
      however many rounds it may make, it makes no more. */
  lemma RunsAreFinite(q: Queue, now: nat, script: Script, n: nat)
    requires IsHeap(q.heap) && AlwaysAfter(script, now + 1)
    ensures var log, due := Rounds(q, now, script, n), Due(q.heap, now);
            && |log.ran| == (if n < due then n else due)
            && (Stopped(log.queue, now) <==> n >= due)
  {
    for m := 0 to n
      invariant Counted(q, now, Rounds(q, now, script, m), m)
    {
      CountedMore(q, now, script, m);
    }
    RoundsHeap(q, now, script, n);
    StoppedIffNoneDue(Rounds(q, now, script, n).queue, now);
  }

  /** What is left to run after `n` rounds. */
  ghost predicate Counted(q: Queue, now: nat, log: Log, n: nat) {
    var due := Due(q.heap, now);
    |log.ran| == (if n < due then n else due) && Due(log.queue.heap, now) == due - |log.ran|
  }

  lemma CountedMore(q: Queue, now: nat, script: Script, n: nat)
    requires IsHeap(q.heap) && AllAfter(StartsAt(script, n), now + 1) && Counted(q, now, Rounds(q, now, script, n), n)
    ensures Counted(q, now, Rounds(q, now, script, n + 1), n + 1)
  {
    var log := Rounds(q, now, script, n);
    RoundsMore(q, now, script, n);
    RoundsHeap(q, now, script, n);
    StoppedIffNoneDue(log.queue, now);
    if !Stopped(log.queue, now) {
      RoundDue(log.queue, now, StartsAt(script, n));
    }
  }

  lemma StoppedIffNoneDue(q: Queue, now: nat)
    requires IsHeap(q.heap)
    ensures Stopped(q, now) <==> Due(q.heap, now) == 0
  {
    if Stopped(q, now) {
      StoppedAll(q, now);
      NoneDue(q.heap, now);
    }
  }

  ghost predicate AllLate(ts: seq<TimerHandle>, now: nat) {
    forall t :: t in ts ==> t.expired > now
  }

  lemma StartedLate(q: Queue, now: nat, script: Script, n: nat)
    requires AlwaysAfter(script, now + 1)
    ensures AllLate(Rounds(q, now, script, n).started, now)
  {
    for m := 0 to n
      invariant AllLate(Rounds(q, now, script, m).started, now)
    {
      RoundsMore(q, now, script, m);
      CreatedLate(Rounds(q, now, script, m).queue.maxId, StartsAt(script, m), now);
    }
  }

  lemma {:induction false} CreatedLate(maxId: nat, starts: seq<nat>, now: nat)
    requires AllAfter(starts, now + 1)
    ensures AllLate(Created(maxId, starts), now)
    decreases |starts|
  {
    if starts != [] {
      AllAfterCons(starts, now + 1);
      CreatedLate(maxId + 1, starts[1..], now);
    }
  }

  /** It runs every timer that was due exactly as often as it was queued, and no other. */
  lemma RunsExactlyTheDue(q: Queue, now: nat, script: Script, n: nat, t: TimerHandle)
    requires IsHeap(q.heap) && AlwaysAfter(script, now + 1) && n >= Due(q.heap, now)
    ensures multiset(Rounds(q, now, script, n).ran)[t] == if t.expired <= now then multiset(q.heap)[t] else 0
  {
    var log := Rounds(q, now, script, n);
    RoundsHeap(q, now, script, n);
    AfterBefore(script, now);
    RunsAreFinite(q, now, script, n);
    RunsAreSound(q, now, script, n);
    StartedLate(q, now, script, n);
    StoppedAll(log.queue, now);
    if t.expired <= now {
      assert t !in log.started && t !in log.queue.heap;
      assert (multiset(q.heap) + multiset(log.started))[t] == (multiset(log.ran) + multiset(log.queue.heap))[t];
    } else {
      assert t !in log.ran;
    }
  }

  lemma AfterBefore(script: Script, now: nat)
    requires AlwaysAfter(script, now + 1)
    ensures AlwaysAfter(script, now)
  {
    forall r: nat
      ensures AllAfter(StartsAt(script, r), now)
    {
      assert AllAfter(StartsAt(script, r), now + 1);
    }
  }

  lemma ForeverMore(q: Queue, now: nat, script: Script, n: nat)
    requires IsHeap(q.heap) && StartsAt(script, n) == [now] && !Stopped(Rounds(q, now, script, n).queue, now)
    ensures !Stopped(Rounds(q, now, script, n + 1).queue, now)
  {
    RoundsMore(q, now, script, n);
    RoundsHeap(q, now, script, n);
    NewIsDue(Rounds(q, now, script, n).queue, now);
  }

  /** Callbacks that each start a timer expiring right now, with a delay of 0, keep the
      loop running: it makes as many rounds as one likes. */
  lemma ZeroDelayForever(q: Queue, now: nat, script: Script, n: nat)
    requires IsHeap(q.heap) && !Stopped(q, now)
    requires forall r: nat :: StartsAt(script, r) == [now]
    ensures !Stopped(Rounds(q, now, script, n).queue, now)
  {
    for m := 0 to n
      invariant !Stopped(Rounds(q, now, script, m).queue, now)
    {
      ForeverMore(q, now, script, m);
    }
  }

  lemma NewIsDue(q: Queue, now: nat)
    requires IsHeap(q.heap) && !Stopped(q, now)
    ensures !Stopped(NextRound(q, [now]), now)
  {
    RoundStep(q, [now]);
    var created, next := Created(q.maxId, [now]), NextRound(q, [now]);
    assert created == [TimerHandle(q.maxId + 1, now)];
    DueAppend(q.heap, created, now);
    DueAppend([q.heap[0]], next.heap, now);
    Union(q.heap, created);
    Union([q.heap[0]], next.heap);
    DuePermuted(q.heap + created, [q.heap[0]] + next.heap, now);
    StoppedIffNoneDue(q, now);
    StoppedIffNoneDue(next, now);
  }

  lemma {:induction false} NoneDue(h: Heap, now: nat)
    requires forall t :: t in h ==> t.expired > now
    ensures Due(h, now) == 0
  {
    if h != [] {
      NoneDue(h[1..], now);
    }
  }

  // ---------- The classes ----------

  class Timer {
    var maxId: nat
    const pqueue: PriQueue

    ghost function Value(): Queue
      reads this, pqueue
    {
      Queue(pqueue.minHeap, maxId)
    }

    constructor ()
      ensures Value() == Queue([], 0) && fresh(pqueue)
    {
      maxId := 0;
      pqueue := new PriQueue();
    }

    /** `_start_timer` with the clock reading it takes. */
    method StartTimer(clock: u32, delay: u32) returns (id: nat)
      modifies this, pqueue
      ensures Value() == WithTimer(old(Value()), Expiry(clock, delay)) && id == maxId == old(maxId) + 1
      ensures var queued := TimerHandle(id, (clock + delay) % U32);
              IsHeap(old(pqueue.minHeap)) ==>
                IsHeap(pqueue.minHeap) && multiset(pqueue.minHeap) == multiset(old(pqueue.minHeap)) + multiset{queued}
    {
      ExpiryExact(clock, delay);
      if IsHeap(pqueue.minHeap) {
        PushHeap(pqueue.minHeap, TimerHandle(maxId + 1, Expiry(clock, delay)));
      }
      maxId := maxId + 1;
      pqueue.Push(TimerHandle(maxId, Expiry(clock, delay)));
      id := maxId;
    }

    /** A callback, as far as the timer sees it: the timers it starts. */
    method RunCallback(starts: seq<Start>)
      modifies this, pqueue
      ensures Value() == StartAll(old(Value()), Expiries(starts))
    {
      var pending := starts;
      ghost var goal := StartAll(Value(), Expiries(starts));
      while pending != []
        invariant StartAll(Value(), Expiries(pending)) == goal
        decreases |pending|
      {
        assert Expiries(pending)[1..] == Expiries(pending[1..]);
        var _ := StartTimer(pending[0].clock, pending[0].delay);
        pending := pending[1..];
      }
    }

    /** One round of the loop. */
    method RunTop(starts: seq<Start>) returns (p: TimerHandle)
      requires IsHeap(pqueue.minHeap) && pqueue.minHeap != []
      modifies this, pqueue
      ensures p == old(pqueue.minHeap[0]) && Value() == NextRound(old(Value()), Expiries(starts))
    {
      StartAllHeap(Value(), Expiries(starts));
      RootSurvives(Value(), Expiries(starts));
      p := pqueue.Top();
      RunCallback(starts);
      pqueue.Pop();
    }

    /** `Timer::update` with the clock reading `now`; the callback of round `r` makes
        the calls `script[r]`. It ends if all delays are at least 1, or if it ends after
        `end` rounds. If the clock does not go back and no sum wraps, every round pops
        the timer it ran, the timers run in order of expiry and none too early; with
        delays of at least 1 there are as many rounds as timers were due. Nothing that
        is due is left. */
    method Update(now: nat, script: Script, ghost end: nat) returns (ran: seq<TimerHandle>)
      requires IsHeap(pqueue.minHeap)
      requires AlwaysAhead(script, now, 1) || Stopped(Rounds(Value(), now, script, end).queue, now)
      modifies this, pqueue
      ensures IsHeap(pqueue.minHeap) && forall t :: t in pqueue.minHeap ==> t.expired > now
      ensures var log := Rounds(old(Value()), now, script, |ran|);
              ran == log.ran && Value() == log.queue && (AlwaysAhead(script, now, 0) ==> log.popped == ran)
      ensures AlwaysAhead(script, now, 0) ==> Ascending(ran) && AllWithin(ran, now)
      ensures AlwaysAhead(script, now, 1) ==> |ran| == Due(old(pqueue.minHeap), now)
    {
      ran := [];
      ghost var q, log := Value(), Rounds(Value(), now, script, 0);
      var minExpired := pqueue.GetMin();
      while pqueue.minHeap != [] && minExpired <= now
        invariant IsHeap(pqueue.minHeap)
        invariant minExpired == if pqueue.minHeap == [] then 0 else pqueue.minHeap[0].expired
        invariant log == Rounds(q, now, script, |ran|) && ran == log.ran && Value() == log.queue
        invariant AlwaysAhead(script, now, 1) || |ran| <= end
        decreases if AlwaysAhead(script, now, 1) then Due(pqueue.minHeap, now) else end - |ran|
      {
        RoundsHeap(q, now, script, |ran|);
        RoundsMore(q, now, script, |ran|);
        NextRoundHeap(Value(), StartsAt(script, |ran|));
        RoundCounts(q, now, script, end, |ran|);
        log := OneMore(log, StartsAt(script, |ran|));
        var p := RunTop(CallsAt(script, |ran|));
        ran := ran + [p];
        minExpired := pqueue.GetMin();
      }
      StoppedAll(Value(), now);
      UpdateLaws(q, now, script, |ran|);
    }
  }

  /** A run that has stopped made more rounds than one that has not. */
  lemma {:induction false} NotYet(q: Queue, now: nat, script: Script, end: nat, m: nat)
    requires IsHeap(q.heap) && Stopped(Rounds(q, now, script, end).queue, now)
    requires !Stopped(Rounds(q, now, script, m).queue, now)
    ensures m < end
    decreases m
  {
    if end < m && !Stopped(Rounds(q, now, script, m - 1).queue, now) {
      NotYet(q, now, script, end, m - 1);
    }
  }

  /** Why the loop ends. */
  lemma RoundCounts(q: Queue, now: nat, script: Script, end: nat, m: nat)
    requires IsHeap(q.heap) && !Stopped(Rounds(q, now, script, m).queue, now)
    requires AlwaysAhead(script, now, 1) || Stopped(Rounds(q, now, script, end).queue, now)
    ensures var queue := Rounds(q, now, script, m).queue;
            if AlwaysAhead(script, now, 1) then
              Due(NextRound(queue, StartsAt(script, m)).heap, now) < Due(queue.heap, now)
            else m < end
  {
    if AlwaysAhead(script, now, 1) {
      ClockIsEnough(script, now, 1);
      RoundsHeap(q, now, script, m);
      RoundDue(Rounds(q, now, script, m).queue, now, StartsAt(script, m));
    } else {
      NotYet(q, now, script, end, m);
    }
  }

  lemma UpdateLaws(q: Queue, now: nat, script: Script, n: nat)
    requires IsHeap(q.heap) && Stopped(Rounds(q, now, script, n).queue, now)
    ensures AlwaysAhead(script, now, 0) ==>
              var log := Rounds(q, now, script, n); log.ran == log.popped && InOrder(log, now)
    ensures AlwaysAhead(script, now, 1) ==> |Rounds(q, now, script, n).ran| == Due(q.heap, now)
  {
    if AlwaysAhead(script, now, 0) {
      ClockIsEnough(script, now, 0);
      RunsAreSound(q, now, script, n);
    }
    if AlwaysAhead(script, now, 1) {
      ClockIsEnough(script, now, 1);
      RunsAreFinite(q, now, script, n);
    }
  }
}
