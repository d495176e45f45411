/** server/handles.cpp: a connection of the server, which is closed only when
    everything it was given to send has been sent. */
module TcpStreams {
  import opened Interest

  /** The assertions that the servers' own read handlers make about the bytes that come:
      a positive length, a message with more than its identifiers, and something to read
      in whole-message mode. */
  datatype Assertion = OnLength | OnIdentifiers | OnEmptyRead

  /** How a read ended: with nothing more to read for now, so that the bytes are handed to
      the server, which may break one of its assertions; with the peer's end of stream; or
      with an error. */
  datatype Recv = Again | Breaks(assertion: Assertion) | PeerClosed | RecvError

  /** How a write ended: the socket took `n` bytes, or all there were if that is
      less; when bytes are left, it would block or it failed. */
  datatype Sent = Sent(n: nat, failed: bool)

  /** What the server does to the stream from a script: it sends bytes, or closes
      the stream unless it is being closed already. */
  datatype Act = SendBytes(n: nat) | CloseUnlessClosing

  /** `unsent` counts the bytes in the write buffer, `given` and `written` all bytes
      handed to `send` and taken by the socket. `connected` says that loop and server know
      the stream; `closes` counts the calls of `close_connect`. An HTTP server (`http`) has
      a table of its own, in which the stream is `known` from the first read on that is
      handed to the server. */
  datatype Stream = Stream(
    http: bool, known: bool,
    closing: bool, closed: bool,
    unsent: nat, given: nat, written: nat,
    events: Mask, revents: Mask,
    connected: bool, closes: nat)

  function Opened(http: bool): Stream {
    Stream(http, false, false, false, 0, 0, 0, {READ, ERROR}, {}, true, 0)
  }

  /** A step either works, or sends on a closed stream, or breaks an assertion: one of the
      server's read handler, the one of the HTTP server on its own table (`NoHandle`), or
      one on what loop and stream table know (`Broken`). */
  datatype Result = Ok(stream: Stream) | SentAfterClose | ReadBroke(assertion: Assertion) | NoHandle | Broken

  function SetEvents(s: Stream, events: Mask): Result {
    if s.connected then Ok(s.(events := events)) else Broken
  }

  function Send(s: Stream, n: nat): Result {
    if s.closed then SentAfterClose
    else SetEvents(s.(unsent := s.unsent + n, given := s.given + n), s.events + {WRITE})
  }

  /** `close`, with the server's `close_connect`, which unregisters the stream and, in the
      HTTP server, then looks it up in its own table. */
  function Close(s: Stream): Result {
    var t := s.(closing := true);
    if t.unsent > 0 then Ok(t)
    else if !t.connected then Broken
    else if t.http && !t.known then NoHandle
    else Ok(t.(known := false, connected := false, revents := {}, closes := t.closes + 1, closed := true))
  }

  function Do(s: Stream, act: Act): Result {
    match act
    case SendBytes(n) => Send(s, n)
    case CloseUnlessClosing => if s.closing || s.closed then Ok(s) else Close(s)
  }

  function DoAll(s: Stream, acts: seq<Act>): Result
    decreases |acts|
  {
    if acts == [] then Ok(s)
    else
      var r := Do(s, acts[0]);
      if r.Ok? then DoAll(r.stream, acts[1..]) else r
  }

  function HandleRead(s: Stream, recv: Recv, acts: seq<Act>): Result {
    match recv
    case Again => DoAll(s.(known := s.http), acts)
    case Breaks(a) => var r := DoAll(s.(known := s.http), acts); if r.Ok? then ReadBroke(a) else r
    case PeerClosed => Close(s)
    case RecvError => Close(s)
  }

  function HandleWrite(s: Stream, sent: Sent): Result {
    var n := if sent.n < s.unsent then sent.n else s.unsent;
    var t := s.(unsent := s.unsent - n, written := s.written + n);
    if t.unsent > 0 then (if sent.failed then Close(t) else Ok(t))
    else
      var r := SetEvents(t, t.events - {WRITE});
      if r.Ok? && t.closing then Close(r.stream) else r
  }

  /** What `handle_event` does after the read handler. */
  function AfterRead(s: Stream, sent: Sent): Result {
    var r := if WRITE in s.revents then HandleWrite(s, sent) else Ok(s);
    if r.Ok? && CLOSE in r.stream.revents then Close(r.stream) else r
  }

  /** One dispatch of `handle_event`; the error and modify handlers only log. */
  function HandleEvent(s: Stream, reported: Mask, recv: Recv, acts: seq<Act>, sent: Sent): Result {
    var s0 := s.(revents := reported);
    var r := if READ in s0.revents then HandleRead(s0, recv, acts) else Ok(s0);
    if r.Ok? then AfterRead(r.stream, sent) else r
  }

  // ---------- What every step keeps ----------

  ghost predicate Inv(s: Stream) {
    && (s.closing && !s.closed ==> s.unsent > 0)
    && READ in s.events && ERROR in s.events && (s.unsent > 0 ==> WRITE in s.events)
    && (s.closed <==> !s.connected) && (s.closed ==> s.closing && s.unsent == 0 && s.revents == {})
    && s.closes == (if s.closed then 1 else 0)
    && s.given == s.written + s.unsent
    && (s.known ==> s.http && s.connected) && (Unknown(s) ==> s.unsent == 0 && !s.closing)
  }

  /** An open stream that the HTTP server's table does not know. */
  predicate Unknown(s: Stream) {
    s.http && s.connected && !s.known
  }

  /** A step's result is fine if it keeps the invariant, or if an assertion breaks that is
      not about loop and stream table, or if it is the caller's fault. */
  ghost predicate Fine(r: Result) {
    (r.Ok? ==> Inv(r.stream)) && !r.Broken?
  }

  lemma CloseKeeps(s: Stream)
    requires Inv(s) && s.connected
    ensures Fine(Close(s)) && (Close(s).Ok? || Close(s).NoHandle?) && (Close(s).NoHandle? <==> Unknown(s))
  {}

  lemma {:induction false} DoAllKeeps(s: Stream, acts: seq<Act>)
    requires Inv(s) && !Unknown(s)
    ensures Fine(DoAll(s, acts)) && (DoAll(s, acts).Ok? || DoAll(s, acts).SentAfterClose?)
    ensures DoAll(s, acts).Ok? ==> !Unknown(DoAll(s, acts).stream) && DoAll(s, acts).stream.http == s.http
    decreases |acts|
  {
    if acts != [] {
      var r := Do(s, acts[0]);
      assert Fine(r);
      if r.Ok? {
        DoAllKeeps(r.stream, acts[1..]);
      }
    }
  }

  lemma HandleWriteKeeps(s: Stream, sent: Sent)
    requires Inv(s) && s.connected
    ensures Fine(HandleWrite(s, sent)) && HandleWrite(s, sent).Ok?
    ensures Unknown(HandleWrite(s, sent).stream) == Unknown(s) && HandleWrite(s, sent).stream.http == s.http
  {}

  /** A closed stream has no events left to handle. */
  lemma AfterReadKeeps(s: Stream, sent: Sent)
    requires Inv(s)
    ensures var r := AfterRead(s, sent);
            && Fine(r) && (r.Ok? || r.NoHandle?) && (r.NoHandle? <==> Unknown(s) && CLOSE in s.revents)
            && (r.Ok? ==> r.stream.http == s.http && Unknown(r.stream) == Unknown(s))
  {
    if WRITE in s.revents {
      HandleWriteKeeps(s, sent);
    }
    var r := if WRITE in s.revents then HandleWrite(s, sent) else Ok(s);
    if CLOSE in r.stream.revents {
      CloseKeeps(r.stream);
    }
  }

  /** A dispatch that ends the stream before any read of it was handed over. */
  predicate EndsUnread(reported: Mask, recv: Recv) {
    if READ in reported then recv.PeerClosed? || recv.RecvError? else CLOSE in reported
  }

  lemma HandleReadKeeps(s: Stream, recv: Recv, acts: seq<Act>)
    requires Inv(s) && s.connected
    ensures var r := HandleRead(s, recv, acts);
            && Fine(r) && (r.NoHandle? <==> Unknown(s) && (recv.PeerClosed? || recv.RecvError?))
            && (r.ReadBroke? <==> recv.Breaks? && DoAll(s.(known := s.http), acts).Ok?)
            && (r.ReadBroke? ==> r.assertion == recv.assertion)
            && (r.Ok? ==> !Unknown(r.stream) && r.stream.http == s.http)
  {
    CloseKeeps(s);
    assert Inv(s.(known := s.http));
    DoAllKeeps(s.(known := s.http), acts);
  }

  /** A dispatch on a connected stream never breaks an assertion on what loop and stream
      table know, one of the read handler exactly if the bytes that are handed over break
      it, and the one on the HTTP server's table exactly if it ends the stream before any
      read was handed over. */
  lemma HandleEventKeeps(s: Stream, reported: Mask, recv: Recv, acts: seq<Act>, sent: Sent)
    requires Inv(s) && s.connected
    ensures var r := HandleEvent(s, reported, recv, acts, sent);
            && Fine(r)
            && (r.ReadBroke? <==>
                READ in reported && recv.Breaks? && DoAll(s.(revents := reported, known := s.http), acts).Ok?)
            && (r.ReadBroke? ==> r.assertion == recv.assertion)
            && (r.NoHandle? <==> Unknown(s) && EndsUnread(reported, recv))
            && (r.Ok? ==> r.stream.http == s.http && (Unknown(r.stream) <==> Unknown(s) && Idle(reported)))
  {
    var s0 := s.(revents := reported);
    assert Inv(s0);
    HandleReadKeeps(s0, recv, acts);
    var r1 := if READ in s0.revents then HandleRead(s0, recv, acts) else Ok(s0);
    assert Fine(r1);
    if r1.Ok? {
      AfterReadKeeps(r1.stream, sent);
    }
  }

  /** A dispatch that neither reads nor closes. */
  predicate Idle(reported: Mask) {
    READ !in reported && CLOSE !in reported
  }

  // ---------- Runs ----------

  /** A step of a run: the loop dispatches reported events, or the server acts on its own. */
  datatype Step = Dispatch(reported: Mask, recv: Recv, acts: seq<Act>, sent: Sent) | Script(acts: seq<Act>)

  /** The loop dispatches only what is registered; a script of the HTTP server has the
      stream only from the first read on that is handed over. */
  predicate Possible(s: Stream, step: Step) {
    if step.Dispatch? then s.connected else !Unknown(s)
  }

  function Take(s: Stream, step: Step): Result {
    match step
    case Dispatch(reported, recv, acts, sent) => HandleEvent(s, reported, recv, acts, sent)
    case Script(acts) => DoAll(s, acts)
  }

  /** A run stops at the first impossible step or failure. */
  function Run(s: Stream, steps: seq<Step>): Result
    decreases |steps|
  {
    if steps == [] || !Possible(s, steps[0]) then Ok(s)
    else
      var r := Take(s, steps[0]);
      if r.Ok? then Run(r.stream, steps[1..]) else r
  }

  lemma TakeKeeps(s: Stream, step: Step)
    requires Inv(s) && Possible(s, step)
    ensures var r := Take(s, step);
            && Fine(r) && (r.ReadBroke? ==> BringsBreak(step, r.assertion))
            && (r.NoHandle? <==> Unknown(s) && Ends(step))
            && (r.Ok? ==> r.stream.http == s.http && (Unknown(r.stream) <==> Unknown(s) && Waits(step)))
  {
    match step
    case Dispatch(reported, recv, acts, sent) => HandleEventKeeps(s, reported, recv, acts, sent);
    case Script(acts) => DoAllKeeps(s, acts);
  }

  predicate BringsBreak(step: Step, a: Assertion) {
    step.Dispatch? && READ in step.reported && step.recv == Breaks(a)
  }

  predicate Ends(step: Step) {
    step.Dispatch? && EndsUnread(step.reported, step.recv)
  }

  predicate Waits(step: Step) {
    step.Dispatch? && Idle(step.reported)
  }

  /** Over every run: a stream that is closing but not closed has bytes to send and waits to
      be told that it can write them; it is closed at most once, and only when every byte
      it was given has been written. No assertion on what loop and stream table know
      breaks; one of the read handler only by a read that breaks it; and the one on the
      HTTP server's table only in an HTTP server. */
  lemma {:induction false} RunKeeps(s: Stream, steps: seq<Step>)
    requires Inv(s)
    ensures Fine(Run(s, steps))
    ensures Run(s, steps).ReadBroke? ==> exists step :: step in steps && BringsBreak(step, Run(s, steps).assertion)
    ensures Run(s, steps).NoHandle? ==> Unknown(s)
    decreases |steps|
  {
    if steps != [] && Possible(s, steps[0]) {
      var r := Take(s, steps[0]);
      TakeKeeps(s, steps[0]);
      assert steps[0] in steps;
      if r.Ok? {
        RunKeeps(r.stream, steps[1..]);
      }
    }
  }

  /** Step `k` ends the stream, and before it nothing was read and nothing was closed. */
  predicate EndsFirst(steps: seq<Step>, k: nat)
    requires k < |steps|
  {
    Ends(steps[k]) && forall j :: 0 <= j < k ==> Waits(steps[j])
  }

  lemma FirstShift(steps: seq<Step>)
    requires steps != []
    ensures (exists k :: 0 <= k < |steps| && EndsFirst(steps, k)) <==>
            Ends(steps[0]) || (Waits(steps[0]) && exists k :: 0 <= k < |steps[1..]| && EndsFirst(steps[1..], k))
  {
    assert EndsFirst(steps, 0) <==> Ends(steps[0]);
    forall k | 0 < k < |steps|
      ensures EndsFirst(steps, k) <==> Waits(steps[0]) && EndsFirst(steps[1..], k - 1)
    {
      assert forall j :: 0 < j < k ==> steps[j] == steps[1..][j - 1];
    }
    if Waits(steps[0]) && exists k :: 0 <= k < |steps[1..]| && EndsFirst(steps[1..], k) {
      var k :| 0 <= k < |steps[1..]| && EndsFirst(steps[1..], k);
      assert EndsFirst(steps, k + 1);
    }
  }

  lemma {:induction false} UnknownRun(s: Stream, steps: seq<Step>)
    requires Inv(s) && Unknown(s)
    ensures Run(s, steps).NoHandle? <==> exists k :: 0 <= k < |steps| && EndsFirst(steps, k)
    decreases |steps|
  {
    if steps != [] {
      FirstShift(steps);
      if Possible(s, steps[0]) {
        var r := Take(s, steps[0]);
        TakeKeeps(s, steps[0]);
        if r.Ok? && Waits(steps[0]) {
          UnknownRun(r.stream, steps[1..]);
        } else if r.Ok? {
          RunKeeps(r.stream, steps[1..]);
        }
      }
    }
  }

  /** The assertion on the HTTP server's table breaks exactly if a stream is ended before
      any read of it was handed over: by a read that finds the end of the stream or an
      error, or by a reported close, with nothing but other events before. */
  lemma HttpCloseExact(steps: seq<Step>)
    ensures Run(Opened(true), steps).NoHandle? <==> exists k :: 0 <= k < |steps| && EndsFirst(steps, k)
    ensures !Run(Opened(false), steps).NoHandle?
  {
    UnknownRun(Opened(true), steps);
    RunKeeps(Opened(false), steps);
  }

  // ---------- What every step does ----------

  /** The bytes that some acts send. */
  function Sends(acts: seq<Act>): nat {
    if acts == [] then 0 else (if acts[0].SendBytes? then acts[0].n else 0) + Sends(acts[1..])
  }

  predicate SendsAny(acts: seq<Act>) {
    exists act :: act in acts && act.SendBytes?
  }

  predicate AsksClose(acts: seq<Act>) {
    CloseUnlessClosing in acts
  }

  /** The first close of the acts finds nothing unsent. */
  predicate ClosesAt(acts: seq<Act>, unsent: nat) {
    acts != [] && match acts[0]
                  case SendBytes(n) => ClosesAt(acts[1..], unsent + n)
                  case CloseUnlessClosing => unsent == 0
  }

  /** `t` is `s` after acts with these sends and closes; the rest is what they leave alone. */
  ghost predicate Acted(s: Stream, acts: seq<Act>, t: Stream) {
    && t.given == s.given + Sends(acts) && t.unsent == s.unsent + Sends(acts) && t.written == s.written
    && (t.closing <==> s.closing || AsksClose(acts))
    && (t.closed <==> s.closed || (!s.closing && ClosesAt(acts, s.unsent)))
    && (WRITE in t.events <==> WRITE in s.events || SendsAny(acts)) && t.events - {WRITE} == s.events - {WRITE}
    && t.revents == if t.closed then {} else s.revents
  }

  lemma ActedStep(s: Stream, acts: seq<Act>, m: Stream, t: Stream)
    requires Inv(s) && !Unknown(s) && acts != [] && Do(s, acts[0]) == Ok(m) && Acted(m, acts[1..], t)
    requires s.closed ==> !SendsAny(acts)
    requires m.closed ==> Sends(acts[1..]) == 0
    ensures Acted(s, acts, t)
  {
    assert SendsAny(acts) <==> acts[0].SendBytes? || SendsAny(acts[1..]);
    assert AsksClose(acts) <==> acts[0] == CloseUnlessClosing || AsksClose(acts[1..]);
  }

  lemma {:induction false} DoAllExact(s: Stream, acts: seq<Act>)
    requires Inv(s) && !Unknown(s) && DoAll(s, acts).Ok?
    ensures Acted(s, acts, DoAll(s, acts).stream)
    ensures s.closed ==> !SendsAny(acts) && Sends(acts) == 0
    decreases |acts|
  {
    if acts != [] {
      var m := Do(s, acts[0]).stream;
      DoAllKeeps(s, [acts[0]]);
      assert [acts[0]][1..] == [];
      DoAllExact(m, acts[1..]);
      ActedStep(s, acts, m, DoAll(s, acts).stream);
    }
  }

  function Least(a: nat, b: nat): nat {
    if a < b then a else b
  }

  /** `t` is `s` after a write of which the socket took `took` bytes, or none, and perhaps
      a close. */
  ghost predicate Written(s: Stream, write: bool, took: nat, failed: bool, close: bool, t: Stream) {
    && t.given == s.given && t.written == s.written + took && t.unsent == s.unsent - took
    && (t.closing <==> s.closing || close || (write && t.unsent > 0 && failed))
    && (t.closed <==> t.closing && t.unsent == 0)
    && (!t.closed ==> (WRITE in t.events <==> if write then t.unsent > 0 else WRITE in s.events))
    && t.events - {WRITE} == s.events - {WRITE}
  }

  lemma HandleWriteExact(s: Stream, sent: Sent)
    requires Inv(s) && s.connected && HandleWrite(s, sent).Ok?
    ensures var t := HandleWrite(s, sent).stream;
            Written(s, true, Least(sent.n, s.unsent), sent.failed, false, t) && (t.closed || t.revents == s.revents)
  {}

  lemma AfterReadExact(s: Stream, sent: Sent)
    requires Inv(s) && AfterRead(s, sent).Ok?
    ensures var write := WRITE in s.revents;
            Written(s, write, if write then Least(sent.n, s.unsent) else 0, sent.failed, CLOSE in s.revents,
                    AfterRead(s, sent).stream)
  {
    if WRITE in s.revents {
      HandleWriteExact(s, sent);
      HandleWriteKeeps(s, sent);
    }
  }

  /** What a dispatch hands over, and whether the stream is closed before its write. */
  predicate HandsOver(reported: Mask, recv: Recv) {
    READ in reported && recv.Again?
  }

  predicate ReadCloses(s: Stream, reported: Mask, recv: Recv, acts: seq<Act>) {
    READ in reported && if recv.Again? then !s.closing && ClosesAt(acts, s.unsent) else s.unsent == 0
  }

  function Gave(step: Step): nat {
    match step
    case Dispatch(reported, recv, acts, _) => if HandsOver(reported, recv) then Sends(acts) else 0
    case Script(acts) => Sends(acts)
  }

  /** What the socket takes: the lesser of what it could and what there is then. */
  function Took(s: Stream, step: Step): nat {
    match step
    case Dispatch(reported, recv, acts, sent) =>
      if WRITE in reported && !ReadCloses(s, reported, recv, acts) then Least(sent.n, s.unsent + Gave(step)) else 0
    case Script(_) => 0
  }

  lemma ReadExact(s: Stream, reported: Mask, recv: Recv, acts: seq<Act>)
    requires Inv(s) && s.connected && READ in reported && HandleRead(s.(revents := reported), recv, acts).Ok?
    ensures var t := HandleRead(s.(revents := reported), recv, acts).stream;
            && t.given == s.given + (if recv.Again? then Sends(acts) else 0) && t.written == s.written
            && t.unsent == s.unsent + (if recv.Again? then Sends(acts) else 0)
            && (t.closing <==> s.closing || !recv.Again? || AsksClose(acts))
            && (t.closed <==> ReadCloses(s, reported, recv, acts))
            && (WRITE in t.events <==> WRITE in s.events || (recv.Again? && SendsAny(acts)))
            && t.events - {WRITE} == s.events - {WRITE} && t.revents == if t.closed then {} else reported
  {
    var s0 := s.(revents := reported);
    if recv.Again? {
      assert Inv(s0.(known := s.http));
      DoAllExact(s0.(known := s.http), acts);
    }
  }

  /** A dispatch, from what was reported, what the read brought and the acts it led to, and
      what the socket took: all that it changes. The bytes given are those of the sends
      made, the bytes written those that the socket took; an open stream wants to write
      after a write exactly if bytes are left; and a stream is closed exactly if it is
      closing and nothing is left. */
  lemma DispatchExact(s: Stream, reported: Mask, recv: Recv, acts: seq<Act>, sent: Sent)
    requires Inv(s) && s.connected && HandleEvent(s, reported, recv, acts, sent).Ok?
    ensures var t, step := HandleEvent(s, reported, recv, acts, sent).stream, Dispatch(reported, recv, acts, sent);
            var write := WRITE in reported && !ReadCloses(s, reported, recv, acts);
            && t.given == s.given + Gave(step) && t.written == s.written + Took(s, step)
            && t.unsent == s.unsent + Gave(step) - Took(s, step)
            && (t.closing <==> s.closing || CLOSE in reported || (write && t.unsent > 0 && sent.failed)
                               || (READ in reported && (!recv.Again? || AsksClose(acts))))
            && (t.closed <==> t.closing && t.unsent == 0)
            && (!t.closed ==> (WRITE in t.events <==>
                  if write then t.unsent > 0 else WRITE in s.events || (HandsOver(reported, recv) && SendsAny(acts))))
            && t.events - {WRITE} == s.events - {WRITE}
  {
    var s0 := s.(revents := reported);
    var r := if READ in reported then HandleRead(s0, recv, acts) else Ok(s0);
    if READ in reported {
      ReadExact(s, reported, recv, acts);
      HandleReadKeeps(s0, recv, acts);
    }
    AfterReadExact(r.stream, sent);
  }

  function AllGave(s: Stream, steps: seq<Step>): nat
    decreases |steps|
  {
    if steps == [] || !Possible(s, steps[0]) || !Take(s, steps[0]).Ok? then 0
    else Gave(steps[0]) + AllGave(Take(s, steps[0]).stream, steps[1..])
  }

  function AllTook(s: Stream, steps: seq<Step>): nat
    decreases |steps|
  {
    if steps == [] || !Possible(s, steps[0]) || !Take(s, steps[0]).Ok? then 0
    else Took(s, steps[0]) + AllTook(Take(s, steps[0]).stream, steps[1..])
  }

  lemma TakeExact(s: Stream, step: Step)
    requires Inv(s) && Possible(s, step) && Take(s, step).Ok?
    ensures var t := Take(s, step).stream;
            Inv(t) && t.given == s.given + Gave(step) && t.written == s.written + Took(s, step)
  {
    TakeKeeps(s, step);
    match step
    case Dispatch(reported, recv, acts, sent) => DispatchExact(s, reported, recv, acts, sent);
    case Script(acts) => DoAllExact(s, acts);
  }

  /** Over every run: the bytes given are those of the sends made, the bytes written those
      that the socket took at each write, and those unsent are the difference. */
  lemma {:induction false} RunTotals(s: Stream, steps: seq<Step>)
    requires Inv(s) && Run(s, steps).Ok?
    ensures var t := Run(s, steps).stream;
            && t.given == s.given + AllGave(s, steps) && t.written == s.written + AllTook(s, steps)
            && t.unsent == s.unsent + AllGave(s, steps) - AllTook(s, steps)
    decreases |steps|
  {
    if steps != [] && Possible(s, steps[0]) {
      TakeExact(s, steps[0]);
      RunTotals(Take(s, steps[0]).stream, steps[1..]);
      RunKeeps(s, steps);
    }
  }

  /** Writes only: what the socket could take each time. */
  predicate OnlyWrites(steps: seq<Step>) {
    forall step :: step in steps ==> step.Dispatch? && step.reported == {WRITE}
  }

  function Room(steps: seq<Step>): nat
    requires OnlyWrites(steps)
  {
    if steps == [] then 0
    else
      assert steps[0] in steps;
      steps[0].sent.n + Room(steps[1..])
  }

  /** Flush, then close: a closing stream is closed by writes, whether they fail or not,
      exactly if the socket takes all that is unsent. */
  lemma {:induction false} FlushCloses(s: Stream, steps: seq<Step>)
    requires Inv(s) && s.closing && !Unknown(s) && OnlyWrites(steps)
    ensures Run(s, steps).Ok? && (Run(s, steps).stream.closed <==> s.closed || (steps != [] && Room(steps) >= s.unsent))
    ensures !Run(s, steps).stream.closed ==> Run(s, steps).stream.unsent == s.unsent - Room(steps)
    decreases |steps|
  {
    if steps != [] && s.connected {
      var step := steps[0];
      assert step in steps;
      HandleEventKeeps(s, step.reported, step.recv, step.acts, step.sent);
      DispatchExact(s, step.reported, step.recv, step.acts, step.sent);
      FlushCloses(Take(s, step).stream, steps[1..]);
    }
  }

  /** Act `j` is a send that comes when the stream is closed, before the acts or by them. */
  predicate LateAt(s: Stream, acts: seq<Act>, j: nat)
    requires j < |acts|
  {
    acts[j].SendBytes? && (s.closed || (!s.closing && ClosesAt(acts[..j], s.unsent)))
  }

  lemma LateShift(s: Stream, acts: seq<Act>, m: Stream, j: nat)
    requires Inv(s) && !Unknown(s) && acts != [] && Do(s, acts[0]) == Ok(m) && 0 < j < |acts|
    ensures LateAt(s, acts, j) <==> LateAt(m, acts[1..], j - 1)
  {
    assert acts[..j][1..] == acts[1..][..j - 1];
  }

  /** A run of acts fails exactly if there is such a send. */
  lemma {:induction false} LateExact(s: Stream, acts: seq<Act>)
    requires Inv(s) && !Unknown(s)
    ensures DoAll(s, acts).SentAfterClose? <==> exists j :: 0 <= j < |acts| && LateAt(s, acts, j)
    decreases |acts|
  {
    if acts != [] {
      assert acts[..0] == [];
      assert LateAt(s, acts, 0) <==> Do(s, acts[0]).SentAfterClose?;
      DoAllKeeps(s, [acts[0]]);
      assert [acts[0]][1..] == [];
      if Do(s, acts[0]).Ok? {
        var m := Do(s, acts[0]).stream;
        LateExact(m, acts[1..]);
        forall j | 0 < j < |acts|
          ensures LateAt(s, acts, j) <==> LateAt(m, acts[1..], j - 1)
        {
          LateShift(s, acts, m, j);
        }
        assert forall j :: 0 <= j < |acts[1..]| && LateAt(m, acts[1..], j) ==> LateAt(s, acts, j + 1);
      }
    }
  }

  /** Nothing undoes a close: once closing, always closing; once closed, nothing changes. */
  lemma {:induction false} CloseIsFinal(s: Stream, steps: seq<Step>)
    requires Inv(s) && Run(s, steps).Ok?
    ensures s.closing ==> Run(s, steps).stream.closing
    ensures s.closed ==> Run(s, steps).stream == s
    decreases |steps|
  {
    if steps != [] && Possible(s, steps[0]) {
      TakeExact(s, steps[0]);
      TakeFinal(s, steps[0]);
      CloseIsFinal(Take(s, steps[0]).stream, steps[1..]);
    }
  }

  lemma TakeFinal(s: Stream, step: Step)
    requires Inv(s) && Possible(s, step) && Take(s, step).Ok?
    ensures s.closing ==> Take(s, step).stream.closing
    ensures s.closed ==> Take(s, step).stream == s
  {
    match step
    case Dispatch(reported, recv, acts, sent) => DispatchExact(s, reported, recv, acts, sent);
    case Script(acts) => DoAllFinal(s, acts);
  }

  lemma {:induction false} DoAllFinal(s: Stream, acts: seq<Act>)
    ensures DoAll(s, acts).Ok? && s.closing ==> DoAll(s, acts).stream.closing
    ensures DoAll(s, acts).Ok? && s.closed ==> DoAll(s, acts).stream == s
    decreases |acts|
  {
    if acts != [] && Do(s, acts[0]).Ok? {
      DoAllFinal(Do(s, acts[0]).stream, acts[1..]);
    }
  }
}
