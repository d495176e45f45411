/** client/connector.cpp: the client's connection, its retries and the handlers
    that must never run on a closed connector. */
module Connectors {
  import opened Interest
  import opened Wrappers
  import opened Bytes
  import F = Framing

  const MAX_RETRY := 10

  datatype Status = CLOSED | CONNECTING | CONNECTED

  /** What the non-blocking connect(2) returns: -1 with EINPROGRESS or EALREADY,
      0, or -1 with another error. */
  datatype Attempt = InProgress | Immediate | Refused

  /** What the handlers find: whether a probing read fails, the pending socket
      error, the bytes that a read brings or that it ends with an error or the end of
      the stream, how a write ends, and how many bytes the client's own callbacks send. */
  datatype Io = Io(
    probeFails: bool, soError: bool, readEnds: bool, bytes: seq<byte>, taken: nat, writeFails: bool, sends: nat)

  /** The client with its current connector (`conn`, as soon as there is one) and
      what the loop holds for them: the registration and the reconnect timers. The client
      keeps an unfinished message (`partial`, its length and the data so far), the connector
      has the bytes that no length was read from yet; `handed` are the messages handed on. */
  datatype Client = Client(
    status: Status,
    conn: Option<Status>,
    registered: bool,
    events: Mask,
    revents: Mask,
    unsent: nat,
    retryCount: nat,
    timers: nat,
    shutdown: bool,
    partial: seq<byte>,
    buffered: seq<byte>,
    handed: seq<seq<byte>>)
  {
    function Unread(): seq<byte> {
      partial + buffered
    }
  }

  const FRESH := Client(CLOSED, None, false, {}, {}, 0, 0, 0, false, [], [], [])

  /** A step works, or breaks an assertion on a message (its length is not positive, or it
      has no more than its identifiers), or breaks one on the status or the registration
      (`Broken`). */
  datatype Result = Ok(client: Client) | BadMessage(verdict: F.Verdict) | Broken

  /** `_start_connect`. A connect that returns 0 is reported as an error by
      `_connect`, but the caller goes on because the result is not negative. The new
      connector has buffers of its own; the unfinished message is the client's. */
  function StartConnect(c: Client, attempt: Attempt): Result {
    if c.status != CLOSED then Broken
    else
      var d := c.(conn := Some(CLOSED), registered := false, events := {WRITE, READ}, revents := {},
                  unsent := 0, buffered := []);
      match attempt
      case Refused => Ok(d)
      case InProgress =>
        Ok(d.(conn := Some(CONNECTING), registered := true, status := CONNECTING, retryCount := c.retryCount + 1))
      case Immediate => Ok(d.(registered := true, status := CONNECTING, retryCount := c.retryCount + 1))
  }

  /** `start_connect`, with the timer it starts. */
  function Begin(c: Client, attempt: Attempt): Result {
    var r := StartConnect(c.(retryCount := 0), attempt);
    if r.Ok? then Ok(r.client.(timers := r.client.timers + 1)) else r
  }

  /** `Connector::close` and `Client::on_close`. */
  function Close(c: Client): Result {
    if c.conn.None? || !c.registered then Broken
    else Ok(c.(conn := Some(CLOSED), registered := false, revents := {}, status := CLOSED,
               shutdown := c.shutdown || c.retryCount > MAX_RETRY))
  }

  function SetEvents(c: Client, events: Mask): Result {
    if c.registered then Ok(c.(events := events)) else Broken
  }

  function Send(c: Client, n: nat): Result {
    if n == 0 then Ok(c) else SetEvents(c.(unsent := c.unsent + n), c.events + {WRITE})
  }

  /** `on_read`: what is read from the unfinished message, the buffer and the new bytes. */
  function TakeIn(c: Client, bytes: seq<byte>): Client {
    var got := F.Read(c.Unread() + bytes);
    var d := c.(handed := c.handed + got.msgs);
    if |got.rest| < 4 then d.(partial := [], buffered := got.rest) else d.(partial := got.rest, buffered := [])
  }

  function HandleRead(c: Client, io: Io): Result {
    if c.conn.None? || c.conn.value == CLOSED then Broken
    else if c.conn.value == CONNECTING then (if io.probeFails then Close(c) else Ok(c))
    else if io.readEnds then Close(c)
    else
      var verdict := F.Read(c.Unread() + io.bytes).verdict;
      var r := Send(TakeIn(c, io.bytes), io.sends);
      if r.Ok? && !verdict.Fine? then BadMessage(verdict) else r
  }

  function HandleWrite(c: Client, io: Io): Result {
    if c.conn.None? || c.conn.value == CLOSED then Broken
    else if c.conn.value == CONNECTING then
      if io.soError then Close(c)
      else
        var r := SetEvents(c.(conn := Some(CONNECTED)), c.events - {WRITE});
        if r.Ok? then Send(r.client.(retryCount := 0, status := CONNECTED), io.sends) else r
    else
      var n := if io.taken < c.unsent then io.taken else c.unsent;
      var d := c.(unsent := c.unsent - n);
      if d.unsent == 0 then SetEvents(d, d.events - {WRITE})
      else if io.writeFails then Close(d) else Ok(d)
  }

  function HandleEvent(c: Client, reported: Mask, io: Io): Result {
    var c0 := c.(revents := reported);
    var r := if READ in c0.revents then HandleRead(c0, io) else Ok(c0);
    if r.Ok? then AfterRead(r.client, io) else r
  }

  /** What `handle_event` does after the read handler. */
  function AfterRead(c: Client, io: Io): Result {
    var r := if WRITE in c.revents then HandleWrite(c, io) else Ok(c);
    if r.Ok? && CLOSE in r.client.revents then Close(r.client) else r
  }

  /** `_re_connect`, run by a timer that is gone afterwards. */
  function ReConnect(c: Client, attempt: Attempt): Result {
    var d := c.(timers := if c.timers == 0 then 0 else c.timers - 1);
    if d.conn.None? then Broken
    else if d.retryCount > MAX_RETRY || d.status == CONNECTED then Ok(d)
    else TryAgain(d, attempt)
  }

  function TryAgain(c: Client, attempt: Attempt): Result {
    var r1 := if c.status == CONNECTING then Close(c) else Ok(c);
    var r2 := if r1.Ok? && r1.client.status == CLOSED then StartConnect(r1.client, attempt) else r1;
    if r2.Ok? then Ok(r2.client.(timers := r2.client.timers + 1)) else r2
  }

  // ---------- Steps and runs ----------

  datatype Step =
    | StartUp(attempt: Attempt)
    | Dispatch(reported: Mask, io: Io)
    | Timeout(attempt: Attempt)

  /** `start_connect` is called once; the loop dispatches what is registered, runs
      timers that are pending. After a shutdown it dispatches nothing more, but it still
      runs the timers of the iteration that it is in. */
  predicate Possible(c: Client, step: Step) {
    match step
    case StartUp(_) => c == FRESH
    case Dispatch(_, _) => c.registered && !c.shutdown
    case Timeout(_) => c.timers > 0
  }

  function Take(c: Client, step: Step): Result {
    match step
    case StartUp(attempt) => Begin(c, attempt)
    case Dispatch(reported, io) => HandleEvent(c, reported, io)
    case Timeout(attempt) => ReConnect(c, attempt)
  }

  /** A run stops at the first impossible step or broken assertion. */
  function Run(c: Client, steps: seq<Step>): Result
    decreases |steps|
  {
    if steps == [] || !Possible(c, steps[0]) then Ok(c)
    else
      var r := Take(c, steps[0]);
      if r.Ok? then Run(r.client, steps[1..]) else r
  }

  // ---------- What every step keeps ----------

  /** A connector that the loop may still call although it is closed: what a
      connect that returned 0 leaves behind. */
  predicate Zombie(c: Client) {
    c.registered && c.conn == Some(CLOSED)
  }

  ghost predicate Inv(c: Client) {
    && (c.conn.None? ==> c == FRESH)
    && (c.registered <==> c.status != CLOSED)
    && (c.conn.Some? ==> c.conn.value == c.status || (Zombie(c) && c.status == CONNECTING))
    && c.timers <= 1 && c.retryCount <= MAX_RETRY + 1
    && (!c.registered ==> c.revents == {})
    && Listens(c) && Counts(c)
  }

  /** What the loop is asked for: the end of a pending connect, bytes to read, and
      room to write as long as bytes are unsent. */
  ghost predicate Listens(c: Client) {
    && (c.registered ==> READ in c.events)
    && (c.status == CONNECTING ==> WRITE in c.events && c.unsent == 0)
    && (c.status == CONNECTED && c.unsent > 0 ==> WRITE in c.events)
  }

  /** What the retry count says; a shutdown is final. */
  ghost predicate Counts(c: Client) {
    && (c.shutdown ==> c.status == CLOSED && c.retryCount > MAX_RETRY)
    && (c.status == CONNECTED ==> c.retryCount == 0)
    && (c.status == CONNECTING ==> c.retryCount > 0 && (c.timers == 0 ==> c.retryCount > MAX_RETRY))
    && (c.status == CLOSED && !c.shutdown ==> c.retryCount <= MAX_RETRY && (c.timers == 0 ==> c.retryCount == 0))
  }

  ghost predicate Kept(r: Result) {
    r.Ok? && Inv(r.client)
  }

  /** The bytes of a read on a connected client are judged with those at hand. */
  function Judged(c: Client, io: Io): F.Verdict {
    if c.conn == Some(CONNECTED) && !io.readEnds then F.Read(c.Unread() + io.bytes).verdict else F.Fine
  }

  lemma HandleReadKeeps(c: Client, io: Io)
    requires Inv(c) && c.registered
    ensures Zombie(c) <==> HandleRead(c, io).Broken?
    ensures HandleRead(c, io).BadMessage? <==> Judged(c, io) != F.Fine
    ensures HandleRead(c, io).BadMessage? ==> HandleRead(c, io).verdict == Judged(c, io)
    ensures HandleRead(c, io).Ok? ==> Inv(HandleRead(c, io).client) && !Zombie(HandleRead(c, io).client)
  {}

  lemma HandleWriteKeeps(c: Client, io: Io)
    requires Inv(c) && c.registered
    ensures Zombie(c) <==> HandleWrite(c, io).Broken?
    ensures !Zombie(c) ==> Kept(HandleWrite(c, io)) && !Zombie(HandleWrite(c, io).client)
  {}

  lemma StartUpKeeps(attempt: Attempt)
    ensures Kept(Begin(FRESH, attempt))
  {}

  lemma ReConnectKeeps(c: Client, attempt: Attempt)
    requires Inv(c) && c.timers > 0
    ensures Kept(ReConnect(c, attempt))
  {}

  /** What follows the read handler; a closed connector has no events left to handle. */
  lemma AfterReadExact(c: Client, io: Io)
    requires Inv(c)
    ensures var r := AfterRead(c, io);
            && (r.Broken? <==> Zombie(c) && WRITE in c.revents) && !r.BadMessage?
            && (r.Ok? ==> Inv(r.client) && (Zombie(r.client) ==> Zombie(c)))
  {
    if WRITE in c.revents {
      HandleWriteKeeps(c, io);
    }
  }

  lemma HandleEventExact(c: Client, reported: Mask, io: Io)
    requires Inv(c) && c.registered
    ensures var r := HandleEvent(c, reported, io);
            && (r.Broken? <==> Zombie(c) && (READ in reported || WRITE in reported))
            && (r.BadMessage? <==> READ in reported && Judged(c, io) != F.Fine)
            && (r.BadMessage? ==> r.verdict == Judged(c, io))
            && (r.Ok? ==> Inv(r.client) && (Zombie(r.client) ==> Zombie(c)))
  {
    var c0 := c.(revents := reported);
    assert Inv(c0);
    HandleReadKeeps(c0, io);
    var r := if READ in reported then HandleRead(c0, io) else Ok(c0);
    if r.Ok? {
      AfterReadExact(r.client, io);
    }
  }

  /** A possible step breaks an assertion on status or registration exactly if it calls a
      read or write handler on the leftover of a connect that returned 0, and one on a
      message exactly if a read on a connected client reaches a length that is not positive
      or completes a message of at most eight bytes, whichever is first. */
  lemma StepExact(c: Client, step: Step)
    requires Inv(c) && Possible(c, step)
    ensures Take(c, step).Broken? <==> step.Dispatch? && Zombie(c) && (READ in step.reported || WRITE in step.reported)
    ensures Take(c, step).BadMessage? <==>
            step.Dispatch? && READ in step.reported && Judged(c, step.io) != F.Fine
    ensures Take(c, step).BadMessage? ==> Take(c, step).verdict == Judged(c, step.io)
    ensures Take(c, step).Ok? ==> Inv(Take(c, step).client)
  {
    match step
    case StartUp(attempt) => StartUpKeeps(attempt);
    case Dispatch(reported, io) => HandleEventExact(c, reported, io);
    case Timeout(attempt) => ReConnectKeeps(c, attempt);
  }

  /** A zombie only comes from a connect that returns 0. */
  lemma ZombieOnlyByZero(c: Client, step: Step)
    requires Inv(c) && Possible(c, step) && Take(c, step).Ok? && !Zombie(c)
    ensures Zombie(Take(c, step).client) ==> !step.Dispatch? && step.attempt == Immediate
  {
    if step.Dispatch? {
      HandleEventExact(c, step.reported, step.io);
    }
  }

  predicate NeverImmediate(steps: seq<Step>) {
    forall s :: s in steps ==> s.Dispatch? || s.attempt != Immediate
  }

  /** Over every run in which connect never returns 0, no handler runs on a closed
      connector and no other assertion on status or registration breaks; the client's
      status is its connector's, the loop knows the connector exactly while it is not
      closed, at most one reconnect timer is pending, and there are at most eleven
      attempts in a row. Only a message can break an assertion. */
  lemma {:induction false} RunIsSafe(c: Client, steps: seq<Step>)
    requires Inv(c) && !Zombie(c) && NeverImmediate(steps)
    ensures !Run(c, steps).Broken?
    ensures Run(c, steps).Ok? ==> Kept(Run(c, steps)) && !Zombie(Run(c, steps).client)
    ensures Run(c, steps).Ok? ==> var d := Run(c, steps).client; d.conn.Some? ==> d.conn.value == d.status
    decreases |steps|
  {
    if steps != [] && Possible(c, steps[0]) {
      StepExact(c, steps[0]);
      assert steps[0] in steps;
      if Take(c, steps[0]).Ok? {
        ZombieOnlyByZero(c, steps[0]);
        RunIsSafe(Take(c, steps[0]).client, steps[1..]);
      }
    }
  }

  /** With a connect that returns 0 the first read event breaks the assertion. */
  lemma ImmediateBreaks(io: Io)
    ensures Run(FRESH, [StartUp(Immediate), Dispatch({READ}, io)]).Broken?
  {
    var c := Begin(FRESH, Immediate).client;
    assert Zombie(c) && Possible(c, Dispatch({READ}, io));
    assert [StartUp(Immediate), Dispatch({READ}, io)][1..] == [Dispatch({READ}, io)];
    assert Run(c, [Dispatch({READ}, io)]).Broken?;
  }

  /** In any run from the start: a broken assertion on status or registration means that
      some connect returned 0. */
  lemma BrokenMeansImmediate(steps: seq<Step>)
    ensures Run(FRESH, steps).Broken? ==> !NeverImmediate(steps)
  {
    if NeverImmediate(steps) {
      RunIsSafe(FRESH, steps);
    }
  }

  // ---------- What every dispatch does ----------

  function Least(a: nat, b: nat): nat {
    if a < b then a else b
  }

  /** A dispatch leaves the connection lost or with this status. */
  ghost predicate Leaves(c: Client, lost: bool, status: Status, d: Client) {
    && d.status == (if lost then CLOSED else status) && d.conn == Some(d.status) && (d.registered <==> !lost)
    && d.timers == c.timers && d.events - {WRITE} == c.events - {WRITE}
  }

  lemma ConnectingRead(c: Client, io: Io)
    requires Inv(c) && c.conn == Some(CONNECTING)
    ensures HandleRead(c, io).Ok?
    ensures var d := HandleRead(c, io).client;
            && Leaves(c, io.probeFails, CONNECTING, d) && d.events == c.events && d.unsent == c.unsent
            && d.retryCount == c.retryCount && (d.shutdown <==> io.probeFails && c.retryCount > MAX_RETRY)
            && d.revents == if io.probeFails then {} else c.revents
  {}

  /** What follows the read handler while connecting. */
  lemma ConnectingRest(c: Client, io: Io)
    requires Inv(c) && c.conn == Some(CONNECTING)
    ensures AfterRead(c, io).Ok?
    ensures var d, joined := AfterRead(c, io).client, WRITE in c.revents && !io.soError;
            var lost := (WRITE in c.revents && io.soError) || CLOSE in c.revents;
            && Leaves(c, lost, if joined then CONNECTED else CONNECTING, d)
            && d.unsent == c.unsent + (if joined then io.sends else 0)
            && d.retryCount == (if joined then 0 else c.retryCount)
            && (d.shutdown <==> lost && !joined && c.retryCount > MAX_RETRY)
            && (!lost ==> (WRITE in d.events <==> !joined || io.sends > 0))
  {
    if WRITE in c.revents {
      HandleWriteKeeps(c, io);
    }
  }

  /** A connecting client is lost by a dispatch exactly if a reported read finds that the
      connect failed, a reported write finds a socket error, or a close is reported;
      otherwise it is connected exactly if a write is reported. A connect that is found to
      have succeeded, even if a reported close then ends it, resets the retry count. */
  lemma ConnectingExact(c: Client, reported: Mask, io: Io)
    requires Inv(c) && c.conn == Some(CONNECTING)
    ensures HandleEvent(c, reported, io).Ok?
    ensures var d := HandleEvent(c, reported, io).client;
            var failed := READ in reported && io.probeFails;
            var joined := WRITE in reported && !io.soError && !failed;
            var lost := failed || (WRITE in reported && io.soError) || CLOSE in reported;
            && Leaves(c, lost, if WRITE in reported then CONNECTED else CONNECTING, d)
            && d.unsent == c.unsent + (if joined then io.sends else 0)
            && d.retryCount == (if joined then 0 else c.retryCount)
            && (d.shutdown <==> lost && !joined && c.retryCount > MAX_RETRY)
            && (!lost ==> (WRITE in d.events <==> !joined || io.sends > 0))
  {
    var c0 := c.(revents := reported);
    assert Inv(c0);
    ConnectingRead(c0, io);
    HandleReadKeeps(c0, io);
    var r := if READ in reported then HandleRead(c0, io) else Ok(c0);
    if !(READ in reported && io.probeFails) {
      ConnectingRest(r.client, io);
    }
  }

  lemma ConnectedRead(c: Client, io: Io)
    requires Inv(c) && c.conn == Some(CONNECTED) && HandleRead(c, io).Ok?
    ensures var d := HandleRead(c, io).client;
            && Leaves(c, io.readEnds, CONNECTED, d) && d.retryCount == 0 && !d.shutdown
            && d.unsent == c.unsent + (if io.readEnds then 0 else io.sends)
            && (!io.readEnds ==> (WRITE in d.events <==> WRITE in c.events || io.sends > 0))
            && d.revents == if io.readEnds then {} else c.revents
  {}

  lemma ConnectedRest(c: Client, io: Io)
    requires Inv(c) && c.conn == Some(CONNECTED)
    ensures AfterRead(c, io).Ok?
    ensures var d, write := AfterRead(c, io).client, WRITE in c.revents;
            var lost := (write && d.unsent > 0 && io.writeFails) || CLOSE in c.revents;
            && Leaves(c, lost, CONNECTED, d) && d.retryCount == 0 && !d.shutdown
            && d.unsent == c.unsent - (if write then Least(io.taken, c.unsent) else 0)
            && (!lost ==> (WRITE in d.events <==> if write then d.unsent > 0 else WRITE in c.events))
  {
    if WRITE in c.revents {
      HandleWriteKeeps(c, io);
    }
  }

  /** A connected client is lost by a dispatch exactly if a reported read finds the end of
      the stream or an error, a reported write fails with bytes left, or a close is
      reported. Its unsent bytes are those before and those sent, less those taken, and it
      wants to write after a write exactly if some are left. */
  lemma ConnectedExact(c: Client, reported: Mask, io: Io)
    requires Inv(c) && c.conn == Some(CONNECTED) && HandleEvent(c, reported, io).Ok?
    ensures var d := HandleEvent(c, reported, io).client;
            var ended := READ in reported && io.readEnds;
            var write := WRITE in reported && !ended;
            var sent := if READ in reported && !ended then io.sends else 0;
            var lost := ended || (write && d.unsent > 0 && io.writeFails) || CLOSE in reported;
            && Leaves(c, lost, CONNECTED, d) && d.retryCount == 0 && !d.shutdown
            && d.unsent == c.unsent + sent - (if write then Least(io.taken, c.unsent + sent) else 0)
            && (!lost ==> (WRITE in d.events <==> if write then d.unsent > 0 else WRITE in c.events || sent > 0))
  {
    var c0 := c.(revents := reported);
    assert Inv(c0);
    HandleReadKeeps(c0, io);
    var r := if READ in reported then HandleRead(c0, io) else Ok(c0);
    if READ in reported {
      ConnectedRead(c0, io);
    }
    if !(READ in reported && io.readEnds) {
      ConnectedRest(r.client, io);
    }
  }

  // ---------- What a connection reads ----------

  /** Nothing more can be read from the bytes at hand; the unfinished message has its
      length word, and without one there is at most a part of it in the buffer. */
  ghost predicate Resting(c: Client) {
    && |c.buffered| < 4 && (c.partial == [] || (|c.partial| >= 4 && c.buffered == []))
    && AtRest(c.Unread())
  }

  ghost predicate AtRest(s: seq<byte>) {
    F.Read(s) == F.Reading([], s, F.Fine)
  }

  lemma RestIsAtRest(s: seq<byte>)
    requires F.Read(s).verdict.Fine?
    ensures AtRest(F.Read(s).rest)
  {
    F.SplitRebuilds(s);
  }

  lemma TakeInRests(c: Client, bytes: seq<byte>)
    requires F.Read(c.Unread() + bytes).verdict.Fine?
    ensures Resting(TakeIn(c, bytes)) && TakeIn(c, bytes).Unread() == F.Read(c.Unread() + bytes).rest
  {
    var rest := F.Read(c.Unread() + bytes).rest;
    RestIsAtRest(c.Unread() + bytes);
    assert rest + [] == rest && [] + rest == rest;
  }

  /** A new connector's buffer is empty. */
  lemma DropRests(c: Client)
    requires Resting(c)
    ensures Resting(c.(buffered := []))
  {
    assert c.partial == [] ==> c.(buffered := []).Unread() == [];
  }

  /** The bytes that a step hands to the client. */
  function Brings(c: Client, step: Step): seq<byte> {
    if step.Dispatch? && READ in step.reported && c.conn == Some(CONNECTED) && !step.io.readEnds then step.io.bytes
    else []
  }

  function Received(c: Client, steps: seq<Step>): seq<byte>
    decreases |steps|
  {
    if steps == [] || !Possible(c, steps[0]) then []
    else
      var r := Take(c, steps[0]);
      Brings(c, steps[0]) + if r.Ok? then Received(r.client, steps[1..]) else []
  }

  predicate OneConnection(steps: seq<Step>) {
    forall s :: s in steps ==> s.Dispatch?
  }

  /** The result of a run that starts with `handed` says what `got` does. */
  predicate Reads(handed: seq<seq<byte>>, got: F.Reading, r: Result) {
    && !r.Broken? && (r.Ok? <==> got.verdict.Fine?)
    && (r.Ok? ==> r.client.handed == handed + got.msgs && r.client.Unread() == got.rest)
    && (r.BadMessage? ==> r.verdict == got.verdict)
  }

  lemma ReadsOn(handed: seq<seq<byte>>, got: F.Reading, d: Client, later: F.Reading, r: Result)
    requires Reads(handed, got, Ok(d)) && Reads(d.handed, later, r)
    ensures Reads(handed, F.And(got, later), r)
  {
    assert (handed + got.msgs) + later.msgs == handed + (got.msgs + later.msgs);
  }

  /** Everything but the bytes read and the messages handed on. */
  predicate SameBytes(c: Client, d: Client) {
    d.partial == c.partial && d.buffered == c.buffered && d.handed == c.handed
  }

  lemma HandleWriteSame(c: Client, io: Io)
    ensures HandleWrite(c, io).Ok? ==> SameBytes(c, HandleWrite(c, io).client)
    ensures !HandleWrite(c, io).BadMessage?
  {}

  lemma HandleReadSame(c: Client, io: Io)
    requires HandleRead(c, io).Ok?
    ensures SameBytes(if c.conn == Some(CONNECTED) && !io.readEnds then TakeIn(c, io.bytes) else c,
                      HandleRead(c, io).client)
  {}

  lemma DispatchSame(c: Client, reported: Mask, io: Io)
    requires HandleEvent(c, reported, io).Ok?
    ensures SameBytes(if READ in reported && c.conn == Some(CONNECTED) && !io.readEnds then TakeIn(c, io.bytes) else c,
                      HandleEvent(c, reported, io).client)
  {
    var c0 := c.(revents := reported);
    var r1 := if READ in reported then HandleRead(c0, io) else Ok(c0);
    if READ in reported {
      HandleReadSame(c0, io);
    }
    if WRITE in r1.client.revents {
      HandleWriteSame(r1.client, io);
    }
  }

  /** A reconnect leaves the unfinished message, and at most drops what is in the buffer. */
  lemma ReConnectDrops(c: Client, attempt: Attempt)
    requires ReConnect(c, attempt).Ok?
    ensures var d := ReConnect(c, attempt).client;
            SameBytes(c, d) || SameBytes(c.(buffered := []), d)
  {}

  lemma StepRests(c: Client, step: Step)
    requires Inv(c) && Resting(c) && Possible(c, step) && Take(c, step).Ok?
    ensures Resting(Take(c, step).client)
  {
    match step
    case StartUp(_) => assert FRESH.Unread() == [];
    case Timeout(attempt) =>
      ReConnectDrops(c, attempt);
      DropRests(c);
    case Dispatch(reported, io) =>
      DispatchSame(c, reported, io);
      StepExact(c, step);
      if READ in reported && c.conn == Some(CONNECTED) && !io.readEnds {
        TakeInRests(c, io.bytes);
      }
  }

  /** Over every run: nothing more can be read from the bytes at hand, and those that the
      client keeps for the next connection are none or a length and data after it. */
  lemma {:induction false} RunRests(c: Client, steps: seq<Step>)
    requires Inv(c) && Resting(c) && Run(c, steps).Ok?
    ensures Resting(Run(c, steps).client)
    decreases |steps|
  {
    if steps != [] && Possible(c, steps[0]) {
      StepExact(c, steps[0]);
      StepRests(c, steps[0]);
      RunRests(Take(c, steps[0]).client, steps[1..]);
    }
  }

  /** Without new bytes nothing is read. */
  lemma NoneRead(c: Client, d: Client)
    requires Resting(c) && SameBytes(c, d)
    ensures Reads(c.handed, F.Read(c.Unread() + []), Ok(d))
  {
    assert c.Unread() + [] == c.Unread() && c.handed + [] == c.handed;
  }

  lemma DispatchReads(c: Client, step: Step)
    requires Inv(c) && Resting(c) && !Zombie(c) && step.Dispatch? && Possible(c, step)
    ensures Reads(c.handed, F.Read(c.Unread() + Brings(c, step)), Take(c, step))
  {
    var r := Take(c, step);
    StepExact(c, step);
    if r.Ok? {
      DispatchSame(c, step.reported, step.io);
      if READ in step.reported && c.conn == Some(CONNECTED) && !step.io.readEnds {
        TakeInRests(c, step.io.bytes);
      } else {
        NoneRead(c, r.client);
      }
    }
  }

  lemma ReadFurther(c: Client, now: seq<byte>, d: Client, later: seq<byte>, r: Result)
    requires Reads(c.handed, F.Read(c.Unread() + now), Ok(d)) && Reads(d.handed, F.Read(d.Unread() + later), r)
    ensures Reads(c.handed, F.Read(c.Unread() + (now + later)), r)
  {
    assert c.Unread() + (now + later) == (c.Unread() + now) + later;
    F.ReadAppend(c.Unread() + now, later);
    ReadsOn(c.handed, F.Read(c.Unread() + now), d, F.Read(d.Unread() + later), r);
  }

  /** What a connection hands on, where it breaks an assertion on a message and what it
      leaves unread depends only on the bytes that it received, however they arrived. */
  lemma {:induction false} ConnectionReads(c: Client, steps: seq<Step>)
    requires Inv(c) && Resting(c) && !Zombie(c) && OneConnection(steps)
    ensures Reads(c.handed, F.Read(c.Unread() + Received(c, steps)), Run(c, steps))
    decreases |steps|
  {
    if steps == [] || !Possible(c, steps[0]) {
      NoneRead(c, c);
    } else {
      var step, r := steps[0], Take(c, steps[0]);
      DispatchReads(c, step);
      if r.Ok? {
        DispatchKeeps(c, step);
        ConnectionReads(r.client, steps[1..]);
        ReadFurther(c, Brings(c, step), r.client, Received(r.client, steps[1..]), Run(r.client, steps[1..]));
      } else {
        assert Brings(c, step) + [] == Brings(c, step);
      }
    }
  }

  lemma DispatchKeeps(c: Client, step: Step)
    requires Inv(c) && Resting(c) && !Zombie(c) && step.Dispatch? && Possible(c, step) && Take(c, step).Ok?
    ensures Inv(Take(c, step).client) && Resting(Take(c, step).client) && !Zombie(Take(c, step).client)
  {
    StepExact(c, step);
    StepRests(c, step);
    ZombieOnlyByZero(c, step);
  }

  /** Reading good messages after other bytes is reading just them only without those. */
  lemma OnlyAfterNothing(u: seq<byte>, bytes: seq<byte>)
    requires F.Read(bytes).verdict.Fine?
    ensures F.Read(u + bytes) == F.Read(bytes) <==> u == []
  {
    if u == [] {
      assert u + bytes == bytes;
    }
    F.SplitRebuilds(bytes);
    F.SplitRebuilds(u + bytes);
  }

  /** The next connection after `c`, over which good messages come, whole or not: they are
      handed on, and an unfinished one is kept, as they were sent exactly if the old
      connection did not end within the data of a message. If it did, its length and data
      are taken for the beginning of what the new connection brings. */
  lemma ReconnectExact(c: Client, attempt: Attempt, steps: seq<Step>)
    requires Inv(c) && Resting(c) && c.timers > 0 && c.status != CONNECTED && c.retryCount <= MAX_RETRY
    requires attempt != Immediate && OneConnection(steps)
    ensures var d := ReConnect(c, attempt).client;
            var good, r := F.Read(Received(d, steps)), Run(d, steps);
            good.verdict.Fine? ==> (Reads(c.handed, good, r) <==> |c.Unread()| < 4)
  {
    var d := ReConnect(c, attempt).client;
    ReConnectKeeps(c, attempt);
    assert d.partial == c.partial && d.buffered == [] && d.handed == c.handed && !Zombie(d);
    var good, got := F.Read(Received(d, steps)), F.Read(d.Unread() + Received(d, steps));
    ConnectionReads(d, steps);
    assert d.Unread() == c.partial;
    if good.verdict.Fine? {
      OnlyAfterNothing(c.partial, Received(d, steps));
      if Reads(c.handed, good, Run(d, steps)) {
        assert good.msgs == (c.handed + good.msgs)[|c.handed|..];
        assert got.msgs == (c.handed + got.msgs)[|c.handed|..];
      }
    }
  }

  /** Such an end is reached with every beginning of a message that has its length. */
  lemma UnfinishedReached(io: Io, bytes: seq<byte>)
    requires !io.soError && AtRest(bytes) && io.sends == 0
    ensures var read := Dispatch({READ}, io.(readEnds := false, bytes := bytes));
            var steps := [StartUp(InProgress), Dispatch({WRITE}, io), read, Dispatch({READ}, io.(readEnds := true))];
            var r := Run(FRESH, steps);
            && r.Ok? && r.client.status == CLOSED && r.client.timers == 1 && r.client.retryCount <= MAX_RETRY
            && r.client.Unread() == bytes
  {
    var read := Dispatch({READ}, io.(readEnds := false, bytes := bytes));
    var steps := [StartUp(InProgress), Dispatch({WRITE}, io), read, Dispatch({READ}, io.(readEnds := true))];
    var c1 := Take(FRESH, steps[0]).client;
    var c2 := Take(c1, steps[1]).client;
    assert FRESH.Unread() + bytes == bytes && c2.Unread() == FRESH.Unread();
    TakeInRests(c2.(revents := {READ}), bytes);
    var c3 := Take(c2, read).client;
    assert Take(c2, read).Ok? && c3.Unread() == bytes;
    FourSteps(FRESH, steps, c1, c2, c3);
  }

  lemma FourSteps(c: Client, steps: seq<Step>, c1: Client, c2: Client, c3: Client)
    requires |steps| == 4 && Possible(c, steps[0]) && Take(c, steps[0]) == Ok(c1)
    requires Possible(c1, steps[1]) && Take(c1, steps[1]) == Ok(c2)
    requires Possible(c2, steps[2]) && Take(c2, steps[2]) == Ok(c3) && Possible(c3, steps[3])
    ensures Run(c, steps) == Take(c3, steps[3])
  {
    var three := steps[1..];
    var two := three[1..];
    var one := two[1..];
    assert three[0] == steps[1] && two[0] == steps[2] && one[0] == steps[3] && one[1..] == [];
    assert Run(c3, one) == Take(c3, steps[3]);
    assert Run(c2, two) == Run(c3, one);
    assert Run(c1, three) == Run(c2, two);
  }

  // ---------- Retries ----------

  /** A new connector that nothing was sent on, in the state that connect(2) leaves it in;
      the loop knows it unless connect failed at once. What the client keeps is kept. */
  predicate Attempted(c: Client, attempt: Attempt, d: Client) {
    && d.status == (if attempt == Refused then CLOSED else CONNECTING)
    && d.conn == Some(if attempt == InProgress then CONNECTING else CLOSED)
    && (d.registered <==> attempt != Refused) && d.events == {READ, WRITE} && d.unsent == 0 && d.buffered == []
    && d.retryCount == c.retryCount + (if attempt == Refused then 0 else 1)
    && d.timers == 1 && d.shutdown == c.shutdown && d.partial == c.partial && d.handed == c.handed
  }

  lemma StartUpExact(attempt: Attempt)
    ensures Begin(FRESH, attempt).Ok? && Attempted(FRESH, attempt, Begin(FRESH, attempt).client)
  {}

  /** A firing that reschedules makes one more attempt with a new connector; a pending one
      is given up. */
  lemma TimeoutCounts(c: Client, attempt: Attempt)
    requires Inv(c) && Possible(c, Timeout(attempt))
    ensures var r := ReConnect(c, attempt);
            && r.Ok?
            && (r.client.timers == 1 <==> c.retryCount <= MAX_RETRY && c.status != CONNECTED)
            && (r.client.timers == 1 ==> Attempted(c, attempt, r.client))
            && (r.client.timers == 0 ==> r.client == c.(timers := 0))
  {}

  /** Nothing can happen any more. */
  ghost predicate Over(c: Client) {
    forall steps :: Run(c, steps) == Ok(c)
  }

  /** After a shutdown at most the pending timer still fires, and does nothing else. */
  lemma {:induction false} ShutdownIsFinal(c: Client, steps: seq<Step>)
    requires Inv(c) && c.shutdown
    ensures Run(c, steps) == Ok(c) || Run(c, steps) == Ok(c.(timers := 0))
    decreases |steps|
  {
    if steps != [] && Possible(c, steps[0]) {
      TimeoutCounts(c, steps[0].attempt);
      ShutdownIsFinal(c.(timers := 0), steps[1..]);
    }
  }

  /** The loss of a connection is final, so that nothing can happen any more, exactly if
      the retry timer had fired before it; otherwise the next firing makes a new attempt. */
  lemma LossDecides(c: Client, step: Step)
    requires Inv(c) && c.status == CONNECTED && Possible(c, step) && step.Dispatch?
    requires Take(c, step).Ok? && Take(c, step).client.status == CLOSED
    ensures var d := Take(c, step).client;
            && (Over(d) <==> c.timers == 0)
            && (c.timers == 1 ==> forall attempt :: MakesAttempt(d, attempt))
  {
    var d := Take(c, step).client;
    ConnectedExact(c, step.reported, step.io);
    if c.timers == 0 {
      forall steps
        ensures Run(d, steps) == Ok(d)
      {
        if steps != [] {
          assert !Possible(d, steps[0]);
        }
      }
    } else {
      forall attempt
        ensures MakesAttempt(d, attempt)
      {}
      assert MakesAttempt(d, InProgress);
      assert [Timeout(InProgress)][1..] == [];
      var e := ReConnect(d, InProgress).client;
      assert Run(e, []) == Ok(e);
      var again := Run(d, [Timeout(InProgress)]);
      assert again == Ok(e);
      assert Over(d) ==> again == Ok(d);
    }
  }

  /** The firing of the timer tries to connect, and leaves a timer for the next time. */
  predicate MakesAttempt(c: Client, attempt: Attempt) {
    && Possible(c, Timeout(attempt)) && ReConnect(c, attempt).Ok?
    && var d := ReConnect(c, attempt).client;
       && d.timers == 1
       && if attempt == Refused then d.status == CLOSED && d.retryCount == c.retryCount
          else d.status == CONNECTING && d.registered && d.retryCount == c.retryCount + 1
  }

  /** Such a client is reached by connecting, waiting for the timer, and losing
      the connection; it has attempts left. */
  lemma LostClientReached(io: Io)
    requires !io.soError && io.readEnds
    ensures var steps := [StartUp(InProgress), Dispatch({WRITE}, io), Timeout(InProgress), Dispatch({READ}, io)];
            var r := Run(FRESH, steps);
            r.Ok? && r.client.status == CLOSED && r.client.timers == 0 && r.client.retryCount == 0 && !r.client.shutdown
  {
    var steps := [StartUp(InProgress), Dispatch({WRITE}, io), Timeout(InProgress), Dispatch({READ}, io)];
    var c1 := Take(FRESH, steps[0]).client;
    var c2 := Take(c1, steps[1]).client;
    var c3 := Take(c2, steps[2]).client;
    assert c2.status == CONNECTED && c2.timers == 1;
    assert c3 == c2.(timers := 0);
    FourSteps(FRESH, steps, c1, c2, c3);
  }
}
