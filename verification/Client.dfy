/** The objects of client/connector.cpp. A method's `ok` is false where an
    assertion of the code breaks. */
module Clients {
  import opened Interest
  import opened Wrappers
  import opened Bytes
  import F = Framing
  import C = Connectors

  class Connector {
    const client: Client
    var status: C.Status
    var events: Mask
    var revents: Mask
    var unsent: nat
    var buffered: seq<byte>

    constructor (client: Client)
      ensures this.client == client
      ensures status == C.CLOSED && events == {WRITE, READ} && revents == {} && unsent == 0 && buffered == []
    {
      this.client, status, events, revents, unsent, buffered := client, C.CLOSED, {WRITE, READ}, {}, 0, [];
    }

    /** What `_connect` returns, when the status is set by what connect(2) does. */
    method Connect(attempt: C.Attempt) returns (n: int)
      modifies this`status
      ensures status == if attempt == C.InProgress then C.CONNECTING else old(status)
      ensures n < 0 <==> attempt == C.Refused
    {
      match attempt
      case InProgress =>
        status := C.CONNECTING;
        n := 0;
      case Immediate =>
        n := 0;
      case Refused =>
        n := -1;
    }

    method Close() returns (ok: bool)
      requires client.pconn == this
      modifies this, client
      ensures client.pconn == this && ok == C.Close(old(client.Value())).Ok?
      ensures ok ==> C.Close(old(client.Value())) == C.Ok(client.Value())
    {
      status := C.CLOSED;
      ok := client.OnClose();
    }

    method SetEvents(e: Mask) returns (ok: bool)
      requires client.pconn == this
      modifies this`events
      ensures ok == C.SetEvents(old(client.Value()), e).Ok?
      ensures ok ==> C.SetEvents(old(client.Value()), e) == C.Ok(client.Value())
    {
      events := e;
      ok := client.registered;
    }

    method Send(n: nat) returns (ok: bool)
      requires client.pconn == this
      modifies this
      ensures ok == C.Send(old(client.Value()), n).Ok?
      ensures ok ==> C.Send(old(client.Value()), n) == C.Ok(client.Value())
    {
      ok := true;
      if n > 0 {
        unsent := unsent + n;
        ok := SetEvents(events + {WRITE});
      }
    }

    method HandleRead(io: C.Io) returns (ok: bool)
      requires client.pconn == this
      modifies this, client
      ensures client.pconn == this && ok == C.HandleRead(old(client.Value()), io).Ok?
      ensures ok ==> C.HandleRead(old(client.Value()), io) == C.Ok(client.Value())
    {
      ok := status == C.CONNECTED || status == C.CONNECTING;
      if !ok {
        return;
      }
      if status == C.CONNECTING {
        if io.probeFails {
          ok := Close();
        }
      } else if io.readEnds {
        ok := Close();
      } else {
        var verdict := client.OnRead(io.bytes);
        ok := Send(io.sends);
        if verdict != F.Fine {
          ok := false;
        }
      }
    }

    method HandleWrite(io: C.Io) returns (ok: bool)
      requires client.pconn == this
      modifies this, client
      ensures client.pconn == this && ok == C.HandleWrite(old(client.Value()), io).Ok?
      ensures ok ==> C.HandleWrite(old(client.Value()), io) == C.Ok(client.Value())
    {
      ok := status == C.CONNECTED || status == C.CONNECTING;
      if !ok {
        return;
      }
      if status == C.CONNECTING {
        if io.soError {
          ok := Close();
        } else {
          status := C.CONNECTED;
          ok := SetEvents(events - {WRITE});
          if ok {
            ok := client.OnConnected(io.sends);
          }
        }
      } else {
        unsent := unsent - if io.taken < unsent then io.taken else unsent;
        if unsent > 0 && io.writeFails {
          ok := Close();
          return;
        }
        if unsent <= 0 {
          ok := SetEvents(events - {WRITE});
        }
      }
    }

    /** `Handle::handle_event`: closing clears `revents`, so that nothing follows. */
    method HandleEvent(reported: Mask, io: C.Io) returns (ok: bool)
      requires client.pconn == this
      modifies this, client
      ensures client.pconn == this && ok == C.HandleEvent(old(client.Value()), reported, io).Ok?
      ensures ok ==> C.HandleEvent(old(client.Value()), reported, io) == C.Ok(client.Value())
    {
      revents := reported;
      ok := true;
      if READ in revents {
        ok := HandleRead(io);
      }
      if ok {
        ok := AfterRead(io);
      }
    }

    method AfterRead(io: C.Io) returns (ok: bool)
      requires client.pconn == this
      modifies this, client
      ensures client.pconn == this && ok == C.AfterRead(old(client.Value()), io).Ok?
      ensures ok ==> C.AfterRead(old(client.Value()), io) == C.Ok(client.Value())
    {
      ok := true;
      if WRITE in revents {
        ok := HandleWrite(io);
      }
      if ok && CLOSE in revents {
        ok := Close();
      }
    }
  }

  class Client {
    var status: C.Status
    var retryCount: nat
    var pconn: Connector?
    var registered: bool
    var timers: nat
    var shutdown: bool
    var partial: seq<byte>
    var handed: seq<seq<byte>>

    ghost function Value(): C.Client
      reads this, pconn
    {
      if pconn == null then C.Client(status, None, registered, {}, {}, 0, retryCount, timers, shutdown, partial, [],
                                     handed)
      else
        C.Client(status, Some(pconn.status), registered, pconn.events, pconn.revents, pconn.unsent,
                 retryCount, timers, shutdown, partial, pconn.buffered, handed)
    }

    constructor ()
      ensures Value() == C.FRESH && pconn == null
    {
      status, retryCount, pconn, registered, timers, shutdown := C.CLOSED, 0, null, false, 0, false;
      partial, handed := [], [];
    }

    /** `_start_connect`. */
    method Attempt(attempt: C.Attempt) returns (ok: bool)
      modifies this
      ensures ok == C.StartConnect(old(Value()), attempt).Ok?
      ensures ok ==> C.StartConnect(old(Value()), attempt) == C.Ok(Value()) && pconn != null && pconn.client == this
      ensures pconn == old(pconn) || fresh(pconn)
    {
      ok := status == C.CLOSED;
      if !ok {
        return;
      }
      pconn := new Connector(this);
      registered := false;
      var n := pconn.Connect(attempt);
      if n < 0 {
        return;
      }
      registered := true;
      status := C.CONNECTING;
      retryCount := retryCount + 1;
    }

    method StartConnect(attempt: C.Attempt) returns (ok: bool)
      modifies this
      ensures ok == C.Begin(old(Value()), attempt).Ok?
      ensures ok ==> C.Begin(old(Value()), attempt) == C.Ok(Value()) && pconn != null && pconn.client == this
      ensures pconn == old(pconn) || fresh(pconn)
    {
      retryCount := 0;
      ok := Attempt(attempt);
      timers := timers + 1;
    }

    /** The timer's callback; the timer itself is gone when it returns. */
    method ReConnect(attempt: C.Attempt) returns (ok: bool)
      requires pconn != null ==> pconn.client == this
      modifies this, pconn
      ensures ok == C.ReConnect(old(Value()), attempt).Ok?
      ensures ok ==> C.ReConnect(old(Value()), attempt) == C.Ok(Value()) && (pconn != null ==> pconn.client == this)
      ensures pconn == old(pconn) || fresh(pconn)
    {
      timers := if timers == 0 then 0 else timers - 1;
      ok := pconn != null;
      if ok && retryCount <= C.MAX_RETRY && status != C.CONNECTED {
        ok := TryAgain(attempt);
      }
    }

    method TryAgain(attempt: C.Attempt) returns (ok: bool)
      requires pconn != null && pconn.client == this
      modifies this, pconn
      ensures ok == C.TryAgain(old(Value()), attempt).Ok?
      ensures ok ==> C.TryAgain(old(Value()), attempt) == C.Ok(Value()) && pconn != null && pconn.client == this
      ensures pconn == old(pconn) || fresh(pconn)
    {
      ok := true;
      if status == C.CONNECTING {
        ok := pconn.Close();
      }
      if ok && status == C.CLOSED {
        ok := Attempt(attempt);
      }
      timers := timers + 1;
    }

    method OnConnected(sends: nat) returns (ok: bool)
      requires pconn != null && pconn.client == this
      modifies this, pconn
      ensures pconn == old(pconn)
      ensures ok == C.Send(old(Value()).(retryCount := 0, status := C.CONNECTED), sends).Ok?
      ensures ok ==> C.Send(old(Value()).(retryCount := 0, status := C.CONNECTED), sends) == C.Ok(Value())
    {
      retryCount := 0;
      status := C.CONNECTED;
      ok := pconn.Send(sends);
    }

    /** Takes what can be read off the front of the unfinished message, the connector's
        buffer and the new bytes. */
    method OnRead(bytes: seq<byte>) returns (verdict: F.Verdict)
      requires pconn != null
      modifies this`partial, this`handed, pconn`buffered
      ensures verdict == F.Read(old(Value()).Unread() + bytes).verdict
      ensures Value() == C.TakeIn(old(Value()), bytes)
    {
      var got := F.Read(partial + pconn.buffered + bytes);
      handed := handed + got.msgs;
      partial, pconn.buffered := if |got.rest| < 4 then [] else got.rest, if |got.rest| < 4 then got.rest else [];
      verdict := got.verdict;
    }

    /** Unregisters the connector, which forgets the events still to be handled. */
    method OnClose() returns (ok: bool)
      requires pconn != null && pconn.status == C.CLOSED
      modifies this, pconn
      ensures pconn == old(pconn) && ok == old(registered)
      ensures ok ==> C.Close(old(Value())) == C.Ok(Value())
    {
      ok := registered;
      registered := false;
      pconn.revents := {};
      status := C.CLOSED;
      if retryCount > C.MAX_RETRY {
        shutdown := true;
      }
    }

    /** Any run of the loop on a client: the start, dispatches and timers. */
    method Run(steps: seq<C.Step>) returns (ok: bool)
      requires C.Inv(Value()) && (pconn != null ==> pconn.client == this)
      modifies this, pconn
      ensures ok == C.Run(old(Value()), steps).Ok?
      ensures ok ==> C.Run(old(Value()), steps) == C.Ok(Value()) && C.Inv(Value())
    {
      ok := true;
      ghost var goal := C.Run(Value(), steps);
      var left := steps;
      while left != []
        invariant ok && C.Inv(Value()) && (pconn != null ==> pconn.client == this)
        invariant pconn == old(pconn) || fresh(pconn)
        invariant C.Run(Value(), left) == goal
        decreases |left|
      {
        var possible := Possible(left[0]);
        if !possible {
          return;
        }
        ghost var before := Value();
        C.StepExact(before, left[0]);
        ok := Step(left[0]);
        if !ok {
          return;
        }
        left := left[1..];
      }
    }

    method Possible(step: C.Step) returns (yes: bool)
      requires C.Inv(Value())
      ensures yes == C.Possible(Value(), step)
    {
      match step
      case StartUp(_) => yes := !shutdown && pconn == null;
      case Dispatch(_, _) => yes := !shutdown && registered;
      case Timeout(_) => yes := timers > 0;
    }

    method Step(step: C.Step) returns (ok: bool)
      requires C.Inv(Value()) && C.Possible(Value(), step) && (pconn != null ==> pconn.client == this)
      modifies this, pconn
      ensures ok == C.Take(old(Value()), step).Ok? && (pconn == old(pconn) || fresh(pconn))
      ensures ok ==> C.Take(old(Value()), step) == C.Ok(Value()) && (pconn != null ==> pconn.client == this)
    {
      match step
      case StartUp(attempt) => ok := StartConnect(attempt);
      case Dispatch(reported, io) => ok := pconn.HandleEvent(reported, io);
      case Timeout(attempt) => ok := ReConnect(attempt);
    }
  }
}
