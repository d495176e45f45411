/** server/tcpserver.cpp and the stream objects of server/handles.cpp. */
module TcpServers {
  import opened Interest
  import S = TcpStreams

  /** A server; an HTTP server (server/httpserver.cpp) keeps one more table, of the
      connections that it was handed a read of. */
  class TcpServer {
    const http: bool
    var maxConnectId: int
    var streams: map<int, TcpStream>
    var handles: set<int>

    /** Numbers are handed out in ascending order. */
    ghost predicate Valid()
      reads this
    {
      && (forall c :: c in streams ==> c <= maxConnectId)
      && (forall c :: c in handles ==> c <= maxConnectId)
    }

    constructor (http: bool)
      ensures Valid() && streams == map[] && handles == {} && maxConnectId == 0 && this.http == http
    {
      this.http, maxConnectId, streams, handles := http, 0, map[], {};
    }

    /** The number is one more than the last one ever given. */
    method NewConnect() returns (stream: TcpStream)
      requires Valid()
      modifies this
      ensures Valid() && fresh(stream) && stream.server == this
      ensures stream.connectId == maxConnectId == old(maxConnectId) + 1
      ensures stream.connectId !in old(streams) && streams == old(streams)[stream.connectId := stream]
      ensures handles == old(handles) && stream.Value() == S.Opened(http)
    {
      maxConnectId := maxConnectId + 1;
      stream := new TcpStream(maxConnectId, this);
      streams := streams[maxConnectId := stream];
    }

    /** `handle_read`, as far as the tables go. */
    method HandleRead(stream: TcpStream)
      modifies this`handles
      ensures handles == if http then old(handles) + {stream.connectId} else old(handles)
    {
      if http {
        handles := handles + {stream.connectId};
      }
    }

    /** `ok` is false where the code asserts that the stream is known, in either table. */
    method CloseConnect(stream: TcpStream) returns (ok: bool)
      modifies this`streams, this`handles, stream`revents
      ensures ok <==> stream.connectId in old(streams) && (http ==> stream.connectId in old(handles))
      ensures streams == old(streams) - {stream.connectId}
      ensures handles ==
              if http && stream.connectId in old(streams) then old(handles) - {stream.connectId} else old(handles)
      ensures stream.revents == if stream.connectId in old(streams) then {} else old(stream.revents)
    {
      ok := stream.connectId in streams;
      streams := streams - {stream.connectId};
      if ok {
        stream.revents := {};
        if http {
          ok := stream.connectId in handles;
          handles := handles - {stream.connectId};
        }
      }
    }
  }

  /** The methods' `ok` is false where the result of the step is not a stream:
      where an assertion breaks or a closed stream is sent on. */
  class TcpStream {
    const connectId: int
    const server: TcpServer
    var closing: bool
    var closed: bool
    var unsent: nat
    var events: Mask
    var revents: Mask
    ghost var given: nat
    ghost var written: nat
    ghost var closes: nat

    ghost function Value(): S.Stream
      reads this, server
    {
      S.Stream(server.http, server.http && connectId in server.handles, closing, closed,
               unsent, given, written, events, revents, connectId in server.streams, closes)
    }

    constructor (connectId: int, server: TcpServer)
      ensures this.connectId == connectId && this.server == server
      ensures !closing && !closed && unsent == 0 && events == {READ, ERROR} && revents == {}
      ensures given == written == closes == 0
    {
      this.connectId, this.server := connectId, server;
      closing, closed, unsent, events, revents := false, false, 0, {READ, ERROR}, {};
      given, written, closes := 0, 0, 0;
    }

    /** `enable_event` and `disable_event`: the loop must know the handle. */
    method SetEvents(e: Mask) returns (ok: bool)
      modifies this`events
      ensures ok <==> S.SetEvents(old(Value()), e).Ok?
      ensures ok ==> S.SetEvents(old(Value()), e) == S.Ok(Value())
    {
      events := e;
      ok := connectId in server.streams;
    }

    method Send(n: nat) returns (ok: bool)
      requires S.Inv(Value())
      modifies this
      ensures ok <==> S.Send(old(Value()), n).Ok?
      ensures ok ==> S.Send(old(Value()), n) == S.Ok(Value())
    {
      unsent := unsent + n;
      given := given + n;
      ok := SetEvents(events + {WRITE});
    }

    method Close() returns (ok: bool)
      modifies this, server
      ensures ok <==> S.Close(old(Value())).Ok?
      ensures ok ==> S.Close(old(Value())) == S.Ok(Value())
      ensures forall c :: c in old(server.streams) && c != connectId ==>
                c in server.streams && server.streams[c] == old(server.streams)[c]
    {
      closing := true;
      ok := true;
      if unsent == 0 {
        ok := server.CloseConnect(this);
        closes := closes + 1;
        closed := true;
      }
    }

    method DoAll(acts: seq<S.Act>) returns (ok: bool)
      requires S.Inv(Value()) && !S.Unknown(Value())
      modifies this, server
      ensures ok <==> S.DoAll(old(Value()), acts).Ok?
      ensures ok ==> S.DoAll(old(Value()), acts) == S.Ok(Value())
    {
      ok := true;
      var pending := acts;
      ghost var goal := S.DoAll(Value(), acts);
      while pending != []
        invariant ok && S.Inv(Value()) && !S.Unknown(Value()) && S.DoAll(Value(), pending) == goal
        decreases |pending|
      {
        ghost var before, act := Value(), pending[0];
        match pending[0] {
          case SendBytes(n) =>
            ok := Send(n);
          case CloseUnlessClosing =>
            if !(closing || closed) {
              ok := Close();
            }
        }
        assert ok <==> S.Do(before, act).Ok?;
        if !ok {
          return;
        }
        assert S.Do(before, act) == S.Ok(Value());
        S.DoAllKeeps(before, [act]);
        assert [act][1..] == [];
        pending := pending[1..];
      }
    }

    method HandleRead(recv: S.Recv, acts: seq<S.Act>) returns (ok: bool)
      requires S.Inv(Value()) && connectId in server.streams
      modifies this, server
      ensures ok <==> S.HandleRead(old(Value()), recv, acts).Ok?
      ensures ok ==> S.HandleRead(old(Value()), recv, acts) == S.Ok(Value())
    {
      if recv.PeerClosed? || recv.RecvError? {
        ok := Close();
        return;
      }
      server.HandleRead(this);
      ok := DoAll(acts);
      if recv.Breaks? {
        ok := false;
      }
    }

    method HandleWrite(sent: S.Sent) returns (ok: bool)
      modifies this, server
      ensures ok <==> S.HandleWrite(old(Value()), sent).Ok?
      ensures ok ==> S.HandleWrite(old(Value()), sent) == S.Ok(Value())
    {
      var n := if sent.n < unsent then sent.n else unsent;
      unsent := unsent - n;
      written := written + n;
      ok := true;
      if unsent > 0 && sent.failed {
        ok := Close();
        return;
      }
      if unsent <= 0 {
        ok := SetEvents(events - {WRITE});
        if ok && closing {
          ok := Close();
        }
      }
    }

    /** What `handle_event` does after the read handler. */
    method AfterRead(sent: S.Sent) returns (ok: bool)
      requires S.Inv(Value())
      modifies this, server
      ensures ok <==> S.AfterRead(old(Value()), sent).Ok?
      ensures ok ==> S.AfterRead(old(Value()), sent) == S.Ok(Value())
    {
      ok := true;
      if WRITE in revents {
        ok := HandleWrite(sent);
      }
      if ok && CLOSE in revents {
        ok := Close();
      }
    }

    method HandleEvent(reported: Mask, recv: S.Recv, acts: seq<S.Act>, sent: S.Sent) returns (ok: bool)
      requires S.Inv(Value()) && connectId in server.streams
      modifies this, server
      ensures ok <==> S.HandleEvent(old(Value()), reported, recv, acts, sent).Ok?
      ensures ok ==> S.HandleEvent(old(Value()), reported, recv, acts, sent) == S.Ok(Value())
    {
      revents := reported;
      ghost var s0 := Value();
      assert S.Inv(s0);
      S.HandleReadKeeps(s0, recv, acts);
      ok := true;
      if READ in revents {
        ok := HandleRead(recv, acts);
      }
      if ok {
        ok := AfterRead(sent);
      }
    }

    /** Any run of dispatches and acts of the server. */
    method Run(steps: seq<S.Step>) returns (ok: bool)
      requires S.Inv(Value())
      modifies this, server
      ensures ok == S.Run(old(Value()), steps).Ok?
      ensures ok ==> S.Run(old(Value()), steps) == S.Ok(Value()) && S.Inv(Value())
    {
      ok := true;
      ghost var goal := S.Run(Value(), steps);
      var left := steps;
      while left != [] && if left[0].Dispatch? then connectId in server.streams
                          else !server.http || connectId !in server.streams || connectId in server.handles
        invariant ok && S.Inv(Value()) && S.Run(Value(), left) == goal
        decreases |left|
      {
        ghost var before := Value();
        S.TakeKeeps(before, left[0]);
        match left[0] {
          case Dispatch(reported, recv, acts, sent) =>
            ok := HandleEvent(reported, recv, acts, sent);
          case Script(acts) =>
            ok := DoAll(acts);
        }
        if !ok {
          return;
        }
        assert S.Take(before, left[0]) == S.Ok(Value());
        left := left[1..];
      }
    }
  }
}
