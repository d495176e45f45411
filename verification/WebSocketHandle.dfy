/** The objects of script/httphandle.py that read WebSocket frames and answer them. */
module WebSocketHandle {
  import opened Bytes
  import opened Wrappers
  import opened WebSocketFrames
  import P = WebSocketParser
  import S = WebSocketStream
  import U = WebSocketUnmasked
  import K = WebSocketClose

  class WSFrame {
    var header: Option<P.Header>
    var maskCodes: seq<byte>
    var buf: seq<byte>
    var remainLen: int
    var dataLen: Option<nat>
    var payload: seq<byte>
    var readingHead: bool

    ghost function Value(): P.Parser
      reads this
    {
      P.Parser(header, maskCodes, buf, remainLen, dataLen, payload, readingHead)
    }

    constructor ()
      ensures Value() == P.INIT
    {
      header, maskCodes, buf, remainLen, dataLen, payload, readingHead := None, [], [], 2, None, [], true;
    }

    /** The call of `handle_frame` or `handle_close` at the end of `on_read` is its result. */
    method OnRead(s: seq<byte>) returns (o: P.Outcome)
      modifies this
      ensures (Value(), o) == P.OnRead(old(Value()), s)
      decreases P.Rank(Value()), |buf| + |s|, 1
    {
      if readingHead {
        buf := buf + s;
        if |buf| < remainLen {
          return P.Waiting;
        }
      }
      o := Advance(s);
    }

    method Advance(s: seq<byte>) returns (o: P.Outcome)
      modifies this
      ensures (Value(), o) == P.Advance(old(Value()), s)
      decreases P.Rank(Value()), |buf|, 0
    {
      if header.None? {
        if |buf| < 2 {
          return P.Raised;
        }
        var mark, len := buf[0], buf[1];
        buf := buf[2..];
        var opcode, masked, len1 := mark % 16, len >= 128, len % 128;
        header := Some(P.Header(opcode, masked, len1));
        remainLen := 0;
        if len1 == 126 {
          remainLen := remainLen + 2;
        } else if len1 == 127 {
          remainLen := remainLen + 8;
        } else {
          remainLen := remainLen + len1;
          dataLen := Some(len1);
        }
        if masked {
          remainLen := remainLen + 4;
        }
        if opcode == 8 {
          return P.Closing;
        }
      } else if dataLen.None? {
        var width := if header.value.len1 == 126 then 2 else if header.value.len1 == 127 then 8 else 0;
        if width == 0 || |buf| < width {
          return P.Raised;
        }
        var n := FromBigEndian(buf[..width]);
        buf := buf[width..];
        dataLen := Some(n);
        remainLen := remainLen + n - width;
        if !header.value.masked {
          readingHead := false;
        }
      } else if header.value.masked && maskCodes == [] {
        if |buf| < 4 {
          return P.Raised;
        }
        readingHead := false;
        maskCodes := DecodeMask(FromBigEndian(buf[..4]));
        buf := buf[4..];
        remainLen := remainLen - 4;
      } else {
        o := TakePayload(s);
        return;
      }
      if |buf| > 0 {
        o := OnRead([]);
      } else {
        o := P.Waiting;
      }
    }

    method TakePayload(s: seq<byte>) returns (o: P.Outcome)
      modifies this
      ensures (Value(), o) == P.ReadPayload(old(Value()), s)
    {
      var bytes := if buf != [] then buf + s else s;
      payload := payload + bytes;
      remainLen := remainLen - |bytes|;
      if remainLen != 0 {
        return P.Waiting;
      }
      if maskCodes == [] {
        o := P.Delivered(payload);
      } else if Covers(maskCodes, payload) {
        o := P.Delivered(Apply(maskCodes, payload));
      } else {
        o := P.Raised;
      }
    }
  }

  /** The loop that takes the mask apart, lowest byte first, and reverses the list. */
  method DecodeMask(n: nat) returns (codes: seq<byte>)
    ensures codes == MaskCodes(n)
  {
    var mask: nat, reversed: seq<byte> := n, [];
    while mask != 0
      invariant MaskCodes(n) == MaskCodes(mask) + reversed
    {
      assert MaskCodes(mask) + reversed == MaskCodes(mask / 256) + ([mask % 256] + reversed);
      reversed := [mask % 256] + reversed;
      mask := mask / 256;
    }
    codes := reversed;
  }

  const ECHO: seq<byte> := [101, 99, 104, 111, 58]

  function Reply(data: seq<byte>): seq<byte> {
    MakeFrame(ECHO + data, [])
  }

  /** The answer to a message, read back by the same parser in one piece, is the
      message with "echo:" in front; also for an empty one. */
  lemma ReplyRoundTrip(data: seq<byte>)
    requires |ECHO| + |data| < Pow256(8)
    ensures P.OnRead(P.INIT, Reply(data)).1 == P.Delivered(ECHO + data)
  {
    MakeFrameUnmasked(ECHO + data);
    U.UnmaskedWhole(U.Plain(TEXT, Shortest(|ECHO + data|), ECHO + data));
  }

  class WSHandle {
    var curFrame: WSFrame?
    var sent: seq<seq<byte>>
    var closed: bool

    ghost function Current(): Option<P.Parser>
      reads this, curFrame
    {
      if curFrame == null then None else Some(curFrame.Value())
    }

    constructor ()
      ensures curFrame == null && sent == [] && !closed
    {
      curFrame, sent, closed := null, [], false;
    }

    /** `data` is what `handle_frame` was given, if it was called. */
    method HandleMessage(s: seq<byte>) returns (data: Option<seq<byte>>)
      modifies this, curFrame
      ensures var (next, o) := K.Call(old(Current()), s);
              && data == (if o.Delivered? then Some(o.data) else None) && Current() == next
              && sent == (if o.Delivered? then old(sent) + [Reply(o.data)] else old(sent))
              && closed == (old(closed) || o.Closing?)
      ensures curFrame == null || curFrame == old(curFrame) || fresh(curFrame)
    {
      if curFrame == null {
        curFrame := new WSFrame();
      }
      var o := curFrame.OnRead(s);
      data := None;
      match o
      case Delivered(d) =>
        curFrame := null;
        sent := sent + [MakeFrame(ECHO + d, [])];
        data := Some(d);
      case Closing =>
        if !closed {
          closed := true;
        }
      case Waiting =>
      case Raised =>
    }

    /** Any number of messages: what `handle_frame` was given, one answer for each, and
        whether `handle_close` was called. */
    method HandleMessages(chunks: seq<seq<byte>>) returns (frames: seq<seq<byte>>)
      modifies this, curFrame
      ensures frames == S.Session(old(Current()), chunks) && sent == old(sent) + Replies(frames)
      ensures closed == (old(closed) || P.Closing in K.Calls(old(Current()), chunks))
      decreases |chunks|
    {
      frames := [];
      if chunks != [] {
        K.RunStep(Current(), chunks);
        var data := HandleMessage(chunks[0]);
        var later := HandleMessages(chunks[1..]);
        frames := if data.Some? then [data.value] + later else later;
      } else {
        assert sent + [] == sent;
      }
    }
  }

  function Replies(frames: seq<seq<byte>>): seq<seq<byte>> {
    if frames == [] then [] else [Reply(frames[0])] + Replies(frames[1..])
  }
}
