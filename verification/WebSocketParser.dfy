/** The incremental frame parser `WSFrame.on_read` of script/httphandle.py. */
module WebSocketParser {
  import opened Bytes
  import opened Wrappers
  import opened WebSocketFrames

  /** What the parser keeps of the first two bytes. */
  datatype Header = Header(opcode: nat, masked: bool, len1: nat)

  /** The fields of a `WSFrame`; `payload` is what has been written to its string buffer. */
  datatype Parser = Parser(
    header: Option<Header>,
    codes: seq<byte>,
    buf: seq<byte>,
    remain: int,
    dataLen: Option<nat>,
    payload: seq<byte>,
    readingHead: bool)

  const INIT := Parser(None, [], [], 2, None, [], true)

  /** How a call of `on_read` ends: it returns, having called nothing,
      `handle_frame` or `handle_close`, or it raises an exception. */
  datatype Outcome = Waiting | Delivered(data: seq<byte>) | Closing | Raised

  function Opcode(first: byte): nat {
    first % 16
  }

  function ReadHeader(p: Parser): Parser
    requires |p.buf| >= 2
  {
    var len1 := p.buf[1] % 128;
    var masked := p.buf[1] >= 128;
    var base := if len1 == 126 then 2 else if len1 == 127 then 8 else len1;
    p.(header := Some(Header(Opcode(p.buf[0]), masked, len1)),
       buf := p.buf[2..],
       remain := base + if masked then 4 else 0,
       dataLen := if len1 < 126 then Some(len1) else p.dataLen)
  }

  /** The extended length takes 2 or 8 bytes. */
  function ReadLength(p: Parser, width: nat): Parser
    requires |p.buf| >= width && p.header.Some?
  {
    var n := FromBigEndian(p.buf[..width]);
    p.(buf := p.buf[width..],
       dataLen := Some(n),
       remain := p.remain + n - width,
       readingHead := p.readingHead && p.header.value.masked)
  }

  function ReadMask(p: Parser): Parser
    requires |p.buf| >= 4 && p.codes == []
  {
    p.(readingHead := false,
       codes := MaskCodes(FromBigEndian(p.buf[..4])),
       buf := p.buf[4..],
       remain := p.remain - 4)
  }

  predicate WantsMask(p: Parser) {
    p.header.Some? && p.header.value.masked && p.codes == []
  }

  function ReadPayload(p: Parser, s: seq<byte>): (Parser, Outcome) {
    var s' := if p.buf != [] then p.buf + s else s;
    var q := p.(payload := p.payload + s', remain := p.remain - |s'|);
    if q.remain != 0 then (q, Waiting)
    else if q.codes == [] then (q, Delivered(q.payload))
    else if Covers(q.codes, q.payload) then (q, Delivered(Apply(q.codes, q.payload)))
    else (q, Raised)
  }

  /** The parts of the header still to be read. */
  function Rank(p: Parser): nat {
    if p.header.None? then 2 else if p.dataLen.None? then 1 else 0
  }

  function OnRead(p: Parser, s: seq<byte>): (Parser, Outcome)
    decreases Rank(p), |p.buf| + |s|, 1
  {
    var q := if p.readingHead then p.(buf := p.buf + s) else p;
    if q.readingHead && |q.buf| < q.remain then (q, Waiting) else Advance(q, s)
  }

  /** One branch of `on_read`, and the recursive call it makes if bytes are left. */
  function Advance(p: Parser, s: seq<byte>): (Parser, Outcome)
    decreases Rank(p), |p.buf|, 0
  {
    if p.header.None? then
      if |p.buf| < 2 then (p, Raised)
      else
        var q := ReadHeader(p);
        if q.header.value.opcode == 8 then (q, Closing) else Again(q)
    else if p.dataLen.None? then
      var width := if p.header.value.len1 == 126 then 2 else if p.header.value.len1 == 127 then 8 else 0;
      if width == 0 || |p.buf| < width then (p, Raised) else Again(ReadLength(p, width))
    else if WantsMask(p) then
      if |p.buf| < 4 then (p, Raised) else Again(ReadMask(p))
    else
      ReadPayload(p, s)
  }

  function Again(p: Parser): (Parser, Outcome)
    decreases Rank(p), |p.buf|, 2
  {
    if |p.buf| > 0 then OnRead(p, []) else (p, Waiting)
  }
}
