/** The server side of the message protocol: one partial message and one read
    buffer a connection, reassembled in place as chunks arrive. */
module MessageServer {
  import opened Sequences
  import opened Bytes
  import opened ByteBuffer
  import opened Framing
  import opened Services

  /** net/msg.cpp: a message being read. */
  class Msg {
    var len: int32
    var hasWriteSize: int
    var msgReading: bool
    var data: seq<byte>

    ghost predicate Valid()
      reads this
    {
      && hasWriteSize == |data|
      && msgReading == (len != 0)
      && if len == 0 then data == [] else 0 <= |data| < len
    }

    constructor ()
      ensures Valid() && len == 0
    {
      len, hasWriteSize, msgReading, data := 0, 0, false, [];
    }

    method Clear()
      modifies this
      ensures Valid() && len == 0
    {
      len, hasWriteSize, msgReading, data := 0, 0, false, [];
    }

    method TryWrite(n: int32)
      requires n > 0
      modifies this
      ensures Valid() && len == n && data == []
    {
      len, hasWriteSize, msgReading, data := n, 0, true, [];
    }

    method Write(s: seq<byte>)
      modifies this
      ensures data == old(data) + s && hasWriteSize == old(hasWriteSize) + |s|
      ensures len == old(len) && msgReading == old(msgReading)
    {
      data := data + s;
      hasWriteSize := hasWriteSize + |s|;
    }

    method GetRemainLen() returns (n: int)
      ensures n == len - hasWriteSize
    {
      n := len - hasWriteSize;
    }
  }

  /** What holds of a connection between reads: no length word is waiting to be
      read, or a message is part-filled and the buffer is empty. */
  ghost predicate Resting(pmsg: Msg, pbuf: Buffer)
    requires pbuf.Valid()
    reads pmsg, pbuf, pbuf.date
  {
    if pmsg.len == 0 then |pbuf.Unread()| < 4 else pbuf.Unread() == []
  }

  /** Everything received on a connection and not yet delivered. */
  ghost function Residue(pmsg: Msg, pbuf: Buffer): seq<byte>
    requires pbuf.Valid()
    reads pmsg, pbuf, pbuf.date
  {
    if pmsg.len == 0 then pbuf.Unread() else EncodeInt(pmsg.len) + pmsg.data + pbuf.Unread()
  }

  /** Two connections at rest that received the same undelivered bytes are in the same state. */
  lemma RestingDetermined(m1: Msg, b1: Buffer, m2: Msg, b2: Buffer)
    requires m1.Valid() && b1.Valid() && m2.Valid() && b2.Valid()
    requires Resting(m1, b1) && Resting(m2, b2)
    requires Residue(m1, b1) == Residue(m2, b2)
    ensures m1.len == m2.len && m1.data == m2.data && b1.Unread() == b2.Unread()
  {
    if m1.len != 0 && m2.len != 0 {
      DecodeEncode(m1.len);
      DecodeEncode(m2.len);
      var r := Residue(m1, b1);
      assert r[..4] == EncodeInt(m1.len) && r[..4] == EncodeInt(m2.len);
      assert r[4..] == m1.data && r[4..] == m2.data;
    }
  }

  /** Reading only moves the start of what is unread. */
  ghost predicate Fixed(pbuf: Buffer, date: array<byte>, size: nat, endIdx: nat)
    reads pbuf
  {
    pbuf.date == date && pbuf.size == size && pbuf.endIdx == endIdx
  }

  /** `MsgServer::handle_read` and `Client::on_read` on their message and buffer. The
      verdict is not `Fine` where `try_write` asserts that the length is positive, and
      where `read_ids` asserts that a message has more than the two identifiers. */
  method Reassemble(pmsg: Msg, pbuf: Buffer) returns (msgs: seq<seq<byte>>, verdict: Verdict)
    requires pmsg.Valid() && pbuf.Valid()
    modifies pmsg, pbuf
    ensures pbuf.Valid() && Fixed(pbuf, old(pbuf.date), old(pbuf.size), old(pbuf.endIdx))
    ensures var now := Read(old(Residue(pmsg, pbuf)));
            && msgs == now.msgs && verdict == now.verdict
            && (verdict.Fine? ==> pmsg.Valid() && Resting(pmsg, pbuf) && Residue(pmsg, pbuf) == now.rest)
    decreases pbuf.endIdx - pbuf.startIdx
  {
    msgs := [];
    var ok := ReadLength(pmsg, pbuf);
    if !ok {
      return [], BadLength;
    }
    var m;
    m, ok := TakePart(pmsg, pbuf);
    if m == [] {
      RestingSplit(pmsg, pbuf);
      return [], Fine;
    }
    ReadFirst(m, pbuf.Unread());
    if !ok {
      return [], TooShort;
    }
    var left := pbuf.ReadableSize();
    if left < 4 {
      AndNothingRead(m, pbuf.Unread());
      return [m], Fine;
    }
    var more;
    more, verdict := Reassemble(pmsg, pbuf);
    msgs := [m] + more;
  }

  lemma AndNothingRead(m: seq<byte>, unread: seq<byte>)
    requires |unread| < 4
    ensures And(Reading([m], [], Fine), Read(unread)) == Reading([m], unread, Fine)
  {
    assert [m] + [] == [m];
  }

  /** The first step: take a length word off the buffer if one is wanted and there. */
  method ReadLength(pmsg: Msg, pbuf: Buffer) returns (ok: bool)
    requires pmsg.Valid() && pbuf.Valid()
    modifies pmsg, pbuf
    ensures pbuf.Valid() && Fixed(pbuf, old(pbuf.date), old(pbuf.size), old(pbuf.endIdx))
    ensures pbuf.endIdx - pbuf.startIdx <= old(pbuf.endIdx - pbuf.startIdx)
    ensures ok ==> pmsg.Valid() && Residue(pmsg, pbuf) == old(Residue(pmsg, pbuf))
    ensures ok && pmsg.len == 0 ==> |pbuf.Unread()| < 4
    ensures !ok ==> Read(old(Residue(pmsg, pbuf))) == Reading([], [], BadLength)
  {
    var waiting := pbuf.ReadableSize();
    if pmsg.len == 0 && waiting >= 4 {
      ghost var all := pbuf.Unread();
      var msgLen := pbuf.ReadInt();
      assert msgLen == Announced(all);
      if msgLen <= 0 {
        return false;
      }
      pmsg.TryWrite(msgLen);
      HeldHeader(all);
    }
    return true;
  }

  /** The second step: move what the message still lacks, or what there is of it, from the
      buffer into the message; a full message is handed on and cleared. `ok` is false if
      handing it on breaks the assertion of `read_ids`. */
  method TakePart(pmsg: Msg, pbuf: Buffer) returns (m: seq<byte>, ok: bool)
    requires pmsg.Valid() && pbuf.Valid() && (pmsg.len == 0 ==> |pbuf.Unread()| < 4)
    modifies pmsg, pbuf
    ensures pbuf.Valid() && Fixed(pbuf, old(pbuf.date), old(pbuf.size), old(pbuf.endIdx))
    ensures m == [] ==> ok && pmsg.Valid() && Resting(pmsg, pbuf) && Residue(pmsg, pbuf) == old(Residue(pmsg, pbuf))
    ensures m != [] ==>
              && |m| <= INT_MAX && ok == (|m| > IDS)
              && old(Residue(pmsg, pbuf)) == Raw(m) + pbuf.Unread()
              && pbuf.endIdx - pbuf.startIdx < old(pbuf.endIdx - pbuf.startIdx)
    ensures m != [] && ok ==> pmsg.Valid() && pmsg.len == 0 && Residue(pmsg, pbuf) == pbuf.Unread()
  {
    m, ok := [], true;
    var remainLen := pmsg.GetRemainLen();
    var readSize := pbuf.ReadableSize();
    if remainLen > 0 && readSize > 0 {
      if readSize > remainLen {
        readSize := remainLen;
      }
      Fill(pmsg, pbuf, readSize);
      remainLen := pmsg.GetRemainLen();
      if remainLen == 0 {
        m := pmsg.data;
        ok := |m| > IDS;
        if ok {
          pmsg.Clear();
        }
      }
    }
  }

  method Fill(pmsg: Msg, pbuf: Buffer, n: nat)
    requires pmsg.Valid() && pbuf.Valid() && 0 < n <= |pbuf.Unread()| && n <= pmsg.len - |pmsg.data|
    modifies pmsg, pbuf
    ensures pbuf.Valid() && Fixed(pbuf, old(pbuf.date), old(pbuf.size), old(pbuf.endIdx))
    ensures pbuf.endIdx - pbuf.startIdx == old(pbuf.endIdx - pbuf.startIdx) - n
    ensures pmsg.len == old(pmsg.len) && pmsg.data == old(pmsg.data + pbuf.Unread()[..n])
    ensures pmsg.hasWriteSize == |pmsg.data| && pmsg.msgReading
    ensures pbuf.Unread() == old(pbuf.Unread())[n..] && Residue(pmsg, pbuf) == old(Residue(pmsg, pbuf))
  {
    ghost var head, part, unread := EncodeInt(pmsg.len), pmsg.data, pbuf.Unread();
    var bytes := pbuf.Read(n);
    pmsg.Write(bytes);
    assert (head + (part + unread[..n])) + unread[n..] == (head + part) + unread;
  }

  lemma HeldHeader(all: seq<byte>)
    requires |all| >= 4 && Announced(all) > 0
    ensures EncodeInt(Announced(all)) + [] + all[4..] == all
  {
    EncodeDecode(all[..4]);
  }

  /** A connection at rest has no complete message. */
  lemma RestingSplit(pmsg: Msg, pbuf: Buffer)
    requires pmsg.Valid() && pbuf.Valid() && Resting(pmsg, pbuf)
    ensures Split(Residue(pmsg, pbuf)) == Stream([], Residue(pmsg, pbuf), false)
  {
    var all := Residue(pmsg, pbuf);
    if pmsg.len != 0 {
      DecodeEncode(pmsg.len);
      assert all[..4] == EncodeInt(pmsg.len);
      assert Announced(all) == pmsg.len && |all| == 4 + |pmsg.data|;
    }
  }

  // ---------- The server's tables ----------

  /** One connection: its read buffer and, from its first read on, its partial message,
      all the objects they consist of, and their value. */
  datatype Conn = Conn(pbuf: Buffer, pmsg: Msg?, objs: set<object>, link: Link)

  ghost predicate Holds(conn: Conn)
    reads conn.objs
  {
    var Conn(pbuf, pmsg, objs, link) := conn;
    && pbuf in objs && pbuf.date in objs && (pmsg != null ==> pmsg in objs)
    && pbuf.Valid() && pbuf.Value() == link.view
    && if pmsg == null then link.len == 0 && link.data == []
       else pmsg.Valid() && pmsg.len == link.len && pmsg.data == link.data
  }

  lemma HoldsResidue(conn: Conn)
    requires Holds(conn) && conn.pmsg != null
    ensures conn.pbuf.Unread() == conn.link.view.Unread()
    ensures Residue(conn.pmsg, conn.pbuf) == conn.link.Residue()
  {}

  ghost function ObjectsOf(conns: map<int, Conn>): set<object> {
    set c, o | c in conns && o in conns[c].objs :: o
  }

  ghost predicate AllHold(conns: map<int, Conn>)
    reads ObjectsOf(conns)
  {
    forall c {:trigger Holds(conns[c])} :: c in conns ==> Holds(conns[c])
  }

  /** No two connections share an object. */
  ghost predicate Apart(conns: map<int, Conn>) {
    forall c, d :: c in conns && d in conns && c != d ==> conns[c].objs !! conns[d].objs
  }

  lemma ObjectsWith(conns: map<int, Conn>, c: int, conn: Conn)
    ensures ObjectsOf(conns[c := conn]) == ObjectsOf(conns - {c}) + conn.objs
  {
    var all, others := conns[c := conn], conns - {c};
    forall o | o in ObjectsOf(all)
      ensures o in ObjectsOf(others) + conn.objs
    {
      var d :| d in all && o in all[d].objs;
      assert d != c ==> d in others && o in others[d].objs;
    }
    forall o | o in ObjectsOf(others) + conn.objs
      ensures o in ObjectsOf(all)
    {
      if o in conn.objs {
        assert c in all && o in all[c].objs;
      } else {
        var d :| d in others && o in others[d].objs;
        assert d in all && o in all[d].objs;
      }
    }
  }

  lemma Without(conns: map<int, Conn>, c: int)
    requires c in conns && AllHold(conns) && Apart(conns)
    ensures AllHold(conns - {c}) && Apart(conns - {c}) && Holds(conns[c])
    ensures conns[c].objs !! ObjectsOf(conns - {c}) && ObjectsOf(conns) == ObjectsOf(conns - {c}) + conns[c].objs
  {
    assert conns[c := conns[c]] == conns;
    ObjectsWith(conns, c, conns[c]);
  }

  lemma With(conns: map<int, Conn>, c: int, conn: Conn)
    requires AllHold(conns - {c}) && Apart(conns - {c}) && Holds(conn) && conn.objs !! ObjectsOf(conns - {c})
    ensures AllHold(conns[c := conn]) && Apart(conns[c := conn])
    ensures ObjectsOf(conns[c := conn]) == ObjectsOf(conns - {c}) + conn.objs
  {
    var all, others := conns[c := conn], conns - {c};
    ObjectsWith(conns, c, conn);
    forall d | d in all && d != c
      ensures d in others && all[d] == others[d] && all[d].objs <= ObjectsOf(others)
    {
      assert d in others;
      assert forall o :: o in others[d].objs ==> o in ObjectsOf(others);
    }
  }

  lemma InObjects(conns: map<int, Conn>, c: int)
    requires c in conns && Holds(conns[c])
    ensures conns[c].objs <= ObjectsOf(conns) && conns[c].pbuf in ObjectsOf(conns)
    ensures conns[c].pmsg != null ==> conns[c].pmsg in ObjectsOf(conns)
  {
    assert forall o :: o in conns[c].objs ==> o in ObjectsOf(conns);
  }

  /** One write of a read is appended to the stream's buffer. */
  method Append(ghost conn: Conn, pbuf: Buffer, p: Piece) returns (ghost more: Conn)
    requires Holds(conn) && conn.pbuf == pbuf
    modifies pbuf, pbuf.date
    ensures more == conn.(objs := conn.objs + {pbuf.date},
                          link := conn.link.(view := Put(conn.link.view, p.data, p.slack)))
    ensures Holds(more) && (pbuf.date in conn.objs || fresh(pbuf.date))
  {
    pbuf.Write(p.data, p.slack);
    more := conn.(objs := conn.objs + {pbuf.date}, link := conn.link.(view := Put(conn.link.view, p.data, p.slack)));
  }

  /** `Socket::recv`: all writes of one read. */
  method AppendAll(ghost conn: Conn, pbuf: Buffer, pieces: seq<Piece>) returns (ghost more: Conn)
    requires Holds(conn) && conn.pbuf == pbuf
    modifies conn.objs
    ensures more == conn.(objs := more.objs, link := Receive(conn.link, pieces))
    ensures Holds(more) && conn.objs <= more.objs && fresh(more.objs - conn.objs)
    decreases |pieces|
  {
    more := conn;
    if pieces != [] {
      more := Append(conn, pbuf, pieces[0]);
      more := AppendAll(more, pbuf, pieces[1..]);
    }
  }

  /** What `handle_read` does to one connection, whose first read makes its message. */
  method Deliver(ghost conn: Conn, pbuf: Buffer, pmsg: Msg)
    returns (msgs: seq<seq<byte>>, verdict: Verdict, ghost next: Conn)
    requires Holds(conn) && conn.pbuf == pbuf && conn.pmsg == pmsg
    modifies pbuf, pmsg
    ensures var now := Read(conn.link.Residue());
            && msgs == now.msgs && verdict == now.verdict
            && next == conn.(link := Settle(conn.link))
            && (verdict.Fine? ==> Holds(next))
  {
    HoldsResidue(conn);
    ghost var now := Read(conn.link.Residue());
    msgs, verdict := Reassemble(pmsg, pbuf);
    next := conn.(link := Settle(conn.link));
    if verdict.Fine? {
      RestingValue(pmsg, pbuf, conn.link.view, now.rest);
    }
  }

  /** A connection at rest has the value that its undelivered bytes say. */
  lemma RestingValue(pmsg: Msg, pbuf: Buffer, v: View, rest: seq<byte>)
    requires pmsg.Valid() && pbuf.Valid() && Resting(pmsg, pbuf) && Residue(pmsg, pbuf) == rest
    requires v.Valid() && pbuf.Value() == v.(start := pbuf.startIdx)
    ensures var l := AtRest(v, rest); pbuf.Value() == l.view && pmsg.len == l.len && pmsg.data == l.data
  {
    assert |pbuf.Unread()| == pbuf.endIdx - pbuf.startIdx;
    if pmsg.len != 0 {
      DecodeEncode(pmsg.len);
      assert rest[..4] == EncodeInt(pmsg.len) && rest[4..] == pmsg.data;
    }
  }

  /** The same among other connections. */
  method DeliverAmong(ghost conns: map<int, Conn>, ghost c: int, pbuf: Buffer, pmsg: Msg)
    returns (msgs: seq<seq<byte>>, verdict: Verdict, ghost next: map<int, Conn>)
    requires c in conns && AllHold(conns) && Apart(conns) && conns[c].pbuf == pbuf && conns[c].pmsg == pmsg
    modifies pbuf, pmsg
    ensures var now := Read(conns[c].link.Residue());
            && msgs == now.msgs && verdict == now.verdict
            && next == conns[c := conns[c].(link := Settle(conns[c].link))]
    ensures verdict.Fine? ==> AllHold(next) && Apart(next) && ObjectsOf(next) == ObjectsOf(conns)
  {
    ghost var others, conn := conns - {c}, conns[c];
    Without(conns, c);
    msgs, verdict, conn := Deliver(conn, pbuf, pmsg);
    next := conns[c := conn];
    if verdict.Fine? {
      assert AllHold(others);
      With(conns, c, conn);
    }
  }

  function Links(conns: map<int, Conn>): map<int, Link> {
    map c | c in conns :: conns[c].link
  }

  /** The connections of the specification are those of `conns`, which ties the two tables
      to the objects they hold. `connMsgs` keeps the messages of closed connections. */
  class MsgServer {
    var maxConnectId: int
    var streams: map<int, Buffer>
    var connMsgs: map<int, Msg>
    var delivered: seq<Delivery>
    ghost var conns: map<int, Conn>

    ghost function Value(): Table
      reads this`maxConnectId, this`conns
    {
      Table(Links(conns), maxConnectId)
    }

    function MsgOf(c: int): Msg?
      reads this`connMsgs
    {
      if c in connMsgs then connMsgs[c] else null
    }

    /** The tables hold what `all` says. */
    ghost predicate Tables(all: map<int, Conn>)
      reads this`maxConnectId, this`streams, this`connMsgs
    {
      && streams.Keys == all.Keys && (forall c :: c in streams.Keys + connMsgs.Keys ==> c <= maxConnectId)
      && forall c :: c in all ==> all[c].pbuf == streams[c] && all[c].pmsg == MsgOf(c)
    }

    ghost predicate Valid()
      reads this`maxConnectId, this`streams, this`connMsgs, this`conns, ObjectsOf(conns)
    {
      Tables(conns) && this !in ObjectsOf(conns) && AllHold(conns) && Apart(conns)
    }

    constructor ()
      ensures Valid() && Value() == Table(map[], 0) && delivered == []
    {
      maxConnectId, streams, connMsgs, delivered, conns := 0, map[], map[], [], map[];
    }

    /** The tables do not say what the connections hold. */
    lemma SameObjects(all: map<int, Conn>, c: int, link: Link)
      requires Tables(all) && c in all
      ensures Tables(all[c := all[c].(link := link)])
    {}

    ghost method Adopt(all: map<int, Conn>)
      requires Tables(all) && this !in ObjectsOf(all) && AllHold(all) && Apart(all)
      modifies this`conns
      ensures Valid() && conns == all
    {
      conns := all;
    }

    /** A new connection has a new number and an empty buffer of its own. */
    method NewConnect() returns (c: int)
      requires Valid()
      modifies this`maxConnectId, this`streams, this`conns
      ensures Valid() && c == maxConnectId == old(maxConnectId) + 1
      ensures c in conns && conns == old(conns)[c := conns[c]] && conns[c].link == NEW && fresh(conns[c].objs)
    {
      var pbuf := new Buffer();
      maxConnectId := maxConnectId + 1;
      c := maxConnectId;
      streams := streams[c := pbuf];
      assert conns - {c} == conns;
      ghost var conn := Conn(pbuf, null, {pbuf, pbuf.date}, NEW);
      With(conns, c, conn);
      Adopt(conns[c := conn]);
    }

    /** `close_connect` forgets the stream and leaves the message in the other table. */
    method CloseConnect(c: int)
      requires Valid() && c in streams
      modifies this`streams, this`conns
      ensures Valid() && conns == old(conns) - {c} && connMsgs == old(connMsgs)
    {
      Without(conns, c);
      streams := streams - {c};
      Adopt(conns - {c});
    }

    /** The bytes of one read arrive in the stream's buffer. */
    method Received(c: int, pieces: seq<Piece>)
      requires Valid() && c in streams
      modifies this`conns, conns[c].objs
      ensures Valid() && c in conns && conns == old(conns)[c := conns[c]]
      ensures conns[c].link == Receive(old(conns[c].link), pieces) && fresh(conns[c].objs - old(conns[c].objs))
    {
      ghost var others := conns - {c};
      Without(conns, c);
      ghost var conn := AppendAll(conns[c], streams[c], pieces);
      assert AllHold(others);
      With(conns, c, conn);
      Adopt(conns[c := conn]);
    }

    /** The connection's message, made on its first read. */
    method FindMsg(c: int) returns (pmsg: Msg)
      requires Valid() && c in streams
      modifies this`connMsgs, this`conns
      ensures Valid() && c in connMsgs && connMsgs[c] == pmsg
      ensures c in conns && conns == old(conns)[c := conns[c]]
      ensures conns[c].link == old(conns[c].link) && fresh(conns[c].objs - old(conns[c].objs))
    {
      if c in connMsgs {
        pmsg := connMsgs[c];
      } else {
        pmsg := NewMsg(c);
      }
    }

    method NewMsg(c: int) returns (pmsg: Msg)
      requires Valid() && c in streams && c !in connMsgs
      modifies this`connMsgs, this`conns
      ensures Valid() && connMsgs == old(connMsgs)[c := pmsg]
      ensures c in conns && conns == old(conns)[c := conns[c]]
      ensures conns[c].link == old(conns[c].link) && fresh(conns[c].objs - old(conns[c].objs))
    {
      ghost var others := conns - {c};
      Without(conns, c);
      pmsg := new Msg();
      ghost var conn := conns[c].(pmsg := pmsg, objs := conns[c].objs + {pmsg});
      With(conns, c, conn);
      connMsgs := connMsgs[c := pmsg];
      Adopt(conns[c := conn]);
    }

    /** Hands on what the connection's bytes complete. */
    method HandOn(c: int, pmsg: Msg) returns (verdict: Verdict, ghost next: map<int, Conn>)
      requires Valid() && c in streams && c in connMsgs && connMsgs[c] == pmsg
      modifies this`delivered, conns[c].objs
      ensures var now := Read(conns[c].link.Residue());
              && verdict == now.verdict && delivered == old(delivered) + Tagged(c, now.msgs)
              && next == conns[c := conns[c].(link := Settle(conns[c].link))]
      ensures verdict.Fine? ==> AllHold(next) && Apart(next) && ObjectsOf(next) == ObjectsOf(conns)
    {
      InObjects(conns, c);
      var msgs;
      msgs, verdict, next := DeliverAmong(conns, c, streams[c], pmsg);
      delivered := delivered + Tagged(c, msgs);
    }

    /** `MsgServer::handle_read`. */
    method HandleRead(c: int) returns (verdict: Verdict)
      requires Valid() && c in streams
      modifies this`connMsgs, this`delivered, this`conns, conns[c].objs
      ensures var l := old(conns[c].link);
              && verdict == Read(l.Residue()).verdict
              && delivered == old(delivered) + Tagged(c, Read(l.Residue()).msgs)
              && c in conns && conns == old(conns)[c := conns[c]] && conns[c].link == Settle(l)
      ensures (verdict.Fine? ==> Valid()) && fresh(conns[c].objs - old(conns[c].objs))
    {
      ghost var before := conns;
      var pmsg := FindMsg(c);
      ghost var found, next := conns, conns;
      verdict, next := HandOn(c, pmsg);
      Conclude(c, next, verdict);
      Overwritten(before, c, found[c], next[c]);
    }

    ghost method Conclude(c: int, next: map<int, Conn>, verdict: Verdict)
      requires Tables(conns) && this !in ObjectsOf(conns) && c in conns
      requires c in next && next == conns[c := conns[c].(link := next[c].link)]
      requires verdict.Fine? ==> AllHold(next) && Apart(next) && ObjectsOf(next) == ObjectsOf(conns)
      modifies this`conns
      ensures conns == next && (verdict.Fine? ==> Valid())
    {
      SameObjects(conns, c, next[c].link);
      if verdict.Fine? {
        Adopt(next);
      }
      conns := next;
    }

    /** `TcpStream::handle_read` on a read that brings some pieces and is handed on. */
    method ReadOnce(c: int, pieces: seq<Piece>) returns (verdict: Verdict)
      requires Valid() && c in streams
      modifies this`connMsgs, this`delivered, this`conns, conns[c].objs
      ensures var l := Receive(old(conns[c].link), pieces);
              && verdict == Read(l.Residue()).verdict
              && delivered == old(delivered) + Tagged(c, Read(l.Residue()).msgs)
              && c in conns && conns == old(conns)[c := conns[c]] && conns[c].link == Settle(l)
      ensures (verdict.Fine? ==> Valid()) && fresh(conns[c].objs - old(conns[c].objs))
    {
      ghost var before := conns;
      Received(c, pieces);
      ghost var received := conns;
      verdict := HandleRead(c);
      Overwritten(before, c, received[c], conns[c]);
    }

    /** A read that is handed on, as an event of the run. */
    method Arrived(c: int, pieces: seq<Piece>) returns (verdict: Verdict)
      requires Valid() && c in streams
      modifies this`connMsgs, this`delivered, this`conns, ObjectsOf(conns)
      ensures var now := Next(old(Value()), Arrive(c, pieces));
              && verdict == now.verdict && Value() == now.table && delivered == old(delivered) + now.log
              && (verdict.Fine? ==> Valid())
      ensures fresh(ObjectsOf(conns) - old(ObjectsOf(conns)))
    {
      ghost var before := conns;
      InObjects(conns, c);
      verdict := ReadOnce(c, pieces);
      AfterChange(before, c, conns[c]);
      NextChange(before, maxConnectId, c, pieces, conns[c]);
    }

    /** A read that brings the end of the stream or an error is not handed on. */
    method Ended(c: int, pieces: seq<Piece>)
      requires Valid() && c in streams
      modifies this`conns, ObjectsOf(conns)
      ensures Valid() && Next(old(Value()), End(c, pieces)) == Turn([], Value(), Fine)
      ensures fresh(ObjectsOf(conns) - old(ObjectsOf(conns)))
    {
      ghost var before := conns;
      InObjects(conns, c);
      Received(c, pieces);
      AfterChange(before, c, conns[c]);
      NextChange(before, maxConnectId, c, pieces, conns[c]);
    }

    method Connected()
      requires Valid()
      modifies this`maxConnectId, this`streams, this`conns
      ensures Valid() && Next(old(Value()), Connect) == Turn([], Value(), Fine)
      ensures fresh(ObjectsOf(conns) - old(ObjectsOf(conns)))
    {
      ghost var before := conns;
      var c := NewConnect();
      AfterChange(before, c, conns[c]);
    }

    method Closed(c: int)
      requires Valid() && c in streams
      modifies this`streams, this`conns
      ensures Valid() && Next(old(Value()), Close(c)) == Turn([], Value(), Fine)
      ensures ObjectsOf(conns) <= old(ObjectsOf(conns))
    {
      ghost var before := conns;
      CloseConnect(c);
      AfterClose(before, c);
    }

    /** One event of a run. */
    method Step(e: Event) returns (verdict: Verdict)
      requires Valid() && LegalEvent(Value(), e)
      modifies this, ObjectsOf(conns)
      ensures var now := Next(old(Value()), e);
              && verdict == now.verdict && Value() == now.table && delivered == old(delivered) + now.log
              && (verdict.Fine? ==> Valid())
      ensures fresh(ObjectsOf(conns) - old(ObjectsOf(conns)))
    {
      verdict := Fine;
      match e {
        case Connect =>
          Connected();
        case Arrive(c, pieces) =>
          verdict := Arrived(c, pieces);
        case End(c, pieces) =>
          Ended(c, pieces);
        case Close(c) =>
          Closed(c);
      }
      assert old(delivered) + [] == old(delivered);
    }

    /** A whole run, up to the first broken assertion. */
    method ServeAll(events: seq<Event>) returns (verdict: Verdict)
      requires Valid() && LegalRun(Value(), events)
      modifies this, ObjectsOf(conns)
      ensures var run := Serve(old(Value()), events);
              && verdict == run.verdict && Value() == run.table && delivered == old(delivered) + run.log
              && (verdict.Fine? ==> Valid())
      decreases |events|
    {
      verdict := Fine;
      if events == [] {
        assert delivered + [] == delivered;
        return;
      }
      ghost var log, t := delivered, Value();
      verdict := Step(events[0]);
      if verdict.Fine? {
        ServeStep(log, t, events);
        verdict := ServeAll(events[1..]);
      }
    }
  }

  lemma ServeStep(log: seq<Delivery>, t: Table, events: seq<Event>)
    requires t.Valid() && LegalRun(t, events) && events != [] && Next(t, events[0]).verdict.Fine?
    ensures var now := Next(t, events[0]);
            var run, later := Serve(t, events), Serve(now.table, events[1..]);
            && run.verdict == later.verdict && run.table == later.table
            && log + run.log == (log + now.log) + later.log
  {
    var now := Next(t, events[0]);
    Assoc(log, now.log, Serve(now.table, events[1..]).log);
  }

  lemma Overwritten(conns: map<int, Conn>, c: int, first: Conn, second: Conn)
    ensures conns[c := first][c := second] == conns[c := second]
  {}

  /** What the specification says of a read, in terms of the connections' records. */
  lemma NextChange(conns: map<int, Conn>, last: int, c: int, pieces: seq<Piece>, after: Conn)
    requires c in conns && Table(Links(conns), last).Valid()
    ensures var t, l := Table(Links(conns), last), Receive(conns[c].link, pieces);
            var now, next := Read(l.Residue()), Table(Links(conns[c := after]), last);
            && LegalEvent(t, Arrive(c, pieces)) && LegalEvent(t, End(c, pieces))
            && (after.link == Settle(l) ==> Next(t, Arrive(c, pieces)) == Turn(Tagged(c, now.msgs), next, now.verdict))
            && (after.link == l ==> Next(t, End(c, pieces)) == Turn([], next, Fine))
  {
    AfterChange(conns, c, after);
  }

  lemma AfterChange(before: map<int, Conn>, c: int, conn: Conn)
    ensures Links(before[c := conn]) == Links(before)[c := conn.link]
    ensures ObjectsOf(before[c := conn]) <= ObjectsOf(before) + conn.objs
    ensures c in before ==> before[c].objs <= ObjectsOf(before)
  {
    ObjectsWith(before, c, conn);
    assert forall o :: o in ObjectsOf(before - {c}) ==> o in ObjectsOf(before);
    assert c in before ==> forall o :: o in before[c].objs ==> o in ObjectsOf(before);
  }

  lemma AfterClose(before: map<int, Conn>, c: int)
    ensures Links(before - {c}) == Links(before) - {c} && ObjectsOf(before - {c}) <= ObjectsOf(before)
  {
    assert forall o :: o in ObjectsOf(before - {c}) ==> o in ObjectsOf(before);
  }
}
