/** What the message server does over a whole run of connects, reads and closes, as a
    function of the bytes that arrive. The objects that do it are in MsgServer.dfy. */
module Services {
  import opened Sequences
  import opened Bytes
  import opened ByteBuffer
  import opened Framing

  // ---------- One connection ----------

  /** What `recv` writes to the buffer at once, and what the library reserves for it. */
  datatype Piece = Piece(data: seq<byte>, slack: seq<byte>)

  /** The value of a connection's buffer and partial message. */
  datatype LinkValue = Link(view: View, len: int32, data: seq<byte>) {
    predicate Valid() {
      view.Valid() && if len == 0 then data == [] else 0 <= |data| < len
    }

    /** Everything received and not yet handed on. */
    function Residue(): seq<byte>
      requires view.Valid()
    {
      if len == 0 then view.Unread() else EncodeInt(len) + data + view.Unread()
    }
  }

  type Link = l: LinkValue | l.Valid() witness NEW

  const NEW := LinkValue.Link(EMPTY, 0, [])

  function PutAll(v: View, pieces: seq<Piece>): (w: View)
    requires v.Valid()
    ensures w.Valid()
    decreases |pieces|
  {
    if pieces == [] then v else PutAll(Put(v, pieces[0].data, pieces[0].slack), pieces[1..])
  }

  function Datas(pieces: seq<Piece>): seq<byte> {
    if pieces == [] then [] else pieces[0].data + Datas(pieces[1..])
  }

  /** No write of the read loses unread bytes. */
  predicate KeepsPieces(v: View, pieces: seq<Piece>)
    requires v.Valid()
    decreases |pieces|
  {
    pieces == [] ||
    (KeepsUnread(v, |pieces[0].data|) && KeepsPieces(Put(v, pieces[0].data, pieces[0].slack), pieces[1..]))
  }

  lemma {:induction false} PutAllAppends(v: View, pieces: seq<Piece>)
    requires v.Valid() && KeepsPieces(v, pieces)
    ensures PutAll(v, pieces).Unread() == v.Unread() + Datas(pieces)
    decreases |pieces|
  {
    if pieces == [] {
      assert v.Unread() + [] == v.Unread();
    } else {
      var w := Put(v, pieces[0].data, pieces[0].slack);
      PutAppends(v, pieces[0].data, pieces[0].slack);
      PutAllAppends(w, pieces[1..]);
      Assoc(v.Unread(), pieces[0].data, Datas(pieces[1..]));
    }
  }

  function Receive(l: Link, pieces: seq<Piece>): Link {
    l.(view := PutAll(l.view, pieces))
  }

  lemma ReceiveResidue(l: Link, pieces: seq<Piece>)
    requires KeepsPieces(l.view, pieces)
    ensures Receive(l, pieces).Residue() == l.Residue() + Datas(pieces)
  {
    PutAllAppends(l.view, pieces);
    Assoc(EncodeInt(l.len) + l.data, l.view.Unread(), Datas(pieces));
  }

  /** The connection at rest after a read that leaves `rest`: either no length word is
      waiting to be read, or a message is part-filled and the buffer is empty. */
  function AtRest(v: View, rest: seq<byte>): LinkValue
    requires v.Valid()
  {
    if |rest| < 4 then LinkValue.Link(v.(start := if |rest| <= v.end then v.end - |rest| else 0), 0, [])
    else LinkValue.Link(v.(start := v.end), DecodeInt(rest[..4]), rest[4..])
  }

  /** `b` is the end of `a`. */
  predicate Ends(a: seq<byte>, b: seq<byte>) {
    |b| <= |a| && a[|a| - |b|..] == b
  }

  lemma RestEnds(s: seq<byte>)
    ensures Ends(s, Split(s).rest)
  {
    SplitRebuilds(s);
  }

  lemma EndsLater(a: seq<byte>, k: nat, b: seq<byte>)
    requires k <= |a| && Ends(a[k..], b)
    ensures Ends(a, b)
  {}

  lemma SplitFirst(s: seq<byte>)
    ensures Split(s).rest == if Complete(s) then Split(s[4 + Announced(s)..]).rest else s
  {}

  lemma PartAnnounced(len: int32, data: seq<byte>, unread: seq<byte>)
    requires len > 0
    ensures Announced(EncodeInt(len) + data + unread) == len
  {
    DecodeEncode(len);
    assert (EncodeInt(len) + data + unread)[..4] == EncodeInt(len);
  }

  lemma Behind(head: seq<byte>, unread: seq<byte>, end: nat)
    requires |head| <= end <= |head + unread|
    ensures (head + unread)[end..] == unread[end - |head|..]
  {}

  lemma PartComplete(len: int32, data: seq<byte>, unread: seq<byte>)
    requires 0 <= |data| < len && |Split(EncodeInt(len) + data + unread).rest| < 4
    ensures var all := EncodeInt(len) + data + unread;
            4 + len <= |all| && Split(all).rest == Split(all[4 + len..]).rest
  {
    PartAnnounced(len, data, unread);
    SplitFirst(EncodeInt(len) + data + unread);
  }

  /** Where the part-filled message is completed, what is left is behind it. */
  lemma RestBehind(head: seq<byte>, unread: seq<byte>, end: nat, rest: seq<byte>)
    requires |head| <= end <= |head + unread| && Split((head + unread)[end..]).rest == rest
    ensures Ends(unread, rest)
  {
    var tail := unread[end - |head|..];
    Behind(head, unread, end);
    RestEnds(tail);
    EndsLater(unread, end - |head|, rest);
  }

  lemma PartialRest(len: int32, data: seq<byte>, unread: seq<byte>)
    requires 0 <= |data| < len && |Split(EncodeInt(len) + data + unread).rest| < 4
    ensures Ends(unread, Split(EncodeInt(len) + data + unread).rest)
  {
    var head := EncodeInt(len) + data;
    PartComplete(len, data, unread);
    RestBehind(head, unread, 4 + len, Split(head + unread).rest);
  }

  /** What is left unread is the end of what was unread. */
  lemma RestIsUnread(l: Link)
    requires |Split(l.Residue()).rest| < 4
    ensures Ends(l.view.Unread(), Split(l.Residue()).rest)
  {
    var unread := l.view.Unread();
    if l.len == 0 {
      RestEnds(unread);
    } else {
      PartialRest(l.len, l.data, unread);
    }
  }

  lemma AtRestEmpty(v: View, rest: seq<byte>)
    requires v.Valid() && |rest| < 4 && Ends(v.Unread(), rest)
    ensures AtRest(v, rest).Valid() && AtRest(v, rest).Residue() == rest
  {
    assert v.mem[v.end - |rest|..v.end] == v.Unread()[|v.Unread()| - |rest|..];
  }

  lemma AtRestFilled(v: View, rest: seq<byte>)
    requires v.Valid() && |rest| >= 4 && !Complete(rest) && !Malformed(rest)
    ensures AtRest(v, rest).Valid() && AtRest(v, rest).Residue() == rest
  {
    var len, data := DecodeInt(rest[..4]), rest[4..];
    EncodeDecode(rest[..4]);
    assert Announced(rest) == len && rest[..4] + data == rest;
    assert AtRest(v, rest).view.Unread() == [];
    assert rest + [] == rest;
  }

  lemma AtRestKeeps(l: Link)
    requires Read(l.Residue()).verdict.Fine?
    ensures var rest := Read(l.Residue()).rest;
            AtRest(l.view, rest).Valid() && AtRest(l.view, rest).Residue() == rest
  {
    var rest := Split(l.Residue()).rest;
    if |rest| < 4 {
      RestIsUnread(l);
      AtRestEmpty(l.view, rest);
    } else {
      SplitRebuilds(l.Residue());
      AtRestFilled(l.view, rest);
    }
  }

  /** The connection after a read that breaks no assertion. */
  function Settle(l: Link): Link {
    if Read(l.Residue()).verdict.Fine? then
      AtRestKeeps(l);
      AtRest(l.view, Read(l.Residue()).rest)
    else l
  }

  // ---------- Runs ----------

  /** A connection is accepted; a read brings some pieces and is handed on, or brings some
      and the end of the stream or an error, and is not; a connection is closed. */
  datatype Event =
    | Connect
    | Arrive(conn: int, pieces: seq<Piece>)
    | End(conn: int, pieces: seq<Piece>)
    | Close(conn: int)

  datatype Delivery = Delivery(conn: int, msg: seq<byte>)

  /** The connections, and the last number given to one. */
  datatype Table = Table(links: map<int, Link>, last: int) {
    predicate Valid() {
      forall c :: c in links ==> c <= last
    }
  }

  function Tagged(c: int, msgs: seq<seq<byte>>): (log: seq<Delivery>)
    ensures |log| == |msgs|
  {
    seq(|msgs|, i requires 0 <= i < |msgs| => Delivery(c, msgs[i]))
  }

  predicate LegalEvent(t: Table, e: Event) {
    e.Connect? || e.conn in t.links
  }

  datatype Turn = Turn(log: seq<Delivery>, table: Table, verdict: Verdict)

  function Next(t: Table, e: Event): (r: Turn)
    requires t.Valid() && LegalEvent(t, e)
    ensures r.table.Valid()
  {
    match e
    case Connect => Turn([], Table(t.links[t.last + 1 := NEW], t.last + 1), Fine)
    case Arrive(c, pieces) =>
      var l := Receive(t.links[c], pieces);
      var r := Read(l.Residue());
      Turn(Tagged(c, r.msgs), Table(t.links[c := Settle(l)], t.last), r.verdict)
    case End(c, pieces) => Turn([], Table(t.links[c := Receive(t.links[c], pieces)], t.last), Fine)
    case Close(c) => Turn([], Table(t.links - {c}, t.last), Fine)
  }

  predicate LegalRun(t: Table, events: seq<Event>)
    requires t.Valid()
    decreases |events|
  {
    events == [] ||
    (LegalEvent(t, events[0]) && (Next(t, events[0]).verdict.Fine? ==> LegalRun(Next(t, events[0]).table, events[1..])))
  }

  /** A run up to the first broken assertion: what was handed on, the connections, how it
      ended and after how many events. */
  datatype Service = Service(log: seq<Delivery>, table: Table, verdict: Verdict, taken: nat)

  function Serve(t: Table, events: seq<Event>): (r: Service)
    requires t.Valid() && LegalRun(t, events)
    ensures r.taken <= |events| && (r.verdict.Fine? ==> r.taken == |events|) && r.table.Valid()
    decreases |events|
  {
    if events == [] then Service([], t, Fine, 0)
    else
      var now := Next(t, events[0]);
      if !now.verdict.Fine? then Service(now.log, now.table, now.verdict, 1)
      else
        var later := Serve(now.table, events[1..]);
        Service(now.log + later.log, later.table, later.verdict, 1 + later.taken)
  }

  /** No write of the event loses unread bytes. */
  predicate KeptEvent(t: Table, e: Event)
    requires t.Valid() && LegalEvent(t, e)
  {
    e.Arrive? || e.End? ==> KeepsPieces(t.links[e.conn].view, e.pieces)
  }

  predicate KeptRun(t: Table, events: seq<Event>)
    requires t.Valid() && LegalRun(t, events)
    decreases |events|
  {
    if events == [] then true
    else
      var now := Next(t, events[0]);
      KeptEvent(t, events[0]) && (now.verdict.Fine? ==> KeptRun(now.table, events[1..]))
  }

  // ---------- What a connection gets out of a run ----------

  /** Some read of connection `c` is handed on. */
  predicate Arrives(events: seq<Event>, c: int) {
    events != [] && ((events[0].Arrive? && events[0].conn == c) || Arrives(events[1..], c))
  }

  /** The bytes of `c` up to the last read that is handed on. */
  function Handed(events: seq<Event>, c: int): seq<byte> {
    if !Arrives(events, c) then []
    else if (events[0].Arrive? || events[0].End?) && events[0].conn == c then
      Datas(events[0].pieces) + Handed(events[1..], c)
    else Handed(events[1..], c)
  }

  /** What was handed on of connection `c`. */
  function MsgsOf(log: seq<Delivery>, c: int): seq<seq<byte>> {
    if log == [] then []
    else
      var rest := MsgsOf(log[1..], c);
      if log[0].conn == c then [log[0].msg] + rest else rest
  }

  /** What connection `c` holds; one that is not there yet holds nothing. */
  function Own(t: Table, c: int): seq<byte>
    requires t.Valid()
  {
    if c in t.links then t.links[c].Residue() else []
  }

  lemma {:induction false} MsgsOfAppend(a: seq<Delivery>, b: seq<Delivery>, c: int)
    ensures MsgsOf(a + b, c) == MsgsOf(a, c) + MsgsOf(b, c)
  {
    if a == [] {
      assert a + b == b;
    } else {
      assert (a + b)[1..] == a[1..] + b;
      MsgsOfAppend(a[1..], b, c);
      Assoc([a[0].msg], MsgsOf(a[1..], c), MsgsOf(b, c));
    }
  }

  lemma {:induction false} MsgsOfTagged(c: int, msgs: seq<seq<byte>>, d: int)
    ensures MsgsOf(Tagged(c, msgs), d) == if c == d then msgs else []
    decreases |msgs|
  {
    if msgs != [] {
      assert Tagged(c, msgs)[1..] == Tagged(c, msgs[1..]);
      MsgsOfTagged(c, msgs[1..], d);
      assert [msgs[0]] + msgs[1..] == msgs;
    }
  }

  /** One event, as connection `c` sees it. */
  lemma NextForOne(t: Table, e: Event, c: int)
    requires t.Valid() && LegalEvent(t, e) && KeptEvent(t, e)
    ensures var now := Next(t, e);
            var all := Own(t, c) + if (e.Arrive? || e.End?) && e.conn == c then Datas(e.pieces) else [];
            if e.Arrive? && e.conn == c then
              && MsgsOf(now.log, c) == Read(all).msgs && now.verdict == Read(all).verdict
              && (now.verdict.Fine? ==> Own(now.table, c) == Read(all).rest)
            else
              && MsgsOf(now.log, c) == []
              && (now.verdict.Fine? && e != Close(c) ==> Own(now.table, c) == all)
  {
    assert Own(t, c) + [] == Own(t, c);
    match e
    case Connect =>
    case Arrive(d, pieces) =>
      var l := Receive(t.links[d], pieces);
      ReceiveResidue(t.links[d], pieces);
      MsgsOfTagged(d, Read(l.Residue()).msgs, c);
      if Read(l.Residue()).verdict.Fine? {
        AtRestKeeps(l);
      }
    case End(d, pieces) =>
      ReceiveResidue(t.links[d], pieces);
    case Close(d) =>
  }

  /** Numbers are never used twice: what was closed stays closed. */
  lemma {:induction false} GoneForGood(t: Table, events: seq<Event>, c: int)
    requires t.Valid() && LegalRun(t, events) && c !in t.links && c <= t.last
    ensures !Arrives(events[..Serve(t, events).taken], c)
    ensures Serve(t, events).verdict.Fine? ==> c !in Serve(t, events).table.links
    decreases |events|
  {
    if events != [] {
      var now := Next(t, events[0]);
      if now.verdict.Fine? {
        GoneForGood(now.table, events[1..], c);
        var taken := Serve(now.table, events[1..]).taken;
        assert events[..1 + taken][1..] == events[1..][..taken];
      } else {
        assert events[..1][1..] == [];
      }
    }
  }

  /** What connection `c` gets out of some events, if it held `own` before: the reading of
      its own bytes up to the last read that is handed on. */
  function Lot(own: seq<byte>, events: seq<Event>, c: int): Reading {
    if Arrives(events, c) then Read(own + Handed(events, c)) else Reading([], own, Fine)
  }

  predicate Brings(e: Event, c: int) {
    (e.Arrive? || e.End?) && e.conn == c
  }

  lemma LotFirst(own: seq<byte>, e: Event, later: seq<Event>, c: int)
    ensures var all := if Brings(e, c) then own + Datas(e.pieces) else own;
            if e.Arrive? && e.conn == c then
              Lot(own, [e] + later, c) == And(Read(all), Lot(Read(all).rest, later, c))
            else if Brings(e, c) && !Arrives(later, c) then Lot(own, [e] + later, c) == Reading([], own, Fine)
            else Lot(own, [e] + later, c) == Lot(all, later, c)
  {
    var events := [e] + later;
    assert events[1..] == later;
    if Brings(e, c) {
      var all := own + Datas(e.pieces);
      Assoc(own, Datas(e.pieces), Handed(later, c));
      if e.Arrive? {
        LotArrives(own, e, later, c);
      }
    }
  }

  lemma HandedFirst(e: Event, later: seq<Event>, c: int)
    requires e.Arrive? && e.conn == c
    ensures Arrives([e] + later, c) && Handed([e] + later, c) == Datas(e.pieces) + Handed(later, c)
  {
    assert ([e] + later)[1..] == later;
  }

  lemma AndNothing(r: Reading, own: seq<byte>)
    requires r.verdict.Fine? && r.rest == own
    ensures And(r, Reading([], own, Fine)) == r
  {
    assert r.msgs + [] == r.msgs;
  }

  lemma LotArrives(own: seq<byte>, e: Event, later: seq<Event>, c: int)
    requires e.Arrive? && e.conn == c
    ensures var all := own + Datas(e.pieces);
            Lot(own, [e] + later, c) == And(Read(all), Lot(Read(all).rest, later, c))
  {
    var all, rest := own + Datas(e.pieces), Handed(later, c);
    HandedFirst(e, later, c);
    Assoc(own, Datas(e.pieces), rest);
    if Arrives(later, c) {
      ReadAppend(all, rest);
    } else {
      assert all + [] == all;
      if Read(all).verdict.Fine? {
        AndNothing(Read(all), Read(all).rest);
      }
    }
  }

  lemma SeenFirst(events: seq<Event>, taken: nat)
    requires events != [] && taken <= |events[1..]|
    ensures events[..1 + taken] == [events[0]] + events[1..][..taken]
  {}

  /** What connection `c` got from a run is its lot, whatever happens on the others. */
  ghost predicate GotLot(t: Table, events: seq<Event>, c: int)
    requires t.Valid() && LegalRun(t, events)
  {
    MsgsOf(Serve(t, events).log, c) == Lot(Own(t, c), events[..Serve(t, events).taken], c).msgs
  }

  /** The log of a run from its second event on. */
  lemma LogStep(t: Table, events: seq<Event>, c: int)
    requires t.Valid() && LegalRun(t, events) && events != [] && Next(t, events[0]).verdict.Fine?
    ensures var now := Next(t, events[0]);
            var later := Serve(now.table, events[1..]);
            && MsgsOf(Serve(t, events).log, c) == MsgsOf(now.log, c) + MsgsOf(later.log, c)
            && events[..Serve(t, events).taken] == [events[0]] + events[1..][..later.taken]
  {
    var now := Next(t, events[0]);
    var later := Serve(now.table, events[1..]);
    MsgsOfAppend(now.log, later.log, c);
    SeenFirst(events, later.taken);
  }

  lemma LotStep(t: Table, events: seq<Event>, c: int)
    requires t.Valid() && LegalRun(t, events) && KeptRun(t, events) && events != []
    requires Next(t, events[0]).verdict.Fine? && GotLot(Next(t, events[0]).table, events[1..], c)
    ensures GotLot(t, events, c)
  {
    var e, now := events[0], Next(t, events[0]);
    var later := Serve(now.table, events[1..]);
    LogStep(t, events, c);
    NextForOne(t, e, c);
    LotFirst(Own(t, c), e, events[1..][..later.taken], c);
    assert [] + MsgsOf(later.log, c) == MsgsOf(later.log, c) && Own(t, c) + [] == Own(t, c);
    if e == Close(c) {
      GoneForGood(now.table, events[1..], c);
    }
  }

  /** However reads of different connections interleave and however each one's bytes are
      cut, a connection gets the messages of its own bytes, up to the last read of it that
      is handed on; also in a run that ends with a broken assertion. */
  lemma {:induction false} PerConnection(t: Table, events: seq<Event>, c: int)
    requires t.Valid() && LegalRun(t, events) && KeptRun(t, events)
    ensures MsgsOf(Serve(t, events).log, c) == Lot(Own(t, c), events[..Serve(t, events).taken], c).msgs
    decreases |events|
  {
    if events != [] {
      if Next(t, events[0]).verdict.Fine? {
        PerConnection(Next(t, events[0]).table, events[1..], c);
        LotStep(t, events, c);
      } else {
        NextForOne(t, events[0], c);
        SeenFirst(events, 0);
        LotFirst(Own(t, c), events[0], [], c);
      }
    }
  }

  /** The bytes of `c` behind the last read that is handed on. */
  function Left(events: seq<Event>, c: int): seq<byte> {
    if events == [] then []
    else if Brings(events[0], c) && !Arrives(events, c) then Datas(events[0].pieces) + Left(events[1..], c)
    else Left(events[1..], c)
  }

  /** What is left of connection `c` by a run that goes through. */
  ghost predicate HoldsRest(t: Table, events: seq<Event>, c: int)
    requires t.Valid() && LegalRun(t, events) && Serve(t, events).verdict.Fine?
  {
    && Lot(Own(t, c), events, c).verdict.Fine?
    && (c in Serve(t, events).table.links ==>
          Own(Serve(t, events).table, c) == Lot(Own(t, c), events, c).rest + Left(events, c))
  }

  lemma LeftFirst(e: Event, later: seq<Event>, c: int)
    ensures Left([e] + later, c) ==
            if Brings(e, c) && !e.Arrive? && !Arrives(later, c) then Datas(e.pieces) + Left(later, c)
            else Left(later, c)
  {
    assert ([e] + later)[1..] == later;
  }

  lemma RestStep(t: Table, events: seq<Event>, c: int)
    requires t.Valid() && LegalRun(t, events) && KeptRun(t, events) && events != []
    requires Serve(t, events).verdict.Fine? && HoldsRest(Next(t, events[0]).table, events[1..], c)
    ensures HoldsRest(t, events, c)
  {
    var e, now, later := events[0], Next(t, events[0]), events[1..];
    assert events == [e] + later;
    NextForOne(t, e, c);
    LotFirst(Own(t, c), e, later, c);
    LeftFirst(e, later, c);
    assert Own(t, c) + [] == Own(t, c);
    if e == Close(c) {
      GoneForGood(now.table, later, c);
      WholeRunSeen(now.table, later);
    } else if Brings(e, c) {
      Assoc(Own(t, c), Datas(e.pieces), Left(later, c));
    }
  }

  lemma WholeRunSeen(t: Table, events: seq<Event>)
    requires t.Valid() && LegalRun(t, events) && Serve(t, events).verdict.Fine?
    ensures events[..Serve(t, events).taken] == events
  {}

  /** A run that goes through leaves on each open connection what its own bytes say. */
  lemma {:induction false} RestPerConnection(t: Table, events: seq<Event>, c: int)
    requires t.Valid() && LegalRun(t, events) && KeptRun(t, events) && Serve(t, events).verdict.Fine?
    ensures Lot(Own(t, c), events, c).verdict.Fine?
    ensures c in Serve(t, events).table.links ==>
              Own(Serve(t, events).table, c) == Lot(Own(t, c), events, c).rest + Left(events, c)
    decreases |events|
  {
    if events != [] {
      RestPerConnection(Next(t, events[0]).table, events[1..], c);
      RestStep(t, events, c);
    } else {
      assert Own(t, c) + [] == Own(t, c);
    }
  }

  /** A connection that is open or may still be opened. */
  predicate MayArrive(t: Table, c: int) {
    c in t.links || c > t.last
  }

  lemma {:induction false} AbortingConnection(t: Table, events: seq<Event>) returns (c: int)
    requires t.Valid() && LegalRun(t, events) && KeptRun(t, events) && !Serve(t, events).verdict.Fine?
    ensures MayArrive(t, c) && Lot(Own(t, c), events, c).verdict == Serve(t, events).verdict
    decreases |events|
  {
    var e, now, later := events[0], Next(t, events[0]), events[1..];
    assert events == [e] + later;
    if now.verdict.Fine? {
      c := AbortingConnection(now.table, later);
    } else {
      c := e.conn;
    }
    NextForOne(t, e, c);
    LotFirst(Own(t, c), e, later, c);
    assert Own(t, c) + [] == Own(t, c);
  }

  /** The server aborts exactly when the bytes of some connection that are handed on reach a
      length that is not positive or complete a message of at most eight bytes. */
  lemma AbortsExactly(t: Table, events: seq<Event>)
    requires t.Valid() && LegalRun(t, events) && KeptRun(t, events)
    ensures Serve(t, events).verdict.Fine? <==>
            forall c :: MayArrive(t, c) ==> Lot(Own(t, c), events, c).verdict.Fine?
  {
    if Serve(t, events).verdict.Fine? {
      forall c | MayArrive(t, c)
        ensures Lot(Own(t, c), events, c).verdict.Fine?
      {
        RestPerConnection(t, events, c);
      }
    } else {
      var c := AbortingConnection(t, events);
    }
  }

  /** What a read loses if it also brings the end of the stream, so that the same bytes are
      not handed on: something exactly if they complete a first message that has more than
      eight bytes. */
  lemma DroppedByClose(t: Table, c: int, pieces: seq<Piece>)
    requires t.Valid() && c in t.links && KeepsPieces(t.links[c].view, pieces)
    ensures Serve(t, [End(c, pieces), Close(c)]).log == []
    ensures var all := Own(t, c) + Datas(pieces);
            Serve(t, [Arrive(c, pieces)]).log != [] <==> Complete(all) && Announced(all) > IDS
  {
    var ended := [End(c, pieces), Close(c)];
    assert ended[1..] == [Close(c)] && ended[1..][1..] == [];
    assert [Arrive(c, pieces)][1..] == [];
    var next := Next(t, ended[0]).table;
    assert Serve(next, [Close(c)]).log == [] + Serve(Next(next, Close(c)).table, []).log;
    ReceiveResidue(t.links[c], pieces);
    SomethingRead(Own(t, c) + Datas(pieces));
  }

  lemma SomethingRead(s: seq<byte>)
    ensures Read(s).msgs != [] <==> Complete(s) && Announced(s) > IDS
  {
    if Complete(s) {
      var m, tail := s[4..4 + Announced(s)], Split(s[4 + Announced(s)..]);
      LongCons(m, tail.msgs);
    }
  }

  // ---------- Exact reallocation ----------

  predicate NoReserve(pieces: seq<Piece>) {
    forall p :: p in pieces ==> p.slack == []
  }

  predicate AllExact(t: Table) {
    forall c :: c in t.links ==> t.links[c].view.Exact()
  }

  lemma {:induction false} ExactPieces(v: View, pieces: seq<Piece>)
    requires v.Exact() && NoReserve(pieces)
    ensures KeepsPieces(v, pieces) && PutAll(v, pieces).Exact()
    decreases |pieces|
  {
    if pieces != [] {
      StepExact(v, Write(pieces[0].data, pieces[0].slack));
      ExactPieces(Put(v, pieces[0].data, pieces[0].slack), pieces[1..]);
    }
  }

  /** If every reallocation is to exactly the requested size, no run loses unread bytes. */
  lemma {:induction false} ExactRunKeeps(t: Table, events: seq<Event>)
    requires t.Valid() && LegalRun(t, events) && AllExact(t)
    requires forall e :: e in events && (e.Arrive? || e.End?) ==> NoReserve(e.pieces)
    ensures KeptRun(t, events)
    decreases |events|
  {
    if events != [] {
      var e := events[0];
      if e.Arrive? || e.End? {
        ExactPieces(t.links[e.conn].view, e.pieces);
      }
      if Next(t, e).verdict.Fine? {
        ExactRunKeeps(Next(t, e).table, events[1..]);
      }
    }
  }
}
