/** server/httpserver.cpp: the line loop in front of the HTTP scripts, and the
    switch to whole-message mode that a WebSocket upgrade makes. */
module HttpLines {
  import opened Bytes
  import opened ByteBuffer

  const CRLF: seq<byte> := [CR, LF]

  datatype Lines = Lines(lines: seq<seq<byte>>, rest: seq<byte>)

  function SplitLines(s: seq<byte>): Lines {
    var i := FirstCrlf(s);
    if i < 0 then Lines([], s)
    else
      var tail := SplitLines(s[i + 2..]);
      Lines([s[..i]] + tail.lines, tail.rest)
  }

  function Then(a: Lines, b: Lines): Lines {
    Lines(a.lines + b.lines, b.rest)
  }

  lemma FirstCrlfAppend(a: seq<byte>, b: seq<byte>)
    requires FirstCrlf(a) >= 0
    ensures FirstCrlf(a + b) == FirstCrlf(a)
  {
    var i := FirstCrlf(a);
    assert CrlfAt(a + b, i);
    assert forall k :: 0 <= k < |a| - 1 ==> CrlfAt(a + b, k) == CrlfAt(a, k);
  }

  lemma SplitFront(a: seq<byte>, b: seq<byte>)
    requires FirstCrlf(a) >= 0
    ensures var i := FirstCrlf(a);
            SplitLines(a + b) == Then(Lines([a[..i]], []), SplitLines(a[i + 2..] + b))
  {
    FirstCrlfAppend(a, b);
    var i := FirstCrlf(a);
    assert (a + b)[..i] == a[..i] && (a + b)[i + 2..] == a[i + 2..] + b;
  }

  lemma ThenAssoc(a: Lines, b: Lines, c: Lines)
    ensures Then(Then(a, b), c) == Then(a, Then(b, c))
    ensures a.lines == [] ==> Then(a, c) == c
  {
    assert (a.lines + b.lines) + c.lines == a.lines + (b.lines + c.lines);
    assert [] + c.lines == c.lines;
  }

  lemma {:induction false} SplitLinesAppend(a: seq<byte>, b: seq<byte>)
    ensures SplitLines(a + b) == Then(SplitLines(a), SplitLines(SplitLines(a).rest + b))
    decreases |a|
  {
    var i := FirstCrlf(a);
    if i >= 0 {
      SplitFront(a, b);
      SplitLinesAppend(a[i + 2..], b);
      ThenAssoc(Lines([a[..i]], []), SplitLines(a[i + 2..]), SplitLines(SplitLines(a).rest + b));
    } else {
      ThenAssoc(SplitLines(a), SplitLines(a), SplitLines(a + b));
    }
  }

  /** Chunks read in line mode. */
  function FeedLines(rest: seq<byte>, chunks: seq<seq<byte>>): Lines
    decreases |chunks|
  {
    if chunks == [] then SplitLines(rest)
    else
      var first := SplitLines(rest + chunks[0]);
      Then(first, FeedLines(first.rest, chunks[1..]))
  }

  /** Chunk independence, also for a CR and its LF that arrive in different chunks. */
  lemma {:induction false} FeedLinesIsSplit(rest: seq<byte>, chunks: seq<seq<byte>>)
    ensures FeedLines(rest, chunks) == SplitLines(rest + Flatten(chunks))
    decreases |chunks|
  {
    if chunks == [] {
      assert rest + [] == rest;
    } else {
      var s, tail := rest + chunks[0], Flatten(chunks[1..]);
      assert rest + Flatten(chunks) == s + tail;
      FeedLinesIsSplit(SplitLines(s).rest, chunks[1..]);
      SplitLinesAppend(s, tail);
    }
  }

  /** The lines in their wire form. */
  function Joined(lines: seq<seq<byte>>): seq<byte> {
    if lines == [] then [] else lines[0] + CRLF + Joined(lines[1..])
  }

  ghost predicate AllPlain(lines: seq<seq<byte>>) {
    forall l :: l in lines ==> NoCrlf(l)
  }

  /** Lines and rest are the bytes received, and none of them contains a CR LF. */
  lemma {:induction false} SplitLinesRebuilds(s: seq<byte>)
    ensures var r := SplitLines(s);
            Joined(r.lines) + r.rest == s && AllPlain(r.lines) && NoCrlf(r.rest)
    decreases |s|
  {
    var i := FirstCrlf(s);
    if i >= 0 {
      SplitLinesRebuilds(s[i + 2..]);
      var line, tail := s[..i], SplitLines(s[i + 2..]);
      LineIsPlain(s);
      assert ([line] + tail.lines)[1..] == tail.lines;
      Regroup3(line + CRLF, Joined(tail.lines), tail.rest, s[i + 2..]);
    }
  }

  lemma LineIsPlain(s: seq<byte>)
    requires FirstCrlf(s) >= 0
    ensures var i := FirstCrlf(s);
            NoCrlf(s[..i]) && s[..i] + CRLF + s[i + 2..] == s
  {
    var i := FirstCrlf(s);
    forall k | 0 <= k < i - 1
      ensures !CrlfAt(s[..i], k)
    {
      assert !CrlfAt(s, k);
    }
  }

  lemma Regroup3(a: seq<byte>, b: seq<byte>, c: seq<byte>, d: seq<byte>)
    requires b + c == d
    ensures (a + b) + c == a + d
  {
    assert (a + b) + c == a + (b + c);
  }

  /** That decomposition is the only one, so plain lines survive the trip. */
  lemma {:induction false} LinesRoundTrip(lines: seq<seq<byte>>, rest: seq<byte>)
    requires AllPlain(lines) && NoCrlf(rest)
    ensures SplitLines(Joined(lines) + rest) == Lines(lines, rest)
    decreases |lines|
  {
    if lines == [] {
      assert Joined(lines) + rest == rest;
    } else {
      var tail := Joined(lines[1..]) + rest;
      LinesRoundTrip(lines[1..], rest);
      SplitAfterLine(lines[0], tail);
      Regroup3(lines[0] + CRLF, Joined(lines[1..]), rest, tail);
      assert [lines[0]] + lines[1..] == lines;
    }
  }

  lemma SplitAfterLine(line: seq<byte>, tail: seq<byte>)
    requires NoCrlf(line)
    ensures SplitLines(line + CRLF + tail) == Then(Lines([line], []), SplitLines(tail))
  {
    FirstOfLine(line, tail);
    var s := line + CRLF + tail;
    assert s[..|line|] == line && s[|line| + 2..] == tail;
  }

  lemma FirstOfLine(line: seq<byte>, tail: seq<byte>)
    requires NoCrlf(line)
    ensures FirstCrlf(line + CRLF + tail) == |line|
  {
    var s := line + CRLF + tail;
    assert CrlfAt(s, |line|);
    forall k | 0 <= k < |line|
      ensures !CrlfAt(s, k)
    {
      if k < |line| - 1 {
        assert !CrlfAt(line, k);
      }
    }
  }

  // ---------- Both modes ----------

  datatype Upcall = Line(text: seq<byte>) | Message(bytes: seq<byte>)

  function WireOf(call: Upcall): seq<byte> {
    if call.Line? then call.text + CRLF else call.bytes
  }

  function Wire(calls: seq<Upcall>): seq<byte> {
    if calls == [] then []
    else WireOf(calls[0]) + Wire(calls[1..])
  }

  function AsLines(lines: seq<seq<byte>>): (calls: seq<Upcall>)
    ensures |calls| == |lines|
  {
    if lines == [] then [] else [Line(lines[0])] + AsLines(lines[1..])
  }

  /** One read event: the bytes it brings and the mode the script has left the connection in. */
  datatype Arrival = Arrival(bytes: seq<byte>, lineMode: bool)

  /** `ok` is false where the code asserts that a whole-message read finds bytes. */
  datatype Served = Served(calls: seq<Upcall>, rest: seq<byte>, ok: bool)

  function OnRead(unread: seq<byte>, lineMode: bool): Served {
    if lineMode then
      var r := SplitLines(unread);
      Served(AsLines(r.lines), r.rest, true)
    else if unread == [] then Served([], [], false)
    else Served([Message(unread)], [], true)
  }

  function ServeReads(rest: seq<byte>, events: seq<Arrival>): Served
    decreases |events|
  {
    if events == [] then Served([], rest, true)
    else
      var now := OnRead(rest + events[0].bytes, events[0].lineMode);
      if !now.ok then now
      else
        var later := ServeReads(now.rest, events[1..]);
        Served(now.calls + later.calls, later.rest, later.ok)
  }

  function BytesRead(events: seq<Arrival>): seq<byte> {
    if events == [] then [] else events[0].bytes + BytesRead(events[1..])
  }

  lemma {:induction false} WireAppend(a: seq<Upcall>, b: seq<Upcall>)
    ensures Wire(a + b) == Wire(a) + Wire(b)
  {
    if a == [] {
      assert a + b == b;
    } else {
      assert (a + b)[1..] == a[1..] + b;
      WireAppend(a[1..], b);
    }
  }

  lemma {:induction false} WireOfLines(lines: seq<seq<byte>>)
    ensures Wire(AsLines(lines)) == Joined(lines)
  {
    if lines != [] {
      WireOfLines(lines[1..]);
      assert AsLines(lines)[1..] == AsLines(lines[1..]);
    }
  }

  /** Whenever the script switches modes, no byte is lost, repeated or reordered:
      the calls in their wire form and the rest are the bytes received. */
  lemma {:induction false} NothingLost(rest: seq<byte>, events: seq<Arrival>)
    ensures var served := ServeReads(rest, events);
            served.ok ==> Wire(served.calls) + served.rest == rest + BytesRead(events)
    decreases |events|
  {
    if events == [] {
      assert [] + rest == rest + [];
    } else if OnRead(rest + events[0].bytes, events[0].lineMode).ok {
      var s, later := rest + events[0].bytes, BytesRead(events[1..]);
      var now := OnRead(s, events[0].lineMode);
      OnReadKeeps(s, events[0].lineMode);
      var served := ServeReads(now.rest, events[1..]);
      NothingLost(now.rest, events[1..]);
      assert ServeReads(rest, events) == Served(now.calls + served.calls, served.rest, served.ok);
      WireAppend(now.calls, served.calls);
      if served.ok {
        Regroup(Wire(now.calls), Wire(served.calls), served.rest, now.rest, later);
        Regroup3(rest, events[0].bytes, later, BytesRead(events));
      }
    }
  }

  /** Read event `i` is a whole-message one that brings nothing and finds nothing. */
  predicate FindsNothing(rest: seq<byte>, events: seq<Arrival>, i: nat)
    requires i < |events|
  {
    var before := ServeReads(rest, events[..i]);
    !events[i].lineMode && events[i].bytes == [] && before.ok && before.rest == []
  }

  /** The assertion breaks exactly if there is such an event. */
  lemma {:induction false} AbortsOnEmptyRead(rest: seq<byte>, events: seq<Arrival>)
    ensures !ServeReads(rest, events).ok <==> exists i :: 0 <= i < |events| && FindsNothing(rest, events, i)
    decreases |events|
  {
    if events != [] {
      var now := OnRead(rest + events[0].bytes, events[0].lineMode);
      assert events[..0] == [];
      assert FindsNothing(rest, events, 0) <==> !now.ok;
      if now.ok {
        AbortsOnEmptyRead(now.rest, events[1..]);
      }
      forall i | 0 < i < |events|
        ensures FindsNothing(rest, events, i) <==> now.ok && FindsNothing(now.rest, events[1..], i - 1)
      {
        assert events[..i][1..] == events[1..][..i - 1];
      }
      if now.ok && exists i :: 0 <= i < |events[1..]| && FindsNothing(now.rest, events[1..], i) {
        var i :| 0 <= i < |events[1..]| && FindsNothing(now.rest, events[1..], i);
        assert FindsNothing(rest, events, i + 1);
      }
    }
  }

  predicate AllLines(calls: seq<Upcall>) {
    forall c :: c in calls ==> c.Line?
  }

  lemma {:induction false} AsLinesAreLines(lines: seq<seq<byte>>)
    ensures AllLines(AsLines(lines))
  {
    if lines != [] {
      AsLinesAreLines(lines[1..]);
    }
  }

  /** What a read that begins a run, or ends one, makes of it. */
  function Extended(first: Served, later: Served): Served {
    if first.ok then Served(first.calls + later.calls, later.rest, later.ok) else first
  }

  lemma ServeFirst(rest: seq<byte>, e: Arrival, later: seq<Arrival>)
    ensures var now := OnRead(rest + e.bytes, e.lineMode);
            ServeReads(rest, [e] + later) == Extended(now, ServeReads(now.rest, later))
  {
    assert ([e] + later)[1..] == later;
  }

  lemma ExtendedAssoc(a: Served, b: Served, c: Served)
    ensures Extended(Extended(a, b), c) == Extended(a, Extended(b, c))
    ensures a.ok && a.calls == [] ==> Extended(a, b) == b
    ensures b.ok && b.calls == [] && b.rest == a.rest ==> Extended(a, b) == a
  {
    assert (a.calls + b.calls) + c.calls == a.calls + (b.calls + c.calls);
    assert [] + b.calls == b.calls && a.calls + [] == a.calls;
  }

  /** One more read at the end of a run. */
  lemma {:induction false} ServeSnoc(rest: seq<byte>, events: seq<Arrival>, e: Arrival)
    requires ServeReads(rest, events).ok
    ensures var before := ServeReads(rest, events);
            ServeReads(rest, events + [e]) == Extended(before, OnRead(before.rest + e.bytes, e.lineMode))
    decreases |events|
  {
    if events == [] {
      var now := OnRead(rest + e.bytes, e.lineMode);
      ServeFirst(rest, e, []);
      assert [] + [e] == [e] + [] == [e];
      ExtendedAssoc(Served([], rest, true), now, now);
      ExtendedAssoc(now, Served([], now.rest, true), now);
    } else {
      var d, later := events[0], events[1..];
      var first := OnRead(rest + d.bytes, d.lineMode);
      assert events == [d] + later && events + [e] == [d] + (later + [e]);
      ServeFirst(rest, d, later);
      ServeFirst(rest, d, later + [e]);
      ServeSnoc(first.rest, later, e);
      var before := ServeReads(first.rest, later);
      ExtendedAssoc(first, before, OnRead(before.rest + e.bytes, e.lineMode));
    }
  }

  /** What the last read of any run adds. In whole-message mode it is one upcall, with all
      bytes that were unread or came, and nothing is left; in line mode it is lines only,
      and what is left holds no complete one. */
  lemma LastRead(rest: seq<byte>, events: seq<Arrival>, e: Arrival)
    requires ServeReads(rest, events + [e]).ok && ServeReads(rest, events).ok
    ensures var before, after := ServeReads(rest, events), ServeReads(rest, events + [e]);
            && before.calls <= after.calls
            && if e.lineMode then AllLines(after.calls[|before.calls|..]) && NoCrlf(after.rest)
               else after.calls == before.calls + [Message(before.rest + e.bytes)] && after.rest == []
  {
    ServeSnoc(rest, events, e);
    var unread := ServeReads(rest, events).rest + e.bytes;
    SplitLinesRebuilds(unread);
    AsLinesAreLines(SplitLines(unread).lines);
  }

  predicate AllMessages(events: seq<Arrival>) {
    forall e :: e in events ==> !e.lineMode
  }

  /** After the switch to whole messages, as long as every read brings bytes: one upcall
      for each read, a message of exactly its bytes, the first one with what was unread
      before it, and nothing is left. */
  lemma {:induction false} EveryMessage(rest: seq<byte>, events: seq<Arrival>)
    requires events != [] && AllMessages(events)
    requires rest + events[0].bytes != [] && forall i :: 0 < i < |events| ==> events[i].bytes != []
    ensures var served := ServeReads(rest, events);
            && served.ok && served.rest == [] && |served.calls| == |events|
            && served.calls[0] == Message(rest + events[0].bytes)
            && forall i :: 0 < i < |events| ==> served.calls[i] == Message(events[i].bytes)
    decreases |events|
  {
    assert !events[0].lineMode;
    var first := Message(rest + events[0].bytes);
    if |events| > 1 {
      var later := events[1..];
      assert forall i :: 0 <= i < |later| ==> later[i] == events[i + 1];
      assert [] + later[0].bytes == later[0].bytes != [];
      EveryMessage([], later);
      assert ServeReads(rest, events).calls == [first] + ServeReads([], later).calls;
    } else {
      assert events[1..] == [];
    }
  }

  lemma Regroup(a: seq<byte>, b: seq<byte>, c: seq<byte>, d: seq<byte>, e: seq<byte>)
    requires b + c == d + e
    ensures (a + b) + c == (a + d) + e
  {
    assert (a + b) + c == a + (b + c);
    assert (a + d) + e == a + (d + e);
  }

  lemma OnReadKeeps(unread: seq<byte>, lineMode: bool)
    ensures Wire(OnRead(unread, lineMode).calls) + OnRead(unread, lineMode).rest == unread
  {
    if lineMode {
      SplitLinesRebuilds(unread);
      WireOfLines(SplitLines(unread).lines);
    } else {
      assert unread + [] + [] == unread;
    }
  }

  /** The mode is the one that the last upcall left behind, if there was one. */
  predicate ModeLeft(now: bool, before: bool, first: nat, calls: nat, switches: iset<nat>) {
    now == if calls <= first then before else calls - 1 !in switches
  }

  class HttpHandle {
    var pbuf: Buffer
    var readingLine: bool
    var calls: seq<Upcall>

    constructor (pbuf: Buffer)
      ensures this.pbuf == pbuf && readingLine && calls == []
    {
      this.pbuf, readingLine, calls := pbuf, true, [];
    }

    /** `switches` are the numbers of the upcalls at whose return the script leaves the
        whole-message mode behind; the loop goes on with lines whatever it is. */
    method HandleRead(switches: iset<nat>) returns (ok: bool)
      requires pbuf.Valid()
      modifies this, pbuf
      ensures ok == OnRead(old(pbuf.Unread()), old(readingLine)).ok
      ensures pbuf == old(pbuf) && pbuf.Valid() && pbuf.date == old(pbuf.date)
      ensures pbuf.Unread() == OnRead(old(pbuf.Unread()), old(readingLine)).rest
      ensures calls == old(calls) + OnRead(old(pbuf.Unread()), old(readingLine)).calls
      ensures !old(readingLine) && old(pbuf.Unread()) != [] ==>
                ok && pbuf.Unread() == [] && calls == old(calls) + [Message(old(pbuf.Unread()))]
      ensures ModeLeft(readingLine, old(readingLine), |old(calls)|, |calls|, switches)
    {
      ok := true;
      if readingLine {
        ReadLines(switches);
      } else {
        var n := pbuf.ReadableSize();
        if n == 0 {
          return false;
        }
        var p := pbuf.ReadAll();
        calls := calls + [Message(p)];
        readingLine := |calls| - 1 !in switches;
      }
    }

    method ReadLines(switches: iset<nat>)
      requires pbuf.Valid()
      modifies this, pbuf
      ensures pbuf == old(pbuf) && pbuf.Valid() && pbuf.date == old(pbuf.date)
      ensures pbuf.Unread() == OnRead(old(pbuf.Unread()), true).rest
      ensures calls == old(calls) + OnRead(old(pbuf.Unread()), true).calls
      ensures ModeLeft(readingLine, old(readingLine), |old(calls)|, |calls|, switches)
    {
      ghost var before, mode, unread := calls, readingLine, pbuf.Unread();
      ghost var now := OnRead(unread, true);
      ghost var goal, rest := calls + now.calls, now.rest;
      var idx := pbuf.FindCrlf();
      while idx >= 0
        invariant pbuf == old(pbuf) && pbuf.Valid() && pbuf.date == old(pbuf.date)
        invariant pbuf.Unread() == unread && idx == FirstCrlf(unread) && |calls| >= |before|
        invariant now == OnRead(unread, true) && now.rest == rest && calls + now.calls == goal
        invariant ModeLeft(readingLine, mode, |before|, |calls|, switches)
        decreases |unread|
      {
        NextLine(calls, unread);
        ghost var sofar, later := calls + [Line(unread[..idx])], OnRead(unread[idx + 2..], true);
        var line := TakeLine(idx, switches);
        assert calls == sofar && ModeLeft(readingLine, mode, |before|, |calls|, switches);
        unread, now := unread[idx + 2..], later;
        idx := pbuf.FindCrlf();
      }
      NoMoreLines(calls, unread);
    }

    /** Reads one line and its CR LF off the buffer and hands the line to the script. */
    method TakeLine(idx: nat, switches: iset<nat>) returns (line: seq<byte>)
      requires pbuf.Valid() && idx + 2 <= |pbuf.Unread()|
      modifies this, pbuf
      ensures pbuf == old(pbuf) && pbuf.Valid() && pbuf.date == old(pbuf.date)
      ensures line == old(pbuf.Unread())[..idx] && pbuf.Unread() == old(pbuf.Unread())[idx + 2..]
      ensures calls == old(calls) + [Line(line)] && |calls| == |old(calls)| + 1
      ensures readingLine == (|calls| - 1 !in switches)
    {
      var p := pbuf.Read(idx + 2);
      line := p[..idx];
      calls := calls + [Line(line)];
      readingLine := |calls| - 1 !in switches;
    }
  }

  lemma NextLine(calls: seq<Upcall>, unread: seq<byte>)
    requires FirstCrlf(unread) >= 0
    ensures var i := FirstCrlf(unread);
            var now, later := OnRead(unread, true), OnRead(unread[i + 2..], true);
            now.rest == later.rest && calls + now.calls == (calls + [Line(unread[..i])]) + later.calls
  {
    var i := FirstCrlf(unread);
    var line, tail := unread[..i], SplitLines(unread[i + 2..]);
    assert ([line] + tail.lines)[1..] == tail.lines;
    assert calls + ([Line(line)] + AsLines(tail.lines)) == (calls + [Line(line)]) + AsLines(tail.lines);
  }

  lemma NoMoreLines(calls: seq<Upcall>, unread: seq<byte>)
    requires FirstCrlf(unread) < 0
    ensures OnRead(unread, true).rest == unread && calls + OnRead(unread, true).calls == calls
  {}
}
