/** When `handle_close` is called: on bytes, without the notion of a frame. */
module WebSocketClose {
  import opened Bytes
  import opened Wrappers
  import opened WebSocketFrames
  import opened WebSocketParser
  import opened WebSocketStream

  /** A parser that has no header yet waits for the first two bytes. */
  predicate Begins(p: Parser) {
    p.header.None? ==> p.readingHead && p.remain == 2 && |p.buf| < 2
  }

  /** Behind the first two bytes nothing closes. */
  lemma {:induction false} NeverCloses(p: Parser, s: seq<byte>)
    requires p.header.Some?
    ensures !OnRead(p, s).1.Closing? && OnRead(p, s).0.header.Some?
    decreases Rank(p), |p.buf| + |s|, 1
  {
    var q := if p.readingHead then p.(buf := p.buf + s) else p;
    if !(q.readingHead && |q.buf| < q.remain) {
      if q.dataLen.None? {
        var width := if q.header.value.len1 == 126 then 2 else if q.header.value.len1 == 127 then 8 else 0;
        if 0 < width <= |q.buf| {
          AgainNeverCloses(ReadLength(q, width));
        }
      } else if WantsMask(q) && |q.buf| >= 4 {
        AgainNeverCloses(ReadMask(q));
      }
    }
  }

  lemma {:induction false} AgainNeverCloses(p: Parser)
    requires p.header.Some?
    ensures !Again(p).1.Closing? && Again(p).0.header.Some?
    decreases Rank(p), |p.buf|, 2
  {
    if p.buf != [] {
      NeverCloses(p, []);
    }
  }

  /** What the call does that brings the first two bytes. */
  lemma FirstTwo(p: Parser, s: seq<byte>)
    requires Begins(p) && p.header.None? && |p.buf| + |s| >= 2
    ensures var h := ReadHeader(p.(buf := p.buf + s));
            OnRead(p, s) == if (p.buf + s)[0] % 16 == 8 then (h, Closing) else Again(h)
  {
    var q := p.(buf := p.buf + s);
    assert OnRead(p, s) == Advance(q, s);
  }

  /** `handle_close` is called exactly by the call that brings the second byte behind a
      first one whose low four bits are 8, masked or not and whatever follows. */
  lemma ClosingExact(p: Parser, s: seq<byte>)
    requires Begins(p)
    ensures OnRead(p, s).1.Closing? <==> p.header.None? && |p.buf| + |s| >= 2 && (p.buf + s)[0] % 16 == 8
    ensures Begins(OnRead(p, s).0)
    ensures p.header.None? && |p.buf| + |s| < 2 ==> OnRead(p, s) == (p.(buf := p.buf + s), Waiting)
  {
    if p.header.Some? {
      NeverCloses(p, s);
    } else if |p.buf| + |s| >= 2 {
      FirstTwo(p, s);
      AgainNeverCloses(ReadHeader(p.(buf := p.buf + s)));
    }
  }

  // ---------- Runs of the handle ----------

  /** One call of `handle_message`, and the parser that it leaves. */
  function Call(cur: Option<Parser>, c: seq<byte>): (Option<Parser>, Outcome) {
    var (q, o) := OnRead(if cur.None? then INIT else cur.value, c);
    (if o.Delivered? then None else Some(q), o)
  }

  /** How the calls of a run end, and the parser that is left. */
  function Calls(cur: Option<Parser>, chunks: seq<seq<byte>>): (calls: seq<Outcome>)
    ensures |calls| == |chunks|
    decreases |chunks|
  {
    if chunks == [] then [] else [Call(cur, chunks[0]).1] + Calls(Call(cur, chunks[0]).0, chunks[1..])
  }

  function Left(cur: Option<Parser>, chunks: seq<seq<byte>>): Option<Parser>
    decreases |chunks|
  {
    if chunks == [] then cur else Left(Call(cur, chunks[0]).0, chunks[1..])
  }

  /** What `handle_frame` is given. */
  function Given(calls: seq<Outcome>): seq<seq<byte>> {
    if calls == [] then []
    else if calls[0].Delivered? then [calls[0].data] + Given(calls[1..])
    else Given(calls[1..])
  }

  lemma {:induction false} GivenAppend(a: seq<Outcome>, b: seq<Outcome>)
    ensures Given(a + b) == Given(a) + Given(b)
  {
    if a == [] {
      assert a + b == b;
    } else {
      assert (a + b)[1..] == a[1..] + b;
      GivenAppend(a[1..], b);
    }
  }

  lemma RunStep(cur: Option<Parser>, chunks: seq<seq<byte>>)
    requires chunks != []
    ensures var (next, o) := Call(cur, chunks[0]);
            && Calls(cur, chunks) == [o] + Calls(next, chunks[1..])
            && Session(cur, chunks) == if o.Delivered? then [o.data] + Session(next, chunks[1..])
                                       else Session(next, chunks[1..])
  {}

  lemma {:induction false} SessionIsGiven(cur: Option<Parser>, chunks: seq<seq<byte>>)
    ensures Session(cur, chunks) == Given(Calls(cur, chunks))
    decreases |chunks|
  {
    if chunks != [] {
      var next := Call(cur, chunks[0]).0;
      SessionIsGiven(next, chunks[1..]);
      assert Calls(cur, chunks)[1..] == Calls(next, chunks[1..]);
    }
  }

  lemma {:induction false} CallsAppend(cur: Option<Parser>, a: seq<seq<byte>>, b: seq<seq<byte>>)
    ensures Calls(cur, a + b) == Calls(cur, a) + Calls(Left(cur, a), b)
    decreases |a|
  {
    if a == [] {
      assert a + b == b;
    } else {
      assert (a + b)[0] == a[0] && (a + b)[1..] == a[1..] + b;
      CallsAppend(Call(cur, a[0]).0, a[1..], b);
    }
  }

  /** A run leaves no parser behind, and closes nothing. */
  ghost predicate LeavesNone(cur: Option<Parser>, chunks: seq<seq<byte>>) {
    Left(cur, chunks) == None && Closing !in Calls(cur, chunks)
  }

  lemma LeavesStep(cur: Option<Parser>, chunks: seq<seq<byte>>)
    requires chunks != [] && !Call(cur, chunks[0]).1.Closing? && LeavesNone(Call(cur, chunks[0]).0, chunks[1..])
    ensures LeavesNone(cur, chunks)
  {}

  lemma {:induction false} GoodLeaveNone(frames: seq<Frame>, k: nat, chunks: seq<seq<byte>>)
    requires PartOf(frames, k, chunks) && AllGood(frames) && k + |Flatten(chunks)| == |EncodeAll(frames)|
    ensures LeavesNone(At(frames, k), chunks)
    decreases |chunks|
  {
    if chunks != [] {
      PartStep(frames, k, chunks);
      var f, c := frames[0], chunks[0];
      if k + |c| < |f.Encode()| {
        Within(f, k, c);
        GoodLeaveNone(frames, k + |c|, chunks[1..]);
      } else {
        assert c == f.Encode()[k..] + [];
        Across(f, k, c, []);
        GoodLeaveNone(frames[1..], 0, chunks[1..]);
      }
      LeavesStep(At(frames, k), chunks);
    }
  }

  /** The bytes begin with one whose low four bits are 8. */
  predicate BeginsClose(s: seq<byte>) {
    s != [] ==> s[0] % 16 == 8
  }

  /** The part of a frame that `chunks` brings, after `b` and up to its second byte. */
  lemma {:induction false} CloseFrom(b: seq<byte>, chunks: seq<seq<byte>>)
    requires |b| < 2 && NoneEmpty(chunks) && BeginsClose(b + Flatten(chunks))
    ensures Closing in Calls(Some(INIT.(buf := b)), chunks) <==> |b| + |Flatten(chunks)| >= 2
    ensures |b| + |Flatten(chunks)| >= 2 ==>
              chunks != [] && if |b| + |chunks[0]| >= 2 then Calls(Some(INIT.(buf := b)), chunks)[0] == Closing
                              else |chunks| >= 2 && Calls(Some(INIT.(buf := b)), chunks)[..2] == [Waiting, Closing]
    decreases |chunks|
  {
    if chunks != [] {
      var p, c := INIT.(buf := b), chunks[0];
      ClosingExact(p, c);
      assert (b + Flatten(chunks))[..|b + c|] == b + c;
      if |b + c| < 2 {
        assert (b + c) + Flatten(chunks[1..]) == b + Flatten(chunks);
        CloseFrom(b + c, chunks[1..]);
        assert b == [];
      }
    }
  }

  /** The number of chunks that bring the first two bytes. */
  function Needed(chunks: seq<seq<byte>>): nat {
    if chunks == [] then 0 else if |chunks[0]| >= 2 then 1 else 2
  }

  lemma OneCall(c: seq<byte>)
    requires |c| >= 2 && c[0] % 16 == 8
    ensures Calls(None, [c]) == [Closing]
  {
    assert [] + c == c;
    ClosingExact(INIT, c);
  }

  lemma TwoCalls(c: seq<byte>, d: seq<byte>)
    requires |c| == 1 && c[0] % 16 == 8 && d != []
    ensures Calls(None, [c]) == [Waiting] && Calls(None, [c, d]) == [Waiting, Closing]
  {
    assert [] + c == c && (c + d)[0] == c[0] && [c, d][1..] == [d];
    ClosingExact(INIT, c);
    ClosingExact(INIT.(buf := c), d);
  }

  /** The calls up to the one that closes. */
  lemma CloseCalls(chunks: seq<seq<byte>>)
    requires NoneEmpty(chunks) && BeginsClose(Flatten(chunks)) && |Flatten(chunks)| >= 2
    ensures var n := Needed(chunks);
            && 0 < n <= |chunks| && Given(Calls(None, chunks[..n])) == []
            && Closing !in Calls(None, chunks[..n - 1]) && Closing in Calls(None, chunks[..n])
  {
    var c := chunks[0];
    assert c[0] == Flatten(chunks)[0];
    if |c| >= 2 {
      OneCall(c);
      assert chunks[..1] == [c];
    } else {
      assert chunks[1] != [];
      TwoCalls(c, chunks[1]);
      assert chunks[..1] == [c] && chunks[..2] == [c, chunks[1]];
      assert Given([Waiting, Closing]) == Given([Closing]) == [];
    }
  }

  /** Some frames, all good, each in chunks of its own. */
  predicate Complete(frames: seq<Frame>, before: seq<seq<byte>>) {
    && AllReadable(frames) && AllGood(frames) && NoneEmpty(before) && Aligned(frames, 0, before)
    && Flatten(before) == EncodeAll(frames)
  }

  /** A good stream and then any bytes that begin as a close frame does, in any form,
      masked or not, and cut in any way: the handle closes exactly if two of them have
      come, with the call that brings the second one, and up to that call it has been
      given the payloads of the stream and nothing else. */
  lemma ClosesExactly(frames: seq<Frame>, before: seq<seq<byte>>, chunks: seq<seq<byte>>)
    requires Complete(frames, before) && NoneEmpty(chunks) && BeginsClose(Flatten(chunks))
    ensures Closing in Calls(None, before + chunks) <==> |Flatten(chunks)| >= 2
    ensures |Flatten(chunks)| >= 2 ==>
              var n := Needed(chunks);
              && 0 < n <= |chunks| && Session(None, before + chunks[..n]) == Payloads(frames)
              && Closing !in Calls(None, before + chunks[..n - 1])
              && Closing in Calls(None, before + chunks[..n])
  {
    AfterGood(frames, before, chunks);
    CloseDecided(chunks);
    if |Flatten(chunks)| >= 2 {
      CloseCalls(chunks);
      AfterGood(frames, before, chunks[..Needed(chunks) - 1]);
      AfterGood(frames, before, chunks[..Needed(chunks)]);
    }
  }

  lemma CloseDecided(chunks: seq<seq<byte>>)
    requires NoneEmpty(chunks) && BeginsClose(Flatten(chunks))
    ensures Closing in Calls(None, chunks) <==> |Flatten(chunks)| >= 2
  {
    assert INIT.(buf := []) == INIT && [] + Flatten(chunks) == Flatten(chunks);
    CloseFrom([], chunks);
  }

  /** After a good stream the handle is as new. */
  lemma AfterGood(frames: seq<Frame>, before: seq<seq<byte>>, chunks: seq<seq<byte>>)
    requires Complete(frames, before)
    ensures Closing in Calls(None, before + chunks) <==> Closing in Calls(None, chunks)
    ensures Session(None, before + chunks) == Payloads(frames) + Given(Calls(None, chunks))
  {
    assert EncodeAll(frames)[0..] == EncodeAll(frames);
    GoodLeaveNone(frames, 0, before);
    CallsAppend(None, before, chunks);
    SessionIsGiven(None, before + chunks);
    SessionIsGiven(None, before);
    GivenAppend(Calls(None, before), Calls(None, chunks));
    ExactlyTheGoodStreams(frames, before);
  }

  /** What comes behind the first two bytes of a masked close frame is still read: if it
      comes with a later call, `handle_frame` is given it exactly as the payload of any
      other frame. */
  lemma CloseBodyGiven(f: Frame)
    requires f.Valid() && f.first % 16 == 8
    ensures var (p, o) := OnRead(INIT, f.Encode()[..2]);
            && o == Closing && (OnRead(p, f.Encode()[2..]).1 == Delivered(f.payload) <==> Good(f))
  {
    CloseHeader(f);
    CloseRest(f);
    BodyDone(f, []);
  }

  lemma CloseHeader(f: Frame)
    requires f.Valid() && f.first % 16 == 8
    ensures OnRead(INIT, f.Encode()[..2]) == (HeaderKnown(f, []), Closing)
  {
    var e := f.Encode();
    assert [] + e[..2] == e[..2] && e[..2][2..] == [];
    FirstTwo(INIT, e[..2]);
  }

  lemma CloseRest(f: Frame)
    requires f.Valid()
    ensures OnRead(HeaderKnown(f, []), f.Encode()[2..]) == OnRead(LengthKnown(f, f.Body() + []), [])
  {
    var p, rest := HeaderKnown(f, []), f.Encode()[2..];
    RestParts(f);
    Absorb(p, rest);
    assert p.(buf := p.buf + rest) == HeaderKnown(f, rest) && f.Body() + [] == f.Body();
    if f.form != Short {
      ParseLength(f, rest);
    }
  }

  lemma RestParts(f: Frame)
    requires f.Valid()
    ensures f.Encode()[2..][..ExtLen(f.form)] == f.Ext() && f.Encode()[2..][ExtLen(f.form)..] == f.Body()
  {
    assert f.Encode()[2..] == f.Ext() + f.Body();
  }
}
