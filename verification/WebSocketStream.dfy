/** Which streams of masked frames, cut in which ways, the parser gets right. */
module WebSocketStream {
  import opened Bytes
  import opened Wrappers
  import opened WebSocketFrames
  import opened WebSocketParser

  // ---------- A frame on the way in ----------

  predicate Readable(f: Frame) {
    f.Valid() && Opcode(f.first) != 8
  }

  function HeaderOf(f: Frame): Header
    requires f.Valid()
  {
    Header(Opcode(f.first), true, LenCode(f.form, |f.payload|))
  }

  /** The parser once it has read a frame's length, with `buf` still to be read. */
  function LengthKnown(f: Frame, buf: seq<byte>): Parser
    requires f.Valid()
  {
    Parser(Some(HeaderOf(f)), [], buf, |f.payload| + 4, Some(|f.payload|), [], true)
  }

  /** The parser once it has read the first two bytes. */
  function HeaderKnown(f: Frame, buf: seq<byte>): Parser
    requires f.Valid()
  {
    if f.form == Short then LengthKnown(f, buf)
    else Parser(Some(HeaderOf(f)), [], buf, ExtLen(f.form) + 4, None, [], true)
  }

  /** The parser after the first `k` bytes of a frame, however they were cut. */
  function Partial(f: Frame, k: nat): Parser
    requires f.Valid() && k < |f.Encode()|
  {
    var ext := ExtLen(f.form);
    if k < 2 then INIT.(buf := f.Encode()[..k])
    else if f.form != Short && k < 6 + ext then HeaderKnown(f, f.Encode()[2..k])
    else LengthKnown(f, f.Encode()[2 + ext..k])
  }

  /** In the header the parser only looks at what it has buffered. */
  lemma Absorb(p: Parser, s: seq<byte>)
    requires p.readingHead && (p.header.None? || p.dataLen.None? || WantsMask(p))
    ensures OnRead(p, s) == OnRead(p.(buf := p.buf + s), [])
  {
    assert p.buf + s + [] == p.buf + s;
  }

  /** `on_read("")`. */
  lemma ReadNothing(p: Parser)
    ensures OnRead(p, []) == if p.readingHead && |p.buf| < p.remain then (p, Waiting) else Advance(p, [])
  {
    assert p.buf + [] == p.buf;
  }

  lemma ParseHeader(f: Frame, b: seq<byte>)
    requires Readable(f) && |b| >= 2 && b[..2] == f.Encode()[..2]
    ensures OnRead(INIT.(buf := b), []) == Again(HeaderKnown(f, b[2..]))
  {
    var p := INIT.(buf := b);
    ReadNothing(p);
    assert b[0] == b[..2][0] && b[1] == b[..2][1];
    assert ReadHeader(p) == HeaderKnown(f, b[2..]);
    assert Advance(p, []) == Again(ReadHeader(p));
  }

  lemma ParseLength(f: Frame, b: seq<byte>)
    requires f.Valid() && f.form != Short && |b| >= ExtLen(f.form) + 4 && b[..ExtLen(f.form)] == f.Ext()
    ensures Again(HeaderKnown(f, b)) == Again(LengthKnown(f, b[ExtLen(f.form)..]))
  {
    var p, ext := HeaderKnown(f, b), ExtLen(f.form);
    ReadNothing(p);
    UnpackPack(|f.payload|, ext);
    assert ReadLength(p, ext) == LengthKnown(f, b[ext..]);
    assert Advance(p, []) == Again(ReadLength(p, ext));
  }

  lemma LengthPart(f: Frame, k: nat)
    requires f.Valid() && 2 + ExtLen(f.form) <= k <= |f.Encode()|
    ensures var ext, c := ExtLen(f.form), f.Encode()[2..k];
            c[..ext] == f.Ext() && c[ext..] == f.Encode()[2 + ext..k]
  {
    var ext, c := ExtLen(f.form), f.Encode()[2..k];
    assert c[..ext] == f.Encode()[2..2 + ext];
  }

  /** Reading on after `k` bytes is the same as starting over with all bytes at once. */
  lemma StartOver(f: Frame, k: nat, s: seq<byte>)
    requires Readable(f) && k < |f.Encode()| && s != []
    ensures OnRead(Partial(f, k), s) == OnRead(INIT.(buf := f.Encode()[..k] + s), [])
  {
    var p := Partial(f, k);
    Absorb(p, s);
    if k < 2 {
      assert p.(buf := p.buf + s) == INIT.(buf := f.Encode()[..k] + s);
    } else {
      StartOverHeader(f, k, s);
      if f.form == Short || k < 6 + ExtLen(f.form) {
        assert p.(buf := p.buf + s) == HeaderKnown(f, f.Encode()[2..k] + s);
      } else {
        StartOverLength(f, k, s);
      }
    }
  }

  lemma StartOverHeader(f: Frame, k: nat, s: seq<byte>)
    requires Readable(f) && 2 <= k < |f.Encode()|
    ensures OnRead(INIT.(buf := f.Encode()[..k] + s), []) == Again(HeaderKnown(f, f.Encode()[2..k] + s))
  {
    var b := f.Encode()[..k] + s;
    assert b[..2] == f.Encode()[..2] && b[2..] == f.Encode()[2..k] + s;
    ParseHeader(f, b);
  }

  lemma StartOverLength(f: Frame, k: nat, s: seq<byte>)
    requires f.Valid() && f.form != Short && 6 + ExtLen(f.form) <= k < |f.Encode()| && s != []
    ensures Again(HeaderKnown(f, f.Encode()[2..k] + s)) == OnRead(Partial(f, k).(buf := Partial(f, k).buf + s), [])
  {
    var ext, c := ExtLen(f.form), f.Encode()[2..k];
    LengthPart(f, k);
    assert (c + s)[..ext] == c[..ext] && (c + s)[ext..] == c[ext..] + s;
    ParseLength(f, c + s);
  }

  /** Before its last byte arrives, a frame is not delivered. */
  lemma StillWaiting(f: Frame, k: nat)
    requires Readable(f) && 0 < k < |f.Encode()|
    ensures OnRead(INIT.(buf := f.Encode()[..k]), []) == (Partial(f, k), Waiting)
  {
    var ext, b := ExtLen(f.form), f.Encode()[..k];
    if k < 2 {
      ReadNothing(INIT.(buf := b));
    } else {
      var c := f.Encode()[2..k];
      ParseHeader(f, b);
      assert b[2..] == c;
      ReadNothing(HeaderKnown(f, c));
      if f.form != Short && k >= 6 + ext {
        LengthPart(f, k);
        ParseLength(f, c);
        ReadNothing(LengthKnown(f, c[ext..]));
      }
    }
  }

  /** All of a frame, and perhaps more, has arrived. */
  lemma HeaderDone(f: Frame, extra: seq<byte>)
    requires Readable(f)
    ensures OnRead(INIT.(buf := f.Encode() + extra), []) == OnRead(LengthKnown(f, f.Body() + extra), [])
  {
    var ext, b := ExtLen(f.form), f.Encode() + extra;
    var c := f.Ext() + (f.Body() + extra);
    assert b[..2] == f.Encode()[..2] && b[2..] == c;
    ParseHeader(f, b);
    assert c[..ext] == f.Ext() && c[ext..] == f.Body() + extra;
    if f.form != Short {
      ParseLength(f, c);
    } else {
      assert c == f.Body() + extra;
    }
  }

  // ---------- The end of a frame ----------

  /** A parser that will never deliver anything again: it waits for a mask that it
      cannot read, or for fewer bytes than none. */
  predicate Stuck(p: Parser) {
    && !p.readingHead && p.header.Some? && p.dataLen.Some?
    && if WantsMask(p) then |p.buf| < 4 else p.remain <= 0
  }

  lemma StuckStays(p: Parser, s: seq<byte>)
    requires Stuck(p) && s != []
    ensures Stuck(OnRead(p, s).0)
    ensures OnRead(p, s).1 == if WantsMask(p) then Raised else Waiting
  {}

  /** The parser once it has read the mask, which was `codes`, with `buf` buffered
      and `over` bytes more than the frame has. */
  function MaskKnown(h: Header, n: nat, codes: seq<byte>, buf: seq<byte>, over: nat): Parser {
    Parser(Some(h), codes, buf, |buf| - over, Some(n), [], false)
  }

  /** What `on_read` does with the bytes behind a mask that is not all zero. */
  lemma BehindMask(h: Header, n: nat, codes: seq<byte>, buf: seq<byte>, over: nat)
    requires codes != []
    ensures var (q, o) := Again(MaskKnown(h, n, codes, buf, over));
            if buf == [] || over > 0 then Stuck(q) && o == Waiting
            else if !Covers(codes, buf) then Stuck(q) && o == Raised
            else o == Delivered(Apply(codes, buf))
  {
    var p := MaskKnown(h, n, codes, buf, over);
    ReadNothing(p);
    if buf != [] {
      assert Again(p) == OnRead(p, []) == Advance(p, []) == ReadPayload(p, []);
      assert buf + [] == buf && [] + buf == buf;
    }
  }

  /** A mask of four zero bytes is forgotten; the next four bytes are taken for
      the mask. Whatever comes of it is not the payload: it is shorter. */
  lemma {:induction false} MaskForgotten(h: Header, n: nat, buf: seq<byte>, over: nat)
    requires h.masked
    ensures var (q, o) := OnRead(MaskKnown(h, n, [], buf, over), []);
            if o.Delivered? then over == 0 && |o.data| + 4 <= |buf| else Stuck(q) && !o.Closing?
    decreases |buf|
  {
    var p := MaskKnown(h, n, [], buf, over);
    ReadNothing(p);
    if |buf| >= 4 {
      var codes := MaskCodes(FromBigEndian(buf[..4]));
      var q := MaskKnown(h, n, codes, buf[4..], over);
      assert ReadMask(p) == q;
      assert OnRead(p, []) == Again(q);
      if codes != [] {
        BehindMask(h, n, codes, buf[4..], over);
      } else if |buf| > 4 {
        MaskForgotten(h, n, buf[4..], over);
      }
    }
  }

  /** The frames whose payload the parser can get right at all. */
  predicate Good(f: Frame)
    requires f.Valid()
  {
    f.payload != [] && f.mask[0] != 0
  }

  /** When the last byte of a frame arrives, `handle_frame` gets its payload
      exactly if the frame is good and nothing came behind it; and if it gets
      nothing, it never will. */
  lemma EndOfFrame(f: Frame, extra: seq<byte>)
    requires Readable(f)
    ensures var (q, o) := OnRead(INIT.(buf := f.Encode() + extra), []);
            && (o == Delivered(f.payload) <==> Good(f) && extra == [])
            && !o.Closing?
            && (!o.Delivered? ==> Stuck(q))
  {
    HeaderDone(f, extra);
    BodyDone(f, extra);
  }

  /** The same once the length has been read, whatever the opcode is. */
  lemma BodyDone(f: Frame, extra: seq<byte>)
    requires f.Valid()
    ensures var (q, o) := OnRead(LengthKnown(f, f.Body() + extra), []);
            && (o == Delivered(f.payload) <==> Good(f) && extra == [])
            && !o.Closing?
            && (!o.Delivered? ==> Stuck(q))
  {
    MaskDone(f, extra);
    var masked, codes := Apply(f.mask, f.payload), MaskCodes(FromBigEndian(f.mask));
    MaskCodesInvert(f.mask);
    if codes == [] {
      if masked + extra != [] {
        MaskForgotten(HeaderOf(f), |f.payload|, masked + extra, |extra|);
      }
    } else {
      BehindMask(HeaderOf(f), |f.payload|, codes, masked + extra, |extra|);
      if extra == [] && f.payload != [] && Covers(codes, masked) {
        assert masked + extra == masked;
        Unmasked(f.mask, codes, f.payload);
      }
    }
  }

  lemma MaskDone(f: Frame, extra: seq<byte>)
    requires f.Valid()
    ensures OnRead(LengthKnown(f, f.Body() + extra), [])
            == Again(MaskKnown(HeaderOf(f), |f.payload|, MaskCodes(FromBigEndian(f.mask)),
                               Apply(f.mask, f.payload) + extra, |extra|))
  {
    var p := LengthKnown(f, f.Body() + extra);
    ReadNothing(p);
    assert p.buf[..4] == f.mask && p.buf[4..] == Apply(f.mask, f.payload) + extra;
    assert Advance(p, []) == Again(ReadMask(p));
  }

  lemma Unmasked(mask: seq<byte>, codes: seq<byte>, payload: seq<byte>)
    requires |mask| == 4 && payload != [] && codes != [] && codes[0] != 0
    requires codes == mask <==> mask[0] != 0
    requires Covers(codes, Apply(mask, payload))
    ensures Apply(codes, Apply(mask, payload)) == payload <==> mask[0] != 0
  {
    if mask[0] != 0 {
      MaskTwice(mask, payload);
    } else {
      XorLaws(payload[0], mask[0]);
      XorLaws(payload[0], codes[0]);
      assert Apply(codes, Apply(mask, payload))[0] == Xor(Xor(payload[0], 0), codes[0]);
    }
  }

  // ---------- Streams of frames ----------

  /** A run of `WSHandle.handle_message`: what `handle_frame` is given, in order.
      There is a new parser whenever there is none. */
  function Session(cur: Option<Parser>, chunks: seq<seq<byte>>): seq<seq<byte>>
    decreases |chunks|
  {
    if chunks == [] then []
    else
      var (q, o) := OnRead(if cur.None? then INIT else cur.value, chunks[0]);
      if o.Delivered? then [o.data] + Session(None, chunks[1..]) else Session(Some(q), chunks[1..])
  }

  predicate AllReadable(frames: seq<Frame>) {
    frames == [] || (Readable(frames[0]) && AllReadable(frames[1..]))
  }

  function EncodeAll(frames: seq<Frame>): seq<byte>
    requires AllReadable(frames)
  {
    if frames == [] then [] else frames[0].Encode() + EncodeAll(frames[1..])
  }

  function Payloads(frames: seq<Frame>): (ps: seq<seq<byte>>)
    ensures |ps| == |frames|
  {
    if frames == [] then [] else [frames[0].payload] + Payloads(frames[1..])
  }

  predicate AllGood(frames: seq<Frame>)
    requires AllReadable(frames)
  {
    frames == [] || (Good(frames[0]) && AllGood(frames[1..]))
  }

  /** No chunk holds bytes of two frames, when `k` bytes of the first one have been read. */
  predicate Aligned(frames: seq<Frame>, k: nat, chunks: seq<seq<byte>>)
    requires AllReadable(frames)
    decreases |chunks|
  {
    if frames == [] || chunks == [] then true
    else
      var n := k + |chunks[0]|;
      if n < |frames[0].Encode()| then Aligned(frames, n, chunks[1..])
      else n == |frames[0].Encode()| && Aligned(frames[1..], 0, chunks[1..])
  }

  function At(frames: seq<Frame>, k: nat): Option<Parser>
    requires AllReadable(frames) && (k > 0 ==> frames != [] && k < |frames[0].Encode()|)
  {
    if k == 0 then None else Some(Partial(frames[0], k))
  }

  predicate NoneEmpty(chunks: seq<seq<byte>>) {
    chunks == [] || (chunks[0] != [] && NoneEmpty(chunks[1..]))
  }

  lemma {:induction false} StuckForever(p: Parser, chunks: seq<seq<byte>>)
    requires Stuck(p) && NoneEmpty(chunks)
    ensures Session(Some(p), chunks) == []
    decreases |chunks|
  {
    if chunks != [] {
      StuckStays(p, chunks[0]);
      StuckForever(OnRead(p, chunks[0]).0, chunks[1..]);
    }
  }

  /** One chunk within a frame. */
  lemma Within(f: Frame, k: nat, c: seq<byte>)
    requires Readable(f) && c != [] && k + |c| < |f.Encode()| && f.Encode()[k..k + |c|] == c
    ensures OnRead(Partial(f, k), c) == (Partial(f, k + |c|), Waiting)
  {
    StartOver(f, k, c);
    Prefix(f.Encode(), k, c);
    StillWaiting(f, k + |c|);
  }

  lemma Prefix(e: seq<byte>, k: nat, c: seq<byte>)
    requires k + |c| <= |e| && e[k..k + |c|] == c
    ensures e[..k] + c == e[..k + |c|]
  {}

  /** One chunk up to the end of a frame or beyond. */
  lemma Across(f: Frame, k: nat, c: seq<byte>, extra: seq<byte>)
    requires Readable(f) && c != [] && k < |f.Encode()| && c == f.Encode()[k..] + extra
    ensures var (q, o) := OnRead(Partial(f, k), c);
            && (o == Delivered(f.payload) <==> Good(f) && extra == [])
            && !o.Closing?
            && (!o.Delivered? ==> Stuck(q))
  {
    StartOver(f, k, c);
    assert f.Encode()[..k] + c == f.Encode() + extra;
    EndOfFrame(f, extra);
  }

  lemma {:induction false} SessionFrom(frames: seq<Frame>, k: nat, chunks: seq<seq<byte>>)
    requires AllReadable(frames) && NoneEmpty(chunks)
    requires if frames == [] then k == 0 else k < |frames[0].Encode()|
    requires Flatten(chunks) == EncodeAll(frames)[k..]
    ensures Session(At(frames, k), chunks) == Payloads(frames) <==> AllGood(frames) && Aligned(frames, k, chunks)
    decreases |chunks|
  {
    if chunks != [] && frames != [] {
      var f, c, later := frames[0], chunks[0], Flatten(chunks[1..]);
      var e, tail := f.Encode(), EncodeAll(frames[1..]);
      assert c + later == (e + tail)[k..];
      if k + |c| < |e| {
        Cut(e, tail, k, c, later);
        Within(f, k, c);
        SessionFrom(frames, k + |c|, chunks[1..]);
      } else {
        var extra := CutBeyond(e, tail, k, c, later);
        Across(f, k, c, extra);
        var (q, o) := OnRead(Partial(f, k), c);
        if o.Delivered? {
          SameHead(o.data, Session(None, chunks[1..]), f.payload, Payloads(frames[1..]));
          if o == Delivered(f.payload) {
            SessionFrom(frames[1..], 0, chunks[1..]);
          }
        } else {
          StuckForever(q, chunks[1..]);
        }
      }
    }
  }

  lemma SameHead<T>(x: T, xs: seq<T>, y: T, ys: seq<T>)
    ensures [x] + xs == [y] + ys <==> x == y && xs == ys
  {
    assert ([x] + xs)[0] == x && ([x] + xs)[1..] == xs;
    assert ([y] + ys)[0] == y && ([y] + ys)[1..] == ys;
  }

  lemma Cut(e: seq<byte>, tail: seq<byte>, k: nat, c: seq<byte>, later: seq<byte>)
    requires k + |c| < |e| && c + later == (e + tail)[k..]
    ensures e[k..k + |c|] == c && later == (e + tail)[k + |c|..]
  {
    assert c == (c + later)[..|c|] && later == (c + later)[|c|..];
  }

  lemma CutBeyond(e: seq<byte>, tail: seq<byte>, k: nat, c: seq<byte>, later: seq<byte>) returns (extra: seq<byte>)
    requires k < |e| <= k + |c| && c + later == (e + tail)[k..]
    ensures c == e[k..] + extra && |extra| <= |tail| && later == tail[|extra|..]
  {
    extra := c[|e| - k..];
    assert c == (c + later)[..|c|] && later == (c + later)[|c|..];
    assert (e + tail)[k..] == e[k..] + tail;
  }

  /** For every stream of masked frames and every way to cut it: the payloads of
      the frames are delivered, in order and nothing else, exactly if every payload
      is non-empty, every mask starts with a non-zero byte, and no chunk holds
      bytes of two frames. */
  lemma ExactlyTheGoodStreams(frames: seq<Frame>, chunks: seq<seq<byte>>)
    requires AllReadable(frames) && NoneEmpty(chunks) && Flatten(chunks) == EncodeAll(frames)
    ensures Session(None, chunks) == Payloads(frames) <==> AllGood(frames) && Aligned(frames, 0, chunks)
  {
    assert EncodeAll(frames)[0..] == EncodeAll(frames);
    SessionFrom(frames, 0, chunks);
  }

  /** A frame is not delivered before its last byte has arrived. */
  lemma {:induction false} NeverEarly(f: Frame, k: nat, chunks: seq<seq<byte>>)
    requires Readable(f) && NoneEmpty(chunks) && k + |Flatten(chunks)| < |f.Encode()|
    requires Flatten(chunks) <= f.Encode()[k..]
    ensures Session(At([f], k), chunks) == []
    decreases |chunks|
  {
    if chunks != [] {
      var c, later := chunks[0], Flatten(chunks[1..]);
      assert c + later <= f.Encode()[k..];
      assert c == (c + later)[..|c|] == f.Encode()[k..k + |c|];
      assert later == (c + later)[|c|..] <= f.Encode()[k + |c|..];
      Within(f, k, c);
      NeverEarly(f, k + |c|, chunks[1..]);
    }
  }

  /** How many of the frames are complete within the first `n` bytes. */
  function Completed(frames: seq<Frame>, n: nat): (m: nat)
    requires AllReadable(frames)
    ensures m <= |frames|
  {
    if frames == [] || n < |frames[0].Encode()| then 0 else 1 + Completed(frames[1..], n - |frames[0].Encode()|)
  }

  lemma CutPrefix(e: seq<byte>, tail: seq<byte>, k: nat, c: seq<byte>, later: seq<byte>)
    requires k < |e| && k + |c| <= |e| && c + later <= (e + tail)[k..]
    ensures e[k..k + |c|] == c && later <= (e + tail)[k + |c|..]
    ensures k + |c| == |e| ==> c == e[k..] && later <= tail
  {
    assert c == (c + later)[..|c|] && later == (c + later)[|c|..];
    assert forall i :: 0 <= i < |c| ==> c[i] == (c + later)[i] == e[k + i];
    assert forall i :: 0 <= i < |later| ==> later[i] == (c + later)[|c| + i] == (e + tail)[k + |c| + i];
  }

  lemma WithinStep(frames: seq<Frame>, k: nat, chunks: seq<seq<byte>>)
    requires AllReadable(frames) && frames != [] && chunks != [] && chunks[0] != []
    requires k + |chunks[0]| < |frames[0].Encode()| && frames[0].Encode()[k..k + |chunks[0]|] == chunks[0]
    ensures Session(At(frames, k), chunks) == Session(At(frames, k + |chunks[0]|), chunks[1..])
  {
    Within(frames[0], k, chunks[0]);
  }

  lemma AcrossStep(frames: seq<Frame>, k: nat, chunks: seq<seq<byte>>)
    requires AllReadable(frames) && frames != [] && Good(frames[0]) && chunks != []
    requires k < |frames[0].Encode()| && chunks[0] == frames[0].Encode()[k..]
    ensures Session(At(frames, k), chunks) == [frames[0].payload] + Session(None, chunks[1..])
  {
    assert chunks[0] == frames[0].Encode()[k..] + [];
    Across(frames[0], k, chunks[0], []);
  }

  /** `chunks` are a part of what is left of the frames. */
  ghost predicate PartOf(frames: seq<Frame>, k: nat, chunks: seq<seq<byte>>) {
    && AllReadable(frames) && NoneEmpty(chunks) && Aligned(frames, k, chunks)
    && (if frames == [] then k == 0 else k < |frames[0].Encode()|)
    && Flatten(chunks) <= EncodeAll(frames)[k..]
  }

  lemma PartStep(frames: seq<Frame>, k: nat, chunks: seq<seq<byte>>)
    requires PartOf(frames, k, chunks) && chunks != []
    ensures frames != []
    ensures var m, e := k + |chunks[0]|, frames[0].Encode();
            if m < |e| then e[k..m] == chunks[0] && PartOf(frames, m, chunks[1..])
            else chunks[0] == e[k..] && m == |e| && PartOf(frames[1..], 0, chunks[1..])
  {
    if frames != [] {
      CutPrefix(frames[0].Encode(), EncodeAll(frames[1..]), k, chunks[0], Flatten(chunks[1..]));
    }
  }

  /** Exactly the complete frames have been delivered. */
  ghost predicate Timely(frames: seq<Frame>, k: nat, chunks: seq<seq<byte>>)
    requires PartOf(frames, k, chunks)
  {
    Session(At(frames, k), chunks) == Payloads(frames)[..Completed(frames, k + |Flatten(chunks)|)]
  }

  lemma TimelyWithin(frames: seq<Frame>, k: nat, chunks: seq<seq<byte>>)
    requires PartOf(frames, k, chunks) && chunks != [] && frames != [] && k + |chunks[0]| < |frames[0].Encode()|
    requires PartOf(frames, k + |chunks[0]|, chunks[1..]) && Timely(frames, k + |chunks[0]|, chunks[1..])
    ensures Timely(frames, k, chunks)
  {
    PartStep(frames, k, chunks);
    WithinStep(frames, k, chunks);
    assert k + |Flatten(chunks)| == k + |chunks[0]| + |Flatten(chunks[1..])|;
  }

  lemma TimelyAcross(frames: seq<Frame>, k: nat, chunks: seq<seq<byte>>)
    requires PartOf(frames, k, chunks) && chunks != [] && frames != [] && k + |chunks[0]| == |frames[0].Encode()|
    requires Good(frames[0]) && PartOf(frames[1..], 0, chunks[1..]) && Timely(frames[1..], 0, chunks[1..])
    ensures Timely(frames, k, chunks)
  {
    PartStep(frames, k, chunks);
    AcrossStep(frames, k, chunks);
    var later := |Flatten(chunks[1..])|;
    assert k + |Flatten(chunks)| == |frames[0].Encode()| + later;
    OneMoreFrame(frames[0].payload, Payloads(frames[1..]), Completed(frames[1..], later));
  }

  lemma {:induction false} PartTimely(frames: seq<Frame>, k: nat, chunks: seq<seq<byte>>)
    requires PartOf(frames, k, chunks) && AllGood(frames)
    ensures Timely(frames, k, chunks)
    decreases |chunks|
  {
    if chunks != [] {
      PartStep(frames, k, chunks);
      if k + |chunks[0]| < |frames[0].Encode()| {
        PartTimely(frames, k + |chunks[0]|, chunks[1..]);
        TimelyWithin(frames, k, chunks);
      } else {
        PartTimely(frames[1..], 0, chunks[1..]);
        TimelyAcross(frames, k, chunks);
      }
    }
  }

  /** After any part of a stream of good frames, cut so that no chunk holds bytes of two
      of them, exactly the complete ones have been delivered: none before its last byte. */
  lemma StreamNeverEarly(frames: seq<Frame>, chunks: seq<seq<byte>>)
    requires AllReadable(frames) && AllGood(frames) && NoneEmpty(chunks) && Aligned(frames, 0, chunks)
    requires Flatten(chunks) <= EncodeAll(frames)
    ensures Session(None, chunks) == Payloads(frames)[..Completed(frames, |Flatten(chunks)|)]
  {
    assert EncodeAll(frames)[0..] == EncodeAll(frames);
    PartTimely(frames, 0, chunks);
  }

  lemma OneMoreFrame(d: seq<byte>, later: seq<seq<byte>>, m: nat)
    requires m <= |later|
    ensures ([d] + later)[..1 + m] == [d] + later[..m]
  {}

  // ---------- Chunks grouped by frame ----------

  /** The chunks of `group` are the bytes of `f` from `k` on. */
  lemma {:induction false} GroupAligned(f: Frame, later: seq<Frame>, k: nat, group: seq<seq<byte>>,
                                        more: seq<seq<byte>>)
    requires Readable(f) && AllReadable(later) && NoneEmpty(group) && k < |f.Encode()|
    requires k + |Flatten(group)| == |f.Encode()|
    ensures Aligned([f] + later, k, group + more) == Aligned(later, 0, more)
    decreases |group|
  {
    if group != [] {
      var n := k + |group[0]|;
      assert (group + more)[1..] == group[1..] + more && ([f] + later)[1..] == later;
      if n < |f.Encode()| {
        GroupAligned(f, later, n, group[1..], more);
      } else {
        NothingLeft(group[1..]);
        assert group[1..] + more == more;
      }
    }
  }

  lemma NothingLeft(chunks: seq<seq<byte>>)
    requires NoneEmpty(chunks)
    ensures chunks != [] ==> Flatten(chunks) != []
  {
    assert chunks != [] ==> |Flatten(chunks)| == |chunks[0]| + |Flatten(chunks[1..])|;
  }

  predicate NoEmptyChunk(groups: seq<seq<seq<byte>>>) {
    groups == [] || (NoneEmpty(groups[0]) && NoEmptyChunk(groups[1..]))
  }

  /** Each group of chunks is the bytes of the frame at the same place. */
  predicate Cuts(frames: seq<Frame>, groups: seq<seq<seq<byte>>>)
    requires AllReadable(frames)
  {
    if frames == [] || groups == [] then frames == [] && groups == []
    else Flatten(groups[0]) == frames[0].Encode() && Cuts(frames[1..], groups[1..])
  }

  lemma {:induction false} GroupedIsAligned(frames: seq<Frame>, groups: seq<seq<seq<byte>>>)
    requires AllReadable(frames) && NoEmptyChunk(groups) && Cuts(frames, groups)
    ensures Aligned(frames, 0, Flatten(groups))
    ensures Flatten(Flatten(groups)) == EncodeAll(frames) && NoneEmpty(Flatten(groups))
  {
    if frames != [] {
      GroupedIsAligned(frames[1..], groups[1..]);
      var more := Flatten(groups[1..]);
      GroupAligned(frames[0], frames[1..], 0, groups[0], more);
      assert [frames[0]] + frames[1..] == frames;
      FlattenAppend(groups[0], more);
      NoneEmptyAppend(groups[0], more);
    }
  }

  lemma {:induction false} NoneEmptyAppend(a: seq<seq<byte>>, b: seq<seq<byte>>)
    requires NoneEmpty(a) && NoneEmpty(b)
    ensures NoneEmpty(a + b)
  {
    if a == [] {
      assert a + b == b;
    } else {
      assert (a + b)[1..] == a[1..] + b;
      NoneEmptyAppend(a[1..], b);
    }
  }

  /** A good frame: non-empty payload and a mask that starts with a non-zero byte,
      built by `make_frame_data`. */
  predicate Sendable(f: Frame) {
    f.first == TEXT && |f.mask| == 4 && |f.payload| < Pow256(8) && f.form == Shortest(|f.payload|)
    && f.payload != [] && f.mask[0] != 0
  }

  predicate AllSendable(frames: seq<Frame>) {
    frames == [] || (Sendable(frames[0]) && AllSendable(frames[1..]))
  }

  lemma {:induction false} SendableIsGood(frames: seq<Frame>)
    requires AllSendable(frames)
    ensures AllReadable(frames) && AllGood(frames)
  {
    if frames != [] {
      SendableIsGood(frames[1..]);
      MakeFrameIsFrame(frames[0].payload, frames[0].mask);
    }
  }

  /** The client's side of the law: frames as `make_frame_data` builds them, with
      non-empty payloads and masks that start with a non-zero byte, each cut in
      any way, arrive as their payloads. */
  lemma FramesRoundTrip(frames: seq<Frame>, groups: seq<seq<seq<byte>>>)
    requires AllSendable(frames) && AllReadable(frames) && NoEmptyChunk(groups) && Cuts(frames, groups)
    ensures Session(None, Flatten(groups)) == Payloads(frames)
  {
    SendableIsGood(frames);
    GroupedIsAligned(frames, groups);
    ExactlyTheGoodStreams(frames, Flatten(groups));
  }
}
