/** Which unmasked frames the parser of script/httphandle.py gets right, and how they
    may be cut. */
module WebSocketUnmasked {
  import opened Bytes
  import opened Wrappers
  import opened WebSocketFrames
  import opened WebSocketParser
  import opened WebSocketStream

  datatype Plain = Plain(first: byte, form: Form, payload: seq<byte>) {
    predicate Valid() {
      Fits(form, |payload|) && Opcode(first) != 8
    }

    function Encode(): (s: seq<byte>)
      requires Valid()
      ensures |s| == Head(form) + |payload| && s[Head(form)..] == payload
    {
      EncodeUnmasked(first, form, payload)
    }

    function Header(): Header
      requires Valid()
    {
      WebSocketParser.Header(Opcode(first), false, LenCode(form, |payload|))
    }
  }

  /** The bytes in front of the payload. */
  function Head(form: Form): nat {
    2 + ExtLen(form)
  }

  // ---------- Cuts ----------

  /** The sizes of the chunks that `n` bytes are cut into. */
  predicate CutsOf(sizes: seq<nat>, n: nat) {
    if sizes == [] then n == 0 else 0 < sizes[0] <= n && CutsOf(sizes[1..], n - sizes[0])
  }

  function Cut(s: seq<byte>, sizes: seq<nat>): (chunks: seq<seq<byte>>)
    requires CutsOf(sizes, |s|)
    ensures Flatten(chunks) == s && NoneEmpty(chunks)
    decreases |sizes|
  {
    if sizes == [] then []
    else
      assert s[..sizes[0]] + s[sizes[0]..] == s;
      [s[..sizes[0]]] + Cut(s[sizes[0]..], sizes[1..])
  }

  /** There is a cut `o` bytes from here. */
  predicate CutAt(sizes: seq<nat>, o: int)
    decreases |sizes|
  {
    |sizes| > 1 && (sizes[0] == o || CutAt(sizes[1..], o - sizes[0]))
  }

  /** There is no cut `o` bytes from here or later. */
  predicate NoCutFrom(sizes: seq<nat>, o: int)
    decreases |sizes|
  {
    |sizes| <= 1 || (sizes[0] < o && NoCutFrom(sizes[1..], o - sizes[0]))
  }

  /** The cuts that do no harm, `o` bytes in front of the payload: none at or behind the
      end of the header, or, with an extended length, one exactly there. */
  predicate Harmless(form: Form, sizes: seq<nat>, o: int) {
    NoCutFrom(sizes, o) || (form != Short && CutAt(sizes, o))
  }

  // ---------- The header ----------

  /** The parser after the first two bytes, with `buf` still to be read. */
  function HeaderRead(f: Plain, buf: seq<byte>): Parser
    requires f.Valid()
  {
    if f.form == Short then Parser(Some(f.Header()), [], buf, |f.payload|, Some(|f.payload|), [], true)
    else Parser(Some(f.Header()), [], buf, ExtLen(f.form), None, [], true)
  }

  /** The parser in front of the payload, of which `buf` has arrived. */
  function LengthRead(f: Plain, buf: seq<byte>): Parser
    requires f.Valid()
  {
    if f.form == Short then HeaderRead(f, buf)
    else Parser(Some(f.Header()), [], buf, |f.payload|, Some(|f.payload|), [], false)
  }

  /** The parser after the first `k` bytes of the header. */
  function InHeader(f: Plain, k: nat): Parser
    requires f.Valid() && k < Head(f.form)
  {
    if k < 2 then INIT.(buf := f.Encode()[..k]) else HeaderRead(f, f.Encode()[2..k])
  }

  lemma ParseFirstTwo(f: Plain, b: seq<byte>)
    requires f.Valid() && |b| >= 2 && b[..2] == f.Encode()[..2]
    ensures OnRead(INIT.(buf := b), []) == Again(HeaderRead(f, b[2..]))
  {
    var p := INIT.(buf := b);
    ReadNothing(p);
    assert b[0] == b[..2][0] == f.first && b[1] == b[..2][1] == LenCode(f.form, |f.payload|);
    assert ReadHeader(p) == HeaderRead(f, b[2..]);
    assert Advance(p, []) == Again(ReadHeader(p));
  }

  /** One call on a buffer that holds the whole extended length. */
  lemma LengthStep(p: Parser, width: nat)
    requires p.readingHead && p.header.Some? && p.dataLen.None? && p.remain <= |p.buf| && 0 < width <= |p.buf|
    requires width == (if p.header.value.len1 == 126 then 2 else if p.header.value.len1 == 127 then 8 else 0)
    ensures Again(p) == Again(ReadLength(p, width))
  {
    ReadNothing(p);
    assert Advance(p, []) == Again(ReadLength(p, width));
  }

  lemma ParseExtended(f: Plain, buf: seq<byte>)
    requires f.Valid()
    ensures Again(HeaderRead(f, BigEndian(|f.payload|, ExtLen(f.form)) + buf)) == Again(LengthRead(f, buf))
  {
    var ext := BigEndian(|f.payload|, ExtLen(f.form));
    if f.form == Short {
      assert ext + buf == buf;
    } else {
      assert (ext + buf)[..ExtLen(f.form)] == ext && (ext + buf)[ExtLen(f.form)..] == buf;
      UnpackPack(|f.payload|, ExtLen(f.form));
      LengthStep(HeaderRead(f, ext + buf), ExtLen(f.form));
    }
  }

  /** Reading on within the header is starting over with all bytes at once. */
  lemma FromFirst(f: Plain, k: nat, c: seq<byte>)
    requires f.Valid() && k < 2 && c != [] && k + |c| <= |f.Encode()| && c == f.Encode()[k..k + |c|]
    ensures OnRead(InHeader(f, k), c) == OnRead(INIT.(buf := f.Encode()[..k + |c|]), [])
  {
    Prefix(f.Encode(), k, c);
    Absorb(InHeader(f, k), c);
  }

  lemma HeaderAbsorbs(f: Plain, buf: seq<byte>, c: seq<byte>)
    requires f.Valid() && f.form != Short && c != []
    ensures OnRead(HeaderRead(f, buf), c) == Again(HeaderRead(f, buf + c))
  {
    Absorb(HeaderRead(f, buf), c);
  }

  lemma FromFirstTwo(f: Plain, k: nat, c: seq<byte>)
    requires f.Valid() && k < 2 && c != [] && 2 <= k + |c| <= |f.Encode()| && c == f.Encode()[k..k + |c|]
    ensures OnRead(InHeader(f, k), c) == Again(HeaderRead(f, f.Encode()[2..k + |c|]))
  {
    var e, m := f.Encode(), k + |c|;
    FromFirst(f, k, c);
    assert e[..m][..2] == e[..2] && e[..m][2..] == e[2..m];
    ParseFirstTwo(f, e[..m]);
  }

  lemma FromLength(f: Plain, k: nat, c: seq<byte>)
    requires f.Valid() && 2 <= k < Head(f.form) && c != [] && k + |c| <= |f.Encode()| && c == f.Encode()[k..k + |c|]
    ensures OnRead(InHeader(f, k), c) == Again(HeaderRead(f, f.Encode()[2..k + |c|]))
  {
    HeaderAbsorbs(f, f.Encode()[2..k], c);
    PrefixFrom(f.Encode(), 2, k, c);
  }

  lemma HeaderFrom(f: Plain, k: nat, c: seq<byte>)
    requires f.Valid() && k < Head(f.form) && c != [] && 2 <= k + |c| <= |f.Encode()| && c == f.Encode()[k..k + |c|]
    ensures OnRead(InHeader(f, k), c) == Again(HeaderRead(f, f.Encode()[2..k + |c|]))
  {
    if k < 2 {
      FromFirstTwo(f, k, c);
    } else {
      FromLength(f, k, c);
    }
  }

  lemma PrefixFrom(e: seq<byte>, from: nat, k: nat, c: seq<byte>)
    requires from <= k && k + |c| <= |e| && e[k..k + |c|] == c
    ensures e[from..k] + c == e[from..k + |c|]
  {}

  lemma WithinHeader(f: Plain, k: nat, m: nat)
    requires f.Valid() && k < m < Head(f.form)
    ensures OnRead(InHeader(f, k), f.Encode()[k..m]) == (InHeader(f, m), Waiting)
  {
    var c := f.Encode()[k..m];
    if m < 2 {
      FromFirst(f, k, c);
      ReadNothing(INIT.(buf := f.Encode()[..m]));
    } else {
      HeaderFrom(f, k, c);
      ReadNothing(HeaderRead(f, f.Encode()[2..m]));
    }
  }

  lemma PayloadFrom(f: Plain, m: nat)
    requires f.Valid() && Head(f.form) <= m <= |f.Encode()|
    ensures f.Encode()[2..m] == BigEndian(|f.payload|, ExtLen(f.form)) + f.payload[..m - Head(f.form)]
  {}

  lemma AcrossHeader(f: Plain, k: nat, m: nat)
    requires f.Valid() && k < Head(f.form) <= m <= |f.Encode()|
    ensures OnRead(InHeader(f, k), f.Encode()[k..m]) == Again(LengthRead(f, f.payload[..m - Head(f.form)]))
  {
    HeaderFrom(f, k, f.Encode()[k..m]);
    PayloadFrom(f, m);
    ParseExtended(f, f.payload[..m - Head(f.form)]);
  }

  // ---------- The payload ----------

  /** A parser that has taken more bytes for the payload than there are. */
  predicate Overrun(p: Parser) {
    p.header.Some? && !p.header.value.masked && p.dataLen.Some? && p.remain < 0
  }

  lemma OverrunStays(p: Parser, s: seq<byte>)
    requires Overrun(p) && s != []
    ensures Overrun(OnRead(p, s).0) && OnRead(p, s).1 == Waiting
  {
    var q := if p.readingHead then p.(buf := p.buf + s) else p;
    assert OnRead(p, s) == Advance(q, s) == ReadPayload(q, s);
  }

  lemma {:induction false} OverrunForever(p: Parser, chunks: seq<seq<byte>>)
    requires Overrun(p) && NoneEmpty(chunks)
    ensures Session(Some(p), chunks) == []
    decreases |chunks|
  {
    if chunks != [] {
      OverrunStays(p, chunks[0]);
      OverrunForever(OnRead(p, chunks[0]).0, chunks[1..]);
    }
  }

  /** A short frame's payload is buffered until it is complete, and then the last
      chunk is taken twice. */
  lemma {:induction false} ShortBuffers(f: Plain, buf: seq<byte>, chunks: seq<seq<byte>>)
    requires f.Valid() && f.form == Short && NoneEmpty(chunks)
    requires |buf| < |f.payload| || buf == []
    ensures Session(Some(LengthRead(f, buf)), chunks) == []
    decreases |chunks|
  {
    if chunks != [] {
      var p, c := LengthRead(f, buf), chunks[0];
      var q := p.(buf := buf + c);
      if |buf + c| < |f.payload| {
        assert OnRead(p, c) == (LengthRead(f, buf + c), Waiting);
        ShortBuffers(f, buf + c, chunks[1..]);
      } else {
        assert OnRead(p, c) == Advance(q, c) == ReadPayload(q, c);
        OverrunForever(OnRead(p, c).0, chunks[1..]);
      }
    }
  }

  /** The parser behind an extended header that a chunk ended with, after `done`. */
  function Clean(f: Plain, done: seq<byte>): Parser
    requires f.Valid()
  {
    LengthRead(f, []).(payload := done, remain := |f.payload| - |done|)
  }

  lemma {:induction false} CleanArrives(f: Plain, done: seq<byte>, chunks: seq<seq<byte>>)
    requires f.Valid() && f.form != Short && NoneEmpty(chunks) && done + Flatten(chunks) == f.payload && chunks != []
    ensures Session(Some(Clean(f, done)), chunks) == [f.payload]
    decreases |chunks|
  {
    var p, c := Clean(f, done), chunks[0];
    assert OnRead(p, c) == Advance(p, c) == ReadPayload(p, c);
    assert done + Flatten(chunks) == (done + c) + Flatten(chunks[1..]);
    NothingLeft(chunks[1..]);
    if chunks[1..] == [] {
      assert done + c == f.payload;
      assert OnRead(p, c).1 == Delivered(f.payload);
      assert Session(None, chunks[1..]) == [];
    } else {
      assert |f.payload| > |done + c|;
      assert OnRead(p, c) == (Clean(f, done + c), Waiting);
      CleanArrives(f, done + c, chunks[1..]);
    }
  }

  /** What is delivered first, if anything, repeats its first byte `b` bytes on. */
  predicate Repeats(frames: seq<seq<byte>>, b: nat) {
    frames == [] || (|frames[0]| > b && frames[0][b] == frames[0][0])
  }

  /** A parser that puts `p.buf` in front of every chunk. */
  predicate Garbling(p: Parser) {
    && p.header.Some? && !p.header.value.masked && p.dataLen.Some? && !p.readingHead && p.codes == []
    && p.buf != [] && p.buf <= p.payload
    && (|p.payload| > |p.buf| ==> p.payload[|p.buf|] == p.buf[0])
  }

  lemma {:induction false} GarbledRepeats(p: Parser, chunks: seq<seq<byte>>)
    requires Garbling(p) && NoneEmpty(chunks)
    ensures Repeats(Session(Some(p), chunks), |p.buf|)
    decreases |chunks|
  {
    if chunks != [] {
      var c := chunks[0];
      assert OnRead(p, c) == Advance(p, c) == ReadPayload(p, c);
      var (q, o) := OnRead(p, c);
      assert q.payload == p.payload + (p.buf + c) && q.payload[|p.buf|] == p.buf[0];
      if !o.Delivered? {
        GarbledRepeats(q, chunks[1..]);
      }
    }
  }

  // ---------- One chunk of a cut frame ----------

  /** The first chunk of what is left behind `k` bytes, and the others. */
  lemma CutStep(e: seq<byte>, k: nat, sizes: seq<nat>)
    requires k <= |e| && sizes != [] && CutsOf(sizes, |e| - k)
    ensures var m := k + sizes[0];
            m <= |e| && CutsOf(sizes[1..], |e| - m) && Cut(e[k..], sizes) == [e[k..m]] + Cut(e[m..], sizes[1..])
  {
    Pieces(e, k, k + sizes[0]);
  }

  lemma Pieces(e: seq<byte>, k: nat, m: nat)
    requires k <= m <= |e|
    ensures e[k..][..m - k] == e[k..m] && e[k..][m - k..] == e[m..]
  {}

  lemma SessionStep(cur: Option<Parser>, c: seq<byte>, rest: seq<seq<byte>>)
    ensures var (q, o) := OnRead(if cur.None? then INIT else cur.value, c);
            Session(cur, [c] + rest) == if o.Delivered? then [o.data] + Session(None, rest) else Session(Some(q), rest)
  {
    assert ([c] + rest)[1..] == rest;
  }

  function Reading(f: Plain, k: nat): Option<Parser>
    requires f.Valid() && k < Head(f.form)
  {
    if k == 0 then None else Some(InHeader(f, k))
  }

  /** A chunk that ends within the header. */
  lemma HeaderChunk(f: Plain, k: nat, m: nat, rest: seq<seq<byte>>)
    requires f.Valid() && k < m < Head(f.form)
    ensures Session(Reading(f, k), [f.Encode()[k..m]] + rest) == Session(Reading(f, m), rest)
  {
    WithinHeader(f, k, m);
    FromStart(f);
    SessionStep(Reading(f, k), f.Encode()[k..m], rest);
  }

  lemma FromStart(f: Plain)
    requires f.Valid()
    ensures InHeader(f, 0) == INIT
  {}

  /** What is delivered once the header and `b` bytes of the payload have arrived. */
  function Body(f: Plain, b: nat, rest: seq<seq<byte>>): seq<seq<byte>>
    requires f.Valid() && b <= |f.payload|
  {
    var (q, o) := Again(LengthRead(f, f.payload[..b]));
    if o.Delivered? then [o.data] + Session(None, rest) else Session(Some(q), rest)
  }

  /** The chunk that the header ends in, or with. */
  lemma BodyChunk(f: Plain, k: nat, m: nat, rest: seq<seq<byte>>)
    requires f.Valid() && k < Head(f.form) <= m <= |f.Encode()|
    ensures Session(Reading(f, k), [f.Encode()[k..m]] + rest) == Body(f, m - Head(f.form), rest)
  {
    AcrossHeader(f, k, m);
    FromStart(f);
    SessionStep(Reading(f, k), f.Encode()[k..m], rest);
  }

  // ---------- Exactly the harmless cuts ----------

  /** What becomes of a cut frame; `b` payload bytes came with the end of the header. */
  predicate Decided(f: Plain, frames: seq<seq<byte>>, b: int) {
    && 0 <= b <= |f.payload|
    && if f.payload == [] then frames == []
       else if b == |f.payload| || (b == 0 && f.form != Short) then frames == [f.payload]
       else if f.form == Short then frames == []
       else Repeats(frames, b)
  }

  /** The whole payload came with the end of the header. */
  lemma AllAtOnce(f: Plain)
    requires f.Valid()
    ensures Body(f, |f.payload|, []) == if f.payload == [] then [] else [f.payload]
  {
    var buf := f.payload[..|f.payload|];
    assert buf == f.payload;
    var p := LengthRead(f, buf);
    ReadNothing(p);
    if buf != [] {
      assert Again(p) == OnRead(p, []) == Advance(p, []) == ReadPayload(p, []);
      assert buf + [] == buf == [] + buf;
    }
  }

  lemma SomeShort(f: Plain, b: nat, rest: seq<seq<byte>>)
    requires f.Valid() && f.form == Short && b < |f.payload| && NoneEmpty(rest)
    ensures Body(f, b, rest) == []
  {
    ReadNothing(LengthRead(f, f.payload[..b]));
    ShortBuffers(f, f.payload[..b], rest);
  }

  lemma NoneYet(f: Plain, rest: seq<seq<byte>>)
    requires f.Valid() && f.form != Short && f.payload != [] && NoneEmpty(rest) && Flatten(rest) == f.payload
    ensures Body(f, 0, rest) == [f.payload]
  {
    assert LengthRead(f, f.payload[..0]) == Clean(f, []);
    assert [] + Flatten(rest) == f.payload;
    CleanArrives(f, [], rest);
  }

  lemma SomeExtended(f: Plain, b: nat, rest: seq<seq<byte>>)
    requires f.Valid() && f.form != Short && 0 < b < |f.payload| && NoneEmpty(rest)
    ensures Repeats(Body(f, b, rest), b)
  {
    var buf := f.payload[..b];
    var p := LengthRead(f, buf);
    ReadNothing(p);
    assert Again(p) == OnRead(p, []) == Advance(p, []) == ReadPayload(p, []);
    assert buf + [] == buf == [] + buf;
    GarbledRepeats(Again(p).0, rest);
  }

  lemma BodyDecided(f: Plain, b: nat, rest: seq<seq<byte>>)
    requires f.Valid() && b <= |f.payload| && NoneEmpty(rest) && Flatten(rest) == f.payload[b..]
    ensures Decided(f, Body(f, b, rest), b)
  {
    NothingLeft(rest);
    if b == |f.payload| {
      AllAtOnce(f);
    } else if f.form == Short {
      SomeShort(f, b, rest);
    } else if b == 0 {
      NoneYet(f, rest);
    } else {
      SomeExtended(f, b, rest);
    }
  }

  /** The number of payload bytes in the chunk that completes the header. */
  function Behind(sizes: seq<nat>, o: int): int
    decreases |sizes|
  {
    if sizes == [] then 0
    else if sizes[0] >= o then sizes[0] - o
    else Behind(sizes[1..], o - sizes[0])
  }

  function Outcomes(f: Plain, k: nat, sizes: seq<nat>): seq<seq<byte>>
    requires f.Valid() && k < Head(f.form) && CutsOf(sizes, |f.Encode()| - k)
  {
    Session(Reading(f, k), Cut(f.Encode()[k..], sizes))
  }

  lemma LastChunk(f: Plain, k: nat, sizes: seq<nat>)
    requires f.Valid() && k < Head(f.form) && sizes != [] && CutsOf(sizes, |f.Encode()| - k)
    requires k + sizes[0] >= Head(f.form)
    ensures Decided(f, Outcomes(f, k, sizes), k + sizes[0] - Head(f.form))
  {
    var e, m := f.Encode(), k + sizes[0];
    CutStep(e, k, sizes);
    BodyChunk(f, k, m, Cut(e[m..], sizes[1..]));
    RestDecided(f, m, sizes[1..]);
  }

  lemma RestDecided(f: Plain, m: nat, sizes: seq<nat>)
    requires f.Valid() && Head(f.form) <= m <= |f.Encode()| && CutsOf(sizes, |f.Encode()| - m)
    ensures var b := m - Head(f.form); Decided(f, Body(f, b, Cut(f.Encode()[m..], sizes)), b)
  {
    Pieces(f.Encode(), Head(f.form), m);
    BodyDecided(f, m - Head(f.form), Cut(f.Encode()[m..], sizes));
  }

  lemma EarlyChunk(f: Plain, k: nat, sizes: seq<nat>)
    requires f.Valid() && k < Head(f.form) && sizes != [] && CutsOf(sizes, |f.Encode()| - k)
    requires k + sizes[0] < Head(f.form)
    ensures var m := k + sizes[0];
            && CutsOf(sizes[1..], |f.Encode()| - m) && sizes[1..] != []
            && Outcomes(f, k, sizes) == Outcomes(f, m, sizes[1..])
  {
    var e, m := f.Encode(), k + sizes[0];
    CutStep(e, k, sizes);
    HeaderChunk(f, k, m, Cut(e[m..], sizes[1..]));
  }

  /** The chunks from byte `k` of the header on are decided by what is behind the header. */
  ghost predicate Settled(f: Plain, k: nat, sizes: seq<nat>)
    requires f.Valid() && k < Head(f.form) && CutsOf(sizes, |f.Encode()| - k)
  {
    Decided(f, Outcomes(f, k, sizes), Behind(sizes, Head(f.form) - k))
  }

  lemma EarlySettled(f: Plain, k: nat, sizes: seq<nat>)
    requires f.Valid() && k < Head(f.form) && sizes != [] && CutsOf(sizes, |f.Encode()| - k)
    requires k + sizes[0] < Head(f.form) && CutsOf(sizes[1..], |f.Encode()| - (k + sizes[0]))
    requires Settled(f, k + sizes[0], sizes[1..])
    ensures Settled(f, k, sizes)
  {
    EarlyChunk(f, k, sizes);
    BehindEarly(sizes, Head(f.form) - k);
  }

  lemma BehindEarly(sizes: seq<nat>, o: int)
    requires sizes != [] && sizes[0] < o
    ensures Behind(sizes, o) == Behind(sizes[1..], o - sizes[0])
  {}

  lemma LastSettled(f: Plain, k: nat, sizes: seq<nat>)
    requires f.Valid() && k < Head(f.form) && sizes != [] && CutsOf(sizes, |f.Encode()| - k)
    requires k + sizes[0] >= Head(f.form)
    ensures Settled(f, k, sizes)
  {
    LastChunk(f, k, sizes);
  }

  lemma EarlyCuts(f: Plain, k: nat, sizes: seq<nat>)
    requires f.Valid() && k < Head(f.form) && sizes != [] && CutsOf(sizes, |f.Encode()| - k)
    requires k + sizes[0] < Head(f.form)
    ensures CutsOf(sizes[1..], |f.Encode()| - (k + sizes[0])) && sizes[1..] != []
  {
    EarlyChunk(f, k, sizes);
  }

  lemma {:induction false} AnyCut(f: Plain, k: nat, sizes: seq<nat>)
    requires f.Valid() && k < Head(f.form) && sizes != [] && CutsOf(sizes, |f.Encode()| - k)
    ensures Settled(f, k, sizes)
    decreases |sizes|
  {
    if k + sizes[0] < Head(f.form) {
      EarlyCuts(f, k, sizes);
      AnyCut(f, k + sizes[0], sizes[1..]);
      EarlySettled(f, k, sizes);
    } else {
      LastSettled(f, k, sizes);
    }
  }

  lemma {:induction false} HarmlessBehind(form: Form, n: nat, k: nat, sizes: seq<nat>)
    requires k < Head(form) && sizes != [] && CutsOf(sizes, Head(form) + n - k)
    ensures Harmless(form, sizes, Head(form) - k) <==>
            Behind(sizes, Head(form) - k) == n || (Behind(sizes, Head(form) - k) == 0 && form != Short)
    decreases |sizes|
  {
    if k + sizes[0] < Head(form) {
      EarlyCut(form, sizes, Head(form) - k);
      HarmlessBehind(form, n, k + sizes[0], sizes[1..]);
    } else {
      LastCut(form, n, k, sizes);
    }
  }

  lemma EarlyCut(form: Form, sizes: seq<nat>, o: int)
    requires |sizes| > 1 && sizes[0] < o
    ensures Behind(sizes, o) == Behind(sizes[1..], o - sizes[0])
    ensures Harmless(form, sizes, o) == Harmless(form, sizes[1..], o - sizes[0])
  {}

  lemma LastCut(form: Form, n: nat, k: nat, sizes: seq<nat>)
    requires k < Head(form) && sizes != [] && CutsOf(sizes, Head(form) + n - k) && k + sizes[0] >= Head(form)
    ensures var b := k + sizes[0] - Head(form);
            Harmless(form, sizes, Head(form) - k) <==> b == n || (b == 0 && form != Short)
  {
    if |sizes| > 1 {
      assert sizes[1] > 0;
    }
    NoEarlierCut(sizes[1..], Head(form) - k - sizes[0]);
  }

  lemma {:induction false} NoEarlierCut(sizes: seq<nat>, o: int)
    requires o < 0 || (o == 0 && (sizes == [] || sizes[0] > 0))
    ensures !CutAt(sizes, o)
    decreases |sizes|
  {
    if |sizes| > 1 {
      NoEarlierCut(sizes[1..], o - sizes[0]);
    }
  }

  /** A short unmasked frame arrives, as its payload and nothing else, exactly if the
      payload is not empty and no cut lies behind the header or at its end. */
  lemma ShortExact(f: Plain, sizes: seq<nat>)
    requires f.Valid() && f.form == Short && CutsOf(sizes, |f.Encode()|)
    ensures Session(None, Cut(f.Encode(), sizes)) == [f.payload] <==> f.payload != [] && NoCutFrom(sizes, Head(f.form))
  {
    Arrives(f, sizes);
  }

  lemma Arrives(f: Plain, sizes: seq<nat>)
    requires f.Valid() && CutsOf(sizes, |f.Encode()|)
    ensures var b := Behind(sizes, Head(f.form));
            && Decided(f, Session(None, Cut(f.Encode(), sizes)), b)
            && (Harmless(f.form, sizes, Head(f.form)) <==> b == |f.payload| || (b == 0 && f.form != Short))
  {
    AnyCut(f, 0, sizes);
    HarmlessBehind(f.form, |f.payload|, 0, sizes);
    assert f.Encode()[0..] == f.Encode();
  }

  /** All unmasked frames with the same first byte, form and payload length arrive,
      cut in the same way. */
  ghost predicate AllArrive(first: byte, form: Form, n: nat, sizes: seq<nat>)
    requires Fits(form, n) && Opcode(first) != 8 && CutsOf(sizes, Head(form) + n)
  {
    forall payload: seq<byte> | |payload| == n ::
      Session(None, Cut(Plain(first, form, payload).Encode(), sizes)) == [payload]
  }

  lemma HarmlessArrive(f: Plain, sizes: seq<nat>)
    requires f.Valid() && CutsOf(sizes, |f.Encode()|) && f.payload != [] && Harmless(f.form, sizes, Head(f.form))
    ensures Session(None, Cut(f.Encode(), sizes)) == [f.payload]
  {
    Arrives(f, sizes);
  }

  /** A payload that does not repeat its first byte behind the first `b` bytes. */
  function Telling(n: nat, b: int): (payload: seq<byte>)
    ensures |payload| == n && (0 < b < n ==> payload[b] != payload[0])
  {
    seq(n, i => if i < b then 0 else 1)
  }

  lemma HarmfulFail(f: Plain, sizes: seq<nat>)
    requires f.Valid() && CutsOf(sizes, |f.Encode()|)
    requires f.payload == Telling(|f.payload|, Behind(sizes, Head(f.form)))
    requires f.payload == [] || !Harmless(f.form, sizes, Head(f.form))
    ensures Session(None, Cut(f.Encode(), sizes)) != [f.payload]
  {
    Arrives(f, sizes);
  }

  /** Whatever their payloads are, they arrive exactly if the payloads are not empty and
      the cuts are harmless. */
  lemma UnmaskedExact(first: byte, form: Form, n: nat, sizes: seq<nat>)
    requires Fits(form, n) && Opcode(first) != 8 && CutsOf(sizes, Head(form) + n)
    ensures AllArrive(first, form, n, sizes) <==> n > 0 && Harmless(form, sizes, Head(form))
  {
    if n > 0 && Harmless(form, sizes, Head(form)) {
      forall payload: seq<byte> | |payload| == n
        ensures Session(None, Cut(Plain(first, form, payload).Encode(), sizes)) == [payload]
      {
        HarmlessArrive(Plain(first, form, payload), sizes);
      }
    } else {
      HarmfulFail(Plain(first, form, Telling(n, Behind(sizes, Head(form)))), sizes);
    }
  }

  /** In one piece. */
  lemma UnmaskedWhole(f: Plain)
    requires f.Valid()
    ensures OnRead(INIT, f.Encode()).1 == if f.payload == [] then Waiting else Delivered(f.payload)
  {
    var e := f.Encode();
    AcrossHeader(f, 0, |e|);
    assert InHeader(f, 0) == INIT && e[0..|e|] == e && f.payload[..|f.payload|] == f.payload;
    var p := LengthRead(f, f.payload);
    ReadNothing(p);
    if f.payload != [] {
      assert Again(p) == OnRead(p, []) == Advance(p, []) == ReadPayload(p, []);
      assert f.payload + [] == f.payload == [] + f.payload;
    }
  }
}
