/** Length-prefixed messages: what a byte stream means, independently of how it
    arrives. The code that reassembles it is in MsgServer.dfy. */
module Framing {
  import opened Sequences
  import opened Bytes

  const INT_MAX := 0x7FFF_FFFF

  /** `Msg::get_raw`: the length, then the data. */
  function Raw(m: seq<byte>): seq<byte>
    requires |m| <= INT_MAX
  {
    EncodeInt(|m|) + m
  }

  /** What a stream of bytes says: its complete messages, the bytes of an
      unfinished one, and whether it stops at a length that is not positive. */
  datatype Stream = Stream(msgs: seq<seq<byte>>, rest: seq<byte>, bad: bool)

  /** The length word is there and is positive, and the whole message follows. */
  predicate Complete(s: seq<byte>) {
    Announced(s) > 0 && |s| - 4 >= Announced(s)
  }

  /** The length word is there but is not a length. */
  predicate Malformed(s: seq<byte>) {
    |s| >= 4 && Announced(s) <= 0
  }

  function Announced(s: seq<byte>): (n: int32)
    ensures n > 0 ==> |s| >= 4
  {
    if |s| < 4 then 0 else DecodeInt(s[..4])
  }

  function Split(s: seq<byte>): Stream {
    if Complete(s) then
      var end := 4 + Announced(s);
      var tail := Split(s[end..]);
      Stream([s[4..end]] + tail.msgs, tail.rest, tail.bad)
    else
      Stream([], s, Malformed(s))
  }

  lemma AnnouncedAppend(a: seq<byte>, b: seq<byte>)
    requires |a| >= 4
    ensures Announced(a + b) == Announced(a)
  {
    assert (a + b)[..4] == a[..4];
  }

  function Then(a: Stream, b: Stream): Stream {
    Stream(a.msgs + b.msgs, b.rest, b.bad)
  }

  /** Reading on from an unfinished message is reading the whole stream. */
  lemma {:induction false} SplitAppend(a: seq<byte>, b: seq<byte>)
    ensures Split(a + b) == Then(Split(a), Split(Split(a).rest + b))
    decreases |a|
  {
    if Complete(a) {
      SplitFront(a, b);
      var end := 4 + Announced(a);
      SplitAppend(a[end..], b);
      ThenAssoc(Stream([a[4..end]], [], false), Split(a[end..]), Split(Split(a).rest + b));
    } else {
      ThenAssoc(Split(a), Split(a), Split(a + b));
    }
  }

  lemma SplitFront(a: seq<byte>, b: seq<byte>)
    requires Complete(a)
    ensures var end := 4 + Announced(a);
            Split(a + b) == Then(Stream([a[4..end]], [], false), Split(a[end..] + b))
  {
    AnnouncedAppend(a, b);
    var end := 4 + Announced(a);
    assert (a + b)[4..end] == a[4..end];
    assert (a + b)[end..] == a[end..] + b;
  }

  lemma ThenAssoc(a: Stream, b: Stream, c: Stream)
    ensures Then(Then(a, b), c) == Then(a, Then(b, c))
    ensures a.msgs == [] ==> Then(a, c) == c
  {
    assert (a.msgs + b.msgs) + c.msgs == a.msgs + (b.msgs + c.msgs);
    assert [] + c.msgs == c.msgs;
  }

  /** One residue is enough to remember: a message is cut off the front of the
      residue and the next bytes as soon as it is complete. */
  function Feed(rest: seq<byte>, chunks: seq<seq<byte>>): Stream
    decreases |chunks|
  {
    if chunks == [] then Split(rest)
    else
      var first := Split(rest + chunks[0]);
      Then(first, Feed(first.rest, chunks[1..]))
  }

  /** Chunk independence: only the bytes received matter. */
  lemma {:induction false} FeedIsSplit(rest: seq<byte>, chunks: seq<seq<byte>>)
    ensures Feed(rest, chunks) == Split(rest + Flatten(chunks))
    decreases |chunks|
  {
    if chunks == [] {
      assert rest + [] == rest;
    } else {
      var s, tail := rest + chunks[0], Flatten(chunks[1..]);
      assert rest + Flatten(chunks) == s + tail;
      FeedIsSplit(Split(s).rest, chunks[1..]);
      SplitAppend(s, tail);
    }
  }

  predicate Sendable(msgs: seq<seq<byte>>) {
    msgs == [] || (0 < |msgs[0]| <= INT_MAX && Sendable(msgs[1..]))
  }

  function RawAll(msgs: seq<seq<byte>>): seq<byte>
    requires Sendable(msgs)
  {
    if msgs == [] then [] else Raw(msgs[0]) + RawAll(msgs[1..])
  }

  lemma AnnouncedRaw(m: seq<byte>, tail: seq<byte>)
    requires |m| <= INT_MAX
    ensures Announced(Raw(m) + tail) == |m|
  {
    DecodeEncode(|m|);
    assert (Raw(m) + tail)[..4] == EncodeInt(|m|);
  }

  lemma {:induction false} SplitRawAll(msgs: seq<seq<byte>>)
    requires Sendable(msgs)
    ensures Split(RawAll(msgs)) == Stream(msgs, [], false)
  {
    if msgs != [] {
      var m, s := msgs[0], RawAll(msgs);
      AnnouncedRaw(m, RawAll(msgs[1..]));
      assert s[4..4 + |m|] == m;
      assert s[4 + |m|..] == RawAll(msgs[1..]);
      SplitRawAll(msgs[1..]);
    }
  }

  /** Sending non-empty messages and cutting the bytes anywhere delivers exactly
      those messages, in order, and leaves nothing behind. */
  lemma RoundTrip(msgs: seq<seq<byte>>, chunks: seq<seq<byte>>)
    requires Sendable(msgs) && Flatten(chunks) == RawAll(msgs)
    ensures Feed([], chunks) == Stream(msgs, [], false)
  {
    FeedIsSplit([], chunks);
    assert [] + Flatten(chunks) == RawAll(msgs);
    SplitRawAll(msgs);
  }

  /** No message is delivered before its last byte has arrived. */
  lemma NeverEarly(msgs: seq<seq<byte>>, received: seq<byte>)
    requires Sendable(msgs) && received <= RawAll(msgs)
    ensures Split(received).msgs <= msgs && !Split(received).bad
  {
    var later := RawAll(msgs)[|received|..];
    assert received + later == RawAll(msgs);
    SplitAppend(received, later);
    SplitRawAll(msgs);
    SplitRebuilds(received);
    var rest := Split(received).rest;
    if Split(received).bad {
      AnnouncedAppend(rest, later);
    }
  }

  /** Splitting loses nothing: the messages in their wire form and the rest are the bytes received. */
  lemma {:induction false} SplitRebuilds(s: seq<byte>)
    ensures Sendable(Split(s).msgs)
    ensures s == RawAll(Split(s).msgs) + Split(s).rest
    ensures Split(s).bad == Malformed(Split(s).rest) && !Complete(Split(s).rest)
  {
    if Complete(s) {
      var end := 4 + Announced(s);
      var m, tail := s[4..end], Split(s[end..]);
      SplitRebuilds(s[end..]);
      RawOfFront(s);
      assert ([m] + tail.msgs)[1..] == tail.msgs;
      assert s == s[..end] + s[end..];
      assert Raw(m) + (RawAll(tail.msgs) + tail.rest) == (Raw(m) + RawAll(tail.msgs)) + tail.rest;
    }
  }

  lemma RawOfFront(s: seq<byte>)
    requires Complete(s)
    ensures Raw(s[4..4 + Announced(s)]) == s[..4 + Announced(s)]
  {
    EncodeDecode(s[..4]);
    assert s[..4] + s[4..4 + Announced(s)] == s[..4 + Announced(s)];
  }

  // ---------- Handing messages on ----------

  /** Two identifiers, which `read_ids` takes off the front of every message. */
  const IDS := 8

  /** How reading ends: with nothing more to read, at a length that is not positive, or at a
      message that has no more than two identifiers. The code asserts that it is neither
      of the last two. */
  datatype Verdict = Fine | BadLength | TooShort

  /** What is read from some bytes: the messages handed on, up to the broken assertion if
      there is one, and, if there is none, the bytes of an unfinished message. */
  datatype Reading = Reading(msgs: seq<seq<byte>>, rest: seq<byte>, verdict: Verdict)

  predicate AllLong(msgs: seq<seq<byte>>) {
    msgs == [] || (|msgs[0]| > IDS && AllLong(msgs[1..]))
  }

  function LongPrefix(msgs: seq<seq<byte>>): seq<seq<byte>> {
    if msgs == [] || |msgs[0]| <= IDS then [] else [msgs[0]] + LongPrefix(msgs[1..])
  }

  function Judge(s: Stream): Reading {
    if !AllLong(s.msgs) then Reading(LongPrefix(s.msgs), [], TooShort)
    else if s.bad then Reading(s.msgs, [], BadLength)
    else Reading(s.msgs, s.rest, Fine)
  }

  function Read(s: seq<byte>): Reading {
    Judge(Split(s))
  }

  function And(a: Reading, b: Reading): Reading {
    if a.verdict.Fine? then Reading(a.msgs + b.msgs, b.rest, b.verdict) else a
  }

  lemma {:induction false} LongAppend(a: seq<seq<byte>>, b: seq<seq<byte>>)
    ensures AllLong(a + b) <==> AllLong(a) && AllLong(b)
    ensures LongPrefix(a + b) == if AllLong(a) then a + LongPrefix(b) else LongPrefix(a)
  {
    if a == [] {
      assert a + b == b && a + LongPrefix(b) == LongPrefix(b);
    } else {
      var m, rest := a[0], a[1..];
      LongAppend(rest, b);
      LongCons(m, rest);
      LongCons(m, rest + b);
      FrontBack(a, b, LongPrefix(b));
    }
  }

  lemma FrontBack<T>(a: seq<T>, b: seq<T>, c: seq<T>)
    requires a != []
    ensures [a[0]] + a[1..] == a && [a[0]] + (a[1..] + b) == a + b && [a[0]] + (a[1..] + c) == a + c
  {}

  lemma LongCons(m: seq<byte>, rest: seq<seq<byte>>)
    ensures AllLong([m] + rest) <==> |m| > IDS && AllLong(rest)
    ensures LongPrefix([m] + rest) == if |m| > IDS then [m] + LongPrefix(rest) else []
  {
    assert ([m] + rest)[1..] == rest;
  }

  /** Nothing is read after a length that is not positive. */
  lemma BadForGood(s: seq<byte>, later: seq<byte>)
    requires Split(s).bad
    ensures Split(Split(s).rest + later) == Stream([], Split(s).rest + later, true)
  {
    SplitRebuilds(s);
    AnnouncedAppend(Split(s).rest, later);
  }

  /** Reading on is reading everything at once, and a broken assertion is final. */
  lemma ReadAppend(a: seq<byte>, b: seq<byte>)
    ensures Read(a + b) == And(Read(a), Read(Read(a).rest + b))
  {
    SplitAppend(a, b);
    var now := Split(a);
    var later := Split(now.rest + b);
    LongAppend(now.msgs, later.msgs);
    if now.bad {
      BadForGood(a, b);
      assert now.msgs + [] == now.msgs;
    }
  }

  /** The first four bytes are a length that is not positive. */
  predicate StartsBad(tail: seq<byte>) {
    |tail| >= 4 && DecodeInt(tail[..4]) <= 0
  }

  /** The bytes start with a whole message that is not empty and not longer than two
      identifiers. */
  predicate StartsShort(tail: seq<byte>) {
    |tail| >= 4 && 0 < DecodeInt(tail[..4]) <= IDS && |tail| - 4 >= DecodeInt(tail[..4])
  }

  /** The length is not there yet, or it is positive and the message is not there yet. */
  predicate StartsUnfinished(tail: seq<byte>) {
    |tail| < 4 || |tail| - 4 < DecodeInt(tail[..4])
  }

  /** What is read of whole messages and what follows them, by its first bytes alone. */
  lemma ReadExact(msgs: seq<seq<byte>>, tail: seq<byte>)
    requires Sendable(msgs) && AllLong(msgs)
    ensures var got := Read(RawAll(msgs) + tail);
            && (StartsBad(tail) ==> got == Reading(msgs, [], BadLength))
            && (StartsShort(tail) ==> got == Reading(msgs, [], TooShort))
            && (StartsUnfinished(tail) ==> got == Reading(msgs, tail, Fine))
  {
    SplitAppend(RawAll(msgs), tail);
    SplitRawAll(msgs);
    LongAppend(msgs, Split(tail).msgs);
    assert [] + tail == tail && msgs + [] == msgs;
  }

  /** The first short message. */
  lemma {:induction false} FirstShort(msgs: seq<seq<byte>>) returns (k: nat)
    requires Sendable(msgs) && !AllLong(msgs)
    ensures k < |msgs| && Sendable(msgs[..k]) && AllLong(msgs[..k]) && 0 < |msgs[k]| <= IDS && Sendable(msgs[k + 1..])
    ensures RawAll(msgs) == RawAll(msgs[..k]) + (Raw(msgs[k]) + RawAll(msgs[k + 1..]))
  {
    if |msgs[0]| <= IDS {
      k := 0;
      assert msgs[..0] == [];
    } else {
      var j := FirstShort(msgs[1..]);
      k := j + 1;
      assert msgs[..k] == [msgs[0]] + msgs[1..][..j] && msgs[1..][j + 1..] == msgs[k + 1..];
      assert msgs[..k][1..] == msgs[1..][..j];
      Assoc(Raw(msgs[0]), RawAll(msgs[1..][..j]), Raw(msgs[k]) + RawAll(msgs[k + 1..]));
    }
  }

  /** Every stream is some whole messages and what follows them, in exactly one of the
      three ways. */
  lemma ReadDecided(s: seq<byte>) returns (msgs: seq<seq<byte>>, tail: seq<byte>)
    ensures Sendable(msgs) && AllLong(msgs) && s == RawAll(msgs) + tail
    ensures StartsBad(tail) || StartsShort(tail) || StartsUnfinished(tail)
  {
    SplitRebuilds(s);
    msgs, tail := Split(s).msgs, Split(s).rest;
    if !AllLong(msgs) {
      var k := FirstShort(msgs);
      var m, later := msgs[k], RawAll(msgs[k + 1..]) + tail;
      AnnouncedRaw(m, later);
      Assoc(RawAll(msgs[..k]), Raw(m) + RawAll(msgs[k + 1..]), tail);
      Assoc(Raw(m), RawAll(msgs[k + 1..]), tail);
      msgs, tail := msgs[..k], Raw(m) + later;
    }
  }

  function ReadFeed(rest: seq<byte>, chunks: seq<seq<byte>>): Reading
    decreases |chunks|
  {
    if chunks == [] then Read(rest)
    else
      var now := Read(rest + chunks[0]);
      And(now, ReadFeed(now.rest, chunks[1..]))
  }

  /** Messages handed on, rest and broken assertion depend only on the bytes received. */
  lemma {:induction false} ReadFeedIsRead(rest: seq<byte>, chunks: seq<seq<byte>>)
    ensures ReadFeed(rest, chunks) == Read(rest + Flatten(chunks))
    decreases |chunks|
  {
    if chunks == [] {
      assert rest + [] == rest;
    } else {
      var s, tail := rest + chunks[0], Flatten(chunks[1..]);
      assert rest + Flatten(chunks) == s + tail;
      ReadFeedIsRead(Read(s).rest, chunks[1..]);
      ReadAppend(s, tail);
    }
  }

  lemma {:induction false} LongPrefixAll(msgs: seq<seq<byte>>)
    ensures LongPrefix(msgs) == msgs <==> AllLong(msgs)
  {
    if msgs != [] {
      LongPrefixAll(msgs[1..]);
      if |msgs[0]| > IDS {
        assert LongPrefix(msgs)[1..] == LongPrefix(msgs[1..]);
        assert [msgs[0]] + msgs[1..] == msgs;
      }
    }
  }

  /** Of the messages sent, however they are cut, those before the first short one are
      handed on: all of them exactly if every one has more than eight bytes. */
  lemma HandedOn(msgs: seq<seq<byte>>, chunks: seq<seq<byte>>)
    requires Sendable(msgs) && Flatten(chunks) == RawAll(msgs)
    ensures var got := ReadFeed([], chunks);
            && got.msgs == LongPrefix(msgs) && got.rest == []
            && (got.msgs == msgs <==> AllLong(msgs)) && got.verdict == if AllLong(msgs) then Fine else TooShort
  {
    ReadFeedIsRead([], chunks);
    assert [] + Flatten(chunks) == RawAll(msgs);
    SplitRawAll(msgs);
    LongPrefixAll(msgs);
  }

  /** What is handed on first. */
  lemma ReadFirst(m: seq<byte>, tail: seq<byte>)
    requires 0 < |m| <= INT_MAX
    ensures Split(Raw(m) + tail) == Then(Stream([m], [], false), Split(tail))
    ensures Read(Raw(m) + tail) ==
            if |m| <= IDS then Reading([], [], TooShort) else And(Reading([m], [], Fine), Read(tail))
  {
    var all := Raw(m) + tail;
    AnnouncedRaw(m, tail);
    assert all[4..4 + |m|] == m && all[4 + |m|..] == tail;
    LongAppend([m], Split(tail).msgs);
    assert [m][1..] == [];
  }
}
