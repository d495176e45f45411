/** Protocol messages: a service and a command identifier in front of the body
    of a length-prefixed message. */
module Proto {
  import opened Bytes
  import opened Framing

  datatype Request = Request(service: int32, command: int32, body: seq<byte>)

  datatype Parsed = Parsed(request: Request) | NoBody

  /** The content of the length-prefixed message that carries a request. */
  function Payload(r: Request): seq<byte> {
    EncodeInt(r.service) + EncodeInt(r.command) + r.body
  }

  /** A sum as it fits an `int`. */
  function Truncated(x: int): int32
    requires -0x8000_0000 <= x < 0x1_0000_0000
  {
    if x < 0x8000_0000 then x else x - 0x1_0000_0000
  }

  /** What `get_raw` makes of a message that says it has `len` bytes. */
  function Sent(len: int32, r: Request): seq<byte> {
    EncodeInt(Truncated(len + 8)) + EncodeInt(r.service) + EncodeInt(r.command) + r.body
  }

  /** The octets on the wire, one by one: three numbers of 32 bits, lowest octet first, the
      first of them the length with that of the identifiers, modulo 2^32; then the body. */
  lemma SentOctets(len: int32, r: Request, i: nat)
    requires i < 4
    ensures var w := Sent(len, r);
            && |w| == 12 + |r.body| && w[12..] == r.body
            && w[..4][i] == Digit((len + 8) % 0x1_0000_0000, i)
            && w[4..8][i] == Digit(r.service % 0x1_0000_0000, i)
            && w[8..12][i] == Digit(r.command % 0x1_0000_0000, i)
  {
    EncodeIntAt(Truncated(len + 8), i);
    EncodeIntAt(r.service, i);
    EncodeIntAt(r.command, i);
    Modulo(len);
    Modulo(r.service);
    Modulo(r.command);
    SentParts(len, r);
  }

  lemma Modulo(x: int32)
    ensures Unsigned(x) == x % 0x1_0000_0000 && Unsigned(Truncated(x + 8)) == (x + 8) % 0x1_0000_0000
  {}

  lemma SentParts(len: int32, r: Request)
    ensures var w := Sent(len, r);
            && |w| == 12 + |r.body| && w[12..] == r.body && w[..4] == EncodeInt(Truncated(len + 8))
            && w[4..8] == EncodeInt(r.service) && w[8..12] == EncodeInt(r.command)
  {}

  /** It is the length-prefixed request exactly if the message says the truth. */
  lemma SentExact(len: int32, r: Request)
    ensures |r.body| <= INT_MAX - 8 ==> (Sent(len, r) == Raw(Payload(r)) <==> len == |r.body|)
  {
    if |r.body| <= INT_MAX - 8 {
      var n, m := Truncated(len + 8), |Payload(r)|;
      assert Sent(len, r) == EncodeInt(n) + Payload(r);
      assert Sent(len, r)[..4] == EncodeInt(n) && Raw(Payload(r))[..4] == EncodeInt(m);
      DecodeEncode(n);
      DecodeEncode(m);
    }
  }

  predicate Fits(r: Request) {
    0 < |r.body| <= INT_MAX - 8
  }

  /** include/proto.hpp: `ProtoMsg`. */
  class ProtoMsg {
    var len: int32
    var data: seq<byte>
    var serviceId: int32
    var commandId: int32

    constructor (s: int32, c: int32)
      ensures serviceId == s && commandId == c && len == 0 && data == []
    {
      len, data, serviceId, commandId := 0, [], s, c;
    }

    method Write(s: seq<byte>)
      requires |data| + |s| <= INT_MAX
      modifies this`data, this`len
      ensures data == old(data) + s && len == |data|
    {
      data := data + s;
      len := |data|;
    }

    /** Trusts `len`, which `ReadIds` leaves as it was. */
    method GetRaw() returns (raw: seq<byte>)
      ensures raw == Sent(len, Request(serviceId, commandId, data))
      ensures len == |data| <= INT_MAX - 8 ==> raw == Raw(Payload(Request(serviceId, commandId, data)))
    {
      raw := EncodeInt(Truncated(len + 8)) + EncodeInt(serviceId) + EncodeInt(commandId) + data;
      SentExact(len, Request(serviceId, commandId, data));
    }

    /** `ok` is false where the code asserts that more than the two identifiers is there. */
    method ReadIds() returns (ok: bool)
      modifies this
      ensures ok == (|old(data)| > IDS) && len == old(len)
      ensures ok ==> Parsed(Request(serviceId, commandId, data)) == Parse(old(data))
      ensures ok ==> old(data) == EncodeInt(serviceId) + EncodeInt(commandId) + data && data != []
    {
      if |data| <= IDS {
        return false;
      }
      EncodeDecode(data[..4]);
      EncodeDecode(data[4..8]);
      serviceId, commandId := DecodeInt(data[..4]), DecodeInt(data[4..8]);
      data := data[8..];
      return true;
    }
  }

  function Parse(data: seq<byte>): Parsed {
    if |data| <= IDS then NoBody
    else Parsed(Request(DecodeInt(data[..4]), DecodeInt(data[4..8]), data[8..]))
  }

  /** A received message parses exactly when it is the payload of a request with
      a body, and then to that request. */
  lemma ParsePayload(data: seq<byte>, r: Request)
    ensures Parse(data) == Parsed(r) <==> data == Payload(r) && r.body != []
  {
    if data == Payload(r) {
      assert data[..4] == EncodeInt(r.service) && data[4..8] == EncodeInt(r.command) && data[8..] == r.body;
      DecodeEncode(r.service);
      DecodeEncode(r.command);
    }
    if Parse(data) == Parsed(r) {
      EncodeDecode(data[..4]);
      EncodeDecode(data[4..8]);
      assert data == data[..4] + data[4..8] + data[8..];
    }
  }

  predicate AllFit(rs: seq<Request>) {
    rs == [] || (Fits(rs[0]) && AllFit(rs[1..]))
  }

  function Payloads(rs: seq<Request>): (ps: seq<seq<byte>>)
    requires AllFit(rs)
    ensures |ps| == |rs| && Sendable(ps)
  {
    if rs == [] then []
    else
      assert |Payload(rs[0])| == 8 + |rs[0].body|;
      [Payload(rs[0])] + Payloads(rs[1..])
  }

  /** Every message of a list parses, to the request at the same place of another list. */
  ghost predicate ParsesTo(msgs: seq<seq<byte>>, rs: seq<Request>) {
    |msgs| == |rs| && forall i :: 0 <= i < |rs| ==> Parse(msgs[i]) == Parsed(rs[i])
  }

  lemma {:induction false} ParsePayloads(rs: seq<Request>)
    requires AllFit(rs)
    ensures ParsesTo(Payloads(rs), rs)
  {
    if rs != [] {
      ParsePayloads(rs[1..]);
      ParsePayload(Payload(rs[0]), rs[0]);
      var later := Payloads(rs[1..]);
      forall i | 0 <= i < |rs|
        ensures Parse(Payloads(rs)[i]) == Parsed(rs[i])
      {
        if i > 0 {
          assert Payloads(rs)[i] == later[i - 1] && rs[1..][i - 1] == rs[i];
        }
      }
    }
  }

  lemma {:induction false} PayloadsLong(rs: seq<Request>)
    requires AllFit(rs)
    ensures AllLong(Payloads(rs))
  {
    if rs != [] {
      PayloadsLong(rs[1..]);
      LongCons(Payload(rs[0]), Payloads(rs[1..]));
    }
  }

  /** `read_ids` breaks its assertion exactly on the messages that reading stops at. */
  lemma {:induction false} LongParse(msgs: seq<seq<byte>>)
    ensures AllLong(msgs) <==> forall m :: m in msgs ==> Parse(m).Parsed?
  {
    if msgs != [] {
      LongParse(msgs[1..]);
      assert msgs[0] in msgs && (Parse(msgs[0]).Parsed? <==> |msgs[0]| > IDS);
      if !AllLong(msgs[1..]) {
        var m :| m in msgs[1..] && !Parse(m).Parsed?;
        assert m in msgs;
      }
    }
  }

  /** Requests sent with `get_raw`, cut anywhere, reassembled and parsed: the receiver
      gets the same identifiers and bodies, in order, and breaks no assertion. */
  lemma RequestsRoundTrip(rs: seq<Request>, chunks: seq<seq<byte>>)
    requires AllFit(rs) && Flatten(chunks) == RawAll(Payloads(rs))
    ensures var got := ReadFeed([], chunks);
            ParsesTo(got.msgs, rs) && got.rest == [] && got.verdict.Fine?
  {
    HandedOn(Payloads(rs), chunks);
    PayloadsLong(rs);
    ParsePayloads(rs);
  }
}
