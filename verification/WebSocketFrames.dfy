/** The WebSocket frame format of RFC 6455, sections 5.2 and 5.3, and the frames
    that script/httphandle.py builds. */
module WebSocketFrames {
  import opened Sequences
  import opened Bytes

  // ---------- Masking ----------

  function Pow2(n: nat): (p: nat)
    ensures p > 0
  {
    if n == 0 then 1 else 2 * Pow2(n - 1)
  }

  /** Exclusive or of the lowest `n` bits. */
  function XorBits(a: nat, b: nat, n: nat): (x: nat)
    ensures x < Pow2(n)
  {
    if n == 0 then 0 else (if a % 2 == b % 2 then 0 else 1) + 2 * XorBits(a / 2, b / 2, n - 1)
  }

  function Xor(a: byte, b: byte): byte {
    assert Pow2(8) == 2 * (2 * (2 * (2 * (2 * (2 * (2 * (2 * Pow2(0))))))));
    XorBits(a, b, 8)
  }

  lemma XorLaws(a: byte, b: byte)
    ensures Xor(Xor(a, b), b) == a
    ensures Xor(a, 0) == a
    ensures b != 0 ==> Xor(a, b) != a
  {
    assert Pow2(8) == 2 * (2 * (2 * (2 * (2 * (2 * (2 * (2 * Pow2(0))))))));
    XorTwice(a, b, 8);
    XorZero(a, 8);
    if b != 0 {
      XorDiffers(a, b, 8);
    }
  }

  lemma {:induction false} XorTwice(a: nat, b: nat, n: nat)
    requires a < Pow2(n)
    ensures XorBits(XorBits(a, b, n), b, n) == a
  {
    if n > 0 {
      XorTwice(a / 2, b / 2, n - 1);
      var x, y := XorBits(a, b, n), XorBits(a / 2, b / 2, n - 1);
      assert x / 2 == y && x % 2 == if a % 2 == b % 2 then 0 else 1;
    }
  }

  lemma {:induction false} XorZero(a: nat, n: nat)
    requires a < Pow2(n)
    ensures XorBits(a, 0, n) == a
  {
    if n > 0 {
      XorZero(a / 2, n - 1);
    }
  }

  lemma {:induction false} XorDiffers(a: nat, b: nat, n: nat)
    requires b != 0 && b < Pow2(n)
    ensures XorBits(a, b, n) != a
  {
    if n > 0 {
      var x, y := XorBits(a, b, n), XorBits(a / 2, b / 2, n - 1);
      assert x / 2 == y && x % 2 == if a % 2 == b % 2 then 0 else 1;
      if b / 2 != 0 {
        XorDiffers(a / 2, b / 2, n - 1);
      } else {
        assert b == 1;
      }
    }
  }

  /** Bit `k` of a number, the lowest one being bit 0. */
  function Bit(x: nat, k: nat): (b: nat)
    ensures b <= 1
  {
    if k == 0 then x % 2 else Bit(x / 2, k - 1)
  }

  lemma {:induction false} XorBitsAt(a: nat, b: nat, n: nat, k: nat)
    requires k < n
    ensures Bit(XorBits(a, b, n), k) == if Bit(a, k) == Bit(b, k) then 0 else 1
    decreases k
  {
    var x, y := XorBits(a, b, n), XorBits(a / 2, b / 2, n - 1);
    assert x / 2 == y && x % 2 == if a % 2 == b % 2 then 0 else 1;
    if k > 0 {
      XorBitsAt(a / 2, b / 2, n - 1, k - 1);
    }
  }

  /** A bit of the result is set exactly if the two bits differ. */
  lemma XorExact(a: byte, b: byte, k: nat)
    requires k < 8
    ensures Bit(Xor(a, b), k) == 1 <==> Bit(a, k) != Bit(b, k)
  {
    XorBitsAt(a, b, 8, k);
  }

  /** Every index the loop over `data` looks up is there. */
  predicate Covers(codes: seq<byte>, data: seq<byte>) {
    |codes| >= 4 || |data| <= |codes|
  }

  /** The loop of `ws_unmask`: octet i is combined with octet i modulo 4 of the mask. */
  function Apply(codes: seq<byte>, data: seq<byte>): (r: seq<byte>)
    requires Covers(codes, data)
    ensures |r| == |data| && forall i :: 0 <= i < |data| ==> r[i] == Xor(data[i], codes[i % 4])
  {
    seq(|data|, i requires 0 <= i < |data| => Xor(data[i], codes[i % 4]))
  }

  /** What the loop of `ws_unmask` does, bit by bit: a bit of octet i is turned exactly if
      it is set in octet i modulo 4 of the mask. */
  lemma ApplyExact(codes: seq<byte>, data: seq<byte>, i: nat, k: nat)
    requires Covers(codes, data) && i < |data| && k < 8
    ensures |Apply(codes, data)| == |data|
    ensures Bit(Apply(codes, data)[i], k) == Bit(data[i], k) <==> Bit(codes[i % 4], k) == 0
  {
    XorExact(data[i], codes[i % 4], k);
  }

  /** Masking twice with the same mask is the identity. */
  lemma MaskTwice(mask: seq<byte>, data: seq<byte>)
    requires |mask| == 4
    ensures Apply(mask, Apply(mask, data)) == data
  {
    forall i | 0 <= i < |data|
      ensures Apply(mask, Apply(mask, data))[i] == data[i]
    {
      XorLaws(data[i], mask[i % 4]);
    }
  }

  /** The digits of a 32-bit mask to base 256, highest first and without leading
      zeros: what the divide-and-reverse loop of `on_read` makes of the mask. */
  function MaskCodes(n: nat): (codes: seq<byte>)
    ensures codes == [] <==> n == 0
    ensures codes != [] ==> codes[0] != 0
  {
    if n == 0 then [] else MaskCodes(n / 256) + [n % 256]
  }

  /** The loop undoes the big-endian packing exactly for masks whose first byte is not zero. */
  lemma MaskCodesInvert(mask: seq<byte>)
    requires |mask| == 4
    ensures MaskCodes(FromBigEndian(mask)) == mask <==> mask[0] != 0
  {
    if mask[0] != 0 {
      CodesOfDigits(mask);
    } else {
      CodesShorter(mask);
    }
  }

  lemma {:induction false} CodesOfDigits(s: seq<byte>)
    requires s != [] && s[0] != 0
    ensures MaskCodes(FromBigEndian(s)) == s
  {
    var last := |s| - 1;
    assert s == s[..last] + [s[last]];
    if last > 0 {
      CodesOfDigits(s[..last]);
    } else {
      assert FromBigEndian(s[..0]) == 0;
    }
  }

  lemma {:induction false} CodesShorter(s: seq<byte>)
    requires s != [] && s[0] == 0
    ensures |MaskCodes(FromBigEndian(s))| < |s|
  {
    var init, d := s[..|s| - 1], s[|s| - 1];
    var n := FromBigEndian(init);
    assert FromBigEndian(s) == 256 * n + d;
    if init == [] {
      assert n == 0 && d == 0;
    } else {
      CodesShorter(init);
      CodesSnoc(n, d);
    }
  }

  lemma CodesSnoc(n: nat, d: byte)
    ensures |MaskCodes(256 * n + d)| <= |MaskCodes(n)| + 1
  {
    assert (256 * n + d) / 256 == n;
  }

  // ---------- The frame format ----------

  /** The three ways to write a payload length. */
  datatype Form = Short | Ext16 | Ext64

  predicate Fits(form: Form, n: nat) {
    match form
    case Short => n <= 125
    case Ext16 => n < Pow256(2)
    case Ext64 => n < Pow256(8)
  }

  function LenCode(form: Form, n: nat): (c: nat)
    requires Fits(form, n)
    ensures c < 128
  {
    match form
    case Short => n
    case Ext16 => 126
    case Ext64 => 127
  }

  function ExtLen(form: Form): nat {
    match form
    case Short => 0
    case Ext16 => 2
    case Ext64 => 8
  }

  /** A masked frame; `first` holds FIN, the reserved bits and the opcode. */
  datatype Frame = Frame(first: byte, form: Form, mask: seq<byte>, payload: seq<byte>) {
    predicate Valid() {
      |mask| == 4 && Fits(form, |payload|)
    }

    function Ext(): (s: seq<byte>)
      requires Valid()
      ensures |s| == ExtLen(form)
    {
      BigEndian(|payload|, ExtLen(form))
    }

    /** Mask and masked payload. */
    function Body(): (s: seq<byte>)
      requires Valid()
      ensures |s| == 4 + |payload|
    {
      mask + Apply(mask, payload)
    }

    function Encode(): (s: seq<byte>)
      requires Valid()
      ensures |s| == 6 + ExtLen(form) + |payload|
    {
      [first, 128 + LenCode(form, |payload|)] + Ext() + Body()
    }
  }

  function EncodeUnmasked(first: byte, form: Form, payload: seq<byte>): seq<byte>
    requires Fits(form, |payload|)
  {
    [first, LenCode(form, |payload|)] + BigEndian(|payload|, ExtLen(form)) + payload
  }

  // ---------- make_frame_data ----------

  const TEXT: byte := 0x81

  /** `WSFrame.make_frame_data`; an empty mask stands for none. */
  function MakeFrame(msg: seq<byte>, mask: seq<byte>): seq<byte>
    requires mask == [] || |mask| == 4
  {
    var len := |msg|;
    var len1 := if len > 65535 then 127 else if len > 125 then 126 else len;
    var ext := if len > 65535 then BigEndian(len, 8) else if len > 125 then BigEndian(len, 2) else [];
    var mark := if mask == [] then 0 else 0x80;
    var key := if mask == [] then [] else BigEndian(FromBigEndian(mask), 4);
    var data := if mask == [] then msg else Apply(mask, msg);
    [TEXT, mark + len1] + ext + key + data
  }

  function Shortest(n: nat): Form {
    if n > 65535 then Ext64 else if n > 125 then Ext16 else Short
  }

  /** What is built has the layout of RFC 6455 with the given payload and mask, in the
      shortest of the forms that can hold its length. */
  lemma MakeFrameIsFrame(msg: seq<byte>, mask: seq<byte>)
    requires |msg| < Pow256(8) && |mask| == 4
    ensures Frame(TEXT, Shortest(|msg|), mask, msg).Valid()
    ensures MakeFrame(msg, mask) == Frame(TEXT, Shortest(|msg|), mask, msg).Encode()
    ensures forall form :: Fits(form, |msg|) ==> ExtLen(Shortest(|msg|)) <= ExtLen(form)
  {
    PackUnpack(mask);
    var f := Frame(TEXT, Shortest(|msg|), mask, msg);
    assert f.Valid();
    Assoc([TEXT, 128 + LenCode(f.form, |msg|)] + f.Ext(), mask, Apply(mask, msg));
  }

  /** Octets in network order. */
  ghost predicate Packed(s: seq<byte>, n: nat) {
    forall i :: 0 <= i < |s| ==> s[i] == Digit(n, |s| - 1 - i)
  }

  /** Section 5.3 of RFC 6455, bit by bit. */
  ghost predicate MaskedBy(s: seq<byte>, data: seq<byte>, mask: seq<byte>) {
    && |s| == |data| && |mask| == 4
    && forall i, k :: 0 <= i < |data| && 0 <= k < 8 ==>
         (Bit(s[i], k) == 1 <==> Bit(data[i], k) != Bit(mask[i % 4], k))
  }

  lemma ApplyMasks(mask: seq<byte>, data: seq<byte>)
    requires |mask| == 4
    ensures MaskedBy(Apply(mask, data), data, mask)
  {
    var s := Apply(mask, data);
    forall i, k | 0 <= i < |data| && 0 <= k < 8
      ensures Bit(s[i], k) == 1 <==> Bit(data[i], k) != Bit(mask[i % 4], k)
    {
      XorExact(data[i], mask[i % 4], k);
    }
  }

  lemma BigEndianPacked(n: nat, w: nat)
    ensures Packed(BigEndian(n, w), n)
  {
    forall i | 0 <= i < w
      ensures BigEndian(n, w)[i] == Digit(n, w - 1 - i)
    {
      BigEndianAt(n, w, i);
    }
  }

  /** The octets of a built frame, one by one: section 5.2 of RFC 6455 for the header, and
      section 5.3 for the payload. */
  lemma MakeFrameOctets(msg: seq<byte>, mask: seq<byte>)
    requires |msg| < Pow256(8) && (mask == [] || |mask| == 4)
    ensures var r, n, m := MakeFrame(msg, mask), |msg|, |mask|;
            var w := if n <= 125 then 0 else if n <= 65535 then 2 else 8;
            && |r| == 2 + w + m + n && r[0] == 0x81
            && r[1] == (if m > 0 then 128 else 0) + (if n <= 125 then n else if n <= 65535 then 126 else 127)
            && Packed(r[2..2 + w], n) && r[2 + w..2 + w + m] == mask
            && if m == 0 then r[2 + w..] == msg else MaskedBy(r[2 + w + m..], msg, mask)
  {
    var r, n, m := MakeFrame(msg, mask), |msg|, |mask|;
    var w := if n <= 125 then 0 else if n <= 65535 then 2 else 8;
    PackUnpack(mask);
    BigEndianPacked(n, w);
    assert r[2..2 + w] == BigEndian(n, w);
    if m > 0 {
      ApplyMasks(mask, msg);
      assert r[2 + w + m..] == Apply(mask, msg);
    }
  }

  /** It is a frame only below 2^63 bytes: the top bit of an 8-byte length must be clear. */
  lemma TopBitClear(msg: seq<byte>, mask: seq<byte>)
    requires 65535 < |msg| < Pow256(8) && (mask == [] || |mask| == 4)
    ensures MakeFrame(msg, mask)[2] < 128 <==> |msg| < 128 * Pow256(7)
  {
    TopBit(|msg|, 8);
  }

  lemma MakeFrameUnmasked(msg: seq<byte>)
    requires |msg| < Pow256(8)
    ensures Fits(Shortest(|msg|), |msg|)
    ensures MakeFrame(msg, []) == EncodeUnmasked(TEXT, Shortest(|msg|), msg)
  {
    var head := [TEXT, LenCode(Shortest(|msg|), |msg|)] + BigEndian(|msg|, ExtLen(Shortest(|msg|)));
    assert head + [] == head;
  }
}
