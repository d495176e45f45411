/** Bytes, fixed-width integers and the two byte orders the repository uses:
    native little-endian for the length-prefixed messages, network order for
    WebSocket headers. */
module Bytes {

  type byte = x: int | 0 <= x < 256

  type int32 = x: int | -0x8000_0000 <= x < 0x8000_0000

  /** The concatenation of all chunks, in order. */
  function Flatten<T>(chunks: seq<seq<T>>): seq<T> {
    if chunks == [] then [] else chunks[0] + Flatten(chunks[1..])
  }

  function Pow256(w: nat): (p: nat)
    ensures p > 0
  {
    if w == 0 then 1 else 256 * Pow256(w - 1)
  }

  /** `struct.pack` in network order on `w` bytes. */
  function BigEndian(n: nat, w: nat): (s: seq<byte>)
    ensures |s| == w
  {
    if w == 0 then [] else BigEndian(n / 256, w - 1) + [(n % 256)]
  }

  function FromBigEndian(s: seq<byte>): nat {
    if s == [] then 0 else 256 * FromBigEndian(s[..|s| - 1]) + s[|s| - 1]
  }

  lemma Quotient(n: nat, p: nat)
    requires n < 256 * p
    ensures n == 256 * (n / 256) + n % 256 && n / 256 < p
  {}

  lemma FromSnoc(s: seq<byte>, d: byte)
    ensures FromBigEndian(s + [d]) == 256 * FromBigEndian(s) + d
  {
    assert (s + [d])[..|s|] == s;
  }

  lemma {:induction false} UnpackPack(n: nat, w: nat)
    requires n < Pow256(w)
    ensures FromBigEndian(BigEndian(n, w)) == n
  {
    if w > 0 {
      Quotient(n, Pow256(w - 1));
      UnpackPack(n / 256, w - 1);
      FromSnoc(BigEndian(n / 256, w - 1), n % 256);
    }
  }

  lemma {:induction false} PackUnpack(s: seq<byte>)
    ensures FromBigEndian(s) < Pow256(|s|)
    ensures BigEndian(FromBigEndian(s), |s|) == s
  {
    if s != [] {
      PackUnpack(s[..|s| - 1]);
      assert s[..|s| - 1] + [s[|s| - 1]] == s;
    }
  }

  /** Digit `k` of a number to base 256, the lowest one being digit 0. */
  function Digit(n: nat, k: nat): byte {
    if k == 0 then n % 256 else Digit(n / 256, k - 1)
  }

  /** The digits, highest first. */
  lemma {:induction false} BigEndianAt(n: nat, w: nat, i: nat)
    requires i < w
    ensures BigEndian(n, w)[i] == Digit(n, w - 1 - i)
    decreases w
  {
    if i < w - 1 {
      BigEndianAt(n / 256, w - 1, i);
    }
  }

  /** The top bit of the packed form. */
  lemma {:induction false} TopBit(n: nat, w: nat)
    requires w > 0 && n < Pow256(w)
    ensures BigEndian(n, w)[0] < 128 <==> n < 128 * Pow256(w - 1)
  {
    if w > 1 {
      assert BigEndian(n, w)[0] == BigEndian(n / 256, w - 1)[0];
      TopBit(n / 256, w - 1);
      var p := 128 * Pow256(w - 2);
      assert n / 256 < p <==> n < 256 * p;
      assert 128 * Pow256(w - 1) == 256 * p;
    } else {
      assert BigEndian(n, 1) == [] + [n % 256];
    }
  }

  /** The unsigned 32-bit pattern of a C `int` (two's complement). */
  function Unsigned(x: int): (u: nat)
    requires -0x8000_0000 <= x < 0x8000_0000
    ensures u < 0x1_0000_0000
  {
    if x < 0 then x + 0x1_0000_0000 else x
  }

  /** Lowest byte first, on `w` bytes. */
  function LittleEndian(n: nat, w: nat): (s: seq<byte>)
    ensures |s| == w
  {
    if w == 0 then [] else [n % 256] + LittleEndian(n / 256, w - 1)
  }

  function FromLittleEndian(s: seq<byte>): (n: nat)
    ensures n < Pow256(|s|)
  {
    if s == [] then 0 else s[0] + 256 * FromLittleEndian(s[1..])
  }

  lemma {:induction false} LittleThere(n: nat, w: nat)
    requires n < Pow256(w)
    ensures FromLittleEndian(LittleEndian(n, w)) == n
  {
    if w > 0 {
      assert LittleEndian(n, w)[1..] == LittleEndian(n / 256, w - 1);
      Quotient(n, Pow256(w - 1));
      LittleThere(n / 256, w - 1);
    }
  }

  lemma {:induction false} LittleBack(s: seq<byte>)
    ensures LittleEndian(FromLittleEndian(s), |s|) == s
  {
    if s != [] {
      LittleBack(s[1..]);
      LowByte(s[0], FromLittleEndian(s[1..]));
      assert [s[0]] + s[1..] == s;
    }
  }

  /** The digits, lowest first. */
  lemma {:induction false} LittleEndianAt(n: nat, w: nat, i: nat)
    requires i < w
    ensures LittleEndian(n, w)[i] == Digit(n, i)
    decreases w
  {
    if i > 0 {
      LittleEndianAt(n / 256, w - 1, i - 1);
    }
  }

  lemma LowByte(d: byte, m: nat)
    ensures (d + 256 * m) % 256 == d && (d + 256 * m) / 256 == m
  {}

  lemma FourBytes()
    ensures Pow256(4) == 0x1_0000_0000
  {
    assert Pow256(4) == 256 * Pow256(3) == 256 * (256 * (256 * (256 * Pow256(0))));
  }

  /** The bytes of a C `int` as `pack_int` copies them out. */
  function EncodeInt(x: int32): (s: seq<byte>)
    ensures |s| == 4
  {
    LittleEndian(Unsigned(x), 4)
  }

  /** The four bytes of a C `int` as it lies in memory, lowest first. */
  lemma EncodeIntAt(x: int32, i: nat)
    requires i < 4
    ensures EncodeInt(x)[i] == Digit(Unsigned(x), i)
  {
    LittleEndianAt(Unsigned(x), 4, i);
  }

  /** The C `int` that `read_int` finds in four bytes. */
  function DecodeInt(s: seq<byte>): int32
    requires |s| == 4
  {
    FourBytes();
    var u := FromLittleEndian(s);
    if u < 0x8000_0000 then u else u - 0x1_0000_0000
  }

  lemma DecodeEncode(x: int32)
    ensures DecodeInt(EncodeInt(x)) == x
  {
    FourBytes();
    LittleThere(Unsigned(x), 4);
  }

  /** Four bytes are determined by the `int` they hold. */
  lemma EncodeDecode(s: seq<byte>)
    requires |s| == 4
    ensures EncodeInt(DecodeInt(s)) == s
  {
    FourBytes();
    LittleBack(s);
  }

  lemma {:induction false} FlattenAppend<T>(a: seq<seq<T>>, b: seq<seq<T>>)
    ensures Flatten(a + b) == Flatten(a) + Flatten(b)
  {
    if a == [] {
      assert a + b == b;
    } else {
      assert (a + b)[1..] == a[1..] + b;
      FlattenAppend(a[1..], b);
    }
  }
}
