/** Big-endian fixed-width integers, the packing `struct.pack('>H')` and `struct.pack('>l')`
    perform, and their decoders. */
module Bytes {

  /** One octet of a byte stream. */
  type byte = x: int | 0 <= x < 256

  const TWO16: int := 0x1_0000
  const TWO31: int := 0x8000_0000
  const TWO32: int := 0x1_0000_0000

  /** The values `'>H'` accepts: unsigned 16-bit. */
  predicate IsU16(v: int) { 0 <= v < TWO16 }

  /** The values `'>l'` accepts: signed 32-bit. */
  predicate IsI32(v: int) { -TWO31 <= v < TWO31 }

  /** Reads a big-endian unsigned 16-bit value from two bytes. */
  function DecodeU16(s: seq<byte>): (v: nat)
    requires |s| == 2
    ensures IsU16(v)
  {
    (s[0] as int) * 256 + s[1] as int
  }

  /** `struct.pack('>H', v)`: two bytes, most significant first. */
  function U16(v: int): (r: seq<byte>)
    requires IsU16(v)
    ensures |r| == 2
    ensures DecodeU16(r) == v
  {
    [v / 256, v % 256]
  }

  /** Two bytes that decode to the same value are the same bytes: the encoding is unique. */
  lemma U16Unique(s: seq<byte>)
    requires |s| == 2
    ensures U16(DecodeU16(s)) == s
  {
  }

  /** Reads a big-endian two's-complement 32-bit value from four bytes. */
  function DecodeI32(s: seq<byte>): (v: int)
    requires |s| == 4
    ensures IsI32(v)
    ensures v < 0 <==> s[0] >= 0x80
  {
    var u: int := (((s[0] as int) * 256 + s[1] as int) * 256 + s[2] as int) * 256 + s[3] as int;
    if u >= TWO31 then u - TWO32 else u
  }

  /** `struct.pack('>l', v)`: four bytes of two's complement, most significant first. */
  function I32(v: int): (r: seq<byte>)
    requires IsI32(v)
    ensures |r| == 4
    ensures DecodeI32(r) == v
  {
    var u := if v < 0 then v + TWO32 else v;
    var q1 := u / 256;
    var q2 := q1 / 256;
    var b3 := u % 256;
    var b2 := q1 % 256;
    var b1 := q2 % 256;
    var b0 := q2 / 256;
    assert u == q1 * 256 + b3 && q1 == q2 * 256 + b2 && q2 == b0 * 256 + b1;
    assert q1 < 0x100_0000 && q2 < 0x1_0000;
    [b0, b1, b2, b3]
  }

  /** Concatenation of `U16` over a list, as `b''.join(struct.pack('>H', t) for t in ts)`. */
  function U16s(vs: seq<int>): (r: seq<byte>)
    requires forall i :: 0 <= i < |vs| ==> IsU16(vs[i])
    ensures |r| == 2 * |vs|
    ensures DecodeU16s(r) == vs
  {
    if |vs| == 0 then []
    else
      var rest := U16s(vs[1..]);
      assert (U16(vs[0]) + rest)[..2] == U16(vs[0]);
      assert (U16(vs[0]) + rest)[2..] == rest;
      U16(vs[0]) + rest
  }

  /** Reads consecutive big-endian 16-bit values. */
  function DecodeU16s(s: seq<byte>): (vs: seq<int>)
    requires |s| % 2 == 0
    ensures |vs| == |s| / 2
  {
    if |s| == 0 then [] else [DecodeU16(s[..2])] + DecodeU16s(s[2..])
  }

  /** Concatenation of `I32` over a list, as `b''.join(struct.pack('>l', c) for c in cs)`. */
  function I32s(vs: seq<int>): (r: seq<byte>)
    requires forall i :: 0 <= i < |vs| ==> IsI32(vs[i])
    ensures |r| == 4 * |vs|
    ensures DecodeI32s(r) == vs
  {
    if |vs| == 0 then []
    else
      var rest := I32s(vs[1..]);
      assert (I32(vs[0]) + rest)[..4] == I32(vs[0]);
      assert (I32(vs[0]) + rest)[4..] == rest;
      I32(vs[0]) + rest
  }

  /** Reads consecutive big-endian signed 32-bit values. */
  function DecodeI32s(s: seq<byte>): (vs: seq<int>)
    requires |s| % 4 == 0
    ensures |vs| == |s| / 4
  {
    if |s| == 0 then [] else [DecodeI32(s[..4])] + DecodeI32s(s[4..])
  }

  /** Encoding a list of 16-bit values distributes over list concatenation. */
  lemma {:induction false} U16sAppend(a: seq<int>, b: seq<int>)
    requires forall i :: 0 <= i < |a| ==> IsU16(a[i])
    requires forall i :: 0 <= i < |b| ==> IsU16(b[i])
    ensures U16s(a + b) == U16s(a) + U16s(b)
  {
    if |a| == 0 {
      assert a + b == b;
    } else {
      assert (a + b)[1..] == a[1..] + b;
      U16sAppend(a[1..], b);
    }
  }
}
