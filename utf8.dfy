/**
 * UTF-8 encoding of one Unicode scalar value (the octets that
 * `encodeURIComponent` percent-encodes), and its decoding, with the round trip.
 */
module Utf8 {
  import opened Wrappers

  type Byte = b: int | 0 <= b < 256

  /** True when `b` is a continuation octet `10xxxxxx`. */
  predicate IsContinuation(b: Byte) { 0x80 <= b < 0xC0 }

  /** The number of octets a sequence led by `b` has, or 0 when `b` cannot lead one. */
  function SequenceLength(b: Byte): (n: nat)
    ensures n <= 4
    ensures n == 0 <==> IsContinuation(b) || 0xF8 <= b
  {
    if b < 0x80 then 1
    else if b < 0xC0 then 0
    else if b < 0xE0 then 2
    else if b < 0xF0 then 3
    else if b < 0xF8 then 4
    else 0
  }

  /** The shortest UTF-8 octet sequence of the scalar value `c`. */
  function Encode(c: char): (bs: seq<Byte>)
    ensures 1 <= |bs| <= 4
    ensures SequenceLength(bs[0]) == |bs|
    ensures forall k :: 1 <= k < |bs| ==> IsContinuation(bs[k])
    ensures |bs| == 1 <==> c as int < 0x80
  {
    var n := c as int;
    if n < 0x80 then [n]
    else if n < 0x800 then [0xC0 + n / 64, 0x80 + n % 64]
    else if n < 0x10000 then [0xE0 + n / 4096, 0x80 + n / 64 % 64, 0x80 + n % 64]
    else [0xF0 + n / 262144, 0x80 + n / 4096 % 64, 0x80 + n / 64 % 64, 0x80 + n % 64]
  }

  /** True when `n` is a Unicode scalar value, that is, a Dafny `char`. */
  predicate IsScalar(n: int) { 0 <= n < 0xD800 || 0xE000 <= n < 0x11_0000 }

  /**
   * Decodes exactly one scalar value from `bs`, rejecting bad lead and
   * continuation octets, overlong forms, surrogates and values past U+10FFFF.
   */
  function Decode(bs: seq<Byte>): (r: Option<char>)
    ensures r.Some? ==> 1 <= |bs| <= 4 && SequenceLength(bs[0]) == |bs|
  {
    if |bs| == 0 || SequenceLength(bs[0]) != |bs| then None
    else if exists k :: 1 <= k < |bs| && !IsContinuation(bs[k]) then None
    else
      var n :=
        if |bs| == 1 then bs[0]
        else if |bs| == 2 then (bs[0] as int - 0xC0) * 64 + (bs[1] as int - 0x80)
        else if |bs| == 3 then (bs[0] as int - 0xE0) * 4096 + (bs[1] as int - 0x80) * 64 + (bs[2] as int - 0x80)
        else (bs[0] as int - 0xF0) * 262144 + (bs[1] as int - 0x80) * 4096 + (bs[2] as int - 0x80) * 64 + (bs[3] as int - 0x80);
      var least := if |bs| == 1 then 0 else if |bs| == 2 then 0x80 else if |bs| == 3 then 0x800 else 0x1_0000;
      if least <= n && IsScalar(n) then Some(n as char) else None
  }

  /** Decoding the encoding of a scalar value gives it back. */
  lemma DecodeEncode(c: char)
    ensures Decode(Encode(c)) == Some(c)
  {
    var n := c as int;
    var bs := Encode(c);
    if n < 0x80 {
    } else if n < 0x800 {
      assert (n / 64) * 64 + n % 64 == n;
    } else if n < 0x10000 {
      var q := n / 64;
      assert q * 64 + n % 64 == n;
      assert (q / 64) * 64 + q % 64 == q;
      assert n / 4096 == q / 64;
      assert (bs[0] as int - 0xE0) * 4096 + (bs[1] as int - 0x80) * 64 + (bs[2] as int - 0x80) == n;
    } else {
      var q := n / 64;
      var p := q / 64;
      assert q * 64 + n % 64 == n;
      assert p * 64 + q % 64 == q;
      assert (p / 64) * 64 + p % 64 == p;
      assert n / 4096 == p;
      assert n / 262144 == p / 64;
      assert (bs[0] as int - 0xF0) * 262144 + (bs[1] as int - 0x80) * 4096 + (bs[2] as int - 0x80) * 64 + (bs[3] as int - 0x80) == n;
    }
  }
}
