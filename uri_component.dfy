/**
 * ECMAScript `encodeURIComponent` (section 18.2.6.5 of ECMA-262, the 2015
 * to 2020 editions) over strings of Unicode scalar values, and its inverse
 * `decodeURIComponent`. The unreserved characters of section 2.3 of RFC 2396
 * pass through; every other character becomes the `%XX` triplets (section 2.1
 * of RFC 3986, upper-case hexadecimal) of its UTF-8 octets.
 */
module UriComponent {
  import opened Wrappers
  import Utf8

  predicate IsAlphanumeric(c: char) {
    ('a' <= c <= 'z') || ('A' <= c <= 'Z') || ('0' <= c <= '9')
  }

  /** The marks of RFC 2396 that `encodeURIComponent` leaves alone. */
  predicate IsMark(c: char) {
    c == '-' || c == '_' || c == '.' || c == '!' || c == '~' || c == '*' || c == '\'' || c == '(' || c == ')'
  }

  predicate Unreserved(c: char) { IsAlphanumeric(c) || IsMark(c) }

  /** A hexadecimal digit as `encodeURIComponent` writes it: `0`-`9` or upper-case `A`-`F`. */
  predicate IsUpperHexDigit(c: char) {
    ('0' <= c <= '9') || ('A' <= c <= 'F')
  }

  /** The value of a hexadecimal digit of either case; decoding accepts both. */
  function HexValue(c: char): (r: Option<int>)
    ensures r.Some? ==> 0 <= r.value < 16
  {
    if '0' <= c <= '9' then Some(c as int - '0' as int)
    else if 'A' <= c <= 'F' then Some(c as int - 'A' as int + 10)
    else if 'a' <= c <= 'f' then Some(c as int - 'a' as int + 10)
    else None
  }

  /** The upper-case hexadecimal digit of `d`: the one digit whose value is `d`. */
  function HexDigit(d: int): (c: char)
    requires 0 <= d < 16
    ensures IsUpperHexDigit(c) && IsAlphanumeric(c)
    ensures HexValue(c) == Some(d)
  {
    var c := "0123456789ABCDEF"[d];
    assert c as int == if d < 10 then '0' as int + d else 'A' as int + d - 10;
    c
  }

  /** The triplet `%XX` of one octet: its high and then its low hexadecimal digit, upper case. */
  function PercentOctet(b: Utf8.Byte): (t: string)
    ensures |t| == 3 && t[0] == '%'
    ensures IsUpperHexDigit(t[1]) && IsUpperHexDigit(t[2]) && IsAlphanumeric(t[1]) && IsAlphanumeric(t[2])
    ensures HexValue(t[1]) == Some(b / 16) && HexValue(t[2]) == Some(b % 16)
  {
    ['%', HexDigit(b / 16), HexDigit(b % 16)]
  }

  function PercentOctets(bs: seq<Utf8.Byte>): (t: string)
    ensures |t| == 3 * |bs|
    ensures forall k :: 0 <= k < |t| ==> t[k] == '%' || IsAlphanumeric(t[k])
  {
    if bs == [] then [] else PercentOctet(bs[0]) + PercentOctets(bs[1..])
  }

  /** What `encodeURIComponent` makes of one character. */
  function EncodeChar(c: char): (t: string)
    ensures Unreserved(c) ==> t == [c]
    ensures !Unreserved(c) ==> |t| == 3 * |Utf8.Encode(c)| && t[0] == '%'
  {
    if Unreserved(c) then [c] else PercentOctets(Utf8.Encode(c))
  }

  /** `encodeURIComponent(s)`, character by character. */
  function EncodeURIComponent(s: string): (t: string)
    ensures |t| >= |s|
  {
    if s == [] then [] else EncodeChar(s[0]) + EncodeURIComponent(s[1..])
  }

  /** One character's encoding is itself or `%` triplets, so a mark in it is the character copied. */
  lemma EncodeCharAlphabet(c: char)
    ensures forall k :: 0 <= k < |EncodeChar(c)| ==> EncodeChar(c)[k] == '%' || Unreserved(EncodeChar(c)[k])
    ensures forall k :: 0 <= k < |EncodeChar(c)| && IsMark(EncodeChar(c)[k]) ==> EncodeChar(c) == [c]
  {
  }

  /** `t` is made of unreserved characters and `%` only. */
  predicate InUriAlphabet(t: string) {
    forall k :: 0 <= k < |t| ==> t[k] == '%' || Unreserved(t[k])
  }

  /** The output of `encodeURIComponent` is made of unreserved characters and `%` only. */
  lemma {:induction false} EncodeAlphabet(s: string)
    ensures forall k :: 0 <= k < |EncodeURIComponent(s)| ==> EncodeURIComponent(s)[k] == '%' || Unreserved(EncodeURIComponent(s)[k])
  {
    if s != [] {
      var a, b := EncodeChar(s[0]), EncodeURIComponent(s[1..]);
      assert InUriAlphabet(a) by {
        EncodeCharAlphabet(s[0]);
      }
      assert InUriAlphabet(b) by {
        EncodeAlphabet(s[1..]);
      }
      AlphabetAppend(a, b);
    }
  }

  lemma AlphabetAppend(a: string, b: string)
    requires InUriAlphabet(a) && InUriAlphabet(b)
    ensures InUriAlphabet(a + b)
  {
    assert forall k :: 0 <= k < |a + b| ==> (a + b)[k] == (if k < |a| then a[k] else b[k - |a|]);
  }

  /** The octet of a leading `%XX` triplet of `t`, if `t` starts with one. */
  function ParseOctet(t: string): (r: Option<Utf8.Byte>)
    ensures r.Some? ==> |t| >= 3 && t[0] == '%'
  {
    if |t| < 3 || t[0] != '%' then None
    else match (HexValue(t[1]), HexValue(t[2]))
      case (Some(hi), Some(lo)) => Some(hi * 16 + lo)
      case _ => None
  }

  /** The octets of a string made of `%XX` triplets only. */
  function ParseOctets(t: string): (r: Option<seq<Utf8.Byte>>)
    ensures r.Some? ==> |t| == 3 * |r.value|
  {
    if t == [] then Some([])
    else match ParseOctet(t)
      case None => None
      case Some(b) =>
        match ParseOctets(t[3..])
        case None => None
        case Some(bs) => Some([b] + bs)
  }

  function Prepend(c: char, r: Option<string>): Option<string> {
    match r
    case None => None
    case Some(s) => Some([c] + s)
  }

  /**
   * `decodeURIComponent(t)`: `None` where the JavaScript function throws a
   * `URIError` (a malformed triplet or an ill-formed UTF-8 sequence).
   */
  function DecodeURIComponent(t: string): (r: Option<string>)
    decreases |t|
  {
    if t == [] then Some([])
    else if t[0] != '%' then Prepend(t[0], DecodeURIComponent(t[1..]))
    else match ParseOctet(t)
      case None => None
      case Some(lead) =>
        var n := Utf8.SequenceLength(lead);
        if n == 0 || |t| < 3 * n then None
        else match ParseOctets(t[..3 * n])
          case None => None
          case Some(bs) =>
            match Utf8.Decode(bs)
            case None => None
            case Some(c) => Prepend(c, DecodeURIComponent(t[3 * n..]))
  }

  lemma ParsePercentOctet(b: Utf8.Byte, rest: string)
    ensures ParseOctet(PercentOctet(b) + rest) == Some(b)
  {
    var t := PercentOctet(b) + rest;
    assert t[0] == '%' && t[1] == HexDigit(b / 16) && t[2] == HexDigit(b % 16);
    assert b / 16 * 16 + b % 16 == b;
  }

  lemma ParseFirstOctet(bs: seq<Utf8.Byte>, rest: string)
    requires bs != []
    ensures ParseOctet(PercentOctets(bs) + rest) == Some(bs[0])
  {
    var p, tail := PercentOctet(bs[0]), PercentOctets(bs[1..]);
    assert PercentOctets(bs) == p + tail;
    Associate(p, tail, rest);
    ParseOctetPrefix(p, tail + rest);
    assert p + [] == p;
    ParsePercentOctet(bs[0], []);
  }

  /** Associativity of `+`, stated over plain strings: asserted next to the contracts of `PercentOctets` it makes the solver compare the strings character by character. */
  lemma Associate(a: string, b: string, c: string)
    ensures (a + b) + c == a + (b + c)
  {
  }

  /** Only the first three characters matter to `ParseOctet`. */
  lemma ParseOctetPrefix(p: string, u: string)
    requires |p| == 3
    ensures ParseOctet(p + u) == ParseOctet(p)
  {
    assert (p + u)[..3] == p;
  }

  lemma {:induction false} ParsePercentOctets(bs: seq<Utf8.Byte>)
    ensures ParseOctets(PercentOctets(bs)) == Some(bs)
  {
    if bs != [] {
      var t, tail := PercentOctets(bs), PercentOctets(bs[1..]);
      assert t == PercentOctet(bs[0]) + tail;
      ParsePercentOctet(bs[0], tail);
      assert t[3..] == tail;
      ParsePercentOctets(bs[1..]);
      assert [bs[0]] + bs[1..] == bs;
    }
  }

  /** Decoding consumes the encoding of one character and nothing more. */
  lemma DecodeEncodeChar(c: char, rest: string)
    ensures DecodeURIComponent(EncodeChar(c) + rest) == Prepend(c, DecodeURIComponent(rest))
  {
    var t := EncodeChar(c) + rest;
    if Unreserved(c) {
      assert t[1..] == rest;
    } else {
      var bs := Utf8.Encode(c);
      var n := |bs|;
      ParseFirstOctet(bs, rest);
      ParsePercentOctets(bs);
      assert t[..3 * n] == PercentOctets(bs);
      assert t[3 * n..] == rest;
      Utf8.DecodeEncode(c);
    }
  }

  /** `decodeURIComponent(encodeURIComponent(s)) == s`: the encoding loses nothing. */
  lemma {:induction false} DecodeEncode(s: string)
    ensures DecodeURIComponent(EncodeURIComponent(s)) == Some(s)
  {
    if s != [] {
      DecodeEncode(s[1..]);
      DecodeEncodeChar(s[0], EncodeURIComponent(s[1..]));
      assert [s[0]] + s[1..] == s;
    }
  }

  /** `encodeURIComponent` is injective. */
  lemma EncodeInjective(s1: string, s2: string)
    requires EncodeURIComponent(s1) == EncodeURIComponent(s2)
    ensures s1 == s2
  {
    DecodeEncode(s1);
    DecodeEncode(s2);
  }

  /** Encoding works character by character, so it distributes over concatenation. */
  lemma {:induction false} EncodeAppend(a: string, b: string)
    ensures EncodeURIComponent(a + b) == EncodeURIComponent(a) + EncodeURIComponent(b)
  {
    if a != [] {
      assert (a + b)[0] == a[0] && (a + b)[1..] == a[1..] + b;
      EncodeAppend(a[1..], b);
      Associate(EncodeChar(a[0]), EncodeURIComponent(a[1..]), EncodeURIComponent(b));
    } else {
      assert a + b == b;
    }
  }

  /** A string of unreserved characters only is its own encoding. */
  lemma {:induction false} EncodeUnreserved(s: string)
    requires forall k :: 0 <= k < |s| ==> Unreserved(s[k])
    ensures EncodeURIComponent(s) == s
  {
    if s != [] {
      EncodeUnreserved(s[1..]);
      assert [s[0]] + s[1..] == s;
    }
  }
}
