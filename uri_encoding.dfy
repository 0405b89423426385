/** ECMAScript `encodeURIComponent`: every character outside the unreserved
    set is written as the `%XY` escapes of its UTF-8 bytes, with upper-case
    hexadecimal digits. Dafny characters are Unicode scalar values, so the
    lone surrogates for which JavaScript throws cannot occur. */
module UriEncoding {
  import opened Wrappers

  /** The characters `encodeURIComponent` leaves as they are. */
  predicate IsUnreserved(c: char) {
    ('A' <= c <= 'Z') || ('a' <= c <= 'z') || ('0' <= c <= '9') || c in "-_.!~*'()"
  }

  predicate AllUnreserved(s: string) {
    forall i :: 0 <= i < |s| ==> IsUnreserved(s[i])
  }

  predicate IsByte(b: int) {
    0 <= b < 256
  }

  predicate AllBytes(bs: seq<int>) {
    forall i :: 0 <= i < |bs| ==> IsByte(bs[i])
  }

  /** The UTF-8 encoding of one Unicode scalar value. */
  function Utf8Bytes(c: char): (bs: seq<int>)
    ensures 1 <= |bs| <= 4 && AllBytes(bs)
    ensures (c as int < 0x80) <==> bs == [c as int]
  {
    var n := c as int;
    if n < 0x80 then [n]
    else if n < 0x800 then [0xC0 + n / 0x40, 0x80 + n % 0x40]
    else if n < 0x1_0000 then [0xE0 + n / 0x1000, 0x80 + (n / 0x40) % 0x40, 0x80 + n % 0x40]
    else [0xF0 + n / 0x4_0000, 0x80 + (n / 0x1000) % 0x40, 0x80 + (n / 0x40) % 0x40, 0x80 + n % 0x40]
  }

  /** The UTF-8 encoding of a string. */
  function Utf8(s: string): (bs: seq<int>)
    ensures AllBytes(bs)
  {
    if s == [] then [] else Utf8Bytes(s[0]) + Utf8(s[1..])
  }

  function HexDigit(d: int): (c: char)
    requires 0 <= d < 16
    ensures IsUnreserved(c)
  {
    if d < 10 then ('0' as int + d) as char else ('A' as int + d - 10) as char
  }

  predicate IsHexDigit(c: char) {
    ('0' <= c <= '9') || ('A' <= c <= 'F') || ('a' <= c <= 'f')
  }

  /** The value of a hexadecimal digit, in either case. */
  function HexValue(c: char): (d: int)
    requires IsHexDigit(c)
    ensures 0 <= d < 16
  {
    if '0' <= c <= '9' then c as int - '0' as int
    else if 'A' <= c <= 'F' then c as int - 'A' as int + 10
    else c as int - 'a' as int + 10
  }

  lemma HexRoundTrip(d: int)
    requires 0 <= d < 16
    ensures IsHexDigit(HexDigit(d)) && HexValue(HexDigit(d)) == d
  {
  }

  /** `%XY` for each byte. */
  function PercentEscapes(bs: seq<int>): (r: string)
    requires AllBytes(bs)
    ensures |r| == 3 * |bs|
    ensures forall i :: 0 <= i < |r| ==> IsUnreserved(r[i]) || r[i] == '%'
  {
    if bs == [] then []
    else ['%', HexDigit(bs[0] / 16), HexDigit(bs[0] % 16)] + PercentEscapes(bs[1..])
  }

  function EncodeChar(c: char): (r: string)
  {
    if IsUnreserved(c) then [c] else PercentEscapes(Utf8Bytes(c))
  }

  /** `encodeURIComponent(s)`: the result holds nothing but unreserved
      characters and the `%` that starts an escape. */
  function EncodeUriComponent(s: string): (r: string)
    ensures |r| >= |s|
    ensures forall i :: 0 <= i < |r| ==> IsUnreserved(r[i]) || r[i] == '%'
  {
    if s == [] then []
    else
      var head := EncodeChar(s[0]);
      var r := head + EncodeUriComponent(s[1..]);
      assert forall i :: 0 <= i < |head| ==> r[i] == head[i];
      r
  }

  /** Percent-decoding down to bytes, the first half of `decodeURIComponent`:
      `%XY` is the byte `0xXY`, any other ASCII character is its own code,
      and a malformed escape or a non-ASCII character is an error. */
  function PercentDecode(t: string): Option<seq<int>>
  {
    if t == [] then Some([])
    else if t[0] == '%' then
      if |t| >= 3 && IsHexDigit(t[1]) && IsHexDigit(t[2]) then
        Prepend([HexValue(t[1]) * 16 + HexValue(t[2])], PercentDecode(t[3..]))
      else None
    else if t[0] as int < 0x80 then Prepend([t[0] as int], PercentDecode(t[1..]))
    else None
  }

  function Prepend(bs: seq<int>, rest: Option<seq<int>>): Option<seq<int>>
  {
    match rest
    case None => None
    case Some(r) => Some(bs + r)
  }

  lemma {:induction false} DecodeEscapes(bs: seq<int>, rest: string)
    requires AllBytes(bs)
    ensures PercentDecode(PercentEscapes(bs) + rest) == Prepend(bs, PercentDecode(rest))
  {
    if bs == [] {
      assert PercentEscapes(bs) + rest == rest;
      match PercentDecode(rest) {
        case None =>
        case Some(r) => assert bs + r == r;
      }
    } else {
      DecodeFirstEscape(bs, rest);
      DecodeEscapes(bs[1..], rest);
      PrependTwice(bs, PercentDecode(rest));
    }
  }

  lemma PrependTwice(bs: seq<int>, d: Option<seq<int>>)
    requires bs != []
    ensures Prepend([bs[0]], Prepend(bs[1..], d)) == Prepend(bs, d)
  {
    if d.Some? {
      assert [bs[0]] + (bs[1..] + d.value) == bs + d.value;
    }
  }

  /** Decoding the escapes of a byte string starts with its first byte. */
  lemma DecodeFirstEscape(bs: seq<int>, rest: string)
    requires AllBytes(bs) && bs != []
    ensures PercentDecode(PercentEscapes(bs) + rest) == Prepend([bs[0]], PercentDecode(PercentEscapes(bs[1..]) + rest))
  {
    var tail := PercentEscapes(bs[1..]) + rest;
    assert PercentEscapes(bs) + rest == ['%', HexDigit(bs[0] / 16), HexDigit(bs[0] % 16)] + tail;
    DecodeEscape(bs[0], tail);
  }

  /** The escape `%XY` of a byte decodes to that byte. */
  lemma DecodeEscape(b: int, tail: string)
    requires IsByte(b)
    ensures PercentDecode(['%', HexDigit(b / 16), HexDigit(b % 16)] + tail) == Prepend([b], PercentDecode(tail))
  {
    var hi, lo := HexDigit(b / 16), HexDigit(b % 16);
    DecodeByte(b);
    assert (['%', hi, lo] + tail)[3..] == tail;
  }

  /** The two digits of an escape give back the byte. */
  lemma DecodeByte(b: int)
    requires IsByte(b)
    ensures IsHexDigit(HexDigit(b / 16)) && IsHexDigit(HexDigit(b % 16))
    ensures HexValue(HexDigit(b / 16)) * 16 + HexValue(HexDigit(b % 16)) == b
  {
    HexRoundTrip(b / 16);
    HexRoundTrip(b % 16);
  }

  lemma DecodeChar(c: char, rest: string)
    ensures PercentDecode(EncodeChar(c) + rest) == Prepend(Utf8Bytes(c), PercentDecode(rest))
  {
    if IsUnreserved(c) {
      assert (EncodeChar(c) + rest)[1..] == rest;
    } else {
      DecodeEscapes(Utf8Bytes(c), rest);
    }
  }

  /** Percent-decoding undoes `EncodeUriComponent`, giving back the UTF-8
      bytes of the original string. */
  lemma {:induction false} DecodeEncode(s: string)
    ensures PercentDecode(EncodeUriComponent(s)) == Some(Utf8(s))
  {
    if s != [] {
      DecodeEncode(s[1..]);
      assert EncodeUriComponent(s) == EncodeChar(s[0]) + EncodeUriComponent(s[1..]);
      DecodeChar(s[0], EncodeUriComponent(s[1..]));
    }
  }

  /** A string of unreserved characters is its own encoding. */
  lemma {:induction false} EncodeUnreserved(s: string)
    requires AllUnreserved(s)
    ensures EncodeUriComponent(s) == s
  {
    if s != [] {
      EncodeUnreserved(s[1..]);
      assert [s[0]] + s[1..] == s;
    }
  }
}
