/**
 * `encodeURIComponent` and its inverse, the percent-decoding a route applies
 * to a path parameter. Characters are Unicode scalar values, so the lone
 * surrogates for which `encodeURIComponent` throws cannot occur.
 */
module Uri {
  import opened Wrappers

  type Byte = x: int | 0 <= x < 256

  /** The characters `encodeURIComponent` leaves as they are. */
  predicate IsUnreserved(c: char) {
    || ('A' <= c <= 'Z') || ('a' <= c <= 'z') || ('0' <= c <= '9')
    || c == '-' || c == '_' || c == '.' || c == '!' || c == '~'
    || c == '*' || c == '\'' || c == '(' || c == ')'
  }

  /** The characters that can appear in an encoded component. */
  predicate IsEncodedChar(c: char) {
    IsUnreserved(c) || c == '%'
  }

  /** The UTF-8 encoding of one scalar value. */
  function Utf8(c: char): (bs: seq<Byte>)
    ensures 1 <= |bs| <= 4
  {
    var n := c as int;
    if n < 0x80 then [n]
    else if n < 0x800 then [0xC0 + n / 64, 0x80 + n % 64]
    else if n < 0x10000 then [0xE0 + n / 4096, 0x80 + (n / 64) % 64, 0x80 + n % 64]
    else [0xF0 + n / 262144, 0x80 + (n / 4096) % 64, 0x80 + (n / 64) % 64, 0x80 + n % 64]
  }

  function HexDigit(d: nat): (c: char)
    requires d < 16
    ensures IsUnreserved(c) && c != '%'
  {
    if d < 10 then (d + '0' as int) as char else (d - 10 + 'A' as int) as char
  }

  function HexValue(c: char): Option<nat> {
    if '0' <= c <= '9' then Some(c as int - '0' as int)
    else if 'A' <= c <= 'F' then Some(c as int - 'A' as int + 10)
    else if 'a' <= c <= 'f' then Some(c as int - 'a' as int + 10)
    else None
  }

  lemma HexValueOfHexDigit(d: nat)
    requires d < 16
    ensures HexValue(HexDigit(d)) == Some(d)
  {
  }

  /** `%XY` with upper-case hexadecimal digits. */
  function PercentByte(b: Byte): (r: string)
    ensures |r| == 3 && r[0] == '%'
    ensures forall i :: 0 <= i < |r| ==> IsEncodedChar(r[i])
  {
    ['%', HexDigit(b / 16), HexDigit(b % 16)]
  }

  function PercentBytes(bs: seq<Byte>): (r: string)
    ensures |r| == 3 * |bs|
    ensures forall i :: 0 <= i < |r| ==> IsEncodedChar(r[i])
  {
    if |bs| == 0 then "" else PercentByte(bs[0]) + PercentBytes(bs[1..])
  }

  function EncodeChar(c: char): (r: string)
    ensures |r| >= 1
    ensures forall i :: 0 <= i < |r| ==> IsEncodedChar(r[i])
  {
    if IsUnreserved(c) then [c] else PercentBytes(Utf8(c))
  }

  /**
   * `encodeURIComponent(s)`. The result is made of unreserved characters and
   * percent escapes only, so in particular it never contains `/`.
   */
  function EncodeComponent(s: string): (r: string)
    ensures forall i :: 0 <= i < |r| ==> IsEncodedChar(r[i])
    ensures |r| >= |s|
  {
    if |s| == 0 then "" else EncodeChar(s[0]) + EncodeComponent(s[1..])
  }

  /** An encoded component never contains a `/`, so it is always one path segment. */
  lemma EncodedHasNoSlash(s: string)
    ensures '/' !in EncodeComponent(s)
  {
    var r := EncodeComponent(s);
    assert !IsEncodedChar('/');
    assert forall i :: 0 <= i < |r| ==> r[i] != '/';
  }

  // ---------------------------------------------------------------------------
  // Decoding
  // ---------------------------------------------------------------------------

  /** The byte written as `%XY` at index `i` of `s`, if there is one. */
  function ReadByte(s: string, i: nat): Option<Byte> {
    if i + 3 <= |s| && s[i] == '%' then
      match (HexValue(s[i + 1]), HexValue(s[i + 2]))
      case (Some(hi), Some(lo)) => if hi < 16 && lo < 16 then Some(hi * 16 + lo) else None
      case _ => None
    else None
  }

  /** A UTF-8 continuation byte `10xxxxxx`, as its six payload bits. */
  function ReadContinuation(s: string, i: nat): Option<nat> {
    match ReadByte(s, i)
    case Some(b) => if 0x80 <= b < 0xC0 then Some(b - 0x80) else None
    case None => None
  }

  function ScalarOf(n: int): Option<char> {
    if 0 <= n < 0xD800 || 0xE000 <= n < 0x110000 then Some(n as char) else None
  }

  /**
   * Decodes the escapes of one UTF-8 sequence at the start of `s`; returns the
   * character and the number of characters of `s` consumed. Overlong forms,
   * surrogates and malformed sequences are refused, as `decodeURIComponent`
   * refuses them.
   */
  function DecodeEscape(s: string): (r: Option<(char, nat)>)
    ensures r.Some? ==> 3 <= r.value.1 <= |s|
  {
    match ReadByte(s, 0)
    case None => None
    case Some(b0) =>
      if b0 < 0x80 then
        Some((b0 as char, 3))
      else if 0xC0 <= b0 < 0xE0 then
        match ReadContinuation(s, 3)
        case Some(x1) =>
          var n := (b0 - 0xC0) * 64 + x1;
          if n < 0x80 then None
          else (match ScalarOf(n) case Some(c) => Some((c, 6)) case None => None)
        case None => None
      else if 0xE0 <= b0 < 0xF0 then
        match (ReadContinuation(s, 3), ReadContinuation(s, 6))
        case (Some(x1), Some(x2)) =>
          var n := ((b0 - 0xE0) * 64 + x1) * 64 + x2;
          if n < 0x800 then None
          else (match ScalarOf(n) case Some(c) => Some((c, 9)) case None => None)
        case _ => None
      else if 0xF0 <= b0 < 0xF8 then
        match (ReadContinuation(s, 3), ReadContinuation(s, 6), ReadContinuation(s, 9))
        case (Some(x1), Some(x2), Some(x3)) =>
          var n := (((b0 - 0xF0) * 64 + x1) * 64 + x2) * 64 + x3;
          if n < 0x10000 then None
          else (match ScalarOf(n) case Some(c) => Some((c, 12)) case None => None)
        case _ => None
      else None
  }

  /** `decodeURIComponent(s)`; `None` where it throws `URIError`. */
  function DecodeComponent(s: string): (r: Option<string>)
    ensures r.Some? ==> |r.value| <= |s|
    ensures (forall i :: 0 <= i < |s| ==> s[i] != '%') ==> r == Some(s)
    decreases |s|
  {
    if |s| == 0 then Some("")
    else if s[0] != '%' then
      assert s == [s[0]] + s[1..];
      match DecodeComponent(s[1..])
      case Some(t) => Some([s[0]] + t)
      case None => None
    else
      match DecodeEscape(s)
      case None => None
      case Some((c, k)) =>
        match DecodeComponent(s[k..])
        case Some(t) => Some([c] + t)
        case None => None
  }

  // ---------------------------------------------------------------------------
  // Round trip
  // ---------------------------------------------------------------------------

  lemma ReadPercentByte(b: Byte, s: string, i: nat)
    requires i + 3 <= |s| && s[i..i + 3] == PercentByte(b)
    ensures ReadByte(s, i) == Some(b)
  {
    assert s[i] == '%' && s[i + 1] == HexDigit(b / 16) && s[i + 2] == HexDigit(b % 16);
    HexValueOfHexDigit(b / 16);
    HexValueOfHexDigit(b % 16);
  }

  /** Dividing by 64 twice is dividing by 64 * 64. */
  lemma DivDiv64(n: nat)
    ensures n / 64 / 64 == n / 4096
  {
    var q := n / 4096;
    var r := n % 4096;
    assert n == 64 * (64 * q + r / 64) + r % 64;
    assert n / 64 == 64 * q + r / 64;
  }

  /** Dividing by 4096 and then by 64 is dividing by 262144. */
  lemma DivDiv4096(n: nat)
    ensures n / 4096 / 64 == n / 262144
  {
    var q := n / 262144;
    var r := n % 262144;
    assert n == 4096 * (64 * q + r / 4096) + r % 4096;
    assert n / 4096 == 64 * q + r / 4096;
  }

  /** Reading a byte only looks at the three characters it spans. */
  lemma ReadByteShift(s: string, d: nat, i: nat)
    requires d + i + 3 <= |s|
    ensures ReadByte(s, d + i) == ReadByte(s[d..], i)
  {
    var t := s[d..];
    assert s[d + i] == t[i] && s[d + i + 1] == t[i + 1] && s[d + i + 2] == t[i + 2];
  }

  lemma {:induction false} ReadEscapedBytes(bs: seq<Byte>, rest: string, k: nat)
    requires k < |bs|
    ensures ReadByte(PercentBytes(bs) + rest, 3 * k) == Some(bs[k])
  {
    var s := PercentBytes(bs) + rest;
    if k == 0 {
      assert s[0..3] == PercentByte(bs[0]);
      ReadPercentByte(bs[0], s, 0);
    } else {
      var t := PercentBytes(bs[1..]) + rest;
      assert s == PercentByte(bs[0]) + t;
      assert s[3..] == t;
      ReadEscapedBytes(bs[1..], rest, k - 1);
      ReadByteShift(s, 3, 3 * (k - 1));
    }
  }

  lemma DecodeTwoBytes(s: string, c: char)
    requires 0x80 <= c as int < 0x800
    requires ReadByte(s, 0) == Some(0xC0 + c as int / 64)
    requires ReadByte(s, 3) == Some(0x80 + c as int % 64)
    ensures DecodeEscape(s) == Some((c, 6))
  {
    var n := c as int;
    assert ReadContinuation(s, 3) == Some(n % 64);
    assert (n / 64) * 64 + n % 64 == n;
  }

  lemma DecodeThreeBytes(s: string, c: char)
    requires 0x800 <= c as int < 0x10000
    requires ReadByte(s, 0) == Some(0xE0 + c as int / 4096)
    requires ReadByte(s, 3) == Some(0x80 + (c as int / 64) % 64)
    requires ReadByte(s, 6) == Some(0x80 + c as int % 64)
    ensures DecodeEscape(s) == Some((c, 9))
  {
    var n := c as int;
    assert ReadContinuation(s, 3) == Some((n / 64) % 64);
    assert ReadContinuation(s, 6) == Some(n % 64);
    DivDiv64(n);
    assert (n / 4096) * 64 + (n / 64) % 64 == n / 64;
    assert ((n / 4096) * 64 + (n / 64) % 64) * 64 + n % 64 == n;
  }

  lemma DecodeFourBytes(s: string, c: char)
    requires 0x10000 <= c as int
    requires ReadByte(s, 0) == Some(0xF0 + c as int / 262144)
    requires ReadByte(s, 3) == Some(0x80 + (c as int / 4096) % 64)
    requires ReadByte(s, 6) == Some(0x80 + (c as int / 64) % 64)
    requires ReadByte(s, 9) == Some(0x80 + c as int % 64)
    ensures DecodeEscape(s) == Some((c, 12))
  {
    var n := c as int;
    assert ReadContinuation(s, 3) == Some((n / 4096) % 64);
    assert ReadContinuation(s, 6) == Some((n / 64) % 64);
    assert ReadContinuation(s, 9) == Some(n % 64);
    DivDiv64(n);
    DivDiv4096(n);
    assert (n / 262144) * 64 + (n / 4096) % 64 == n / 4096;
    assert (n / 4096) * 64 + (n / 64) % 64 == n / 64;
    assert (((n / 262144) * 64 + (n / 4096) % 64) * 64 + (n / 64) % 64) * 64 + n % 64 == n;
  }

  /** The escapes written for one character decode back to that character. */
  lemma DecodeEscapeOfEncoded(c: char, rest: string)
    requires !IsUnreserved(c)
    ensures DecodeEscape(EncodeChar(c) + rest) == Some((c, |EncodeChar(c)|))
  {
    var n := c as int;
    assert EncodeChar(c) == PercentBytes(Utf8(c));
    if n < 0x80 {
      ReadEscapedBytes(Utf8(c), rest, 0);
    } else if n < 0x800 {
      DecodeEncodedTwoBytes(c, rest);
    } else if n < 0x10000 {
      DecodeEncodedThreeBytes(c, rest);
    } else {
      DecodeEncodedFourBytes(c, rest);
    }
  }

  lemma DecodeEncodedTwoBytes(c: char, rest: string)
    requires 0x80 <= c as int < 0x800
    ensures DecodeEscape(PercentBytes(Utf8(c)) + rest) == Some((c, 6))
  {
    var bs := Utf8(c);
    ReadEscapedBytes(bs, rest, 0);
    ReadEscapedBytes(bs, rest, 1);
    DecodeTwoBytes(PercentBytes(bs) + rest, c);
  }

  lemma DecodeEncodedThreeBytes(c: char, rest: string)
    requires 0x800 <= c as int < 0x10000
    ensures DecodeEscape(PercentBytes(Utf8(c)) + rest) == Some((c, 9))
  {
    var bs := Utf8(c);
    ReadEscapedBytes(bs, rest, 0);
    ReadEscapedBytes(bs, rest, 1);
    ReadEscapedBytes(bs, rest, 2);
    DecodeThreeBytes(PercentBytes(bs) + rest, c);
  }

  lemma DecodeEncodedFourBytes(c: char, rest: string)
    requires 0x10000 <= c as int
    ensures DecodeEscape(PercentBytes(Utf8(c)) + rest) == Some((c, 12))
  {
    var bs := Utf8(c);
    ReadEscapedBytes(bs, rest, 0);
    ReadEscapedBytes(bs, rest, 1);
    ReadEscapedBytes(bs, rest, 2);
    ReadEscapedBytes(bs, rest, 3);
    DecodeFourBytes(PercentBytes(bs) + rest, c);
  }

  /** `decodeURIComponent(encodeURIComponent(s)) == s`. */
  lemma {:induction false} DecodeEncode(s: string)
    ensures DecodeComponent(EncodeComponent(s)) == Some(s)
  {
    if |s| > 0 {
      var tail := EncodeComponent(s[1..]);
      DecodeEncode(s[1..]);
      if IsUnreserved(s[0]) {
        DecodeUnreservedHead(s[0], tail, s[1..]);
      } else {
        DecodeEscapedHead(s[0], tail, s[1..]);
      }
      assert [s[0]] + s[1..] == s;
    }
  }

  lemma DecodeUnreservedHead(c: char, tail: string, t: string)
    requires IsUnreserved(c) && DecodeComponent(tail) == Some(t)
    ensures DecodeComponent(EncodeChar(c) + tail) == Some([c] + t)
  {
    var e := EncodeChar(c) + tail;
    assert e[0] == c && e[1..] == tail;
  }

  lemma DecodeEscapedHead(c: char, tail: string, t: string)
    requires !IsUnreserved(c) && DecodeComponent(tail) == Some(t)
    ensures DecodeComponent(EncodeChar(c) + tail) == Some([c] + t)
  {
    var head := EncodeChar(c);
    var e := head + tail;
    DecodeEscapeOfEncoded(c, tail);
    assert e[0] == '%' by {
      assert head == PercentBytes(Utf8(c));
    }
    assert e[|head|..] == tail;
  }
}
