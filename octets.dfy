/**
 * Octets, fixed-width integers and the octet-level predicates of HTTP/1.1
 * (RFC 7230) that the header library applies to names and values.
 *
 * An octet is written as the character with the same code, so that the ASCII
 * literals of the source (`"ssdp:all"`, `"HTTP/1"`) read as they do there.
 */
module Octets {

  /** One octet of header text or packet data. */
  type Byte = c: char | c as int < 256

  /** A byte string: `&[u8]`, `Vec<u8>`, `HeaderValue` or ASCII `String`. */
  type Bytes = seq<Byte>

  type u8 = x: int | 0 <= x < 0x100
  type u16 = x: int | 0 <= x < 0x1_0000
  type u32 = x: int | 0 <= x < 0x1_0000_0000

  const U8_MAX: int := 0xff
  const U16_MAX: int := 0xffff
  const I32_MIN: int := -0x8000_0000
  const I32_MAX: int := 0x7fff_ffff

  predicate StartsWith(s: Bytes, prefix: Bytes) {
    |prefix| <= |s| && s[..|prefix|] == prefix
  }

  predicate IsUpperAscii(c: Byte) { 'A' <= c <= 'Z' }
  predicate IsLowerAscii(c: Byte) { 'a' <= c <= 'z' }

  /** ASCII upper-casing of one octet (`char::to_uppercase` on ASCII). */
  function UpperByte(c: Byte): (r: Byte)
    ensures IsLowerAscii(c) ==> IsUpperAscii(r) && r as int == c as int - 32
    ensures !IsLowerAscii(c) ==> r == c
  {
    if IsLowerAscii(c) then (c as int - 32) as char else c
  }

  /** ASCII lower-casing of one octet. */
  function LowerByte(c: Byte): (r: Byte)
    ensures IsUpperAscii(c) ==> IsLowerAscii(r) && r as int == c as int + 32
    ensures !IsUpperAscii(c) ==> r == c
  {
    if IsUpperAscii(c) then (c as int + 32) as char else c
  }

  function Upper(s: Bytes): (r: Bytes)
    ensures |r| == |s| && forall i :: 0 <= i < |s| ==> r[i] == UpperByte(s[i])
  {
    seq(|s|, i requires 0 <= i < |s| => UpperByte(s[i]))
  }

  function Lower(s: Bytes): (r: Bytes)
    ensures |r| == |s| && forall i :: 0 <= i < |s| ==> r[i] == LowerByte(s[i])
  {
    seq(|s|, i requires 0 <= i < |s| => LowerByte(s[i]))
  }

  /** `tchar` of section 3.2.6 of RFC 7230: the octets a header name is made of. */
  predicate IsTokenChar(c: Byte) {
    || 'a' <= c <= 'z' || 'A' <= c <= 'Z' || '0' <= c <= '9'
    || c in "!#$%&'*+-.^_`|~"
  }

  /** A header name the header library accepts: a non-empty token. */
  predicate ValidHeaderName(name: Bytes) {
    |name| > 0 && forall i :: 0 <= i < |name| ==> IsTokenChar(name[i])
  }

  /** An octet the header library accepts in a value: tab, or anything but the other controls and DEL. */
  predicate IsValueByte(c: Byte) {
    c == '\t' || (32 <= c as int && c as int != 127)
  }

  /** A header value the header library accepts (`HeaderValue::from_bytes`). */
  predicate ValidHeaderValue(value: Bytes) {
    forall i :: 0 <= i < |value| ==> IsValueByte(value[i])
  }

  /** True when `s` holds two adjacent colons. */
  predicate HasPairSeparator(s: Bytes) {
    exists i :: 1 <= i < |s| && s[i - 1] == ':' && s[i] == ':'
  }
}
