/**
 * `urllib.parse.quote(s)` as the Content-Disposition header uses it: the text
 * is encoded as UTF-8 (RFC 3629) and every byte outside the unreserved set
 * and '/' is written as '%' followed by two upper-case hexadecimal digits.
 * The decoders below are the partners a client uses to get the name back.
 */
module Percent {
  import opened Wrappers

  type Byte = b: int | 0 <= b < 256

  /** The encoding of one code point, section 3 of RFC 3629. */
  function Utf8Char(c: char): (bs: seq<Byte>)
    ensures 1 <= |bs| <= 4
    ensures (c as int < 0x80) <==> |bs| == 1
  {
    var cp := c as int;
    if cp < 0x80 then [cp]
    else if cp < 0x800 then [0xC0 + cp / 64, 0x80 + cp % 64]
    else if cp < 0x10000 then [0xE0 + cp / 4096, 0x80 + (cp / 64) % 64, 0x80 + cp % 64]
    else [0xF0 + cp / 262144, 0x80 + (cp / 4096) % 64, 0x80 + (cp / 64) % 64, 0x80 + cp % 64]
  }

  /** `s.encode("utf-8")` */
  function Utf8Encode(s: string): (bs: seq<Byte>)
    ensures |s| <= |bs| <= 4 * |s|
  {
    if s == [] then [] else Utf8Char(s[0]) + Utf8Encode(s[1..])
  }

  predicate IsContinuation(b: Byte) {
    0x80 <= b < 0xC0
  }

  /** The length of the sequence a lead byte announces, or 0 for a byte that cannot start one. */
  function SequenceLength(lead: Byte): nat {
    if lead < 0x80 then 1
    else if 0xC0 <= lead < 0xE0 then 2
    else if 0xE0 <= lead < 0xF0 then 3
    else if 0xF0 <= lead < 0xF8 then 4
    else 0
  }

  /** The code point bits a sequence of one to four bytes carries. */
  function SequenceValue(bs: seq<Byte>): int
    requires 1 <= |bs| <= 4
  {
    var b := seq(|bs|, i requires 0 <= i < |bs| => bs[i] as int);
    if |b| == 1 then b[0]
    else if |b| == 2 then (b[0] - 0xC0) * 64 + (b[1] - 0x80)
    else if |b| == 3 then (b[0] - 0xE0) * 4096 + (b[1] - 0x80) * 64 + (b[2] - 0x80)
    else (b[0] - 0xF0) * 262144 + (b[1] - 0x80) * 4096 + (b[2] - 0x80) * 64 + (b[3] - 0x80)
  }

  /** The character of one well-formed sequence, rejecting overlong forms, surrogates and values past U+10FFFF. */
  function DecodeSequence(bs: seq<Byte>): Option<char>
    requires 1 <= |bs| <= 4 && SequenceLength(bs[0]) == |bs|
  {
    var cp := SequenceValue(bs);
    var least := if |bs| == 1 then 0 else if |bs| == 2 then 0x80 else if |bs| == 3 then 0x800 else 0x10000;
    if !(forall i :: 1 <= i < |bs| ==> IsContinuation(bs[i])) then None
    else if cp < least || 0x10FFFF < cp || (0xD800 <= cp < 0xE000) then None
    else Some(cp as char)
  }

  /** `bs.decode("utf-8")`, `None` standing for the `UnicodeDecodeError`. */
  function Utf8Decode(bs: seq<Byte>): Option<string>
    decreases |bs|
  {
    if bs == [] then Some([])
    else
      var n := SequenceLength(bs[0]);
      if n == 0 || |bs| < n then None
      else match (DecodeSequence(bs[..n]), Utf8Decode(bs[n..]))
        case (Some(c), Some(rest)) => Some([c] + rest)
        case _ => None
  }

  lemma Utf8TwoBytes(cp: int)
    requires 0x80 <= cp < 0x800
    ensures (0xC0 + cp / 64 - 0xC0) * 64 + (0x80 + cp % 64 - 0x80) == cp
  {
  }

  lemma Utf8ThreeBytes(cp: int)
    requires 0x800 <= cp < 0x10000
    ensures (0xE0 + cp / 4096 - 0xE0) * 4096 + (0x80 + (cp / 64) % 64 - 0x80) * 64 + (0x80 + cp % 64 - 0x80) == cp
  {
    assert cp / 64 == (cp / 4096) * 64 + (cp / 64) % 64;
  }

  lemma Utf8FourBytes(cp: int)
    requires 0x10000 <= cp < 0x110000
    ensures (0xF0 + cp / 262144 - 0xF0) * 262144 + (0x80 + (cp / 4096) % 64 - 0x80) * 4096
            + (0x80 + (cp / 64) % 64 - 0x80) * 64 + (0x80 + cp % 64 - 0x80) == cp
  {
    assert cp / 4096 == (cp / 262144) * 64 + (cp / 4096) % 64;
    assert cp / 64 == (cp / 4096) * 64 + (cp / 64) % 64;
  }

  /** Decoding the encoding of one character gives that character back. */
  lemma Utf8CharDecodes(c: char)
    ensures SequenceLength(Utf8Char(c)[0]) == |Utf8Char(c)|
    ensures DecodeSequence(Utf8Char(c)) == Some(c)
  {
    var cp := c as int;
    if 0x80 <= cp < 0x800 {
      Utf8TwoBytes(cp);
    } else if 0x800 <= cp < 0x10000 {
      Utf8ThreeBytes(cp);
    } else if 0x10000 <= cp {
      Utf8FourBytes(cp);
    }
  }

  /** UTF-8 round trip: `s.encode("utf-8").decode("utf-8") == s`. */
  lemma {:induction false} Utf8RoundTrip(s: string)
    ensures Utf8Decode(Utf8Encode(s)) == Some(s)
  {
    if s != [] {
      var head, tail := Utf8Char(s[0]), Utf8Encode(s[1..]);
      var bs := head + tail;
      Utf8CharDecodes(s[0]);
      assert bs[0] == head[0];
      assert bs[..|head|] == head && bs[|head|..] == tail;
      Utf8RoundTrip(s[1..]);
      assert [s[0]] + s[1..] == s;
    }
  }

  /** The bytes `quote` leaves as they are: letters, digits, "_.-~" and the default safe character '/'. */
  predicate IsSafeByte(b: Byte) {
    || ('A' as int <= b <= 'Z' as int)
    || ('a' as int <= b <= 'z' as int)
    || ('0' as int <= b <= '9' as int)
    || b == '_' as int || b == '.' as int || b == '-' as int || b == '~' as int
    || b == '/' as int
  }

  predicate IsSafeChar(c: char) {
    c as int < 256 && IsSafeByte(c as int)
  }

  function HexDigit(d: nat): (c: char)
    requires d < 16
    ensures IsSafeChar(c)
  {
    if d < 10 then ('0' as int + d) as char else ('A' as int + d - 10) as char
  }

  predicate IsHexDigit(c: char) {
    ('0' <= c <= '9') || ('A' <= c <= 'F') || ('a' <= c <= 'f')
  }

  function HexValue(c: char): (d: nat)
    requires IsHexDigit(c)
    ensures d < 16
  {
    if c <= '9' then c as int - '0' as int
    else if c <= 'F' then c as int - 'A' as int + 10
    else c as int - 'a' as int + 10
  }

  function QuoteByte(b: Byte): string {
    if IsSafeByte(b) then [b as char] else ['%', HexDigit(b / 16), HexDigit(b % 16)]
  }

  /** `urllib.parse.quote_from_bytes(bs)`: only safe characters and '%' come out. */
  function QuoteBytes(bs: seq<Byte>): (r: string)
    ensures forall i :: 0 <= i < |r| ==> IsSafeChar(r[i]) || r[i] == '%'
  {
    if bs == [] then [] else QuoteByte(bs[0]) + QuoteBytes(bs[1..])
  }

  /** `urllib.parse.quote(s)` with its default `safe='/'` and UTF-8 encoding. */
  function Quote(s: string): (r: string)
    ensures '"' !in r && ';' !in r && ' ' !in r
  {
    QuoteBytes(Utf8Encode(s))
  }

  /** Strict percent-decoding of quoted text: `None` for a stray '%' or a character outside ASCII. */
  function PercentDecode(s: string): Option<seq<Byte>> {
    if s == [] then Some([])
    else if s[0] == '%' then
      if |s| >= 3 && IsHexDigit(s[1]) && IsHexDigit(s[2]) then
        match PercentDecode(s[3..])
        case None => None
        case Some(rest) => Some([HexValue(s[1]) * 16 + HexValue(s[2])] + rest)
      else None
    else if s[0] as int < 128 then
      match PercentDecode(s[1..])
      case None => None
      case Some(rest) => Some([s[0] as int] + rest)
    else None
  }

  /** Percent-decoding undoes `quote_from_bytes`. */
  lemma {:induction false} QuoteBytesDecodes(bs: seq<Byte>)
    ensures PercentDecode(QuoteBytes(bs)) == Some(bs)
  {
    if bs != [] {
      var b, q, rest := bs[0], QuoteByte(bs[0]), QuoteBytes(bs[1..]);
      var s := q + rest;
      QuoteBytesDecodes(bs[1..]);
      if IsSafeByte(b) {
        assert s[0] == b as char && s[1..] == rest;
      } else {
        assert s[0] == '%' && s[1] == HexDigit(b / 16) && s[2] == HexDigit(b % 16) && s[3..] == rest;
      }
      assert [b] + bs[1..] == bs;
    }
  }

  /** A client that percent-decodes and then UTF-8-decodes the quoted text recovers `s`. */
  lemma QuoteRoundTrip(s: string)
    ensures PercentDecode(Quote(s)) == Some(Utf8Encode(s))
    ensures Utf8Decode(PercentDecode(Quote(s)).value) == Some(s)
  {
    QuoteBytesDecodes(Utf8Encode(s));
    Utf8RoundTrip(s);
  }
}
