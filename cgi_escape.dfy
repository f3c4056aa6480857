/** `CGI.escape`, the form-encoding of a query-string value: the string is
    encoded as UTF-8, every byte of the unreserved set of section 2.3 of
    RFC 3986 is kept, a space becomes `+`, and every other byte becomes `%`
    followed by two upper-case hexadecimal digits (section 2.1 of RFC 3986).
    `Unescape` is the matching decoder, used to state the round trip. */
module CgiEscape {
  import opened Wrappers

  type byte = x: int | 0 <= x < 256

  /** The UTF-8 encoding of one Unicode scalar value (section 3 of RFC 3629):
      ASCII is one byte, every other character a lead byte that announces the
      length followed by continuation bytes. */
  function Utf8Char(c: char): (r: seq<byte>)
    ensures 1 <= |r| <= 4
    ensures c as int < 0x80 <==> |r| == 1
    ensures c as int < 0x80 ==> r == [c as int]
    ensures |r| == 2 ==> 0xC0 <= r[0] < 0xE0
    ensures |r| == 3 ==> 0xE0 <= r[0] < 0xF0
    ensures |r| == 4 ==> 0xF0 <= r[0] < 0xF8
    ensures forall k :: 1 <= k < |r| ==> 0x80 <= r[k] < 0xC0
  {
    var cp := c as int;
    if cp < 0x80 then [cp]
    else if cp < 0x800 then [0xC0 + cp / 64, 0x80 + cp % 64]
    else if cp < 0x10000 then [0xE0 + cp / 4096, 0x80 + (cp / 64) % 64, 0x80 + cp % 64]
    else [0xF0 + cp / 262144, 0x80 + (cp / 4096) % 64, 0x80 + (cp / 64) % 64, 0x80 + cp % 64]
  }

  predicate IsAscii(s: string) {
    forall i :: 0 <= i < |s| ==> s[i] as int < 0x80
  }

  /** The UTF-8 encoding of a string. */
  function Utf8(s: string): (r: seq<byte>)
    ensures |r| >= |s|
  {
    if s == [] then [] else Utf8Char(s[0]) + Utf8(s[1..])
  }

  /** An ASCII string encodes to its own code points, one byte each. */
  lemma {:induction false} Utf8Ascii(s: string)
    requires IsAscii(s)
    ensures |Utf8(s)| == |s|
    ensures forall i :: 0 <= i < |s| ==> Utf8(s)[i] == s[i] as int
  {
    if s != [] {
      Utf8Ascii(s[1..]);
      assert Utf8(s) == [s[0] as int] + Utf8(s[1..]);
    }
  }

  /** The bytes `CGI.escape` leaves as they are: letters, digits, `-`, `.`, `_` and `~`. */
  predicate Unreserved(b: byte) {
    || 'a' as int <= b <= 'z' as int
    || 'A' as int <= b <= 'Z' as int
    || '0' as int <= b <= '9' as int
    || b == '-' as int || b == '.' as int || b == '_' as int || b == '~' as int
  }

  /** The characters that can appear in an escaped value. */
  predicate UrlSafe(c: char) {
    (c as int < 256 && Unreserved(c as int)) || c == '+' || c == '%'
  }

  function HexDigit(n: int): (c: char)
    requires 0 <= n < 16
  {
    if n < 10 then ('0' as int + n) as char else ('A' as int + n - 10) as char
  }

  function HexValue(c: char): (r: Option<int>)
    ensures r.Some? ==> 0 <= r.value < 16
  {
    if '0' <= c <= '9' then Some(c as int - '0' as int)
    else if 'A' <= c <= 'F' then Some(c as int - 'A' as int + 10)
    else if 'a' <= c <= 'f' then Some(c as int - 'a' as int + 10)
    else None
  }

  lemma HexDigitValue(n: int)
    requires 0 <= n < 16
    ensures HexValue(HexDigit(n)) == Some(n)
  {
  }

  function EscapeByte(b: byte): (r: string)
  {
    if Unreserved(b) then [b as char]
    else if b == ' ' as int then "+"
    else ['%', HexDigit(b / 16), HexDigit(b % 16)]
  }

  /** The escaped form of a byte sequence. */
  function EscapeBytes(bs: seq<byte>): (r: string)
  {
    if bs == [] then "" else EscapeByte(bs[0]) + EscapeBytes(bs[1..])
  }

  /** Only URL-safe characters appear in an escaped byte sequence. */
  lemma {:induction false} EscapeBytesSafe(bs: seq<byte>)
    ensures forall c :: c in EscapeBytes(bs) ==> UrlSafe(c)
  {
    if bs != [] {
      EscapeBytesSafe(bs[1..]);
      var head := EscapeByte(bs[0]);
      if !Unreserved(bs[0]) && bs[0] != ' ' as int {
        assert Unreserved(HexDigit(bs[0] / 16) as int) && Unreserved(HexDigit(bs[0] % 16) as int);
      }
      forall c | c in EscapeBytes(bs) ensures UrlSafe(c) {
        if c !in EscapeBytes(bs[1..]) {
          assert c in head;
        }
      }
    }
  }

  /** `CGI.escape(s)`. None of the query-string punctuation (`&`, `=`, `?`,
      `#`), the CSV delimiter `;`, the quote `"` or a space survives escaping. */
  function Escape(s: string): (r: string)
    ensures '&' !in r && '=' !in r && '?' !in r && '#' !in r && ';' !in r && '"' !in r && ' ' !in r
  {
    EscapeBytesSafe(Utf8(s));
    EscapeBytes(Utf8(s))
  }

  /** Every character of an escaped value is URL-safe. */
  lemma EscapeSafe(s: string)
    ensures forall c :: c in Escape(s) ==> UrlSafe(c)
  {
    EscapeBytesSafe(Utf8(s));
  }

  function Prepend(b: byte, rest: Option<seq<byte>>): (r: Option<seq<byte>>)
  {
    match rest
    case Some(bs) => Some([b] + bs)
    case None => None
  }

  /** Decodes a form-encoded value back to its bytes; `None` for a string that
      no escaping produces (a character outside the URL-safe set, or a `%` not
      followed by two hexadecimal digits). */
  function Unescape(t: string): (r: Option<seq<byte>>)
    decreases |t|
  {
    if t == [] then Some([])
    else if t[0] == '+' then Prepend(' ' as int, Unescape(t[1..]))
    else if t[0] == '%' then
      if |t| >= 3 && HexValue(t[1]).Some? && HexValue(t[2]).Some? then
        Prepend(16 * HexValue(t[1]).value + HexValue(t[2]).value, Unescape(t[3..]))
      else None
    else if t[0] as int < 256 && Unreserved(t[0] as int) then Prepend(t[0] as int, Unescape(t[1..]))
    else None
  }

  lemma UnescapeByte(b: byte, rest: string)
    ensures Unescape(EscapeByte(b) + rest) == Prepend(b, Unescape(rest))
  {
    var t := EscapeByte(b) + rest;
    if Unreserved(b) {
      assert t[0] == b as char && t[1..] == rest;
    } else if b == ' ' as int {
      assert t[0] == '+' && t[1..] == rest;
    } else {
      HexDigitValue(b / 16);
      HexDigitValue(b % 16);
      assert t[0] == '%' && t[1] == HexDigit(b / 16) && t[2] == HexDigit(b % 16) && t[3..] == rest;
    }
  }

  /** Decoding an escaped byte sequence gives the bytes back. */
  lemma {:induction false} UnescapeEscapeBytes(bs: seq<byte>)
    ensures Unescape(EscapeBytes(bs)) == Some(bs)
  {
    if bs != [] {
      UnescapeEscapeBytes(bs[1..]);
      UnescapeByte(bs[0], EscapeBytes(bs[1..]));
      assert [bs[0]] + bs[1..] == bs;
    }
  }

  /** Decoding `CGI.escape(s)` gives the UTF-8 encoding of `s`: escaping loses nothing. */
  lemma UnescapeEscape(s: string)
    ensures Unescape(Escape(s)) == Some(Utf8(s))
  {
    UnescapeEscapeBytes(Utf8(s));
  }

  /** A value made only of unreserved ASCII characters (a country code such as
      `NO`) is passed through unchanged. */
  lemma {:induction false} EscapePlain(s: string)
    requires forall i :: 0 <= i < |s| ==> s[i] as int < 0x80 && Unreserved(s[i] as int)
    ensures Escape(s) == s
  {
    if s != [] {
      EscapePlain(s[1..]);
      assert Utf8(s) == [s[0] as int] + Utf8(s[1..]);
      assert EscapeBytes(Utf8(s)) == [s[0]] + EscapeBytes(Utf8(s[1..]));
      assert s == [s[0]] + s[1..];
    }
  }
}
