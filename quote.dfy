/** `urllib.parse.quote(s)` with its default `safe='/'`, as the URL builder
    calls it: `s` is encoded to UTF-8, every byte that is an ASCII letter, a
    digit, one of `_.-~` (the unreserved characters of section 2.3 of
    RFC 3986) or `/` is copied as that character, and every other byte is
    written `%XX` with two upper-case hexadecimal digits (section 2.1 of
    RFC 3986). The partner definition is a strict percent-decoder. */
module PercentEncoding {
  import opened Text

  newtype byte = x: int | 0 <= x < 256

  // ---------------------------------------------------------------------
  // UTF-8 (section 3 of RFC 3629), taken as given
  // ---------------------------------------------------------------------

  /** The UTF-8 bytes of one Unicode scalar value. */
  function EncodeChar(c: char): (r: seq<byte>)
    ensures 1 <= |r| <= 4
    ensures c as int < 0x80 ==> r == [c as int as byte]
  {
    var n := c as int;
    if n < 0x80 then [n as byte]
    else if n < 0x800 then
      [(0xC0 + n / 0x40) as byte, (0x80 + n % 0x40) as byte]
    else if n < 0x10000 then
      [(0xE0 + n / 0x1000) as byte, (0x80 + n / 0x40 % 0x40) as byte, (0x80 + n % 0x40) as byte]
    else
      [(0xF0 + n / 0x40000) as byte, (0x80 + n / 0x1000 % 0x40) as byte,
       (0x80 + n / 0x40 % 0x40) as byte, (0x80 + n % 0x40) as byte]
  }

  /** `s.encode('utf-8')`. */
  function Utf8(s: string): seq<byte> {
    if s == [] then [] else EncodeChar(s[0]) + Utf8(s[1..])
  }

  // ---------------------------------------------------------------------
  // quote
  // ---------------------------------------------------------------------

  /** Characters `quote` never escapes: `_ALWAYS_SAFE` plus the default
      `safe='/'`. */
  predicate IsSafeChar(c: char) {
    ('A' <= c <= 'Z') || ('a' <= c <= 'z') || ('0' <= c <= '9') ||
    c == '_' || c == '.' || c == '-' || c == '~' || c == '/'
  }

  predicate IsSafeByte(b: byte) {
    b < 0x80 && IsSafeChar(b as int as char)
  }

  const HexDigits := "0123456789ABCDEF"

  /** `'%{:02X}'.format(b)` for a byte `quote` must escape, the byte itself
      otherwise. */
  function QuoteByte(b: byte): string {
    if IsSafeByte(b) then [b as int as char]
    else ['%', HexDigits[b / 16], HexDigits[b % 16]]
  }

  /** `quote_from_bytes(bs, safe='/')`: every character of the result is a safe
      character or the `%` of an escape, so no byte of the input can appear in
      the output as `&`, `=`, `?`, `#`, `+` or a space. */
  function QuoteBytes(bs: seq<byte>): (r: string)
    ensures forall i :: 0 <= i < |r| ==> IsSafeChar(r[i]) || r[i] == '%'
  {
    if bs == [] then [] else QuoteByte(bs[0]) + QuoteBytes(bs[1..])
  }

  /** `urllib.parse.quote(s)`. */
  function Quote(s: string): string {
    QuoteBytes(Utf8(s))
  }

  // ---------------------------------------------------------------------
  // The partner: strict percent-decoding
  // ---------------------------------------------------------------------

  /** The value of one hexadecimal digit, either case. */
  function HexValue(c: char): (r: Option<nat>)
    ensures r.Some? ==> r.value < 16
  {
    if '0' <= c <= '9' then Some(c as int - '0' as int)
    else if 'A' <= c <= 'F' then Some(c as int - 'A' as int + 10)
    else if 'a' <= c <= 'f' then Some(c as int - 'a' as int + 10)
    else None
  }

  /** Decode a string made of safe characters and `%XX` escapes back to the
      bytes it spells; `None` for any other character or a broken escape. */
  function Unquote(s: string): (r: Option<seq<byte>>)
    decreases |s|
  {
    if s == [] then Some([])
    else if s[0] == '%' then
      if |s| >= 3 && HexValue(s[1]).Some? && HexValue(s[2]).Some? then
        match Unquote(s[3..])
        case Some(rest) => Some([(HexValue(s[1]).value * 16 + HexValue(s[2]).value) as byte] + rest)
        case None => None
      else None
    else if IsSafeChar(s[0]) then
      match Unquote(s[1..])
      case Some(rest) => Some([s[0] as int as byte] + rest)
      case None => None
    else None
  }

  lemma HexDigitValue(d: nat)
    requires d < 16
    ensures HexValue(HexDigits[d]) == Some(d)
  {
  }

  /** Decoding one escaped or copied byte, then the rest. */
  lemma UnquoteStep(b: byte, rest: string)
    ensures Unquote(QuoteByte(b) + rest) ==
      match Unquote(rest)
      case Some(tail) => Some([b] + tail)
      case None => None
  {
    var q := QuoteByte(b);
    if IsSafeByte(b) {
      assert (q + rest)[1..] == rest;
    } else {
      HexDigitValue(b as nat / 16);
      HexDigitValue(b as nat % 16);
      assert (q + rest)[3..] == rest;
    }
  }

  /** Percent-decoding an encoded segment gives back the original bytes. */
  lemma {:induction false} UnquoteQuote(bs: seq<byte>)
    ensures Unquote(QuoteBytes(bs)) == Some(bs)
  {
    if bs != [] {
      UnquoteQuote(bs[1..]);
      UnquoteStep(bs[0], QuoteBytes(bs[1..]));
      assert [bs[0]] + bs[1..] == bs;
    }
  }

  /** Two addresses with different UTF-8 bytes never encode alike. */
  lemma QuoteInjective(a: seq<byte>, b: seq<byte>)
    requires QuoteBytes(a) == QuoteBytes(b)
    ensures a == b
  {
    UnquoteQuote(a);
    UnquoteQuote(b);
  }

  /** The query delimiters never occur in an encoded segment. */
  lemma QuoteHasNoDelimiters(s: string)
    ensures '&' !in Quote(s) && '=' !in Quote(s) && '?' !in Quote(s)
    ensures '#' !in Quote(s) && '+' !in Quote(s) && ' ' !in Quote(s)
  {
  }

  /** A string made only of safe characters is left as it is. */
  lemma {:induction false} QuoteKeepsSafe(s: string)
    requires forall i :: 0 <= i < |s| ==> IsSafeChar(s[i])
    ensures Quote(s) == s
  {
    if s != [] {
      QuoteKeepsSafe(s[1..]);
      var b := s[0] as int as byte;
      assert EncodeChar(s[0]) == [b];
      assert Utf8(s) == [b] + Utf8(s[1..]);
      assert QuoteByte(b) == [s[0]];
      assert s == [s[0]] + s[1..];
    }
  }
}
