/** `urllib.parse.quote` with its default `safe='/'`, as the connection manager applies it to the
    password: the string is encoded as UTF-8 and every octet outside the unreserved characters of
    section 2.3 of RFC 3986 and `/` is written as a `%XX` triplet (section 2.1 of RFC 3986, upper-case
    hexadecimal). `Unquote` is the inverse (percent-decoding, then UTF-8 decoding). */
module PercentEncoding {
  import opened Wrappers

  type Byte = b: int | 0 <= b < 256

  /** The unreserved characters of section 2.3 of RFC 3986: ALPHA / DIGIT / "-" / "." / "_" / "~". */
  predicate IsUnreserved(c: char) {
    ('A' <= c <= 'Z') || ('a' <= c <= 'z') || ('0' <= c <= '9') || c == '-' || c == '.' || c == '_' || c == '~'
  }

  /** What `quote` leaves as it is: the unreserved characters and its default safe character `/`. */
  predicate IsSafe(c: char) { IsUnreserved(c) || c == '/' }

  predicate IsUpperHex(c: char) { ('0' <= c <= '9') || ('A' <= c <= 'F') }

  predicate IsHex(c: char) { IsUpperHex(c) || ('a' <= c <= 'f') }

  function HexDigit(d: int): (c: char)
    requires 0 <= d < 16
    ensures IsUpperHex(c)
  {
    if d < 10 then ('0' as int + d) as char else ('A' as int + d - 10) as char
  }

  function HexValue(c: char): (d: int)
    requires IsHex(c)
    ensures 0 <= d < 16
  {
    if '0' <= c <= '9' then c as int - '0' as int
    else if 'A' <= c <= 'F' then c as int - 'A' as int + 10
    else c as int - 'a' as int + 10
  }

  // ---------------------------------------------------------------------------
  // UTF-8

  /** The UTF-8 encoding of one Unicode scalar value (Python's `str.encode('utf-8')`). */
  function Utf8Encode(c: char): (bs: seq<Byte>)
    ensures 1 <= |bs| <= 4
  {
    var n := c as int;
    if n < 0x80 then [n]
    else if n < 0x800 then [0xC0 + n / 64, 0x80 + n % 64]
    else if n < 0x10000 then [0xE0 + n / 4096, 0x80 + (n / 64) % 64, 0x80 + n % 64]
    else [0xF0 + n / 262144, 0x80 + (n / 4096) % 64, 0x80 + (n / 64) % 64, 0x80 + n % 64]
  }

  function Utf8EncodeString(s: string): seq<Byte> {
    if |s| == 0 then [] else Utf8Encode(s[0]) + Utf8EncodeString(s[1..])
  }

  predicate IsContinuation(b: Byte) { 0x80 <= b < 0xC0 }

  function ScalarOf(n: int, len: nat): Option<(char, nat)> {
    if 0 <= n < 0xD800 || 0xE000 <= n < 0x110000 then Some((n as char, len)) else None
  }

  /** Decodes the character an octet sequence starts with, and how many octets it took. */
  function DecodeChar(bs: seq<Byte>): (r: Option<(char, nat)>)
    requires |bs| > 0
    ensures r.Some? ==> 1 <= r.value.1 <= |bs|
  {
    var b0, b1, b2, b3: int := bs[0], if |bs| > 1 then bs[1] else 0, if |bs| > 2 then bs[2] else 0, if |bs| > 3 then bs[3] else 0;
    if b0 < 0x80 then Some((b0 as char, 1))
    else if 0xC0 <= b0 < 0xE0 && |bs| >= 2 && IsContinuation(b1) then
      ScalarOf((b0 - 0xC0) * 64 + (b1 - 0x80), 2)
    else if 0xE0 <= b0 < 0xF0 && |bs| >= 3 && IsContinuation(b1) && IsContinuation(b2) then
      ScalarOf((b0 - 0xE0) * 4096 + (b1 - 0x80) * 64 + (b2 - 0x80), 3)
    else if 0xF0 <= b0 < 0xF8 && |bs| >= 4 && IsContinuation(b1) && IsContinuation(b2) && IsContinuation(b3) then
      ScalarOf((b0 - 0xF0) * 262144 + (b1 - 0x80) * 4096 + (b2 - 0x80) * 64 + (b3 - 0x80), 4)
    else None
  }

  function Utf8Decode(bs: seq<Byte>): Option<string>
    decreases |bs|
  {
    if |bs| == 0 then Some([])
    else match DecodeChar(bs)
      case None => None
      case Some((c, k)) =>
        match Utf8Decode(bs[k..])
        case None => None
        case Some(rest) => Some([c] + rest)
  }

  lemma DecodeEncodedChar(c: char, rest: seq<Byte>)
    ensures DecodeChar(Utf8Encode(c) + rest) == Some((c, |Utf8Encode(c)|))
  {
    var n := c as int;
    if n < 0x80 {
    } else if n < 0x800 {
      DecodeTwo(c, rest);
    } else if n < 0x10000 {
      DecodeThree(c, rest);
    } else {
      DecodeFour(c, rest);
    }
  }

  lemma DecodeTwo(c: char, rest: seq<Byte>)
    requires 0x80 <= c as int < 0x800
    ensures DecodeChar(Utf8Encode(c) + rest) == Some((c, 2))
  {
    var n := c as int;
    var hi, lo := n / 64, n % 64;
    assert n == hi * 64 + lo;
    var bs := Utf8Encode(c) + rest;
    assert bs[0] == 0xC0 + hi && bs[1] == 0x80 + lo;
  }

  lemma DecodeThree(c: char, rest: seq<Byte>)
    requires 0x800 <= c as int < 0x10000
    ensures DecodeChar(Utf8Encode(c) + rest) == Some((c, 3))
  {
    var n := c as int;
    var b0, b1, b2 := n / 4096, (n / 64) % 64, n % 64;
    assert n / 64 / 64 == n / 4096;
    assert n == (n / 64) * 64 + b2;
    assert n / 64 == b0 * 64 + b1;
    assert n == b0 * 4096 + b1 * 64 + b2;
    var bs := Utf8Encode(c) + rest;
    assert bs[0] == 0xE0 + b0 && bs[1] == 0x80 + b1 && bs[2] == 0x80 + b2;
  }

  lemma DecodeFour(c: char, rest: seq<Byte>)
    requires 0x10000 <= c as int
    ensures DecodeChar(Utf8Encode(c) + rest) == Some((c, 4))
  {
    var n := c as int;
    var b0, b1, b2, b3 := n / 262144, (n / 4096) % 64, (n / 64) % 64, n % 64;
    assert n / 64 / 64 == n / 4096;
    assert n / 4096 / 64 == n / 262144;
    assert n == (n / 64) * 64 + b3;
    assert n / 64 == (n / 4096) * 64 + b2;
    assert n / 4096 == b0 * 64 + b1;
    assert n == b0 * 262144 + b1 * 4096 + b2 * 64 + b3;
    var bs := Utf8Encode(c) + rest;
    assert bs[0] == 0xF0 + b0 && bs[1] == 0x80 + b1 && bs[2] == 0x80 + b2 && bs[3] == 0x80 + b3;
  }

  /** UTF-8 decoding inverts UTF-8 encoding. */
  lemma {:induction false} Utf8RoundTrip(s: string)
    ensures Utf8Decode(Utf8EncodeString(s)) == Some(s)
  {
    if |s| > 0 {
      var e := Utf8Encode(s[0]);
      var bs := Utf8EncodeString(s);
      DecodeEncodedChar(s[0], Utf8EncodeString(s[1..]));
      assert bs[|e|..] == Utf8EncodeString(s[1..]);
      Utf8RoundTrip(s[1..]);
      assert s == [s[0]] + s[1..];
    }
  }

  // ---------------------------------------------------------------------------
  // Percent-encoding

  function PercentByte(b: Byte): string {
    ['%', HexDigit(b / 16), HexDigit(b % 16)]
  }

  function PercentBytes(bs: seq<Byte>): string {
    if |bs| == 0 then [] else PercentByte(bs[0]) + PercentBytes(bs[1..])
  }

  function QuoteChar(c: char): string {
    if IsSafe(c) then [c] else PercentBytes(Utf8Encode(c))
  }

  /** `urllib.parse.quote(s)`: safe characters stay, every other octet of the UTF-8 form becomes `%XX`. */
  function Quote(s: string): string {
    if |s| == 0 then [] else QuoteChar(s[0]) + Quote(s[1..])
  }

  function Prepend(bs: seq<Byte>, r: Option<seq<Byte>>): Option<seq<Byte>> {
    match r
    case None => None
    case Some(rest) => Some(bs + rest)
  }

  /** Percent-decoding to octets: `%XX` becomes the octet XX, an ASCII character its own code. */
  function PercentDecode(s: string): Option<seq<Byte>>
    decreases |s|
  {
    if |s| == 0 then Some([])
    else if s[0] == '%' then
      if |s| >= 3 && IsHex(s[1]) && IsHex(s[2]) then Prepend([HexValue(s[1]) * 16 + HexValue(s[2])], PercentDecode(s[3..]))
      else None
    else if s[0] as int < 0x80 then Prepend([s[0] as int], PercentDecode(s[1..]))
    else None
  }

  /** `urllib.parse.unquote`, strict: percent-decoding followed by UTF-8 decoding. */
  function Unquote(s: string): Option<string> {
    match PercentDecode(s)
    case None => None
    case Some(bs) => Utf8Decode(bs)
  }

  lemma DecodePercentByte(b: Byte, rest: string)
    ensures PercentDecode(PercentByte(b) + rest) == Prepend([b], PercentDecode(rest))
  {
    var s := PercentByte(b) + rest;
    assert s[0] == '%' && s[1] == HexDigit(b / 16) && s[2] == HexDigit(b % 16);
    assert s[3..] == rest;
    assert HexValue(HexDigit(b / 16)) * 16 + HexValue(HexDigit(b % 16)) == b;
  }

  lemma {:induction false} DecodePercentBytes(bs: seq<Byte>, rest: string)
    ensures PercentDecode(PercentBytes(bs) + rest) == Prepend(bs, PercentDecode(rest))
  {
    if |bs| == 0 {
      assert PercentBytes(bs) + rest == rest;
      match PercentDecode(rest) {
        case None =>
        case Some(x) => assert bs + x == x;
      }
    } else {
      var b := bs[0];
      assert PercentBytes(bs) + rest == PercentByte(b) + (PercentBytes(bs[1..]) + rest);
      DecodePercentByte(b, PercentBytes(bs[1..]) + rest);
      DecodePercentBytes(bs[1..], rest);
      match PercentDecode(rest) {
        case None =>
        case Some(x) => assert [b] + (bs[1..] + x) == bs + x;
      }
    }
  }

  lemma DecodeQuotedChar(c: char, rest: string)
    ensures PercentDecode(QuoteChar(c) + rest) == Prepend(Utf8Encode(c), PercentDecode(rest))
  {
    if IsSafe(c) {
      assert (QuoteChar(c) + rest)[1..] == rest;
    } else {
      DecodePercentBytes(Utf8Encode(c), rest);
    }
  }

  lemma {:induction false} DecodeQuoted(s: string)
    ensures PercentDecode(Quote(s)) == Some(Utf8EncodeString(s))
  {
    if |s| > 0 {
      DecodeQuotedChar(s[0], Quote(s[1..]));
      DecodeQuoted(s[1..]);
    }
  }

  /** Percent-decoding the quoted password gives back the password. */
  lemma QuoteRoundTrip(s: string)
    ensures Unquote(Quote(s)) == Some(s)
  {
    DecodeQuoted(s);
    Utf8RoundTrip(s);
  }

  // ---------------------------------------------------------------------------
  // Shape of the output

  /** A string made only of safe characters and `%XX` triplets with upper-case hexadecimal digits. */
  predicate WellEncoded(s: string)
    decreases |s|
  {
    if |s| == 0 then true
    else if s[0] == '%' then |s| >= 3 && IsUpperHex(s[1]) && IsUpperHex(s[2]) && WellEncoded(s[3..])
    else IsSafe(s[0]) && WellEncoded(s[1..])
  }

  lemma {:induction false} WellEncodedConcat(a: string, b: string)
    requires WellEncoded(a) && WellEncoded(b)
    ensures WellEncoded(a + b)
    decreases |a|
  {
    if |a| > 0 {
      var ab := a + b;
      assert ab[0] == a[0];
      if a[0] == '%' {
        assert ab[1] == a[1] && ab[2] == a[2];
        assert ab[3..] == a[3..] + b;
        WellEncodedConcat(a[3..], b);
      } else {
        assert ab[1..] == a[1..] + b;
        WellEncodedConcat(a[1..], b);
      }
    } else {
      assert a + b == b;
    }
  }

  lemma {:induction false} PercentBytesWellEncoded(bs: seq<Byte>)
    ensures WellEncoded(PercentBytes(bs))
  {
    if |bs| > 0 {
      PercentBytesWellEncoded(bs[1..]);
      var p := PercentByte(bs[0]);
      assert p[3..] == [];
      assert WellEncoded(p);
      WellEncodedConcat(p, PercentBytes(bs[1..]));
    }
  }

  /** The quoted password holds only unreserved characters, `/` and `%XX` triplets. */
  lemma {:induction false} QuoteWellEncoded(s: string)
    ensures WellEncoded(Quote(s))
  {
    if |s| > 0 {
      QuoteWellEncoded(s[1..]);
      if IsSafe(s[0]) {
        assert WellEncoded([s[0]]);
      } else {
        PercentBytesWellEncoded(Utf8Encode(s[0]));
      }
      WellEncodedConcat(QuoteChar(s[0]), Quote(s[1..]));
    }
  }

  lemma {:induction false} WellEncodedChars(s: string)
    requires WellEncoded(s)
    ensures forall i :: 0 <= i < |s| ==> IsSafe(s[i]) || s[i] == '%' || IsUpperHex(s[i])
    decreases |s|
  {
    if |s| > 0 {
      if s[0] == '%' {
        WellEncodedChars(s[3..]);
        assert forall i :: 3 <= i < |s| ==> s[i] == s[3..][i - 3];
      } else {
        WellEncodedChars(s[1..]);
        assert forall i :: 1 <= i < |s| ==> s[i] == s[1..][i - 1];
      }
    }
  }

  /** Neither `@` nor `:` survives quoting, so the password cannot end the userinfo part of a URI early. */
  lemma QuoteHasNoDelimiters(s: string)
    ensures '@' !in Quote(s) && ':' !in Quote(s)
  {
    QuoteWellEncoded(s);
    WellEncodedChars(Quote(s));
  }
}
