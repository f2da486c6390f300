/** Percent-encoding of URL parts as Python's `urllib.parse` does it:
    `quote` (UTF-8 bytes, then section 2.1 of RFC 3986 with the unreserved
    characters of section 2.3 and `/` left alone) and `unquote` (percent
    escapes back to bytes, then UTF-8 decoding where each ill-formed
    sequence becomes one U+FFFD). */
module Percent {
  type Byte = b: int | 0 <= b < 256

  // ---- UTF-8 ----

  /** The UTF-8 encoding of one character. */
  function Utf8Char(c: char): (r: seq<Byte>)
    ensures 1 <= |r| <= 4
    ensures (c as int < 0x80) == (|r| == 1) && (|r| == 1 ==> r[0] == c as int)
    ensures forall i :: 0 <= i < |r| ==> (i == 0 <==> !(0x80 <= r[i] < 0xC0))
    ensures |r| > 1 ==> forall i :: 0 <= i < |r| ==> r[i] >= 0x80
  {
    var n := c as int;
    if n < 0x80 then [n]
    else if n < 0x800 then [0xC0 + n / 64, 0x80 + n % 64]
    else if n < 0x10000 then [0xE0 + n / 4096, 0x80 + (n / 64) % 64, 0x80 + n % 64]
    else [0xF0 + n / 262144, 0x80 + (n / 4096) % 64, 0x80 + (n / 64) % 64, 0x80 + n % 64]
  }

  /** The UTF-8 encoding of a string. */
  function Utf8(s: string): (r: seq<Byte>)
    ensures |r| >= |s|
  {
    if s == [] then [] else Utf8Char(s[0]) + Utf8(s[1..])
  }

  const Replacement: char := '\U{FFFD}'

  predicate IsCont(b: Byte) {
    0x80 <= b < 0xC0
  }

  /** How many bytes the sequence started by `b` has; 0 when `b` cannot
      start one. */
  function SeqLen(b: Byte): nat {
    if b < 0x80 then 1
    else if 0xC2 <= b < 0xE0 then 2
    else if 0xE0 <= b < 0xF0 then 3
    else if 0xF0 <= b < 0xF5 then 4
    else 0
  }

  /** The second byte allowed after the lead byte `b0`, which rules out
      overlong forms, surrogates and code points above U+10FFFF. */
  predicate SecondOk(b0: Byte, b1: Byte) {
    if b0 == 0xE0 then 0xA0 <= b1 < 0xC0
    else if b0 == 0xED then 0x80 <= b1 < 0xA0
    else if b0 == 0xF0 then 0x90 <= b1 < 0xC0
    else if b0 == 0xF4 then 0x80 <= b1 < 0x90
    else IsCont(b1)
  }

  /** The length of the longest well-formed start of a sequence of `n`
      bytes at the head of `b`. */
  function GoodLen(b: seq<Byte>, n: nat): (k: nat)
    requires |b| > 0 && 2 <= n <= 4
    ensures 1 <= k <= n && k <= |b|
  {
    if |b| < 2 || !SecondOk(b[0], b[1]) then 1
    else if n == 2 then 2
    else if |b| < 3 || !IsCont(b[2]) then 2
    else if n == 3 then 3
    else if |b| < 4 || !IsCont(b[3]) then 3
    else 4
  }

  /** The character a well-formed multi-byte sequence stands for. */
  function CodePoint(b: seq<Byte>, n: nat): char
    requires 2 <= n <= 4 && |b| >= n && SeqLen(b[0]) == n && GoodLen(b, n) == n
  {
    var b0, b1 := b[0] as int, b[1] as int;
    if n == 2 then ((b0 - 0xC0) * 64 + (b1 - 0x80)) as char
    else
      var b2 := b[2] as int;
      if n == 3 then ((b0 - 0xE0) * 4096 + (b1 - 0x80) * 64 + (b2 - 0x80)) as char
      else ((b0 - 0xF0) * 262144 + (b1 - 0x80) * 4096 + (b2 - 0x80) * 64 + (b[3] as int - 0x80)) as char
  }

  /** `bytes.decode('utf-8', 'replace')`: each maximal ill-formed part
      becomes one U+FFFD. */
  function Decode(b: seq<Byte>): (s: string)
    ensures |s| <= |b|
    decreases |b|
  {
    if b == [] then []
    else
      var n := SeqLen(b[0]);
      if n == 1 then [b[0] as char] + Decode(b[1..])
      else if n == 0 then [Replacement] + Decode(b[1..])
      else
        var k := GoodLen(b, n);
        if k == n then [CodePoint(b, n)] + Decode(b[n..])
        else [Replacement] + Decode(b[k..])
  }

  /** Decoding one encoded character. */
  lemma DecodeChar(c: char, rest: seq<Byte>)
    ensures Decode(Utf8Char(c) + rest) == [c] + Decode(rest)
  {
    var n := c as int;
    if n < 0x80 {
      assert (Utf8Char(c) + rest)[1..] == rest;
    } else if n < 0x800 {
      DecodeChar2(c, rest);
    } else if n < 0x10000 {
      DecodeChar3(c, rest);
    } else {
      DecodeChar4(c, rest);
    }
  }

  lemma DecodeChar2(c: char, rest: seq<Byte>)
    requires 0x80 <= c as int < 0x800
    ensures Decode(Utf8Char(c) + rest) == [c] + Decode(rest)
  {
    var n := c as int;
    var b := Utf8Char(c) + rest;
    assert b[0] == 0xC0 + n / 64 && b[1] == 0x80 + n % 64;
    assert SeqLen(b[0]) == 2 && GoodLen(b, 2) == 2;
    assert CodePoint(b, 2) == c;
    assert b[2..] == rest;
  }

  lemma DecodeChar3(c: char, rest: seq<Byte>)
    requires 0x800 <= c as int < 0x10000
    ensures Decode(Utf8Char(c) + rest) == [c] + Decode(rest)
  {
    var n := c as int;
    var b := Utf8Char(c) + rest;
    var q, m := n / 64, n % 64;
    assert n == q * 64 + m;
    assert q / 64 == n / 4096 by {
      DivDiv(n, 64, 64);
    }
    assert q == (q / 64) * 64 + q % 64;
    assert b[0] == 0xE0 + q / 64 && b[1] == 0x80 + q % 64 && b[2] == 0x80 + m;
    assert SeqLen(b[0]) == 3 && GoodLen(b, 3) == 3;
    assert CodePoint(b, 3) == c;
    assert b[3..] == rest;
  }

  lemma DecodeChar4(c: char, rest: seq<Byte>)
    requires 0x10000 <= c as int
    ensures Decode(Utf8Char(c) + rest) == [c] + Decode(rest)
  {
    var n := c as int;
    var b := Utf8Char(c) + rest;
    var q, m := n / 64, n % 64;
    var q2 := q / 64;
    assert n == q * 64 + m;
    assert q == q2 * 64 + q % 64;
    assert q2 == n / 4096 by {
      DivDiv(n, 64, 64);
    }
    assert q2 == (q2 / 64) * 64 + q2 % 64;
    assert q2 / 64 == n / 262144 by {
      DivDiv(n, 4096, 64);
    }
    assert b[0] == 0xF0 + q2 / 64 && b[1] == 0x80 + q2 % 64;
    assert b[2] == 0x80 + q % 64 && b[3] == 0x80 + m;
    assert SeqLen(b[0]) == 4 && GoodLen(b, 4) == 4;
    assert CodePoint(b, 4) == c;
    assert b[4..] == rest;
  }

  lemma DivDiv(n: nat, a: nat, b: nat)
    requires (a == 64 || a == 4096) && b == 64
    ensures n / a / b == n / (a * b)
  {
    var q := n / a;
    var r := q / b;
    var m := (q % b) * a + n % a;
    assert n == r * (a * b) + m;
    assert 0 <= m < a * b;
  }

  /** UTF-8 decoding inverts UTF-8 encoding. */
  lemma {:induction false} DecodeUtf8(s: string)
    ensures Decode(Utf8(s)) == s
  {
    if s != [] {
      DecodeChar(s[0], Utf8(s[1..]));
      DecodeUtf8(s[1..]);
    }
  }

  // ---- quote ----

  /** Section 2.3 of RFC 3986: ASCII letters, digits and `-._~`. */
  predicate Unreserved(b: int) {
    ('A' as int <= b <= 'Z' as int) || ('a' as int <= b <= 'z' as int) || ('0' as int <= b <= '9' as int) ||
    b == '-' as int || b == '.' as int || b == '_' as int || b == '~' as int
  }

  /** The bytes `quote` leaves as they are, with its default `safe='/'`. */
  predicate Safe(b: Byte) {
    Unreserved(b) || b == '/' as int
  }

  const HexUpper: string := "0123456789ABCDEF"

  /** The upper-case hex digit of `d`. */
  function HexDigit(d: nat): (c: char)
    requires d < 16
    ensures IsUpperHex(c) && HexValue(c) == d
  {
    HexUpper[d]
  }

  /** `%XX` with two upper-case hex digits (section 2.1 of RFC 3986). */
  function Escape(b: Byte): (r: string)
    ensures |r| == 3 && r[0] == '%' && IsUpperHex(r[1]) && IsUpperHex(r[2])
  {
    ['%', HexDigit(b / 16), HexDigit(b % 16)]
  }

  /** The characters `quote` writes: unreserved ones, `/` and `%`. */
  predicate QuotedChar(c: char) {
    Unreserved(c as int) || c == '/' || c == '%'
  }

  /** How `quote` writes one byte. */
  function QuoteByte(b: Byte): (r: string)
    ensures 1 <= |r|
    ensures forall k :: 0 <= k < |r| ==> QuotedChar(r[k])
  {
    if Safe(b) then [b as char] else Escape(b)
  }

  function QuoteBytes(b: seq<Byte>): (r: string)
    ensures |r| >= |b|
    ensures forall k :: 0 <= k < |r| ==> QuotedChar(r[k])
  {
    if b == [] then "" else QuoteByte(b[0]) + QuoteBytes(b[1..])
  }

  /** `urllib.parse.quote(s)`: UTF-8 encode, then escape every byte that
      is not safe. What it writes is plain ASCII: unreserved characters,
      `/` and the `%` of the escapes. */
  function Quote(s: string): (r: string)
    ensures forall k :: 0 <= k < |r| ==> QuotedChar(r[k])
  {
    QuoteBytes(Utf8(s))
  }

  // ---- unquote ----

  predicate IsHex(c: char) {
    IsUpperHex(c) || 'a' <= c <= 'f'
  }

  /** The digits `quote` writes. */
  predicate IsUpperHex(c: char) {
    '0' <= c <= '9' || 'A' <= c <= 'F'
  }

  function HexValue(c: char): (v: nat)
    requires IsHex(c)
    ensures v < 16
  {
    if '0' <= c <= '9' then c as int - '0' as int
    else if 'A' <= c <= 'F' then c as int - 'A' as int + 10
    else c as int - 'a' as int + 10
  }

  /** The bytes `unquote` decodes: every `%` followed by two hex digits
      becomes the byte they spell, every other character (a lone `%`
      included) contributes its UTF-8 encoding. */
  function PercentBytes(s: string): (b: seq<Byte>)
    decreases |s|
  {
    if s == [] then []
    else if s[0] == '%' && |s| >= 3 && IsHex(s[1]) && IsHex(s[2]) then
      [HexValue(s[1]) * 16 + HexValue(s[2])] + PercentBytes(s[3..])
    else Utf8Char(s[0]) + PercentBytes(s[1..])
  }

  /** `urllib.parse.unquote(s)`: a string without `%` comes back as it
      is, any other is percent-decoded to bytes and UTF-8 decoded. The
      shortcut gives what decoding would. */
  function Unquote(s: string): (r: string)
    ensures r == Decode(PercentBytes(s))
  {
    if '%' !in s then
      PercentBytesPlain(s);
      DecodeUtf8(s);
      s
    else Decode(PercentBytes(s))
  }

  /** Without `%`, percent-decoding is plain UTF-8 encoding. */
  lemma {:induction false} PercentBytesPlain(s: string)
    requires '%' !in s
    ensures PercentBytes(s) == Utf8(s)
  {
    if s != [] {
      assert '%' !in s[1..];
      PercentBytesPlain(s[1..]);
    }
  }

  /** Percent-decoding the quoted bytes gives them back. */
  lemma {:induction false} PercentBytesQuote(b: seq<Byte>)
    ensures PercentBytes(QuoteBytes(b)) == b
  {
    if b != [] {
      PercentBytesQuote(b[1..]);
      PercentBytesQuoteByte(b[0], QuoteBytes(b[1..]));
    }
  }

  lemma PercentBytesQuoteByte(b: Byte, rest: string)
    ensures PercentBytes(QuoteByte(b) + rest) == [b] + PercentBytes(rest)
  {
    if Safe(b) {
      PercentBytesSafe(b, rest);
    } else {
      PercentBytesEscape(b, rest);
    }
  }

  lemma PercentBytesSafe(b: Byte, rest: string)
    requires Safe(b)
    ensures PercentBytes([b as char] + rest) == [b] + PercentBytes(rest)
  {
    var t := [b as char] + rest;
    assert b < 0x80 && b != '%' as int;
    assert t[0] == b as char && t[1..] == rest;
    assert Utf8Char(t[0]) == [b];
  }

  lemma PercentBytesEscape(b: Byte, rest: string)
    ensures PercentBytes(Escape(b) + rest) == [b] + PercentBytes(rest)
  {
    var x, y := HexDigit(b / 16), HexDigit(b % 16);
    var v := HexValue(x) * 16 + HexValue(y);
    assert v == b;
    assert Escape(b) == ['%', x, y];
    PercentBytesTriple(x, y, rest);
    assert [v] == [b];
  }

  /** A `%` followed by two hex digits is one byte. */
  lemma PercentBytesTriple(x: char, y: char, rest: string)
    requires IsHex(x) && IsHex(y)
    ensures PercentBytes(['%', x, y] + rest) == [HexValue(x) * 16 + HexValue(y)] + PercentBytes(rest)
  {
    var t := ['%', x, y] + rest;
    assert t[0] == '%' && t[1] == x && t[2] == y && t[3..] == rest;
  }

  /** `unquote(quote(s)) == s`. */
  lemma UnquoteQuote(s: string)
    ensures Unquote(Quote(s)) == s
  {
    PercentBytesQuote(Utf8(s));
    DecodeUtf8(s);
  }

  /** A string of unreserved characters is quoted as itself. */
  lemma {:induction false} QuoteUnreserved(s: string)
    requires forall i :: 0 <= i < |s| ==> Unreserved(s[i] as int)
    ensures Quote(s) == s
  {
    if s != [] {
      QuoteUnreserved(s[1..]);
      assert Utf8Char(s[0]) == [s[0] as int];
    }
  }

  /** Quoting introduces no `/`. */
  lemma QuoteNoSlash(s: string)
    requires '/' !in s
    ensures '/' !in Quote(s)
  {
    Utf8NoSlash(s);
    QuoteBytesNoSlash(Utf8(s));
  }

  lemma {:induction false} Utf8NoSlash(s: string)
    requires '/' !in s
    ensures '/' as int !in Utf8(s)
  {
    if s != [] {
      assert '/' !in s[1..];
      Utf8NoSlash(s[1..]);
    }
  }

  lemma {:induction false} QuoteBytesNoSlash(b: seq<Byte>)
    requires '/' as int !in b
    ensures '/' !in QuoteBytes(b)
  {
    if b != [] {
      assert '/' as int !in b[1..];
      QuoteBytesNoSlash(b[1..]);
      QuoteByteNoSlash(b[0]);
      assert QuoteBytes(b) == QuoteByte(b[0]) + QuoteBytes(b[1..]);
    }
  }

  lemma QuoteByteNoSlash(b: Byte)
    requires b != '/' as int
    ensures '/' !in QuoteByte(b)
  {
    if !Safe(b) {
      var e := Escape(b);
      assert e == [e[0], e[1], e[2]];
    }
  }
}
