/** `Uri.EscapeDataString` and `Uri.UnescapeDataString`: percent-encoding of
    section 2.1 of RFC 3986 over the UTF-8 bytes of a string. Every character
    outside the unreserved set of section 2.3 is escaped; decoding turns each
    escape (or run of escapes forming one UTF-8 character) back into its
    character and leaves anything else, including malformed escapes, as it is. */
module UriEscaping {
  import opened Wrappers
  import opened Encoding

  /** The unreserved characters of section 2.3 of RFC 3986. */
  predicate IsUnreserved(c: char) {
    'A' <= c <= 'Z' || 'a' <= c <= 'z' || '0' <= c <= '9' || c == '-' || c == '.' || c == '_' || c == '~'
  }

  /** `%XX` with upper-case hexadecimal digits for one byte. */
  function PercentByte(b: byte): (r: string)
    ensures |r| == 3 && r[0] == '%' && IsUnreserved(r[1]) && IsUnreserved(r[2])
  {
    ['%', HexDigitUpper(b / 16), HexDigitUpper(b % 16)]
  }

  function PercentBytes(b: seq<byte>): (r: string)
    ensures |r| == 3 * |b|
    ensures forall k :: 0 <= k < |r| ==> IsUnreserved(r[k]) || r[k] == '%'
  {
    if b == [] then [] else PercentByte(b[0]) + PercentBytes(b[1..])
  }

  function EscapeChar(c: char): (r: string)
    ensures r != []
    ensures forall k :: 0 <= k < |r| ==> IsUnreserved(r[k]) || r[k] == '%'
  {
    if IsUnreserved(c) then [c] else PercentBytes(Utf8Char(c))
  }

  /** `Uri.EscapeDataString`: its result holds only unreserved characters and `%`,
      so in particular never a `/`. */
  function Escape(s: string): (r: string)
    ensures forall k :: 0 <= k < |r| ==> IsUnreserved(r[k]) || r[k] == '%'
    ensures '/' !in r && '\\' !in r
  {
    if s == [] then [] else EscapeChar(s[0]) + Escape(s[1..])
  }

  /** A string made only of unreserved characters is its own escape. */
  lemma {:induction false} EscapeUnreserved(s: string)
    requires forall k :: 0 <= k < |s| ==> IsUnreserved(s[k])
    ensures Escape(s) == s
  {
    if s != [] {
      EscapeUnreserved(s[1..]);
    }
  }

  lemma EscapeAppend(a: string, b: string)
    ensures Escape(a + b) == Escape(a) + Escape(b)
  {
    if a == [] {
      assert a + b == b;
    } else {
      assert (a + b)[0] == a[0] && (a + b)[1..] == a[1..] + b;
      EscapeAppend(a[1..], b);
      assert Escape(a + b) == EscapeChar(a[0]) + (Escape(a[1..]) + Escape(b));
    }
  }

  // ---------------------------------------------------------------------
  // Decoding

  /** The byte escaped as `%XX` at position `i`, if there is one. */
  function EscapedByte(s: string, i: nat): (r: Option<byte>)
  {
    if i + 3 <= |s| && s[i] == '%' && IsHexDigit(s[i + 1]) && IsHexDigit(s[i + 2])
    then Some(HexValue(s[i + 1]) * 16 + HexValue(s[i + 2]))
    else None
  }

  /** The escaped continuation byte at position `i`, as its six payload bits. */
  function Continuation(s: string, i: nat): (r: Option<int>)
    ensures r.Some? ==> 0 <= r.value < 64
  {
    var b := EscapedByte(s, i);
    if b.Some? && 0x80 <= b.value < 0xC0 then Some(b.value - 0x80) else None
  }

  predicate IsScalar(n: int) {
    0 <= n < 0xD800 || 0xE000 <= n < 0x11_0000
  }

  /** Decodes one escaped character (one to four escaped bytes) at the start of `s`:
      the character and the number of input characters it spans. */
  function DecodeAt(s: string): (r: Option<(char, nat)>)
    ensures r.Some? ==> 3 <= r.value.1 <= |s|
  {
    var b0 := EscapedByte(s, 0);
    if b0.None? then None
    else if b0.value < 0x80 then Some((b0.value as char, 3))
    else if 0xC0 <= b0.value < 0xE0 then
      var c1 := Continuation(s, 3);
      if c1.None? then None
      else
        var n := (b0.value - 0xC0) * 64 + c1.value;
        if 0x80 <= n then Some((n as char, 6)) else None
    else if 0xE0 <= b0.value < 0xF0 then
      var c1, c2 := Continuation(s, 3), Continuation(s, 6);
      if c1.None? || c2.None? then None
      else
        var n := (b0.value - 0xE0) * 4096 + c1.value * 64 + c2.value;
        if 0x800 <= n && IsScalar(n) then Some((n as char, 9)) else None
    else if 0xF0 <= b0.value < 0xF8 then
      var c1, c2, c3 := Continuation(s, 3), Continuation(s, 6), Continuation(s, 9);
      if c1.None? || c2.None? || c3.None? then None
      else
        var n := (b0.value - 0xF0) * 262144 + c1.value * 4096 + c2.value * 64 + c3.value;
        if 0x1_0000 <= n && IsScalar(n) then Some((n as char, 12)) else None
    else None
  }

  /** `Uri.UnescapeDataString`. */
  function Unescape(s: string): (r: string)
    ensures |r| <= |s|
    decreases |s|
  {
    if s == [] then []
    else
      var d := DecodeAt(s);
      if d.Some? then [d.value.0] + Unescape(s[d.value.1..])
      else [s[0]] + Unescape(s[1..])
  }

  /** A string with no `%` is left unchanged by decoding. */
  lemma {:induction false} UnescapeNoPercent(s: string)
    requires '%' !in s
    ensures Unescape(s) == s
  {
    if s != [] {
      UnescapeNoPercent(s[1..]);
    }
  }

  /** An escaped dot decodes to a dot: `/%2E%2E` followed by text without escapes decodes to `/..` and that text. */
  lemma UnescapeEncodedDots(rest: string)
    requires '%' !in rest
    ensures Unescape("/%2E%2E" + rest) == "/.." + rest
  {
    var s := "/%2E%2E" + rest;
    var t, u := s[1..], s[4..];
    assert t == "%2E%2E" + rest && u == "%2E" + rest && u[3..] == rest && t[3..] == u;
    assert DecodeAt(s) == None;
    assert DecodeAt(t) == Some(('.', 3)) by {
      assert EscapedByte(t, 0) == Some(46);
    }
    assert DecodeAt(u) == Some(('.', 3)) by {
      assert EscapedByte(u, 0) == Some(46);
    }
    UnescapeNoPercent(rest);
    assert Unescape(u) == "." + rest;
    assert Unescape(t) == ".." + rest;
  }

  lemma PercentByteValue(b: byte, rest: string)
    ensures EscapedByte(PercentByte(b) + rest, 0) == Some(b)
  {
    HexDigitUpperValue(b / 16);
    HexDigitUpperValue(b % 16);
  }

  /** The escape of one character decodes back to that character. */
  lemma DecodeEscapeChar(c: char, rest: string)
    requires !IsUnreserved(c)
    ensures DecodeAt(EscapeChar(c) + rest) == Some((c, |EscapeChar(c)|))
  {
    var n := c as int;
    assert EscapeChar(c) == PercentBytes(Utf8Char(c));
    if n < 0x80 {
      PercentBytesAt(Utf8Char(c), 0, rest);
    } else if n < 0x800 {
      DecodeEscapeTwo(c, rest);
    } else if n < 0x1_0000 {
      DecodeEscapeThree(c, rest);
    } else {
      DecodeEscapeFour(c, rest);
    }
  }

  lemma DecodeEscapeTwo(c: char, rest: string)
    requires 0x80 <= c as int < 0x800
    ensures DecodeAt(PercentBytes(Utf8Char(c)) + rest) == Some((c, 6))
  {
    var b, n := Utf8Char(c), c as int;
    assert b == [0xC0 + n / 64, 0x80 + n % 64];
    PercentBytesAt(b, 0, rest);
    PercentBytesAt(b, 1, rest);
    DecodeTwo(PercentBytes(b) + rest, n);
  }

  lemma DecodeEscapeThree(c: char, rest: string)
    requires 0x800 <= c as int < 0x1_0000
    ensures DecodeAt(PercentBytes(Utf8Char(c)) + rest) == Some((c, 9))
  {
    var b, n := Utf8Char(c), c as int;
    assert b == [0xE0 + n / 4096, 0x80 + (n / 64) % 64, 0x80 + n % 64];
    PercentBytesAt(b, 0, rest);
    PercentBytesAt(b, 1, rest);
    PercentBytesAt(b, 2, rest);
    DecodeThree(PercentBytes(b) + rest, n);
  }

  lemma DecodeEscapeFour(c: char, rest: string)
    requires 0x1_0000 <= c as int
    ensures DecodeAt(PercentBytes(Utf8Char(c)) + rest) == Some((c, 12))
  {
    var b, n := Utf8Char(c), c as int;
    assert b == [0xF0 + n / 262144, 0x80 + (n / 4096) % 64, 0x80 + (n / 64) % 64, 0x80 + n % 64];
    PercentBytesAt(b, 0, rest);
    PercentBytesAt(b, 1, rest);
    PercentBytesAt(b, 2, rest);
    PercentBytesAt(b, 3, rest);
    DecodeFour(PercentBytes(b) + rest, n);
  }

  lemma DecodeTwo(s: string, n: int)
    requires 0x80 <= n < 0x800
    requires EscapedByte(s, 0) == Some(0xC0 + n / 64)
    requires EscapedByte(s, 3) == Some(0x80 + n % 64)
    ensures DecodeAt(s) == Some((n as char, 6))
  {
    assert n == (n / 64) * 64 + n % 64;
  }

  /** Taking six bits off twice is taking twelve bits off; likewise for eighteen. */
  lemma SixBitGroups(n: nat)
    ensures n / 4096 == (n / 64) / 64
    ensures n / 262144 == (n / 4096) / 64
  {
    var q1, r1 := n / 64, n % 64;
    var q2, r2 := q1 / 64, q1 % 64;
    assert n == 4096 * q2 + (64 * r2 + r1);
    assert 0 <= 64 * r2 + r1 < 4096;
    var q3, r3 := q2 / 64, q2 % 64;
    assert n == 262144 * q3 + (4096 * r3 + 64 * r2 + r1);
    assert 0 <= 4096 * r3 + 64 * r2 + r1 < 262144;
  }

  lemma DecodeThree(s: string, n: int)
    requires 0x800 <= n < 0x1_0000 && IsScalar(n)
    requires EscapedByte(s, 0) == Some(0xE0 + n / 4096)
    requires EscapedByte(s, 3) == Some(0x80 + (n / 64) % 64)
    requires EscapedByte(s, 6) == Some(0x80 + n % 64)
    ensures DecodeAt(s) == Some((n as char, 9))
  {
    SixBitGroups(n);
    var q1 := n / 64;
    assert q1 == (q1 / 64) * 64 + q1 % 64;
    assert n == q1 * 64 + n % 64;
    assert (n / 4096) * 4096 + ((n / 64) % 64) * 64 + n % 64 == n;
  }

  lemma DecodeFour(s: string, n: int)
    requires 0x1_0000 <= n < 0x11_0000
    requires EscapedByte(s, 0) == Some(0xF0 + n / 262144)
    requires EscapedByte(s, 3) == Some(0x80 + (n / 4096) % 64)
    requires EscapedByte(s, 6) == Some(0x80 + (n / 64) % 64)
    requires EscapedByte(s, 9) == Some(0x80 + n % 64)
    ensures DecodeAt(s) == Some((n as char, 12))
  {
    SixBitGroups(n);
    var q1, q2 := n / 64, n / 4096;
    assert q2 == (q2 / 64) * 64 + q2 % 64;
    assert q1 == (q1 / 64) * 64 + q1 % 64;
    assert n == q1 * 64 + n % 64;
    assert (n / 262144) * 262144 + ((n / 4096) % 64) * 4096 + ((n / 64) % 64) * 64 + n % 64 == n;
  }

  lemma {:induction false} PercentBytesAt(b: seq<byte>, k: nat, rest: string)
    requires k < |b|
    ensures EscapedByte(PercentBytes(b) + rest, 3 * k) == Some(b[k])
  {
    var s := PercentBytes(b) + rest;
    if k == 0 {
      PercentByteValue(b[0], PercentBytes(b[1..]) + rest);
      assert s == PercentByte(b[0]) + (PercentBytes(b[1..]) + rest);
    } else {
      PercentBytesAt(b[1..], k - 1, rest);
      var t := PercentBytes(b[1..]) + rest;
      assert s == PercentByte(b[0]) + t;
      EscapedByteShift(PercentByte(b[0]), t, 3 * (k - 1));
    }
  }

  /** An escape read three characters further into `p + t` is the escape read in `t`. */
  lemma EscapedByteShift(p: string, t: string, i: nat)
    requires |p| == 3
    ensures EscapedByte(p + t, i + 3) == EscapedByte(t, i)
  {
    var s := p + t;
    if i + 3 <= |t| {
      assert s[i + 3] == t[i] && s[i + 4] == t[i + 1] && s[i + 5] == t[i + 2];
    }
  }

  /** Decoding undoes `EscapeDataString`: the escape of a string decodes back to it. */
  lemma {:induction false} UnescapeEscape(s: string)
    ensures Unescape(Escape(s)) == s
  {
    if s != [] {
      var e := EscapeChar(s[0]);
      var rest := Escape(s[1..]);
      assert Escape(s) == e + rest;
      UnescapeEscape(s[1..]);
      if IsUnreserved(s[0]) {
        assert (e + rest)[1..] == rest;
      } else {
        DecodeEscapeChar(s[0], rest);
        assert (e + rest)[|e|..] == rest;
      }
    }
  }

  /** So escaping never maps two strings to the same text. */
  lemma EscapeInjective(a: string, b: string)
    requires Escape(a) == Escape(b)
    ensures a == b
  {
    UnescapeEscape(a);
    UnescapeEscape(b);
  }
}
