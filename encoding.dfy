/** Option type used across the model. */
module Wrappers {
  datatype Option<+T> = None | Some(value: T)
}

/** Byte-level encodings the server uses: ASCII (headers), UTF-8 (bodies and
    URI escaping), hexadecimal (upload identifiers) and decimal integers
    (`Content-Length`, written by `long.ToString` and read by `int.TryParse`). */
module Encoding {
  import opened Wrappers

  type byte = b: int | 0 <= b < 256

  const QuestionMark: byte := 63

  predicate IsAscii(s: string) {
    forall i :: 0 <= i < |s| ==> (s[i] as int) < 128
  }

  /** `Encoding.ASCII.GetBytes`: a character outside ASCII becomes `?`. */
  function AsciiBytes(s: string): (b: seq<byte>)
    ensures |b| == |s|
    ensures forall i :: 0 <= i < |s| ==> b[i] == if (s[i] as int) < 128 then s[i] as int else QuestionMark
  {
    if s == [] then []
    else [if (s[0] as int) < 128 then s[0] as int else QuestionMark] + AsciiBytes(s[1..])
  }

  /** `Encoding.ASCII.GetString`: a byte above 0x7F becomes `?`. */
  function AsciiString(b: seq<byte>): (s: string)
    ensures |s| == |b| && IsAscii(s)
    ensures forall i :: 0 <= i < |b| ==> s[i] == if b[i] < 128 then b[i] as char else '?'
  {
    if b == [] then []
    else [if b[0] < 128 then b[0] as char else '?'] + AsciiString(b[1..])
  }

  /** ASCII text survives a trip through bytes unchanged. */
  lemma AsciiRoundTrip(s: string)
    requires IsAscii(s)
    ensures AsciiString(AsciiBytes(s)) == s
  {
  }

  lemma AsciiBytesAppend(a: string, b: string)
    ensures AsciiBytes(a + b) == AsciiBytes(a) + AsciiBytes(b)
  {
    var x, y := AsciiBytes(a + b), AsciiBytes(a) + AsciiBytes(b);
    assert |x| == |y|;
    forall i | 0 <= i < |x| ensures x[i] == y[i] {
      if i < |a| {
        assert (a + b)[i] == a[i];
      } else {
        assert (a + b)[i] == b[i - |a|];
      }
    }
  }

  // ---------------------------------------------------------------------
  // UTF-8

  /** The UTF-8 encoding of one Unicode scalar value (section 3 of RFC 3629). */
  function Utf8Char(c: char): (b: seq<byte>)
    ensures 1 <= |b| <= 4
    ensures ((c as int) < 0x80) == (|b| == 1)
    ensures |b| == 1 ==> b[0] == c as int
    ensures |b| > 1 ==> b[0] >= 0xC0 && forall k :: 1 <= k < |b| ==> 0x80 <= b[k] < 0xC0
  {
    var n := c as int;
    if n < 0x80 then [n]
    else if n < 0x800 then [0xC0 + n / 64, 0x80 + n % 64]
    else if n < 0x10000 then [0xE0 + n / 4096, 0x80 + (n / 64) % 64, 0x80 + n % 64]
    else [0xF0 + n / 262144, 0x80 + (n / 4096) % 64, 0x80 + (n / 64) % 64, 0x80 + n % 64]
  }

  /** `Encoding.UTF8.GetBytes`. */
  function Utf8(s: string): (b: seq<byte>)
    ensures |b| >= |s|
  {
    if s == [] then [] else Utf8Char(s[0]) + Utf8(s[1..])
  }

  /** For ASCII text the UTF-8 and ASCII encodings coincide. */
  lemma {:induction false} Utf8OfAscii(s: string)
    requires IsAscii(s)
    ensures Utf8(s) == AsciiBytes(s)
  {
    if s != [] {
      Utf8OfAscii(s[1..]);
      assert AsciiBytes(s) == AsciiBytes(s[..1]) + AsciiBytes(s[1..]) by {
        AsciiBytesAppend(s[..1], s[1..]);
        assert s == s[..1] + s[1..];
      }
    }
  }

  // ---------------------------------------------------------------------
  // Hexadecimal

  predicate IsLowerHexDigit(c: char) {
    '0' <= c <= '9' || 'a' <= c <= 'f'
  }

  /** An upper-case hexadecimal digit, as `Convert.ToHexString` writes it. */
  function HexDigitUpper(d: int): (c: char)
    requires 0 <= d < 16
    ensures ('0' <= c <= '9') || ('A' <= c <= 'F')
  {
    if d < 10 then ('0' as int + d) as char else ('A' as int + d - 10) as char
  }

  /** The two upper-case hexadecimal digits of one byte, high nibble first. */
  function HexPair(x: byte): (s: string)
    ensures |s| == 2
  {
    [HexDigitUpper(x / 16), HexDigitUpper(x % 16)]
  }

  /** `Convert.ToHexString`. */
  function HexUpper(b: seq<byte>): (s: string)
    ensures |s| == 2 * |b|
  {
    if b == [] then [] else HexPair(b[0]) + HexUpper(b[1..])
  }

  /** `ToLowerInvariant` restricted to ASCII letters. */
  function LowerChar(c: char): (l: char)
    ensures !('A' <= l <= 'Z')
  {
    if 'A' <= c <= 'Z' then (c as int + 32) as char else c
  }

  function Lower(s: string): (l: string)
    ensures |l| == |s|
    ensures forall i :: 0 <= i < |s| ==> l[i] == LowerChar(s[i])
  {
    if s == [] then [] else [LowerChar(s[0])] + Lower(s[1..])
  }

  /** The value of a hexadecimal digit of either case. */
  function HexValue(c: char): int
  {
    if '0' <= c <= '9' then c as int - '0' as int
    else if 'a' <= c <= 'f' then c as int - 'a' as int + 10
    else if 'A' <= c <= 'F' then c as int - 'A' as int + 10
    else -1
  }

  predicate IsHexDigit(c: char) {
    HexValue(c) != -1
  }

  lemma HexDigitUpperValue(d: int)
    requires 0 <= d < 16
    ensures HexValue(HexDigitUpper(d)) == d
    ensures HexValue(LowerChar(HexDigitUpper(d))) == d
    ensures IsLowerHexDigit(LowerChar(HexDigitUpper(d)))
  {
  }

  /** Reads back the bytes of a hexadecimal string of either case. */
  function HexDecode(s: string): seq<int>
    requires |s| % 2 == 0
  {
    if s == [] then [] else [HexValue(s[0]) * 16 + HexValue(s[1])] + HexDecode(s[2..])
  }

  lemma LowerAppend(a: string, b: string)
    ensures Lower(a + b) == Lower(a) + Lower(b)
  {
  }

  /** The lower-cased hexadecimal form of bytes is lower-case hex and decodes back to them. */
  lemma LowerHexRoundTrip(b: seq<byte>)
    ensures var h := Lower(HexUpper(b));
            |h| == 2 * |b| && IsLowerHex(h) && HexDecode(h) == b
  {
    LowerHexDigits(b);
    LowerHexDecodes(b);
  }

  predicate IsLowerHex(s: string) {
    forall i :: 0 <= i < |s| ==> IsLowerHexDigit(s[i])
  }

  lemma {:induction false} LowerHexDigits(b: seq<byte>)
    ensures IsLowerHex(Lower(HexUpper(b)))
  {
    if b != [] {
      var pair, rest := Lower(HexPair(b[0])), Lower(HexUpper(b[1..]));
      LowerHexDigits(b[1..]);
      LowerAppend(HexPair(b[0]), HexUpper(b[1..]));
      HexDigitUpperValue(b[0] / 16);
      HexDigitUpperValue(b[0] % 16);
      assert IsLowerHex(pair);
      LowerHexAppend(pair, rest);
    }
  }

  lemma LowerHexAppend(a: string, b: string)
    requires IsLowerHex(a) && IsLowerHex(b)
    ensures IsLowerHex(a + b)
  {
  }

  lemma {:induction false} LowerHexDecodes(b: seq<byte>)
    ensures HexDecode(Lower(HexUpper(b))) == b
  {
    if b != [] {
      var pair, rest := Lower(HexPair(b[0])), Lower(HexUpper(b[1..]));
      LowerHexDecodes(b[1..]);
      LowerAppend(HexPair(b[0]), HexUpper(b[1..]));
      assert (pair + rest)[2..] == rest;
      HexDigitUpperValue(b[0] / 16);
      HexDigitUpperValue(b[0] % 16);
    }
  }

  // ---------------------------------------------------------------------
  // Decimal integers

  predicate IsDigit(c: char) {
    '0' <= c <= '9'
  }

  function DigitChar(d: int): (c: char)
    requires 0 <= d < 10
    ensures IsDigit(c)
  {
    ('0' as int + d) as char
  }

  /** `long.ToString(CultureInfo.InvariantCulture)` for a non-negative value. */
  function DecimalString(n: nat): (s: string)
    ensures s != [] && forall i :: 0 <= i < |s| ==> IsDigit(s[i])
    ensures IsAscii(s)
  {
    if n < 10 then [DigitChar(n)] else DecimalString(n / 10) + [DigitChar(n % 10)]
  }

  /** The value of a non-empty string of decimal digits. */
  function DigitsValue(s: string): nat
    requires forall i :: 0 <= i < |s| ==> IsDigit(s[i])
  {
    if s == [] then 0
    else
      assert IsDigit(s[|s| - 1]);
      DigitsValue(s[..|s| - 1]) * 10 + (s[|s| - 1] as int - '0' as int)
  }

  lemma {:induction false} DecimalStringValue(n: nat)
    ensures DigitsValue(DecimalString(n)) == n
  {
    if n >= 10 {
      DecimalStringValue(n / 10);
      var s := DecimalString(n);
      assert s[..|s| - 1] == DecimalString(n / 10);
    }
  }

  const Int32Max := 0x7FFF_FFFF
  const Int32Min := -0x8000_0000

  /** The white space `NumberStyles.Integer` allows around a number: U+0009..U+000D and space. */
  predicate IsNumberWhite(c: char) {
    '\t' <= c <= '\r' || c == ' '
  }

  function TrimNumberWhite(s: string): (r: string)
    ensures |r| <= |s|
  {
    if s != [] && IsNumberWhite(s[0]) then TrimNumberWhite(s[1..])
    else if s != [] && IsNumberWhite(s[|s| - 1]) then TrimNumberWhite(s[..|s| - 1])
    else s
  }

  /** `s` without the NUL characters at its end. */
  function DropTrailingNuls(s: string): (r: string)
    ensures |r| <= |s| && r == s[..|r|]
    ensures r == [] || r[|r| - 1] != '\0'
    ensures forall i :: |r| <= i < |s| ==> s[i] == '\0'
  {
    if s != [] && s[|s| - 1] == '\0' then DropTrailingNuls(s[..|s| - 1]) else s
  }

  /** `int.TryParse(s, out value)` with the invariant culture: optional white space
      around an optional sign and one or more ASCII digits, within the 32-bit range.
      After the number and its trailing white space, the runtime's number parser also
      accepts any run of NUL characters. */
  function ParseInt32(s: string): (r: Option<int>)
    ensures r.Some? ==> Int32Min <= r.value <= Int32Max
  {
    ParseSignedDigits(TrimNumberWhite(DropTrailingNuls(s)))
  }

  /** An optional sign and one or more ASCII digits, within the 32-bit range. */
  function ParseSignedDigits(t: string): (r: Option<int>)
    ensures r.Some? ==> Int32Min <= r.value <= Int32Max
  {
    var negative := t != [] && t[0] == '-';
    var digits := if t != [] && (t[0] == '-' || t[0] == '+') then t[1..] else t;
    if digits == [] || !(forall i :: 0 <= i < |digits| ==> IsDigit(digits[i])) then None
    else
      var n: int := DigitsValue(digits);
      var v := if negative then -n else n;
      if Int32Min <= v <= Int32Max then Some(v) else None
  }

  /** What the framer writes as `Content-Length` reads back as the same number. */
  lemma DecimalRoundTrip(n: nat)
    requires n <= Int32Max
    ensures ParseInt32(DecimalString(n)) == Some(n)
  {
    DecimalStringValue(n);
    var s := DecimalString(n);
    assert !IsNumberWhite(s[0]) && !IsNumberWhite(s[|s| - 1]);
    assert DropTrailingNuls(s) == s;
    assert TrimNumberWhite(s) == s;
  }

  /** `k` NUL characters. */
  function Nuls(k: nat): (r: string)
    ensures |r| == k && forall i :: 0 <= i < k ==> r[i] == '\0'
  {
    seq(k, _ => '\0')
  }

  /** NUL characters after a number change nothing: `5` followed by NULs reads as 5. */
  lemma ParseInt32IgnoresTrailingNuls(s: string, k: nat)
    ensures ParseInt32(s + Nuls(k)) == ParseInt32(s)
  {
    DropNuls(s, k);
  }

  lemma {:induction false} DropNuls(s: string, k: nat)
    ensures DropTrailingNuls(s + Nuls(k)) == DropTrailingNuls(s)
  {
    if k > 0 {
      var t := s + Nuls(k);
      assert t[..|t| - 1] == s + Nuls(k - 1);
      DropNuls(s, k - 1);
    } else {
      assert s + Nuls(k) == s;
    }
  }

  /** A value `int.TryParse` accepts is never negative when no minus sign is written. */
  lemma ParseInt32Unsigned(s: string)
    requires s != [] && forall i :: 0 <= i < |s| ==> IsDigit(s[i])
    ensures ParseInt32(s) == if DigitsValue(s) <= Int32Max then Some(DigitsValue(s)) else None
  {
    assert s[|s| - 1] != '\0' && !IsNumberWhite(s[0]) && !IsNumberWhite(s[|s| - 1]);
    assert DropTrailingNuls(s) == s;
    assert TrimNumberWhite(s) == s;
    assert s[0] != '-' && s[0] != '+';
  }
}
