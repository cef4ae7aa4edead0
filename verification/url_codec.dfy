/**
  PHP's `urlencode` and `urldecode`: percent-encoding in the
  application/x-www-form-urlencoded variant (section 17.13.4.1 of HTML 4.01,
  on top of section 2.1 of RFC 3986). Letters, digits, `-`, `_` and `.` pass
  unchanged, a space becomes `+`, and every other byte becomes `%` followed by
  two upper-case hexadecimal digits. Decoding turns `+` back into a space,
  `%` followed by two hexadecimal digits of either case into that byte, and
  copies every other byte, a stray `%` included.
 */
module UrlCodec {
  import opened PhpStrings

  function HexDigits(): Bytes { "0123456789ABCDEF" }

  /** The bytes `urlencode` leaves as they are. */
  predicate IsUnreserved(c: Byte) {
    ('A' <= c <= 'Z') || ('a' <= c <= 'z') || ('0' <= c <= '9') || c == '-' || c == '_' || c == '.'
  }

  /** The only bytes `urlencode` ever writes. */
  predicate IsEncodedByte(c: Byte) {
    IsUnreserved(c) || c == '+' || c == '%'
  }

  predicate IsHexDigit(c: Byte) {
    ('0' <= c <= '9') || ('a' <= c <= 'f') || ('A' <= c <= 'F')
  }

  function HexValue(c: Byte): (v: nat)
    requires IsHexDigit(c)
    ensures v < 16
  {
    if '0' <= c <= '9' then c as int - '0' as int
    else if 'a' <= c <= 'f' then c as int - 'a' as int + 10
    else c as int - 'A' as int + 10
  }

  /** Every upper-case digit `urlencode` writes is read back as the value it was written for. */
  lemma HexDigitValue(n: nat)
    requires n < 16
    ensures IsHexDigit(HexDigits()[n]) && IsUnreserved(HexDigits()[n])
    ensures HexValue(HexDigits()[n]) == n
  {
  }

  function EncodeByte(c: Byte): (r: Bytes)
    ensures 1 <= |r| <= 3
    ensures forall i :: 0 <= i < |r| ==> IsEncodedByte(r[i])
  {
    if c == ' ' then "+"
    else if IsUnreserved(c) then [c]
    else PercentEncoded(c)
  }

  /** `%` and the two upper-case hexadecimal digits of a byte `urlencode` does not leave as it is. */
  function PercentEncoded(c: Byte): (r: Bytes)
    requires c != ' ' && !IsUnreserved(c)
    ensures |r| == 3 && r[0] == '%'
    ensures forall i :: 0 <= i < |r| ==> IsEncodedByte(r[i])
  {
    HexDigitValue(c as int / 16);
    HexDigitValue(c as int % 16);
    ['%', HexDigits()[c as int / 16], HexDigits()[c as int % 16]]
  }

  /** PHP `urlencode`. */
  function UrlEncode(s: Bytes): (r: Bytes)
    ensures |s| <= |r| <= 3 * |s|
    ensures forall i :: 0 <= i < |r| ==> IsEncodedByte(r[i])
  {
    if s == [] then [] else EncodeByte(s[0]) + UrlEncode(s[1..])
  }

  /** PHP `urldecode`. */
  function UrlDecode(s: Bytes): (r: Bytes)
    ensures |r| <= |s|
  {
    if s == [] then []
    else if s[0] == '+' then [' '] + UrlDecode(s[1..])
    else if s[0] == '%' && |s| >= 3 && IsHexDigit(s[1]) && IsHexDigit(s[2]) then
      [(HexValue(s[1]) * 16 + HexValue(s[2])) as char] + UrlDecode(s[3..])
    else [s[0]] + UrlDecode(s[1..])
  }

  lemma {:induction false} UrlEncodeAppend(a: Bytes, b: Bytes)
    ensures UrlEncode(a + b) == UrlEncode(a) + UrlEncode(b)
  {
    if a == [] {
      assert a + b == b;
    } else {
      assert (a + b)[1..] == a[1..] + b;
      UrlEncodeAppend(a[1..], b);
    }
  }

  /** Decoding reads one encoded byte back and goes on with what follows it. */
  lemma DecodeEncodedByte(c: Byte, rest: Bytes)
    ensures UrlDecode(EncodeByte(c) + rest) == [c] + UrlDecode(rest)
  {
    var s := EncodeByte(c) + rest;
    if c == ' ' {
      assert s[1..] == rest;
    } else if IsUnreserved(c) {
      assert s[1..] == rest;
    } else {
      HexDigitValue(c as int / 16);
      HexDigitValue(c as int % 16);
      assert s[3..] == rest;
    }
  }

  /** `urldecode` undoes `urlencode`. */
  lemma {:induction false} UrlDecodeEncode(s: Bytes)
    ensures UrlDecode(UrlEncode(s)) == s
  {
    if s != [] {
      DecodeEncodedByte(s[0], UrlEncode(s[1..]));
      UrlDecodeEncode(s[1..]);
    }
  }

  /** No two strings have the same encoding. */
  lemma UrlEncodeInjective(a: Bytes, b: Bytes)
    requires UrlEncode(a) == UrlEncode(b)
    ensures a == b
  {
    UrlDecodeEncode(a);
    UrlDecodeEncode(b);
  }

  /** A string whose bytes are all unreserved is its own encoding. */
  lemma {:induction false} UrlEncodeUnreserved(s: Bytes)
    requires forall i :: 0 <= i < |s| ==> IsUnreserved(s[i])
    ensures UrlEncode(s) == s
  {
    if s != [] {
      UrlEncodeUnreserved(s[1..]);
    }
  }
}
