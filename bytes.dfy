/**
  Bytes and the two text conversions the ledger's hash goes through:
  `str.encode()` (UTF-8, RFC 3629) on the way into SHA-256 and
  `hexdigest()` (two lower-case hex digits per byte) on the way out.
*/
module Bytes {

  newtype byte = x: int | 0 <= x < 256

  /** Every character is in the 7-bit ASCII range. */
  predicate IsAscii(s: string)
  {
    forall i :: 0 <= i < |s| ==> s[i] as int < 0x80
  }

  /** The UTF-8 bytes of one Unicode scalar value. */
  function Utf8Char(c: char): (r: seq<byte>)
    ensures 1 <= |r| <= 4
    ensures |r| == 1 <==> c as int < 0x80
    ensures r[0] as int < 0x80 <==> |r| == 1
  {
    var n := c as int;
    if n < 0x80 then
      [n as byte]
    else if n < 0x800 then
      [(0xC0 + n / 0x40) as byte, (0x80 + n % 0x40) as byte]
    else if n < 0x10000 then
      [(0xE0 + n / 0x1000) as byte, (0x80 + n / 0x40 % 0x40) as byte, (0x80 + n % 0x40) as byte]
    else
      [(0xF0 + n / 0x40000) as byte, (0x80 + n / 0x1000 % 0x40) as byte,
       (0x80 + n / 0x40 % 0x40) as byte, (0x80 + n % 0x40) as byte]
  }

  /** `s.encode()`: UTF-8, character by character. */
  function Utf8Encode(s: string): (r: seq<byte>)
    ensures |r| >= |s|
  {
    if s == [] then [] else Utf8Char(s[0]) + Utf8Encode(s[1..])
  }

  /** On ASCII text UTF-8 is one byte per character, equal to the code point. */
  lemma {:induction false} Utf8OfAscii(s: string)
    requires IsAscii(s)
    ensures |Utf8Encode(s)| == |s|
    ensures forall i :: 0 <= i < |s| ==> Utf8Encode(s)[i] as int == s[i] as int
  {
    if s != [] {
      Utf8OfAscii(s[1..]);
    }
  }

  /** Two ASCII texts with the same UTF-8 bytes are the same text. */
  lemma Utf8AsciiInjective(s: string, t: string)
    requires IsAscii(s) && IsAscii(t) && Utf8Encode(s) == Utf8Encode(t)
    ensures s == t
  {
    Utf8OfAscii(s);
    Utf8OfAscii(t);
    assert |s| == |t|;
    forall i | 0 <= i < |s| ensures s[i] == t[i] {
      assert s[i] as int == Utf8Encode(s)[i] as int;
    }
  }

  predicate IsHexDigit(c: char)
  {
    '0' <= c <= '9' || 'a' <= c <= 'f'
  }

  predicate IsLowerHex(s: string)
  {
    forall i :: 0 <= i < |s| ==> IsHexDigit(s[i])
  }

  /** The lower-case hex digit for `v`. */
  function HexDigit(v: nat): (c: char)
    requires v < 16
    ensures IsHexDigit(c)
  {
    if v < 10 then ('0' as int + v) as char else ('a' as int + v - 10) as char
  }

  /** The value of a lower-case hex digit. */
  function DigitValue(c: char): (v: nat)
    requires IsHexDigit(c)
    ensures v < 16 && HexDigit(v) == c
  {
    if c <= '9' then c as int - '0' as int else c as int - 'a' as int + 10
  }

  /** `hexdigest()`: each byte as two lower-case hex digits, high nibble first. */
  function LowerHex(bs: seq<byte>): (r: string)
    ensures |r| == 2 * |bs|
    ensures IsLowerHex(r)
  {
    if bs == [] then []
    else [HexDigit(bs[0] as int / 16), HexDigit(bs[0] as int % 16)] + LowerHex(bs[1..])
  }

  /** Reads back what `LowerHex` writes. */
  function FromLowerHex(s: string): (bs: seq<byte>)
    requires |s| % 2 == 0 && IsLowerHex(s)
    ensures 2 * |bs| == |s|
  {
    if s == [] then []
    else [(16 * DigitValue(s[0]) + DigitValue(s[1])) as byte] + FromLowerHex(s[2..])
  }

  lemma {:induction false} LowerHexRoundTrip(bs: seq<byte>)
    ensures FromLowerHex(LowerHex(bs)) == bs
  {
    if bs != [] {
      var s := LowerHex(bs);
      var n := bs[0] as int;
      assert DigitValue(s[0]) == n / 16 && DigitValue(s[1]) == n % 16;
      assert s[2..] == LowerHex(bs[1..]);
      LowerHexRoundTrip(bs[1..]);
    }
  }

  /** Distinct byte strings have distinct hex digests. */
  lemma LowerHexInjective(a: seq<byte>, b: seq<byte>)
    requires LowerHex(a) == LowerHex(b)
    ensures a == b
  {
    LowerHexRoundTrip(a);
    LowerHexRoundTrip(b);
  }
}
