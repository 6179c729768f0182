/**
 * Percent-encoding of bytes (section 2.1 of RFC 3986: "%" and two upper-case hex digits) and the
 * percent-decoding of section 1.3 of the WHATWG URL Standard, optionally preceded by the `+` to
 * space step of the application/x-www-form-urlencoded parser (section 5.1 of that standard).
 */
module Percent {
  import opened Wrappers
  import opened Utf8

  const HexDigits := "0123456789ABCDEF"

  function HexDigit(d: nat): (c: char)
    requires d < 16
  {
    HexDigits[d]
  }

  /** The value of an ASCII hex digit of either case. */
  function HexValue(c: char): (r: Option<nat>)
    ensures r.Some? ==> r.value < 16
  {
    if '0' <= c <= '9' then Some(c as int - '0' as int)
    else if 'A' <= c <= 'F' then Some(c as int - 'A' as int + 10)
    else if 'a' <= c <= 'f' then Some(c as int - 'a' as int + 10)
    else None
  }

  predicate IsHexDigit(c: char)
  {
    HexValue(c).Some?
  }

  lemma HexValueOfDigit(d: nat)
    requires d < 16
    ensures HexValue(HexDigit(d)) == Some(d)
  {
  }

  /** `%XY` for one byte. */
  function PercentByte(b: byte): (t: string)
    ensures |t| == 3 && t[0] == '%' && IsHexDigit(t[1]) && IsHexDigit(t[2])
  {
    HexValueOfDigit(b / 16);
    HexValueOfDigit(b % 16);
    ['%', HexDigit(b / 16), HexDigit(b % 16)]
  }

  function PercentBytes(bs: seq<byte>): string
    decreases |bs|
  {
    if bs == [] then "" else PercentByte(bs[0]) + PercentBytes(bs[1..])
  }

  /**
   * The bytes a server reads from `t`: `%XY` with two hex digits is the byte XY, `+` is the byte
   * 0x20 when `plusAsSpace` (form data) and itself otherwise (a URL query), any other character
   * is its UTF-8 bytes (a `%` not followed by two hex digits included).
   */
  function PercentDecode(t: string, plusAsSpace: bool): seq<byte>
    decreases |t|
  {
    if t == [] then []
    else if t[0] == '+' && plusAsSpace then [0x20] + PercentDecode(t[1..], plusAsSpace)
    else if t[0] == '%' && |t| >= 3 && IsHexDigit(t[1]) && IsHexDigit(t[2]) then
      [HexValue(t[1]).value * 16 + HexValue(t[2]).value] + PercentDecode(t[3..], plusAsSpace)
    else EncodeChar(t[0]) + PercentDecode(t[1..], plusAsSpace)
  }

  /** Decoding one escaped byte gives that byte, whatever follows. */
  lemma PercentDecodeByte(b: byte, x: string, plusAsSpace: bool)
    ensures PercentDecode(PercentByte(b) + x, plusAsSpace) == [b] + PercentDecode(x, plusAsSpace)
  {
    var t := PercentByte(b) + x;
    HexValueOfDigit(b / 16);
    HexValueOfDigit(b % 16);
    assert t[0] == '%' && t[1] == HexDigit(b / 16) && t[2] == HexDigit(b % 16);
    assert t[3..] == x;
    assert (b / 16) * 16 + b % 16 == b;
  }

  /** Percent-decoding undoes percent-encoding byte by byte, whatever follows. */
  lemma {:induction false} PercentDecodeBytes(bs: seq<byte>, rest: string, plusAsSpace: bool)
    ensures PercentDecode(PercentBytes(bs) + rest, plusAsSpace) == bs + PercentDecode(rest, plusAsSpace)
    decreases |bs|
  {
    if bs == [] {
      assert PercentBytes(bs) + rest == rest;
    } else {
      var x := PercentBytes(bs[1..]) + rest;
      assert PercentBytes(bs) + rest == PercentByte(bs[0]) + x;
      PercentDecodeByte(bs[0], x, plusAsSpace);
      PercentDecodeBytes(bs[1..], rest, plusAsSpace);
      ConsAppend(bs, PercentDecode(rest, plusAsSpace));
    }
  }

  lemma ConsAppend(bs: seq<byte>, r: seq<byte>)
    requires |bs| > 0
    ensures [bs[0]] + (bs[1..] + r) == bs + r
  {
    assert [bs[0]] + bs[1..] == bs;
  }
}
