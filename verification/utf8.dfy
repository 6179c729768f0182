/**
 * UTF-8, the byte encoding that Foundation percent-escapes and that `data(using: .utf8)` produces.
 * A string is a sequence of Unicode scalar values; each is written as one to four bytes.
 */
module Utf8 {
  import opened Wrappers

  type byte = x: int | 0 <= x < 256

  /** True of the integers that are Unicode scalar values (code points that are not surrogates). */
  predicate IsScalar(n: int)
  {
    0 <= n < 0xD800 || 0xE000 <= n < 0x11_0000
  }

  predicate IsContinuation(b: byte)
  {
    0x80 <= b < 0xC0
  }

  /** The UTF-8 bytes of one scalar value: six payload bits per continuation byte, least significant last. */
  function EncodeChar(c: char): (r: seq<byte>)
    ensures 1 <= |r| <= 4
    ensures |r| == 1 <==> c as int < 0x80
    ensures |r| == 1 ==> r[0] == c as int
    ensures forall i :: 1 <= i < |r| ==> IsContinuation(r[i])
    ensures !(0x80 <= r[0] < 0xC0)
  {
    var n := c as int;
    var n1, r0 := n / 64, n % 64;
    var n2, r1 := n1 / 64, n1 % 64;
    var n3, r2 := n2 / 64, n2 % 64;
    if n < 0x80 then [n]
    else if n < 0x800 then [0xC0 + n1, 0x80 + r0]
    else if n < 0x1_0000 then [0xE0 + n2, 0x80 + r1, 0x80 + r0]
    else [0xF0 + n3, 0x80 + r2, 0x80 + r1, 0x80 + r0]
  }

  /** `string.data(using: .utf8)`. */
  function Encode(s: string): (r: seq<byte>)
    decreases |s|
  {
    if s == [] then [] else EncodeChar(s[0]) + Encode(s[1..])
  }

  /**
   * Reads one scalar value from the front of `b`: the character and the number of bytes it took.
   * Strict, as section 3 of RFC 3629 requires: overlong forms, surrogates and values above
   * U+10FFFF are rejected.
   */
  function DecodeFirst(b: seq<byte>): (r: Option<(char, nat)>)
    requires |b| > 0
    ensures r.Some? ==> 1 <= r.value.1 <= |b|
  {
    var b0: int := b[0];
    if b0 < 0x80 then Some((b0 as char, 1))
    else if 0xC0 <= b0 < 0xE0 && |b| >= 2 && IsContinuation(b[1]) then
      var n: int := (b0 - 0xC0) * 64 + (b[1] - 0x80);
      if IsScalar(n) && n >= 0x80 then Some((n as char, 2)) else None
    else if 0xE0 <= b0 < 0xF0 && |b| >= 3 && IsContinuation(b[1]) && IsContinuation(b[2]) then
      var n: int := ((b0 - 0xE0) * 64 + (b[1] - 0x80)) * 64 + (b[2] - 0x80);
      if IsScalar(n) && n >= 0x800 then Some((n as char, 3)) else None
    else if 0xF0 <= b0 < 0xF8 && |b| >= 4 && IsContinuation(b[1]) && IsContinuation(b[2]) && IsContinuation(b[3]) then
      var n: int := (((b0 - 0xF0) * 64 + (b[1] - 0x80)) * 64 + (b[2] - 0x80)) * 64 + (b[3] - 0x80);
      if IsScalar(n) && n >= 0x1_0000 then Some((n as char, 4)) else None
    else None
  }

  /** Decodes a whole byte sequence; `None` when it is not well-formed UTF-8. */
  function Decode(b: seq<byte>): Option<string>
    decreases |b|
  {
    if b == [] then Some("")
    else match DecodeFirst(b)
      case None => None
      case Some((c, k)) =>
        match Decode(b[k..])
        case None => None
        case Some(rest) => Some([c] + rest)
  }

  /** The overlong two-byte form C0 80 of U+0000 is not accepted. */
  lemma OverlongRejected()
    ensures DecodeFirst([0xC0, 0x80]) == None
    ensures Decode([0xC0, 0x80]) == None
  {
  }

  lemma DecodeFirstEncodeChar(c: char, rest: seq<byte>)
    ensures DecodeFirst(EncodeChar(c) + rest) == Some((c, |EncodeChar(c)|))
  {
    var b := EncodeChar(c) + rest;
    var n := c as int;
    assert IsScalar(n);
    var n1, r0 := n / 64, n % 64;
    var n2, r1 := n1 / 64, n1 % 64;
    var n3, r2 := n2 / 64, n2 % 64;
    assert n == n1 * 64 + r0;
    assert n1 == n2 * 64 + r1;
    assert n2 == n3 * 64 + r2;
    if n < 0x80 {
    } else if n < 0x800 {
      assert b[0] == 0xC0 + n1 && b[1] == 0x80 + r0;
    } else if n < 0x1_0000 {
      assert b[0] == 0xE0 + n2 && b[1] == 0x80 + r1 && b[2] == 0x80 + r0;
    } else {
      assert b[0] == 0xF0 + n3 && b[1] == 0x80 + r2 && b[2] == 0x80 + r1 && b[3] == 0x80 + r0;
    }
  }

  /** Decoding the UTF-8 encoding of a string gives the string back, so the encoding is injective. */
  lemma {:induction false} DecodeEncode(s: string)
    ensures Decode(Encode(s)) == Some(s)
    decreases |s|
  {
    if s != [] {
      var e := EncodeChar(s[0]);
      DecodeFirstEncodeChar(s[0], Encode(s[1..]));
      DecodeEncode(s[1..]);
      assert (e + Encode(s[1..]))[|e|..] == Encode(s[1..]);
      assert [s[0]] + s[1..] == s;
    }
  }

  lemma {:induction false} EncodeAppend(s: string, t: string)
    ensures Encode(s + t) == Encode(s) + Encode(t)
    decreases |s|
  {
    if s == [] {
      assert s + t == t;
    } else {
      assert (s + t)[0] == s[0];
      assert (s + t)[1..] == s[1..] + t;
      EncodeAppend(s[1..], t);
    }
  }
}
