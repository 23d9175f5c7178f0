/**
 * UTF-8 as Node.js applies it when a string becomes a Buffer (`Buffer.from(text)`) and
 * when a Buffer becomes a string (`buffer.toString('utf-8')`).
 */
module Utf8 {
  import opened Basics

  /** The one to four bytes of a Unicode scalar value. */
  function EncodeChar(c: char): (bs: seq<Byte>)
    ensures 1 <= |bs| <= 4
    ensures (bs[0] < 0x80) == (|bs| == 1) == (c as int < 0x80)
  {
    var n := c as int;
    if n < 0x80 then [n]
    else if n < 0x800 then [0xC0 + n / 64, 0x80 + n % 64]
    else if n < 0x10000 then [0xE0 + n / 4096, 0x80 + (n / 64) % 64, 0x80 + n % 64]
    else [0xF0 + n / 0x40000, 0x80 + (n / 4096) % 64, 0x80 + (n / 64) % 64, 0x80 + n % 64]
  }

  /** The UTF-8 form of a string. */
  function Encode(s: string): seq<Byte> {
    if s == [] then [] else EncodeChar(s[0]) + Encode(s[1..])
  }

  /** A byte 10xxxxxx that continues a multi-byte sequence. */
  predicate IsContinuation(b: Byte) {
    0x80 <= b < 0xC0
  }

  /** The six payload bits of a continuation byte. */
  function Low(b: Byte): int
    requires IsContinuation(b)
  {
    b as int - 0x80
  }

  /** U+FFFD, which the decoder writes in place of a byte it cannot use. */
  const Replacement: char := '\U{FFFD}'

  /** Whether a number is a Unicode scalar value (a code point that is not a surrogate). */
  predicate IsScalar(n: int) {
    0 <= n < 0xD800 || 0xE000 <= n < 0x11_0000
  }

  /**
   * The character at the start of a byte sequence and the number of bytes it takes. A
   * sequence that is not the shortest well-formed encoding of a scalar value yields U+FFFD
   * for its first byte.
   */
  function DecodeFirst(bs: seq<Byte>): (r: (char, nat))
    requires |bs| > 0
    ensures 1 <= r.1 <= |bs|
  {
    var b0: int := bs[0];
    if b0 < 0x80 then (b0 as char, 1)
    else if 0xC2 <= b0 < 0xE0 && |bs| >= 2 && IsContinuation(bs[1]) then
      (((b0 - 0xC0) * 64 + Low(bs[1])) as char, 2)
    else if 0xE0 <= b0 < 0xF0 && |bs| >= 3 && IsContinuation(bs[1]) && IsContinuation(bs[2]) then
      var n := (b0 - 0xE0) * 4096 + Low(bs[1]) * 64 + Low(bs[2]);
      if 0x800 <= n && IsScalar(n) then (n as char, 3) else (Replacement, 1)
    else if 0xF0 <= b0 < 0xF5 && |bs| >= 4 && IsContinuation(bs[1]) && IsContinuation(bs[2]) && IsContinuation(bs[3]) then
      var n := (b0 - 0xF0) * 0x40000 + Low(bs[1]) * 4096 + Low(bs[2]) * 64 + Low(bs[3]);
      if 0x1_0000 <= n && IsScalar(n) then (n as char, 4) else (Replacement, 1)
    else (Replacement, 1)
  }

  /** The string a byte sequence decodes to. */
  function Decode(bs: seq<Byte>): string
    decreases |bs|
  {
    if bs == [] then [] else
      var (c, k) := DecodeFirst(bs);
      [c] + Decode(bs[k..])
  }

  /** The two-byte case of `DecodeFirstEncodeChar`. */
  lemma {:induction false} DecodeFirstTwoBytes(c: char, rest: seq<Byte>)
    requires 0x80 <= c as int < 0x800
    ensures DecodeFirst(EncodeChar(c) + rest) == (c, 2)
  {
    var n := c as int;
    var bs := EncodeChar(c) + rest;
    assert bs[0] == 0xC0 + n / 64 && bs[1] == 0x80 + n % 64;
  }

  /** The three-byte case of `DecodeFirstEncodeChar`. */
  lemma {:induction false} DecodeFirstThreeBytes(c: char, rest: seq<Byte>)
    requires 0x800 <= c as int < 0x10000
    ensures DecodeFirst(EncodeChar(c) + rest) == (c, 3)
  {
    var n := c as int;
    var bs := EncodeChar(c) + rest;
    assert bs[0] == 0xE0 + n / 4096 && bs[1] == 0x80 + (n / 64) % 64 && bs[2] == 0x80 + n % 64;
    assert n / 4096 == (n / 64) / 64;
  }

  /** The four-byte case of `DecodeFirstEncodeChar`. */
  lemma {:induction false} DecodeFirstFourBytes(c: char, rest: seq<Byte>)
    requires 0x10000 <= c as int
    ensures DecodeFirst(EncodeChar(c) + rest) == (c, 4)
  {
    var n := c as int;
    var bs := EncodeChar(c) + rest;
    assert bs[0] == 0xF0 + n / 0x40000 && bs[1] == 0x80 + (n / 4096) % 64;
    assert bs[2] == 0x80 + (n / 64) % 64 && bs[3] == 0x80 + n % 64;
    assert n / 4096 == (n / 64) / 64;
    assert n / 0x40000 == (n / 4096) / 64;
  }

  /** The decoder reads back exactly the bytes the encoder wrote for one character. */
  lemma {:induction false} DecodeFirstEncodeChar(c: char, rest: seq<Byte>)
    ensures DecodeFirst(EncodeChar(c) + rest) == (c, |EncodeChar(c)|)
  {
    var n := c as int;
    if n < 0x80 {
    } else if n < 0x800 {
      DecodeFirstTwoBytes(c, rest);
    } else if n < 0x10000 {
      DecodeFirstThreeBytes(c, rest);
    } else {
      DecodeFirstFourBytes(c, rest);
    }
  }

  /** Decoding the UTF-8 form of a string gives the string back. */
  lemma {:induction false} DecodeEncode(s: string)
    ensures Decode(Encode(s)) == s
  {
    if s != [] {
      var e := EncodeChar(s[0]);
      var bs := Encode(s);
      assert bs == e + Encode(s[1..]);
      DecodeFirstEncodeChar(s[0], Encode(s[1..]));
      assert bs[|e|..] == Encode(s[1..]);
      DecodeEncode(s[1..]);
      assert [s[0]] + s[1..] == s;
    }
  }
}
