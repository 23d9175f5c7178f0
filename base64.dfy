/**
 * Base 64 as defined in section 4 of RFC 4648, as Node.js applies it in
 * `buffer.toString('base64')` (encoding, with '=' padding) and `Buffer.from(text, 'base64')`
 * (decoding, which skips characters outside the alphabet and stops at the first '=').
 */
module Base64 {
  import opened Basics

  /** A 6-bit group: the index of one character in the alphabet. */
  type Sextet = x: int | 0 <= x < 64

  /**
   * The alphabet of section 4 of RFC 4648:
   * "ABCDEFGHIJKLMNOPQRSTUVWXYZabcdefghijklmnopqrstuvwxyz0123456789+/".
   */
  function SextetChar(x: Sextet): (c: char)
    ensures SextetValue(c) == Some(x)
  {
    if x < 26 then ('A' as int + x) as char
    else if x < 52 then ('a' as int + x - 26) as char
    else if x < 62 then ('0' as int + x - 52) as char
    else if x == 62 then '+'
    else '/'
  }

  /**
   * The value of a character for Node's decoder: the RFC 4648 alphabet, and also '-' and '_'
   * of the URL-safe alphabet; `None` for every other character.
   */
  function SextetValue(c: char): Option<Sextet> {
    if 'A' <= c <= 'Z' then Some(c as int - 'A' as int)
    else if 'a' <= c <= 'z' then Some(c as int - 'a' as int + 26)
    else if '0' <= c <= '9' then Some(c as int - '0' as int + 52)
    else if c == '+' || c == '-' then Some(62)
    else if c == '/' || c == '_' then Some(63)
    else None
  }

  /** Each group of three bytes becomes four sextets; a final group of one or two bytes becomes two or three. */
  function ToSextets(bs: seq<Byte>): (xs: seq<Sextet>)
    ensures |xs| == |bs| / 3 * 4 + (if |bs| % 3 == 0 then 0 else |bs| % 3 + 1)
  {
    if |bs| == 0 then []
    else if |bs| == 1 then [bs[0] / 4, bs[0] % 4 * 16]
    else if |bs| == 2 then [bs[0] / 4, bs[0] % 4 * 16 + bs[1] / 16, bs[1] % 16 * 4]
    else [bs[0] / 4, bs[0] % 4 * 16 + bs[1] / 16, bs[1] % 16 * 4 + bs[2] / 64, bs[2] % 64] + ToSextets(bs[3..])
  }

  /** The inverse regrouping: four sextets give three bytes, a final three give two, a final two give one. */
  function FromSextets(xs: seq<Sextet>): seq<Byte> {
    if |xs| < 2 then []
    else
      var a: int, b: int := xs[0], xs[1];
      if |xs| == 2 then [a * 4 + b / 16]
      else
        var c: int := xs[2];
        if |xs| == 3 then [a * 4 + b / 16, b % 16 * 16 + c / 4]
        else [a * 4 + b / 16, b % 16 * 16 + c / 4, c % 4 * 64 + xs[3]] + FromSextets(xs[4..])
  }

  /** The characters of a sequence of sextets. */
  function Chars(xs: seq<Sextet>): (s: string)
    ensures |s| == |xs|
  {
    if xs == [] then "" else [SextetChar(xs[0])] + Chars(xs[1..])
  }

  /** The '=' characters that complete the last group of four. */
  function Padding(n: nat): string {
    if n % 3 == 1 then "==" else if n % 3 == 2 then "=" else ""
  }

  /** `buffer.toString('base64')`. */
  function Encode(bs: seq<Byte>): (s: string)
    ensures |s| == (|bs| + 2) / 3 * 4
  {
    Chars(ToSextets(bs)) + Padding(|bs|)
  }

  /** The sextets Node's decoder collects: characters outside the alphabet are skipped, and '=' ends the input. */
  function Sextets(s: string): seq<Sextet> {
    if s == [] || s[0] == '=' then []
    else match SextetValue(s[0])
      case Some(x) => [x] + Sextets(s[1..])
      case None => Sextets(s[1..])
  }

  /** `Buffer.from(s, 'base64')`. */
  function Decode(s: string): seq<Byte> {
    FromSextets(Sextets(s))
  }

  /** The decoder collects exactly the sextets written before the padding. */
  lemma {:induction false} SextetsOfChars(xs: seq<Sextet>, pad: string)
    requires pad == [] || pad[0] == '='
    ensures Sextets(Chars(xs) + pad) == xs
  {
    if xs != [] {
      var s := Chars(xs) + pad;
      assert s[0] == SextetChar(xs[0]);
      assert s[1..] == Chars(xs[1..]) + pad;
      SextetsOfChars(xs[1..], pad);
    } else {
      assert Chars(xs) + pad == pad;
    }
  }

  /** The arithmetic of one group: the three bytes come back out of their four sextets. */
  lemma Regroup(b0: Byte, b1: Byte, b2: Byte)
    ensures var a, b, c, d := b0 / 4, b0 % 4 * 16 + b1 / 16, b1 % 16 * 4 + b2 / 64, b2 % 64;
      a * 4 + b / 16 == b0 && b % 16 * 16 + c / 4 == b1 && c % 4 * 64 + d == b2
  {
    var b, c := b0 % 4 * 16 + b1 / 16, b1 % 16 * 4 + b2 / 64;
    assert b / 16 == b0 % 4 && b % 16 == b1 / 16;
    assert c / 4 == b1 % 16 && c % 4 == b2 / 64;
  }

  /** A final group of one or two bytes comes back out of its two or three sextets. */
  lemma {:induction false} FromToShortGroup(bs: seq<Byte>)
    requires 1 <= |bs| <= 2
    ensures FromSextets(ToSextets(bs)) == bs
  {
    if |bs| == 1 {
      Regroup(bs[0], 0, 0);
    } else {
      Regroup(bs[0], bs[1], 0);
    }
  }

  /** A full group of three bytes comes back out of its four sextets, ahead of the rest. */
  lemma {:induction false} FromToGroup(bs: seq<Byte>)
    requires |bs| >= 3
    ensures FromSextets(ToSextets(bs)) == bs[..3] + FromSextets(ToSextets(bs[3..]))
  {
    var xs := ToSextets(bs);
    assert xs[4..] == ToSextets(bs[3..]);
    Regroup(bs[0], bs[1], bs[2]);
  }

  /** Regrouping sextets into bytes undoes the grouping of bytes into sextets. */
  lemma {:induction false} FromToSextets(bs: seq<Byte>)
    ensures FromSextets(ToSextets(bs)) == bs
  {
    if 1 <= |bs| <= 2 {
      FromToShortGroup(bs);
    } else if |bs| >= 3 {
      FromToGroup(bs);
      FromToSextets(bs[3..]);
      assert bs == bs[..3] + bs[3..];
    }
  }

  /** Decoding what was encoded gives the same bytes back. */
  lemma DecodeEncode(bs: seq<Byte>)
    ensures Decode(Encode(bs)) == bs
  {
    SextetsOfChars(ToSextets(bs), Padding(|bs|));
    FromToSextets(bs);
  }
}
