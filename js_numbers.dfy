/**
 * JavaScript's conversion of a value to a string (for numbers, the shortest decimal form)
 * and the global `parseInt(string)` without a radix argument, as used on a request's
 * `price` field when a product is created.
 */
module JsNumbers {
  import opened Basics
  import opened JsValues

  /** The decimal digit character for 0..9. */
  function DigitChar(d: nat): (c: char)
    requires d < 10
  {
    ('0' as int + d) as char
  }

  /** Number::toString for an integer: the decimal digits without leading zeros. */
  function NatString(n: nat): (s: string)
    ensures |s| > 0
  {
    if n < 10 then [DigitChar(n)] else NatString(n / 10) + [DigitChar(n % 10)]
  }

  /** Number::toString writes only decimal digits, and a leading '0' only for zero itself. */
  lemma {:induction false} NatStringDigits(n: nat)
    ensures forall i :: 0 <= i < |NatString(n)| ==> DigitValue(NatString(n)[i]) < 10
    ensures NatString(n)[0] == '0' ==> n == 0 && NatString(n) == "0"
  {
    if n >= 10 {
      NatStringDigits(n / 10);
      assert NatString(n)[0] == NatString(n / 10)[0];
    }
  }

  /** Number::toString for an integer, with a leading '-' for negative values. */
  function DecimalString(n: int): string {
    if n < 0 then "-" + NatString(-n) else NatString(n)
  }

  /** JavaScript's ToString on the values a request body can hold. */
  function ToJsString(v: JsVal): string {
    match v
    case Undefined => "undefined"
    case Null => "null"
    case Str(s) => s
    case Num(n) => DecimalString(n)
    case Bool(b) => if b then "true" else "false"
  }

  /**
   * The characters that `parseInt` skips at the start of its input: WhiteSpace and
   * LineTerminator of the ECMAScript grammar (TAB, VT, FF, SP, NBSP, ZWNBSP, the other
   * space separators of category Zs, LF, CR, LS and PS).
   */
  predicate IsJsWhitespace(c: char) {
    var u := c as int;
    u == 0x09 || u == 0x0A || u == 0x0B || u == 0x0C || u == 0x0D || u == 0x20 ||
    u == 0xA0 || u == 0x1680 || (0x2000 <= u <= 0x200A) || u == 0x2028 || u == 0x2029 ||
    u == 0x202F || u == 0x205F || u == 0x3000 || u == 0xFEFF
  }

  /** The input of `parseInt` with its leading whitespace removed. */
  function TrimStart(s: string): (t: string)
    ensures |t| <= |s| && t == s[|s| - |t|..]
    ensures t == [] || !IsJsWhitespace(t[0])
  {
    if s != [] && IsJsWhitespace(s[0]) then TrimStart(s[1..]) else s
  }

  /** The value of a digit in radix up to 36 ('0'-'9', then 'a'-'z' or 'A'-'Z'); 36 for any other character. */
  function DigitValue(c: char): (d: nat)
    ensures d <= 36
  {
    if '0' <= c <= '9' then c as int - '0' as int
    else if 'a' <= c <= 'z' then c as int - 'a' as int + 10
    else if 'A' <= c <= 'Z' then c as int - 'A' as int + 10
    else 36
  }

  /** The digit values of the longest prefix of `s` made of digits of the given radix. */
  function DigitPrefix(s: string, radix: nat): (ds: seq<nat>)
    ensures |ds| <= |s|
    ensures forall i :: 0 <= i < |ds| ==> ds[i] == DigitValue(s[i]) < radix
    ensures |ds| < |s| ==> DigitValue(s[|ds|]) >= radix
  {
    if s != [] && DigitValue(s[0]) < radix then [DigitValue(s[0])] + DigitPrefix(s[1..], radix) else []
  }

  /** The number a sequence of digits denotes in the given radix, most significant digit first. */
  function DigitsValue(ds: seq<nat>, radix: nat): nat {
    if ds == [] then 0 else DigitsValue(ds[..|ds| - 1], radix) * radix + ds[|ds| - 1]
  }

  /**
   * The digits after the sign: radix 16 after a "0x" or "0X" prefix, otherwise radix 10,
   * read as far as they go; `None` when there is no digit at all.
   */
  function ParseUnsigned(u: string): Option<nat> {
    var hex := |u| >= 2 && u[0] == '0' && (u[1] == 'x' || u[1] == 'X');
    var radix := if hex then 16 else 10;
    var ds := DigitPrefix(if hex then u[2..] else u, radix);
    if ds == [] then None else Some(DigitsValue(ds, radix))
  }

  /** What `parseInt` reads once whitespace is skipped: an optional sign, then the digits. */
  function ParseSigned(t: string): Option<int> {
    var signed := t != [] && (t[0] == '-' || t[0] == '+');
    match ParseUnsigned(if signed then t[1..] else t)
    case None => None
    case Some(m) =>
      var k: int := if signed && t[0] == '-' then -(m as int) else m;
      Some(k)
  }

  /** `parseInt(s)`: skip leading whitespace, then read; `None` stands for NaN, and a negative zero is returned as 0. */
  function ParseIntString(s: string): Option<int> {
    ParseSigned(TrimStart(s))
  }

  /** `parseInt(v)` on a request value: the value is first converted to a string. */
  function ParseInt(v: JsVal): Option<int> {
    ParseIntString(ToJsString(v))
  }

  /** The digit values of every character of a string. */
  function Digits(s: string): (ds: seq<nat>)
    ensures |ds| == |s|
    ensures forall i :: 0 <= i < |s| ==> ds[i] == DigitValue(s[i])
  {
    if s == [] then [] else [DigitValue(s[0])] + Digits(s[1..])
  }

  /** A prefix made only of digits is read completely, and the reading goes on into what follows. */
  lemma {:induction false} DigitPrefixAppend(a: string, b: string, radix: nat)
    requires forall i :: 0 <= i < |a| ==> DigitValue(a[i]) < radix
    ensures DigitPrefix(a + b, radix) == Digits(a) + DigitPrefix(b, radix)
  {
    if a != [] {
      assert (a + b)[1..] == a[1..] + b;
      DigitPrefixAppend(a[1..], b, radix);
    } else {
      assert a + b == b;
    }
  }

  /** Reading back the digits that Number::toString wrote gives the number. */
  lemma {:induction false} NatStringValue(n: nat)
    ensures DigitsValue(Digits(NatString(n)), 10) == n
  {
    if n >= 10 {
      var s := NatString(n / 10);
      var ds := Digits(s + [DigitChar(n % 10)]);
      assert ds[..|ds| - 1] == Digits(s);
      NatStringValue(n / 10);
    }
  }

  /**
   * `parseInt` reads back the decimal form of any integer, whatever non-digit text follows it
   * ("12abc" gives 12). The one exception is the text "0" followed by 'x' or 'X', which
   * `parseInt` reads as the start of a hexadecimal number.
   */
  lemma ParseIntDecimal(n: int, rest: string)
    requires rest == [] || DigitValue(rest[0]) >= 10
    requires n == 0 && rest != [] ==> rest[0] != 'x' && rest[0] != 'X'
    ensures ParseIntString(DecimalString(n) + rest) == Some(n)
  {
    if n < 0 {
      ParseIntNegativeDecimal(-n, rest);
    } else {
      assert DecimalString(n) + rest == NatString(n) + rest;
      ParseIntNonNegativeDecimal(n, rest);
    }
  }

  /** `parseInt` of a JavaScript integer is that integer: its decimal text reads back exactly. */
  lemma ParseIntNumber(n: int)
    ensures ParseInt(Num(n)) == Some(n)
  {
    ParseIntDecimal(n, []);
    assert DecimalString(n) + [] == DecimalString(n);
  }

  /** The reading above for a number without a sign. */
  lemma ParseIntNonNegativeDecimal(m: nat, rest: string)
    requires rest == [] || DigitValue(rest[0]) >= 10
    requires m == 0 && rest != [] ==> rest[0] != 'x' && rest[0] != 'X'
    ensures ParseIntString(NatString(m) + rest) == Some(m)
  {
    ParseUnsignedDecimal(m, rest);
    ParseIntDigitFirst(NatString(m) + rest);
  }

  /** The reading above for a number with a '-' sign. */
  lemma ParseIntNegativeDecimal(m: nat, rest: string)
    requires m > 0
    requires rest == [] || DigitValue(rest[0]) >= 10
    ensures ParseIntString(DecimalString(-(m as int)) + rest) == Some(-(m as int))
  {
    var u := NatString(m) + rest;
    assert DecimalString(-(m as int)) + rest == ['-'] + u by {
      assert DecimalString(-(m as int)) == ['-'] + NatString(m);
    }
    ParseUnsignedDecimal(m, rest);
    ParseIntNegative(u, m);
  }

  /** Text that starts with a decimal digit is read by the unsigned reader alone. */
  lemma ParseIntDigitFirst(u: string)
    requires u != [] && '0' <= u[0] <= '9'
    ensures ParseIntString(u) == ParseUnsigned(u)
  {
    ParseIntUnsigned(u);
  }

  /** Text that starts with neither whitespace nor a sign is read by the unsigned reader alone. */
  lemma ParseIntUnsigned(u: string)
    requires u != [] && !IsJsWhitespace(u[0]) && u[0] != '-' && u[0] != '+'
    ensures ParseIntString(u) == ParseUnsigned(u)
  {
    assert TrimStart(u) == u;
  }

  /** A '-' followed by digits is read as the negated unsigned number. */
  lemma ParseIntNegative(u: string, m: nat)
    requires ParseUnsigned(u) == Some(m)
    ensures ParseIntString(['-'] + u) == Some(-(m as int))
  {
    var t := ['-'] + u;
    assert TrimStart(t) == t by {
      assert !IsJsWhitespace(t[0]);
    }
    ParseSignedMinus(u, m);
  }

  /** The sign step of the reading above. */
  lemma ParseSignedMinus(u: string, m: nat)
    requires ParseUnsigned(u) == Some(m)
    ensures ParseSigned(['-'] + u) == Some(-(m as int))
  {
    var t := ['-'] + u;
    assert t[0] == '-' && t[1..] == u;
  }

  /** The unsigned part of the reading above. */
  lemma ParseUnsignedDecimal(m: nat, rest: string)
    requires rest == [] || DigitValue(rest[0]) >= 10
    requires m == 0 && rest != [] ==> rest[0] != 'x' && rest[0] != 'X'
    ensures ParseUnsigned(NatString(m) + rest) == Some(m)
  {
    var digits := NatString(m);
    var u := digits + rest;
    NatStringDigits(m);
    NatStringValue(m);
    DigitPrefixAppend(digits, rest, 10);
    assert DigitPrefix(rest, 10) == [];
    assert Digits(digits) + [] == Digits(digits);
    if |u| >= 2 && u[0] == '0' {
      assert m == 0 && digits == "0";
      assert u[1] == rest[0];
    }
  }

  /** `parseInt` of a boolean, `null` or `undefined` is NaN: their string forms start with a letter beyond '9'. */
  lemma ParseIntNonNumeric(v: JsVal)
    requires v.Bool? || v.Null? || v.Undefined?
    ensures ParseInt(v) == None
  {
    var t := ToJsString(v);
    assert t != [] && DigitValue(t[0]) >= 10 && t[0] != '0' by {
      match v
      case Bool(b) => assert t[0] == if b then 't' else 'f';
      case Null => assert t[0] == 'n';
      case Undefined => assert t[0] == 'u';
    }
    ParseIntUnsigned(t);
    assert DigitPrefix(t, 10) == [];
  }
}
