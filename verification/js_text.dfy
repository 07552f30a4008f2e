/**
 * The two pieces of JavaScript text semantics the rest of the model depends on:
 * the white-space class `\s` of regular expressions, and the global `parseInt`
 * (which turns the `userId` query parameter into a number), together with the
 * decimal rendering of an integer that a template literal produces.
 */
module JsText {

  import opened Wrappers

  /** A JavaScript number as the model needs it: an integer, or NaN (what `parseInt` returns on failure). */
  datatype IntOrNaN = NaN | Int(value: int)

  /** The characters matched by `\s` (ECMAScript WhiteSpace and LineTerminator); `String.prototype.trimStart` strips the same set. */
  const WhiteSpace: set<char> := {'\t', '\n', '\U{B}', '\U{C}', '\r', ' ', '\U{A0}', '\U{1680}',
    '\U{2000}', '\U{2001}', '\U{2002}', '\U{2003}', '\U{2004}', '\U{2005}', '\U{2006}', '\U{2007}',
    '\U{2008}', '\U{2009}', '\U{200A}', '\U{2028}', '\U{2029}', '\U{202F}', '\U{205F}', '\U{3000}', '\U{FEFF}'}

  predicate IsSpace(c: char) {
    c in WhiteSpace
  }

  predicate IsDecimalDigit(c: char) {
    '0' <= c <= '9'
  }

  /** The value of `c` as a digit in bases up to 36 (`0`-`9`, then `a`-`z` / `A`-`Z`), or 36 when it is none. */
  function DigitValue(c: char): (v: nat)
    ensures v <= 36
    ensures v < 10 <==> IsDecimalDigit(c)
  {
    if '0' <= c <= '9' then (c - '0') as nat
    else if 'a' <= c <= 'z' then (c - 'a') as nat + 10
    else if 'A' <= c <= 'Z' then (c - 'A') as nat + 10
    else 36
  }

  /** Removes leading white space, as `parseInt` does first. */
  function TrimStart(s: string): (r: string)
    ensures |r| <= |s|
    ensures r == [] || !IsSpace(r[0])
  {
    if s != [] && IsSpace(s[0]) then TrimStart(s[1..]) else s
  }

  /** Length of the longest prefix of `s` made of digits of base `radix`. */
  function DigitRun(s: string, radix: nat): (n: nat)
    ensures n <= |s|
    ensures forall i :: 0 <= i < n ==> DigitValue(s[i]) < radix
    ensures n == |s| || DigitValue(s[n]) >= radix
  {
    if s != [] && DigitValue(s[0]) < radix then 1 + DigitRun(s[1..], radix) else 0
  }

  /** The value of a string of base-`radix` digits, most significant first. */
  function DigitsValue(s: string, radix: nat): nat
  {
    if s == [] then 0
    else DigitsValue(s[..|s| - 1], radix) * radix + DigitValue(s[|s| - 1])
  }

  /**
   * The digits part of `parseInt` once the sign is gone: a `0x` / `0X` prefix
   * switches to base 16, then the longest run of digits is read; no digit at all
   * gives None (NaN).
   */
  function ParseUnsigned(u: string): (r: Option<nat>)
  {
    var hex := |u| >= 2 && u[0] == '0' && (u[1] == 'x' || u[1] == 'X');
    var radix := if hex then 16 else 10;
    var body := if hex then u[2..] else u;
    var n := DigitRun(body, radix);
    if n == 0 then None else Some(DigitsValue(body[..n], radix))
  }

  /**
   * `parseInt(s)` with no radix: skip leading white space, take an optional sign,
   * then read the digits. (`-0` and `0` are the same under `===`.)
   */
  function ParseInt(s: string): IntOrNaN
  {
    var t := TrimStart(s);
    if t != [] && t[0] == '-' then
      match ParseUnsigned(t[1..])
      case None => NaN
      case Some(v) => Int(-(v as int))
    else
      match ParseUnsigned(if t != [] && t[0] == '+' then t[1..] else t)
      case None => NaN
      case Some(v) => Int(v)
  }

  function DigitChar(d: nat): char
    requires d < 10
  {
    ('0' as int + d) as char
  }

  /** The decimal digits of a natural number, as `${n}` renders it. */
  function NatToDecimal(n: nat): (s: string)
    ensures |s| >= 1
    ensures forall i :: 0 <= i < |s| ==> IsDecimalDigit(s[i])
    ensures n > 0 ==> s[0] != '0'
    ensures n == 0 ==> s == "0"
  {
    if n < 10 then [DigitChar(n)] else NatToDecimal(n / 10) + [DigitChar(n % 10)]
  }

  /** The decimal rendering of an integer, with a leading `-` when it is negative. */
  function IntToDecimal(n: int): (s: string)
  {
    (if n < 0 then "-" else "") + NatToDecimal(Abs(n))
  }

  function Abs(n: int): nat {
    if n < 0 then -n else n
  }

  lemma {:induction false} NatToDecimalValue(n: nat)
    ensures DigitsValue(NatToDecimal(n), 10) == n
  {
    if n >= 10 {
      var s := NatToDecimal(n);
      assert s[..|s| - 1] == NatToDecimal(n / 10);
      NatToDecimalValue(n / 10);
    }
  }

  /**
   * `parseInt` reads back the decimal rendering of any integer, and stops at the
   * first character after it that is not a digit (`parseInt("12abc")` is 12),
   * except that `0` followed by `x` or `X` would start a hexadecimal literal.
   */
  lemma ParseIntOfDecimal(n: int, rest: string)
    requires rest == [] || !IsDecimalDigit(rest[0])
    requires n == 0 && rest != [] ==> rest[0] != 'x' && rest[0] != 'X'
    ensures ParseInt(IntToDecimal(n) + rest) == Int(n)
  {
    if n < 0 {
      ParseIntOfNegative(n, rest);
    } else {
      ParseIntOfNatural(n, rest);
    }
  }

  lemma ParseIntOfNegative(n: int, rest: string)
    requires n < 0
    requires rest == [] || !IsDecimalDigit(rest[0])
    ensures ParseInt(IntToDecimal(n) + rest) == Int(n)
  {
    var u := NatToDecimal(Abs(n)) + rest;
    NegativeDecimalParts(n, rest);
    ParseUnsignedOfDecimal(Abs(n), rest);
    ParseIntOfMinus(u);
  }

  lemma NegativeDecimalParts(n: int, rest: string)
    requires n < 0
    ensures IntToDecimal(n) + rest == ['-'] + (NatToDecimal(Abs(n)) + rest)
  {
  }

  lemma ParseIntOfNatural(m: nat, rest: string)
    requires rest == [] || !IsDecimalDigit(rest[0])
    requires m == 0 && rest != [] ==> rest[0] != 'x' && rest[0] != 'X'
    ensures ParseInt(IntToDecimal(m) + rest) == Int(m)
  {
    var u := NatToDecimal(m) + rest;
    assert Abs(m) == m && IntToDecimal(m) == "" + NatToDecimal(m);
    assert IntToDecimal(m) + rest == u;
    ParseUnsignedOfDecimal(m, rest);
    assert u[0] == NatToDecimal(m)[0];
    ParseIntOfDigits(u);
  }

  /** A `-` followed by an unsigned number parses to its negation. */
  lemma ParseIntOfMinus(u: string)
    requires ParseUnsigned(u).Some?
    ensures ParseInt(['-'] + u) == Int(-(ParseUnsigned(u).value as int))
  {
    var s := ['-'] + u;
    assert s[0] == '-' && s[1..] == u;
    TrimStartOfNonSpace(s);
  }

  /** A value starting with a digit parses as an unsigned number. */
  lemma ParseIntOfDigits(u: string)
    requires u != [] && IsDecimalDigit(u[0]) && ParseUnsigned(u).Some?
    ensures ParseInt(u) == Int(ParseUnsigned(u).value)
  {
    TrimStartOfNonSpace(u);
  }

  lemma TrimStartOfNonSpace(s: string)
    requires s != [] && !IsSpace(s[0])
    ensures TrimStart(s) == s
  {
  }

  lemma ParseUnsignedOfDecimal(m: nat, rest: string)
    requires rest == [] || !IsDecimalDigit(rest[0])
    requires m == 0 && rest != [] ==> rest[0] != 'x' && rest[0] != 'X'
    ensures ParseUnsigned(NatToDecimal(m) + rest) == Some(m)
  {
    var d := NatToDecimal(m);
    var u := d + rest;
    assert u[0] == d[0];
    assert |d| >= 2 ==> u[1] == d[1];
    assert |d| == 1 && rest != [] ==> u[1] == rest[0];
    DecimalRun(d, rest);
    assert u[..|d|] == d;
    NatToDecimalValue(m);
  }

  lemma {:induction false} DecimalRun(d: string, rest: string)
    requires forall i :: 0 <= i < |d| ==> IsDecimalDigit(d[i])
    requires rest == [] || !IsDecimalDigit(rest[0])
    ensures DigitRun(d + rest, 10) == |d|
  {
    if d != [] {
      assert (d + rest)[1..] == d[1..] + rest;
      DecimalRun(d[1..], rest);
    } else {
      assert d + rest == rest;
    }
  }

  /** A value whose first non-blank character is neither a sign nor a digit parses to NaN. */
  lemma ParseIntNoDigits(s: string)
    requires forall i :: 0 <= i < |s| ==> !IsDecimalDigit(s[i]) && s[i] != '-' && s[i] != '+'
    ensures ParseInt(s) == NaN
  {
    var t := TrimStart(s);
    TrimStartIsSuffix(s);
    assert t != [] ==> t[0] == s[|s| - |t|];
  }

  lemma {:induction false} TrimStartIsSuffix(s: string)
    ensures TrimStart(s) == s[|s| - |TrimStart(s)|..]
  {
    if s != [] && IsSpace(s[0]) {
      TrimStartIsSuffix(s[1..]);
    }
  }
}
