/**
  The global function `parseInt(string, radix)` of ECMAScript (ECMA-262, section 19.2.5), called
  with the radix left undefined, as `parseInt(x)` is. Only integral results matter to the issue list,
  so a Number is either NaN or an integer; values past 2^53, and the Infinity of numerals of 309 digits or more, are
  kept exact here.
*/
module JsParseInt {
  import opened Wrappers

  /** What `parseInt` can return. Both +0 and -0 are `Int(0)`: they differ only in ways the caller never observes. */
  datatype JsNumber = NaN | Int(value: int)

  /** StrWhiteSpaceChar (ECMA-262, section 7.1.4.1.1): WhiteSpace (TAB, VT, FF, ZWNBSP and the Zs category) and LineTerminator. */
  predicate IsStrWhiteSpace(c: char) {
    var n := c as int;
    n == 0x09 || n == 0x0A || n == 0x0B || n == 0x0C || n == 0x0D || n == 0x20 || n == 0xA0
    || n == 0x1680 || (0x2000 <= n <= 0x200A) || n == 0x2028 || n == 0x2029
    || n == 0x202F || n == 0x205F || n == 0x3000 || n == 0xFEFF
  }

  predicate AllStrWhiteSpace(w: string) {
    forall i :: 0 <= i < |w| ==> IsStrWhiteSpace(w[i])
  }

  /** Step 2: the string with its leading white space removed. */
  function TrimStart(s: string): (t: string)
    ensures |t| <= |s| && t == s[|s| - |t|..]
    ensures t == [] || !IsStrWhiteSpace(t[0])
    ensures AllStrWhiteSpace(s[..|s| - |t|])
  {
    if s != [] && IsStrWhiteSpace(s[0]) then TrimStart(s[1..]) else s
  }

  /** The value of `c` as a digit of a radix up to 36 ("0"-"9", then "a"-"z" in either case); 36 for anything else. */
  function DigitValue(c: char): (d: nat)
    ensures d <= 36
  {
    if '0' <= c <= '9' then c as int - '0' as int
    else if 'a' <= c <= 'z' then c as int - 'a' as int + 10
    else if 'A' <= c <= 'Z' then c as int - 'A' as int + 10
    else 36
  }

  predicate IsRadixDigit(c: char, radix: nat) {
    DigitValue(c) < radix
  }

  predicate AllRadixDigits(z: string, radix: nat) {
    forall i :: 0 <= i < |z| ==> IsRadixDigit(z[i], radix)
  }

  /** Step 10: the length of the longest prefix of `s` made of radix-`radix` digits. */
  function DigitPrefixLength(s: string, radix: nat): (n: nat)
    ensures n <= |s|
    ensures AllRadixDigits(s[..n], radix)
    ensures n == |s| || !IsRadixDigit(s[n], radix)
  {
    if s != [] && IsRadixDigit(s[0], radix) then 1 + DigitPrefixLength(s[1..], radix) else 0
  }

  /** Step 12: the mathematical value of a string of digits in the given radix. */
  function DigitsValue(z: string, radix: nat): nat {
    if z == [] then 0 else DigitsValue(z[..|z| - 1], radix) * radix + DigitValue(z[|z| - 1])
  }

  /** `parseInt(s)`, the radix being undefined: steps 2 to 4 (white space, sign), then the magnitude. */
  function ParseInt(s: string): (r: JsNumber)
    ensures r.Int? ==> exists k :: 0 <= k < |s| && IsRadixDigit(s[k], 10)
  {
    var t := TrimStart(s);
    var sign := if t != [] && t[0] == '-' then -1 else 1;
    var u := if t != [] && (t[0] == '+' || t[0] == '-') then t[1..] else t;
    var m := ParseMagnitude(u);
    if m.None? then NaN
    else
      var k := |s| - |u|;
      assert s[k] == u[0];
      Int(sign * m.value)
  }

  /** A "0x" or "0X" in front selects radix 16. */
  predicate HasHexPrefix(u: string) {
    |u| >= 2 && u[0] == '0' && (u[1] == 'x' || u[1] == 'X')
  }

  /** Steps 9 to 12: radix 16 after a "0x" / "0X" prefix, 10 otherwise; the value of the longest digit prefix, or none. */
  function ParseMagnitude(u: string): (m: Option<nat>)
    ensures m.Some? <==> if HasHexPrefix(u) then |u| > 2 && IsRadixDigit(u[2], 16) else u != [] && IsRadixDigit(u[0], 10)
  {
    var hex := HasHexPrefix(u);
    var radix := if hex then 16 else 10;
    var v := if hex then u[2..] else u;
    var end := DigitPrefixLength(v, radix);
    if end == 0 then None else Some(DigitsValue(v[..end], radix))
  }

  /** `n || d` on a Number: NaN and both zeros are falsy, so they give way to `d`. */
  function OrElse(n: JsNumber, d: int): (r: int)
    ensures n.NaN? || n.value == 0 ==> r == d
    ensures n.Int? && n.value != 0 ==> r == n.value
  {
    match n
    case NaN => d
    case Int(v) => if v == 0 then d else v
  }

  /** The decimal numeral of a natural number, most significant digit first. */
  function Digits(n: nat): (s: string)
    ensures |s| >= 1
    ensures AllRadixDigits(s, 10)
  {
    var last := ['0' + (n % 10) as char];
    if n < 10 then last else Digits(n / 10) + last
  }

  /** How a safe integer is written in decimal (`String(n)`): an optional "-" and its digits. */
  function DecimalString(n: int): string {
    if n < 0 then "-" + Digits(-n) else Digits(n)
  }

  lemma {:induction false} DigitsValueOfDigits(n: nat)
    ensures DigitsValue(Digits(n), 10) == n
  {
    var s := Digits(n);
    assert s[..|s| - 1] == (if n < 10 then [] else Digits(n / 10));
    if n >= 10 {
      DigitsValueOfDigits(n / 10);
    }
  }

  lemma {:induction false} DigitPrefixOfDigits(z: string, rest: string, radix: nat)
    requires AllRadixDigits(z, radix)
    requires rest == [] || !IsRadixDigit(rest[0], radix)
    ensures DigitPrefixLength(z + rest, radix) == |z|
  {
    if z != [] {
      assert (z + rest)[1..] == z[1..] + rest;
      DigitPrefixOfDigits(z[1..], rest, radix);
    } else {
      assert z + rest == rest;
    }
  }

  /** `rest` cannot continue the run of decimal digits `z`: it does not start with a digit, and it
      does not turn a lone "0" into a "0x" prefix. */
  predicate EndsDigitRun(z: string, rest: string) {
    && (rest == [] || !IsRadixDigit(rest[0], 10))
    && (|z| == 1 && z[0] == '0' && rest != [] ==> rest[0] != 'x' && rest[0] != 'X')
  }

  /** A run of decimal digits, followed by anything that cannot continue it, gives the value of the run. */
  lemma MagnitudeOfDigitRun(z: string, rest: string)
    requires z != [] && AllRadixDigits(z, 10)
    requires EndsDigitRun(z, rest)
    ensures ParseMagnitude(z + rest) == Some(DigitsValue(z, 10))
  {
    var u := z + rest;
    assert !HasHexPrefix(u) by {
      if |z| == 1 {
        assert |u| >= 2 ==> u[1] == rest[0];
      } else {
        assert IsRadixDigit(u[1], 10);
      }
    }
    DigitPrefixOfDigits(z, rest, 10);
    assert u[..|z|] == z;
  }

  /** Leading white space is skipped up to the first other character. */
  lemma {:induction false} TrimStartSkips(ws: string, x: string)
    requires AllStrWhiteSpace(ws)
    requires x == [] || !IsStrWhiteSpace(x[0])
    ensures TrimStart(ws + x) == x
  {
    if ws == [] {
      assert ws + x == x;
    } else {
      assert (ws + x)[0] == ws[0];
      assert (ws + x)[1..] == ws[1..] + x;
      TrimStartSkips(ws[1..], x);
    }
  }

  lemma DecimalDigitIsPlain(c: char)
    requires IsRadixDigit(c, 10)
    ensures '0' <= c <= '9'
    ensures !IsStrWhiteSpace(c) && c != '+' && c != '-'
  {
  }

  /** With no white space and no sign in front, `parseInt` is the magnitude alone. */
  lemma ParseIntOfUnsigned(u: string)
    requires u != [] && IsRadixDigit(u[0], 10)
    ensures ParseInt(u) == match ParseMagnitude(u) case None => NaN case Some(m) => Int(m)
  {
    DecimalDigitIsPlain(u[0]);
    assert TrimStart(u) == u;
  }

  /** A "-" in front of an unsigned numeral negates its magnitude. */
  lemma ParseIntOfNegated(u: string)
    requires u != [] && IsRadixDigit(u[0], 10)
    ensures ParseInt("-" + u) == match ParseMagnitude(u) case None => NaN case Some(m) => Int(-(m as int))
  {
    var s := "-" + u;
    assert s[0] == '-' && s[1..] == u;
    assert TrimStart(s) == s;
  }

  /** A "+" in front of an unsigned numeral changes nothing. */
  lemma ParseIntOfPlus(u: string)
    requires u != [] && IsRadixDigit(u[0], 10)
    ensures ParseInt("+" + u) == match ParseMagnitude(u) case None => NaN case Some(m) => Int(m)
  {
    var s := "+" + u;
    assert s[0] == '+' && s[1..] == u;
    assert TrimStart(s) == s;
  }

  /** An optional sign in front of an unsigned numeral applies to its magnitude. */
  lemma ParseIntOfSigned(sign: string, u: string)
    requires sign == [] || sign == ['+'] || sign == ['-']
    requires u != [] && IsRadixDigit(u[0], 10)
    ensures ParseInt(sign + u) ==
              match ParseMagnitude(u)
              case None => NaN
              case Some(m) => Int(if sign == ['-'] then -(m as int) else m)
  {
    if sign == [] {
      assert sign + u == u;
      ParseIntOfUnsigned(u);
    } else if sign == ['-'] {
      ParseIntOfNegated(u);
    } else {
      ParseIntOfPlus(u);
    }
  }

  /** White space in front of the first other character changes nothing. */
  lemma ParseIntSkipsWhiteSpace(ws: string, x: string)
    requires AllStrWhiteSpace(ws)
    requires x == [] || !IsStrWhiteSpace(x[0])
    ensures ParseInt(ws + x) == ParseInt(x)
  {
    TrimStartSkips(ws, x);
    TrimStartSkips([], x);
    assert [] + x == x;
    ParseIntAfterTrim(ws + x, x);
  }

  /** `parseInt` reads nothing but what is left after the white space. */
  lemma ParseIntAfterTrim(s: string, s': string)
    requires TrimStart(s) == TrimStart(s')
    ensures ParseInt(s) == ParseInt(s')
  {
  }

  /** A decimal numeral followed by anything that cannot continue it parses to exactly its value. */
  lemma ParseIntOfDecimal(n: int, rest: string)
    requires rest == [] || (!IsRadixDigit(rest[0], 10) && rest[0] != 'x' && rest[0] != 'X')
    ensures ParseInt(DecimalString(n) + rest) == Int(n)
  {
    var m: nat := if n < 0 then -n else n;
    var sign := if n < 0 then "-" else "";
    DecimalStringSplits(n, rest);
    ParseIntOfDigitRun(DecimalString(n) + rest, sign, Digits(m), rest);
    DigitsValueOfDigits(m);
  }

  lemma DecimalStringSplits(n: int, rest: string)
    ensures DecimalString(n) + rest == (if n < 0 then "-" else "") + (Digits(if n < 0 then -n else n) + rest)
  {
  }

  /** A numeral made of an optional sign and a run of decimal digits, followed by anything that
      cannot continue them, parses to the signed value of the digits: leading zeros ("007"), a "+"
      and a "-0" included. */
  lemma ParseIntOfDigitRun(numeral: string, sign: string, z: string, rest: string)
    requires sign == [] || sign == ['+'] || sign == ['-']
    requires z != [] && AllRadixDigits(z, 10)
    requires EndsDigitRun(z, rest)
    requires numeral == sign + (z + rest)
    ensures ParseInt(numeral) == Int(if sign == ['-'] then -(DigitsValue(z, 10) as int) else DigitsValue(z, 10))
  {
    assert (z + rest)[0] == z[0];
    MagnitudeOfDigitRun(z, rest);
    ParseIntOfSignedValue(sign, z + rest, DigitsValue(z, 10));
  }

  /** `ParseIntOfSigned` for a magnitude already known. */
  lemma ParseIntOfSignedValue(sign: string, u: string, v: nat)
    requires sign == [] || sign == ['+'] || sign == ['-']
    requires u != [] && IsRadixDigit(u[0], 10)
    requires ParseMagnitude(u) == Some(v)
    ensures ParseInt(sign + u) == Int(if sign == ['-'] then -(v as int) else v)
  {
    ParseIntOfSigned(sign, u);
  }

  /** A string with no digit where the number should start, after white space and an optional sign, parses to NaN. */
  lemma ParseIntNoDigits(s: string)
    requires var t := TrimStart(s);
             var u := if t != [] && (t[0] == '+' || t[0] == '-') then t[1..] else t;
             u == [] || !IsRadixDigit(u[0], 10)
    ensures ParseInt(s) == NaN
  {
  }
}
