/** JavaScript values as the route handlers receive them (JSON bodies, form
    fields, route and query parameters) and the coercions the handlers rely on:
    truthiness, template-literal interpolation, `parseInt` and `Number`. */
module Js {

  datatype Option<T> = None | Some(value: T)

  /** A request value. JSON numbers are modelled as integers. */
  datatype Value = Undefined | Null | Bool(b: bool) | Num(n: int) | NaN | Str(s: string)

  /** The falsy values are undefined, null, false, 0, NaN and the empty string. */
  predicate Truthy(v: Value) {
    match v
    case Undefined => false
    case Null => false
    case Bool(b) => b
    case Num(n) => n != 0
    case NaN => false
    case Str(s) => s != ""
  }

  // ---------------------------------------------------------------- digits

  predicate IsDigit(c: char) { '0' <= c <= '9' }

  predicate AllDigits(s: string) { forall i :: 0 <= i < |s| ==> IsDigit(s[i]) }

  function DigitValue(c: char): (d: nat)
    requires IsDigit(c)
    ensures d < 10
  {
    (c as int) - ('0' as int)
  }

  function DigitChar(d: nat): (c: char)
    requires d < 10
    ensures IsDigit(c) && DigitValue(c) == d
  {
    (('0' as int) + d) as char
  }

  /** The value of a string of decimal digits, most significant first. */
  function DigitsValue(s: string): nat
    requires AllDigits(s)
  {
    if s == [] then 0 else DigitsValue(s[..|s| - 1]) * 10 + DigitValue(s[|s| - 1])
  }

  /** The shortest decimal numeral of `n`, as `String(n)` writes it. */
  function NatText(n: nat): (s: string)
    ensures s != [] && AllDigits(s)
  {
    if n < 10 then [DigitChar(n)] else NatText(n / 10) + [DigitChar(n % 10)]
  }

  function IntText(n: int): string {
    if n < 0 then "-" + NatText(-n) else NatText(n)
  }

  /** `${v}` in a template literal. */
  function ToText(v: Value): string {
    match v
    case Undefined => "undefined"
    case Null => "null"
    case Bool(b) => if b then "true" else "false"
    case Num(n) => IntText(n)
    case NaN => "NaN"
    case Str(s) => s
  }

  lemma {:induction false} NatTextValue(n: nat)
    ensures DigitsValue(NatText(n)) == n
  {
    if n >= 10 {
      var s := NatText(n);
      assert s[..|s| - 1] == NatText(n / 10);
      NatTextValue(n / 10);
    }
  }

  // ------------------------------------------------------------- scanning

  /** The longest prefix of `s` made of decimal digits. */
  function LeadingDigits(s: string): (r: string)
    ensures |r| <= |s| && r == s[..|r|] && AllDigits(r)
    ensures |r| < |s| ==> !IsDigit(s[|r|])
  {
    if s != [] && IsDigit(s[0]) then [s[0]] + LeadingDigits(s[1..]) else []
  }

  lemma {:induction false} LeadingDigitsOfDigits(s: string, t: string)
    requires AllDigits(s)
    requires t == [] || !IsDigit(t[0])
    ensures LeadingDigits(s + t) == s
  {
    if s != [] {
      assert (s + t)[1..] == s[1..] + t;
      LeadingDigitsOfDigits(s[1..], t);
    } else {
      assert s + t == t;
    }
  }

  /** White space skipped by `parseInt` and `Number` (the ASCII part of it:
      space, tab, line feed, vertical tab, form feed, carriage return). */
  predicate IsSpace(c: char) {
    c == ' ' || c == '\t' || c == '\n' || c == '\U{000B}' || c == '\U{000C}' || c == '\r'
  }

  function TrimStart(s: string): (r: string)
    ensures r == [] || !IsSpace(r[0])
  {
    if s != [] && IsSpace(s[0]) then TrimStart(s[1..]) else s
  }

  function TrimEnd(s: string): (r: string)
    ensures r == [] || !IsSpace(r[|r| - 1])
  {
    if s != [] && IsSpace(s[|s| - 1]) then TrimEnd(s[..|s| - 1]) else s
  }

  function Trim(s: string): string { TrimEnd(TrimStart(s)) }

  // ------------------------------------------------------------- parseInt

  /** `parseInt(s)` with no radix, for decimal input: leading white space, an
      optional sign, then the longest run of digits; `None` is NaN. */
  function ParseIntText(s: string): (r: Option<int>)
  {
    var t := TrimStart(s);
    var digits := LeadingDigits(Unsigned(t));
    var magnitude: int := if digits == [] then 0 else DigitsValue(digits);
    if digits == [] then None
    else if t[0] == '-' then Some(-magnitude)
    else Some(magnitude)
  }

  /** `t` without one leading sign character. */
  function Unsigned(t: string): (u: string)
    ensures u == t || (t != [] && (t[0] == '-' || t[0] == '+') && u == t[1..])
  {
    if t != [] && (t[0] == '-' || t[0] == '+') then t[1..] else t
  }

  /** `parseInt(v)`: the value is first converted to a string. */
  function ParseInt(v: Value): Option<int> {
    ParseIntText(ToText(v))
  }

  /** The digits of a numeral are all of it. */
  lemma LeadingDigitsOfNumeral(s: string)
    requires AllDigits(s)
    ensures LeadingDigits(s) == s
  {
    LeadingDigitsOfDigits(s, []);
    assert s + [] == s;
  }

  /** A minus sign is not white space, and it is the sign `Unsigned` removes. */
  lemma Negated(t: string, s: string)
    requires t == "-" + s
    ensures t[0] == '-' && TrimStart(t) == t && Unsigned(t) == s
  {
    assert t[1..] == s;
  }

  /** parseInt reads a numeral. */
  lemma ParseIntOfNumeral(s: string)
    requires s != [] && AllDigits(s)
    ensures ParseIntText(s) == Some(DigitsValue(s))
  {
    LeadingDigitsOfNumeral(s);
    assert TrimStart(s) == s;
    assert Unsigned(s) == s;
  }

  /** parseInt reads a numeral after a minus sign as its negation. */
  lemma ParseIntOfNegatedNumeral(t: string, s: string)
    requires s != [] && AllDigits(s) && t == "-" + s
    ensures ParseIntText(t) == Some(-(DigitsValue(s) as int))
  {
    Negated(t, s);
    LeadingDigitsOfNumeral(s);
  }

  /** White space is skipped from the front only: what is left is a suffix. */
  lemma {:induction false} TrimStartIsSuffix(s: string)
    ensures |TrimStart(s)| <= |s| && TrimStart(s) == s[|s| - |TrimStart(s)|..]
    decreases |s|
  {
    if s != [] && IsSpace(s[0]) {
      TrimStartIsSuffix(s[1..]);
      assert s[1..][|s| - 1 - |TrimStart(s[1..])|..] == s[|s| - |TrimStart(s)|..];
    }
  }

  /** A text in which no character is a digit is NaN to parseInt. */
  lemma ParseIntOfNoDigits(s: string)
    requires forall i :: 0 <= i < |s| ==> !IsDigit(s[i])
    ensures ParseIntText(s).None?
  {
    TrimStartIsSuffix(s);
    var t := TrimStart(s);
    var u := Unsigned(t);
    if u != [] {
      assert u[0] == s[|s| - |u|];
    }
  }

  /** parseInt reads back every integer written by `String(n)`. */
  lemma ParseIntOfText(n: int)
    ensures ParseIntText(IntText(n)) == Some(n)
  {
    var m: nat := if n < 0 then -n else n;
    if n < 0 {
      ParseIntOfNegatedNumeral(IntText(n), NatText(m));
    } else {
      ParseIntOfNumeral(NatText(m));
    }
    NatTextValue(m);
  }

  lemma ParseIntOfNum(n: int)
    ensures ParseInt(Num(n)) == Some(n)
  {
    ParseIntOfText(n);
  }

  /** An input that starts with a digit is read from its leading digits. */
  lemma ParseIntOfDigitFirst(t: string)
    requires t != [] && IsDigit(t[0])
    ensures ParseIntText(t) == Some(DigitsValue(LeadingDigits(t)))
  {
    assert TrimStart(t) == t;
    assert Unsigned(t) == t;
  }

  /** Text after the digits is ignored: `parseInt("12abc")` is 12. */
  lemma ParseIntIgnoresSuffix(n: nat, rest: string)
    requires rest == [] || !IsDigit(rest[0])
    ensures ParseIntText(NatText(n) + rest) == Some(n)
  {
    var s := NatText(n);
    var t := s + rest;
    assert t[0] == s[0];
    ParseIntOfDigitFirst(t);
    LeadingDigitsOfDigits(s, rest);
    NatTextValue(n);
  }

  // --------------------------------------------------------------- Number

  /** The value of the digits after a decimal point. */
  function FractionValue(s: string): (r: real)
    requires AllDigits(s)
    ensures 0.0 <= r <= 1.0
  {
    if s == [] then 0.0 else (DigitValue(s[0]) as real + FractionValue(s[1..])) / 10.0
  }

  /** `Number(s)` for decimal numerals: surrounding white space is ignored,
      an empty string is 0, otherwise an optional sign, digits and an optional
      fraction; `None` is NaN. */
  function NumberOfText(s: string): Option<real> {
    var t := Trim(s);
    if t == [] then Some(0.0)
    else
      var u := Unsigned(t);
      var whole := LeadingDigits(u);
      var rest := u[|whole|..];
      var magnitude :=
        if rest == [] && whole != [] then Some(DigitsValue(whole) as real)
        else if rest != [] && rest[0] == '.' && AllDigits(rest[1..]) && (whole != [] || |rest| > 1)
        then Some(DigitsValue(whole) as real + FractionValue(rest[1..]))
        else None;
      match magnitude
      case None => None
      case Some(m) => Some(if t[0] == '-' then -m else m)
  }

  /** `isNaN(s)` on a string. */
  predicate IsNaNText(s: string) { NumberOfText(s).None? }

  /** A numeral that starts and ends with a non-space character is its own trim. */
  lemma TrimOfNumeral(s: string)
    requires s != [] && AllDigits(s)
    ensures Trim(s) == s && Trim("-" + s) == "-" + s
  {
    assert IsDigit(s[0]) && IsDigit(s[|s| - 1]);
    var t := "-" + s;
    assert t[|t| - 1] == s[|s| - 1];
    assert TrimStart(s) == s && TrimStart(t) == t;
  }

  lemma TrimOfIntText(n: int)
    ensures Trim(IntText(n)) == IntText(n)
  {
    TrimOfNumeral(NatText(if n < 0 then -n else n));
  }

  /** Number reads a numeral. */
  lemma NumberOfNumeral(s: string)
    requires s != [] && AllDigits(s)
    ensures NumberOfText(s) == Some(DigitsValue(s) as real)
  {
    LeadingDigitsOfNumeral(s);
    TrimOfNumeral(s);
    assert Unsigned(s) == s;
    assert s[|s|..] == [];
  }

  /** Number reads a numeral after a minus sign as its negation. */
  lemma NumberOfNegatedNumeral(t: string, s: string)
    requires s != [] && AllDigits(s) && t == "-" + s
    ensures NumberOfText(t) == Some(-(DigitsValue(s) as real))
  {
    Negated(t, s);
    TrimOfNumeral(s);
    LeadingDigitsOfNumeral(s);
    assert s[|s|..] == [];
  }

  /** Number reads back every integer written by `String(n)`. */
  lemma NumberOfIntText(n: int)
    ensures NumberOfText(IntText(n)) == Some(n as real)
  {
    var m: nat := if n < 0 then -n else n;
    if n < 0 {
      NumberOfNegatedNumeral(IntText(n), NatText(m));
    } else {
      NumberOfNumeral(NatText(m));
    }
    NatTextValue(m);
  }

  /** JavaScript `v <= 0` (the operand is converted to a number; NaN compares false). */
  predicate AtMostZero(v: Value) {
    match v
    case Undefined => false
    case Null => true
    case Bool(b) => !b
    case Num(n) => n <= 0
    case NaN => false
    case Str(s) => NumberOfText(s).Some? && NumberOfText(s).value <= 0.0
  }
}
