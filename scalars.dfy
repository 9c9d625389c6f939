/**
  PHP scalar values as they travel between a row object, a model's
  properties and the SQL text built from them: PHP's string conversion,
  its `empty()` test and its `(int)` cast.
 */
module Scalars {

  /** The range of a PHP integer on a 64-bit build. */
  const MinInt: int := -0x8000_0000_0000_0000
  const MaxInt: int := 0x7FFF_FFFF_FFFF_FFFF

  type PhpInt = i: int | MinInt <= i <= MaxInt

  /**
    One property value. A float is carried as PHP's own string rendering of
    it (`(string) 1.5` is "1.5"); float arithmetic is not modelled.
   */
  datatype Scalar =
    | Int(i: PhpInt)
    | Dbl(text: string)
    | Str(s: string)
    | Bool(b: bool)
    | Null

  predicate IsDigit(c: char) {
    '0' <= c <= '9'
  }

  function DigitChar(d: nat): (c: char)
    requires d < 10
    ensures IsDigit(c) && c as int - '0' as int == d
  {
    ('0' as int + d) as char
  }

  function DigitValue(c: char): (d: nat)
    requires IsDigit(c)
    ensures d < 10
  {
    c as int - '0' as int
  }

  /** The decimal numeral of n, most significant digit first. */
  function NatToText(n: nat): (t: string)
    ensures |t| > 0
    ensures forall k | 0 <= k < |t| :: IsDigit(t[k])
    ensures n >= 10 ==> |t| >= 2
    decreases n
  {
    if n < 10 then [DigitChar(n)] else NatToText(n / 10) + [DigitChar(n % 10)]
  }

  /** PHP's rendering of an integer: a decimal numeral, with a leading '-' when negative. */
  function IntToText(i: int): (t: string)
    ensures |t| > 0
    ensures forall k | 0 <= k < |t| :: IsDigit(t[k]) || (k == 0 && t[k] == '-')
    ensures IsDigit(t[0]) <==> 0 <= i
  {
    if i < 0 then "-" + NatToText(-i) else NatToText(i)
  }

  /** PHP's string conversion `(string) $v`. */
  function Text(v: Scalar): string {
    match v
    case Int(i) => IntToText(i)
    case Dbl(t) => t
    case Str(s) => s
    case Bool(b) => if b then "1" else ""
    case Null => ""
  }

  /**
    A string stands for UTF-8 text: the number of bytes the UTF-8 encoding
    of one character takes.
   */
  function CharBytes(c: char): (n: nat)
    ensures 1 <= n <= 4
    ensures n == 1 <==> c as int < 0x80
  {
    if c as int < 0x80 then 1
    else if c as int < 0x800 then 2
    else if c as int < 0x1_0000 then 3
    else 4
  }

  /** PHP's `strlen($s)`: the length of the UTF-8 encoding of s, in bytes. */
  function ByteLength(s: string): (n: nat)
    ensures |s| <= n <= 4 * |s|
  {
    if s == [] then 0 else ByteLength(s[..|s| - 1]) + CharBytes(s[|s| - 1])
  }

  /** For ASCII text, bytes and characters agree. */
  lemma {:induction false} AsciiByteLength(s: string)
    requires forall k | 0 <= k < |s| :: s[k] as int < 0x80
    ensures ByteLength(s) == |s|
  {
    if s != [] {
      AsciiByteLength(s[..|s| - 1]);
    }
  }

  /** Text of two-byte characters (Latin letters with accents, Greek, Cyrillic, ...) has twice as many bytes. */
  lemma {:induction false} TwoByteLength(s: string)
    requires forall k | 0 <= k < |s| :: 0x80 <= s[k] as int < 0x800
    ensures ByteLength(s) == 2 * |s|
  {
    if s != [] {
      TwoByteLength(s[..|s| - 1]);
    }
  }

  /** PHP's `empty($v)` for a scalar. */
  predicate IsEmpty(v: Scalar) {
    match v
    case Int(i) => i == 0
    case Dbl(t) => t == "0" || t == "-0"
    case Str(s) => s == "" || s == "0"
    case Bool(b) => !b
    case Null => true
  }

  /** The white space PHP skips before a number: space, \t, \n, \r, \v and \f. */
  predicate IsSpace(c: char) {
    c == ' ' || c == '\t' || c == '\n' || c == '\r' || c == '\U{000B}' || c == '\U{000C}'
  }

  function SkipSpace(s: string): string {
    if s != [] && IsSpace(s[0]) then SkipSpace(s[1..]) else s
  }

  /** The longest run of decimal digits at the start of s. */
  function DigitPrefix(s: string): (ds: string)
    ensures |ds| <= |s| && ds == s[..|ds|]
    ensures forall k | 0 <= k < |ds| :: IsDigit(ds[k])
    ensures |ds| < |s| ==> !IsDigit(s[|ds|])
  {
    if s != [] && IsDigit(s[0]) then [s[0]] + DigitPrefix(s[1..]) else ""
  }

  /** The number a run of decimal digits denotes. */
  function DigitsValue(ds: string): nat
    requires forall k | 0 <= k < |ds| :: IsDigit(ds[k])
  {
    if ds == [] then 0 else DigitsValue(ds[..|ds| - 1]) * 10 + DigitValue(ds[|ds| - 1])
  }

  /** A string-to-integer conversion beyond the 64-bit range gives the nearest bound. */
  function Saturate(n: int): PhpInt {
    if n < MinInt then MinInt else if n > MaxInt then MaxInt else n
  }

  /**
    PHP's `(int) $s` for a string: leading white space, an optional sign,
    then the longest run of decimal digits; whatever follows is ignored.
   */
  function LeadingInt(s: string): PhpInt {
    var t := SkipSpace(s);
    if t != [] && (t[0] == '-' || t[0] == '+') then
      var m: int := DigitsValue(DigitPrefix(t[1..]));
      Saturate(if t[0] == '-' then -m else m)
    else
      Saturate(DigitsValue(DigitPrefix(t)))
  }

  /** PHP's `(int) $v`. */
  function ToInt(v: Scalar): PhpInt {
    match v
    case Int(i) => i
    case Dbl(t) => LeadingInt(t)
    case Str(s) => LeadingInt(s)
    case Bool(b) => if b then 1 else 0
    case Null => 0
  }

  lemma {:induction false} NatTextValue(n: nat)
    ensures DigitsValue(NatToText(n)) == n
    decreases n
  {
    if n >= 10 {
      var t := NatToText(n);
      assert t[..|t| - 1] == NatToText(n / 10);
      NatTextValue(n / 10);
    }
  }

  lemma {:induction false} AllDigitsPrefix(s: string)
    requires forall k | 0 <= k < |s| :: IsDigit(s[k])
    ensures DigitPrefix(s) == s
  {
    if s != [] {
      AllDigitsPrefix(s[1..]);
    }
  }

  /** Reading back the rendering of an integer gives that integer. */
  lemma IntTextRoundTrip(i: PhpInt)
    ensures LeadingInt(IntToText(i)) == i
    ensures ToInt(Str(Text(Int(i)))) == i
  {
    var t := IntToText(i);
    assert SkipSpace(t) == t;
    if i < 0 {
      var n: nat := -(i as int);
      assert t[1..] == NatToText(n);
      AllDigitsPrefix(t[1..]);
      NatTextValue(n);
    } else {
      AllDigitsPrefix(t);
      NatTextValue(i);
    }
  }

  /** Apart from floats, a value is empty exactly when its string form is "" or "0". */
  lemma EmptyMatchesText(v: Scalar)
    requires !v.Dbl?
    ensures IsEmpty(v) <==> Text(v) == "" || Text(v) == "0"
  {
    if v.Int? && 0 <= v.i && IntToText(v.i) == "0" {
      NatTextValue(v.i);
      assert DigitsValue("0") == 0;
    }
  }
}
