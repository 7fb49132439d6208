/**
 * The part of PHP 7's value semantics that the validator relies on: the four
 * kinds of value a field or a rule token can hold, string conversion, integer
 * conversion, `is_numeric`, and the loose comparison behind `<`, `>`, `==`,
 * `!=` and `in_array`.
 */
module Php {

  /** A PHP scalar as the engine sees it: a data-source value or a rule token. */
  datatype Value = Str(s: string) | Int(i: int) | Bool(b: bool) | Null

  datatype Option<T> = None | Some(value: T)

  predicate IsDigit(c: char) { '0' <= c <= '9' }

  predicate AllDigits(s: string) { forall k :: 0 <= k < |s| ==> IsDigit(s[k]) }

  function DigitOf(c: char): (d: nat)
    requires IsDigit(c)
    ensures d < 10
  {
    c as int - '0' as int
  }

  function DigitChar(d: nat): (c: char)
    requires d < 10
    ensures IsDigit(c) && DigitOf(c) == d
  {
    (d + '0' as int) as char
  }

  /** Decimal digits of a natural number, most significant first, without leading zeros. */
  function NatToDecimal(n: nat): (r: string)
    ensures |r| > 0 && AllDigits(r)
    decreases n
  {
    if n < 10 then [DigitChar(n)] else NatToDecimal(n / 10) + [DigitChar(n % 10)]
  }

  /** The number a string of decimal digits denotes. */
  function DecimalValue(d: string): nat
    requires AllDigits(d)
  {
    if d == [] then 0 else DecimalValue(d[..|d| - 1]) * 10 + DigitOf(d[|d| - 1])
  }

  lemma {:induction false} DecimalRoundTrip(n: nat)
    ensures DecimalValue(NatToDecimal(n)) == n
    decreases n
  {
    if n >= 10 {
      var prefix := NatToDecimal(n / 10);
      var r := prefix + [DigitChar(n % 10)];
      assert r[..|r| - 1] == prefix;
      DecimalRoundTrip(n / 10);
    }
  }

  /** `(string)$i` for an integer. */
  function IntToString(i: int): string
  {
    if i < 0 then "-" + NatToDecimal(-i) else NatToDecimal(i)
  }

  /** `(string)$v`: booleans become "1" and "", null becomes "". */
  function ToText(v: Value): string
  {
    match v
    case Str(s) => s
    case Int(i) => IntToString(i)
    case Bool(b) => if b then "1" else ""
    case Null => ""
  }

  /** `(bool)$v`: "" and "0", 0, false and null are false. */
  predicate ToBool(v: Value)
  {
    match v
    case Str(s) => s != "" && s != "0"
    case Int(i) => i != 0
    case Bool(b) => b
    case Null => false
  }

  /** Blanks PHP skips in front of a numeric string. */
  predicate IsBlank(c: char)
  {
    c == ' ' || c == '\t' || c == '\n' || c == '\r' || c == '\U{0B}' || c == '\U{0C}'
  }

  function SkipBlanks(s: string): (r: string)
    ensures |r| <= |s| && r == s[|s| - |r|..]
    ensures r == [] || !IsBlank(r[0])
  {
    if s != [] && IsBlank(s[0]) then SkipBlanks(s[1..]) else s
  }

  /** The longest prefix of `s` made of decimal digits. */
  function DigitPrefix(s: string): (r: string)
    ensures AllDigits(r) && |r| <= |s| && r == s[..|r|]
    ensures |r| < |s| ==> !IsDigit(s[|r|])
  {
    if s != [] && IsDigit(s[0]) then [s[0]] + DigitPrefix(s[1..]) else []
  }

  lemma {:induction false} DigitPrefixOfDigits(s: string)
    requires AllDigits(s)
    ensures DigitPrefix(s) == s
  {
    if s != [] {
      DigitPrefixOfDigits(s[1..]);
    }
  }

  function SignedDigits(t: string): string
  {
    if t != [] && (t[0] == '-' || t[0] == '+') then t[1..] else t
  }

  /**
   * `is_numeric` for a string, restricted to integer literals: optional
   * leading blanks, an optional sign and at least one digit, nothing after.
   */
  predicate IsNumericText(s: string)
  {
    var body := SignedDigits(SkipBlanks(s));
    body != [] && AllDigits(body)
  }

  /**
   * The integer a string converts to (`(int)$s`, and the conversion PHP 7
   * applies when a string meets an integer in a comparison): blanks, sign and
   * the longest run of digits; 0 when there are none.
   */
  function LeadingInt(s: string): int
  {
    var t := SkipBlanks(s);
    var magnitude: int := DecimalValue(DigitPrefix(SignedDigits(t)));
    if t != [] && t[0] == '-' then -magnitude else magnitude
  }

  lemma IntToStringRoundTrip(i: int)
    ensures IsNumericText(IntToString(i))
    ensures LeadingInt(IntToString(i)) == i
  {
    if i < 0 {
      assert IntToString(i) == "-" + NatToDecimal(-i);
      NegativeTextRoundTrip(-i);
    } else {
      assert IntToString(i) == NatToDecimal(i);
      DecimalTextRoundTrip(i);
    }
  }

  lemma DecimalTextRoundTrip(n: nat)
    ensures IsNumericText(NatToDecimal(n))
    ensures LeadingInt(NatToDecimal(n)) == n
  {
    var digits := NatToDecimal(n);
    DigitPrefixOfDigits(digits);
    DecimalRoundTrip(n);
    UnsignedText(digits);
    assert DigitPrefix(SignedDigits(digits)) == digits;
  }

  lemma NegativeTextRoundTrip(n: nat)
    requires n > 0
    ensures IsNumericText("-" + NatToDecimal(n))
    ensures LeadingInt("-" + NatToDecimal(n)) == -(n as int)
  {
    var digits := NatToDecimal(n);
    var s := "-" + digits;
    DigitPrefixOfDigits(digits);
    DecimalRoundTrip(n);
    assert s[0] == '-' && s[1..] == digits;
    assert SkipBlanks(s) == s;
    assert SignedDigits(s) == digits;
    assert DigitPrefix(SignedDigits(s)) == digits;
  }

  lemma UnsignedText(digits: string)
    requires digits != [] && AllDigits(digits)
    ensures SkipBlanks(digits) == digits && SignedDigits(digits) == digits
  {
    assert IsDigit(digits[0]);
  }

  /** `is_numeric($v)`. */
  predicate IsNumeric(v: Value)
  {
    v.Int? || (v.Str? && IsNumericText(v.s))
  }

  /** `(int)$v`. */
  function ToInt(v: Value): int
  {
    match v
    case Str(s) => LeadingInt(s)
    case Int(i) => i
    case Bool(b) => if b then 1 else 0
    case Null => 0
  }

  function CompareInts(x: int, y: int): (r: int)
    ensures r == 0 <==> x == y
    ensures r < 0 <==> x < y
    ensures r > 0 <==> x > y
  {
    if x < y then -1 else if x > y then 1 else 0
  }

  /** `strcmp`, reduced to its sign: byte-wise lexicographic order. */
  function LexCompare(a: string, b: string): (r: int)
    ensures -1 <= r <= 1
    ensures r == 0 <==> a == b
  {
    if a == [] && b == [] then 0
    else if a == [] then -1
    else if b == [] then 1
    else if a[0] < b[0] then -1
    else if a[0] > b[0] then 1
    else
      var rest := LexCompare(a[1..], b[1..]);
      assert a == [a[0]] + a[1..] && b == [b[0]] + b[1..];
      rest
  }

  lemma {:induction false} LexCompareAntisymmetric(a: string, b: string)
    ensures LexCompare(a, b) == -LexCompare(b, a)
  {
    if a != [] && b != [] && a[0] == b[0] {
      LexCompareAntisymmetric(a[1..], b[1..]);
    }
  }

  function BoolRank(v: Value): int { if ToBool(v) then 1 else 0 }

  /**
   * PHP 7's `$a <=> $b` on these values: null against a string compares ""
   * with the string; any other pairing with a boolean or null compares both
   * as booleans; two numeric strings, or an integer and a string, compare as
   * numbers; two strings that are not both numeric compare byte-wise.
   */
  function Compare(a: Value, b: Value): (r: int)
    ensures -1 <= r <= 1
  {
    if a.Null? && b.Str? then LexCompare("", b.s)
    else if a.Str? && b.Null? then LexCompare(a.s, "")
    else if a.Bool? || b.Bool? || a.Null? || b.Null? then CompareInts(BoolRank(a), BoolRank(b))
    else if a.Int? && b.Int? then CompareInts(a.i, b.i)
    else if a.Int? then CompareInts(a.i, LeadingInt(b.s))
    else if b.Int? then CompareInts(LeadingInt(a.s), b.i)
    else if IsNumericText(a.s) && IsNumericText(b.s) then CompareInts(LeadingInt(a.s), LeadingInt(b.s))
    else LexCompare(a.s, b.s)
  }

  /** `$a == $b`. */
  predicate LooseEquals(a: Value, b: Value) { Compare(a, b) == 0 }

  lemma CompareAntisymmetric(a: Value, b: Value)
    ensures Compare(a, b) == -Compare(b, a)
  {
    if a.Str? && b.Str? {
      LexCompareAntisymmetric(a.s, b.s);
    } else if a.Null? && b.Str? {
      LexCompareAntisymmetric("", b.s);
    } else if a.Str? && b.Null? {
      LexCompareAntisymmetric(a.s, "");
    }
  }

  /** Loose equality is reflexive on every value. */
  lemma LooseEqualsReflexive(a: Value)
    ensures LooseEquals(a, a)
  {
  }

  /** An integer meets a string token as the integer the token converts to. */
  lemma CompareIntWithString(x: int, t: string)
    ensures Compare(Int(x), Str(t)) == CompareInts(x, LeadingInt(t))
  {
  }

  /** Two numeric strings compare as the integers they denote, never byte-wise. */
  lemma CompareNumericStrings(s: string, t: string)
    requires IsNumericText(s) && IsNumericText(t)
    ensures Compare(Str(s), Str(t)) == CompareInts(LeadingInt(s), LeadingInt(t))
  {
  }

  /**
   * The decimal text of an integer compares, with an integer or with the
   * text of another integer, exactly as the integer itself does.
   */
  lemma {:induction false} CompareIntWithText(x: int, y: int)
    ensures Compare(Int(x), Str(IntToString(y))) == CompareInts(x, y)
    ensures Compare(Str(IntToString(x)), Str(IntToString(y))) == CompareInts(x, y)
  {
    var tx, ty := IntToString(x), IntToString(y);
    IntToStringRoundTrip(x);
    IntToStringRoundTrip(y);
    CompareIntWithString(x, ty);
    CompareNumericStrings(tx, ty);
  }
}
