/**
 * The built-in rules of lib/Controller/Validator/Basic.php, as functions of
 * the accumulator and of the arguments the rule pulls from the chain. A
 * validator answers `Return(Null)` (PHP: it returns nothing) or fails; a
 * conversion rule (`to_...`) returns the new value. The engine that pulls the
 * arguments and dispatches by name is in engine.dfy.
 */
module BasicRules {
  import opened Php
  import opened PhpText

  /** What a rule handler hands back to the engine. */
  datatype Reply =
    | Return(value: Value)       // the handler's return value; Null when it returns nothing
    | Fail(message: string)      // the handler called fail()
    | Undefined(name: string)     // no method of that name: PHP stops with an error that is not a validity failure
    | Unmodelled(name: string)    // a Basic.php rule that this model does not cover

  /** `rule_required`: fails on '' and false, identically; returns nothing otherwise. */
  function Required(a: Value): (r: Reply)
    ensures r.Fail? <==> a == Str("") || a == Bool(false)
    ensures !r.Fail? ==> r == Return(Null)
  {
    if a == Str("") || a == Bool(false) then Fail("Must not be empty") else Return(Null)
  }

  /**
   * `required` is narrower than PHP's notion of an empty value: a missing
   * field (null), the integer 0 and the string "0" all pass it, yet every
   * value it rejects is falsy.
   */
  lemma RequiredAcceptsFalsyValues(a: Value)
    ensures Required(a).Fail? ==> !ToBool(a)
    ensures !Required(Null).Fail? && !Required(Int(0)).Fail? && !Required(Str("0")).Fail?
  {
  }

  /**
   * `rule_between` of Basic.php (two arguments, min then max): a numeric
   * value is compared with the bounds, any other value by the length of its
   * text; both bounds are inclusive.
   */
  function Between(a: Value, min: Value, max: Value): (r: Reply)
    ensures r.Fail? || r == Return(Null)
    ensures IsNumeric(a) ==> (r.Fail? <==> Compare(a, min) < 0 || Compare(a, max) > 0)
    ensures !IsNumeric(a) ==>
      var len := Int(|ToText(a)|);
      (r.Fail? <==> Compare(len, min) < 0 || Compare(len, max) > 0)
  {
    if IsNumeric(a) then
      if Compare(a, min) < 0 || Compare(a, max) > 0 then Fail("Must be between {{arg1}} and {{arg2}}")
      else Return(Null)
    else
      var len := Int(|ToText(a)|);
      if Compare(len, min) < 0 || Compare(len, max) > 0 then Fail("Must be between {{arg1}} and {{arg2}} characters long")
      else Return(Null)
  }

  /** With integer bounds written as decimal text, an integer value passes exactly when it lies in [lo, hi]. */
  lemma BetweenIntegers(x: int, lo: int, hi: int)
    ensures Between(Int(x), Str(IntToString(lo)), Str(IntToString(hi))).Fail? <==> x < lo || x > hi
    ensures Between(Str(IntToString(x)), Str(IntToString(lo)), Str(IntToString(hi))).Fail? <==> x < lo || x > hi
  {
    CompareIntWithText(x, lo);
    CompareIntWithText(x, hi);
    IntToStringRoundTrip(x);
    CompareAntisymmetric(Str(IntToString(x)), Str(IntToString(lo)));
    CompareAntisymmetric(Str(IntToString(x)), Str(IntToString(hi)));
  }

  /** A string that is not numeric passes exactly when its length lies in [lo, hi]. */
  lemma BetweenLength(s: string, lo: int, hi: int)
    requires !IsNumericText(s)
    ensures Between(Str(s), Str(IntToString(lo)), Str(IntToString(hi))).Fail? <==> |s| < lo || |s| > hi
  {
    CompareIntWithText(|s|, lo);
    CompareIntWithText(|s|, hi);
  }

  /** `rule_eq` (one argument): fails unless the value loosely equals it. */
  function Eq(a: Value, b: Value): (r: Reply)
    ensures r.Fail? <==> !LooseEquals(a, b)
    ensures !r.Fail? ==> r == Return(Null)
  {
    if !LooseEquals(a, b) then Fail("Must be equal to {{arg1}}") else Return(Null)
  }

  /** `rule_ne` (one argument): fails when the value loosely equals it. */
  function Ne(a: Value, b: Value): (r: Reply)
    ensures r.Fail? <==> LooseEquals(a, b)
    ensures !r.Fail? ==> r == Return(Null)
  {
    if LooseEquals(a, b) then Fail("Must not be equal to {{arg1}}") else Return(Null)
  }

  /**
   * `eq` and `ne` are complementary: on every value and argument exactly one
   * of them fails, and `eq` fails exactly on a non-match. Two numeric strings
   * are matched as numbers ("01" equals "1"); other strings must be identical.
   */
  lemma EqNeComplementary(a: Value, b: Value)
    ensures Eq(a, b).Fail? != Ne(a, b).Fail?
    ensures Eq(a, b).Fail? <==> !LooseEquals(a, b)
  {
  }

  /** Two strings that are not both numeric are equal for `eq` only when they are identical. */
  lemma EqOnText(s: string, t: string)
    requires !IsNumericText(s) || !IsNumericText(t)
    ensures Eq(Str(s), Str(t)).Fail? <==> s != t
  {
  }

  /** Two numeric strings are compared as numbers: `eq|1` accepts "01". */
  lemma EqOnNumericText()
    ensures Eq(Str("01"), Str("1")) == Return(Null)
  {
    ZeroOneIsOne();
    IntToStringRoundTrip(1);
    assert IntToString(1) == "1";
    CompareNumericStrings("01", "1");
  }

  lemma ZeroOneIsOne()
    ensures IsNumericText("01") && LeadingInt("01") == 1
  {
    assert AllDigits("01");
    UnsignedText("01");
    DigitPrefixOfDigits("01");
    assert "01"[..1] == "0" && "0"[..0] == "";
    assert DecimalValue("0") == 0;
  }

  /** The value `get($name)` gives for a field: null when the data source has no such field. */
  function Lookup(source: map<string, Value>, name: string): Value
  {
    if name in source then source[name] else Null
  }

  /** `rule_eqf` (one argument, a field name): fails unless the value loosely equals that field's value. */
  function Eqf(a: Value, other: Value, source: map<string, Value>): (r: Reply)
    ensures r.Fail? <==> !LooseEquals(a, Lookup(source, ToText(other)))
    ensures !r.Fail? ==> r == Return(Null)
  {
    if !LooseEquals(a, Lookup(source, ToText(other))) then Fail("Must be same value as field \"{{arg1}}\"")
    else Return(Null)
  }

  /** `rule_nef` (one argument, a field name): fails when the value loosely equals that field's value. */
  function Nef(a: Value, other: Value, source: map<string, Value>): (r: Reply)
    ensures r.Fail? <==> LooseEquals(a, Lookup(source, ToText(other)))
    ensures !r.Fail? ==> r == Return(Null)
  {
    if LooseEquals(a, Lookup(source, ToText(other))) then Fail("Must not be same as field \"{{arg1}}\"")
    else Return(Null)
  }

  /** `prep_in_vals`: the pulled argument split at every ',' with each piece trimmed. */
  function InValues(list: Value): (r: seq<string>)
    ensures |r| == CountIn(ToText(list), {','}) + 1
    ensures forall k :: 0 <= k < |r| ==> r[k] == Trim(Split(ToText(list), {','})[k])
  {
    var pieces := Split(ToText(list), {','});
    seq(|pieces|, k requires 0 <= k < |pieces| => Trim(pieces[k]))
  }

  /** `in_array($a, $vals)` with PHP's loose comparison. */
  predicate InArray(a: Value, vals: seq<string>)
  {
    exists k :: 0 <= k < |vals| && LooseEquals(a, Str(vals[k]))
  }

  /** `rule_in` (one argument): fails unless the value matches an entry of the list. */
  function In(a: Value, list: Value): (r: Reply)
    ensures r.Fail? <==> !InArray(a, InValues(list))
    ensures !r.Fail? ==> r == Return(Null)
  {
    if !InArray(a, InValues(list)) then Fail("Not a valid value") else Return(Null)
  }

  /** `rule_not_in` (one argument): fails when the value matches an entry of the list. */
  function NotIn(a: Value, list: Value): (r: Reply)
    ensures r.Fail? <==> InArray(a, InValues(list))
    ensures !r.Fail? ==> r == Return(Null)
  {
    if InArray(a, InValues(list)) then Fail("Not a valid value") else Return(Null)
  }

  /**
   * `in` and `not_in` on the same list are complementary; blanks around an
   * entry do not matter: `in|a, b` accepts "b".
   */
  lemma InNotInComplementary(a: Value, list: Value)
    ensures In(a, list).Fail? != NotIn(a, list).Fail?
  {
  }

  /** Blanks around an entry do not matter: `in|a, b` accepts "b". */
  lemma InIgnoresBlanks()
    ensures In(Str("b"), Str("a, b")) == Return(Null)
  {
    var vals := InValues(Str("a, b"));
    SplitSample();
    TrimSample();
    assert vals[1] == "b";
    LooseEqualsReflexive(Str("b"));
    assert InArray(Str("b"), vals);
  }

  lemma TrimSample()
    ensures Trim(" b") == "b"
  {
    assert " b"[0] in TrimChars && " b"[1..] == "b";
    assert "b"[0] !in TrimChars;
    assert TrimLeft(" b") == "b";
    assert TrimRight("b") == "b";
  }

  lemma SplitSample()
    ensures Split("a, b", {','}) == ["a", " b"]
  {
    assert "a, b"[1..] == ", b" && ", b"[1..] == " b";
    assert NoneIn(" b", {','});
    SplitNoSeparator(" b", ',');
    var rest := Split(", b", {','});
    assert rest == ["", " b"];
    assert ['a'] + rest[0] == "a";
  }

  /** The length `mb_str_len` gives, counted in characters of the value's text. */
  function TextLength(a: Value): int { |ToText(a)| }

  /** `rule_len_eq` (one argument): fails when the length differs from it. */
  function LenEq(a: Value, target: Value): (r: Reply)
    ensures r.Fail? <==> !LooseEquals(target, Int(TextLength(a)))
    ensures !r.Fail? ==> r == Return(Null)
  {
    if Compare(target, Int(TextLength(a))) != 0 then Fail("Must be {{arg1}} characters long") else Return(Null)
  }

  /** `rule_len_gt` (one argument): fails when the length is at most it. */
  function LenGt(a: Value, target: Value): (r: Reply)
    ensures r.Fail? <==> Compare(Int(TextLength(a)), target) <= 0
    ensures !r.Fail? ==> r == Return(Null)
  {
    if Compare(Int(TextLength(a)), target) <= 0 then Fail("Must be more than {{arg1}} characters long") else Return(Null)
  }

  /** `rule_len_lt` (one argument): fails when the length is at least it. */
  function LenLt(a: Value, target: Value): (r: Reply)
    ensures r.Fail? <==> Compare(Int(TextLength(a)), target) >= 0
    ensures !r.Fail? ==> r == Return(Null)
  {
    if Compare(Int(TextLength(a)), target) >= 0 then Fail("Must be less than {{arg1}} characters long") else Return(Null)
  }

  /** With an integer target written as decimal text, the three length rules compare the length as integers. */
  lemma LengthRules(a: Value, n: int)
    ensures LenEq(a, Str(IntToString(n))).Fail? <==> TextLength(a) != n
    ensures LenGt(a, Str(IntToString(n))).Fail? <==> TextLength(a) <= n
    ensures LenLt(a, Str(IntToString(n))).Fail? <==> TextLength(a) >= n
  {
    CompareIntWithText(TextLength(a), n);
    CompareAntisymmetric(Str(IntToString(n)), Int(TextLength(a)));
  }

  /**
   * A pattern anchored with PCRE's `$` (no D modifier) matches at the end of
   * the subject or just before a final newline.
   */
  predicate AnchoredMatch(s: string, body: string -> bool)
  {
    body(s) || (s != [] && s[|s| - 1] == '\n' && body(s[..|s| - 1]))
  }

  predicate DigitsOnly(s: string) { forall k :: 0 <= k < |s| ==> IsDigitChar(s[k]) }
  predicate LettersOnly(s: string) { s != [] && forall k :: 0 <= k < |s| ==> IsLetter(s[k]) }
  predicate IsAlphaNumChar(c: char) { IsLetter(c) || IsDigitChar(c) }
  predicate IsAlphaNumDashChar(c: char) { IsAlphaNumChar(c) || c == '_' || c == '-' }
  predicate AlphaNumOnly(s: string) { s != [] && forall k :: 0 <= k < |s| ==> IsAlphaNumChar(s[k]) }
  predicate AlphaNumDashOnly(s: string) { s != [] && forall k :: 0 <= k < |s| ==> IsAlphaNumDashChar(s[k]) }

  /** A validator that fails with `message` unless the value's text matches `body` up to PCRE's `$`. */
  function PatternRule(a: Value, body: string -> bool, message: string): (r: Reply)
    ensures r.Fail? <==> !AnchoredMatch(ToText(a), body)
    ensures !r.Fail? ==> r == Return(Null)
  {
    if AnchoredMatch(ToText(a), body) then Return(Null) else Fail(message)
  }

  /** `rule_int`: `^[0-9]*$`, so the empty string passes too. */
  function IntRule(a: Value): Reply { PatternRule(a, DigitsOnly, "Must be an integer: eg 1234") }

  /** `rule_alpha`: `^([A-Za-z])+$`. */
  function AlphaRule(a: Value): Reply { PatternRule(a, LettersOnly, "Must contain only letters") }

  /** `rule_alpha_num`: `^([a-zA-Z0-9])+$`. */
  function AlphaNumRule(a: Value): Reply { PatternRule(a, AlphaNumOnly, "Must contain only digits and letters") }

  /** `rule_alpha_num_dash`: `^([a-zA-Z0-9_-])+$`. */
  function AlphaNumDashRule(a: Value): Reply
  {
    PatternRule(a, AlphaNumDashOnly, "Must contain only letters, numbers and dashes")
  }

  /** `^\d{5}(-\d{4})?$` without the anchor: five digits, optionally a dash and four more. */
  predicate ZipShape(s: string)
  {
    (|s| == 5 && DigitsOnly(s)) || (|s| == 10 && DigitsOnly(s[..5]) && s[5] == '-' && DigitsOnly(s[6..]))
  }

  /** `rule_zip`. */
  function ZipRule(a: Value): Reply { PatternRule(a, ZipShape, "Must be a valid ZIP code") }

  /**
   * What the rules above accept, on plain strings: `int` accepts digits (the
   * empty string included), `alpha` a non-empty run of ASCII letters, `zip`
   * "12345" and "12345-6789"; PCRE's `$` also lets a single trailing newline through.
   */
  lemma PatternRulesOnSamples()
    ensures IntRule(Str("")) == Return(Null) && IntRule(Str("12a")).Fail?
    ensures AlphaRule(Str("")).Fail? && AlphaRule(Str("abC")) == Return(Null) && AlphaRule(Str("ab1")).Fail?
    ensures ZipRule(Str("12345")) == Return(Null) && ZipRule(Str("12345-6789")) == Return(Null)
    ensures ZipRule(Str("1234")).Fail? && ZipRule(Str("12345\n")) == Return(Null)
  {
    assert !DigitsOnly("12a") by { assert !IsDigitChar("12a"[2]); }
    assert !LettersOnly("ab1") by { assert !IsLetter("ab1"[2]); }
    assert "12345\n"[..5] == "12345";
    assert "12345-6789"[..5] == "12345" && "12345-6789"[6..] == "6789";
    assert !ZipShape("1234");
    assert !ZipShape("1234"[..3]);
  }

  /** Hour, minute and, when given, second of a text shaped `HH:MM[:SS[.f+]]`. */
  datatype Clock = Clock(hour: nat, minute: nat, second: nat, hasSecond: bool)

  function TwoDigits(s: string): nat
    requires |s| == 2 && DigitsOnly(s)
  {
    DigitOf(s[0]) * 10 + DigitOf(s[1])
  }

  /**
   * The groups of `^([0-9]{2}):([0-9]{2})(?::([0-9]{2})(?:(?:\.[0-9]{1,}))?)?`
   * on a whole string, or None when it does not have that shape.
   */
  function ClockShape(s: string): (r: Option<Clock>)
    ensures r.Some? ==> r.value.hour < 100 && r.value.minute < 100 && r.value.second < 100
  {
    if |s| >= 5 && DigitsOnly(s[..2]) && s[2] == ':' && DigitsOnly(s[3..5]) then
      var h, m := TwoDigits(s[..2]), TwoDigits(s[3..5]);
      if |s| == 5 then Some(Clock(h, m, 0, false))
      else if |s| >= 8 && s[5] == ':' && DigitsOnly(s[6..8])
              && (|s| == 8 || (|s| >= 10 && s[8] == '.' && DigitsOnly(s[9..]))) then
        Some(Clock(h, m, TwoDigits(s[6..8]), true))
      else None
    else None
  }

  /** The groups the anchored match captures, trying the whole text first and then the text before a final newline. */
  function ClockMatch(s: string): Option<Clock>
  {
    var whole := ClockShape(s);
    if whole.Some? then whole
    else if s != [] && s[|s| - 1] == '\n' then ClockShape(s[..|s| - 1])
    else None
  }

  /** `rule_iso_time`: the shape must match; then hours above 24, minutes above 59 and given seconds above 59 fail. */
  function IsoTimeRule(a: Value): (r: Reply)
    ensures r.Fail? || r == Return(Null)
    ensures !r.Fail? <==>
      var c := ClockMatch(ToText(a));
      c.Some? && c.value.hour <= 24 && c.value.minute <= 59 && (c.value.hasSecond ==> c.value.second <= 59)
  {
    var c := ClockMatch(ToText(a));
    if c.None? || c.value.hour > 24 || c.value.minute > 59 || (c.value.hasSecond && c.value.second > 59) then
      Fail("Must be a valid ISO time")
    else Return(Null)
  }

  /** A text `HH:MM:SS` of digits matches, with hour, minute and second read off its digit pairs. */
  lemma EightCharClock(s: string)
    requires |s| == 8 && s[2] == ':' && s[5] == ':'
    requires IsDigit(s[0]) && IsDigit(s[1]) && IsDigit(s[3]) && IsDigit(s[4]) && IsDigit(s[6]) && IsDigit(s[7])
    ensures ClockMatch(s) == Some(Clock(DigitOf(s[0]) * 10 + DigitOf(s[1]), DigitOf(s[3]) * 10 + DigitOf(s[4]),
                                        DigitOf(s[6]) * 10 + DigitOf(s[7]), true))
  {
    assert s[..2] == [s[0], s[1]] && s[3..5] == [s[3], s[4]] && s[6..8] == [s[6], s[7]];
  }

  /** Times the repository's tests expect `iso_time` to accept: hour 24 passes. */
  lemma IsoTimeAcceptsHours()
    ensures IsoTimeRule(Str("01:01:01")) == Return(Null)
    ensures IsoTimeRule(Str("24:01:01")) == Return(Null)
  {
    EightCharClock("01:01:01");
    EightCharClock("24:01:01");
  }

  /** Times the repository's tests expect `iso_time` to accept: minute and second 59. */
  lemma IsoTimeAcceptsMinutesSeconds()
    ensures IsoTimeRule(Str("01:59:01")) == Return(Null)
    ensures IsoTimeRule(Str("01:01:59")) == Return(Null)
  {
    EightCharClock("01:59:01");
    EightCharClock("01:01:59");
  }

  /** A time the repository's tests expect `iso_time` to accept: a fraction of a second follows the seconds. */
  lemma IsoTimeAcceptsFraction()
    ensures IsoTimeRule(Str("01:01:59.12345")) == Return(Null)
  {
    var f := "01:01:59.12345";
    assert f[..2] == "01" && f[3..5] == "01" && f[6..8] == "59" && f[9..] == "12345";
    assert DigitsOnly("12345");
    assert ClockShape(f) == Some(Clock(1, 1, 59, true));
  }

  /** The times the repository's tests expect `iso_time` to reject: hour 25, minute 60, second 60. */
  lemma IsoTimeRejectsTestTimes()
    ensures IsoTimeRule(Str("25:01:01")).Fail?
    ensures IsoTimeRule(Str("01:60:01")).Fail?
    ensures IsoTimeRule(Str("01:01:60")).Fail?
  {
    EightCharClock("25:01:01");
    EightCharClock("01:60:01");
    EightCharClock("01:01:60");
  }

  /** The number a one-character string stands for in PHP arithmetic: its digit, or 0. */
  function CharNumber(c: char): nat
  {
    if IsDigitChar(c) then c as int - '0' as int else 0
  }

  /** What the loop of `rule_credit_card` adds for one character: every second one is doubled, and a double above 9 becomes (n % 10) + 1. */
  function LuhnTerm(c: char, doubled: bool): nat
  {
    var n := CharNumber(c);
    if doubled then (if n * 2 > 9 then (n * 2) % 10 + 1 else n * 2) else n
  }

  /**
   * The sum of the terms of s[i..]: the rightmost character is not doubled,
   * the one before it is, and so on alternately.
   */
  function LuhnFrom(s: string, i: nat): nat
    decreases |s| - i
  {
    if i >= |s| then 0 else LuhnTerm(s[i], (|s| - 1 - i) % 2 == 1) + LuhnFrom(s, i + 1)
  }

  /** The loop of `rule_credit_card`: walk the string from the right, doubling every second character. */
  method LuhnSum(s: string) returns (sum: nat)
    ensures sum == LuhnFrom(s, 0)
  {
    sum := 0;
    var alt := false;
    var i := |s| - 1;
    while i >= 0
      invariant -1 <= i < |s|
      invariant alt == ((|s| - 1 - i) % 2 == 1)
      invariant sum == LuhnFrom(s, i + 1)
    {
      var n := CharNumber(s[i]);
      if alt {
        n := n * 2;
        if n > 9 {
          n := (n % 10) + 1;
        }
      }
      sum := sum + n;
      alt := !alt;
      i := i - 1;
    }
  }

  /**
   * The doubling step is the textbook Luhn step: a doubled digit above 9 is
   * replaced by the sum of its two digits, which is the double minus 9.
   */
  lemma LuhnTermIsDigitSum(c: char)
    requires IsDigitChar(c)
    ensures LuhnTerm(c, true) == (2 * CharNumber(c)) / 10 + (2 * CharNumber(c)) % 10
    ensures 2 * CharNumber(c) > 9 ==> LuhnTerm(c, true) == 2 * CharNumber(c) - 9
  {
  }

  /** `rule_credit_card`: fails unless the Luhn sum is a multiple of 10 and some character is not '0'. */
  function CreditCard(a: Value): (r: Reply)
    ensures r.Fail? || r == Return(Null)
    ensures !r.Fail? <==> LuhnFrom(ToText(a), 0) % 10 == 0 && Without(ToText(a), {'0'}) != ""
  {
    var s := ToText(a);
    if LuhnFrom(s, 0) % 10 != 0 then Fail("Not a valid card number")
    else if Without(s, {'0'}) == "" then Fail("Not a valid card number")
    else Return(Null)
  }

  /** The sample card numbers the repository's tests expect `credit_card` to accept. */
  lemma CreditCardSamples(s: string)
    requires s in {"4943014034259500", "4843065387981729", "4119148966967",
                   "4037296037813", "5104077633496247", "5232353603130222"}
    ensures CreditCard(Str(s)) == Return(Null)
  {
    if s == "4943014034259500" { CardSample1(s); }
    else if s == "4843065387981729" { CardSample2(s); }
    else if s == "4119148966967" { CardSample3(s); }
    else if s == "4037296037813" { CardSample4(s); }
    else if s == "5104077633496247" { CardSample5(s); }
    else { CardSample6(s); }
  }

  lemma CardSample1(s: string)
    requires s == "4943014034259500"
    ensures CreditCard(Str(s)) == Return(Null)
  {
    assert s[0] == '4';
    assert s[15] == '0' && LuhnFrom(s, 15) == 0;
    assert s[14] == '0' && LuhnFrom(s, 14) == 0;
    assert s[13] == '5' && LuhnFrom(s, 13) == 5;
    assert s[12] == '9' && LuhnFrom(s, 12) == 14;
    assert s[11] == '5' && LuhnFrom(s, 11) == 19;
    assert s[10] == '2' && LuhnFrom(s, 10) == 23;
    assert s[9] == '4' && LuhnFrom(s, 9) == 27;
    assert s[8] == '3' && LuhnFrom(s, 8) == 33;
    assert s[7] == '0' && LuhnFrom(s, 7) == 33;
    assert s[6] == '4' && LuhnFrom(s, 6) == 41;
    assert s[5] == '1' && LuhnFrom(s, 5) == 42;
    assert s[4] == '0' && LuhnFrom(s, 4) == 42;
    assert s[3] == '3' && LuhnFrom(s, 3) == 45;
    assert s[2] == '4' && LuhnFrom(s, 2) == 53;
    assert s[1] == '9' && LuhnFrom(s, 1) == 62;
    assert s[0] == '4' && LuhnFrom(s, 0) == 70;
  }

  lemma CardSample2(s: string)
    requires s == "4843065387981729"
    ensures CreditCard(Str(s)) == Return(Null)
  {
    assert s[0] == '4';
    assert s[15] == '9' && LuhnFrom(s, 15) == 9;
    assert s[14] == '2' && LuhnFrom(s, 14) == 13;
    assert s[13] == '7' && LuhnFrom(s, 13) == 20;
    assert s[12] == '1' && LuhnFrom(s, 12) == 22;
    assert s[11] == '8' && LuhnFrom(s, 11) == 30;
    assert s[10] == '9' && LuhnFrom(s, 10) == 39;
    assert s[9] == '7' && LuhnFrom(s, 9) == 46;
    assert s[8] == '8' && LuhnFrom(s, 8) == 53;
    assert s[7] == '3' && LuhnFrom(s, 7) == 56;
    assert s[6] == '5' && LuhnFrom(s, 6) == 57;
    assert s[5] == '6' && LuhnFrom(s, 5) == 63;
    assert s[4] == '0' && LuhnFrom(s, 4) == 63;
    assert s[3] == '3' && LuhnFrom(s, 3) == 66;
    assert s[2] == '4' && LuhnFrom(s, 2) == 74;
    assert s[1] == '8' && LuhnFrom(s, 1) == 82;
    assert s[0] == '4' && LuhnFrom(s, 0) == 90;
  }

  lemma CardSample3(s: string)
    requires s == "4119148966967"
    ensures CreditCard(Str(s)) == Return(Null)
  {
    assert s[0] == '4';
    assert s[12] == '7' && LuhnFrom(s, 12) == 7;
    assert s[11] == '6' && LuhnFrom(s, 11) == 10;
    assert s[10] == '9' && LuhnFrom(s, 10) == 19;
    assert s[9] == '6' && LuhnFrom(s, 9) == 22;
    assert s[8] == '6' && LuhnFrom(s, 8) == 28;
    assert s[7] == '9' && LuhnFrom(s, 7) == 37;
    assert s[6] == '8' && LuhnFrom(s, 6) == 45;
    assert s[5] == '4' && LuhnFrom(s, 5) == 53;
    assert s[4] == '1' && LuhnFrom(s, 4) == 54;
    assert s[3] == '9' && LuhnFrom(s, 3) == 63;
    assert s[2] == '1' && LuhnFrom(s, 2) == 64;
    assert s[1] == '1' && LuhnFrom(s, 1) == 66;
    assert s[0] == '4' && LuhnFrom(s, 0) == 70;
  }

  lemma CardSample4(s: string)
    requires s == "4037296037813"
    ensures CreditCard(Str(s)) == Return(Null)
  {
    assert s[0] == '4';
    assert s[12] == '3' && LuhnFrom(s, 12) == 3;
    assert s[11] == '1' && LuhnFrom(s, 11) == 5;
    assert s[10] == '8' && LuhnFrom(s, 10) == 13;
    assert s[9] == '7' && LuhnFrom(s, 9) == 18;
    assert s[8] == '3' && LuhnFrom(s, 8) == 21;
    assert s[7] == '0' && LuhnFrom(s, 7) == 21;
    assert s[6] == '6' && LuhnFrom(s, 6) == 27;
    assert s[5] == '9' && LuhnFrom(s, 5) == 36;
    assert s[4] == '2' && LuhnFrom(s, 4) == 38;
    assert s[3] == '7' && LuhnFrom(s, 3) == 43;
    assert s[2] == '3' && LuhnFrom(s, 2) == 46;
    assert s[1] == '0' && LuhnFrom(s, 1) == 46;
    assert s[0] == '4' && LuhnFrom(s, 0) == 50;
  }

  lemma CardSample5(s: string)
    requires s == "5104077633496247"
    ensures CreditCard(Str(s)) == Return(Null)
  {
    assert s[0] == '5';
    assert s[15] == '7' && LuhnFrom(s, 15) == 7;
    assert s[14] == '4' && LuhnFrom(s, 14) == 15;
    assert s[13] == '2' && LuhnFrom(s, 13) == 17;
    assert s[12] == '6' && LuhnFrom(s, 12) == 20;
    assert s[11] == '9' && LuhnFrom(s, 11) == 29;
    assert s[10] == '4' && LuhnFrom(s, 10) == 37;
    assert s[9] == '3' && LuhnFrom(s, 9) == 40;
    assert s[8] == '3' && LuhnFrom(s, 8) == 46;
    assert s[7] == '6' && LuhnFrom(s, 7) == 52;
    assert s[6] == '7' && LuhnFrom(s, 6) == 57;
    assert s[5] == '7' && LuhnFrom(s, 5) == 64;
    assert s[4] == '0' && LuhnFrom(s, 4) == 64;
    assert s[3] == '4' && LuhnFrom(s, 3) == 68;
    assert s[2] == '0' && LuhnFrom(s, 2) == 68;
    assert s[1] == '1' && LuhnFrom(s, 1) == 69;
    assert s[0] == '5' && LuhnFrom(s, 0) == 70;
  }

  lemma CardSample6(s: string)
    requires s == "5232353603130222"
    ensures CreditCard(Str(s)) == Return(Null)
  {
    assert s[0] == '5';
    assert s[15] == '2' && LuhnFrom(s, 15) == 2;
    assert s[14] == '2' && LuhnFrom(s, 14) == 6;
    assert s[13] == '2' && LuhnFrom(s, 13) == 8;
    assert s[12] == '0' && LuhnFrom(s, 12) == 8;
    assert s[11] == '3' && LuhnFrom(s, 11) == 11;
    assert s[10] == '1' && LuhnFrom(s, 10) == 13;
    assert s[9] == '3' && LuhnFrom(s, 9) == 16;
    assert s[8] == '0' && LuhnFrom(s, 8) == 16;
    assert s[7] == '6' && LuhnFrom(s, 7) == 22;
    assert s[6] == '3' && LuhnFrom(s, 6) == 28;
    assert s[5] == '5' && LuhnFrom(s, 5) == 33;
    assert s[4] == '3' && LuhnFrom(s, 4) == 39;
    assert s[3] == '2' && LuhnFrom(s, 3) == 41;
    assert s[2] == '3' && LuhnFrom(s, 2) == 47;
    assert s[1] == '2' && LuhnFrom(s, 1) == 49;
    assert s[0] == '5' && LuhnFrom(s, 0) == 50;
  }

  /** Strings made only of zeros (the empty one included) pass the sum and are rejected by the second test. */
  lemma {:induction false} CreditCardRejectsZeros(s: string)
    requires forall k :: 0 <= k < |s| ==> s[k] == '0'
    ensures CreditCard(Str(s)).Fail?
  {
    ZerosSumToZero(s, 0);
    ZerosVanish(s);
  }

  lemma {:induction false} ZerosSumToZero(s: string, i: nat)
    requires forall k :: 0 <= k < |s| ==> s[k] == '0'
    ensures LuhnFrom(s, i) == 0
    decreases |s| - i
  {
    if i < |s| {
      ZerosSumToZero(s, i + 1);
    }
  }

  lemma {:induction false} ZerosVanish(s: string)
    requires forall k :: 0 <= k < |s| ==> s[k] == '0'
    ensures Without(s, {'0'}) == ""
  {
    if s != [] {
      ZerosVanish(s[1..]);
    }
  }

  /** The character classes the `to_...` filters keep. */
  datatype CharClass = Letters | LettersDigits | LettersDigitsDash | NonSpace | NonNasty

  /** The characters `rule_to_strip_nasties` removes: * ^ < ? > ! " ( ) | \ / [ ] + = # % ; ~ and the backquote. */
  predicate IsNasty(c: char)
  {
    c in {'*', '^', '<', '?', '>', '!', '"', '(', ')', '|', '\\', '/', '[', ']', '+', '=', '#', '%', ';', '~', '`'}
  }

  predicate InClass(cls: CharClass, c: char)
  {
    match cls
    case Letters => IsLetter(c)
    case LettersDigits => IsAlphaNumChar(c)
    case LettersDigitsDash => IsAlphaNumDashChar(c)
    case NonSpace => !IsSpace(c)
    case NonNasty => !IsNasty(c)
  }

  function ClassTest(cls: CharClass): char -> bool
  {
    c => InClass(cls, c)
  }

  /**
   * `rule_to_alpha`, `rule_to_alpha_num`, `rule_to_alpha_num_dash`,
   * `rule_to_strip_space` and `rule_to_strip_nasties`: `preg_replace` of the
   * complement of the class by ''.
   */
  function FilterRule(cls: CharClass, a: Value): (r: Reply)
    ensures r.Return? && r.value.Str?
    ensures forall k :: 0 <= k < |r.value.s| ==> InClass(cls, r.value.s[k])
  {
    Return(Str(Keep(ToText(a), ClassTest(cls))))
  }

  /**
   * The filters remove exactly the characters outside their class and keep
   * the others in their original order: filtering distributes over
   * concatenation, each class character survives as often as it occurs, and
   * text already inside the class is returned unchanged.
   */
  lemma FilterRemovesExactlyOutOfClass(cls: CharClass, s: string, t: string, c: char)
    ensures FilterRule(cls, Str(s + t)).value.s == FilterRule(cls, Str(s)).value.s + FilterRule(cls, Str(t)).value.s
    ensures multiset(FilterRule(cls, Str(s)).value.s)[c] == if InClass(cls, c) then multiset(s)[c] else 0
    ensures FilterRule(cls, Str(s)).value.s == s <==> forall k :: 0 <= k < |s| ==> InClass(cls, s[k])
  {
    KeepAppend(s, t, ClassTest(cls));
    KeepCount(s, ClassTest(cls), c);
    KeepUnchanged(s, ClassTest(cls));
  }

  /** `rule_to_trim`, `rule_to_ltrim`, `rule_to_rtrim`. */
  datatype TrimSide = Both | Left | Right

  function TrimRule(side: TrimSide, a: Value): (r: Reply)
    ensures r.Return? && r.value.Str?
    ensures side != Right ==> r.value.s == [] || r.value.s[0] !in TrimChars
    ensures side != Left ==> r.value.s == [] || r.value.s[|r.value.s| - 1] !in TrimChars
  {
    var s := ToText(a);
    match side
    case Both => Return(Str(Trim(s)))
    case Left => Return(Str(TrimLeft(s)))
    case Right => Return(Str(TrimRight(s)))
  }

  /**
   * What each of the three rules keeps is a slice of the text with only
   * removable characters outside it: a suffix for `ltrim`, a prefix for
   * `rtrim`, a middle part for `trim`.
   */
  lemma TrimRuleSlice(side: TrimSide, a: Value)
    ensures side == Both ==> exists i :: TrimmedFrom(ToText(a), TrimRule(side, a).value.s, i)
    ensures side == Left ==> TrimmedFrom(ToText(a), TrimRule(side, a).value.s, |ToText(a)| - |TrimRule(side, a).value.s|)
    ensures side == Right ==> TrimmedFrom(ToText(a), TrimRule(side, a).value.s, 0)
  {
    var s := ToText(a);
    match side
    case Both =>
      TrimSlice(s);
      assert TrimRule(side, a).value.s == Trim(s);
    case Left =>
      assert TrimRule(side, a).value.s == TrimLeft(s);
    case Right =>
      assert TrimRule(side, a).value.s == TrimRight(s);
  }

  /** `rule_to_strip_extra_space`, through `strip_excess_whitespace`: no two whitespace characters remain side by side. */
  function StripExtraSpaceRule(a: Value): (r: Reply)
    ensures r.Return? && r.value.Str? && NoDoubleSpace(r.value.s)
    ensures |r.value.s| <= |ToText(a)|
  {
    var s := ToText(a);
    CollapseSpaceShortens(s);
    Return(Str(CollapseSpace(s)))
  }

  /** Every character that is not whitespace is kept, and the text on either side of it is collapsed independently. */
  lemma StripExtraSpaceKeepsText(x: string, c: char, y: string)
    requires !IsSpace(c)
    ensures StripExtraSpaceRule(Str(x + [c] + y)).value.s
         == StripExtraSpaceRule(Str(x)).value.s + [c] + StripExtraSpaceRule(Str(y)).value.s
  {
    CollapseSpaceAround(x, c, y);
  }

  /** A run of two or more whitespace characters becomes a single space; one alone stays as it is. */
  lemma StripExtraSpaceRuns(w: string)
    requires forall k :: 0 <= k < |w| ==> IsSpace(w[k])
    ensures |w| >= 2 ==> StripExtraSpaceRule(Str(w)) == Return(Str(" "))
    ensures |w| <= 1 ==> StripExtraSpaceRule(Str(w)) == Return(Str(w))
  {
    CollapseSpaceRun(w);
  }

  lemma {:induction false} CollapseSpaceShortens(s: string)
    ensures |CollapseSpace(s)| <= |s|
    decreases |s|
  {
    if |s| >= 2 && IsSpace(s[0]) && IsSpace(s[1]) {
      CollapseSpaceShortens(SkipSpace(s));
    } else if s != [] {
      CollapseSpaceShortens(s[1..]);
    }
  }

  /** `rule_fail` of Abstract.php: always fails. */
  function FailRule(): (r: Reply)
    ensures r.Fail?
  {
    Fail("is incorrect")
  }
}
