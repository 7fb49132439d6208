/**
 * What lib/Controller/Validator/Advanced.php adds to the Basic rule set: one
 * more alias, the `MIN..MAX` range shorthand and a `between` rule that
 * compares the value itself with both bounds.
 */
module AdvancedRules {
  import opened Php
  import opened BasicRules

  /** `init` of Basic.php: legacy rule name => rule name. */
  const BasicAliases: map<string, string> := map["same" := "eq", "different" := "ne"]

  /** `init` of Advanced.php: `array_merge` of the parent's table with foo => bar. */
  const AdvancedAliases: map<string, string> := Merge(BasicAliases, map["foo" := "bar"])

  /** `array_merge` on string keys: every entry of both, the later table winning on a shared key. */
  function Merge(base: map<string, string>, extra: map<string, string>): (r: map<string, string>)
    ensures r.Keys == base.Keys + extra.Keys
    ensures forall k :: k in extra ==> r[k] == extra[k]
    ensures forall k :: k in base && k !in extra ==> r[k] == base[k]
  {
    base + extra
  }

  /** The Advanced table keeps both of the parent's aliases and adds exactly foo => bar. */
  lemma AdvancedAliasTable()
    ensures AdvancedAliases.Keys == {"same", "different", "foo"}
    ensures AdvancedAliases["same"] == "eq" && AdvancedAliases["different"] == "ne" && AdvancedAliases["foo"] == "bar"
  {
    assert "same" != "foo" && "different" != "foo";
  }

  /** A ".." starts at position `k` of `s`. */
  predicate DotsAt(s: string, k: int)
  {
    0 <= k && k + 2 <= |s| && s[k] == '.' && s[k + 1] == '.'
  }

  /** The first ".." of `s` at or after `from` (`strpos`). */
  function FindDots(s: string, from: nat): (r: Option<nat>)
    ensures r.Some? ==> from <= r.value && DotsAt(s, r.value)
    ensures r.Some? ==> forall k :: from <= k < r.value ==> !DotsAt(s, k)
    ensures r.None? ==> forall k :: from <= k ==> !DotsAt(s, k)
    decreases |s| - from
  {
    if from + 2 > |s| then None
    else if s[from] == '.' && s[from + 1] == '.' then Some(from)
    else FindDots(s, from + 1)
  }

  /** The two bounds of a range token. */
  datatype Range = Range(min: string, max: string)

  /**
   * `list($min, $max) = explode('..', $token)` when the token holds a "..":
   * the text before the first "..", and the text between it and the next
   * ".." (or the end). None when the token holds no "..".
   */
  function ParseRange(token: string): (r: Option<Range>)
    ensures r.None? <==> forall k :: 0 <= k < |token| ==> !DotsAt(token, k)
    ensures r.Some? ==> DotsAt(token, |r.value.min|) && token[..|r.value.min|] == r.value.min
    ensures r.Some? ==> forall k :: 0 <= k < |r.value.min| ==> !DotsAt(token, k)
    ensures r.Some? ==>
      var start := |r.value.min| + 2;
      start + |r.value.max| <= |token| && token[start..start + |r.value.max|] == r.value.max
      && (start + |r.value.max| == |token| || DotsAt(token, start + |r.value.max|))
      && forall k :: start <= k < start + |r.value.max| ==> !DotsAt(token, k)
  {
    match FindDots(token, 0)
    case None => None
    case Some(i) =>
      var start := i + 2;
      match FindDots(token, start)
      case None =>
        assert forall k :: start <= k < |token| ==> !DotsAt(token, k);
        Some(Range(token[..i], token[start..]))
      case Some(j) => Some(Range(token[..i], token[start..j]))
  }

  predicate NoDot(s: string) { forall k :: 0 <= k < |s| ==> s[k] != '.' }

  /** Bounds written without a '.' come back out of the token they form. */
  lemma RangeRoundTrip(lo: string, hi: string)
    requires NoDot(lo) && NoDot(hi)
    ensures ParseRange(lo + ".." + hi) == Some(Range(lo, hi))
  {
    var token := lo + ".." + hi;
    assert DotsAt(token, |lo|);
    forall k | 0 <= k < |lo| ensures !DotsAt(token, k) {
      assert token[k] == lo[k];
    }
    assert FindDots(token, 0) == Some(|lo|);
    forall k | |lo| + 2 <= k ensures !DotsAt(token, k) {
      if k < |token| {
        assert token[k] == hi[k - |lo| - 2];
      }
    }
    assert FindDots(token, |lo| + 2).None?;
    assert token[..|lo|] == lo && token[|lo| + 2..] == hi;
  }

  /**
   * `resolveRuleAlias` of Advanced.php on the pending queue: a range token
   * resolves to `between` with `min`, then `max`, pushed in front of the
   * queue; any other token goes to the parent resolver, which is the
   * identity here.
   */
  function ResolveRange(token: string, queue: seq<Value>): (r: (string, seq<Value>))
    ensures ParseRange(token).Some? ==>
      r.0 == "between" && r.1 == [Str(ParseRange(token).value.min), Str(ParseRange(token).value.max)] + queue
    ensures ParseRange(token).None? ==> r == (token, queue)
  {
    match ParseRange(token)
    case Some(range) => ("between", [Str(range.min), Str(range.max)] + queue)
    case None => (token, queue)
  }

  /**
   * `rule_between` of Advanced.php (two arguments, min then max): the value
   * itself is compared with both bounds, inclusively, whatever its kind; on
   * success the value is returned, so the accumulator keeps it.
   */
  function Between(a: Value, min: Value, max: Value): (r: Reply)
    ensures r.Fail? <==> Compare(a, min) < 0 || Compare(a, max) > 0
    ensures !r.Fail? ==> r == Return(a)
  {
    if Compare(a, min) < 0 || Compare(a, max) > 0 then Fail("must between {{arg1}} and {{arg2}}") else Return(a)
  }

  /**
   * Any range shorthand `lo..hi` whose bounds hold no '.' resolves to
   * `between` with both bounds queued in front, and then rejects exactly the
   * values that compare below `lo` or above `hi`.
   */
  lemma RangeShorthandBetween(lo: string, hi: string, a: Value, queue: seq<Value>)
    requires NoDot(lo) && NoDot(hi)
    ensures var (name, q) := ResolveRange(lo + ".." + hi, queue);
      name == "between" && q == [Str(lo), Str(hi)] + queue
      && (Between(a, q[0], q[1]).Fail? <==> Compare(a, Str(lo)) < 0 || Compare(a, Str(hi)) > 0)
  {
    RangeRoundTrip(lo, hi);
  }

  /**
   * The range shorthand `lo..hi` with integer bounds resolves to `between`
   * with both bounds queued in front, and then accepts exactly the integers
   * and integer texts in [lo, hi].
   */
  lemma {:induction false} RangeShorthandAcceptsInterval(lo: int, hi: int, x: int, queue: seq<Value>)
    ensures var (name, q) := ResolveRange(IntToString(lo) + ".." + IntToString(hi), queue);
      name == "between" && q == [Str(IntToString(lo)), Str(IntToString(hi))] + queue
      && (Between(Int(x), q[0], q[1]).Fail? <==> x < lo || x > hi)
      && (Between(Str(IntToString(x)), q[0], q[1]).Fail? <==> x < lo || x > hi)
  {
    TextHasNoDot(lo);
    TextHasNoDot(hi);
    RangeRoundTrip(IntToString(lo), IntToString(hi));
    CompareIntWithText(x, lo);
    CompareIntWithText(x, hi);
  }

  lemma TextHasNoDot(i: int)
    ensures NoDot(IntToString(i))
  {
    var digits := NatToDecimal(if i < 0 then -i else i);
    assert forall k :: 0 <= k < |digits| ==> IsDigit(digits[k]);
    if i < 0 {
      assert IntToString(i) == "-" + digits;
      forall k | 0 <= k < |IntToString(i)| ensures IntToString(i)[k] != '.' {
        if k > 0 {
          assert IntToString(i)[k] == digits[k - 1];
        }
      }
    }
  }

  /**
   * On a numeric value the Advanced `between` fails exactly when the Basic
   * one does.
   */
  lemma BetweenOverride(a: Value, min: Value, max: Value)
    requires IsNumeric(a)
    ensures Between(a, min, max).Fail? <==> BasicRules.Between(a, min, max).Fail?
  {
  }

  /**
   * The override drops the Basic rule's string-length branch: "abc" within
   * "1".."5" passes the Basic rule (three characters) and fails the Advanced
   * one (it sorts after "5").
   */
  lemma BetweenOverrideOnText(s: string, lo: string, hi: string)
    requires s == "abc" && lo == "1" && hi == "5"
    ensures BasicRules.Between(Str(s), Str(lo), Str(hi)) == Return(Null)
    ensures Between(Str(s), Str(lo), Str(hi)).Fail?
  {
    BasicBetweenOnText(s, lo, hi);
    AdvancedBetweenOnText(s, hi);
  }

  /** A text that starts with a letter is not numeric. */
  lemma LetterLedNotNumeric(s: string)
    requires s != [] && 'a' <= s[0] <= 'z'
    ensures !IsNumericText(s)
  {
    assert !IsBlank(s[0]) && !IsDigit(s[0]);
  }

  lemma BasicBetweenOnText(s: string, lo: string, hi: string)
    requires s == "abc" && lo == "1" && hi == "5"
    ensures BasicRules.Between(Str(s), Str(lo), Str(hi)) == Return(Null)
  {
    LetterLedNotNumeric(s);
    assert IntToString(1) == lo && IntToString(5) == hi;
    CompareIntWithText(3, 1);
    CompareIntWithText(3, 5);
    assert |ToText(Str(s))| == 3;
  }

  lemma AdvancedBetweenOnText(s: string, hi: string)
    requires s == "abc" && hi == "5"
    ensures Compare(Str(s), Str(hi)) > 0
  {
    LetterLedNotNumeric(s);
    assert s[0] > hi[0];
    assert LexCompare(s, hi) == 1;
  }
}
