/**
 * The configuration normaliser `parse` of lib/Controller/Validator.php.
 *
 * A configuration maps field names to rule lists; a rule list given as a
 * string is cut at its commas. Each rule is `name[!][:arg[:arg...]]`. For
 * every field a working value starts as the owner's value and each rule in
 * turn may change it (`int` casts, `max`, `min` and `between` clamp); a rule
 * marked with `!` throws as soon as the working value is no longer
 * identical to the owner's. The working value is never written back.
 *
 * `max`, `min` and `between` read their bounds from `$arg`, a variable the
 * method never assigns, so every bound is null; the arguments the rule
 * carries are in `$args`. `Reading` chooses between the two.
 */
module ConfigParse {
  import opened Php
  import opened PhpText
  import BasicRules

  /** The rules of one field: a comma-separated string, or a list of rule strings. */
  datatype RuleList = Text(s: string) | Specs(list: seq<string>)

  /** Where `max`, `min` and `between` take their bounds from. */
  datatype Reading =
    | AsWritten   // `$arg[...]`: an unassigned variable, so always null
    | Intended    // `$args[...]`: the arguments after the rule name

  /** The exception `parse` throws: the field it was checking and the message. */
  datatype Thrown = Thrown(field: string, message: string)

  /** One rule string taken apart: its name without the mark, its arguments, and whether it was marked with `!`. */
  datatype Spec = Spec(name: string, args: seq<string>, throws: bool)

  /** The rule strings of a rule list: `explode(',', ...)` for a string, the list itself otherwise. */
  function RuleSpecs(rules: RuleList): (r: seq<string>)
    ensures rules.Text? ==> |r| == CountIn(rules.s, {','}) + 1 && Join(r, ',') == rules.s
    ensures rules.Text? ==> forall k :: 0 <= k < |r| ==> NoneIn(r[k], {','})
    ensures rules.Specs? ==> r == rules.list
  {
    match rules
    case Text(s) =>
      JoinSplit(s, ',');
      Split(s, {','})
    case Specs(list) => list
  }

  /**
   * `explode(':', $rule)`, `array_shift` and the `!` test: the first piece
   * is the name and the others the arguments; a name ending in '!' loses it
   * and marks the rule (an empty name has no last character and is never
   * marked).
   */
  function ParseSpec(rule: string): (r: Spec)
    ensures NoneIn(r.name, {':'}) && forall k :: 0 <= k < |r.args| ==> NoneIn(r.args[k], {':'})
    ensures |r.args| == CountIn(rule, {':'})
    ensures Join([Head(r)] + r.args, ':') == rule
  {
    JoinSplit(rule, ':');
    var pieces := Split(rule, {':'});
    var head := pieces[0];
    assert pieces == [head] + pieces[1..];
    if head != [] && head[|head| - 1] == '!' then
      assert head == head[..|head| - 1] + "!";
      Spec(head[..|head| - 1], pieces[1..], true)
    else Spec(head, pieces[1..], false)
  }

  /** The first piece of a rule string: the name, with its mark when it has one. */
  function Head(spec: Spec): string
  {
    if spec.throws then spec.name + "!" else spec.name
  }

  /**
   * Writing a rule and reading it back gives the same rule, as long as no
   * piece holds a ':' and an unmarked name does not itself end in '!'.
   */
  lemma SpecRoundTrip(spec: Spec)
    requires NoneIn(spec.name, {':'}) && forall k :: 0 <= k < |spec.args| ==> NoneIn(spec.args[k], {':'})
    requires !spec.throws ==> spec.name == [] || spec.name[|spec.name| - 1] != '!'
    ensures ParseSpec(Join([Head(spec)] + spec.args, ':')) == spec
  {
    var parts := [Head(spec)] + spec.args;
    assert NoneIn(Head(spec), {':'}) by {
      if spec.throws {
        assert forall k :: 0 <= k < |Head(spec)| ==> Head(spec)[k] == (if k < |spec.name| then spec.name[k] else '!');
      }
    }
    assert forall k :: 0 <= k < |parts| ==> NoneIn(parts[k], {':'}) by {
      forall k | 0 <= k < |parts| ensures NoneIn(parts[k], {':'}) {
        if k > 0 {
          assert parts[k] == spec.args[k - 1];
        }
      }
    }
    SplitJoin(parts, ':');
    if spec.throws {
      assert Head(spec)[..|Head(spec)| - 1] == spec.name;
    }
  }

  /** `$arg[i]` as written (null), or `$args[i]` as intended (null past the end). */
  function Bound(reading: Reading, args: seq<string>, i: nat): (r: Value)
    ensures reading == AsWritten || i >= |args| ==> r == Null
    ensures reading == Intended && i < |args| ==> r == Str(args[i])
  {
    if reading == Intended && i < |args| then Str(args[i]) else Null
  }

  /** The rule names the `switch` of `parse` has a case with a message for. */
  predicate Known(name: string)
  {
    name == "int" || name == "max" || name == "min" || name == "between"
  }

  /**
   * The `switch` on the rule name: the new working value and the message the
   * case sets (none for `email` and for names without a case). `int` casts;
   * `max` lowers the value to the bound; `min` raises it to the bound;
   * `between` raises it to the first bound and then lowers it to the second.
   */
  function Normalise(reading: Reading, name: string, args: seq<string>, v: Value): (r: (Value, Option<string>))
    ensures r.1.Some? <==> Known(name)
    ensures !Known(name) ==> r.0 == v
    ensures name == "int" ==> r.0 == Int(ToInt(v))
  {
    if name == "int" then (Int(ToInt(v)), Some("Should be integer"))
    else if name == "max" then
      var b := Bound(reading, args, 0);
      (if Compare(v, b) > 0 then b else v, Some("Must be no bigger than %s"))
    else if name == "min" then
      var b := Bound(reading, args, 0);
      (if Compare(v, b) < 0 then b else v, Some("Must be at least %s"))
    else if name == "between" then
      var lo, hi := Bound(reading, args, 0), Bound(reading, args, 1);
      var v1 := if Compare(v, lo) < 0 then lo else v;
      (if Compare(v1, hi) > 0 then hi else v1, Some("Must be between %s and %s"))
    else (v, None)
  }

  /**
   * `max` leaves the value or the bound, and never anything above the
   * bound; `min` leaves the value or the bound, and never anything below
   * it; `between` never leaves anything above its second bound.
   */
  lemma NormaliseWithinBounds(reading: Reading, name: string, args: seq<string>, v: Value)
    ensures var r := Normalise(reading, name, args, v).0;
      && (name == "max" ==> (r == v || r == Bound(reading, args, 0)) && Compare(r, Bound(reading, args, 0)) <= 0)
      && (name == "min" ==> (r == v || r == Bound(reading, args, 0)) && Compare(r, Bound(reading, args, 0)) >= 0)
      && (name == "between" ==> Compare(r, Bound(reading, args, 1)) <= 0)
  {
    LooseEqualsReflexive(Bound(reading, args, 0));
    LooseEqualsReflexive(Bound(reading, args, 1));
    if name == "max" {
      MaxValue(reading, args, v);
    } else if name == "min" {
      MinValue(reading, args, v);
      CompareAntisymmetric(v, Bound(reading, args, 0));
    } else if name == "between" {
      BetweenValue(reading, args, v);
    }
  }

  /** The message thrown: the case's message, or the default one (misspelt as in the source). */
  function Message(e: Option<string>): string
  {
    if e.Some? then e.value else "Validaiton error"
  }

  /**
   * One rule on the working value `v` of a field whose owner value is
   * `vOrig`: the new working value, and the message when the rule throws.
   * It throws exactly when it is marked and the new value is not identical
   * to the owner's.
   */
  function RuleStep(reading: Reading, rule: string, v: Value, vOrig: Value): (r: (Value, Option<string>))
    ensures r.0 == Normalise(reading, ParseSpec(rule).name, ParseSpec(rule).args, v).0
    ensures r.1.Some? <==> ParseSpec(rule).throws && r.0 != vOrig
    ensures r.1.Some? ==> r.1.value == Message(Normalise(reading, ParseSpec(rule).name, ParseSpec(rule).args, v).1)
  {
    var spec := ParseSpec(rule);
    var (v', e) := Normalise(reading, spec.name, spec.args, v);
    (v', if spec.throws && v' != vOrig then Some(Message(e)) else None)
  }

  /** A rule's step from the value and message its case computes. */
  lemma RuleStepOf(reading: Reading, rule: string, v: Value, vOrig: Value, v': Value, e: Option<string>)
    requires (v', e) == Normalise(reading, ParseSpec(rule).name, ParseSpec(rule).args, v)
    ensures RuleStep(reading, rule, v, vOrig) == (v', if ParseSpec(rule).throws && v' != vOrig then Some(Message(e)) else None)
  {
  }

  /** The rules of one field from working value `v` on: the message of the first rule that throws. */
  function RunRules(reading: Reading, rules: seq<string>, v: Value, vOrig: Value): Option<string>
    decreases |rules|
  {
    if rules == [] then None
    else
      var (v', thrown) := RuleStep(reading, rules[0], v, vOrig);
      if thrown.Some? then thrown else RunRules(reading, rules[1..], v', vOrig)
  }

  /** The first rule throws, or the rest of the rules decide from the value it leaves. */
  lemma RunStep(reading: Reading, rules: seq<string>, v: Value, vOrig: Value)
    requires rules != []
    ensures var (v', thrown) := RuleStep(reading, rules[0], v, vOrig);
      RunRules(reading, rules, v, vOrig) == if thrown.Some? then thrown else RunRules(reading, rules[1..], v', vOrig)
  {
  }

  /** The working value after the rules `rules`, from `v`, had none of them thrown. */
  function ValueAfter(reading: Reading, rules: seq<string>, v: Value): Value
    decreases |rules|
  {
    if rules == [] then v
    else ValueAfter(reading, rules[1..], Normalise(reading, ParseSpec(rules[0]).name, ParseSpec(rules[0]).args, v).0)
  }

  /** `parse($m, $config)`: the fields in order, stopping at the first rule that throws. */
  function ParseConfig(reading: Reading, owner: map<string, Value>, config: seq<(string, RuleList)>): Option<Thrown>
    decreases |config|
  {
    if config == [] then None
    else
      var (field, rules) := config[0];
      var vOrig := BasicRules.Lookup(owner, field);
      match RunRules(reading, RuleSpecs(rules), vOrig, vOrig)
      case Some(message) => Some(Thrown(field, message))
      case None => ParseConfig(reading, owner, config[1..])
  }

  // ---------------------------------------------------------------------
  // What running the rules promises.

  /**
   * The rules of a field throw exactly when some marked rule leaves the
   * working value (as computed by all rules up to and including it) not
   * identical to the owner's value: the working value is not reset between
   * the rules of one field.
   */
  lemma {:induction false} ThrowsIffMarkedRuleChanges(reading: Reading, rules: seq<string>, v: Value, vOrig: Value)
    ensures RunRules(reading, rules, v, vOrig).None? <==>
      forall k :: 0 <= k < |rules| && ParseSpec(rules[k]).throws ==> ValueAfter(reading, rules[..k + 1], v) == vOrig
    decreases |rules|
  {
    if rules != [] {
      var (v', thrown) := RuleStep(reading, rules[0], v, vOrig);
      RunStep(reading, rules, v, vOrig);
      ThrowsIffMarkedRuleChanges(reading, rules[1..], v', vOrig);
      forall k | 0 <= k < |rules|
        ensures ValueAfter(reading, rules[..k + 1], v) == if k == 0 then v' else ValueAfter(reading, rules[1..][..k], v')
        ensures k > 0 ==> rules[k] == rules[1..][k - 1]
      {
        ValueAfterFirst(reading, rules, v, k);
      }
      if thrown.None? && RunRules(reading, rules[1..], v', vOrig).Some? {
        var k :| 0 <= k < |rules| - 1 && ParseSpec(rules[1..][k]).throws
          && ValueAfter(reading, rules[1..][..k + 1], v') != vOrig;
        assert ParseSpec(rules[k + 1]).throws && ValueAfter(reading, rules[..k + 2], v) != vOrig;
      }
    }
  }

  /** The working value after the first k + 1 rules, seen from the first rule's result. */
  lemma ValueAfterFirst(reading: Reading, rules: seq<string>, v: Value, k: nat)
    requires k < |rules|
    ensures var v' := Normalise(reading, ParseSpec(rules[0]).name, ParseSpec(rules[0]).args, v).0;
      ValueAfter(reading, rules[..k + 1], v) == if k == 0 then v' else ValueAfter(reading, rules[1..][..k], v')
  {
    assert rules[..k + 1][0] == rules[0] && rules[..k + 1][1..] == rules[1..][..k];
    if k == 0 {
      assert rules[1..][..0] == [];
    }
  }

  /** A field whose rules carry no `!` never throws, whatever the rules do to the working value. */
  lemma UnmarkedNeverThrows(reading: Reading, rules: seq<string>, v: Value)
    requires forall k :: 0 <= k < |rules| ==> !ParseSpec(rules[k]).throws
    ensures RunRules(reading, rules, v, v).None?
  {
    ThrowsIffMarkedRuleChanges(reading, rules, v, v);
  }

  /** `int` leaves an integer as it is, so a field holding an integer never throws from `int` rules, marked or not. */
  lemma {:induction false} IntRulesKeepIntegers(reading: Reading, rules: seq<string>, i: int)
    requires forall k :: 0 <= k < |rules| ==> ParseSpec(rules[k]).name == "int"
    ensures RunRules(reading, rules, Int(i), Int(i)).None?
    ensures ValueAfter(reading, rules, Int(i)) == Int(i)
    decreases |rules|
  {
    if rules != [] {
      assert forall k :: 1 <= k < |rules| ==> rules[1..][k - 1] == rules[k];
      IntRulesKeepIntegers(reading, rules[1..], i);
    }
  }

  /**
   * `int!` on a numeric string throws: the cast gives an integer, which is
   * never identical to a string, even one that denotes the same number.
   */
  lemma IntMarkedOnText(reading: Reading, rule: string, i: int)
    requires rule == "int!"
    ensures RuleStep(reading, rule, Str(IntToString(i)), Str(IntToString(i))) == (Int(i), Some("Should be integer"))
  {
    IntMarkedSpec(rule);
    IntOnText(reading, rule, i);
  }

  lemma IntMarkedSpec(rule: string)
    requires rule == "int!"
    ensures ParseSpec(rule) == Spec("int", [], true)
  {
    SpecRoundTrip(Spec("int", [], true));
    assert Join([Head(Spec("int", [], true))], ':') == rule;
  }

  /**
   * The working value carries over from one rule to the next: after an
   * unmarked `int` (such as "int") has cast a numeric string, a marked rule
   * without a case of its own (such as "foo!") throws with the default
   * message.
   */
  lemma ValueCarriesOver(reading: Reading, first: string, second: string, i: int)
    requires ParseSpec(first).name == "int" && !ParseSpec(first).throws
    requires ParseSpec(second).throws && !Known(ParseSpec(second).name)
    ensures RunRules(reading, [first, second], Str(IntToString(i)), Str(IntToString(i))) == Some("Validaiton error")
  {
    var s := Str(IntToString(i));
    var rules := [first, second];
    IntOnText(reading, first, i);
    RunStep(reading, rules, s, s);
    assert rules[1..] == [second];
    UnknownMarkedThrows(reading, second, Int(i), s);
    RunStep(reading, rules[1..], Int(i), s);
  }

  lemma IntOnText(reading: Reading, rule: string, i: int)
    requires ParseSpec(rule).name == "int"
    ensures var s := Str(IntToString(i));
      RuleStep(reading, rule, s, s).0 == Int(i)
      && (RuleStep(reading, rule, s, s).1.Some? <==> ParseSpec(rule).throws)
  {
    IntToStringRoundTrip(i);
  }

  lemma UnknownMarkedThrows(reading: Reading, rule: string, v: Value, vOrig: Value)
    requires ParseSpec(rule).throws && !Known(ParseSpec(rule).name) && v != vOrig
    ensures RuleStep(reading, rule, v, vOrig) == (v, Some("Validaiton error"))
  {
  }

  /**
   * `parse` returns exactly when the rules of every field run without a
   * throw on that field's own owner value; otherwise it throws for the first
   * field, in configuration order, whose rules throw, with their message.
   */
  lemma {:induction false} ParseVerdict(reading: Reading, owner: map<string, Value>, config: seq<(string, RuleList)>)
    ensures var r := ParseConfig(reading, owner, config);
      (r.None? <==> forall k :: 0 <= k < |config| ==> FieldRun(reading, owner, config[k]).None?)
      && (r.Some? ==> exists k ::
            && 0 <= k < |config| && r.value.field == config[k].0
            && FieldRun(reading, owner, config[k]) == Some(r.value.message)
            && forall j :: 0 <= j < k ==> FieldRun(reading, owner, config[j]).None?)
    decreases |config|
  {
    if config != [] {
      ParseStep(reading, owner, config);
      ParseVerdict(reading, owner, config[1..]);
      assert forall k :: 1 <= k < |config| ==> config[k] == config[1..][k - 1];
      var r := ParseConfig(reading, owner, config);
      if FieldRun(reading, owner, config[0]).None? && r.Some? {
        var k :| 0 <= k < |config| - 1 && r.value.field == config[1..][k].0
          && FieldRun(reading, owner, config[1..][k]) == Some(r.value.message)
          && forall j :: 0 <= j < k ==> FieldRun(reading, owner, config[1..][j]).None?;
        assert FieldRun(reading, owner, config[k + 1]) == Some(r.value.message);
      }
    }
  }

  /** The first entry throws, or the rest of the configuration decides. */
  lemma ParseStep(reading: Reading, owner: map<string, Value>, config: seq<(string, RuleList)>)
    requires config != []
    ensures var run := FieldRun(reading, owner, config[0]);
      ParseConfig(reading, owner, config)
      == if run.Some? then Some(Thrown(config[0].0, run.value)) else ParseConfig(reading, owner, config[1..])
  {
  }

  /** The rules of one configuration entry on the owner's value of its field. */
  function FieldRun(reading: Reading, owner: map<string, Value>, entry: (string, RuleList)): Option<string>
  {
    var vOrig := BasicRules.Lookup(owner, entry.0);
    RunRules(reading, RuleSpecs(entry.1), vOrig, vOrig)
  }

  // ---------------------------------------------------------------------
  // The bounds of `max`, `min` and `between`.

  /** As written, `min` compares with null, which nothing is below: it never changes the value. */
  lemma MinAsWrittenKeepsValue(args: seq<string>, v: Value)
    ensures Normalise(AsWritten, "min", args, v).0 == v
  {
    if v.Str? {
      assert LexCompare(v.s, "") >= 0;
    }
  }

  /**
   * As written, `max` compares with null: any value above null (a non-empty
   * string, a non-zero integer, true) is replaced by null, whatever bound
   * the rule carries.
   */
  lemma MaxAsWrittenNullsValue(args: seq<string>, v: Value)
    requires ToBool(v) || (v.Str? && v.s != "")
    ensures Normalise(AsWritten, "max", args, v).0 == Null
  {
    if v.Str? {
      assert v.s[0] == v.s[0];
      assert LexCompare(v.s, "") == 1;
    }
  }

  /**
   * The discrepancy, on the rule `max!:10` and the owner value 5: as
   * written the value becomes null and the rule throws; with the bound read
   * from the rule's arguments 5 is within it and nothing is thrown.
   */
  lemma MaxMarkedAsWritten(rule: string)
    requires rule == "max!:10"
    ensures RuleStep(AsWritten, rule, Int(5), Int(5)) == (Null, Some("Must be no bigger than %s"))
    ensures RuleStep(Intended, rule, Int(5), Int(5)) == (Int(5), None)
  {
    MaxSpec(rule);
    MaxAsWrittenNullsValue(["10"], Int(5));
    IntendedMaxClamps(["10"], 10, 5);
  }

  lemma MaxSpec(rule: string)
    requires rule == "max!:10"
    ensures ParseSpec(rule) == Spec("max", ["10"], true)
  {
    var spec := Spec("max", ["10"], true);
    SpecRoundTrip(spec);
    assert Join([Head(spec)] + spec.args, ':') == Head(spec) + [':'] + "10";
    assert Head(spec) + [':'] + "10" == rule;
  }

  /** The value `max` leaves: the bound when the value is above it, the value otherwise. */
  lemma MaxValue(reading: Reading, args: seq<string>, v: Value)
    ensures var b := Bound(reading, args, 0);
      Normalise(reading, "max", args, v).0 == if Compare(v, b) > 0 then b else v
  {
  }

  /** The value `min` leaves: the bound when the value is below it, the value otherwise. */
  lemma MinValue(reading: Reading, args: seq<string>, v: Value)
    ensures var b := Bound(reading, args, 0);
      Normalise(reading, "min", args, v).0 == if Compare(v, b) < 0 then b else v
  {
  }

  /** The value `between` leaves: raised to the first bound, then lowered to the second. */
  lemma BetweenValue(reading: Reading, args: seq<string>, v: Value)
    ensures var lo, hi := Bound(reading, args, 0), Bound(reading, args, 1);
      var v1 := if Compare(v, lo) < 0 then lo else v;
      Normalise(reading, "between", args, v).0 == if Compare(v1, hi) > 0 then hi else v1
  {
  }

  /**
   * Read from the rule's arguments, `max` with an integer bound clamps an
   * integer to it: the result is the smaller of the two, and the value is
   * kept when it is within the bound.
   */
  lemma IntendedMaxClamps(args: seq<string>, b: int, x: int)
    requires args != [] && args[0] == IntToString(b)
    ensures var r := Normalise(Intended, "max", args, Int(x)).0;
      ToInt(r) == (if x <= b then x else b) && (x <= b ==> r == Int(x))
  {
    assert Bound(Intended, args, 0) == Str(IntToString(b));
    MaxValue(Intended, args, Int(x));
    CompareIntWithText(x, b);
    IntToStringRoundTrip(b);
  }

  /** Read from the rule's arguments, `min` with an integer bound raises an integer to it. */
  lemma IntendedMinClamps(args: seq<string>, b: int, x: int)
    requires args != [] && args[0] == IntToString(b)
    ensures var r := Normalise(Intended, "min", args, Int(x)).0;
      ToInt(r) == (if x >= b then x else b) && (x >= b ==> r == Int(x))
  {
    assert Bound(Intended, args, 0) == Str(IntToString(b));
    MinValue(Intended, args, Int(x));
    CompareIntWithText(x, b);
    IntToStringRoundTrip(b);
  }

  /**
   * Read from the rule's arguments, `between` with integer bounds lo <= hi
   * clamps an integer into [lo, hi], and keeps it when it is already inside.
   */
  lemma IntendedBetweenClamps(args: seq<string>, lo: int, hi: int, x: int)
    requires |args| >= 2 && args[0] == IntToString(lo) && args[1] == IntToString(hi) && lo <= hi
    ensures var r := Normalise(Intended, "between", args, Int(x)).0;
      ToInt(r) == (if x < lo then lo else if x > hi then hi else x)
      && (lo <= x <= hi ==> r == Int(x))
  {
    var tlo, thi := Str(IntToString(lo)), Str(IntToString(hi));
    assert Bound(Intended, args, 0) == tlo && Bound(Intended, args, 1) == thi;
    BetweenValue(Intended, args, Int(x));
    IntToStringRoundTrip(lo);
    IntToStringRoundTrip(hi);
    CompareIntWithText(x, hi);
    if x < lo {
      CompareIntWithText(x, lo);
      CompareIntWithText(lo, hi);
      assert Compare(tlo, thi) <= 0;
      assert Normalise(Intended, "between", args, Int(x)).0 == tlo;
    } else {
      CompareIntWithText(x, lo);
      assert Normalise(Intended, "between", args, Int(x)).0 == if x > hi then thi else Int(x);
    }
  }

  /**
   * `parse`. It reads the owner and throws or returns; the working values it
   * computes are discarded, so the owner is left as it was.
   */
  method Parse(reading: Reading, owner: map<string, Value>, config: seq<(string, RuleList)>) returns (outcome: Option<Thrown>)
    ensures outcome == ParseConfig(reading, owner, config)
  {
    var i := 0;
    while i < |config|
      invariant 0 <= i <= |config|
      invariant ParseConfig(reading, owner, config[i..]) == ParseConfig(reading, owner, config)
    {
      var (field, list) := config[i];
      assert config[i..][1..] == config[i + 1..];
      var vOrig := BasicRules.Lookup(owner, field);
      var thrown := ParseField(reading, RuleSpecs(list), vOrig);
      if thrown.Some? {
        return Some(Thrown(field, thrown.value));
      }
      i := i + 1;
    }
    return None;
  }

  /** The inner loop of `parse`: the rules of one field on a working value that starts as the owner's `vOrig`. */
  method ParseField(reading: Reading, rules: seq<string>, vOrig: Value) returns (thrown: Option<string>)
    ensures thrown == RunRules(reading, rules, vOrig, vOrig)
  {
    var v := vOrig;
    var j := 0;
    while j < |rules|
      invariant 0 <= j <= |rules|
      invariant RunRules(reading, rules[j..], v, vOrig) == RunRules(reading, rules, vOrig, vOrig)
    {
      assert rules[j..][0] == rules[j] && rules[j..][1..] == rules[j + 1..];
      RunStep(reading, rules[j..], v, vOrig);
      var t;
      v, t := Apply(reading, rules[j], v, vOrig);
      if t.Some? {
        return t;
      }
      j := j + 1;
    }
    return None;
  }

  /** One pass of the inner loop: split the rule, run its case, and throw when it is marked and the value changed. */
  method Apply(reading: Reading, rule: string, v0: Value, vOrig: Value) returns (v: Value, thrown: Option<string>)
    ensures (v, thrown) == RuleStep(reading, rule, v0, vOrig)
  {
    var spec := ParseSpec(rule);
    var e;
    v, e := Switch(reading, spec.name, spec.args, v0);
    RuleStepOf(reading, rule, v0, vOrig, v, e);
    thrown := if v != vOrig && spec.throws then Some(Message(e)) else None;
  }

  /** The `switch` of `parse` on one rule name, updating the working value and setting the message. */
  method Switch(reading: Reading, name: string, args: seq<string>, v0: Value) returns (v: Value, e: Option<string>)
    ensures (v, e) == Normalise(reading, name, args, v0)
  {
    v := v0;
    e := None;
    if name == "int" {
      e := Some("Should be integer");
      v := Int(ToInt(v));
    } else if name == "max" {
      e := Some("Must be no bigger than %s");
      var b := Bound(reading, args, 0);
      if Compare(v, b) > 0 {
        v := b;
      }
    } else if name == "min" {
      e := Some("Must be at least %s");
      var b := Bound(reading, args, 0);
      if Compare(v, b) < 0 {
        v := b;
      }
    } else if name == "between" {
      e := Some("Must be between %s and %s");
      var lo := Bound(reading, args, 0);
      var hi := Bound(reading, args, 1);
      if Compare(v, lo) < 0 {
        v := lo;
      }
      if Compare(v, hi) > 0 {
        v := hi;
      }
    }
  }
}
