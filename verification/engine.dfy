/**
 * The rule-chain interpreter of lib/Controller/Validator/Abstract.php, with
 * the rule sets of its subclasses Basic and Advanced.
 *
 * `is()` turns declarations into token chains kept per field, in the order
 * the fields were first declared. `applyRules()` runs one chain: the
 * accumulator starts as the field's value, tokens are taken from the front
 * of the pending queue, an alias is applied once, and the token names a
 * `rule_` method; the method pulls its arguments from the same queue, a
 * value it returns replaces the accumulator, and a failure stops the chain.
 * `applyRulesets()` runs every chain of every field and stops at the first
 * failure.
 *
 * The functions `RunChain`, `RunSets` and `RunFields` say what running
 * does; the class `Validator` is the interpreter itself.
 */
module Engine {
  import opened Php
  import opened PhpText
  import opened BasicRules
  import AdvancedRules
  import NameCase

  /** Which class of the hierarchy Abstract <- Basic <- Advanced the validator is. */
  datatype Kind = AbstractKind | BasicKind | AdvancedKind

  /** The alias table `init` leaves in `$this->alias`. */
  function Aliases(kind: Kind): map<string, string>
  {
    match kind
    case AbstractKind => map[]
    case BasicKind => AdvancedRules.BasicAliases
    case AdvancedKind => AdvancedRules.AdvancedAliases
  }

  /** The checks that take no argument. */
  datatype CheckId =
    | FailCheck | RequiredCheck | IntCheck | AlphaCheck | AlphaNumCheck | AlphaNumDashCheck
    | ZipCheck | IsoTimeCheck | CreditCardCheck

  /** The checks that pull one argument. */
  datatype ArgCheckId = InCheck | NotInCheck | EqCheck | NeCheck | EqfCheck | NefCheck | LenEqCheck | LenGtCheck | LenLtCheck

  /** The conversions (`to_...`): they take no argument and return the new value. */
  datatype ConversionId = TrimConversion(side: TrimSide) | FilterConversion(cls: CharClass) | StripExtraSpaceConversion | ToNameConversion

  /** The `rule_` methods this model covers; `between` pulls two arguments. */
  datatype RuleId = Check(check: CheckId) | ArgCheck(argCheck: ArgCheckId) | BetweenRule | Conversion(conversion: ConversionId)

  /** Method name (after "rule_", in lower case) => rule, for Basic and Advanced. */
  const BasicRuleTable: seq<(string, RuleId)> := [
    ("fail", Check(FailCheck)), ("required", Check(RequiredCheck)), ("in", ArgCheck(InCheck)),
    ("not_in", ArgCheck(NotInCheck)), ("between", BetweenRule), ("eq", ArgCheck(EqCheck)),
    ("ne", ArgCheck(NeCheck)), ("eqf", ArgCheck(EqfCheck)), ("nef", ArgCheck(NefCheck)),
    ("len_eq", ArgCheck(LenEqCheck)), ("len_gt", ArgCheck(LenGtCheck)), ("len_lt", ArgCheck(LenLtCheck)),
    ("int", Check(IntCheck)), ("alpha", Check(AlphaCheck)), ("alpha_num", Check(AlphaNumCheck)),
    ("alpha_num_dash", Check(AlphaNumDashCheck)), ("iso_time", Check(IsoTimeCheck)), ("zip", Check(ZipCheck)),
    ("credit_card", Check(CreditCardCheck)), ("to_trim", Conversion(TrimConversion(Both))),
    ("to_ltrim", Conversion(TrimConversion(Left))), ("to_rtrim", Conversion(TrimConversion(Right))),
    ("to_strip_space", Conversion(FilterConversion(NonSpace))), ("to_strip_extra_space", Conversion(StripExtraSpaceConversion)),
    ("to_alpha", Conversion(FilterConversion(Letters))), ("to_alpha_num", Conversion(FilterConversion(LettersDigits))),
    ("to_alpha_num_dash", Conversion(FilterConversion(LettersDigitsDash))),
    ("to_strip_nasties", Conversion(FilterConversion(NonNasty))), ("to_name", Conversion(ToNameConversion))]

  /** `rule_` methods of Basic.php that exist but are outside this model. */
  const UnmodelledRules: seq<string> := [
    "unique", "regex", "number", "decimal", "alpha_unicode", "alpha_num_unicode",
    "alpha_num_dash_unicode", "bool", "true", "false", "iso_datetime", "before", "after",
    "email", "card_to_date", "card_from_date", "to_int", "to_number", "to_float",
    "to_digits_and_single_spaces", "to_lower", "to_upper", "to_upper_words",
    "to_alpha_unicode", "to_alpha_num_unicode", "to_truncate", "to_truncate_custom", "to_alpha_num_dash_unicode",
    "to_iso_date", "to_strip_tags", "to_quote_meta", "to_add_slashes", "to_strip_slashes", "to_zip"]

  /** The rule a method name reaches: Abstract.php has `rule_fail` only. */
  function RuleOf(kind: Kind, name: string): Option<RuleId>
  {
    if kind == AbstractKind then (if name == "fail" then Some(Check(FailCheck)) else None)
    else NameCase.FindIn(BasicRuleTable, name)
  }

  /** How many tokens a rule pulls from the queue. */
  function Arity(id: RuleId): nat
  {
    match id
    case Check(_) => 0
    case ArgCheck(_) => 1
    case BetweenRule => 2
    case Conversion(_) => 0
  }

  function Min(a: nat, b: nat): nat { if a <= b then a else b }

  /** `pullRule`, which is `getRule`: the head of the queue, or null once it is empty. */
  function Pull(queue: seq<Value>): (Value, seq<Value>)
  {
    if queue == [] then (Null, []) else (queue[0], queue[1..])
  }

  /** A check on the accumulator alone: it returns nothing or fails. */
  function RunCheck(check: CheckId, acc: Value): (r: Reply)
    ensures r.Fail? || r == Return(Null)
  {
    match check
    case FailCheck => FailRule()
    case RequiredCheck => Required(acc)
    case IntCheck => IntRule(acc)
    case AlphaCheck => AlphaRule(acc)
    case AlphaNumCheck => AlphaNumRule(acc)
    case AlphaNumDashCheck => AlphaNumDashRule(acc)
    case ZipCheck => ZipRule(acc)
    case IsoTimeCheck => IsoTimeRule(acc)
    case CreditCardCheck => CreditCard(acc)
  }

  /** A check against one pulled argument (a field name for `eqf` and `nef`): it returns nothing or fails. */
  function RunArgCheck(check: ArgCheckId, acc: Value, arg: Value, source: map<string, Value>): (r: Reply)
    ensures r.Fail? || r == Return(Null)
  {
    match check
    case InCheck => In(acc, arg)
    case NotInCheck => NotIn(acc, arg)
    case EqCheck => Eq(acc, arg)
    case NeCheck => Ne(acc, arg)
    case EqfCheck => Eqf(acc, arg, source)
    case NefCheck => Nef(acc, arg, source)
    case LenEqCheck => LenEq(acc, arg)
    case LenGtCheck => LenGt(acc, arg)
    case LenLtCheck => LenLt(acc, arg)
  }

  /** `between` of the class: Advanced.php overrides Basic's; only the override returns the value. */
  function RunBetween(kind: Kind, acc: Value, min: Value, max: Value): (r: Reply)
    ensures kind == AdvancedKind ==> r.Fail? || r == Return(acc)
    ensures kind != AdvancedKind ==> r.Fail? || r == Return(Null)
  {
    if kind == AdvancedKind then AdvancedRules.Between(acc, min, max) else Between(acc, min, max)
  }

  /** A conversion: it always returns a string. `capitalise` is what `rule_to_name` receives as `$is_capitalise_prefix`. */
  function RunConversion(conversion: ConversionId, acc: Value, capitalise: bool): (r: Reply)
    ensures r.Return? && r.value.Str?
  {
    match conversion
    case TrimConversion(side) => TrimRule(side, acc)
    case FilterConversion(cls) => FilterRule(cls, acc)
    case StripExtraSpaceConversion => StripExtraSpaceRule(acc)
    case ToNameConversion => Return(Str(NameCase.NameSpec(acc, capitalise)))
  }

  /**
   * A rule run on the accumulator `acc`, pulling its arguments from `queue`:
   * the reply and the queue that is left. Every rule pulls exactly its
   * arity, or what is left of the queue.
   */
  function Apply(kind: Kind, id: RuleId, acc: Value, queue: seq<Value>, source: map<string, Value>, capitalise: bool): (r: (Reply, seq<Value>))
    ensures r.1 == queue[Min(Arity(id), |queue|)..]
    ensures r.0.Fail? || r.0.Return?
  {
    match id
    case Check(check) => (RunCheck(check, acc), queue)
    case ArgCheck(check) =>
      var (arg, rest) := Pull(queue);
      (RunArgCheck(check, acc, arg, source), rest)
    case BetweenRule =>
      var (min, rest1) := Pull(queue);
      var (max, rest2) := Pull(rest1);
      (RunBetween(kind, acc, min, max), rest2)
    case Conversion(conversion) => (RunConversion(conversion, acc, capitalise), queue)
  }

  /**
   * `$this->{'rule_'.$name}($acc, $field)`: the rule the name reaches, a
   * Basic.php rule outside the model, or no method at all.
   */
  function Handle(kind: Kind, name: string, acc: Value, queue: seq<Value>, source: map<string, Value>, capitalise: bool): (r: (Reply, seq<Value>))
    ensures |r.1| <= |queue| && r.1 == queue[|queue| - |r.1|..]
    ensures RuleOf(kind, name).Some? ==> r == Apply(kind, RuleOf(kind, name).value, acc, queue, source, capitalise)
    ensures RuleOf(kind, name).None? ==> r.1 == queue && (r.0.Undefined? || r.0.Unmodelled?)
    ensures r.0.Unmodelled? <==> RuleOf(kind, name).None? && kind != AbstractKind && name in UnmodelledRules
  {
    match RuleOf(kind, name)
    case Some(id) => Apply(kind, id, acc, queue, source, capitalise)
    case None =>
      if kind != AbstractKind && name in UnmodelledRules then (Unmodelled(name), queue)
      else (Undefined("rule_" + name), queue)
  }

  /** The alias lookup of `applyRules`: one rewrite of a string token that is a key of the table. */
  function Resolve(alias: map<string, string>, token: Value): Value
  {
    if token.Str? && token.s in alias then Str(alias[token.s]) else token
  }

  /** The method a token names, in lower case: PHP looks methods up without regard to case. */
  function MethodName(rule: Value): string
  {
    Lower(ToText(rule))
  }

  /**
   * The `rule_` methods as the loop of `applyRules` in Abstract.php sees
   * them, whatever class defines them: given the method name, the
   * accumulator and the pending queue, the reply and how many tokens the
   * method pulled off the queue.
   */
  type Rules = (string, Value, seq<Value>) -> (Reply, nat)

  /** The rule methods of a validator of class `kind` reading the data source `source`. */
  function RuleSet(kind: Kind, source: map<string, Value>, capitalise: bool): Rules
  {
    (name: string, acc: Value, queue: seq<Value>) =>
      var r := Handle(kind, name, acc, queue, source, capitalise);
      (r.0, |queue| - |r.1|)
  }

  /** The rule set replies as `Handle` does and leaves the queue `Handle` leaves. */
  lemma RuleSetIsHandle(kind: Kind, source: map<string, Value>, capitalise: bool, name: string, acc: Value, queue: seq<Value>)
    ensures var (reply, pulled) := RuleSet(kind, source, capitalise)(name, acc, queue);
      (reply, queue[Min(pulled, |queue|)..]) == Handle(kind, name, acc, queue, source, capitalise)
  {
  }

  /** How a chain ended. */
  datatype End =
    | Finished                          // the queue ran out or a null token was taken
    | Failed(message: string, rule: Value)  // Exception_ValidityCheck, tagged with the (aliased) rule
    | Crashed(name: string)             // no such method: PHP stops with an error
    | Unknown(name: string)             // a Basic.php rule outside this model

  /** The state a run leaves: the accumulator, the pending queue and how it ended. */
  datatype Run = Run(acc: Value, rest: seq<Value>, end: End)

  /**
   * The loop of `applyRules` from the queue `queue` and accumulator `acc` on:
   * it ends when the queue is empty or a null token is taken, skips an empty
   * token, and otherwise takes a step with the aliased token.
   */
  function RunChain(alias: map<string, string>, ruleSet: Rules, queue: seq<Value>, acc: Value): Run
    decreases |queue|, 1
  {
    if queue == [] then Run(acc, [], Finished)
    else if queue[0] == Null then Run(acc, queue[1..], Finished)
    else if queue[0] == Str("") then RunChain(alias, ruleSet, queue[1..], acc)
    else Step(alias, ruleSet, Resolve(alias, queue[0]), queue[1..], acc)
  }

  /**
   * One step: the rule the token names runs on the accumulator and pulls
   * its arguments; a non-null return value replaces the accumulator and the
   * chain goes on; any other reply ends the chain with the accumulator the
   * rule was given.
   */
  function Step(alias: map<string, string>, ruleSet: Rules, rule: Value, queue: seq<Value>, acc: Value): Run
    decreases |queue| + 1, 0
  {
    var (reply, pulled) := ruleSet(MethodName(rule), acc, queue);
    var rest := queue[Min(pulled, |queue|)..];
    match reply
    case Return(v) => RunChain(alias, ruleSet, rest, if v == Null then acc else v)
    case Fail(message) => Run(acc, rest, Failed(message, rule))
    case Undefined(name) => Run(acc, rest, Crashed(name))
    case Unmodelled(name) => Run(acc, rest, Unknown(name))
  }

  /** `applyRules($field, $tokens)`: the chain run from the field's value. */
  function ChainRun(alias: map<string, string>, ruleSet: Rules, field: string, tokens: seq<Value>, source: map<string, Value>): Run
  {
    RunChain(alias, ruleSet, tokens, Lookup(source, field))
  }

  /** The chains of one field in declaration order, from state `st`, stopping at the first that does not finish. */
  function RunSets(alias: map<string, string>, ruleSet: Rules, field: string, sets: seq<seq<Value>>, source: map<string, Value>, st: Run): Run
    decreases |sets|
  {
    if sets == [] then st
    else
      var run := ChainRun(alias, ruleSet, field, sets[0], source);
      if run.end.Finished? then RunSets(alias, ruleSet, field, sets[1..], source, run) else run
  }

  /** `applyRulesets`: the fields in order, each with all its chains, stopping at the first chain that does not finish. */
  function RunFields(alias: map<string, string>, ruleSet: Rules, fields: seq<string>, rules: map<string, seq<seq<Value>>>, source: map<string, Value>, st: Run): Run
    requires forall k :: 0 <= k < |fields| ==> fields[k] in rules
    decreases |fields|
  {
    if fields == [] then st
    else
      var run := RunSets(alias, ruleSet, fields[0], rules[fields[0]], source, st);
      if run.end.Finished? then RunFields(alias, ruleSet, fields[1..], rules, source, run) else run
  }

  // ---------------------------------------------------------------------
  // Declaring chains.

  /** The characters `expandRules` splits the rule part at. */
  const RuleSeparators: set<char> := {'|', ',', ':'}

  /** The text before the first `sep`, or all of it. */
  function Before(s: string, sep: char): (r: string)
    ensures |r| <= |s| && r == s[..|r|] && NoneIn(r, {sep})
    ensures |r| < |s| ==> s[|r|] == sep
  {
    if s == [] || s[0] == sep then [] else [s[0]] + Before(s[1..], sep)
  }

  /**
   * `expandRules`: `explode('|', $text, 2)` gives the field definition and
   * the rest, which `preg_split` cuts at every '|', ',' and ':'. Without a
   * '|' the rest is missing and the rules are the one token "".
   */
  function ExpandRules(text: string): (r: (string, seq<string>))
    ensures |r.0| <= |text| && r.0 == text[..|r.0|] && NoneIn(r.0, {'|'})
    ensures |r.0| == |text| ==> r.1 == [""]
    ensures |r.0| < |text| ==>
      && text[|r.0|] == '|'
      && |r.1| == CountIn(text[|r.0| + 1..], RuleSeparators) + 1
      && Concat(r.1) == Without(text[|r.0| + 1..], RuleSeparators)
    ensures forall k :: 0 <= k < |r.1| ==> NoneIn(r.1[k], RuleSeparators)
  {
    var field := Before(text, '|');
    if |field| == |text| then (field, [""])
    else
      SplitConcat(text[|field| + 1..], RuleSeparators);
      (field, Split(text[|field| + 1..], RuleSeparators))
  }

  /** `expandFieldDefinition`: the field names between commas; joined again they give the definition back. */
  function ExpandFieldDefinition(definition: string): (r: seq<string>)
    ensures |r| == CountIn(definition, {','}) + 1
    ensures forall k :: 0 <= k < |r| ==> NoneIn(r[k], {','})
    ensures Join(r, ',') == definition
  {
    JoinSplit(definition, ',');
    Split(definition, {','})
  }

  function Tokens(texts: seq<string>): (r: seq<Value>)
    ensures |r| == |texts| && forall k :: 0 <= k < |texts| ==> r[k] == Str(texts[k])
  {
    seq(|texts|, k requires 0 <= k < |texts| => Str(texts[k]))
  }

  /**
   * What `is(...)` declares, for the forms other than one array: a single
   * argument is a rule string; otherwise the first argument is the field
   * definition and the others are the tokens.
   */
  function Declaration(args: seq<Value>): (r: (seq<string>, seq<Value>))
    ensures |args| == 1 ==> r == (ExpandFieldDefinition(ExpandRules(ToText(args[0])).0), Tokens(ExpandRules(ToText(args[0])).1))
    ensures |args| != 1 ==> r.1 == (if args == [] then [] else args[1..])
    ensures |args| > 1 ==> r.0 == ExpandFieldDefinition(ToText(args[0]))
    ensures args == [] ==> r.0 == [""]
  {
    if |args| == 1 then
      var (definition, rules) := ExpandRules(ToText(args[0]));
      (ExpandFieldDefinition(definition), Tokens(rules))
    else if args == [] then
      assert Split("", {','}) == [""];
      (ExpandFieldDefinition(""), [])
    else (ExpandFieldDefinition(ToText(args[0])), args[1..])
  }

  /** The chains declared for a field so far, none when it was never declared. */
  function Chains(rules: map<string, seq<seq<Value>>>, field: string): seq<seq<Value>>
  {
    if field in rules then rules[field] else []
  }

  /** `$this->rules[$field][] = $tokens` for each field in turn; a new field joins the end of the key order. */
  function Declare(order: seq<string>, rules: map<string, seq<seq<Value>>>, fields: seq<string>, tokens: seq<Value>): (seq<string>, map<string, seq<seq<Value>>>)
    decreases |fields|
  {
    if fields == [] then (order, rules)
    else
      var f := fields[0];
      var order' := if f in rules then order else order + [f];
      Declare(order', rules[f := Chains(rules, f) + [tokens]], fields[1..], tokens)
  }

  /** `n` copies of one chain. */
  function Copies(tokens: seq<Value>, n: nat): (r: seq<seq<Value>>)
    ensures |r| == n && forall k :: 0 <= k < n ==> r[k] == tokens
  {
    seq(n, _ => tokens)
  }

  /** Each field's key order entry and its chains stay consistent: every key once, in `order`. */
  ghost predicate TableOk(order: seq<string>, rules: map<string, seq<seq<Value>>>)
  {
    (forall f :: f in rules <==> f in order)
    && (forall f :: f in rules ==> |rules[f]| >= 1)
    && forall i, j :: 0 <= i < j < |order| ==> order[i] != order[j]
  }

  /**
   * Declaring keeps the table consistent: the declared fields become keys,
   * fields already known keep their place, and the new ones follow them.
   */
  lemma {:induction false} DeclareKeepsOrder(order: seq<string>, rules: map<string, seq<seq<Value>>>, fields: seq<string>, tokens: seq<Value>, f: string)
    requires TableOk(order, rules)
    ensures var (order', rules') := Declare(order, rules, fields, tokens);
      TableOk(order', rules')
      && (f in rules' <==> f in rules || f in fields)
      && |order| <= |order'| && order'[..|order|] == order
      && (forall k :: |order| <= k < |order'| ==> order'[k] in fields && order'[k] !in rules)
    decreases |fields|
  {
    if fields != [] {
      var g := fields[0];
      var order1 := if g in rules then order else order + [g];
      var rules1 := rules[g := Chains(rules, g) + [tokens]];
      DeclareOneKeepsOrder(order, rules, g, tokens);
      DeclareKeepsOrder(order1, rules1, fields[1..], tokens, f);
      var (order', rules') := Declare(order, rules, fields, tokens);
      assert (order', rules') == Declare(order1, rules1, fields[1..], tokens);
      assert fields == [g] + fields[1..];
      assert order'[..|order|] == order1[..|order|];
      forall k | |order| <= k < |order'| ensures order'[k] in fields && order'[k] !in rules {
        if k < |order1| {
          assert order'[k] == order1[k] == g;
        } else {
          assert order'[k] in fields[1..];
        }
      }
    }
  }

  /** One declared field keeps the table consistent. */
  lemma DeclareOneKeepsOrder(order: seq<string>, rules: map<string, seq<seq<Value>>>, g: string, tokens: seq<Value>)
    requires TableOk(order, rules)
    ensures TableOk(if g in rules then order else order + [g], rules[g := Chains(rules, g) + [tokens]])
  {
  }

  /** Declaring appends the chain to each named field once per mention and leaves every other field's chains alone. */
  lemma {:induction false} DeclareAppends(order: seq<string>, rules: map<string, seq<seq<Value>>>, fields: seq<string>, tokens: seq<Value>, f: string)
    ensures Chains(Declare(order, rules, fields, tokens).1, f) == Chains(rules, f) + Copies(tokens, multiset(fields)[f])
    decreases |fields|
  {
    if fields != [] {
      var g := fields[0];
      var order1 := if g in rules then order else order + [g];
      var rules1 := rules[g := Chains(rules, g) + [tokens]];
      DeclareAppends(order1, rules1, fields[1..], tokens, f);
      assert fields == [g] + fields[1..];
      assert multiset(fields)[f] == (if f == g then 1 else 0) + multiset(fields[1..])[f];
      if f == g {
        assert Copies(tokens, multiset(fields)[f]) == [tokens] + Copies(tokens, multiset(fields[1..])[f]);
      }
    } else {
      assert Copies(tokens, 0) == [];
    }
  }

  /** A rule string with one field and tokens free of separators is read back as exactly that field and those tokens. */
  lemma {:induction false} ExpandRulesRoundTrip(field: string, tokens: seq<string>)
    requires NoneIn(field, {'|'}) && |tokens| >= 1
    requires forall k :: 0 <= k < |tokens| ==> NoneIn(tokens[k], RuleSeparators)
    ensures ExpandRules(field + "|" + Join(tokens, '|')) == (field, tokens)
  {
    var text := field + "|" + Join(tokens, '|');
    BeforeSeparator(field, Join(tokens, '|'), '|');
    assert text[|field| + 1..] == Join(tokens, '|');
    forall k | 0 <= k < |tokens| ensures NoneIn(tokens[k], {'|'}) {
      assert forall c :: c in {'|'} ==> c in RuleSeparators;
    }
    SplitJoin(tokens, '|');
    JoinKeepsSeparators(tokens, '|');
    SplitSameSeparators(Join(tokens, '|'), {'|'}, RuleSeparators);
  }

  lemma {:induction false} BeforeSeparator(a: string, b: string, sep: char)
    requires NoneIn(a, {sep})
    ensures Before(a + [sep] + b, sep) == a
  {
    if a != [] {
      assert (a + [sep] + b)[1..] == a[1..] + [sep] + b;
      assert NoneIn(a[1..], {sep});
      BeforeSeparator(a[1..], b, sep);
    }
  }

  /** Joining pieces without separator characters puts only `sep` between them. */
  lemma {:induction false} JoinKeepsSeparators(parts: seq<string>, sep: char)
    requires sep in RuleSeparators
    requires forall k :: 0 <= k < |parts| ==> NoneIn(parts[k], RuleSeparators)
    ensures forall k :: 0 <= k < |Join(parts, sep)| ==> (Join(parts, sep)[k] in RuleSeparators ==> Join(parts, sep)[k] == sep)
  {
    if |parts| > 1 {
      JoinKeepsSeparators(parts[1..], sep);
      var s := Join(parts, sep);
      var tail := Join(parts[1..], sep);
      assert s == parts[0] + [sep] + tail;
      forall k | 0 <= k < |s| ensures s[k] in RuleSeparators ==> s[k] == sep {
        if k < |parts[0]| {
          assert s[k] == parts[0][k];
        } else if k > |parts[0]| {
          assert s[k] == tail[k - |parts[0]| - 1];
        }
      }
    }
  }

  /** Splitting at two sets of separators that agree on every character of the text gives the same pieces. */
  lemma {:induction false} SplitSameSeparators(s: string, a: set<char>, b: set<char>)
    requires forall k :: 0 <= k < |s| ==> (s[k] in a <==> s[k] in b)
    ensures Split(s, a) == Split(s, b)
  {
    if s != [] {
      SplitSameSeparators(s[1..], a, b);
    }
  }

  // ---------------------------------------------------------------------
  // Running chains: what the definitions promise.

  /** Each token of `tokens` names, after the class's alias lookup, the check at the same place in `checks`. */
  predicate NamesChecks(kind: Kind, tokens: seq<Value>, checks: seq<CheckId>)
  {
    |tokens| == |checks|
    && forall k :: 0 <= k < |tokens| ==>
      tokens[k] != Null && tokens[k] != Str("") && RuleOf(kind, MethodName(Resolve(Aliases(kind), tokens[k]))) == Some(Check(checks[k]))
  }

  /** The position of the first of `checks` that fails on `acc`; |checks| when none does. */
  function FirstFailure(checks: seq<CheckId>, acc: Value): (r: nat)
    ensures r <= |checks|
    ensures forall j :: 0 <= j < r ==> !RunCheck(checks[j], acc).Fail?
    ensures r < |checks| ==> RunCheck(checks[r], acc).Fail?
    decreases |checks|
  {
    if checks == [] then 0
    else if RunCheck(checks[0], acc).Fail? then 0
    else 1 + FirstFailure(checks[1..], acc)
  }

  /**
   * The method each token names, after the alias lookup, behaves on `acc`
   * as the check at the same place in `checks`, whatever the queue: it
   * pulls nothing and fails or returns nothing.
   */
  ghost predicate ActsAsChecks(alias: map<string, string>, ruleSet: Rules, tokens: seq<Value>, checks: seq<CheckId>, acc: Value)
  {
    |tokens| == |checks|
    && (forall k :: 0 <= k < |tokens| ==> tokens[k] != Null && tokens[k] != Str(""))
    && forall k, queue :: 0 <= k < |tokens| ==>
      ruleSet(MethodName(Resolve(alias, tokens[k])), acc, queue) == (RunCheck(checks[k], acc), 0)
  }

  /**
   * A chain of checks never changes the accumulator: it finishes exactly
   * when every check passes on the value it started from, and otherwise it
   * fails at the first failing check, reporting that (aliased) rule.
   */
  lemma ChecksKeepValue(alias: map<string, string>, ruleSet: Rules, tokens: seq<Value>, checks: seq<CheckId>, acc: Value)
    requires ActsAsChecks(alias, ruleSet, tokens, checks, acc)
    ensures var r := RunChain(alias, ruleSet, tokens, acc);
      var first := FirstFailure(checks, acc);
      r.acc == acc
      && (r.end.Finished? <==> first == |tokens|)
      && (first < |tokens| ==> r.end.Failed? && r.end.rule == Resolve(alias, tokens[first]))
  {
    ChecksFrom(alias, ruleSet, tokens, checks, acc, 0);
    assert tokens[0..] == tokens && checks[0..] == checks;
  }

  /** The same for the tokens from position `i` on. */
  lemma {:induction false} ChecksFrom(alias: map<string, string>, ruleSet: Rules, tokens: seq<Value>, checks: seq<CheckId>, acc: Value, i: nat)
    requires ActsAsChecks(alias, ruleSet, tokens, checks, acc) && i <= |tokens|
    ensures var r := RunChain(alias, ruleSet, tokens[i..], acc);
      var first := i + FirstFailure(checks[i..], acc);
      r.acc == acc
      && (r.end.Finished? <==> first == |tokens|)
      && (first < |tokens| ==> r.end.Failed? && r.end.rule == Resolve(alias, tokens[first]))
    decreases |tokens| - i
  {
    if i < |tokens| {
      FirstFailureAt(checks, acc, i);
      CheckAt(alias, ruleSet, tokens, checks, acc, i);
      if !RunCheck(checks[i], acc).Fail? {
        ChecksFrom(alias, ruleSet, tokens, checks, acc, i + 1);
      }
    } else {
      assert tokens[i..] == [] && checks[i..] == [];
    }
  }

  /** The first failure from position `i` on is there or after it. */
  lemma FirstFailureAt(checks: seq<CheckId>, acc: Value, i: nat)
    requires i < |checks|
    ensures FirstFailure(checks[i..], acc) == if RunCheck(checks[i], acc).Fail? then 0 else 1 + FirstFailure(checks[i + 1..], acc)
  {
    assert checks[i..][0] == checks[i] && checks[i..][1..] == checks[i + 1..];
  }

  /** The check at position `i` either ends the chain there, keeping the value, or hands on to the next token. */
  lemma CheckAt(alias: map<string, string>, ruleSet: Rules, tokens: seq<Value>, checks: seq<CheckId>, acc: Value, i: nat)
    requires ActsAsChecks(alias, ruleSet, tokens, checks, acc) && i < |tokens|
    ensures var r := RunChain(alias, ruleSet, tokens[i..], acc);
      if RunCheck(checks[i], acc).Fail? then
        r.acc == acc && r.end == Failed(RunCheck(checks[i], acc).message, Resolve(alias, tokens[i]))
      else r == RunChain(alias, ruleSet, tokens[i + 1..], acc)
  {
    var rule := Resolve(alias, tokens[i]);
    assert tokens[i..][0] == tokens[i] && tokens[i..][1..] == tokens[i + 1..];
    assert ruleSet(MethodName(rule), acc, tokens[i + 1..]) == (RunCheck(checks[i], acc), 0);
    assert RunChain(alias, ruleSet, tokens[i..], acc) == Step(alias, ruleSet, rule, tokens[i + 1..], acc);
  }

  /** Tokens that name checks of the Basic or Advanced table act as those checks in the class's rule set. */
  lemma PlainChecksAct(kind: Kind, source: map<string, Value>, capitalise: bool, tokens: seq<Value>, checks: seq<CheckId>, acc: Value)
    requires NamesChecks(kind, tokens, checks)
    ensures ActsAsChecks(Aliases(kind), RuleSet(kind, source, capitalise), tokens, checks, acc)
  {
    forall k, queue | 0 <= k < |tokens|
      ensures RuleSet(kind, source, capitalise)(MethodName(Resolve(Aliases(kind), tokens[k])), acc, queue) == (RunCheck(checks[k], acc), 0)
    {
      HandleKnown(kind, MethodName(Resolve(Aliases(kind), tokens[k])), Check(checks[k]), acc, queue, source, capitalise);
    }
  }

  /** A chain passes exactly when every chain of the field passes. */
  predicate SetsPass(alias: map<string, string>, ruleSet: Rules, field: string, sets: seq<seq<Value>>, source: map<string, Value>)
  {
    forall j :: 0 <= j < |sets| ==> ChainRun(alias, ruleSet, field, sets[j], source).end.Finished?
  }

  /**
   * Running a field's chains finishes exactly when each of them does on its
   * own; otherwise the result is the run of the first chain that does not
   * finish.
   */
  lemma {:induction false} RunSetsVerdict(alias: map<string, string>, ruleSet: Rules, field: string, sets: seq<seq<Value>>, source: map<string, Value>, st: Run)
    requires st.end.Finished?
    ensures var r := RunSets(alias, ruleSet, field, sets, source, st);
      (r.end.Finished? <==> SetsPass(alias, ruleSet, field, sets, source))
      && (!r.end.Finished? ==> exists j ::
            && 0 <= j < |sets| && r == ChainRun(alias, ruleSet, field, sets[j], source)
            && SetsPass(alias, ruleSet, field, sets[..j], source))
    decreases |sets|
  {
    if sets != [] {
      var run := ChainRun(alias, ruleSet, field, sets[0], source);
      if run.end.Finished? {
        RunSetsVerdict(alias, ruleSet, field, sets[1..], source, run);
        assert forall j :: 1 <= j < |sets| ==> sets[j] == sets[1..][j - 1];
        var r := RunSets(alias, ruleSet, field, sets, source, st);
        if !r.end.Finished? {
          var j :| 0 <= j < |sets| - 1 && r == ChainRun(alias, ruleSet, field, sets[1..][j], source)
            && SetsPass(alias, ruleSet, field, sets[1..][..j], source);
          assert sets[..j + 1] == [sets[0]] + sets[1..][..j];
          assert SetsPass(alias, ruleSet, field, sets[..j + 1], source);
        }
      } else {
        assert SetsPass(alias, ruleSet, field, sets[..0], source);
      }
    }
  }

  /**
   * `applyRulesets` finishes exactly when every chain of every declared
   * field finishes on its own; otherwise it ends as the first chain that
   * does not, in field order and then declaration order, and all chains
   * before that one passed.
   */
  lemma {:induction false} RunFieldsVerdict(alias: map<string, string>, ruleSet: Rules, fields: seq<string>, rules: map<string, seq<seq<Value>>>, source: map<string, Value>, st: Run)
    requires forall k :: 0 <= k < |fields| ==> fields[k] in rules
    requires st.end.Finished?
    ensures var r := RunFields(alias, ruleSet, fields, rules, source, st);
      (r.end.Finished? <==> forall i :: 0 <= i < |fields| ==> SetsPass(alias, ruleSet, fields[i], rules[fields[i]], source))
      && (!r.end.Finished? ==> exists i, j ::
            && 0 <= i < |fields| && 0 <= j < |rules[fields[i]]|
            && r == ChainRun(alias, ruleSet, fields[i], rules[fields[i]][j], source)
            && SetsPass(alias, ruleSet, fields[i], rules[fields[i]][..j], source)
            && forall i' :: 0 <= i' < i ==> SetsPass(alias, ruleSet, fields[i'], rules[fields[i']], source))
    decreases |fields|
  {
    if fields != [] {
      var f := fields[0];
      var run := RunSets(alias, ruleSet, f, rules[f], source, st);
      RunSetsVerdict(alias, ruleSet, f, rules[f], source, st);
      if run.end.Finished? {
        RunFieldsVerdict(alias, ruleSet, fields[1..], rules, source, run);
        assert forall i :: 1 <= i < |fields| ==> fields[i] == fields[1..][i - 1];
        var r := RunFields(alias, ruleSet, fields, rules, source, st);
        if !r.end.Finished? {
          var i, j :| 0 <= i < |fields| - 1 && 0 <= j < |rules[fields[1..][i]]|
            && r == ChainRun(alias, ruleSet, fields[1..][i], rules[fields[1..][i]][j], source)
            && SetsPass(alias, ruleSet, fields[1..][i], rules[fields[1..][i]][..j], source)
            && forall i' :: 0 <= i' < i ==> SetsPass(alias, ruleSet, fields[1..][i'], rules[fields[1..][i']], source);
          assert fields[i + 1] == fields[1..][i];
          assert forall i' :: 0 <= i' < i + 1 ==> SetsPass(alias, ruleSet, fields[i'], rules[fields[i']], source);
        }
      }
    }
  }

  /**
   * Aliases: `same` runs as `eq` and `different` as `ne` in Basic and
   * Advanced, whatever the rule methods do; the lookup happens once, and
   * since no alias names another alias, once is as good as repeatedly.
   */
  lemma AliasesRewriteOnce(kind: Kind, ruleSet: Rules, queue: seq<Value>, acc: Value, token: Value)
    requires kind != AbstractKind
    ensures RunChain(Aliases(kind), ruleSet, [Str("same")] + queue, acc) == RunChain(Aliases(kind), ruleSet, [Str("eq")] + queue, acc)
    ensures RunChain(Aliases(kind), ruleSet, [Str("different")] + queue, acc) == RunChain(Aliases(kind), ruleSet, [Str("ne")] + queue, acc)
    ensures Resolve(Aliases(kind), Resolve(Aliases(kind), token)) == Resolve(Aliases(kind), token)
  {
    AdvancedRules.AdvancedAliasTable();
    assert Aliases(kind).Keys == {"same", "different"} || Aliases(kind).Keys == {"same", "different", "foo"};
    AliasRuns(Aliases(kind), ruleSet, Str("same"), Str("eq"), queue, acc);
    AliasRuns(Aliases(kind), ruleSet, Str("different"), Str("ne"), queue, acc);
  }

  /** A token the table rewrites to a target that is not itself rewritten runs exactly as that target. */
  lemma AliasRuns(alias: map<string, string>, ruleSet: Rules, from: Value, target: Value, queue: seq<Value>, acc: Value)
    requires from.Str? && target.Str? && from.s in alias && alias[from.s] == target.s
    requires target.s !in alias && from.s != "" && target.s != ""
    ensures RunChain(alias, ruleSet, [from] + queue, acc) == RunChain(alias, ruleSet, [target] + queue, acc)
  {
    FirstStep(alias, ruleSet, from, queue, acc);
    FirstStep(alias, ruleSet, target, queue, acc);
  }

  /** A chain that starts with a rule token runs that token's step first. */
  lemma FirstStep(alias: map<string, string>, ruleSet: Rules, token: Value, queue: seq<Value>, acc: Value)
    requires token != Null && token != Str("")
    ensures RunChain(alias, ruleSet, [token] + queue, acc) == Step(alias, ruleSet, Resolve(alias, token), queue, acc)
  {
    assert ([token] + queue)[0] == token && ([token] + queue)[1..] == queue;
  }

  /**
   * The capitalisation flag of `rule_to_name`, as written: `applyRules`
   * passes the field name as the second argument, and a string is never
   * identical to false, so for every field the rule capitalises prefixes:
   * the forename "von" comes out as "Von".
   */
  lemma ToNameAsWritten(kind: Kind, name: string, acc: Value, queue: seq<Value>, source: map<string, Value>, piece: string)
    requires kind != AbstractKind && name == "to_name"
    ensures Handle(kind, name, acc, queue, source, true) == (Return(Str(NameCase.NameSpec(acc, true))), queue)
    ensures NameCase.PrefixOf(piece).Some? ==> NameCase.ForenamePiece(piece, true) != piece
  {
    ToNameFound(kind, name);
    ToNameRuns(kind, name, acc, queue, source, true);
    if NameCase.PrefixOf(piece).Some? {
      NameCase.ForenamePrefixSpelling(piece, true);
      NameCase.ForenamePrefixSpelling(piece, false);
      PrefixKeyIsLower(piece);
    }
  }

  lemma PrefixKeyIsLower(piece: string)
    requires NameCase.PrefixOf(piece).Some?
    ensures piece != [] && !IsUpper(piece[0])
  {
    NameCase.PrefixSpellings();
    var i :| 0 <= i < |NameCase.PrefixTable| && NameCase.PrefixTable[i] == (piece, NameCase.PrefixOf(piece).value);
    NameCase.PrefixesCapitalised();
    assert Lower(NameCase.PrefixTable[i].1.upper) == piece;
  }

  /**
   * The corrected call leaves the flag at its default, false: a prefix
   * among the forenames keeps its lower-case spelling, and the rule changes
   * nothing but letter case.
   */
  lemma ToNameCorrected(kind: Kind, name: string, acc: Value, queue: seq<Value>, source: map<string, Value>, piece: string)
    requires kind != AbstractKind && name == "to_name"
    ensures Handle(kind, name, acc, queue, source, false) == (Return(Str(NameCase.NameSpec(acc, false))), queue)
    ensures NameCase.PrefixOf(piece).Some? ==> NameCase.ForenamePiece(piece, false) == piece
    ensures ToBool(acc) ==> Lower(NameCase.NameSpec(acc, false)) == Lower(NameCase.Cleaned(acc))
  {
    ToNameFound(kind, name);
    ToNameRuns(kind, name, acc, queue, source, false);
    if NameCase.PrefixOf(piece).Some? {
      NameCase.ForenamePrefixSpelling(piece, false);
    }
    if ToBool(acc) {
      NameCase.NameOnlyChangesCase(acc, false);
    }
  }

  /** `to_name` pulls nothing and returns the formatted name, with the flag it is given. */
  lemma ToNameRuns(kind: Kind, name: string, acc: Value, queue: seq<Value>, source: map<string, Value>, capitalise: bool)
    requires RuleOf(kind, name) == Some(Conversion(ToNameConversion))
    ensures Handle(kind, name, acc, queue, source, capitalise) == (Return(Str(NameCase.NameSpec(acc, capitalise))), queue)
  {
    HandleKnown(kind, name, Conversion(ToNameConversion), acc, queue, source, capitalise);
  }

  /** A name the table knows runs its rule. */
  lemma HandleKnown(kind: Kind, name: string, id: RuleId, acc: Value, queue: seq<Value>, source: map<string, Value>, capitalise: bool)
    requires RuleOf(kind, name) == Some(id)
    ensures Handle(kind, name, acc, queue, source, capitalise) == Apply(kind, id, acc, queue, source, capitalise)
  {
  }

  lemma ToNameFound(kind: Kind, name: string)
    requires kind != AbstractKind && name == "to_name"
    ensures RuleOf(kind, name) == Some(Conversion(ToNameConversion))
  {
    NameCase.FindInAt(BasicRuleTable, name, |BasicRuleTable| - 1);
  }

  /**
   * What the loop of `applyRules` does with a reply: a return goes on with
   * the returned value as accumulator unless it is null; any other reply
   * ends the chain with the accumulator unchanged.
   */
  function Outcome(reply: Reply, rule: Value, acc: Value): (Option<End>, Value)
  {
    match reply
    case Return(v) => (None, if v == Null then acc else v)
    case Fail(message) => (Some(Failed(message, rule)), acc)
    case Undefined(name) => (Some(Crashed(name)), acc)
    case Unmodelled(name) => (Some(Unknown(name)), acc)
  }

  /** A step is what the rule's reply makes of it. */
  lemma StepOn(alias: map<string, string>, ruleSet: Rules, rule: Value, queue: seq<Value>, acc: Value, reply: Reply, pulled: nat)
    requires (reply, pulled) == ruleSet(MethodName(rule), acc, queue)
    ensures var rest := queue[Min(pulled, |queue|)..];
      var (taken, next) := Outcome(reply, rule, acc);
      && (taken.None? ==> Step(alias, ruleSet, rule, queue, acc) == RunChain(alias, ruleSet, rest, next))
      && (taken.Some? ==> Step(alias, ruleSet, rule, queue, acc) == Run(next, rest, taken.value))
  {
  }

  /** One step of the chain in terms of what `Handle` replies and the queue it leaves. */
  lemma HandleStep(kind: Kind, source: map<string, Value>, capitalise: bool, alias: map<string, string>, rule: Value, queue: seq<Value>, acc: Value)
    ensures var (reply, rest) := Handle(kind, MethodName(rule), acc, queue, source, capitalise);
      var (taken, next) := Outcome(reply, rule, acc);
      var step := Step(alias, RuleSet(kind, source, capitalise), rule, queue, acc);
      && (taken.None? ==> step == RunChain(alias, RuleSet(kind, source, capitalise), rest, next))
      && (taken.Some? ==> step == Run(next, rest, taken.value))
  {
    var ruleSet := RuleSet(kind, source, capitalise);
    var handled := Handle(kind, MethodName(rule), acc, queue, source, capitalise);
    RuleSetIsHandle(kind, source, capitalise, MethodName(rule), acc, queue);
    var (reply, pulled) := ruleSet(MethodName(rule), acc, queue);
    StepOn(alias, ruleSet, rule, queue, acc, reply, pulled);
    assert reply == handled.0 && queue[Min(pulled, |queue|)..] == handled.1;
  }

  // ---------------------------------------------------------------------
  // The interpreter.

  class Validator {
    const kind: Kind
    /**
     * What `rule_to_name` receives as its second argument, which it tests
     * with `!== false`: `applyRules` passes the field name, so as written the
     * flag is always true; false is the call the method's default intends.
     */
    const prefixFlag: bool
    /** The declared fields, in the order `array_keys($this->rules)` lists them. */
    var order: seq<string>
    /** `$this->rules`: field => chains, in declaration order. */
    var rules: map<string, seq<seq<Value>>>
    /** `$this->alias`. */
    var alias: map<string, string>
    /** The data source `get` reads; `set` is never reached. */
    var source: map<string, Value>
    /** `$this->acc`. */
    var acc: Value
    /** `$this->current_ruleset`: the pending queue. */
    var currentRuleset: seq<Value>

    ghost predicate Valid()
      reads this`order, this`rules, this`alias
    {
      TableOk(order, rules) && alias == Aliases(kind)
    }

    /** `init`: no chains yet; the class's alias table; the owner as data source. */
    constructor(kind: Kind, source: map<string, Value>, prefixFlag: bool)
      ensures Valid() && this.kind == kind && this.source == source && this.prefixFlag == prefixFlag
      ensures order == [] && rules == map[] && acc == Null && currentRuleset == []
    {
      this.kind := kind;
      this.source := source;
      this.prefixFlag := prefixFlag;
      order := [];
      rules := map[];
      alias := Aliases(kind);
      acc := Null;
      currentRuleset := [];
    }

    /** `is(...)` with a rule string, or with a field definition followed by tokens. */
    method Is(args: seq<Value>)
      requires Valid()
      modifies this
      ensures Valid()
      ensures (order, rules) == Declare(old(order), old(rules), Declaration(args).0, Declaration(args).1)
      ensures source == old(source) && acc == old(acc) && currentRuleset == old(currentRuleset)
    {
      var (fields, tokens) := Declaration(args);
      var i := 0;
      while i < |fields|
        invariant 0 <= i <= |fields|
        invariant Valid() && source == old(source) && acc == old(acc) && currentRuleset == old(currentRuleset)
        invariant Declare(order, rules, fields[i..], tokens) == Declare(old(order), old(rules), fields, tokens)
      {
        var f := fields[i];
        assert fields[i..][1..] == fields[i + 1..];
        if f !in rules {
          order := order + [f];
        }
        rules := rules[f := Chains(rules, f) + [tokens]];
        i := i + 1;
      }
    }

    /** `is([e1, e2, ...])`: each entry declared in turn, an entry that is not a list as a one-entry list. */
    method IsList(entries: seq<Entry>)
      requires Valid()
      modifies this
      ensures Valid()
      ensures (order, rules) == DeclareAll(old(order), old(rules), entries)
      ensures source == old(source) && acc == old(acc) && currentRuleset == old(currentRuleset)
    {
      var i := 0;
      while i < |entries|
        invariant 0 <= i <= |entries|
        invariant Valid() && source == old(source) && acc == old(acc) && currentRuleset == old(currentRuleset)
        invariant DeclareAll(order, rules, entries[i..]) == DeclareAll(old(order), old(rules), entries)
      {
        assert entries[i..][1..] == entries[i + 1..];
        Is(ArgsOf(entries[i]));
        i := i + 1;
      }
    }

    /** `getRules($field)`: the field's chains, or nothing for a field never declared. */
    function GetRules(field: string): (r: Option<seq<seq<Value>>>)
      reads this
      ensures r.Some? <==> field in rules
      ensures r.Some? ==> r.value == rules[field] && |r.value| >= 1
      requires Valid()
    {
      if field in rules then Some(rules[field]) else None
    }

    /** `getActualFields`: every declared field exactly once. */
    function GetActualFields(): (r: seq<string>)
      requires Valid()
      reads this
      ensures forall f :: f in r <==> f in rules
      ensures forall i, j :: 0 <= i < j < |r| ==> r[i] != r[j]
    {
      order
    }

    /** `getRule`, which the rules also use as `pullRule`: take the head of the queue, or null once it is empty. */
    method GetRule() returns (token: Value)
      modifies this
      ensures (token, currentRuleset) == Pull(old(currentRuleset))
      ensures order == old(order) && rules == old(rules) && alias == old(alias)
      ensures source == old(source) && acc == old(acc)
    {
      if currentRuleset == [] {
        token := Null;
      } else {
        token := currentRuleset[0];
        currentRuleset := currentRuleset[1..];
      }
    }

    /** `get($field)`: the field's value in the data source, null when it has none. */
    function Get(field: string): (r: Value)
      reads this
      ensures field in source ==> r == source[field]
      ensures field !in source ==> r == Null
    {
      Lookup(source, field)
    }

    /** The call `$this->{'rule_'.$name}($this->acc, $field)`: the rule pulls its arguments off the pending queue. */
    method Dispatch(name: string) returns (reply: Reply)
      requires Valid()
      modifies this
      ensures (reply, currentRuleset) == Handle(kind, name, old(acc), old(currentRuleset), source, prefixFlag)
      ensures order == old(order) && rules == old(rules) && alias == old(alias)
      ensures source == old(source) && acc == old(acc)
    {
      var id := RuleOf(kind, name);
      if id.None? {
        if kind != AbstractKind && name in UnmodelledRules {
          reply := Unmodelled(name);
        } else {
          reply := Undefined("rule_" + name);
        }
        return;
      }
      reply := Invoke(id.value);
    }

    /** A rule method the name reaches, run on the accumulator. */
    method Invoke(id: RuleId) returns (reply: Reply)
      modifies this
      ensures (reply, currentRuleset) == Apply(kind, id, old(acc), old(currentRuleset), source, prefixFlag)
      ensures order == old(order) && rules == old(rules) && alias == old(alias)
      ensures source == old(source) && acc == old(acc)
    {
      match id
      case Check(check) =>
        reply := RunCheck(check, acc);
      case ArgCheck(check) =>
        var arg := GetRule();
        reply := RunArgCheck(check, acc, arg, source);
      case BetweenRule =>
        reply := InvokeBetween();
      case Conversion(conversion) =>
        reply := Convert(conversion);
    }

    /** `between`: the bounds are pulled in order, min first. */
    method InvokeBetween() returns (reply: Reply)
      modifies this
      ensures var (min, rest1) := Pull(old(currentRuleset));
        var (max, rest2) := Pull(rest1);
        reply == RunBetween(kind, old(acc), min, max) && currentRuleset == rest2
      ensures order == old(order) && rules == old(rules) && alias == old(alias)
      ensures source == old(source) && acc == old(acc)
    {
      var min := GetRule();
      var max := GetRule();
      reply := RunBetween(kind, acc, min, max);
    }

    /** A conversion, `to_name` run as the method that formats the name. */
    method Convert(conversion: ConversionId) returns (reply: Reply)
      ensures reply == RunConversion(conversion, acc, prefixFlag)
    {
      if conversion == ToNameConversion {
        var output := NameCase.ToName(acc, prefixFlag);
        reply := Return(Str(output));
      } else {
        reply := RunConversion(conversion, acc, prefixFlag);
      }
    }

    /**
     * `applyRules($field, $tokens)`: the accumulator starts as the field's
     * value and the tokens are dispatched front to back until the queue runs
     * out, a null token is taken or a rule does not return. The data source
     * is never written.
     */
    method ApplyRules(field: string, tokens: seq<Value>) returns (end: End)
      requires Valid()
      modifies this
      ensures Valid() && order == old(order) && rules == old(rules) && source == old(source)
      ensures var run := ChainRun(Aliases(kind), RuleSet(kind, source, prefixFlag), field, tokens, source);
        end == run.end && acc == run.acc && currentRuleset == run.rest
    {
      acc := Get(field);
      currentRuleset := tokens;
      ghost var rs := RuleSet(kind, source, prefixFlag);
      ghost var spec := ChainRun(Aliases(kind), rs, field, tokens, source);
      while true
        invariant Valid() && order == old(order) && rules == old(rules) && source == old(source)
        invariant RunChain(alias, rs, currentRuleset, acc) == spec
        decreases |currentRuleset|
      {
        ghost var queue := currentRuleset;
        var rule := GetRule();
        if rule == Null {
          assert RunChain(alias, rs, queue, acc) == Run(acc, currentRuleset, Finished);
          return Finished;
        }
        if rule == Str("") {
          assert RunChain(alias, rs, queue, acc) == RunChain(alias, rs, currentRuleset, acc);
          continue;
        }
        if rule.Str? && rule.s in alias {
          rule := Str(alias[rule.s]);
        }
        assert rule == Resolve(alias, queue[0]);
        assert spec == Step(alias, rs, rule, currentRuleset, acc);
        HandleStep(kind, source, prefixFlag, alias, rule, currentRuleset, acc);
        var reply := Dispatch(MethodName(rule));
        var taken := Outcome(reply, rule, acc);
        acc := taken.1;
        if taken.0.Some? {
          return taken.0.value;
        }
      }
    }

    /**
     * `applyRulesets` (and `now`): every chain of every declared field, in
     * field order and declaration order, until one does not finish.
     */
    method ApplyRulesets() returns (end: End)
      requires Valid()
      modifies this
      ensures Valid() && order == old(order) && rules == old(rules) && source == old(source)
      ensures var run := RunFields(Aliases(kind), RuleSet(kind, source, prefixFlag), order, rules, source, Run(old(acc), old(currentRuleset), Finished));
        end == run.end && acc == run.acc && currentRuleset == run.rest
    {
      var fields := GetActualFields();
      ghost var spec := RunFields(Aliases(kind), RuleSet(kind, source, prefixFlag), fields, rules, source, Run(acc, currentRuleset, Finished));
      end := Finished;
      var i := 0;
      while i < |fields|
        invariant 0 <= i <= |fields| && end == Finished
        invariant Valid() && order == old(order) && rules == old(rules) && source == old(source) && fields == order
        invariant RunFields(Aliases(kind), RuleSet(kind, source, prefixFlag), fields[i..], rules, source, Run(acc, currentRuleset, Finished)) == spec
      {
        var field := fields[i];
        var sets := GetRules(field).value;
        ghost var fieldSpec := RunSets(Aliases(kind), RuleSet(kind, source, prefixFlag), field, sets, source, Run(acc, currentRuleset, Finished));
        assert fields[i..][1..] == fields[i + 1..];
        var j := 0;
        while j < |sets|
          invariant 0 <= j <= |sets| && end == Finished
          invariant Valid() && order == old(order) && rules == old(rules) && source == old(source) && fields == order
          invariant RunSets(Aliases(kind), RuleSet(kind, source, prefixFlag), field, sets[j..], source, Run(acc, currentRuleset, Finished)) == fieldSpec
        {
          assert sets[j..][1..] == sets[j + 1..];
          end := ApplyRules(field, sets[j]);
          if !end.Finished? {
            return;
          }
          j := j + 1;
        }
        i := i + 1;
      }
    }
  }

  /** One entry of the array given to `is([...])`: a rule string, or a list of arguments. */
  datatype Entry = Single(arg: Value) | List(args: seq<Value>)

  function ArgsOf(e: Entry): seq<Value>
  {
    match e
    case Single(arg) => [arg]
    case List(args) => args
  }

  /** `is([e1, e2, ...])` as `is(e1); is(e2); ...`. */
  function DeclareAll(order: seq<string>, rules: map<string, seq<seq<Value>>>, entries: seq<Entry>): (seq<string>, map<string, seq<seq<Value>>>)
    decreases |entries|
  {
    if entries == [] then (order, rules)
    else
      var (fields, tokens) := Declaration(ArgsOf(entries[0]));
      var (order', rules') := Declare(order, rules, fields, tokens);
      DeclareAll(order', rules', entries[1..])
  }
}
