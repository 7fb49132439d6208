# Validator controllers of romaninsh/validation, in Dafny

This project models the validation core of the `romaninsh/validation` PHP
library, in two parts.

**The rule-chain validator.** These are the controllers
`Controller_Validator_Abstract`, `_Basic` and `_Advanced`.
- `is()` declares rule chains per field: either one string
  `"field,field|rule|rule:arg"`, or a field definition followed by tokens.
- `applyRules()` runs one chain on an accumulator that starts as the
  field's value:
  - tokens are taken off the front of a pending queue;
  - an alias (`same` → `eq`, `different` → `ne`, and in Advanced
    `foo` → `bar`) is applied once;
  - the token names a `rule_` method, which pulls its own arguments off the
    same queue;
  - a non-null return value replaces the accumulator, and a failure stops
    everything.
- `applyRulesets()` runs every chain of every declared field, in
  declaration order.
- Basic supplies the checks (`required`, `in`, `between`, `eq`, `len_gt`,
  `int`, `alpha`, `iso_time`, `zip`, `credit_card`, ...) and the conversions
  (`to_trim`, `to_alpha`, `to_strip_extra_space`, `to_name`, ...).
- Advanced overrides `between`: it compares the value itself and returns it.
  It also adds the `MIN..MAX` range shorthand.

**The configuration normaliser.** This is `Controller_Validator::parse`.
- For each field of a configuration it runs rules of the form
  `name[!][:arg...]` on a working value (`int`, `max`, `min`, `between`,
  `email`).
- A rule marked `!` throws as soon as the working value is no longer
  identical to the owner's value.

**The Dafny modules**
- `Php` holds the PHP 7 value semantics the code relies on:
  - scalars as `Str | Int | Bool | Null`;
  - `(string)`, `(int)` and `is_numeric` on integer literals;
  - the loose comparison `<=>` behind `<`, `>`, `==`, `!=` and `in_array`.
- `PhpText` holds `explode`/`implode`, `trim`, `strtolower`, `ucfirst` and
  `ucwords`.
- `BasicRules`, `NameCase` (`rule_to_name`) and `AdvancedRules` hold the rules
  themselves.
- `Engine` holds the interpreter:
  - the pure functions `RunChain`/`RunSets`/`RunFields` specify what running
    does;
  - the class `Engine.Validator` holds the controller's state (`rules`,
    `acc`, `current_ruleset`, `alias`). Its methods are proved against those
    functions.
- `ConfigParse` models `parse` as loops proved against `ParseConfig`.

The chain functions are generic in the rule methods, which are a function
`Rules` from method name, accumulator and queue to a reply and a pull count.
`RuleSet(kind, ...)` is the table of the Abstract, Basic or Advanced class.
The class's own kind is fixed by `const kind`.

A few behaviours follow the code rather than the method names:
- `applyRules` tests `substr($rule,0,2)=='to_'`. A two-character prefix never
  equals the three-character `"to_"`. So the write-back through `set` never
  happens, and `to_...` tokens reach the `rule_to_...` methods by their full
  name.
- An empty token is skipped.
- A `null` token ends the chain.

## Model

| member | source | states |
|---|---|---|
| Engine.Validator.constructor | lib/Controller/Validator/Abstract.php:11-16 | `init`: no chains, the class's alias table, the given data source, and the flag `to_name` will receive (`prefixFlag`) |
| Engine.Validator.Is | lib/Controller/Validator/Abstract.php:29-64 | one declaration appends the same token chain once per listed field, and records first-time fields in order (equals `Declare` of `Declaration(args)`) |
| Engine.Validator.IsList | lib/Controller/Validator/Abstract.php:35-44 | `is([...])` declares each entry in turn, a non-list entry as a one-element list |
| Engine.Declaration | lib/Controller/Validator/Abstract.php:47-54 | one argument is split by `expandRules`; otherwise the first argument is the field definition and the rest are the tokens |
| Engine.ExpandRules | lib/Controller/Validator/Abstract.php:73-78 | the field part is the text before the first `\|`; without a `\|` there is one empty token; otherwise the remainder is cut at every `\|`, `,` and `:`, with one more piece than separators and no separator in any piece |
| Engine.ExpandRulesRoundTrip | lib/Controller/Validator/Abstract.php:73-78 | a field and tokens joined as `field\|t1\|t2...` (no separators inside) are split back into exactly that field and those tokens |
| Engine.ExpandFieldDefinition | lib/Controller/Validator/Abstract.php:86-89 | `explode(',')`: one more piece than commas, no comma in any piece, and joining them gives the definition back |
| Engine.DeclareKeepsOrder | lib/Controller/Validator/Abstract.php:60-62 | after a declaration a field has chains iff it had them or was listed; old fields keep their place and new ones are appended without duplicates |
| Engine.DeclareAppends | lib/Controller/Validator/Abstract.php:60-62 | a field's chains become its old chains followed by as many copies of the tokens as the field is listed |
| Engine.Validator.GetRules | lib/Controller/Validator/Abstract.php:94-96 | the chains of a declared field (at least one), nothing for an undeclared one |
| Engine.Validator.GetActualFields | lib/Controller/Validator/Abstract.php:110-112 | every declared field exactly once |
| Engine.Validator.GetRule | lib/Controller/Validator/Abstract.php:131-133 | `array_shift`: the head of the queue and the rest, or null on an empty queue; nothing else changes |
| Engine.Validator.Get | lib/Controller/Validator/Abstract.php:135-137 | the field's value in the data source, null when it has none |
| Engine.Handle | lib/Controller/Validator/Abstract.php:168 | a known method runs its rule; a Basic method outside the model is reported as such; any other name has no method, and the queue is untouched |
| Engine.Apply | lib/Controller/Validator/Abstract.php:168 | every rule pulls exactly its arity (or what is left) off the queue, and returns or fails |
| Engine.Validator.Dispatch | lib/Controller/Validator/Abstract.php:168 | the dynamic call does what `Handle` says, with the class's `prefixFlag` as the second argument; only the queue changes |
| Engine.Validator.Invoke | lib/Controller/Validator/Abstract.php:168 | a known rule method does what `Apply` says |
| Engine.Validator.InvokeBetween | lib/Controller/Validator/Basic.php:109-110 | `between` pulls min and then max, in that order |
| Engine.Validator.Convert | lib/Controller/Validator/Basic.php:754-1067 | a conversion, with `to_name` run as the imperative `NameCase.ToName`, gives `RunConversion` |
| Engine.Validator.ApplyRules | lib/Controller/Validator/Abstract.php:141-189 | the loop leaves the result, accumulator and pending queue of `ChainRun` (the value is fetched, empty tokens skipped, aliases applied once, a null return keeps the accumulator); the declarations and the data source are unchanged |
| Engine.RunChain | lib/Controller/Validator/Abstract.php:145-188 | the loop of `applyRules` as a definition: an empty queue or a null token finishes, an empty token is skipped, any other token is aliased once and taken as a `Step`; `FirstStep`, `ChecksKeepValue` and `Validator.ApplyRules` are stated against it |
| Engine.ChainRun | lib/Controller/Validator/Abstract.php:141-143 | `applyRules($field, $rules)` as a definition: `RunChain` started from the field's value `get($field)` |
| Engine.HandleStep | lib/Controller/Validator/Abstract.php:168-187 | one dispatched rule is the chain's `Step`: when the reply is a return the run continues from the queue `Handle` leaves with the returned value (or the old accumulator when it is null); any other reply ends the chain there with the accumulator the rule received |
| Engine.Validator.ApplyRulesets | lib/Controller/Validator/Abstract.php:114-126 | the nested loops equal `RunFields` over `getActualFields` order, stopping at the first chain that does not finish |
| Engine.RunFields | lib/Controller/Validator/Abstract.php:114-126 | `applyRulesets` as a definition: each field's chains in turn, in the order given, stopping at the first run that does not finish; `RunFieldsVerdict` characterises it |
| Engine.RunSetsVerdict | lib/Controller/Validator/Abstract.php:119-123 | a field's chains finish iff each finishes on its own; otherwise the result is the first chain that does not finish, and every earlier one finished |
| Engine.RunFieldsVerdict | lib/Controller/Validator/Abstract.php:114-126 | `applyRulesets` finishes iff every chain of every field does; otherwise it ends as the first failing chain in field and declaration order |
| Engine.ChecksKeepValue | lib/Controller/Validator/Abstract.php:145-176 | a chain of checks never changes the accumulator; it finishes iff no check fails, else it fails at the first failing check, reporting that (aliased) rule |
| Engine.PlainChecksAct | lib/Controller/Validator/Abstract.php:165-168 | tokens that name checks of the class's table behave, through alias and dispatch, as those checks, pulling nothing |
| Engine.FirstFailure | lib/Controller/Validator/Abstract.php:176-186 | the index of the first failing check: every check before it passes and the check there fails, or there is none |
| Engine.AliasesRewriteOnce | lib/Controller/Validator/Basic.php:6-16 | in Basic and Advanced, a chain starting with `same` runs exactly as one starting with `eq`, and `different` as `ne`; one alias lookup is as good as repeated ones |
| Engine.AliasRuns | lib/Controller/Validator/Abstract.php:165-167 | a token rewritten to a target that is not itself an alias runs exactly as the target |
| Engine.FirstStep | lib/Controller/Validator/Abstract.php:145-168 | a chain whose first token is a rule runs that token's step first |
| Engine.StepOn | lib/Controller/Validator/Abstract.php:176-186 | for any rule set, a return continues the chain from the queue the rule leaves with the new (or, on null, the kept) accumulator; any other reply ends it there, a failure tagged with the rule, with the accumulator the rule received |
| Engine.RuleSetIsHandle | lib/Controller/Validator/Abstract.php:168 | the class's rule set replies as `Handle` and leaves the queue `Handle` leaves |
| Engine.HandleKnown | lib/Controller/Validator/Abstract.php:168 | a name the table knows runs its rule |
| Engine.ToNameRuns | lib/Controller/Validator/Basic.php:754 | `to_name` pulls nothing and returns the formatted name for the flag it receives |
| Engine.ToNameFound | lib/Controller/Validator/Basic.php:754 | Basic and Advanced reach `rule_to_name` by the name `to_name` |
| Engine.ToNameAsWritten | lib/Controller/Validator/Abstract.php:168 | as called, `to_name` receives the field name as a true flag: it returns the name formatted with the flag on, and no prefix among the forenames keeps its lower-case spelling (a typed "von" comes out as "Von") |
| Engine.ToNameCorrected | lib/Controller/Validator/Basic.php:975-982 | with the flag at its default `false`, a prefix keeps its lower-case spelling and the name changes only in letter case |
| Engine.PrefixKeyIsLower | lib/Controller/Validator/Basic.php:838-850 | a prefix key does not start with a capital |
| Engine.RunBetween | lib/Controller/Validator/Advanced.php:31-36 | Advanced's `between` returns the value on success, and Basic's returns nothing |
| Engine.RunConversion | lib/Controller/Validator/Basic.php:549-711 | every modelled conversion returns a string |
| AdvancedRules.Merge | lib/Controller/Validator/Advanced.php:9-13 | `array_merge` of string-keyed tables: every key of both, the later table winning |
| AdvancedRules.AdvancedAliasTable | lib/Controller/Validator/Advanced.php:6-14 | the Advanced table is exactly same → eq, different → ne, foo → bar |
| AdvancedRules.FindDots | lib/Controller/Validator/Advanced.php:19 | `strpos(..,'..')`: the first `..` at or after the start, or none anywhere |
| AdvancedRules.ParseRange | lib/Controller/Validator/Advanced.php:19-20 | no range iff there is no `..`; otherwise min is the text before the first `..`, and max the text up to the next `..` or the end |
| AdvancedRules.RangeRoundTrip | lib/Controller/Validator/Advanced.php:19-20 | dot-free bounds written as `lo..hi` parse back to exactly (lo, hi) |
| AdvancedRules.ResolveRange | lib/Controller/Validator/Advanced.php:16-26 | a range token becomes `between` with min and max pushed in front of the queue; any other token is passed on unchanged |
| AdvancedRules.Between | lib/Controller/Validator/Advanced.php:31-36 | fails iff the value is below min or above max by loose comparison, and otherwise returns the value |
| AdvancedRules.RangeShorthandAcceptsInterval | lib/Controller/Validator/Advanced.php:16-36 | `lo..hi` with integer bounds accepts exactly the integers, and the integer texts, in [lo, hi] |
| AdvancedRules.RangeShorthandBetween | lib/Controller/Validator/Advanced.php:16-36 | any `lo..hi` with dot-free bounds becomes `between` with `lo` and `hi` queued in front, and then fails iff the value compares below `lo` or above `hi` |
| AdvancedRules.BetweenOverride | lib/Controller/Validator/Advanced.php:31-36 | on a numeric value the override fails exactly when Basic's `between` does |
| AdvancedRules.BetweenOverrideOnText | lib/Controller/Validator/Basic.php:115-120 | on text the two differ: "abc" within "1".."5" passes Basic (length 3) and fails Advanced |
| AdvancedRules.LetterLedNotNumeric | lib/Controller/Validator/Basic.php:113 | a text starting with a letter is not `is_numeric` |
| BasicRules.Required | lib/Controller/Validator/Basic.php:20-25 | fails iff the value is identical to "" or false, and otherwise returns nothing |
| BasicRules.RequiredAcceptsFalsyValues | lib/Controller/Validator/Basic.php:22 | every value it rejects is falsy, yet null, 0 and "0" all pass |
| BasicRules.Between | lib/Controller/Validator/Basic.php:107-121 | a numeric value fails iff it is outside [min, max] by loose comparison; otherwise its character count is compared |
| BasicRules.BetweenIntegers | lib/Controller/Validator/Basic.php:113-115 | with integer-text bounds, an integer or integer text fails iff it is outside [lo, hi] |
| BasicRules.BetweenLength | lib/Controller/Validator/Basic.php:117-119 | a non-numeric text fails iff its length is outside [lo, hi] |
| BasicRules.Eq | lib/Controller/Validator/Basic.php:125-128 | fails iff the value is not loosely equal to the argument, and otherwise returns nothing |
| BasicRules.Ne | lib/Controller/Validator/Basic.php:130-133 | fails iff the value is loosely equal to the argument, and otherwise returns nothing |
| BasicRules.EqNeComplementary | lib/Controller/Validator/Basic.php:125-133 | exactly one of `eq` and `ne` fails on the same operands, and `eq` fails iff they are not loosely equal |
| BasicRules.EqOnText | lib/Controller/Validator/Basic.php:127 | when the texts are not both numeric, `eq` compares them exactly |
| BasicRules.EqOnNumericText | lib/Controller/Validator/Basic.php:127 | "01" equals "1": numeric strings compare as numbers |
| BasicRules.ZeroOneIsOne | lib/Controller/Validator/Basic.php:127 | "01" is numeric and denotes 1 |
| BasicRules.Eqf | lib/Controller/Validator/Basic.php:138-144 | fails iff the value is not loosely equal to the named field's value |
| BasicRules.Nef | lib/Controller/Validator/Basic.php:149-152 | fails iff the value is loosely equal to the named field's value |
| BasicRules.InValues | lib/Controller/Validator/Basic.php:1154-1159 | the pulled list cut at every comma, each piece trimmed |
| BasicRules.In | lib/Controller/Validator/Basic.php:81-85 | fails iff the value loosely equals no entry of the list |
| BasicRules.NotIn | lib/Controller/Validator/Basic.php:91-95 | fails iff the value loosely equals some entry |
| BasicRules.InNotInComplementary | lib/Controller/Validator/Basic.php:81-95 | exactly one of `in` and `not_in` fails on the same list |
| BasicRules.InIgnoresBlanks | lib/Controller/Validator/Basic.php:1156-1157 | blanks around an entry are trimmed: the list "a, b" contains "b" |
| BasicRules.LenEq | lib/Controller/Validator/Basic.php:154-159 | fails iff the target is not loosely equal to the length |
| BasicRules.LenGt | lib/Controller/Validator/Basic.php:161-166 | fails iff the length is at most the target |
| BasicRules.LenLt | lib/Controller/Validator/Basic.php:168-173 | fails iff the length is at least the target |
| BasicRules.LengthRules | lib/Controller/Validator/Basic.php:154-173 | with an integer-text target n, the three rules fail iff length ≠ n, ≤ n and ≥ n respectively |
| BasicRules.PatternRule | lib/Controller/Validator/Basic.php:204-261 | an anchored-pattern check fails iff the text does not match |
| BasicRules.PatternRulesOnSamples | lib/Controller/Validator/Basic.php:204-433 | `int` accepts "" and rejects "12a"; `alpha` rejects "" and "ab1"; `zip` accepts 5 and 5-4 digits (and a trailing newline) and rejects 4 digits |
| BasicRules.ClockShape | lib/Controller/Validator/Basic.php:363-380 | a matched time has two-digit hour, minute and second |
| BasicRules.IsoTimeRule | lib/Controller/Validator/Basic.php:363-380 | passes iff the text matches the time pattern with hour ≤ 24 and minute and second ≤ 59 |
| BasicRules.EightCharClock | lib/Controller/Validator/Basic.php:363-380 | a text `HH:MM:SS` of digits matches, with the hour, minute and second read off its digit pairs |
| BasicRules.IsoTimeAcceptsHours | tests/validator.test.php:55-59 | "01:01:01" and "24:01:01" pass |
| BasicRules.IsoTimeAcceptsMinutesSeconds | tests/validator.test.php:61-65 | "01:59:01" and "01:01:59" pass |
| BasicRules.IsoTimeAcceptsFraction | tests/validator.test.php:67-68 | "01:01:59.12345" passes |
| BasicRules.IsoTimeRejectsTestTimes | tests/validator.test.php:70-77 | "25:01:01", "01:60:01" and "01:01:60" fail |
| BasicRules.LuhnSum | lib/Controller/Validator/Basic.php:440-484 | the loop's sum is the Luhn sum `LuhnFrom` of the number |
| BasicRules.LuhnTermIsDigitSum | lib/Controller/Validator/Basic.php:460-470 | a doubled digit contributes the sum of the digits of its double (double minus 9 when above 9) |
| BasicRules.CreditCard | lib/Controller/Validator/Basic.php:440-484 | passes iff the Luhn sum is a multiple of 10 and the number is not all zeros |
| BasicRules.CreditCardSamples | tests/validator.test.php:136-151 | the six sample card numbers pass |
| BasicRules.CreditCardRejectsZeros | lib/Controller/Validator/Basic.php:440-484 | an all-zero number fails |
| BasicRules.FilterRule | lib/Controller/Validator/Basic.php:567-711 | a filtering conversion returns a string whose characters are all in the class |
| BasicRules.FilterRemovesExactlyOutOfClass | lib/Controller/Validator/Basic.php:567-711 | filtering distributes over concatenation, keeps every in-class character with its count and drops the rest, and leaves a text unchanged iff it is all in the class |
| BasicRules.TrimRule | lib/Controller/Validator/Basic.php:549-562 | the result is a string with no trimmable character left at the trimmed end(s) |
| BasicRules.TrimRuleSlice | lib/Controller/Validator/Basic.php:549-562 | the result is a slice of the text with only trimmable characters outside it: `ltrim` keeps a suffix, `rtrim` a prefix, `trim` a middle part |
| BasicRules.StripExtraSpaceRule | lib/Controller/Validator/Basic.php:575-578 | the result has no two consecutive blanks and is no longer than the input |
| BasicRules.StripExtraSpaceKeepsText | lib/Controller/Validator/Basic.php:575-578 | every non-blank character is kept, and the text before and after it is collapsed independently |
| BasicRules.StripExtraSpaceRuns | lib/Controller/Validator/Basic.php:575-578 | a run of two or more blanks becomes one space; a single blank is left as it is |
| BasicRules.FailRule | lib/Controller/Validator/Abstract.php:210-212 | `rule_fail` always fails |
| NameCase.PrefixOf | lib/Controller/Validator/Basic.php:838-850 | a prefix found is an entry of the prefix table |
| NameCase.SuffixOf | lib/Controller/Validator/Basic.php:856-895 | a suffix found is an entry of the suffix table, and none is found only when no entry has the key |
| NameCase.Words | lib/Controller/Validator/Basic.php:899-903 | trimming, collapsing blanks and splitting give at least one word |
| NameCase.SplitName | lib/Controller/Validator/Basic.php:903-948 | forenames, main name and the suffix's word give the words back; a suffix is taken iff there are two or more words and the last is a suffix key |
| NameCase.CaseForenamePiece | lib/Controller/Validator/Basic.php:973-990 | one forename piece: the prefix table's spelling for the flag, or `ucfirst` |
| NameCase.CaseForename | lib/Controller/Validator/Basic.php:960-993 | the loop over a forename's pieces gives `FormatForename` |
| NameCase.CaseForenames | lib/Controller/Validator/Basic.php:956-995 | the loop over the forenames formats each of them in place |
| NameCase.CaseMainPiece | lib/Controller/Validator/Basic.php:1011-1052 | one main-name piece: the Mc, Mac and O' rules or `ucfirst` |
| NameCase.CaseMain | lib/Controller/Validator/Basic.php:999-1055 | the loop over the main name's pieces gives `FormatMain` |
| NameCase.ToName | lib/Controller/Validator/Basic.php:754-1067 | the method returns `NameSpec`: "" for an empty name, else the formatted forenames, main name and suffix joined with spaces |
| NameCase.NameSpec | lib/Controller/Validator/Basic.php:754-1067 | `rule_to_name` as a definition: "" for a value PHP finds `empty`, else the words of the cleaned name split into forenames, main name and suffix, each formatted, joined by spaces; `NameOnlyChangesCase` and the whole-name samples are stated against it |
| NameCase.NameOnlyChangesCase | lib/Controller/Validator/Basic.php:899-1066 | for a name that is not falsy, the formatted name differs from the trimmed, blank-collapsed input only in letter case |
| NameCase.PrefixFlagOnlyChangesCase | lib/Controller/Validator/Basic.php:975-982 | the prefix flag changes letter case only |
| NameCase.FormattedWordsCase | lib/Controller/Validator/Basic.php:952-1064 | each formatted word equals its source word up to case |
| NameCase.FormatForenameCase | lib/Controller/Validator/Basic.php:960-993 | a formatted forename equals the forename up to case |
| NameCase.FormatMainCase | lib/Controller/Validator/Basic.php:999-1055 | a formatted main name equals it up to case |
| NameCase.MainPieceCase | lib/Controller/Validator/Basic.php:1013-1052 | each main-name rule changes case only |
| NameCase.ForenamePieceCase | lib/Controller/Validator/Basic.php:973-990 | each forename-piece rule changes case only |
| NameCase.SuffixCase | lib/Controller/Validator/Basic.php:923-928 | a suffix's spelling equals the word up to case |
| NameCase.SplitLower | lib/Controller/Validator/Basic.php:1004-1005 | lower-casing and then cutting at '-' gives the lower-cased pieces, as many as before |
| NameCase.PrefixSpellings | lib/Controller/Validator/Basic.php:838-850 | both spellings of every prefix equal its key up to case |
| NameCase.SuffixSpellings | lib/Controller/Validator/Basic.php:856-895 | every suffix spelling equals its key up to case |
| NameCase.ForenamePrefixSpelling | lib/Controller/Validator/Basic.php:975-982 | with the flag false a prefix keeps its spelling; with it true it starts with a capital |
| NameCase.VonSample | tests/formatter.test.php:57 | the forename "von" stays "von" without the flag and becomes "Von" with it |
| NameCase.McSample | tests/formatter.test.php:51-55 | the piece "mcdonald" becomes "McDonald" whatever its typed spelling |
| NameCase.MacKeptSample | tests/formatter.test.php:53 | "MacDonald" is kept as written |
| NameCase.MacLoweredSample | tests/formatter.test.php:52 | "macdonald" becomes "Macdonald" |
| NameCase.OApostropheSample | tests/formatter.test.php:58 | "o'grady" becomes "O'Grady" |
| NameCase.SmytheSample | tests/formatter.test.php:55 | the piece "smythe" only gets its first letter capitalised: "Smythe" |
| NameCase.CleanWords | lib/Controller/Validator/Basic.php:898-902 | a name already trimmed and free of double blanks splits into exactly the words it joins |
| NameCase.OneWordName | lib/Controller/Validator/Basic.php:904-911 | a one-word name is formatted as its main name |
| NameCase.SuffixedName | lib/Controller/Validator/Basic.php:913-1064 | three words ending in a known suffix give the formatted forename, the formatted main name and the suffix's spelling, joined by spaces |
| NameCase.TwoPieceMain | lib/Controller/Validator/Basic.php:999-1055 | a main name `x-y` is re-cased piece by piece (each from its lower-case form and its typed spelling) and the hyphen kept |
| NameCase.OnePieceMain | lib/Controller/Validator/Basic.php:999-1055 | a main name with no hyphen is one piece |
| NameCase.MacDonaldMain | tests/formatter.test.php:57 | the main name "MacDonald" is kept as written |
| NameCase.ThirdSuffix | tests/formatter.test.php:57 | "iii" is the suffix "III" |
| NameCase.McDonaldSmytheSample | tests/formatter.test.php:55 | the whole name "mcdoNald-SMYTHE" becomes "McDonald-Smythe", with either flag |
| NameCase.VonMacDonaldSample | tests/formatter.test.php:57 | the whole name "von MacDonald iii" becomes "von MacDonald III" with the flag off and "Von MacDonald III" with it on |
| PhpText.Split | lib/Controller/Validator/Abstract.php:88 | `explode`: one more piece than separators, none inside a piece |
| PhpText.JoinSplit | lib/Controller/Validator/Abstract.php:88 | `implode` after `explode` gives the text back |
| PhpText.SplitJoin | lib/Controller/Validator/Abstract.php:75-76 | `explode` after `implode` of separator-free pieces gives the pieces back |
| PhpText.SplitConcat | lib/Controller/Validator/Basic.php:1156 | the pieces of a split, concatenated, are the text without its separators |
| PhpText.CollapseSpace | lib/Controller/Validator/Basic.php:1074-1077 | `preg_replace('/\s\s+/',' ')`: no two consecutive blanks remain, and emptiness and a leading blank are kept |
| PhpText.CollapseSpaceFixedPoint | lib/Controller/Validator/Basic.php:1074-1077 | a text without double blanks is unchanged |
| PhpText.CollapseSpaceSplit | lib/Controller/Validator/Basic.php:1074-1077 | collapsing splits at the start of any non-blank character: `x + t` collapses to the collapse of `x` followed by the collapse of `t` |
| PhpText.CollapseSpaceAround | lib/Controller/Validator/Basic.php:1074-1077 | a non-blank character `c` survives, with `x` and `y` on either side collapsed on their own |
| PhpText.CollapseSpaceRun | lib/Controller/Validator/Basic.php:1074-1077 | a run of blanks: two or more become `" "`, zero or one are kept |
| PhpText.Trim | lib/Controller/Validator/Basic.php:549-552 | no trimmable character at either end of the result, which is no longer than the input |
| PhpText.TrimSlice | lib/Controller/Validator/Basic.php:549-552 | the result is a slice of the input with only trimmable characters before and after it |
| PhpText.TrimUnique | lib/Controller/Validator/Basic.php:549-552 | any slice with only trimmable characters outside it and none at its ends is the trimmed text, so `Trim`'s contract and `TrimSlice` determine it |
| PhpText.TrimLeft | lib/Controller/Validator/Basic.php:554-557 | the result is a suffix of the input, everything removed is trimmable, and it does not start with a trimmable character |
| PhpText.TrimRight | lib/Controller/Validator/Basic.php:559-562 | the result is a prefix of the input, everything removed is trimmable, and it does not end with a trimmable character |
| PhpText.Lower | lib/Controller/Validator/Basic.php:921 | `strtolower` maps each character |
| PhpText.UcFirst | lib/Controller/Validator/Basic.php:989 | `ucfirst` upper-cases the first character only |
| Php.Compare | lib/Controller/Validator/Basic.php:115 | PHP 7's `<=>` is −1, 0 or 1 |
| Php.LooseEquals | lib/Controller/Validator/Basic.php:127 | PHP 7's `==` as a definition: `<=>` gives 0; `LooseEqualsReflexive` and `EqNeComplementary` are stated with it |
| Php.IsNumericText | lib/Controller/Validator/Basic.php:112 | `is_numeric` on a string as a definition, for integers: optional leading blanks, an optional sign and at least one digit, nothing after; `IntToStringRoundTrip` and `LetterLedNotNumeric` are stated with it |
| Php.LeadingInt | lib/Controller/Validator.php:76 | `(int)` on a string as a definition: leading blanks skipped, then an optional sign and the longest run of digits, 0 when there is none; `IntToStringRoundTrip` is stated with it |
| Php.ToInt | lib/Controller/Validator.php:76 | `(int)` on any scalar as a definition: a string by `LeadingInt`, true as 1, false and null as 0 |
| Php.CompareAntisymmetric | lib/Controller/Validator/Basic.php:115 | swapping the operands negates the comparison |
| Php.LooseEqualsReflexive | lib/Controller/Validator/Basic.php:127 | every value is loosely equal to itself |
| Php.CompareIntWithText | lib/Controller/Validator/Basic.php:115 | the decimal text of an integer compares, with an integer or another such text, as the integer does |
| Php.IntToStringRoundTrip | lib/Controller/Validator.php:76 | `(int)(string)$i == $i`, and the text is numeric |
| Php.DecimalRoundTrip | lib/Controller/Validator.php:76 | the digits of n denote n |
| ConfigParse.Parse | lib/Controller/Validator.php:53-106 | the loop over the configuration returns exactly `ParseConfig`: the first field whose rules throw, with their message, or nothing |
| ConfigParse.ParseConfig | lib/Controller/Validator.php:53-106 | `parse` as a definition: each configured field in order runs its rules from the owner's value, and the first that throws gives the result; `ParseVerdict` characterises it |
| ConfigParse.ParseField | lib/Controller/Validator.php:60-102 | the loop over one field's rules, from the owner's value, gives `RunRules` |
| ConfigParse.RunRules | lib/Controller/Validator.php:63-101 | one field's rules as a definition: each `RuleStep` on the working value carried over from the previous rule, against the field's original value, up to the first throw; `ThrowsIffMarkedRuleChanges` characterises it |
| ConfigParse.Apply | lib/Controller/Validator.php:64-101 | one pass of the inner loop gives `RuleStep` |
| ConfigParse.Switch | lib/Controller/Validator.php:73-96 | the `switch` gives `Normalise`'s value and message |
| ConfigParse.RuleSpecs | lib/Controller/Validator.php:56-58 | a string is cut at its commas (joining the pieces gives it back); a list is taken as it is |
| ConfigParse.ParseSpec | lib/Controller/Validator.php:64-70 | name and arguments hold no ':', there are as many arguments as colons, and `name[!]:args` rebuilds the rule |
| ConfigParse.SpecRoundTrip | lib/Controller/Validator.php:64-70 | writing a rule and reading it back gives the same name, arguments and mark |
| ConfigParse.Bound | lib/Controller/Validator.php:80-89 | as written every bound is null; as intended it is the argument, or null past the end |
| ConfigParse.Normalise | lib/Controller/Validator.php:73-96 | a message is set iff the name has a case; names without a case keep the value; `int` casts |
| ConfigParse.NormaliseWithinBounds | lib/Controller/Validator.php:78-90 | `max` leaves the value or the bound and nothing above the bound; `min` the same from below; `between` nothing above its second bound |
| ConfigParse.RuleStep | lib/Controller/Validator.php:97-101 | a rule throws iff it is marked and the new working value is not identical to the owner's, with the case's message or "Validaiton error" |
| ConfigParse.ThrowsIffMarkedRuleChanges | lib/Controller/Validator.php:63-102 | a field's rules throw iff some marked rule leaves the cumulative working value not identical to the owner's (the value is not reset between rules) |
| ConfigParse.UnmarkedNeverThrows | lib/Controller/Validator.php:67-70 | rules without `!` never throw |
| ConfigParse.IntRulesKeepIntegers | lib/Controller/Validator.php:74-77 | `int` rules leave an integer as it is and never throw on it |
| ConfigParse.IntMarkedOnText | lib/Controller/Validator.php:74-77 | `int!` on a numeric string throws "Should be integer": the integer is not identical to the string |
| ConfigParse.ValueCarriesOver | lib/Controller/Validator.php:63-101 | after an unmarked `int` has cast a numeric string, a marked rule without a case throws the default message |
| ConfigParse.ParseVerdict | lib/Controller/Validator.php:55-105 | `parse` returns iff every field's rules run clean on that field's own owner value; otherwise it throws for the first such field with its message |
| ConfigParse.MinAsWrittenKeepsValue | lib/Controller/Validator.php:82-85 | as written `min` never changes the value |
| ConfigParse.MaxAsWrittenNullsValue | lib/Controller/Validator.php:78-81 | as written `max` turns every truthy value, and every non-empty string, into null |
| ConfigParse.MaxMarkedAsWritten | lib/Controller/Validator.php:78-81 | `max!:10` on 5: as written the value becomes null and the rule throws; read from `$args` nothing changes |
| ConfigParse.IntendedMaxClamps | lib/Controller/Validator.php:78-81 | with the bound read from the arguments, `max` clamps an integer down to it and keeps it when within |
| ConfigParse.IntendedMinClamps | lib/Controller/Validator.php:82-85 | likewise `min` raises an integer to the bound |
| ConfigParse.IntendedBetweenClamps | lib/Controller/Validator.php:86-90 | likewise `between` clamps an integer into [lo, hi] and keeps it when inside |

## Left out

- Callable tokens (`is_callable($rule)`, Abstract.php:153-154): closures cannot be compared or stored as values here.
- The debug `echo` lines, the `consumed` log, and the extra information attached to the rethrown exception. Only the message and the rule are kept.
- The `to_` write-back (`$this->cast`, `set`): the two-character test never succeeds, so `set` is never called. The model has no `set`.
- `on()` and hooks (`addHook`), `now()` as a separate entry point (it is `applyRulesets`), `processRuleset` and `singleRule` (empty), and `fail`'s exception object. A failure is a `Fail(message)` reply.
- `configure`/`init` of lib/Controller/Validator.php (the hook plumbing) and its empty `parseRule`. The `aliases` property there is never read.
- Floats and exponents in numeric strings. `is_numeric` and `(int)` are modelled on integer literals only.
- `Php.LeadingInt`, `Php.ToInt` and `Php.Compare` use unbounded integers. PHP's integers are 64-bit:
  - `(int)"99999999999999999999"` saturates at `PHP_INT_MAX`; this reaches `int` in lib/Controller/Validator.php:76;
  - integer strings outside the 64-bit range are compared as floats by `eq`, `between` and `in`.
- Basic.php rules outside the model:
  - `unique`, `regex`, `number`, `decimal`, the `*_unicode` rules, `bool`/`true`/`false`;
  - `iso_datetime`/`before`/`after`, `email`, the card dates;
  - `to_int`/`to_number`/`to_float`, `to_lower`/`to_upper`/`to_upper_words`, `to_truncate*`, `to_iso_date`;
  - `to_strip_tags`, `to_quote_meta`, `to_add_slashes`/`to_strip_slashes`, `to_zip`, `to_digits_and_single_spaces`.

  They are dispatched, and the chain ends as `Unknown(name)`. `rule_decimal` is declared twice (Basic.php:185 and 196), which PHP refuses at load time; the model assumes the class loads.
- `pullRule`, `pushRule`, `mb_str_len` and the parent `resolveRuleAlias` are not part of this model. They are modelled as follows:
  - `pullRule` as `getRule`;
  - `pushRule` as putting the bounds in front of the queue;
  - `mb_str_len` as the character count of the value's text;
  - the parent resolver as the identity.
- `AdvancedRules.ResolveRange`: `resolveRuleAlias` is not called from `applyRules`. The range shorthand is proved on its own, and range tokens are not rewritten inside `Engine.RunChain`.
- lib/Controller/AbstractValidator.php is not part of this model.
- Nested arrays inside `is([...])` entries beyond one level, and non-string field definitions other than via `(string)`.
- The data source and the owner are maps from field name to value. A missing field reads as null.
- `NameCase.ToName`: `ucfirst`/`ucwords`/`strtolower` act on ASCII letters only, with no locale.
- `Engine.Validator.ApplyRules`: the exception is a returned `End` value, not a PHP exception.

## Findings

| source | as written | input that shows it | evidently intended | confidence | as-written member | corrected member |
|---|---|---|---|---|---|---|
| lib/Controller/Validator/Abstract.php:168 with lib/Controller/Validator/Basic.php:975 | `rule_to_name($this->acc, $field)` passes the field name as `$is_capitalise_prefix`; a string is never `!== false`-equal to false, so prefixes are always capitalised | the chain `to_name` on field `name` holding "von MacDonald iii" gives "Von MacDonald III" | the flag keeps its default `false` ("von MacDonald III", as tests/formatter.test.php:57 expects) | not executed | Engine.ToNameAsWritten | Engine.ToNameCorrected |
| lib/Controller/Validator.php:80-89 | `max`, `min` and `between` compare with `$arg[0]`/`$arg[1]`; `$arg` is never assigned, so every bound is null | `parse` with rule `max!:10` on an owner value 5 throws "Must be no bigger than %s" | the bounds come from `$args` (the pieces after the rule name) | not executed | ConfigParse.MaxMarkedAsWritten | ConfigParse.IntendedMaxClamps |

The class `Engine.Validator` takes the flag `to_name` receives as its
constant `prefixFlag`. `true` is the code as written, and `false` is the
intended default. `NameCase.VonMacDonaldSample` gives both outcomes for the
sample name.
`ConfigParse` carries both readings of `parse` through the `Reading`
parameter. `AsWritten` is the code, and `Intended` is the corrected bound.
`ConfigParse.IntendedMinClamps` and `ConfigParse.IntendedBetweenClamps` state
the corrected `min` and `between`.
