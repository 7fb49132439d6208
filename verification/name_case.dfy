/**
 * `rule_to_name` of lib/Controller/Validator/Basic.php: a best-effort tidy-up
 * of a personal name. The text is trimmed and its whitespace runs collapsed,
 * then split at spaces into forenames, a main name and an optional suffix
 * (the last word, when it is a known suffix); every word is re-cased by its
 * own rules and the words are joined again with single spaces.
 *
 * `NameSpec` says what the rule returns; `ToName` is the rule's loops.
 */
module NameCase {
  import opened Php
  import opened PhpText
  import BasicRules

  /** The two spellings of a special-case prefix. */
  datatype PrefixCase = PrefixCase(upper: string, lower: string)

  /**
   * Prefixes that are not capitalised by default, as (lower-case form,
   * spellings) in the order of the source's table; `PrefixOf` looks one up.
   */
  const PrefixTable: seq<(string, PrefixCase)> := [
    ("ap", PrefixCase("Ap", "ap")), ("da", PrefixCase("Da", "da")), ("de", PrefixCase("De", "de")),
    ("del", PrefixCase("Del", "del")), ("der", PrefixCase("Der", "der")), ("du", PrefixCase("Du", "du")),
    ("la", PrefixCase("La", "la")), ("le", PrefixCase("Le", "le")), ("lo", PrefixCase("Lo", "lo")),
    ("van", PrefixCase("Van", "van")), ("von", PrefixCase("Von", "von"))]

  /** `array_key_exists` and the lookup on the prefix table. */
  function PrefixOf(key: string): (r: Option<PrefixCase>)
    ensures r.Some? ==> exists i :: 0 <= i < |PrefixTable| && PrefixTable[i] == (key, r.value)
  {
    FindIn(PrefixTable, key)
  }

  /**
   * Suffixes, as (lower-case form, spelling) in the order of the source's
   * table; `SuffixOf` looks a word up by its lower-case form.
   */
  const SuffixTable: seq<(string, string)> := RomanSuffixes + TitleSuffixes + OrdinalSuffixes + DottedOrdinalSuffixes

  const RomanSuffixes: seq<(string, string)> := [
    ("i", "I"), ("ii", "II"), ("iii", "III"), ("iv", "IV"), ("v", "V"), ("vi", "VI"),
    ("vii", "VII"), ("viii", "VIII"), ("ix", "IX"), ("x", "X")]

  const TitleSuffixes: seq<(string, string)> := [
    ("jr.", "Jr."), ("jr", "Jr"), ("jnr.", "Jnr."), ("jnr", "Jnr"), ("sr.", "Sr."), ("sr", "Sr"),
    ("snr.", "Snr."), ("snr", "Snr")]

  const OrdinalSuffixes: seq<(string, string)> := [
    ("1st", "1st"), ("2nd", "2nd"), ("3rd", "3rd"), ("4th", "4th"), ("5th", "5th"), ("6th", "6th"),
    ("7th", "7th"), ("8th", "8th"), ("9th", "9th"), ("10th", "10th")]

  const DottedOrdinalSuffixes: seq<(string, string)> := [
    ("1st.", "1st."), ("2nd.", "2nd."), ("3rd.", "3rd."), ("4th.", "4th."), ("5th.", "5th."),
    ("6th.", "6th."), ("7th.", "7th."), ("8th.", "8th."), ("9th.", "9th."), ("10th.", "10th.")]

  /** `array_key_exists` and the lookup on the suffix table. */
  function SuffixOf(key: string): (r: Option<string>)
    ensures r.Some? ==> exists i :: 0 <= i < |SuffixTable| && SuffixTable[i] == (key, r.value)
    ensures r.None? ==> forall i :: 0 <= i < |SuffixTable| ==> SuffixTable[i].0 != key
  {
    FindIn(SuffixTable, key)
  }

  /** The value stored under `key` in a table of (key, value) rows, or None. */
  function FindIn<V>(table: seq<(string, V)>, key: string): (r: Option<V>)
    ensures r.Some? ==> exists i :: 0 <= i < |table| && table[i] == (key, r.value)
    ensures r.None? ==> forall i :: 0 <= i < |table| ==> table[i].0 != key
  {
    if table == [] then None
    else if table[0].0 == key then Some(table[0].1)
    else
      var r := FindIn(table[1..], key);
      assert r.Some? ==> exists i :: 0 <= i < |table| && table[i] == (key, r.value) by {
        if r.Some? {
          var i :| 0 <= i < |table| - 1 && table[1..][i] == (key, r.value);
          assert table[i + 1] == (key, r.value);
        }
      }
      r
  }

  /** The name after `trim` and `strip_excess_whitespace`. */
  function Cleaned(name: Value): string
  {
    CollapseSpace(Trim(ToText(name)))
  }

  /** The words of a name, as `explode(' ', ...)` gives them. */
  function Words(name: Value): (r: seq<string>)
    ensures |r| >= 1
  {
    Split(Cleaned(name), {' '})
  }

  /** How the words split into forenames (salutations and initials too), the main name and a suffix. */
  datatype NameParts = NameParts(forenames: seq<string>, main: string, suffix: Option<string>)

  /**
   * One word is the main name. Otherwise the last word is the suffix when its
   * lower-case form is a known suffix, and then the word before it is the
   * main name; everything before the main name is forenames.
   */
  function SplitName(words: seq<string>): (r: NameParts)
    requires |words| >= 1
    ensures r.forenames + [r.main] + (if r.suffix.Some? then [words[|words| - 1]] else []) == words
    ensures r.suffix.Some? <==> |words| >= 2 && SuffixOf(Lower(words[|words| - 1])).Some?
    ensures r.suffix.Some? ==> r.suffix == SuffixOf(Lower(words[|words| - 1]))
  {
    var n := |words|;
    if n == 1 then NameParts([], words[0], None)
    else if SuffixOf(Lower(words[n - 1])).Some? then
      assert words[..n - 2] + [words[n - 2]] + [words[n - 1]] == words;
      NameParts(words[..n - 2], words[n - 2], SuffixOf(Lower(words[n - 1])))
    else
      assert words[..n - 1] + [words[n - 1]] == words;
      NameParts(words[..n - 1], words[n - 1], None)
  }

  /** One hyphen-separated piece of a forename, already in lower case. */
  function ForenamePiece(piece: string, capitalisePrefix: bool): string
  {
    var prefix := PrefixOf(piece);
    if prefix.Some? then
      (if capitalisePrefix then prefix.value.upper else prefix.value.lower)
    else UcFirst(piece)
  }

  /** The pieces of a forename, lower-cased and cut at every '-'. */
  function ForenamePieces(fname: string): seq<string>
  {
    Split(Lower(fname), {'-'})
  }

  /** A forename re-cased piece by piece and joined again with '-'. */
  function FormatForename(fname: string, capitalisePrefix: bool): string
  {
    var pieces := ForenamePieces(fname);
    Join(seq(|pieces|, k requires 0 <= k < |pieces| => ForenamePiece(pieces[k], capitalisePrefix)), '-')
  }

  /** `^Mac[A-Z][a-z]*` on a whole string. */
  predicate MacShape(s: string)
  {
    |s| >= 4 && s[..3] == "Mac" && IsUpper(s[3]) && forall k :: 4 <= k < |s| ==> IsLower(s[k])
  }

  /**
   * One hyphen-separated piece of the main name: `piece` is lower case and
   * `original` is the same piece as the user typed it. "mc" capitalises the
   * next letter, "mac" keeps a user's `MacX...` spelling and otherwise
   * capitalises only the M, "o'" capitalises the word after it.
   */
  function MainPiece(piece: string, original: string): string
  {
    if Prefix(piece, 2) == "mc" then "Mc" + UcFirst(After(piece, 2))
    else if Prefix(piece, 3) == "mac" then
      (if BasicRules.AnchoredMatch(original, MacShape) then original else UcFirst(piece))
    else if Prefix(piece, 2) == "o'" then "O'" + UcWords(After(piece, 2))
    else UcFirst(piece)
  }

  /** The lower-cased and the original pieces of a main name, side by side. */
  function MainPieces(main: string): (r: (seq<string>, seq<string>))
    ensures |r.0| == |r.1|
    ensures forall k :: 0 <= k < |r.0| ==> r.0[k] == Lower(r.1[k])
  {
    SplitLower(main, '-');
    (Split(Lower(main), {'-'}), Split(main, {'-'}))
  }

  /** The main name re-cased piece by piece and joined again with '-'. */
  function FormatMain(main: string): string
  {
    var (pieces, originals) := MainPieces(main);
    Join(seq(|pieces|, k requires 0 <= k < |pieces| => MainPiece(pieces[k], originals[k])), '-')
  }

  /** The words of the result: the formatted forenames, the formatted main name and the suffix's spelling. */
  function FormattedWords(parts: NameParts, capitalisePrefix: bool): seq<string>
  {
    var fs := parts.forenames;
    seq(|fs|, k requires 0 <= k < |fs| => FormatForename(fs[k], capitalisePrefix))
      + [FormatMain(parts.main)]
      + (if parts.suffix.Some? then [parts.suffix.value] else [])
  }

  /** What `rule_to_name` returns: "" for an empty value ("", "0", 0, false, null), the re-cased name otherwise. */
  function NameSpec(name: Value, capitalisePrefix: bool): string
  {
    if !ToBool(name) then ""
    else Join(FormattedWords(SplitName(Words(name)), capitalisePrefix), ' ')
  }

  /** The body of the loop over a forename's pieces: a prefix takes the spelling the flag picks, anything else `ucfirst`. */
  method CaseForenamePiece(part: string, capitalisePrefix: bool) returns (cased: string)
    ensures cased == ForenamePiece(part, capitalisePrefix)
  {
    var prefix := PrefixOf(part);
    if prefix.Some? {
      if capitalisePrefix {
        cased := prefix.value.upper;
      } else {
        cased := prefix.value.lower;
      }
    } else {
      cased := UcFirst(part);
    }
  }

  /** The loop over the hyphen-separated pieces of one forename. */
  method CaseForename(fname: string, capitalisePrefix: bool) returns (r: string)
    ensures r == FormatForename(fname, capitalisePrefix)
  {
    var pieces := Split(Lower(fname), {'-'});
    var parts: seq<string> := [];
    var j := 0;
    while j < |pieces|
      invariant 0 <= j <= |pieces|
      invariant |parts| == j
      invariant forall k :: 0 <= k < j ==> parts[k] == ForenamePiece(pieces[k], capitalisePrefix)
    {
      var cased := CaseForenamePiece(pieces[j], capitalisePrefix);
      parts := parts + [cased];
      j := j + 1;
    }
    assert parts == seq(|pieces|, k requires 0 <= k < |pieces| => ForenamePiece(pieces[k], capitalisePrefix));
    r := Join(parts, '-');
  }

  /** The body of the loop over the main name's pieces: the "mc", "mac" and "o'" rules, or `ucfirst`. */
  method CaseMainPiece(part: string, partOriginal: string) returns (cased: string)
    ensures cased == MainPiece(part, partOriginal)
  {
    if Prefix(part, 2) == "mc" {
      cased := "Mc" + UcFirst(After(part, 2));
    } else if Prefix(part, 3) == "mac" {
      if BasicRules.AnchoredMatch(partOriginal, MacShape) {
        cased := partOriginal;
      } else {
        cased := UcFirst(part);
      }
    } else if Prefix(part, 2) == "o'" {
      cased := "O'" + UcWords(After(part, 2));
    } else {
      cased := UcFirst(part);
    }
  }

  /** The loop over the hyphen-separated pieces of the main name. */
  method CaseMain(main: string) returns (r: string)
    ensures r == FormatMain(main)
  {
    var (pieces, originals) := MainPieces(main);
    ghost var cased := seq(|pieces|, k requires 0 <= k < |pieces| => MainPiece(pieces[k], originals[k]));
    var parts: seq<string> := [];
    var j := 0;
    while j < |pieces|
      invariant 0 <= j <= |pieces|
      invariant parts == cased[..j]
    {
      var piece := CaseMainPiece(pieces[j], originals[j]);
      parts := parts + [piece];
      j := j + 1;
    }
    assert cased[..j] == cased;
    r := Join(parts, '-');
  }

  /** The loop over the forenames. */
  method CaseForenames(fnames: seq<string>, capitalisePrefix: bool) returns (newName: seq<string>)
    ensures |newName| == |fnames|
    ensures forall k :: 0 <= k < |fnames| ==> newName[k] == FormatForename(fnames[k], capitalisePrefix)
  {
    newName := [];
    var i := 0;
    while i < |fnames|
      invariant 0 <= i <= |fnames|
      invariant |newName| == i
      invariant forall k :: 0 <= k < i ==> newName[k] == FormatForename(fnames[k], capitalisePrefix)
    {
      var cased := CaseForename(fnames[i], capitalisePrefix);
      newName := newName + [cased];
      i := i + 1;
    }
  }

  /** `rule_to_name`: parse the words, re-case the forenames one by one, then the main name, then add the suffix. */
  method ToName(name: Value, capitalisePrefix: bool) returns (output: string)
    ensures output == NameSpec(name, capitalisePrefix)
  {
    if !ToBool(name) {
      return "";
    }
    var words := Split(CollapseSpace(Trim(ToText(name))), {' '});
    assert words == Words(name);
    var parsed := SplitName(words);
    var fnames := parsed.forenames;
    var forenames := CaseForenames(fnames, capitalisePrefix);
    assert forenames == seq(|fnames|, k requires 0 <= k < |fnames| => FormatForename(fnames[k], capitalisePrefix));
    var main := CaseMain(parsed.main);
    var newName := forenames + [main];
    if parsed.suffix.Some? {
      newName := newName + [parsed.suffix.value];
    }
    assert newName == FormattedWords(parsed, capitalisePrefix);
    output := Join(newName, ' ');
  }

  // ---------------------------------------------------------------------
  // The rule only changes letter case.

  lemma {:induction false} LowerAppend(a: string, b: string)
    ensures Lower(a + b) == Lower(a) + Lower(b)
  {
  }

  lemma LowerChars(c: char)
    ensures LowerChar(LowerChar(c)) == LowerChar(c)
    ensures LowerChar(UpperChar(c)) == LowerChar(c)
  {
  }

  lemma LowerTwice(s: string)
    ensures Lower(Lower(s)) == Lower(s)
  {
    forall k | 0 <= k < |s| ensures Lower(Lower(s))[k] == Lower(s)[k] {
      LowerChars(s[k]);
    }
  }

  lemma LowerUcFirst(s: string)
    ensures Lower(UcFirst(s)) == Lower(s)
  {
    if s != [] {
      LowerChars(s[0]);
      assert Lower(UcFirst(s))[0] == Lower(s)[0];
    }
  }

  lemma {:induction false} LowerUcWordsFrom(s: string, atWordStart: bool)
    ensures Lower(UcWordsFrom(s, atWordStart)) == Lower(s)
  {
    if s != [] {
      LowerUcWordsFrom(s[1..], IsSpace(s[0]));
      LowerChars(s[0]);
      var head := [if atWordStart then UpperChar(s[0]) else s[0]];
      LowerAppend(head, UcWordsFrom(s[1..], IsSpace(s[0])));
      LowerAppend([s[0]], s[1..]);
      assert [s[0]] + s[1..] == s;
    }
  }

  /** Cutting at a separator that has no case commutes with lower-casing. */
  lemma {:induction false} SplitLower(s: string, sep: char)
    requires !IsLetter(sep)
    ensures |Split(Lower(s), {sep})| == |Split(s, {sep})|
    ensures forall k :: 0 <= k < |Split(s, {sep})| ==> Split(Lower(s), {sep})[k] == Lower(Split(s, {sep})[k])
  {
    if s != [] {
      var ls := Lower(s);
      assert ls[1..] == Lower(s[1..]);
      SplitLower(s[1..], sep);
      var rest, lowRest := Split(s[1..], {sep}), Split(ls[1..], {sep});
      if s[0] == sep {
        assert ls[0] == sep;
        assert Split(s, {sep}) == [""] + rest;
        assert Split(ls, {sep}) == [""] + lowRest;
      } else {
        assert ls[0] != sep;
        assert Split(s, {sep}) == [[s[0]] + rest[0]] + rest[1..];
        assert Split(ls, {sep}) == [[ls[0]] + lowRest[0]] + lowRest[1..];
        LowerAppend([s[0]], rest[0]);
      }
    }
  }

  /** Joining pieces that agree up to case gives texts that agree up to case. */
  lemma {:induction false} JoinLower(outs: seq<string>, ins: seq<string>, sep: char)
    requires |outs| == |ins|
    requires !IsUpper(sep)
    requires forall k :: 0 <= k < |ins| ==> Lower(outs[k]) == Lower(ins[k])
    ensures Lower(Join(outs, sep)) == Lower(Join(ins, sep))
  {
    if |ins| >= 2 {
      JoinLower(outs[1..], ins[1..], sep);
      LowerAppend(outs[0] + [sep], Join(outs[1..], sep));
      LowerAppend(ins[0] + [sep], Join(ins[1..], sep));
      LowerAppend(outs[0], [sep]);
      LowerAppend(ins[0], [sep]);
    }
  }

  lemma ForenamePieceCase(piece: string, capitalisePrefix: bool)
    requires Lower(piece) == piece
    ensures Lower(ForenamePiece(piece, capitalisePrefix)) == piece
  {
    if PrefixOf(piece).Some? {
      PrefixSpellings();
    } else {
      LowerUcFirst(piece);
    }
  }

  lemma FormatForenameCase(fname: string, capitalisePrefix: bool)
    ensures Lower(FormatForename(fname, capitalisePrefix)) == Lower(fname)
  {
    var originals := Split(fname, {'-'});
    var pieces := ForenamePieces(fname);
    SplitLower(fname, '-');
    var outs := seq(|pieces|, k requires 0 <= k < |pieces| => ForenamePiece(pieces[k], capitalisePrefix));
    forall k | 0 <= k < |pieces| ensures Lower(outs[k]) == Lower(originals[k]) {
      LowerTwice(originals[k]);
      ForenamePieceCase(pieces[k], capitalisePrefix);
    }
    JoinLower(outs, originals, '-');
    JoinSplit(fname, '-');
  }

  lemma {:induction false} PrefixThenAfter(s: string, n: nat)
    requires n <= |s|
    ensures Prefix(s, n) + After(s, n) == s
  {
    assert s[..n] + s[n..] == s;
  }

  lemma MainPieceCase(piece: string, original: string)
    requires piece == Lower(original)
    ensures Lower(MainPiece(piece, original)) == piece
  {
    LowerTwice(original);
    if Prefix(piece, 2) == "mc" {
      var rest := After(piece, 2);
      PrefixThenAfter(piece, 2);
      LowerUcFirst(rest);
      LowerAppend("Mc", UcFirst(rest));
      LowerAppend("mc", rest);
      assert Lower("Mc") == "mc";
      assert Lower(rest) == rest by {
        LowerAppend(Prefix(piece, 2), rest);
      }
    } else if Prefix(piece, 3) == "mac" {
      LowerUcFirst(piece);
    } else if Prefix(piece, 2) == "o'" {
      var rest := After(piece, 2);
      PrefixThenAfter(piece, 2);
      LowerUcWordsFrom(rest, true);
      LowerAppend("O'", UcWords(rest));
      assert Lower("O'") == "o'";
      assert Lower(rest) == rest by {
        LowerAppend(Prefix(piece, 2), rest);
      }
    } else {
      LowerUcFirst(piece);
    }
  }

  lemma FormatMainCase(main: string)
    ensures Lower(FormatMain(main)) == Lower(main)
  {
    var (pieces, originals) := MainPieces(main);
    var outs := seq(|pieces|, k requires 0 <= k < |pieces| => MainPiece(pieces[k], originals[k]));
    forall k | 0 <= k < |pieces| ensures Lower(outs[k]) == Lower(originals[k]) {
      MainPieceCase(pieces[k], originals[k]);
    }
    JoinLower(outs, originals, '-');
    JoinSplit(main, '-');
  }

  lemma SuffixCase(word: string)
    requires SuffixOf(Lower(word)).Some?
    ensures Lower(SuffixOf(Lower(word)).value) == Lower(word)
  {
    SuffixSpellings();
  }

  /** Both spellings of every prefix agree with its lower-case form up to case. */
  lemma PrefixSpellings()
    ensures forall i :: 0 <= i < |PrefixTable| ==>
      Lower(PrefixTable[i].1.upper) == PrefixTable[i].0 && PrefixTable[i].1.lower == PrefixTable[i].0
  {
    forall i | 0 <= i < |PrefixTable|
      ensures Lower(PrefixTable[i].1.upper) == PrefixTable[i].0 && PrefixTable[i].1.lower == PrefixTable[i].0
    {
      if i < 6 {
        PrefixSpellingsLow(i);
      } else {
        PrefixSpellingsHigh(i);
      }
    }
  }

  lemma PrefixSpellingsLow(i: int)
    requires 0 <= i < 6
    ensures Lower(PrefixTable[i].1.upper) == PrefixTable[i].0 && PrefixTable[i].1.lower == PrefixTable[i].0
  {
    LowerByChars("Ap", "ap");
    LowerByChars("Da", "da");
    LowerByChars("De", "de");
    LowerByChars("Del", "del");
    LowerByChars("Der", "der");
    LowerByChars("Du", "du");
  }

  lemma PrefixSpellingsHigh(i: int)
    requires 6 <= i < 11
    ensures Lower(PrefixTable[i].1.upper) == PrefixTable[i].0 && PrefixTable[i].1.lower == PrefixTable[i].0
  {
    LowerByChars("La", "la");
    LowerByChars("Le", "le");
    LowerByChars("Lo", "lo");
    LowerByChars("Van", "van");
    LowerByChars("Von", "von");
  }

  /** Every suffix is spelt as its lower-case form with some letters in upper case. */
  lemma SuffixSpellings()
    ensures forall i :: 0 <= i < |SuffixTable| ==> Lower(SuffixTable[i].1) == SuffixTable[i].0
  {
    RomanSpellings();
    TitleSpellings();
    OrdinalSpellings();
    DottedOrdinalSpellings();
    var t := SuffixTable;
    forall i | 0 <= i < |t| ensures Lower(t[i].1) == t[i].0 {
      var n0, n1, n2 := |RomanSuffixes|, |TitleSuffixes|, |OrdinalSuffixes|;
      if i < n0 {
        assert t[i] == RomanSuffixes[i];
      } else if i < n0 + n1 {
        assert t[i] == TitleSuffixes[i - n0];
      } else if i < n0 + n1 + n2 {
        assert t[i] == OrdinalSuffixes[i - n0 - n1];
      } else {
        assert t[i] == DottedOrdinalSuffixes[i - n0 - n1 - n2];
      }
    }
  }

  predicate SpelledAsKeys(table: seq<(string, string)>)
  {
    forall i :: 0 <= i < |table| ==> Lower(table[i].1) == table[i].0
  }

  lemma RomanSpellings()
    ensures SpelledAsKeys(RomanSuffixes)
  {
    LowerByChars("I", "i");
    LowerByChars("II", "ii");
    LowerByChars("III", "iii");
    LowerByChars("IV", "iv");
    LowerByChars("V", "v");
    LowerByChars("VI", "vi");
    LowerByChars("VII", "vii");
    LowerByChars("VIII", "viii");
    LowerByChars("IX", "ix");
    LowerByChars("X", "x");
  }

  lemma TitleSpellings()
    ensures SpelledAsKeys(TitleSuffixes)
  {
    LowerByChars("Jr.", "jr.");
    LowerByChars("Jr", "jr");
    LowerByChars("Jnr.", "jnr.");
    LowerByChars("Jnr", "jnr");
    LowerByChars("Sr.", "sr.");
    LowerByChars("Sr", "sr");
    LowerByChars("Snr.", "snr.");
    LowerByChars("Snr", "snr");
  }

  lemma OrdinalSpellings()
    ensures SpelledAsKeys(OrdinalSuffixes)
  {
    forall i | 0 <= i < |OrdinalSuffixes| ensures Lower(OrdinalSuffixes[i].1) == OrdinalSuffixes[i].0 {
      if i < 5 {
        OrdinalSpellingsLow(i);
      } else {
        OrdinalSpellingsHigh(i);
      }
    }
  }

  lemma OrdinalSpellingsLow(i: int)
    requires 0 <= i < 5
    ensures Lower(OrdinalSuffixes[i].1) == OrdinalSuffixes[i].0
  {
      LowerNoUpper("1st");
      LowerNoUpper("2nd");
      LowerNoUpper("3rd");
      LowerNoUpper("4th");
      LowerNoUpper("5th");
  }

  lemma OrdinalSpellingsHigh(i: int)
    requires 5 <= i < 10
    ensures Lower(OrdinalSuffixes[i].1) == OrdinalSuffixes[i].0
  {
      LowerNoUpper("6th");
      LowerNoUpper("7th");
      LowerNoUpper("8th");
      LowerNoUpper("9th");
      LowerNoUpper("10th");
  }


  lemma DottedOrdinalSpellings()
    ensures SpelledAsKeys(DottedOrdinalSuffixes)
  {
    forall i | 0 <= i < |DottedOrdinalSuffixes| ensures Lower(DottedOrdinalSuffixes[i].1) == DottedOrdinalSuffixes[i].0 {
      if i < 5 {
        DottedOrdinalSpellingsLow(i);
      } else {
        DottedOrdinalSpellingsHigh(i);
      }
    }
  }

  lemma DottedOrdinalSpellingsLow(i: int)
    requires 0 <= i < 5
    ensures Lower(DottedOrdinalSuffixes[i].1) == DottedOrdinalSuffixes[i].0
  {
      LowerNoUpper("1st.");
      LowerNoUpper("2nd.");
      LowerNoUpper("3rd.");
      LowerNoUpper("4th.");
      LowerNoUpper("5th.");
  }

  lemma DottedOrdinalSpellingsHigh(i: int)
    requires 5 <= i < 10
    ensures Lower(DottedOrdinalSuffixes[i].1) == DottedOrdinalSuffixes[i].0
  {
      LowerNoUpper("6th.");
      LowerNoUpper("7th.");
      LowerNoUpper("8th.");
      LowerNoUpper("9th.");
      LowerNoUpper("10th.");
  }


  /** A string with no upper-case letter is its own lower-case form. */
  lemma LowerNoUpper(s: string)
    requires forall k :: 0 <= k < |s| ==> !IsUpper(s[k])
    ensures Lower(s) == s
  {
  }

  /** Two strings agree up to case when they do character by character. */
  lemma LowerByChars(s: string, t: string)
    requires |s| == |t|
    requires forall k :: 0 <= k < |s| ==> LowerChar(s[k]) == t[k]
    ensures Lower(s) == t
  {
  }

  /**
   * `rule_to_name` changes nothing but letter case: the result, lower-cased,
   * is the cleaned-up input lower-cased. No word, hyphen, apostrophe or
   * character is added, dropped or moved, whatever the prefix flag.
   */
  lemma NameOnlyChangesCase(name: Value, capitalisePrefix: bool)
    requires ToBool(name)
    ensures Lower(NameSpec(name, capitalisePrefix)) == Lower(Cleaned(name))
  {
    var words := Words(name);
    var outs := FormattedWords(SplitName(words), capitalisePrefix);
    FormattedWordsCase(words, capitalisePrefix);
    JoinLower(outs, words, ' ');
    JoinSplit(Cleaned(name), ' ');
  }

  /** Word by word, the formatted words agree with the words they came from up to case. */
  lemma FormattedWordsCase(words: seq<string>, capitalisePrefix: bool)
    requires |words| >= 1
    ensures var outs := FormattedWords(SplitName(words), capitalisePrefix);
      |outs| == |words| && forall k :: 0 <= k < |words| ==> Lower(outs[k]) == Lower(words[k])
  {
    var parts := SplitName(words);
    var outs := FormattedWords(parts, capitalisePrefix);
    var fs := parts.forenames;
    assert |outs| == |words|;
    forall k | 0 <= k < |words| ensures Lower(outs[k]) == Lower(words[k]) {
      if k < |fs| {
        assert words[k] == fs[k];
        FormatForenameCase(fs[k], capitalisePrefix);
      } else if k == |fs| {
        assert words[k] == parts.main;
        FormatMainCase(parts.main);
      } else {
        assert k == |words| - 1 && parts.suffix.Some?;
        SuffixCase(words[k]);
      }
    }
  }

  /** The prefix flag only decides the case of the special prefixes: both settings agree up to case. */
  lemma PrefixFlagOnlyChangesCase(name: Value)
    ensures Lower(NameSpec(name, true)) == Lower(NameSpec(name, false))
  {
    if ToBool(name) {
      NameOnlyChangesCase(name, true);
      NameOnlyChangesCase(name, false);
    }
  }

  // ---------------------------------------------------------------------
  // Samples from the repository's name-formatting tests.

  /** A table lookup finds the first row whose key matches. */
  lemma {:induction false} FindInAt<V>(table: seq<(string, V)>, key: string, i: nat)
    requires i < |table| && table[i].0 == key
    requires forall j :: 0 <= j < i ==> table[j].0 != key
    ensures FindIn(table, key) == Some(table[i].1)
  {
    if i > 0 {
      FindInAt(table[1..], key, i - 1);
    }
  }

  /** A string with no hyphen forms a single piece. */
  lemma SinglePiece(s: string)
    requires forall k :: 0 <= k < |s| ==> s[k] != '-'
    ensures Split(s, {'-'}) == [s]
  {
    SplitNoSeparator(s, '-');
  }

  lemma TrimSame(s: string)
    requires s != [] && s[0] !in TrimChars && s[|s| - 1] !in TrimChars
    ensures Trim(s) == s
  {
  }

  lemma JoinPair(a: string, b: string, sep: char)
    ensures Join([a, b], sep) == a + [sep] + b
  {
    assert [a, b][1..] == [b];
  }

  /**
   * A forename piece that is a known prefix keeps its lower-case form unless
   * the flag is set, and then it starts with a capital.
   */
  lemma ForenamePrefixSpelling(piece: string, capitalisePrefix: bool)
    requires PrefixOf(piece).Some?
    ensures !capitalisePrefix ==> ForenamePiece(piece, capitalisePrefix) == piece
    ensures capitalisePrefix ==> ForenamePiece(piece, capitalisePrefix) != [] && IsUpper(ForenamePiece(piece, capitalisePrefix)[0])
  {
    PrefixSpellings();
    PrefixesCapitalised();
  }

  lemma PrefixesCapitalised()
    ensures forall i :: 0 <= i < |PrefixTable| ==> PrefixTable[i].1.upper != [] && IsUpper(PrefixTable[i].1.upper[0])
  {
  }

  /** "von" as a forename: "von" with the flag off, "Von" with it on. */
  lemma VonSample(capitalisePrefix: bool)
    ensures FormatForename("von", capitalisePrefix) == if capitalisePrefix then "Von" else "von"
  {
    LowerNoUpper("von");
    SinglePiece("von");
    FindInAt(PrefixTable, "von", 10);
  }

  /** "mc" capitalises the letter after it, whatever the typed spelling: "mcdoNald" becomes "McDonald". */
  lemma McSample(original: string)
    ensures MainPiece("mcdonald", original) == "McDonald"
  {
    assert Prefix("mcdonald", 2) == "mc" && After("mcdonald", 2) == "donald";
  }

  /** A typed "MacX..." spelling is kept as it is. */
  lemma MacKeptSample()
    ensures MainPiece("macdonald", "MacDonald") == "MacDonald"
  {
    assert Prefix("macdonald", 2) == "ma" && Prefix("macdonald", 3) == "mac";
    assert MacShape("MacDonald");
  }

  /** Any other "mac" name only gets its first letter capitalised: "macdonald" becomes "Macdonald". */
  lemma MacLoweredSample()
    ensures MainPiece("macdonald", "macdonald") == "Macdonald"
  {
    assert Prefix("macdonald", 2) == "ma" && Prefix("macdonald", 3) == "mac";
    assert !MacShape("macdonald");
    assert !MacShape("macdonal");
  }

  /** "o'" capitalises the word after it: "o'grady" becomes "O'Grady". */
  lemma OApostropheSample()
    ensures MainPiece("o'grady", "o'grady") == "O'Grady"
  {
    assert Prefix("o'grady", 2) == "o'" && Prefix("o'grady", 3) == "o'g" && After("o'grady", 2) == "grady";
    UcWordsOneWord("grady");
    assert UcFirst("grady") == "Grady";
  }

  /** A name already trimmed and without double blanks is split at its spaces as it stands. */
  lemma CleanWords(s: string, words: seq<string>)
    requires s != [] && s[0] !in TrimChars && s[|s| - 1] !in TrimChars && NoDoubleSpace(s)
    requires |words| >= 1 && Join(words, ' ') == s
    requires forall k :: 0 <= k < |words| ==> NoneIn(words[k], {' '})
    ensures Words(Str(s)) == words
  {
    TrimSame(s);
    CollapseSpaceFixedPoint(s);
    SplitJoin(words, ' ');
  }

  lemma JoinTriple(a: string, b: string, c: string, sep: char)
    ensures Join([a, b, c], sep) == a + [sep] + b + [sep] + c
  {
    assert [a, b, c][1..] == [b, c];
    JoinPair(b, c, sep);
  }

  /** A name of one word is its main name, re-cased. */
  lemma OneWordName(s: string, capitalisePrefix: bool)
    requires ToBool(Str(s)) && Words(Str(s)) == [s]
    ensures NameSpec(Str(s), capitalisePrefix) == FormatMain(s)
  {
    var parts := SplitName([s]);
    assert parts == NameParts([], s, None);
    var formatted := FormattedWords(parts, capitalisePrefix);
    assert formatted == [] + [FormatMain(s)] + [];
    assert formatted == [FormatMain(s)];
    assert NameSpec(Str(s), capitalisePrefix) == Join(formatted, ' ');
  }

  /**
   * A name of three words whose last is a known suffix: a forename, the main
   * name and the suffix's own spelling, each formatted on its own.
   */
  lemma SuffixedName(s: string, f: string, m: string, w: string, capitalisePrefix: bool)
    requires ToBool(Str(s)) && Words(Str(s)) == [f, m, w] && SuffixOf(Lower(w)).Some?
    ensures NameSpec(Str(s), capitalisePrefix)
         == FormatForename(f, capitalisePrefix) + " " + FormatMain(m) + " " + SuffixOf(Lower(w)).value
  {
    var parts := SplitName([f, m, w]);
    assert [f, m, w][..1] == [f];
    assert parts == NameParts([f], m, SuffixOf(Lower(w)));
    var ff, fm, suffix := FormatForename(f, capitalisePrefix), FormatMain(m), SuffixOf(Lower(w)).value;
    var fs := [f];
    assert seq(1, k requires 0 <= k < 1 => FormatForename(fs[k], capitalisePrefix)) == [ff];
    var formatted := FormattedWords(parts, capitalisePrefix);
    assert formatted == [ff] + [fm] + [suffix];
    ThreeSingletons(ff, fm, suffix);
    JoinTriple(ff, fm, suffix, ' ');
    assert NameSpec(Str(s), capitalisePrefix) == Join(formatted, ' ');
  }

  /** Three singletons make the three-element sequence; apart from the name facts so that the solver sees it alone. */
  lemma ThreeSingletons<T>(a: T, b: T, c: T)
    ensures [a] + [b] + [c] == [a, b, c]
  {
  }

  /** Lower-casing keeps every '-' and makes no new one. */
  lemma LowerHyphens(s: string)
    requires NoneIn(s, {'-'})
    ensures NoneIn(Lower(s), {'-'})
  {
  }

  /** A main name of two hyphenated pieces: each piece is re-cased on its own, the hyphen stays. */
  lemma TwoPieceMain(x: string, y: string)
    requires NoneIn(x, {'-'}) && NoneIn(y, {'-'})
    ensures FormatMain(x + "-" + y) == MainPiece(Lower(x), x) + "-" + MainPiece(Lower(y), y)
  {
    var main := x + "-" + y;
    JoinPair(x, y, '-');
    SplitJoin([x, y], '-');
    LowerAppend(x + "-", y);
    LowerAppend(x, "-");
    assert Lower("-") == "-";
    LowerHyphens(x);
    LowerHyphens(y);
    JoinPair(Lower(x), Lower(y), '-');
    SplitJoin([Lower(x), Lower(y)], '-');
    var pieces, originals := [Lower(x), Lower(y)], [x, y];
    assert MainPieces(main) == (pieces, originals);
    assert seq(2, k requires 0 <= k < 2 => MainPiece(pieces[k], originals[k]))
        == [MainPiece(Lower(x), x), MainPiece(Lower(y), y)];
    JoinPair(MainPiece(Lower(x), x), MainPiece(Lower(y), y), '-');
  }

  /** A main name with no hyphen is a single piece. */
  lemma OnePieceMain(x: string)
    requires NoneIn(x, {'-'})
    ensures FormatMain(x) == MainPiece(Lower(x), x)
  {
    LowerHyphens(x);
    SplitNoSeparator(x, '-');
    SplitNoSeparator(Lower(x), '-');
    var pieces, originals := [Lower(x)], [x];
    assert seq(1, k requires 0 <= k < 1 => MainPiece(pieces[k], originals[k])) == [MainPiece(Lower(x), x)];
  }

  /** A piece with no special prefix only gets its first letter capitalised: "SMYTHE" becomes "Smythe". */
  lemma SmytheSample(original: string)
    ensures MainPiece("smythe", original) == "Smythe"
  {
    assert Prefix("smythe", 2) == "sm" && Prefix("smythe", 3) == "smy";
  }

  /** "mcdoNald-SMYTHE" is one word. */
  lemma McDonaldSmytheWords(name: string)
    requires name == "mcdoNald-SMYTHE"
    ensures Words(Str(name)) == [name]
  {
    CleanWords(name, [name]);
  }

  /** Its two hyphenated pieces, and their lower-case forms. */
  lemma McDonaldSmythePieces(name: string)
    requires name == "mcdoNald-SMYTHE"
    ensures name == name[..8] + "-" + name[9..]
    ensures NoneIn(name[..8], {'-'}) && NoneIn(name[9..], {'-'})
    ensures Lower(name[..8]) == "mcdonald" && Lower(name[9..]) == "smythe"
  {
    assert name == name[..8] + [name[8]] + name[9..];
    LowerByChars(name[..8], "mcdonald");
    LowerByChars(name[9..], "smythe");
  }

  /** The two re-cased pieces joined by the hyphen; the literal concatenation is kept apart from the name facts. */
  lemma McDonaldSmytheSpelling()
    ensures "McDonald" + "-" + "Smythe" == "McDonald-Smythe"
  {
  }

  /** Both pieces of a hyphenated main name are re-cased: "mcdoNald-SMYTHE" becomes "McDonald-Smythe". */
  lemma McDonaldSmytheSample(name: string, capitalisePrefix: bool)
    requires name == "mcdoNald-SMYTHE"
    ensures NameSpec(Str(name), capitalisePrefix) == "McDonald-Smythe"
  {
    McDonaldSmytheWords(name);
    OneWordName(name, capitalisePrefix);
    McDonaldSmythePieces(name);
    var x, y := name[..8], name[9..];
    TwoPieceMain(x, y);
    McSample(x);
    SmytheSample(y);
    McDonaldSmytheSpelling();
  }

  /** "von MacDonald iii" is three words. */
  lemma VonMacDonaldWords(name: string)
    requires name == "von MacDonald iii"
    ensures Words(Str(name)) == [name[..3], name[4..13], name[14..]]
  {
    var f, m, w := name[..3], name[4..13], name[14..];
    VonMacDonaldPieces(name);
    JoinTriple(f, m, w, ' ');
    CleanWords(name, [f, m, w]);
  }

  /** Its words are the slices between its two spaces, and none holds a space. */
  lemma VonMacDonaldPieces(name: string)
    requires name == "von MacDonald iii"
    ensures name == name[..3] + " " + name[4..13] + " " + name[14..]
    ensures NoneIn(name[..3], {' '}) && NoneIn(name[4..13], {' '}) && NoneIn(name[14..], {' '})
  {
    assert name == name[..3] + [name[3]] + name[4..13] + [name[13]] + name[14..];
  }

  /** The three words as spelled. */
  lemma VonMacDonaldSpelling(name: string)
    requires name == "von MacDonald iii"
    ensures name[..3] == "von" && name[4..13] == "MacDonald" && name[14..] == "iii"
  {
  }

  /** "iii" is the suffix spelled "III". */
  lemma ThirdSuffix(w: string)
    requires w == "iii"
    ensures SuffixOf(Lower(w)) == Some("III")
  {
    LowerNoUpper(w);
    FindInAt(SuffixTable, w, 2);
  }

  /** A main name typed "MacDonald" is kept. */
  lemma MacDonaldMain(m: string)
    requires m == "MacDonald"
    ensures FormatMain(m) == "MacDonald"
  {
    OnePieceMain(m);
    LowerByChars(m, "macdonald");
    MacKeptSample();
  }

  /** The three formatted words joined by spaces; the literal concatenation is kept apart from the name facts. */
  lemma VonMacDonaldResult(von: string)
    ensures von + " " + "MacDonald" + " " + "III" == von + " MacDonald III"
  {
  }

  /**
   * "von MacDonald iii" becomes "von MacDonald III", or "Von MacDonald III"
   * when prefixes are capitalised.
   */
  lemma VonMacDonaldSample(name: string, capitalisePrefix: bool)
    requires name == "von MacDonald iii"
    ensures NameSpec(Str(name), capitalisePrefix)
         == (if capitalisePrefix then "Von" else "von") + " MacDonald III"
  {
    VonMacDonaldWords(name);
    VonMacDonaldSpelling(name);
    var f, m, w := name[..3], name[4..13], name[14..];
    ThirdSuffix(w);
    SuffixedName(name, f, m, w, capitalisePrefix);
    MacDonaldMain(m);
    VonSample(capitalisePrefix);
    VonMacDonaldResult(if capitalisePrefix then "Von" else "von");
  }

  /** On a single word `ucwords` is `ucfirst`. */
  lemma UcWordsOneWord(s: string)
    requires forall k :: 0 <= k < |s| ==> !IsSpace(s[k])
    ensures UcWords(s) == UcFirst(s)
  {
    if s != [] {
      NoWordStart(s[1..]);
    }
  }

  lemma {:induction false} NoWordStart(s: string)
    requires forall k :: 0 <= k < |s| ==> !IsSpace(s[k])
    ensures UcWordsFrom(s, false) == s
  {
    if s != [] {
      NoWordStart(s[1..]);
      assert [s[0]] + s[1..] == s;
    }
  }
}
