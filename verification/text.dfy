/**
 * The PHP string built-ins the rules are written with, on character strings
 * with one character per byte and ASCII letter case (the "C" locale):
 * `explode`/`implode`, `preg_split` on a character class, `trim`,
 * `strtolower`, `ucfirst`, `ucwords`, `substr` with a non-negative start,
 * `preg_replace` of a negated character class by "" and of `\s\s+` by one
 * space.
 */
module PhpText {

  /** How many characters of `s` belong to `seps`. */
  function CountIn(s: string, seps: set<char>): nat
  {
    if s == [] then 0 else (if s[0] in seps then 1 else 0) + CountIn(s[1..], seps)
  }

  predicate NoneIn(s: string, seps: set<char>)
  {
    forall k :: 0 <= k < |s| ==> s[k] !in seps
  }

  /**
   * `explode` on one separator, and `preg_split` on a one-character class:
   * the pieces between separators, including the empty ones.
   */
  function Split(s: string, seps: set<char>): (r: seq<string>)
    ensures |r| == CountIn(s, seps) + 1
    ensures forall k :: 0 <= k < |r| ==> NoneIn(r[k], seps)
  {
    if s == [] then [""]
    else
      var rest := Split(s[1..], seps);
      if s[0] in seps then [""] + rest else [[s[0]] + rest[0]] + rest[1..]
  }

  /** `implode`: the pieces with one separator between neighbours. */
  function Join(parts: seq<string>, sep: char): string
  {
    if parts == [] then ""
    else if |parts| == 1 then parts[0]
    else parts[0] + [sep] + Join(parts[1..], sep)
  }

  lemma {:induction false} JoinSplit(s: string, sep: char)
    ensures Join(Split(s, {sep}), sep) == s
  {
    if s != [] {
      var rest := Split(s[1..], {sep});
      JoinSplit(s[1..], sep);
      if s[0] == sep {
        assert Split(s, {sep}) == [""] + rest;
      } else {
        var r := Split(s, {sep});
        assert r == [[s[0]] + rest[0]] + rest[1..];
        if |rest| == 1 {
          assert Join(r, sep) == [s[0]] + rest[0];
        } else {
          assert r[1..] == rest[1..];
          assert Join(rest, sep) == rest[0] + [sep] + Join(rest[1..], sep);
        }
      }
    }
  }

  lemma {:induction false} SplitJoin(parts: seq<string>, sep: char)
    requires |parts| >= 1
    requires forall k :: 0 <= k < |parts| ==> NoneIn(parts[k], {sep})
    ensures Split(Join(parts, sep), {sep}) == parts
    decreases |parts|, |parts[0]|
  {
    var head := parts[0];
    if |parts| == 1 {
      SplitNoSeparator(head, sep);
    } else if head == [] {
      var tail := parts[1..];
      assert Join(parts, sep) == [sep] + Join(tail, sep);
      SplitJoin(tail, sep);
      assert ([sep] + Join(tail, sep))[1..] == Join(tail, sep);
    } else {
      var shorter := [head[1..]] + parts[1..];
      assert NoneIn(shorter[0], {sep});
      assert forall k :: 1 <= k < |shorter| ==> shorter[k] == parts[k];
      SplitJoin(shorter, sep);
      var joined := Join(parts, sep);
      assert joined == [head[0]] + Join(shorter, sep);
      assert joined[1..] == Join(shorter, sep);
      assert head == [head[0]] + head[1..];
      assert [[head[0]] + head[1..]] + parts[1..] == parts;
    }
  }

  lemma {:induction false} SplitNoSeparator(s: string, sep: char)
    requires NoneIn(s, {sep})
    ensures Split(s, {sep}) == [s]
  {
    if s != [] {
      assert s[0] !in {sep};
      assert NoneIn(s[1..], {sep});
      SplitNoSeparator(s[1..], sep);
      assert [s[0]] + s[1..] == s;
    }
  }

  /** The characters of `s` outside `seps`, in order. */
  function Without(s: string, seps: set<char>): (r: string)
  {
    if s == [] then [] else (if s[0] in seps then [] else [s[0]]) + Without(s[1..], seps)
  }

  function Concat(parts: seq<string>): string
  {
    if parts == [] then "" else parts[0] + Concat(parts[1..])
  }

  /** Splitting loses exactly the separators: the pieces spell the rest of the text. */
  lemma {:induction false} SplitConcat(s: string, seps: set<char>)
    ensures Concat(Split(s, seps)) == Without(s, seps)
  {
    if s != [] {
      var rest := Split(s[1..], seps);
      SplitConcat(s[1..], seps);
      assert Concat(rest) == rest[0] + Concat(rest[1..]);
      if s[0] !in seps {
        var r := Split(s, seps);
        assert r[1..] == rest[1..];
      }
    }
  }

  /** `preg_replace('/[^class]/', '', $s)`: the characters of `s` in the class, in order. */
  function Keep(s: string, p: char -> bool): (r: string)
    ensures |r| <= |s|
    ensures forall k :: 0 <= k < |r| ==> p(r[k])
  {
    if s == [] then [] else (if p(s[0]) then [s[0]] else []) + Keep(s[1..], p)
  }

  /** Filtering works piece by piece, so the kept characters keep their order. */
  lemma {:induction false} KeepAppend(a: string, b: string, p: char -> bool)
    ensures Keep(a + b, p) == Keep(a, p) + Keep(b, p)
  {
    if a != [] {
      var head := if p(a[0]) then [a[0]] else [];
      assert (a + b)[0] == a[0] && (a + b)[1..] == a[1..] + b;
      KeepAppend(a[1..], b, p);
      calc {
        Keep(a + b, p);
        head + Keep(a[1..] + b, p);
        head + (Keep(a[1..], p) + Keep(b, p));
        (head + Keep(a[1..], p)) + Keep(b, p);
      }
    } else {
      assert a + b == b;
    }
  }

  /** Exactly the characters outside the class are removed: each one in the class survives as often as it occurs. */
  lemma {:induction false} KeepCount(s: string, p: char -> bool, c: char)
    ensures multiset(Keep(s, p))[c] == if p(c) then multiset(s)[c] else 0
  {
    if s != [] {
      KeepCount(s[1..], p, c);
      assert s == [s[0]] + s[1..];
    }
  }

  /** A string is left alone exactly when every character is in the class. */
  lemma {:induction false} KeepUnchanged(s: string, p: char -> bool)
    ensures Keep(s, p) == s <==> forall k :: 0 <= k < |s| ==> p(s[k])
  {
    if s != [] {
      KeepUnchanged(s[1..], p);
      if !p(s[0]) {
        assert |Keep(s, p)| < |s|;
      }
    }
  }

  predicate IsUpper(c: char) { 'A' <= c <= 'Z' }
  predicate IsLower(c: char) { 'a' <= c <= 'z' }
  predicate IsLetter(c: char) { IsUpper(c) || IsLower(c) }
  predicate IsDigitChar(c: char) { '0' <= c <= '9' }

  function LowerChar(c: char): (r: char)
    ensures !IsUpper(r)
  {
    if IsUpper(c) then (c as int + 32) as char else c
  }

  function UpperChar(c: char): (r: char)
    ensures !IsLower(r)
  {
    if IsLower(c) then (c as int - 32) as char else c
  }

  /** `strtolower`. */
  function Lower(s: string): (r: string)
    ensures |r| == |s|
    ensures forall k :: 0 <= k < |s| ==> r[k] == LowerChar(s[k])
  {
    if s == [] then [] else [LowerChar(s[0])] + Lower(s[1..])
  }

  /** `ucfirst`. */
  function UcFirst(s: string): (r: string)
    ensures |r| == |s|
    ensures r != [] ==> r[0] == UpperChar(s[0]) && r[1..] == s[1..]
  {
    if s == [] then [] else [UpperChar(s[0])] + s[1..]
  }

  /** PCRE's `\s`, which is also `ucwords`' default set of word delimiters. */
  predicate IsSpace(c: char)
  {
    c == ' ' || c == '\t' || c == '\n' || c == '\r' || c == '\U{0B}' || c == '\U{0C}'
  }

  function UcWordsFrom(s: string, atWordStart: bool): (r: string)
    ensures |r| == |s|
  {
    if s == [] then []
    else [if atWordStart then UpperChar(s[0]) else s[0]] + UcWordsFrom(s[1..], IsSpace(s[0]))
  }

  /** `ucwords`: the first character and every character after a delimiter in upper case. */
  function UcWords(s: string): string { UcWordsFrom(s, true) }

  /** `substr($s, 0, $n)`. */
  function Prefix(s: string, n: nat): (r: string)
    ensures |r| <= n && |r| <= |s| && r == s[..|r|]
  {
    if n <= |s| then s[..n] else s
  }

  /** `substr($s, $n)` (an empty string once `$n` passes the end). */
  function After(s: string, n: nat): (r: string)
    ensures |r| <= |s| && r == s[|s| - |r|..]
  {
    if n <= |s| then s[n..] else ""
  }

  /** The characters `trim` removes by default: " \t\n\r\0\x0B". */
  const TrimChars: set<char> := {' ', '\t', '\n', '\r', '\0', '\U{0B}'}

  /** `r` is the slice of `s` that starts at `i`, and every character of `s` outside it is removable. */
  predicate TrimmedFrom(s: string, r: string, i: int)
  {
    0 <= i && i + |r| <= |s| && r == s[i..i + |r|]
    && (forall k :: 0 <= k < i ==> s[k] in TrimChars)
    && (forall k :: i + |r| <= k < |s| ==> s[k] in TrimChars)
  }

  /** `ltrim`. */
  function TrimLeft(s: string): (r: string)
    ensures TrimmedFrom(s, r, |s| - |r|)
    ensures r == [] || r[0] !in TrimChars
  {
    if s != [] && s[0] in TrimChars then TrimLeft(s[1..]) else s
  }

  /** `rtrim`. */
  function TrimRight(s: string): (r: string)
    ensures TrimmedFrom(s, r, 0)
    ensures r == [] || r[|r| - 1] !in TrimChars
  {
    if s != [] && s[|s| - 1] in TrimChars then TrimRight(s[..|s| - 1]) else s
  }

  /** `trim`: the middle of `s`, between the removable characters at both ends. */
  function Trim(s: string): (r: string)
    ensures r == [] || (r[0] !in TrimChars && r[|r| - 1] !in TrimChars)
    ensures |r| <= |s|
  {
    TrimRight(TrimLeft(s))
  }

  /** What `trim` keeps is a slice of `s` with nothing but removable characters before and after it. */
  lemma TrimSlice(s: string)
    ensures exists i :: TrimmedFrom(s, Trim(s), i)
  {
    var l := TrimLeft(s);
    var r := TrimRight(l);
    assert r == Trim(s);
    var i := |s| - |l|;
    assert l == s[i..];
    assert r == s[i..i + |r|] by {
      assert r == l[..|r|];
    }
    forall k | i + |r| <= k < |s|
      ensures s[k] in TrimChars
    {
      assert s[k] == l[k - i];
    }
    assert TrimmedFrom(s, r, i);
  }

  /**
   * Only one slice has both properties `trim` promises: any slice of `s`
   * with nothing but removable characters outside it and none at its ends
   * is `Trim(s)`.
   */
  lemma TrimUnique(s: string, r: string, i: int)
    requires TrimmedFrom(s, r, i)
    requires r == [] || (r[0] !in TrimChars && r[|r| - 1] !in TrimChars)
    ensures r == Trim(s)
  {
    var t := Trim(s);
    TrimSlice(s);
    var j :| TrimmedFrom(s, t, j);
    assert t != [] ==> s[j] == t[0] && s[j + |t| - 1] == t[|t| - 1];
    assert r != [] ==> s[i] == r[0] && s[i + |r| - 1] == r[|r| - 1];
    if r != [] && t != [] {
      assert i == j;
      assert |r| == |t|;
    }
  }

  function SkipSpace(s: string): (r: string)
    ensures |r| <= |s| && r == s[|s| - |r|..]
    ensures r == [] || !IsSpace(r[0])
    ensures s != [] && IsSpace(s[0]) ==> |r| < |s|
  {
    if s != [] && IsSpace(s[0]) then SkipSpace(s[1..]) else s
  }

  /** No two neighbouring characters are both whitespace. */
  predicate NoDoubleSpace(s: string)
  {
    forall k :: 0 <= k < |s| - 1 ==> !(IsSpace(s[k]) && IsSpace(s[k + 1]))
  }

  /**
   * `preg_replace('/\s\s+/', ' ', $s)`: every run of two or more whitespace
   * characters becomes one space; a lone whitespace character stays as it is.
   */
  function CollapseSpace(s: string): (r: string)
    ensures r == [] <==> s == []
    ensures r != [] ==> (IsSpace(r[0]) <==> IsSpace(s[0]))
    ensures NoDoubleSpace(r)
    decreases |s|
  {
    if |s| >= 2 && IsSpace(s[0]) && IsSpace(s[1]) then
      var rest := CollapseSpace(SkipSpace(s));
      assert NoDoubleSpace(rest);
      " " + rest
    else if s == [] then []
    else
      var rest := CollapseSpace(s[1..]);
      [s[0]] + rest
  }

  /** A string without a run of whitespace is left as it is; in particular collapsing twice is collapsing once. */
  lemma {:induction false} CollapseSpaceFixedPoint(s: string)
    requires NoDoubleSpace(s)
    ensures CollapseSpace(s) == s
  {
    if s != [] {
      CollapseSpaceFixedPoint(s[1..]);
    }
  }
  /** Leading whitespace is skipped up to the first character that is not whitespace. */
  lemma {:induction false} SkipSpaceAppend(x: string, t: string)
    requires t != [] && !IsSpace(t[0])
    ensures SkipSpace(x + t) == SkipSpace(x) + t
  {
    if x == [] {
      assert x + t == t;
    } else if IsSpace(x[0]) {
      assert (x + t)[1..] == x[1..] + t;
      SkipSpaceAppend(x[1..], t);
    }
  }

  /** Collapsing splits at any point where a character that is not whitespace starts. */
  lemma {:induction false} CollapseSpaceSplit(x: string, t: string)
    requires t != [] && !IsSpace(t[0])
    ensures CollapseSpace(x + t) == CollapseSpace(x) + CollapseSpace(t)
    decreases |x|
  {
    if x == [] {
      assert x + t == t;
    } else if |x| >= 2 && IsSpace(x[0]) && IsSpace(x[1]) {
      CollapseSpaceSplit(SkipSpace(x), t);
      CollapseRunThenText(x, t);
    } else {
      CollapseSpaceSplit(x[1..], t);
      CollapseCharThenText(x, t);
    }
  }

  /** The step of `CollapseSpaceSplit` for a run of whitespace at the front. */
  lemma CollapseRunThenText(x: string, t: string)
    requires t != [] && !IsSpace(t[0])
    requires |x| >= 2 && IsSpace(x[0]) && IsSpace(x[1])
    requires CollapseSpace(SkipSpace(x) + t) == CollapseSpace(SkipSpace(x)) + CollapseSpace(t)
    ensures CollapseSpace(x + t) == CollapseSpace(x) + CollapseSpace(t)
  {
    var s := x + t;
    assert s[0] == x[0] && s[1] == x[1];
    SkipSpaceAppend(x, t);
    assert SkipSpace(s) == SkipSpace(x) + t;
    var a, b := CollapseSpace(SkipSpace(x)), CollapseSpace(t);
    assert CollapseSpace(s) == " " + (a + b);
    assert CollapseSpace(x) == " " + a;
    ConcatAssoc(" ", a, b);
  }

  /** The step of `CollapseSpaceSplit` for a character kept at the front. */
  lemma CollapseCharThenText(x: string, t: string)
    requires t != [] && !IsSpace(t[0])
    requires x != [] && !(|x| >= 2 && IsSpace(x[0]) && IsSpace(x[1]))
    requires CollapseSpace(x[1..] + t) == CollapseSpace(x[1..]) + CollapseSpace(t)
    ensures CollapseSpace(x + t) == CollapseSpace(x) + CollapseSpace(t)
  {
    var s := x + t;
    TailOfConcat(x, t);
    assert !(|s| >= 2 && IsSpace(s[0]) && IsSpace(s[1])) by {
      if |x| >= 2 { assert s[1] == x[1]; } else { assert s[1] == t[0]; }
    }
    CollapseSpaceKeep(s);
    CollapseSpaceKeep(x);
    ConcatAssoc([x[0]], CollapseSpace(x[1..]), CollapseSpace(t));
  }

  /** A character that does not start a run of whitespace is kept as it is. */
  lemma CollapseSpaceKeep(s: string)
    requires s != [] && !(|s| >= 2 && IsSpace(s[0]) && IsSpace(s[1]))
    ensures CollapseSpace(s) == [s[0]] + CollapseSpace(s[1..])
  {
  }

  lemma TailOfConcat(x: string, t: string)
    requires x != []
    ensures (x + t)[0] == x[0] && (x + t)[1..] == x[1..] + t
  {
  }

  /** Re-association of `+`, stated apart from the collapsing facts so that the solver sees it alone. */
  lemma ConcatAssoc(p: string, q: string, u: string)
    ensures p + (q + u) == (p + q) + u
  {
  }

  /** A character that is not whitespace is kept, and the text on either side of it is collapsed independently. */
  lemma CollapseSpaceAround(x: string, c: char, y: string)
    requires !IsSpace(c)
    ensures CollapseSpace(x + [c] + y) == CollapseSpace(x) + [c] + CollapseSpace(y)
  {
    var t := [c] + y;
    assert x + [c] + y == x + t;
    CollapseSpaceSplit(x, t);
    assert t[1..] == y;
  }

  /** Skipping whitespace consumes a string made only of whitespace. */
  lemma {:induction false} SkipAllSpace(w: string)
    requires forall k :: 0 <= k < |w| ==> IsSpace(w[k])
    ensures SkipSpace(w) == []
  {
    if w != [] {
      SkipAllSpace(w[1..]);
    }
  }

  /** A run of two or more whitespace characters becomes one space; a single one is kept as it is. */
  lemma CollapseSpaceRun(w: string)
    requires forall k :: 0 <= k < |w| ==> IsSpace(w[k])
    ensures |w| >= 2 ==> CollapseSpace(w) == " "
    ensures |w| <= 1 ==> CollapseSpace(w) == w
  {
    if |w| >= 2 {
      SkipAllSpace(w);
    } else if |w| == 1 {
      assert w[1..] == [];
    }
  }
}
