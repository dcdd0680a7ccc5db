/**
 * The two tokenising cleaners, `clean_str` and `clean_str_sst`. Each is a fixed
 * chain of `re.sub` calls; every pattern but two is a literal string, so each
 * call is a leftmost, non-overlapping literal replacement. The two that are not
 * literals are the character class of line 102 (`KeepChars`) and the whitespace
 * run `\s{2,}` of line 114 (`Collapse`).
 */
module Cleaning {
  import opened Text
  import opened Seqs

  /** The characters the class `[A-Za-z0-9(),!?\'\`]` admits. */
  predicate IsKept(c: char) {
    || 'A' <= c <= 'Z' || 'a' <= c <= 'z' || '0' <= c <= '9'
    || c == '(' || c == ')' || c == ',' || c == '!' || c == '?' || c == '\'' || c == '`'
  }

  /** `re.sub(r"[^A-Za-z0-9(),!?\'\`]", " ", s)`: every other character becomes a space. */
  function KeepChars(s: string): (r: string)
    ensures |r| == |s|
    ensures forall i :: 0 <= i < |s| ==> r[i] == (if IsKept(s[i]) then s[i] else ' ')
  {
    seq(|s|, i requires 0 <= i < |s| => if IsKept(s[i]) then s[i] else ' ')
  }

  predicate StartsWith(s: string, pat: string) {
    |pat| <= |s| && s[..|pat|] == pat
  }

  /**
   * `re.sub(pat, rep, s)` for a literal, non-empty `pat` and a replacement with no
   * group reference: scanning from the left, each occurrence of `pat` becomes `rep`
   * and the scan resumes after it.
   */
  function ReplaceAll(s: string, pat: string, rep: string): (r: string)
    requires pat != []
    ensures forall c :: c in r ==> c in s || c in rep
    ensures (forall i :: 0 <= i < |s| ==> !StartsWith(s[i..], pat)) ==> r == s
    decreases |s|
  {
    if s == [] then []
    else if StartsWith(s, pat) then
      assert s[0..] == s;
      rep + ReplaceAll(s[|pat|..], pat, rep)
    else
      assert forall i :: 0 <= i < |s| - 1 ==> s[1..][i..] == s[i + 1..];
      [s[0]] + ReplaceAll(s[1..], pat, rep)
  }

  /** An occurrence at the start becomes `rep`, and the scan resumes after it. */
  lemma ReplaceAllHit(pat: string, b: string, rep: string)
    requires pat != []
    ensures ReplaceAll(pat + b, pat, rep) == rep + ReplaceAll(b, pat, rep)
  {
    var s := pat + b;
    assert s[..|pat|] == pat;
    assert s[|pat|..] == b;
  }

  /** A character that does not start an occurrence is kept, and the scan moves on by one. */
  lemma ReplaceAllMiss(s: string, pat: string, rep: string)
    requires pat != [] && s != [] && !StartsWith(s, pat)
    ensures ReplaceAll(s, pat, rep) == [s[0]] + ReplaceAll(s[1..], pat, rep)
  {
  }

  /** When no occurrence starts within `a`, none starts within its tail either, and the scan passes `a[0]` by. */
  lemma MissShift(a: string, pat: string, b: string)
    requires pat != [] && a != []
    requires forall i :: 0 <= i < |a| ==> !StartsWith((a + pat + b)[i..], pat)
    ensures !StartsWith(a + pat + b, pat) && (a + pat + b)[1..] == a[1..] + pat + b && (a + pat + b)[0] == a[0]
    ensures forall i :: 0 <= i < |a| - 1 ==> !StartsWith((a[1..] + pat + b)[i..], pat)
  {
    var s := a + pat + b;
    var t := a[1..] + pat + b;
    assert s[0..] == s;
    AppendSlices(a, pat, 1);
    AppendSlices(a + pat, b, 1);
    forall i | 0 <= i < |a| - 1
      ensures !StartsWith(t[i..], pat)
    {
      assert t[i..] == s[i + 1..];
    }
  }

  /**
   * The scan is leftmost and non-overlapping: when the first occurrence of `pat`
   * starts right after `a`, the text before it is kept, that occurrence becomes
   * `rep`, and the scan resumes after it, never inside `rep`.
   */
  lemma {:induction false} ReplaceAllFirst(a: string, pat: string, b: string, rep: string)
    requires pat != []
    requires forall i :: 0 <= i < |a| ==> !StartsWith((a + pat + b)[i..], pat)
    ensures ReplaceAll(a + pat + b, pat, rep) == a + rep + ReplaceAll(b, pat, rep)
    decreases |a|
  {
    if a == [] {
      assert a + pat + b == pat + b;
      ReplaceAllHit(pat, b, rep);
    } else {
      var r := ReplaceAll(b, pat, rep);
      MissShift(a, pat, b);
      ReplaceAllMiss(a + pat + b, pat, rep);
      ReplaceAllFirst(a[1..], pat, b, rep);
      assert ReplaceAll(a + pat + b, pat, rep) == [a[0]] + (a[1..] + rep + r);
      ConsRegroup(a, rep, r);
    }
  }

  /** The length of the run of whitespace `s` starts with. */
  function SpaceRun(s: string): (n: nat)
    ensures n <= |s|
    ensures forall i :: 0 <= i < n ==> IsSpace(s[i])
    ensures n == |s| || !IsSpace(s[n])
    decreases |s|
  {
    if s == [] || !IsSpace(s[0]) then 0 else 1 + SpaceRun(s[1..])
  }

  /** No two whitespace characters stand side by side. */
  predicate NoDoubleSpace(s: string) {
    forall i, j :: 0 <= i < |s| && 0 <= j < |s| && j == i + 1 ==> !(IsSpace(s[i]) && IsSpace(s[j]))
  }

  /**
   * `re.sub(r"\s{2,}", " ", s)`: every run of two or more whitespace characters
   * becomes one space; a lone whitespace character stays as it is.
   */
  function Collapse(s: string): (r: string)
    ensures NoDoubleSpace(r)
    ensures forall c :: c in r ==> c in s || c == ' '
    ensures s != [] && !IsSpace(s[0]) ==> r != [] && r[0] == s[0]
    ensures s != [] && IsSpace(s[0]) ==> r != [] && IsSpace(r[0])
    decreases |s|
  {
    if s == [] then []
    else
      var n := SpaceRun(s);
      if n >= 2 then
        var rest := Collapse(s[n..]);
        assert forall c :: c in s[n..] ==> c in s;
        " " + rest
      else
        var rest := Collapse(s[1..]);
        assert forall c :: c in s[1..] ==> c in s;
        [s[0]] + rest
  }

  /** A non-whitespace byte in front of two texts with the same fields, starting alike, gives the same fields. */
  lemma SplitConsAlike(c: char, t: string, u: string)
    requires !IsSpace(c) && Split(t) == Split(u)
    requires t == [] <==> u == []
    requires t != [] ==> IsSpace(t[0]) == IsSpace(u[0])
    ensures Split([c] + t) == Split([c] + u)
  {
    if t == [] || IsSpace(t[0]) {
      SplitWord([c], t);
      SplitWord([c], u);
    } else {
      SplitConsWord(c, t);
      SplitConsWord(c, u);
    }
  }

  /** A run of two or more whitespace characters becomes one space, which leaves the words alone. */
  lemma SplitCollapseRun(s: string)
    requires SpaceRun(s) >= 2
    requires Split(Collapse(s[SpaceRun(s)..])) == Split(s[SpaceRun(s)..])
    ensures Split(Collapse(s)) == Split(s)
  {
    var n := SpaceRun(s);
    SplitSpace(' ', Collapse(s[n..]));
    SplitDropSpaces(s, n);
  }

  /** A lone whitespace character stays, and leaves the words alone. */
  lemma SplitCollapseSpace(s: string)
    requires s != [] && IsSpace(s[0]) && SpaceRun(s) < 2
    requires Split(Collapse(s[1..])) == Split(s[1..])
    ensures Split(Collapse(s)) == Split(s)
  {
    SplitSpace(s[0], Collapse(s[1..]));
  }

  /** A character of a word stays in front of the collapsed rest, which starts the way the rest did. */
  lemma SplitCollapseWord(s: string)
    requires s != [] && !IsSpace(s[0])
    requires Split(Collapse(s[1..])) == Split(s[1..])
    ensures Split(Collapse(s)) == Split(s)
  {
    assert s == [s[0]] + s[1..];
    SplitConsAlike(s[0], s[1..], Collapse(s[1..]));
  }

  /** The collapse keeps the words: only the whitespace between them changes. */
  lemma {:induction false} SplitCollapse(s: string)
    ensures Split(Collapse(s)) == Split(s)
    decreases |s|
  {
    if s != [] {
      var n := SpaceRun(s);
      if n >= 2 {
        SplitCollapse(s[n..]);
        SplitCollapseRun(s);
      } else if IsSpace(s[0]) {
        SplitCollapse(s[1..]);
        SplitCollapseSpace(s);
      } else {
        SplitCollapse(s[1..]);
        SplitCollapseWord(s);
      }
    }
  }

  /**
   * Every character is a space, a character of the class of line 102, or (when
   * `backslash` holds) a backslash.
   */
  predicate Charset(s: string, backslash: bool) {
    forall i :: 0 <= i < |s| ==> s[i] == ' ' || IsKept(s[i]) || (backslash && s[i] == '\\')
  }

  lemma ReplaceAllCharset(s: string, pat: string, rep: string, backslash: bool)
    requires pat != [] && Charset(s, backslash) && Charset(rep, backslash)
    ensures Charset(ReplaceAll(s, pat, rep), backslash)
  {
    var r := ReplaceAll(s, pat, rep);
    forall i | 0 <= i < |r|
      ensures r[i] == ' ' || IsKept(r[i]) || (backslash && r[i] == '\\')
    {
      assert r[i] in r;
    }
  }

  lemma CollapseCharset(s: string, backslash: bool)
    requires Charset(s, backslash)
    ensures Charset(Collapse(s), backslash)
  {
    var r := Collapse(s);
    forall i | 0 <= i < |r|
      ensures r[i] == ' ' || IsKept(r[i]) || (backslash && r[i] == '\\')
    {
      assert r[i] in r;
    }
  }

  /** A slice of a string with no double whitespace has none either. */
  lemma NoDoubleSpaceSlice(s: string, a: nat, b: nat)
    requires NoDoubleSpace(s) && a <= b <= |s|
    ensures NoDoubleSpace(s[a..b])
  {
    var t := s[a..b];
    forall i, j | 0 <= i < |t| && 0 <= j < |t| && j == i + 1
      ensures !(IsSpace(t[i]) && IsSpace(t[j]))
    {
      assert t[i] == s[a + i] && t[j] == s[a + i + 1];
    }
  }

  /** What every cleaner returns: within the charset, single spaces only, and none at either end. */
  predicate Tidy(s: string, backslash: bool) {
    && Charset(s, backslash)
    && NoDoubleSpace(s)
    && (s == [] || (s[0] != ' ' && s[|s| - 1] != ' '))
  }

  /** `strip` keeps a string within its charset and free of double whitespace, and leaves no whitespace at either end. */
  lemma StripClean(s: string, backslash: bool)
    requires NoDoubleSpace(s) && Charset(s, backslash)
    ensures Tidy(Strip(s), backslash)
  {
    var l := TrimLeft(s);
    NoDoubleSpaceSlice(s, |s| - |l|, |s|);
    NoDoubleSpaceSlice(l, 0, |TrimRight(l)|);
  }

  /** `lower` keeps a string tidy and leaves no capital letter. */
  lemma LowerClean(s: string, backslash: bool)
    requires Tidy(s, backslash)
    ensures Tidy(Lower(s), backslash)
    ensures forall i :: 0 <= i < |Lower(s)| ==> !('A' <= Lower(s)[i] <= 'Z')
  {
    var r := Lower(s);
    if s != [] {
      assert r[0] == LowerChar(s[0]) && r[|r| - 1] == LowerChar(s[|s| - 1]);
    }
  }

  /**
   * `clean_str_sst(s)` (lines 121-123): only lower-case letters, digits, the
   * characters `(),!?'` and backquote, and single spaces between them.
   */
  function CleanStrSst(s: string): (r: string)
    ensures Tidy(r, false)
    ensures forall i :: 0 <= i < |r| ==> !('A' <= r[i] <= 'Z')
  {
    var collapsed := Collapse(KeepChars(s));
    CollapseCharset(KeepChars(s), false);
    StripClean(collapsed, false);
    LowerClean(Strip(collapsed), false);
    Lower(Strip(collapsed))
  }

  /**
   * `clean_str_sst` keeps the words of the filtered line, each lowered: only the
   * whitespace between them changes.
   */
  lemma CleanStrSstWords(s: string)
    ensures Split(CleanStrSst(s)) == LowerAll(Split(KeepChars(s)))
    ensures Split(CleanStrSst(s)) == Split(Lower(KeepChars(s)))
  {
    var c := Collapse(KeepChars(s));
    SplitCollapse(KeepChars(s));
    SplitStrip(c);
    SplitLower(Strip(c));
    SplitLower(KeepChars(s));
  }

  /** A string with no double whitespace is left as it is by the collapse of lines 114 and 122. */
  lemma {:induction false} CollapseFixed(s: string)
    requires NoDoubleSpace(s)
    ensures Collapse(s) == s
    decreases |s|
  {
    if s != [] {
      NoDoubleSpaceSlice(s, 1, |s|);
      CollapseFixed(s[1..]);
      if |s| >= 2 && IsSpace(s[0]) {
        assert !IsSpace(s[1]);
      }
      assert s == [s[0]] + s[1..];
    }
  }

  /** Cleaning an SST line twice is cleaning it once. */
  lemma CleanStrSstIdempotent(s: string)
    ensures CleanStrSst(CleanStrSst(s)) == CleanStrSst(s)
  {
    var r := CleanStrSst(s);
    assert KeepChars(r) == r;
    CollapseFixed(r);
    assert Lower(r) == r;
  }

  /**
   * The rewrites of lines 103-113 as (pattern, replacement) pairs, in their order:
   * the contractions split off their clitic and the punctuation is padded with
   * spaces, `(`, `)` and `?` with a backslash in front.
   */
  const Rules: seq<(string, string)> := [
    ("'s", " 's"), ("'ve", " 've"), ("n't", " n't"), ("'re", " 're"), ("'d", " 'd"), ("'ll", " 'll"),
    (",", " , "), ("!", " ! "), ("(", " \\( "), (")", " \\) "), ("?", " \\? ")]

  predicate Literal(rules: seq<(string, string)>) {
    forall k :: 0 <= k < |rules| ==> rules[k].0 != []
  }

  /** Applies the rewrites of `rules` one after another, each to the whole string. */
  function ReplaceEach(s: string, rules: seq<(string, string)>): string
    requires Literal(rules)
    decreases |rules|
  {
    if rules == [] then s else ReplaceEach(ReplaceAll(s, rules[0].0, rules[0].1), rules[1..])
  }

  /** Rewrites whose replacements stay within a charset keep a string within it. */
  lemma {:induction false} ReplaceEachCharset(s: string, rules: seq<(string, string)>, backslash: bool)
    requires Literal(rules) && Charset(s, backslash)
    requires forall k :: 0 <= k < |rules| ==> Charset(rules[k].1, backslash)
    ensures Charset(ReplaceEach(s, rules), backslash)
    decreases |rules|
  {
    if rules != [] {
      ReplaceAllCharset(s, rules[0].0, rules[0].1, backslash);
      assert forall k :: 0 <= k < |rules| - 1 ==> rules[1..][k] == rules[k + 1];
      ReplaceEachCharset(ReplaceAll(s, rules[0].0, rules[0].1), rules[1..], backslash);
    }
  }

  /** The patterns are non-empty and the replacements add only spaces and backslashes. */
  lemma RulesCharset()
    ensures Literal(Rules)
    ensures forall k :: 0 <= k < |Rules| ==> Charset(Rules[k].1, true)
  {
  }

  /** Lines 102-114 of `clean_str`: the filtered, rewritten and collapsed string, before `strip`. */
  function Tokens(s: string): (r: string)
    ensures Charset(r, true) && NoDoubleSpace(r)
  {
    RulesCharset();
    ReplaceEachCharset(KeepChars(s), Rules, true);
    var rewritten := ReplaceEach(KeepChars(s), Rules);
    CollapseCharset(rewritten, true);
    Collapse(rewritten)
  }

  /**
   * `clean_str(s, TREC)` (lines 102-115): letters, digits, the characters
   * `(),!?'`, backquote and backslash, single spaces between them, no space at
   * either end, and no capital letter unless `TREC`. The replacements of lines
   * 111-113 are the Python 2 templates " \( ", " \) " and " \? ", whose unknown
   * escapes keep their backslash: `(` becomes ` \( `, not ` ( `.
   */
  function CleanStr(s: string, trec: bool): (r: string)
    ensures Tidy(r, true)
    ensures !trec ==> forall i :: 0 <= i < |r| ==> !('A' <= r[i] <= 'Z')
  {
    var collapsed := Tokens(s);
    StripClean(collapsed, true);
    LowerClean(Strip(collapsed), true);
    if trec then Strip(collapsed) else Lower(Strip(collapsed))
  }

  /**
   * `clean_str` keeps the words of the filtered and rewritten line, each lowered
   * unless `TREC`: only the whitespace between them changes.
   */
  lemma CleanStrWords(s: string, trec: bool)
    ensures Literal(Rules)
    ensures var words := Split(ReplaceEach(KeepChars(s), Rules));
      Split(CleanStr(s, trec)) == if trec then words else LowerAll(words)
  {
    RulesCharset();
    var u := ReplaceEach(KeepChars(s), Rules);
    SplitCollapse(u);
    SplitStrip(Collapse(u));
    SplitLower(Strip(Collapse(u)));
  }

  /** `pat` cannot occur in `s`: its first or its second character does not occur there at all. */
  predicate Misses(s: string, pat: string) {
    pat != [] && (pat[0] !in s || (|pat| >= 2 && pat[1] !in s))
  }

  /** A pattern that does not occur leaves the string as it is. */
  lemma MissesReplace(s: string, pat: string, rep: string)
    requires Misses(s, pat)
    ensures ReplaceAll(s, pat, rep) == s
  {
    forall i | 0 <= i < |s|
      ensures !StartsWith(s[i..], pat)
    {
      assert s[i] in s;
      if i + 1 < |s| {
        assert s[i + 1] in s;
      }
    }
  }

  /** The rewrites from the `k`-th on leave alone a string in which none of their patterns occurs. */
  lemma {:induction false} RulesMissFrom(s: string, k: nat)
    requires k <= |Rules|
    requires forall j :: k <= j < |Rules| ==> Misses(s, Rules[j].0)
    ensures Literal(Rules[k..]) && ReplaceEach(s, Rules[k..]) == s
    decreases |Rules| - k
  {
    RulesCharset();
    if k < |Rules| {
      MissesReplace(s, Rules[k].0, Rules[k].1);
      RulesMissFrom(s, k + 1);
      assert Rules[k..][1..] == Rules[k + 1..];
    }
  }

  /** A tidy string has no whitespace at either end. */
  lemma TidyEnds(s: string, backslash: bool)
    requires Tidy(s, backslash)
    ensures s == [] || (!IsSpace(s[0]) && !IsSpace(s[|s| - 1]))
  {
    if s != [] {
      assert s[0] == ' ' || IsKept(s[0]) || (backslash && s[0] == '\\');
      assert s[|s| - 1] == ' ' || IsKept(s[|s| - 1]) || (backslash && s[|s| - 1] == '\\');
    }
  }

  /** A string with whitespace at neither end is its own `strip`. */
  lemma StripKeeps(s: string)
    requires s == [] || (!IsSpace(s[0]) && !IsSpace(s[|s| - 1]))
    ensures Strip(s) == s
  {
  }

  /** What `clean_str(s, False)` makes of a string of kept characters, from what the rewrites of lines 103-113 make of it. */
  lemma CleanStrOf(s: string, u: string)
    requires KeepChars(s) == s
    requires Literal(Rules) && ReplaceEach(s, Rules) == u && Tidy(u, true)
    ensures CleanStr(s, false) == Lower(u)
  {
    CollapseFixed(u);
    TidyEnds(u, true);
    StripKeeps(u);
  }

  /** No rewrite applies to "A'S": the contraction rule of line 103 is for a lower-case `'s`. */
  lemma RewriteUpper()
    ensures Literal(Rules) && ReplaceEach("A'S", Rules) == "A'S"
  {
    RulesMissFrom("A'S", 0);
    assert Rules[0..] == Rules;
  }

  /** The rewrite of line 103 turns "a's" into "a 's". */
  lemma SplitClitic()
    ensures ReplaceAll("a's", "'s", " 's") == "a 's"
  {
    var t := "a's";
    assert t[1..] == "'s" && t[..2][0] == 'a' && !StartsWith(t, "'s");
    assert StartsWith("'s", "'s") && "'s"[2..] == [];
  }

  /** None of the patterns of lines 104-113 occurs in "a 's". */
  lemma SplitMisses()
    ensures forall j :: 1 <= j < |Rules| ==> Misses("a 's", Rules[j].0)
  {
  }

  /** Line 103 splits the clitic off "a's", and no later rewrite applies. */
  lemma RewriteClitic()
    ensures Literal(Rules) && ReplaceEach("a's", Rules) == "a 's"
  {
    RewriteFirst("a's");
    SplitClitic();
    SplitMisses();
    RulesMissFrom("a 's", 1);
  }

  /** The rewrites are that of line 103 followed by the rest. */
  lemma RewriteFirst(s: string)
    ensures Literal(Rules) && Literal(Rules[1..])
    ensures ReplaceEach(s, Rules) == ReplaceEach(ReplaceAll(s, "'s", " 's"), Rules[1..])
  {
    RulesCharset();
  }

  /** "A'S" is made of kept characters, is tidy, and lowers to "a's". */
  lemma ShapeUpper()
    ensures KeepChars("A'S") == "A'S" && Tidy("A'S", true) && Lower("A'S") == "a's"
  {
  }

  /** "a's" is made of kept characters; "a 's" is tidy and already lower-case. */
  lemma ShapeClitic()
    ensures KeepChars("a's") == "a's" && Tidy("a 's", true) && Lower("a 's") == "a 's"
  {
  }

  /**
   * `clean_str` is not idempotent, because of case: the contraction rules of lines
   * 103-108 match lower-case clitics only, and `lower` (line 115) runs after them.
   * "A'S" comes out as "a's", which a second pass splits into "a 's".
   */
  lemma CleanStrNotIdempotent()
    ensures CleanStr("A'S", false) == "a's"
    ensures CleanStr("a's", false) == "a 's"
    ensures CleanStr(CleanStr("A'S", false), false) != CleanStr("A'S", false)
  {
    RewriteUpper();
    ShapeUpper();
    CleanStrOf("A'S", "A'S");
    RewriteClitic();
    ShapeClitic();
    CleanStrOf("a's", "a 's");
  }
}
