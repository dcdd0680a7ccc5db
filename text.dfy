/**
 * The Python 2 string built-ins the data preparation script relies on, over byte
 * strings (each char stands for one byte): whitespace, `lower`, `strip` and `split`.
 */
module Text {
  import opened Seqs

  /** The characters `str.isspace`, `str.split()`, `str.strip()` and the regex class `\s` treat as whitespace. */
  predicate IsSpace(c: char) {
    c == ' ' || c == '\t' || c == '\n' || c == '\r' || c == '\U{B}' || c == '\U{C}'
  }

  /** `str.lower()` on one byte: ASCII only, as for byte strings in the C locale. */
  function LowerChar(c: char): (d: char)
    ensures !('A' <= d <= 'Z')
    ensures IsSpace(d) <==> IsSpace(c)
    ensures !('A' <= c <= 'Z') ==> d == c
    ensures 'A' <= c <= 'Z' ==> 'a' <= d <= 'z'
  {
    if 'A' <= c <= 'Z' then (c as int + 32) as char else c
  }

  function Lower(s: string): (r: string)
    ensures |r| == |s|
    ensures forall i :: 0 <= i < |s| ==> r[i] == LowerChar(s[i])
  {
    seq(|s|, i requires 0 <= i < |s| => LowerChar(s[i]))
  }

  /** `s.lstrip()`: drops the leading whitespace. */
  function TrimLeft(s: string): (r: string)
    ensures |r| <= |s| && r == s[|s| - |r|..]
    ensures forall i :: 0 <= i < |s| - |r| ==> IsSpace(s[i])
    ensures r == [] || !IsSpace(r[0])
    decreases |s|
  {
    if s != [] && IsSpace(s[0]) then TrimLeft(s[1..]) else s
  }

  /** `s.rstrip()`: drops the trailing whitespace. */
  function TrimRight(s: string): (r: string)
    ensures |r| <= |s| && r == s[..|r|]
    ensures forall i :: |r| <= i < |s| ==> IsSpace(s[i])
    ensures r == [] || !IsSpace(r[|r| - 1])
    decreases |s|
  {
    if s != [] && IsSpace(s[|s| - 1]) then TrimRight(s[..|s| - 1]) else s
  }

  /**
   * `s.strip()`: the slice of `s` left once the whitespace at both ends is dropped;
   * it starts at `|s| - |TrimLeft(s)|`, and neither starts nor ends with whitespace.
   */
  function Strip(s: string): (r: string)
    ensures var i := |s| - |TrimLeft(s)|;
      && i + |r| <= |s| && r == s[i..][..|r|]
      && (forall j :: 0 <= j < i ==> IsSpace(s[j]))
      && (forall j :: i + |r| <= j < |s| ==> IsSpace(s[j]))
    ensures r == [] || (!IsSpace(r[0]) && !IsSpace(r[|r| - 1]))
    ensures forall c :: c in r ==> c in s
  {
    TrimRight(TrimLeft(s))
  }

  /** The length of the run of non-whitespace characters `s` starts with. */
  function WordLen(s: string): (n: nat)
    ensures n <= |s|
    ensures forall i :: 0 <= i < n ==> !IsSpace(s[i])
    ensures n == |s| || IsSpace(s[n])
    decreases |s|
  {
    if s == [] || IsSpace(s[0]) then 0 else 1 + WordLen(s[1..])
  }

  predicate NoSpace(w: string) {
    forall i :: 0 <= i < |w| ==> !IsSpace(w[i])
  }

  /** `s.split()` with no argument: the maximal runs of non-whitespace, in order. */
  function Split(s: string): (r: seq<string>)
    ensures forall i :: 0 <= i < |r| ==> r[i] != [] && NoSpace(r[i])
    decreases |s|
  {
    if s == [] then []
    else if IsSpace(s[0]) then Split(s[1..])
    else
      var n := WordLen(s);
      [s[..n]] + Split(s[n..])
  }

  /** A word followed by whitespace (or by nothing) is the first field of the split. */
  lemma SplitWord(w: string, s: string)
    requires w != [] && NoSpace(w)
    requires s == [] || IsSpace(s[0])
    ensures Split(w + s) == [w] + Split(s)
  {
    assert forall i :: 0 <= i < |w| ==> (w + s)[i] == w[i];
    assert |w| == |w + s| || (w + s)[|w|] == s[0];
    var n := WordLen(w + s);
    assert n == |w|;
    assert (w + s)[..n] == w;
    assert (w + s)[n..] == s;
  }

  /** Leading whitespace does not change the split. */
  lemma SplitSpace(c: char, s: string)
    requires IsSpace(c)
    ensures Split([c] + s) == Split(s)
  {
    assert ([c] + s)[1..] == s;
  }

  /** A text that starts with a word splits into that word and the fields of the rest. */
  lemma SplitUnfold(s: string)
    requires s != [] && !IsSpace(s[0])
    ensures Split(s) == [s[..WordLen(s)]] + Split(s[WordLen(s)..])
  {
  }

  lemma WordLenCons(c: char, t: string)
    requires !IsSpace(c)
    ensures WordLen([c] + t) == WordLen(t) + 1
  {
    ConsSlices(c, t, 0);
  }

  /** A non-whitespace byte in front of a word joins that word. */
  lemma SplitConsWord(c: char, t: string)
    requires !IsSpace(c) && t != [] && !IsSpace(t[0])
    ensures Split(t) != [] && Split([c] + t) == [[c] + Split(t)[0]] + Split(t)[1..]
  {
    var n := WordLen(t);
    var e := Split(t[n..]);
    WordLenCons(c, t);
    ConsSlices(c, t, n);
    SplitUnfold([c] + t);
    SplitUnfold(t);
    HeadTail(t[..n], e);
    assert Split([c] + t) == [[c] + t[..n]] + e;
  }

  /** Dropping a run of leading whitespace does not change the split. */
  lemma {:induction false} SplitDropSpaces(s: string, n: nat)
    requires n <= |s|
    requires forall i :: 0 <= i < n ==> IsSpace(s[i])
    ensures Split(s[n..]) == Split(s)
    decreases n
  {
    if n == 0 {
      assert s[n..] == s;
    } else {
      SplitDropSpaces(s[1..], n - 1);
      assert s[1..][n - 1..] == s[n..];
    }
  }

  /** The first field of a word-initial text ends where it would without what follows a whitespace boundary. */
  lemma WordLenAppend(a: string, b: string)
    requires a != [] && (b == [] || IsSpace(a[|a| - 1]) || IsSpace(b[0]))
    ensures WordLen(a + b) == WordLen(a)
  {
    var n := WordLen(a);
    assert forall i :: 0 <= i < |a| ==> (a + b)[i] == a[i];
    if n < |a| {
      assert (a + b)[n] == a[n];
    } else {
      assert !IsSpace(a[|a| - 1]);
    }
    assert n == |a + b| || IsSpace((a + b)[n]);
  }

  /** Text joined at whitespace splits into the fields of each side, in order. */
  lemma {:induction false} SplitAppend(a: string, b: string)
    requires a == [] || b == [] || IsSpace(a[|a| - 1]) || IsSpace(b[0])
    ensures Split(a + b) == Split(a) + Split(b)
    decreases |a|
  {
    if a == [] {
      assert a + b == b;
    } else if IsSpace(a[0]) {
      AppendSlices(a, b, 1);
      SplitAppend(a[1..], b);
    } else {
      var n := WordLen(a);
      WordLenAppend(a, b);
      AppendSlices(a, b, n);
      SplitAppend(a[n..], b);
      Assoc([a[..n]], Split(a[n..]), Split(b));
    }
  }

  /** `lstrip` keeps the fields. */
  lemma SplitTrimLeft(s: string)
    ensures Split(TrimLeft(s)) == Split(s)
  {
    SplitDropSpaces(s, |s| - |TrimLeft(s)|);
  }

  /** `rstrip` keeps the fields. */
  lemma SplitTrimRight(s: string)
    ensures Split(TrimRight(s)) == Split(s)
  {
    var r := TrimRight(s);
    var t := s[|r|..];
    assert s == r + t;
    SplitDropSpaces(t, |t|);
    assert t[|t|..] == [];
    SplitAppend(r, t);
  }

  /** `strip` keeps the fields: `s.strip().split() == s.split()`. */
  lemma SplitStrip(s: string)
    ensures Split(Strip(s)) == Split(s)
  {
    SplitTrimLeft(s);
    SplitTrimRight(TrimLeft(s));
  }

  /** Each field lowered. */
  function LowerAll(ws: seq<string>): seq<string> {
    seq(|ws|, i requires 0 <= i < |ws| => Lower(ws[i]))
  }

  lemma LowerAllCons(w: string, ws: seq<string>)
    ensures LowerAll([w] + ws) == [Lower(w)] + LowerAll(ws)
  {
  }

  /** `lower` keeps whitespace where it is, so the first field ends at the same place. */
  lemma LowerWord(s: string)
    ensures WordLen(Lower(s)) == WordLen(s)
    ensures Lower(s)[..WordLen(s)] == Lower(s[..WordLen(s)])
    ensures Lower(s)[WordLen(s)..] == Lower(s[WordLen(s)..])
  {
    var l := Lower(s);
    var n := WordLen(s);
    assert forall i :: 0 <= i < |s| ==> IsSpace(l[i]) == IsSpace(s[i]);
    assert n == |l| || IsSpace(l[n]);
  }

  /** `lower` keeps the fields, each lowered: `s.lower().split()` is `[w.lower() for w in s.split()]`. */
  lemma {:induction false} SplitLower(s: string)
    ensures Split(Lower(s)) == LowerAll(Split(s))
    decreases |s|
  {
    if s == [] {
    } else if IsSpace(s[0]) {
      assert Lower(s)[1..] == Lower(s[1..]);
      SplitLower(s[1..]);
    } else {
      var n := WordLen(s);
      LowerWord(s);
      SplitLower(s[n..]);
      LowerAllCons(s[..n], Split(s[n..]));
    }
  }
}
