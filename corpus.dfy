/**
 * `readTrainTest` and `build_data_cv`: read the training and test files line by
 * line, keep the lines, and count for every word in how many lines it occurs
 * from the eighth token on (a document frequency, not a token count).
 *
 * A file is the sequence of strings its successive `readline` calls return,
 * each with its line terminator; once they are used up `readline` returns "".
 */
module Corpus {
  import opened Text
  import opened Seqs
  import opened Cleaning

  /** The first token counted: `begin` of line 27. */
  const Begin: nat := 7

  /** `line[:-1]` (line 30): the last character dropped, if there is one. */
  function Chomp(line: string): (r: string)
    ensures |r| == if line == [] then 0 else |line| - 1
    ensures forall i :: 0 <= i < |r| ==> r[i] == line[i]
  {
    if line == [] then [] else line[..|line| - 1]
  }

  /**
   * The lines `readTrainTest` keeps (lines 29-33): each raw line chomped, up to
   * and excluding the first one that is empty once chomped.
   */
  function KeptLines(lines: seq<string>): (revs: seq<string>)
    ensures |revs| <= |lines|
    ensures forall i :: 0 <= i < |revs| ==> revs[i] == Chomp(lines[i]) && revs[i] != []
    ensures |revs| == |lines| || Chomp(lines[|revs|]) == []
    decreases |lines|
  {
    if lines == [] || Chomp(lines[0]) == [] then []
    else
      var rest := KeptLines(lines[1..]);
      assert forall i :: 0 <= i < |rest| ==> lines[1..][i] == lines[i + 1];
      [Chomp(lines[0])] + rest
  }

  /** Lines 35-39: the text that is tokenised. */
  function Normalize(line: string, cleanString: bool): string {
    if cleanString then CleanStr(Lower(Strip(line)), false) else Lower(Strip(line))
  }

  /** `orig_rev.split()[begin:]` (line 41): the tokens from the eighth on, none when there are fewer. */
  function Fields(line: string, cleanString: bool): seq<string> {
    var tokens := Split(Normalize(line, cleanString));
    if |tokens| <= Begin then [] else tokens[Begin..]
  }

  /** `set(orig_rev.split()[begin:])` (line 41): the words a line counts for. */
  function LineWords(line: string, cleanString: bool): set<string> {
    set w | w in Fields(line, cleanString)
  }

  /** `vocab[w]` of a `defaultdict(float)`: 0 for a word never counted. */
  function Get(m: map<string, nat>, w: string): nat {
    if w in m then m[w] else 0
  }

  /** The counts after lines 42-43 have added one for every word of `words`. */
  function AddWords(m: map<string, nat>, words: set<string>): (r: map<string, nat>)
    ensures r.Keys == m.Keys + words
  {
    map w | w in m.Keys + words :: Get(m, w) + (if w in words then 1 else 0)
  }

  /** The word sets of the lines `revs`, one per line. */
  function Docs(revs: seq<string>, cleanString: bool): (d: seq<set<string>>)
    ensures |d| == |revs|
    ensures forall i :: 0 <= i < |revs| ==> d[i] == LineWords(revs[i], cleanString)
  {
    seq(|revs|, i requires 0 <= i < |revs| => LineWords(revs[i], cleanString))
  }

  /** The counts after lines whose word sets are `docs` have been read (lines 29-43), the last one added last. */
  function AddDocs(m: map<string, nat>, docs: seq<set<string>>): map<string, nat>
    decreases |docs|
  {
    if docs == [] then m else AddWords(AddDocs(m, docs[..|docs| - 1]), docs[|docs| - 1])
  }

  /** The lines of `docs` that hold `w`, by position. */
  function LinesWith(docs: seq<set<string>>, w: string): set<nat> {
    set i | 0 <= i < |docs| && w in docs[i]
  }

  /** A word's count goes up by one for every line that holds it, however often it occurs there. */
  lemma {:induction false} AddDocsCount(m: map<string, nat>, docs: seq<set<string>>, w: string)
    ensures Get(AddDocs(m, docs), w) == Get(m, w) + |LinesWith(docs, w)|
    decreases |docs|
  {
    if docs != [] {
      var n := |docs| - 1;
      var init := docs[..n];
      AddDocsCount(m, init, w);
      var before := LinesWith(init, w);
      if w in docs[n] {
        assert LinesWith(docs, w) == before + {n};
      } else {
        assert LinesWith(docs, w) == before;
      }
    }
  }

  /** Each line adds at most one to a word's count. */
  lemma {:induction false} AddDocsBound(m: map<string, nat>, docs: seq<set<string>>, w: string)
    ensures Get(AddDocs(m, docs), w) <= Get(m, w) + |docs|
    decreases |docs|
  {
    if docs != [] {
      AddDocsBound(m, docs[..|docs| - 1], w);
    }
  }

  /** The counted words are the old ones and those of some line. */
  lemma {:induction false} AddDocsKeys(m: map<string, nat>, docs: seq<set<string>>)
    ensures forall w :: w in AddDocs(m, docs) <==> w in m || exists i :: 0 <= i < |docs| && w in docs[i]
    decreases |docs|
  {
    if docs != [] {
      var n := |docs| - 1;
      AddDocsKeys(m, docs[..n]);
      assert forall i :: 0 <= i < n ==> docs[..n][i] == docs[i];
    }
  }

  /** Reading `a` and then `b` into the same counts is reading `a + b`: the shared `vocab` of lines 17-20. */
  lemma {:induction false} AddDocsConcat(m: map<string, nat>, a: seq<set<string>>, b: seq<set<string>>)
    ensures AddDocs(AddDocs(m, a), b) == AddDocs(m, a + b)
    decreases |b|
  {
    if b == [] {
      assert a + b == a;
    } else {
      var n := |b| - 1;
      AddDocsConcat(m, a, b[..n]);
      assert (a + b)[..|a + b| - 1] == a + b[..n];
      assert (a + b)[|a + b| - 1] == b[n];
    }
  }

  lemma DocsConcat(a: seq<string>, b: seq<string>, cleanString: bool)
    ensures Docs(a + b, cleanString) == Docs(a, cleanString) + Docs(b, cleanString)
  {
    var d, e := Docs(a + b, cleanString), Docs(a, cleanString) + Docs(b, cleanString);
    forall i | 0 <= i < |d|
      ensures d[i] == e[i]
    {
      if i < |a| {
        assert (a + b)[i] == a[i];
      } else {
        assert (a + b)[i] == b[i - |a|];
      }
    }
  }

  lemma AddWordsStep(m: map<string, nat>, done: set<string>, w: string)
    requires w !in done
    ensures AddWords(m, done + {w}) == AddWords(m, done)[w := Get(AddWords(m, done), w) + 1]
  {
  }

  lemma KeptLinesStep(lines: seq<string>, i: nat)
    requires i < |lines| && Chomp(lines[i]) != []
    ensures KeptLines(lines[i..]) == [Chomp(lines[i])] + KeptLines(lines[i + 1..])
  {
    assert lines[i..][0] == lines[i];
    assert lines[i..][1..] == lines[i + 1..];
  }

  lemma AddDocsStep(m: map<string, nat>, revs: seq<string>, line: string, cleanString: bool)
    ensures AddDocs(m, Docs(revs + [line], cleanString)) == AddWords(AddDocs(m, Docs(revs, cleanString)), LineWords(line, cleanString))
  {
    var d := Docs(revs + [line], cleanString);
    assert d[..|revs|] == Docs(revs, cleanString);
  }

  /** The `defaultdict(float)` of document frequencies that lines 17-20 share between both files. */
  class Vocabulary {
    var counts: map<string, nat>

    constructor()
      ensures counts == map[]
    {
      counts := map[];
    }

    /** `vocab[word] += 1` (line 43). */
    method Increment(word: string)
      modifies this
      ensures counts == old(counts)[word := Get(old(counts), word) + 1]
    {
      counts := counts[word := Get(counts, word) + 1];
    }
  }

  /** Lines 41-43: every distinct word of `words` counted once, in whatever order the set yields them. */
  method CountWords(vocab: Vocabulary, words: set<string>)
    modifies vocab
    ensures vocab.counts == AddWords(old(vocab.counts), words)
  {
    ghost var start := vocab.counts;
    var left := words;
    while left != {}
      invariant left <= words
      invariant vocab.counts == AddWords(start, words - left)
      decreases left
    {
      var word :| word in left;
      AddWordsStep(start, words - left, word);
      vocab.Increment(word);
      assert words - (left - {word}) == (words - left) + {word};
      left := left - {word};
    }
    assert words - left == words;
  }

  /**
   * `readTrainTest(input1, vocab, clean_string)` (lines 25-45) over the lines the
   * file's `readline` calls return: returns the kept lines and adds their
   * document frequencies to `vocab`.
   */
  method ReadTrainTest(lines: seq<string>, vocab: Vocabulary, cleanString: bool) returns (revs: seq<string>)
    modifies vocab
    ensures revs == KeptLines(lines)
    ensures vocab.counts == AddDocs(old(vocab.counts), Docs(revs, cleanString))
  {
    revs := [];
    ghost var start := vocab.counts;
    var next := 0;
    while true
      invariant next <= |lines|
      invariant KeptLines(lines) == revs + KeptLines(lines[next..])
      invariant vocab.counts == AddDocs(start, Docs(revs, cleanString))
      decreases |lines| - next
    {
      var raw := if next < |lines| then lines[next] else "";
      var line := Chomp(raw);
      if line == [] {
        assert revs + [] == revs;
        return;
      }
      KeptLinesStep(lines, next);
      Assoc(revs, [line], KeptLines(lines[next + 1..]));
      AddDocsStep(start, revs, line, cleanString);
      revs := revs + [line];
      var words := LineWords(line, cleanString);
      CountWords(vocab, words);
      next := next + 1;
    }
  }

  /**
   * `build_data_cv(data_folder, cv, clean_string)` (lines 8-22): reads the
   * training and then the test file into one fresh vocabulary. Its
   * `clean_string` is not passed on, so both files are always cleaned.
   */
  method BuildDataCv(trainLines: seq<string>, testLines: seq<string>, cleanString: bool)
    returns (revsTrain: seq<string>, revsTest: seq<string>, vocab: Vocabulary)
    ensures fresh(vocab)
    ensures revsTrain == KeptLines(trainLines) && revsTest == KeptLines(testLines)
    ensures vocab.counts == AddDocs(map[], Docs(revsTrain + revsTest, true))
  {
    vocab := new Vocabulary();
    revsTrain := ReadTrainTest(trainLines, vocab, true);
    revsTest := ReadTrainTest(testLines, vocab, true);
    DocsConcat(revsTrain, revsTest, true);
    AddDocsConcat(map[], Docs(revsTrain, true), Docs(revsTest, true));
  }
}
