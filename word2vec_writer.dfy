/**
 * The inverse of the loader: the binary layout word2vec writes (a header line with
 * the record count and the vector size, then for each record the word, a space, the
 * vector bytes and a newline). Loading what it writes gives back every record, framed
 * exactly, even where the vector bytes contain spaces or newlines.
 */
module Word2VecWriter {
  import opened Wrappers
  import opened Text
  import opened Word2Vec

  function Digit(d: nat): (c: char)
    requires d < 10
    ensures '0' <= c <= '9' && c as int - '0' as int == d
  {
    ('0' as int + d) as char
  }

  /** The decimal digits of `n`, which `int` reads back as `n`. */
  function ShowNat(n: nat): (s: string)
    ensures IsDecimal(s)
    ensures DecimalValue(s) == n
    decreases n
  {
    if n < 10 then [Digit(n)]
    else
      var s := ShowNat(n / 10) + [Digit(n % 10)];
      assert s[..|s| - 1] == ShowNat(n / 10);
      s
  }

  /** The records, each as the word, a space, the vector bytes and a newline. */
  function Body(es: seq<(string, seq<char>)>): string
    decreases |es|
  {
    if es == [] then [] else es[0].0 + [' '] + es[0].1 + ['\n'] + Body(es[1..])
  }

  /** The header line: the record count and the vector size, a space between, a newline after. */
  function HeaderLine(count: nat, layer1Size: nat): string {
    ShowNat(count) + ([' '] + (ShowNat(layer1Size) + ['\n']))
  }

  function Serialize(layer1Size: nat, es: seq<(string, seq<char>)>): string {
    HeaderLine(|es|, layer1Size) + Body(es)
  }

  /** Records word2vec can write: words without spaces or newlines, vector blocks of `blockLen` bytes. */
  predicate Writable(blockLen: nat, es: seq<(string, seq<char>)>) {
    forall i :: 0 <= i < |es| ==> ' ' !in es[i].0 && '\n' !in es[i].0 && |es[i].1| == blockLen
  }

  lemma {:induction false} ReadLineEndAt(f: seq<char>, i: nat, e: nat)
    requires i < e <= |f| && f[e - 1] == '\n'
    requires forall j :: i <= j < e - 1 ==> f[j] != '\n'
    ensures ReadLineEnd(f, i) == e
    decreases e - i
  {
    if f[i] != '\n' {
      ReadLineEndAt(f, i + 1, e);
    }
  }

  /** `readline` stops at the header line's own newline. */
  lemma HeaderLineEnd(count: nat, layer1Size: nat, body: string)
    ensures ReadLineEnd(HeaderLine(count, layer1Size) + body, 0) == |HeaderLine(count, layer1Size)|
  {
    var a, b := ShowNat(count), ShowNat(layer1Size);
    var line := HeaderLine(count, layer1Size);
    var f := line + body;
    assert forall j :: 0 <= j < |line| - 1 ==> f[j] != '\n' by {
      assert forall j :: 0 <= j < |a| ==> f[j] == a[j];
      assert forall j :: 0 <= j < |b| ==> f[|a| + 1 + j] == b[j];
    }
    ReadLineEndAt(f, 0, |line|);
  }

  /** `header.split()` gives the two numbers' digits. */
  lemma HeaderLineFields(count: nat, layer1Size: nat)
    ensures Split(HeaderLine(count, layer1Size)) == [ShowNat(count), ShowNat(layer1Size)]
  {
    var a, b := ShowNat(count), ShowNat(layer1Size);
    SplitWord(a, [' '] + (b + ['\n']));
    SplitSpace(' ', b + ['\n']);
    SplitWord(b, ['\n']);
    SplitSpace('\n', []);
  }

  /** The header line written for `count` records of `layer1Size` floats reads back as those two numbers. */
  lemma HeaderRoundTrip(count: nat, layer1Size: nat, body: string)
    ensures ParseHeader(HeaderLine(count, layer1Size) + body)
         == Success((Header(count, layer1Size), |HeaderLine(count, layer1Size)|))
  {
    var line := HeaderLine(count, layer1Size);
    var f := line + body;
    HeaderLineEnd(count, layer1Size, body);
    HeaderLineFields(count, layer1Size);
    assert f[..|line|] == line;
  }

  /** `f` holds the bytes `x` from offset `pos` on. */
  predicate At(f: seq<char>, pos: nat, x: string) {
    pos + |x| <= |f| && forall i :: 0 <= i < |x| ==> f[pos + i] == x[i]
  }

  lemma AtSlice(f: seq<char>, pos: nat, x: string)
    requires At(f, pos, x)
    ensures pos + |x| <= |f| && f[pos..pos + |x|] == x
  {
  }

  lemma AtEnd(a: string, b: string)
    ensures At(a + b, |a|, b)
  {
    forall i | 0 <= i < |b|
      ensures (a + b)[|a| + i] == b[i]
    {
    }
  }

  /** Holding `x + y` is holding `x` and then `y`. */
  lemma AtAppend(f: seq<char>, pos: nat, x: string, y: string)
    requires At(f, pos, x + y)
    ensures At(f, pos, x) && At(f, pos + |x|, y)
  {
    forall i | 0 <= i < |x|
      ensures f[pos + i] == x[i]
    {
      assert (x + y)[i] == x[i];
    }
    forall i | 0 <= i < |y|
      ensures f[pos + |x| + i] == y[i]
    {
      assert (x + y)[|x| + i] == y[i];
    }
  }

  /** A word written at `pos` and followed by a space is what the token scan yields. */
  lemma TokenAt(f: seq<char>, pos: nat, w: string)
    requires ' ' !in w && '\n' !in w
    requires At(f, pos, w) && pos + |w| < |f| && f[pos + |w|] == ' '
    ensures ScanToken(f, pos) == Some((w, pos + |w| + 1))
  {
    assert forall j :: pos <= j < pos + |w| ==> f[j] == w[j - pos];
    ScanTokenFirstSpace(f, pos, pos + |w| + 1);
    assert f[pos..pos + |w|] == w;
  }

  /**
   * The token of a record written at `start`, where `start` is `pos` or the offset
   * just past a newline at `pos` (the one that ended the previous record).
   */
  lemma RecordToken(f: seq<char>, pos: nat, start: nat, w: string)
    requires start == pos || (start == pos + 1 && pos < |f| && f[pos] == '\n')
    requires ' ' !in w && '\n' !in w
    requires At(f, start, w) && start + |w| < |f| && f[start + |w|] == ' '
    ensures ScanToken(f, pos) == Some((w, start + |w| + 1))
  {
    TokenAt(f, start, w);
  }

  /** The records `es` stand in `f` one after another from `pos` on, as `Body` writes them. */
  predicate Layout(f: seq<char>, pos: nat, es: seq<(string, seq<char>)>)
    decreases |es|
  {
    if es == [] then pos <= |f|
    else
      var w, v := es[0].0, es[0].1;
      && At(f, pos, w) && pos + |w| < |f| && f[pos + |w|] == ' '
      && At(f, pos + |w| + 1, v)
      && pos + |w| + 1 + |v| < |f| && f[pos + |w| + 1 + |v|] == '\n'
      && Layout(f, pos + |w| + 1 + |v| + 1, es[1..])
  }

  /** The body's first record: its word, a space, its vector, a newline, then the remaining records. */
  lemma BodySplit(f: seq<char>, p: nat, es: seq<(string, seq<char>)>)
    requires es != [] && At(f, p, Body(es))
    ensures var w, v := es[0].0, es[0].1;
      && At(f, p, w) && At(f, p + |w|, [' ']) && At(f, p + |w| + 1, v)
      && At(f, p + |w| + 1 + |v|, ['\n']) && At(f, p + |w| + 1 + |v| + 1, Body(es[1..]))
  {
    var w, v := es[0].0, es[0].1;
    BodyFirst(f, p, es);
    AtAppend(f, p, w + [' '] + v, ['\n']);
    AtAppend(f, p, w + [' '], v);
    AtAppend(f, p, w, [' ']);
  }

  lemma BodyFirst(f: seq<char>, p: nat, es: seq<(string, seq<char>)>)
    requires es != [] && At(f, p, Body(es))
    ensures var w, v := es[0].0, es[0].1;
      && At(f, p, w + [' '] + v + ['\n']) && At(f, p + |w| + 1 + |v| + 1, Body(es[1..]))
  {
    var w, v := es[0].0, es[0].1;
    assert Body(es) == w + [' '] + v + ['\n'] + Body(es[1..]);
    AtAppend(f, p, w + [' '] + v + ['\n'], Body(es[1..]));
  }

  /** Written records stand in the file as `Layout` describes. */
  lemma {:induction false} LayoutOfBody(f: seq<char>, pos: nat, es: seq<(string, seq<char>)>)
    requires At(f, pos, Body(es))
    ensures Layout(f, pos, es)
    decreases |es|
  {
    if es != [] {
      var w, v := es[0].0, es[0].1;
      BodySplit(f, pos, es);
      assert f[pos + |w|] == [' '][0];
      assert f[pos + |w| + 1 + |v|] == ['\n'][0];
      LayoutOfBody(f, pos + |w| + 1 + |v| + 1, es[1..]);
    }
  }

  /** What can be written is still writable without its first record. */
  lemma WritableTail(blockLen: nat, es: seq<(string, seq<char>)>)
    requires es != [] && Writable(blockLen, es)
    ensures ' ' !in es[0].0 && '\n' !in es[0].0 && |es[0].1| == blockLen
    ensures Writable(blockLen, es[1..])
  {
    forall i | 0 <= i < |es[1..]|
      ensures ' ' !in es[1..][i].0 && '\n' !in es[1..][i].0 && |es[1..][i].1| == blockLen
    {
      assert es[1..][i] == es[i + 1];
    }
  }

  /** The entries the framing of `n` records from `pos` yields, if it succeeds. */
  function Decoded(f: seq<char>, pos: nat, n: nat, blockLen: nat): Option<seq<(string, seq<char>)>> {
    match Frames(f, pos, n, blockLen)
    case None => None
    case Some(recs) => Some(Entries(recs))
  }

  /**
   * Written records laid out from `start` frame back into exactly the written words
   * and vectors, read from `pos`, where `start` is `pos` or just past the newline
   * left over from the previous record.
   */
  lemma {:induction false} FramesOfLayout(f: seq<char>, pos: nat, start: nat, es: seq<(string, seq<char>)>, blockLen: nat)
    requires start == pos || (start == pos + 1 && pos < |f| && f[pos] == '\n')
    requires Writable(blockLen, es) && Layout(f, start, es)
    ensures Decoded(f, pos, |es|, blockLen) == Some(es)
    decreases |es|
  {
    if es == [] {
      assert Entries([]) == [];
    } else {
      var w, v := es[0].0, es[0].1;
      var e := start + |w| + 1;
      WritableTail(blockLen, es);
      RecordToken(f, pos, start, w);
      AtSlice(f, e, v);
      FramesOfLayout(f, e + |v|, e + |v| + 1, es[1..], blockLen);
      FramesCons(f, pos, |es[1..]|, blockLen, w, v, e, es[1..]);
      assert es == [(w, v)] + es[1..];
    }
  }

  /** If the first record frames as `(w, v)` and the rest as `tail`, all of them frame as `(w, v)` then `tail`. */
  lemma FramesCons(f: seq<char>, pos: nat, n: nat, blockLen: nat, w: string, v: seq<char>, e: nat, tail: seq<(string, seq<char>)>)
    requires ScanToken(f, pos) == Some((w, e))
    requires |v| == blockLen && e + |v| <= |f| && f[e..e + |v|] == v
    requires Decoded(f, e + |v|, n, blockLen) == Some(tail)
    ensures Decoded(f, pos, n + 1, blockLen) == Some([(w, v)] + tail)
  {
    var recs := Frames(f, e + blockLen, n, blockLen).value;
    assert Frames(f, pos, n + 1, blockLen) == Some([Record(w, v, pos, e)] + recs);
    EntriesCons(Record(w, v, pos, e), recs);
  }

  lemma EntriesCons(rec: Record, recs: seq<Record>)
    ensures Entries([rec] + recs) == [(rec.word, rec.block)] + Entries(recs)
  {
    var l, r := Entries([rec] + recs), [(rec.word, rec.block)] + Entries(recs);
    forall i | 0 <= i < |l|
      ensures l[i] == r[i]
    {
      if i > 0 {
        assert ([rec] + recs)[i] == recs[i - 1];
      }
    }
  }

  /** Loading a written file gives the written vectors of the vocabulary's words, the last record winning. */
  lemma LoadSerialize(layer1Size: nat, es: seq<(string, seq<char>)>, vocab: map<string, nat>)
    requires Writable(FloatSize * layer1Size, es)
    ensures Load(Serialize(layer1Size, es), vocab) == Success(Keep(es, vocab))
  {
    var f := Serialize(layer1Size, es);
    HeaderRoundTrip(|es|, layer1Size, Body(es));
    var body := |HeaderLine(|es|, layer1Size)|;
    AtEnd(HeaderLine(|es|, layer1Size), Body(es));
    LayoutOfBody(f, body, es);
    FramesOfLayout(f, body, body, es, FloatSize * layer1Size);
    LoadDecoded(f, Header(|es|, layer1Size), body, es, vocab);
  }

  /** A file whose header parses and whose records decode to `es` loads as the kept part of `es`. */
  lemma LoadDecoded(f: seq<char>, h: Header, body: nat, es: seq<(string, seq<char>)>, vocab: map<string, nat>)
    requires ParseHeader(f) == Success((h, body))
    requires Decoded(f, body, h.vocabSize, FloatSize * h.layer1Size) == Some(es)
    ensures Load(f, vocab) == Success(Keep(es, vocab))
  {
  }

  /**
   * A file with header "2 3" whose second word is not requested: only the first
   * word's 12 bytes are kept, and the second record is still read past correctly.
   */
  lemma SkipsUnrequestedWord(v1: seq<char>, v2: seq<char>)
    requires |v1| == 12 && |v2| == 12
    ensures Serialize(3, [("a", v1), ("b", v2)])[..4] == "2 3\n"
    ensures Load(Serialize(3, [("a", v1), ("b", v2)]), map["a" := 1]) == Success(map["a" := v1])
  {
    var es := [("a", v1), ("b", v2)];
    var vocab := map["a" := 1];
    assert Writable(FloatSize * 3, es);
    assert HeaderLine(2, 3) == "2 3\n" by {
      assert ShowNat(2) == "2" && ShowNat(3) == "3";
    }
    assert Serialize(3, es)[..4] == HeaderLine(2, 3);
    LoadSerialize(3, es, vocab);
    assert "b" != "a" by { assert "b"[0] != "a"[0]; }
    assert es[..1] == [("a", v1)];
    assert es[..1][..0] == [];
    assert "b" !in vocab;
    assert Keep(es, vocab) == Keep(es[..1], vocab);
    assert Keep(es[..1], vocab) == Keep(es[..1][..0], vocab)["a" := v1];
    assert Keep(es, vocab) == map["a" := v1];
  }
}
