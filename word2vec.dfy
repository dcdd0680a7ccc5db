/**
 * `load_bin_vec`: the reader of word2vec's binary vector file, filtered by a vocabulary.
 *
 * The file is a byte string (each char stands for one byte). It starts with a text
 * header line holding the record count and `layer1_size`; then come the records, each
 * a token read byte by byte up to the first space (every newline byte is dropped)
 * followed by exactly 4 * layer1_size bytes of float32 data. A vector is kept only when
 * its token is in the vocabulary; otherwise its bytes are read and thrown away. The
 * vector bytes are kept raw: they are never decoded as floats here.
 */
module Word2Vec {
  import opened Wrappers
  import opened Text
  import opened Seqs

  /** The two integers of the header line. */
  datatype Header = Header(vocabSize: nat, layer1Size: nat)

  datatype LoadError =
    | BadHeader   // the header line is not two decimal naturals
    | Truncated   // the file ends inside a token or inside a vector block

  /** `np.dtype('float32').itemsize` */
  const FloatSize: nat := 4

  /**
   * `f.readline()` from offset `i`: the end (exclusive) of the line that starts there,
   * which is just past the first newline, or the end of the file when there is none.
   */
  function ReadLineEnd(f: seq<char>, i: nat): (e: nat)
    requires i <= |f|
    ensures i <= e <= |f|
    ensures forall j :: i <= j < e - 1 ==> f[j] != '\n'
    ensures (i < e && f[e - 1] == '\n') || (e == |f| && forall j :: i <= j < |f| ==> f[j] != '\n')
    decreases |f| - i
  {
    if i == |f| then i
    else if f[i] == '\n' then i + 1
    else ReadLineEnd(f, i + 1)
  }

  predicate IsDecimal(s: string) {
    s != [] && forall i :: 0 <= i < |s| ==> '0' <= s[i] <= '9'
  }

  /** `int(s)` for a string of decimal digits. */
  function DecimalValue(s: string): nat
    requires IsDecimal(s)
    decreases |s|
  {
    var d := (s[|s| - 1] as int - '0' as int) as nat;
    if |s| == 1 then d else 10 * DecimalValue(s[..|s| - 1]) + d
  }

  /**
   * Lines 70-71: read the header line and split it into two integers. On success
   * the result also holds the offset of the first record.
   */
  function ParseHeader(f: seq<char>): (r: Result<(Header, nat), LoadError>)
    ensures r.Success? ==> r.value.1 <= |f|
  {
    var e := ReadLineEnd(f, 0);
    var fields := Split(f[..e]);
    if |fields| == 2 && IsDecimal(fields[0]) && IsDecimal(fields[1]) then
      Success((Header(DecimalValue(fields[0]), DecimalValue(fields[1])), e))
    else
      Failure(BadHeader)
  }

  /** Every newline byte of `s` removed, wherever it stands. */
  function DropNewlines(s: string): (r: string)
    ensures forall c :: c in r <==> c in s && c != '\n'
    ensures '\n' !in s ==> r == s
    ensures |r| <= |s|
  {
    if s == [] then []
    else (if s[0] == '\n' then [] else [s[0]]) + DropNewlines(s[1..])
  }

  /**
   * Lines 74-81: the token scan from offset `pos`, one byte at a time. It yields the
   * token and the offset just past the terminating space, or None when the file
   * ends before a space is found.
   */
  function ScanToken(f: seq<char>, pos: nat): (r: Option<(string, nat)>)
    ensures r.Some? ==> pos < r.value.1 <= |f| && f[r.value.1 - 1] == ' '
    decreases |f| - pos
  {
    if pos >= |f| then None
    else if f[pos] == ' ' then Some(([], pos + 1))
    else match ScanToken(f, pos + 1)
      case None => None
      case Some((w, e)) => Some((if f[pos] == '\n' then w else [f[pos]] + w, e))
  }

  /** The token scan stops at the first space and yields the bytes before it without their newlines. */
  lemma {:induction false} ScanTokenFirstSpace(f: seq<char>, pos: nat, e: nat)
    requires pos < e <= |f| && f[e - 1] == ' '
    requires forall j :: pos <= j < e - 1 ==> f[j] != ' '
    ensures ScanToken(f, pos) == Some((DropNewlines(f[pos..e - 1]), e))
    decreases e - pos
  {
    if f[pos] != ' ' {
      ScanTokenFirstSpace(f, pos + 1, e);
      var s := f[pos..e - 1];
      assert s[0] == f[pos] && s[1..] == f[pos + 1..e - 1];
      var w := DropNewlines(f[pos + 1..e - 1]);
      assert DropNewlines(s) == (if f[pos] == '\n' then [] else [f[pos]]) + w;
      if f[pos] == '\n' {
        assert [] + w == w;
      }
    } else {
      assert f[pos..e - 1] == [];
    }
  }

  /** The converse: a token scan that succeeds has found the first space after `pos`. */
  lemma {:induction false} ScanTokenNoSpace(f: seq<char>, pos: nat)
    requires ScanToken(f, pos).Some?
    ensures forall j :: pos <= j < ScanToken(f, pos).value.1 - 1 ==> f[j] != ' '
    decreases |f| - pos
  {
    if f[pos] != ' ' {
      ScanTokenNoSpace(f, pos + 1);
      assert ScanToken(f, pos).value.1 == ScanToken(f, pos + 1).value.1;
    }
  }

  lemma ScanTokenSucceeds(f: seq<char>, pos: nat)
    requires ScanToken(f, pos).Some?
    ensures forall j :: pos <= j < ScanToken(f, pos).value.1 - 1 ==> f[j] != ' '
    ensures ScanToken(f, pos).value.0 == DropNewlines(f[pos..ScanToken(f, pos).value.1 - 1])
  {
    ScanTokenNoSpace(f, pos);
    ScanTokenFirstSpace(f, pos, ScanToken(f, pos).value.1);
  }

  lemma {:induction false} ScanTokenFails(f: seq<char>, pos: nat)
    ensures ScanToken(f, pos).None? <==> forall j :: pos <= j < |f| ==> f[j] != ' '
    decreases |f| - pos
  {
    if pos < |f| && f[pos] != ' ' {
      ScanTokenFails(f, pos + 1);
    }
  }

  /** One record of the file: its token, its vector block, and where each starts. */
  datatype Record = Record(word: string, block: seq<char>, tokenStart: nat, blockStart: nat)

  /** The record `r` is what the file holds at `r.tokenStart` for blocks of `blockLen` bytes. */
  predicate Framed(f: seq<char>, r: Record, blockLen: nat) {
    && ScanToken(f, r.tokenStart) == Some((r.word, r.blockStart))
    && r.blockStart + blockLen <= |f|
    && r.block == f[r.blockStart..r.blockStart + blockLen]
  }

  /**
   * Lines 73-85 without the filtering: the `count` records that start at `pos`, each a
   * token and the `blockLen` bytes after it, or None when the file is too short.
   */
  function Frames(f: seq<char>, pos: nat, count: nat, blockLen: nat): Option<seq<Record>>
    decreases count
  {
    if count == 0 then Some([])
    else match ScanToken(f, pos)
      case None => None
      case Some((w, b)) =>
        if b + blockLen > |f| then None
        else match Frames(f, b + blockLen, count - 1, blockLen)
          case None => None
          case Some(rest) => Some([Record(w, f[b..b + blockLen], pos, b)] + rest)
  }

  /**
   * The framing of lines 73-85: exactly `count` records are read; the first token
   * starts at `pos`; each record's token starts right after the previous record's
   * block, whether that block was kept or skipped; and every record is what the
   * file holds at its offsets.
   */
  lemma {:induction false} FramesShape(f: seq<char>, pos: nat, count: nat, blockLen: nat)
    requires Frames(f, pos, count, blockLen).Some?
    ensures var recs := Frames(f, pos, count, blockLen).value;
      && |recs| == count
      && (count > 0 ==> recs[0].tokenStart == pos)
      && (forall i :: 0 <= i < count ==> Framed(f, recs[i], blockLen))
      && (forall i, j :: 0 <= i && j == i + 1 && j < count ==>
            recs[j].tokenStart == recs[i].blockStart + blockLen)
  {
    var recs := Frames(f, pos, count, blockLen).value;
    FramesFramed(f, pos, count, blockLen, recs);
    FramesChained(f, pos, count, blockLen, recs);
  }

  /** A non-empty framing that succeeds: its first record, then a framing of the rest that succeeds. */
  lemma FramesHead(f: seq<char>, pos: nat, count: nat, blockLen: nat, recs: seq<Record>) returns (w: string, b: nat, rest: seq<Record>)
    requires count > 0 && Frames(f, pos, count, blockLen) == Some(recs)
    ensures ScanToken(f, pos) == Some((w, b)) && b + blockLen <= |f|
    ensures Frames(f, b + blockLen, count - 1, blockLen) == Some(rest)
    ensures recs == [Record(w, f[b..b + blockLen], pos, b)] + rest
  {
    w, b := ScanToken(f, pos).value.0, ScanToken(f, pos).value.1;
    rest := Frames(f, b + blockLen, count - 1, blockLen).value;
  }

  /** After the first record of a non-empty framing, the rest frames from just past its block. */
  lemma FramesTail(f: seq<char>, pos: nat, count: nat, blockLen: nat, recs: seq<Record>) returns (rest: seq<Record>)
    requires count > 0 && Frames(f, pos, count, blockLen) == Some(recs)
    ensures recs != [] && recs == [recs[0]] + rest
    ensures Frames(f, recs[0].blockStart + blockLen, count - 1, blockLen) == Some(rest)
  {
    var w, b, r := FramesHead(f, pos, count, blockLen, recs);
    rest := r;
  }

  /** The first record of a non-empty framing starts where the framing does. */
  lemma FramesFirst(f: seq<char>, pos: nat, count: nat, blockLen: nat, recs: seq<Record>)
    requires count > 0 && Frames(f, pos, count, blockLen) == Some(recs)
    ensures recs != [] && recs[0].tokenStart == pos
  {
    var _, _, _ := FramesHead(f, pos, count, blockLen, recs);
  }

  /** The first half of `FramesShape`: the count, the first offset, and each record as the file holds it. */
  lemma {:induction false} FramesFramed(f: seq<char>, pos: nat, count: nat, blockLen: nat, recs: seq<Record>)
    requires Frames(f, pos, count, blockLen) == Some(recs)
    ensures |recs| == count
    ensures count > 0 ==> recs[0].tokenStart == pos
    ensures forall i :: 0 <= i < count ==> Framed(f, recs[i], blockLen)
    decreases count
  {
    if count > 0 {
      var w, b, rest := FramesHead(f, pos, count, blockLen, recs);
      FramesFramed(f, b + blockLen, count - 1, blockLen, rest);
      FramedCons(f, recs[0], rest, blockLen);
    }
  }

  lemma FramedCons(f: seq<char>, rec: Record, rest: seq<Record>, blockLen: nat)
    requires Framed(f, rec, blockLen)
    requires forall i :: 0 <= i < |rest| ==> Framed(f, rest[i], blockLen)
    ensures forall i :: 0 <= i < |rest| + 1 ==> Framed(f, ([rec] + rest)[i], blockLen)
  {
  }

  /** Each record's token starts right after the previous record's block. */
  predicate Chained(recs: seq<Record>, blockLen: nat) {
    forall i, j :: 0 <= i < |recs| && 0 <= j < |recs| && j == i + 1 ==> recs[j].tokenStart == recs[i].blockStart + blockLen
  }

  lemma ChainedCons(rec: Record, rest: seq<Record>, blockLen: nat)
    requires Chained(rest, blockLen)
    requires rest != [] ==> rest[0].tokenStart == rec.blockStart + blockLen
    ensures Chained([rec] + rest, blockLen)
  {
    var recs := [rec] + rest;
    forall i, j | 0 <= i < |recs| && 0 <= j < |recs| && j == i + 1
      ensures recs[j].tokenStart == recs[i].blockStart + blockLen
    {
      assert recs[j] == rest[i];
      if i > 0 {
        assert recs[i] == rest[i - 1];
      }
    }
  }

  /** The second half of `FramesShape`: each token starts where the previous block ends. */
  lemma {:induction false} FramesChained(f: seq<char>, pos: nat, count: nat, blockLen: nat, recs: seq<Record>)
    requires Frames(f, pos, count, blockLen) == Some(recs)
    ensures Chained(recs, blockLen)
    decreases count
  {
    if count > 0 {
      var rest := FramesTail(f, pos, count, blockLen, recs);
      var next := recs[0].blockStart + blockLen;
      FramesChained(f, next, count - 1, blockLen, rest);
      if count > 1 {
        FramesFirst(f, next, count - 1, blockLen, rest);
      }
      ChainedCons(recs[0], rest, blockLen);
    }
  }

  /** Every record of a successful frame has a block of exactly `blockLen` bytes. */
  lemma FramedBlockLength(f: seq<char>, r: Record, blockLen: nat)
    requires Framed(f, r, blockLen)
    ensures |r.block| == blockLen
  {
  }

  function Entries(recs: seq<Record>): (es: seq<(string, seq<char>)>)
    ensures |es| == |recs|
    ensures forall i :: 0 <= i < |recs| ==> es[i] == (recs[i].word, recs[i].block)
  {
    seq(|recs|, i requires 0 <= i < |recs| => (recs[i].word, recs[i].block))
  }

  /**
   * Lines 82-85 over all records: a vector is stored under its token when the token
   * is in the vocabulary; a later record overwrites an earlier one.
   */
  function Keep(es: seq<(string, seq<char>)>, vocab: map<string, nat>): (m: map<string, seq<char>>)
    ensures m.Keys <= vocab.Keys
    decreases |es|
  {
    if es == [] then map[]
    else
      var (w, v) := es[|es| - 1];
      var m' := Keep(es[..|es| - 1], vocab);
      if w in vocab then m'[w := v] else m'
  }

  /** A word is stored exactly when it is in the vocabulary and some record carries it. */
  lemma {:induction false} KeepKeys(es: seq<(string, seq<char>)>, vocab: map<string, nat>, w: string)
    ensures w in Keep(es, vocab) <==> w in vocab && exists i :: 0 <= i < |es| && es[i].0 == w
    decreases |es|
  {
    if es != [] {
      var init := es[..|es| - 1];
      KeepKeys(init, vocab, w);
      assert forall i :: 0 <= i < |init| ==> init[i] == es[i];
      if w in vocab && (exists i :: 0 <= i < |es| && es[i].0 == w) {
        var i :| 0 <= i < |es| && es[i].0 == w;
        if i < |init| { assert init[i].0 == w; }
      }
    }
  }

  /** The vector stored for a word is that of the LAST record carrying the word. */
  lemma {:induction false} KeepLastWins(es: seq<(string, seq<char>)>, vocab: map<string, nat>, i: nat)
    requires i < |es| && es[i].0 in vocab
    requires forall j :: i < j < |es| ==> es[j].0 != es[i].0
    ensures es[i].0 in Keep(es, vocab) && Keep(es, vocab)[es[i].0] == es[i].1
    decreases |es|
  {
    if i < |es| - 1 {
      var init := es[..|es| - 1];
      assert init[i] == es[i];
      KeepLastWins(init, vocab, i);
    }
  }

  /** Every stored vector is the vector of some record that carries the word. */
  lemma {:induction false} KeepValues(es: seq<(string, seq<char>)>, vocab: map<string, nat>, w: string)
    requires w in Keep(es, vocab)
    ensures exists i :: 0 <= i < |es| && es[i] == (w, Keep(es, vocab)[w])
    decreases |es|
  {
    var init := es[..|es| - 1];
    if es[|es| - 1].0 != w {
      KeepValues(init, vocab, w);
      var i :| 0 <= i < |init| && init[i] == (w, Keep(init, vocab)[w]);
      assert es[i] == init[i];
    }
  }

  /** What lines 72-86 return once the header `h` has been read and the records start at `body`. */
  function LoadRecords(f: seq<char>, body: nat, h: Header, vocab: map<string, nat>): Result<map<string, seq<char>>, LoadError> {
    match Frames(f, body, h.vocabSize, FloatSize * h.layer1Size)
    case None => Failure(Truncated)
    case Some(recs) => Success(Keep(Entries(recs), vocab))
  }

  /** What `load_bin_vec` returns for the file `f`. */
  function Load(f: seq<char>, vocab: map<string, nat>): Result<map<string, seq<char>>, LoadError> {
    match ParseHeader(f)
    case Failure(e) => Failure(e)
    case Success((h, body)) => LoadRecords(f, body, h, vocab)
  }

  /**
   * The loaded table holds only vocabulary words, each with a block of exactly
   * `binary_len` = 4 * layer1_size bytes taken from a record that carries the word.
   */
  lemma LoadedVectors(f: seq<char>, vocab: map<string, nat>, w: string)
    requires Load(f, vocab).Success? && w in Load(f, vocab).value
    ensures ParseHeader(f).Success?
    ensures w in vocab
    ensures |Load(f, vocab).value[w]| == FloatSize * ParseHeader(f).value.0.layer1Size
  {
    var (h, body) := ParseHeader(f).value;
    var blockLen := FloatSize * h.layer1Size;
    var recs := Frames(f, body, h.vocabSize, blockLen).value;
    var es := Entries(recs);
    KeepValues(es, vocab, w);
    var i :| 0 <= i < |es| && es[i] == (w, Keep(es, vocab)[w]);
    FramesShape(f, body, h.vocabSize, blockLen);
    FramedBlockLength(f, recs[i], blockLen);
  }

  /** `Prefix(word, r)`: the scan result `r` with `word` put in front of its token. */
  function Prefix(word: string, r: Option<(string, nat)>): Option<(string, nat)> {
    match r
    case None => None
    case Some((w, e)) => Some((word + w, e))
  }

  /**
   * The loop of lines 73-85 as a function: `left` more records are read from `pos`,
   * `acc` being the dictionary built by the iterations already done.
   */
  function ReadLoop(f: seq<char>, pos: nat, left: nat, blockLen: nat, vocab: map<string, nat>,
                    acc: map<string, seq<char>>): Result<map<string, seq<char>>, LoadError>
    decreases left
  {
    if left == 0 then Success(acc)
    else match ScanToken(f, pos)
      case None => Failure(Truncated)
      case Some((w, b)) =>
        if b + blockLen > |f| then Failure(Truncated)
        else ReadLoop(f, b + blockLen, left - 1, blockLen, vocab, if w in vocab then acc[w := f[b..b + blockLen]] else acc)
  }

  /** One iteration of the loop of lines 73-85: the record at `pos` is read and its block kept or skipped. */
  lemma ReadLoopStep(f: seq<char>, pos: nat, left: nat, blockLen: nat, vocab: map<string, nat>,
                     acc: map<string, seq<char>>, w: string, b: nat)
    requires left > 0 && ScanToken(f, pos) == Some((w, b)) && b + blockLen <= |f|
    ensures ReadLoop(f, pos, left, blockLen, vocab, acc)
         == ReadLoop(f, b + blockLen, left - 1, blockLen, vocab, if w in vocab then acc[w := f[b..b + blockLen]] else acc)
  {
  }

  /** A record that cannot be read fails the loop (lines 79 and 84 read past the end of the file). */
  lemma ReadLoopFail(f: seq<char>, pos: nat, left: nat, blockLen: nat, vocab: map<string, nat>, acc: map<string, seq<char>>)
    requires left > 0 && (ScanToken(f, pos).None? || ScanToken(f, pos).value.1 + blockLen > |f|)
    ensures ReadLoop(f, pos, left, blockLen, vocab, acc) == Failure(Truncated)
  {
  }

  /** Frames of a record that can be read: that record, then the frames after its block. */
  lemma FramesStep(f: seq<char>, pos: nat, n: nat, blockLen: nat, w: string, b: nat)
    requires n > 0 && ScanToken(f, pos) == Some((w, b)) && b + blockLen <= |f|
    ensures Frames(f, pos, n, blockLen)
         == match Frames(f, b + blockLen, n - 1, blockLen)
            case None => None
            case Some(rest) => Some([Record(w, f[b..b + blockLen], pos, b)] + rest)
  {
  }

  /** The dictionary of `recs` followed by the frames `r`, or `Truncated` when the frames cannot be read. */
  function KeptAfter(recs: seq<Record>, r: Option<seq<Record>>, vocab: map<string, nat>): Result<map<string, seq<char>>, LoadError> {
    match r
    case None => Failure(Truncated)
    case Some(rest) => Success(Keep(Entries(recs + rest), vocab))
  }

  /** The inductive step of `ReadLoopFrames`: one record read by the loop is one record of the frames. */
  lemma ReadLoopFramesStep(f: seq<char>, pos: nat, n: nat, blockLen: nat, vocab: map<string, nat>, recs: seq<Record>, w: string, b: nat)
    requires n > 0 && ScanToken(f, pos) == Some((w, b)) && b + blockLen <= |f|
    requires var rec := Record(w, f[b..b + blockLen], pos, b);
      ReadLoop(f, b + blockLen, n - 1, blockLen, vocab, Keep(Entries(recs + [rec]), vocab))
      == KeptAfter(recs + [rec], Frames(f, b + blockLen, n - 1, blockLen), vocab)
    ensures ReadLoop(f, pos, n, blockLen, vocab, Keep(Entries(recs), vocab)) == KeptAfter(recs, Frames(f, pos, n, blockLen), vocab)
  {
    var rec := Record(w, f[b..b + blockLen], pos, b);
    KeepAppend(recs, rec, vocab);
    ReadLoopStep(f, pos, n, blockLen, vocab, Keep(Entries(recs), vocab), w, b);
    FramesStep(f, pos, n, blockLen, w, b);
    match Frames(f, b + blockLen, n - 1, blockLen)
    case None =>
    case Some(rest) =>
      Assoc(recs, [rec], rest);
  }

  /**
   * Running the loop after the records `recs` have been kept is keeping `recs`
   * followed by the frames the loop still reads; the loop fails exactly when
   * those frames cannot be read.
   */
  lemma {:induction false} ReadLoopFrames(f: seq<char>, pos: nat, n: nat, blockLen: nat, vocab: map<string, nat>, recs: seq<Record>)
    ensures ReadLoop(f, pos, n, blockLen, vocab, Keep(Entries(recs), vocab)) == KeptAfter(recs, Frames(f, pos, n, blockLen), vocab)
    decreases n
  {
    if n == 0 {
      assert recs + [] == recs;
    } else if ScanToken(f, pos).None? || ScanToken(f, pos).value.1 + blockLen > |f| {
      ReadLoopFail(f, pos, n, blockLen, vocab, Keep(Entries(recs), vocab));
    } else {
      var w, b := ScanToken(f, pos).value.0, ScanToken(f, pos).value.1;
      ReadLoopFrames(f, b + blockLen, n - 1, blockLen, vocab, recs + [Record(w, f[b..b + blockLen], pos, b)]);
      ReadLoopFramesStep(f, pos, n, blockLen, vocab, recs, w, b);
    }
  }

  /** `LoadRecords` is the loop of lines 73-85 started on an empty dictionary. */
  lemma LoadRecordsLoop(f: seq<char>, body: nat, h: Header, vocab: map<string, nat>)
    ensures LoadRecords(f, body, h, vocab) == ReadLoop(f, body, h.vocabSize, FloatSize * h.layer1Size, vocab, map[])
  {
    var empty: seq<Record> := [];
    assert Keep(Entries(empty), vocab) == map[];
    ReadLoopFrames(f, body, h.vocabSize, FloatSize * h.layer1Size, vocab, empty);
    match Frames(f, body, h.vocabSize, FloatSize * h.layer1Size)
    case None =>
    case Some(rest) =>
      assert empty + rest == rest;
  }

  /** Keeping one more record is one more dictionary assignment (line 83), or none. */
  lemma KeepAppend(recs: seq<Record>, rec: Record, vocab: map<string, nat>)
    ensures Keep(Entries(recs + [rec]), vocab)
         == if rec.word in vocab then Keep(Entries(recs), vocab)[rec.word := rec.block] else Keep(Entries(recs), vocab)
  {
    var es := Entries(recs + [rec]);
    assert es[..|es| - 1] == Entries(recs);
  }

  lemma PrefixConcat(a: string, b: string, r: Option<(string, nat)>)
    ensures Prefix(a, Prefix(b, r)) == Prefix(a + b, r)
    ensures Prefix([], r) == r
  {
    match r
    case None =>
    case Some((w, e)) =>
      assert a + (b + w) == a + b + w;
      assert [] + w == w;
  }

  /** Lines 74-81: reads one token byte by byte from `pos`. */
  method ReadToken(f: seq<char>, pos: nat) returns (r: Option<(string, nat)>)
    requires pos <= |f|
    ensures r == ScanToken(f, pos)
  {
    var word: string := [];
    var p := pos;
    PrefixConcat([], [], ScanToken(f, pos));
    while true
      invariant pos <= p <= |f|
      invariant ScanToken(f, pos) == Prefix(word, ScanToken(f, p))
      decreases |f| - p
    {
      if p == |f| {
        return None;
      }
      var ch := f[p];
      p := p + 1;
      if ch == ' ' {
        assert word + [] == word;
        return Some((word, p));
      }
      if ch != '\n' {
        PrefixConcat(word, [ch], ScanToken(f, p));
        word := word + [ch];
      } else {
        PrefixConcat(word, [], ScanToken(f, p));
        assert word + [] == word;
      }
    }
  }

  /**
   * Lines 74-84: one iteration of the loop. Reads the record at `pos` and returns
   * the position after its block together with the dictionary `acc` updated with
   * the block when the word is in the vocabulary; `None` when the file ends first.
   */
  method ReadRecord(f: seq<char>, pos: nat, blockLen: nat, vocab: map<string, nat>, acc: map<string, seq<char>>, ghost left: nat)
    returns (r: Option<(nat, map<string, seq<char>>)>)
    requires pos <= |f| && left > 0
    ensures r.None? ==> ReadLoop(f, pos, left, blockLen, vocab, acc) == Failure(Truncated)
    ensures r.Some? ==> r.value.0 <= |f|
    ensures r.Some? ==> ReadLoop(f, pos, left, blockLen, vocab, acc) == ReadLoop(f, r.value.0, left - 1, blockLen, vocab, r.value.1)
  {
    var token := ReadToken(f, pos);
    if token.None? || token.value.1 + blockLen > |f| {
      ReadLoopFail(f, pos, left, blockLen, vocab, acc);
      return None;
    }
    var word, blockStart := token.value.0, token.value.1;
    ReadLoopStep(f, pos, left, blockLen, vocab, acc, word, blockStart);
    var block := f[blockStart..blockStart + blockLen];
    var wordVecs := acc;
    if word in vocab {
      wordVecs := wordVecs[word := block];
    }
    return Some((blockStart + blockLen, wordVecs));
  }

  /** Lines 72-86: reads the `h.vocabSize` records that start at `body`, keeping the vocabulary's vectors. */
  method ReadRecords(f: seq<char>, body: nat, h: Header, vocab: map<string, nat>)
    returns (r: Result<map<string, seq<char>>, LoadError>)
    requires body <= |f|
    ensures r == LoadRecords(f, body, h, vocab)
  {
    var binaryLen := FloatSize * h.layer1Size;
    var vocabSize := h.vocabSize;
    var pos: nat := body;
    var wordVecs: map<string, seq<char>> := map[];
    ghost var total := ReadLoop(f, body, vocabSize, binaryLen, vocab, wordVecs);
    for line := 0 to vocabSize
      invariant pos <= |f|
      invariant total == ReadLoop(f, pos, vocabSize - line, binaryLen, vocab, wordVecs)
    {
      var next := ReadRecord(f, pos, binaryLen, vocab, wordVecs, vocabSize - line);
      if next.None? {
        LoadRecordsLoop(f, body, h, vocab);
        return Failure(Truncated);
      }
      pos, wordVecs := next.value.0, next.value.1;
    }
    LoadRecordsLoop(f, body, h, vocab);
    return Success(wordVecs);
  }

  /**
   * `load_bin_vec(fname, vocab)` over the file's bytes `f`. The cursor moves through
   * the file as `f.read` does; a header that is not two decimal naturals yields
   * `BadHeader`, a file that ends inside a token or a vector block `Truncated`.
   */
  method LoadBinVec(f: seq<char>, vocab: map<string, nat>) returns (r: Result<map<string, seq<char>>, LoadError>)
    ensures r == Load(f, vocab)
  {
    var header := ParseHeader(f);
    if header.Failure? {
      return Failure(header.error);
    }
    var (h, body) := header.value;
    r := ReadRecords(f, body, h, vocab);
  }
}
