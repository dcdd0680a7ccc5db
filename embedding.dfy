/**
 * The two steps that turn the word vectors into the network's embedding matrix:
 * `add_unknown_words`, which gives every frequent vocabulary word without a
 * pre-trained vector a random one, and `get_W`, which lays the vectors out as the
 * rows of a matrix behind a zero row and numbers the words by their row.
 *
 * A Python dict is iterated in an order the language does not fix; the model
 * takes that order as a parameter `order`, a sequence that lists each key once.
 * Vectors are sequences over an element type `R` the steps never look into.
 */
module Embedding {

  /** No element occurs twice: each element is absent from the elements before it. */
  predicate Distinct<K(==)>(s: seq<K>)
    decreases |s|
  {
    s == [] || (s[|s| - 1] !in s[..|s| - 1] && Distinct(s[..|s| - 1]))
  }

  /** `order` is an iteration order of the keys `keys`: each key exactly once. */
  predicate Enumerates<K(==)>(order: seq<K>, keys: set<K>) {
    && Distinct(order)
    && (forall i :: 0 <= i < |order| ==> order[i] in keys)
    && (forall k :: k in keys ==> k in order)
  }

  /** An enumeration is as long as the set it enumerates. */
  lemma {:induction false} EnumeratesCard<K>(order: seq<K>, keys: set<K>)
    requires Enumerates(order, keys)
    ensures |keys| == |order|
    decreases |order|
  {
    if order == [] {
      assert keys == {};
    } else {
      var last := order[|order| - 1];
      var init := order[..|order| - 1];
      assert forall i :: 0 <= i < |init| ==> init[i] == order[i];
      forall k | k in keys - {last}
        ensures k in init
      {
        var i :| 0 <= i < |order| && order[i] == k;
        assert i < |order| - 1;
      }
      forall i | 0 <= i < |init|
        ensures init[i] in keys - {last}
      {
        assert init[i] in init;
      }
      EnumeratesCard(init, keys - {last});
    }
  }

  /** `np.zeros(k)` as a row of `k` copies of the element type's zero. */
  function Zeros<R>(zero: R, k: nat): (row: seq<R>)
    ensures |row| == k
    ensures forall i :: 0 <= i < k ==> row[i] == zero
  {
    seq(k, _ => zero)
  }

  /** `w` has no vector in `m` yet and occurs in at least `minDf` documents (line 94). */
  predicate Wanted<R>(m: map<string, seq<R>>, vocab: map<string, nat>, w: string, minDf: int)
    requires w in vocab
  {
    w !in m && vocab[w] >= minDf
  }

  /**
   * Lines 93-95 over the first `|s|` words of the iteration order: the table after
   * the loop has visited `s`, and how many random vectors it has drawn. The `j`-th
   * draw, `np.random.uniform(-0.25, 0.25, k)`, is `uniform(j, k)`.
   */
  function Fill<R>(m: map<string, seq<R>>, vocab: map<string, nat>, s: seq<string>, minDf: int, k: nat,
                   uniform: (nat, nat) -> seq<R>): (map<string, seq<R>>, nat)
    requires forall i :: 0 <= i < |s| ==> s[i] in vocab
    decreases |s|
  {
    if s == [] then (m, 0)
    else
      var prev := Fill(m, vocab, s[..|s| - 1], minDf, k, uniform);
      var w := s[|s| - 1];
      if Wanted(prev.0, vocab, w, minDf) then (prev.0[w := uniform(prev.1, k)], prev.1 + 1)
      else prev
  }

  /**
   * The entries the table had keep their vectors; every new key is a word of `s`
   * counted in at least `minDf` documents, holding one of the draws made; and every
   * such word is a key afterwards.
   */
  lemma {:induction false} FillEntries<R>(m: map<string, seq<R>>, vocab: map<string, nat>, s: seq<string>, minDf: int, k: nat,
                                          uniform: (nat, nat) -> seq<R>)
    requires forall i :: 0 <= i < |s| ==> s[i] in vocab
    ensures var (m', n) := Fill(m, vocab, s, minDf, k, uniform);
      && (forall w :: w in m ==> w in m' && m'[w] == m[w])
      && (forall w :: w in m' && w !in m ==> w in s && vocab[w] >= minDf && exists j :: 0 <= j < n && m'[w] == uniform(j, k))
      && (forall i :: 0 <= i < |s| && vocab[s[i]] >= minDf ==> s[i] in m')
    decreases |s|
  {
    if s != [] {
      var init := s[..|s| - 1];
      assert forall i :: 0 <= i < |init| ==> init[i] == s[i];
      FillEntries(m, vocab, init, minDf, k, uniform);
      var (p, n) := Fill(m, vocab, init, minDf, k, uniform);
      var w := s[|s| - 1];
      forall i | 0 <= i < |s| && vocab[s[i]] >= minDf
        ensures s[i] in Fill(m, vocab, s, minDf, k, uniform).0
      {
        if i < |s| - 1 {
          assert s[i] == init[i];
        }
      }
      forall u | u in Fill(m, vocab, s, minDf, k, uniform).0 && u !in m
        ensures u in s
      {
        if u != w {
          assert u in init;
        }
      }
    }
  }

  /** Each draw goes to a word that had no vector: the table grows by exactly the number of draws. */
  lemma {:induction false} FillDraws<R>(m: map<string, seq<R>>, vocab: map<string, nat>, s: seq<string>, minDf: int, k: nat,
                                        uniform: (nat, nat) -> seq<R>)
    requires forall i :: 0 <= i < |s| ==> s[i] in vocab
    ensures |Fill(m, vocab, s, minDf, k, uniform).0| == |m| + Fill(m, vocab, s, minDf, k, uniform).1
    decreases |s|
  {
    if s != [] {
      FillDraws(m, vocab, s[..|s| - 1], minDf, k, uniform);
    }
  }

  /** A table that already holds a vector for every frequent word of `s` is left as it is, with no draw. */
  lemma {:induction false} FillNothingWanted<R>(m: map<string, seq<R>>, vocab: map<string, nat>, s: seq<string>, minDf: int, k: nat,
                                                uniform: (nat, nat) -> seq<R>)
    requires forall i :: 0 <= i < |s| ==> s[i] in vocab
    requires forall i :: 0 <= i < |s| && vocab[s[i]] >= minDf ==> s[i] in m
    ensures Fill(m, vocab, s, minDf, k, uniform) == (m, 0)
    decreases |s|
  {
    if s != [] {
      var init := s[..|s| - 1];
      assert forall i :: 0 <= i < |init| ==> init[i] == s[i];
      FillNothingWanted(m, vocab, init, minDf, k, uniform);
    }
  }

  /** Filling twice is filling once: the second call adds nothing and draws nothing. */
  lemma FillIdempotent<R>(m: map<string, seq<R>>, vocab: map<string, nat>, s: seq<string>, minDf: int, k: nat,
                          uniform: (nat, nat) -> seq<R>, uniform': (nat, nat) -> seq<R>)
    requires forall i :: 0 <= i < |s| ==> s[i] in vocab
    ensures var m' := Fill(m, vocab, s, minDf, k, uniform).0;
      Fill(m', vocab, s, minDf, k, uniform') == (m', 0)
  {
    FillEntries(m, vocab, s, minDf, k, uniform);
    FillNothingWanted(Fill(m, vocab, s, minDf, k, uniform).0, vocab, s, minDf, k, uniform');
  }

  /**
   * With the whole vocabulary visited, the keys afterwards are exactly the old keys
   * and the vocabulary words counted in at least `minDf` documents.
   */
  lemma FillKeys<R>(m: map<string, seq<R>>, vocab: map<string, nat>, order: seq<string>, minDf: int, k: nat,
                    uniform: (nat, nat) -> seq<R>)
    requires Enumerates(order, vocab.Keys)
    ensures Fill(m, vocab, order, minDf, k, uniform).0.Keys == m.Keys + set w | w in vocab && vocab[w] >= minDf
  {
    FillEntries(m, vocab, order, minDf, k, uniform);
  }

  /**
   * With draws of the requested length, every vector added has `k` entries; so a
   * table whose vectors all had `k` entries keeps that shape, as `get_W` needs.
   */
  lemma {:induction false} FillLengths<R>(m: map<string, seq<R>>, vocab: map<string, nat>, s: seq<string>, minDf: int, k: nat,
                                         uniform: (nat, nat) -> seq<R>)
    requires forall i :: 0 <= i < |s| ==> s[i] in vocab
    requires forall j, n :: |uniform(j, n)| == n
    ensures var m' := Fill(m, vocab, s, minDf, k, uniform).0;
      && (forall w :: w in m' && w !in m ==> |m'[w]| == k)
      && ((forall w :: w in m ==> |m[w]| == k) ==> forall w :: w in m' ==> |m'[w]| == k)
  {
    FillEntries(m, vocab, s, minDf, k, uniform);
  }

  /** The dictionary of word vectors that `add_unknown_words` updates in place. */
  class WordVectors<R> {
    var entries: map<string, seq<R>>

    constructor(m: map<string, seq<R>>)
      ensures entries == m
    {
      entries := m;
    }

    /**
     * `add_unknown_words(word_vecs, vocab, min_df, k)` (lines 88-95), visiting the
     * vocabulary in the order `order` and drawing the `j`-th random vector as
     * `uniform(j, k)`; returns how many vectors were drawn. Every vector it adds
     * has `k` entries.
     */
    method AddUnknownWords(vocab: map<string, nat>, order: seq<string>, minDf: int, k: nat,
                           uniform: (nat, nat) -> seq<R>)
      returns (drawn: nat)
      requires Enumerates(order, vocab.Keys)
      requires forall j, n :: |uniform(j, n)| == n
      modifies this
      ensures (entries, drawn) == Fill(old(entries), vocab, order, minDf, k, uniform)
      ensures forall w :: w in entries && w !in old(entries) ==> |entries[w]| == k
    {
      drawn := 0;
      ghost var start := entries;
      for i := 0 to |order|
        invariant (entries, drawn) == Fill(start, vocab, order[..i], minDf, k, uniform)
      {
        var word := order[i];
        assert order[..i + 1][..i] == order[..i];
        if word !in entries && vocab[word] >= minDf {
          entries := entries[word := uniform(drawn, k)];
          drawn := drawn + 1;
        }
      }
      assert order[..|order|] == order;
      FillLengths(start, vocab, order, minDf, k, uniform);
    }
  }

  /** The rows `get_W` assigns (lines 55-59): the zero row, then the vectors in iteration order. */
  function Rows<R>(wordVecs: map<string, seq<R>>, order: seq<string>, zero: R, k: nat): (rows: seq<seq<R>>)
    requires forall i :: 0 <= i < |order| ==> order[i] in wordVecs
  {
    [Zeros(zero, k)] + seq(|order|, q requires 0 <= q < |order| => wordVecs[order[q]])
  }

  /** The index map `get_W` builds (line 60): the `q`-th word visited is given row `q + 1`. */
  function Index(s: seq<string>): (idx: map<string, nat>)
    decreases |s|
  {
    if s == [] then map[] else Index(s[..|s| - 1])[s[|s| - 1] := |s|]
  }

  /** Every index names a row of the matrix, and that row came from the word itself. */
  lemma {:induction false} IndexRange(s: seq<string>)
    ensures forall w :: w in Index(s) ==> 1 <= Index(s)[w] <= |s| && s[Index(s)[w] - 1] == w
    ensures forall w :: w in Index(s) <==> w in s
    decreases |s|
  {
    if s != [] {
      var init := s[..|s| - 1];
      IndexRange(init);
      assert forall i :: 0 <= i < |init| ==> init[i] == s[i];
      forall w | w in s
        ensures w in Index(s)
      {
        var i :| 0 <= i < |s| && s[i] == w;
        if i < |s| - 1 {
          assert init[i] == w;
        }
      }
    }
  }

  /** With no word visited twice, the `q`-th word has row `q + 1`. */
  lemma {:induction false} IndexOrder(s: seq<string>)
    requires Distinct(s)
    ensures forall q :: 0 <= q < |s| ==> s[q] in Index(s) && Index(s)[s[q]] == q + 1
    decreases |s|
  {
    if s != [] {
      var init := s[..|s| - 1];
      assert forall i :: 0 <= i < |init| ==> init[i] == s[i];
      IndexOrder(init);
      forall q | 0 <= q < |init|
        ensures s[q] != s[|s| - 1]
      {
        assert init[q] in init;
      }
    }
  }

  /** The matrix of lines 53-59: `len(word_vecs) + 1` rows of `k` entries, row 0 zero. */
  lemma MatrixShape<R>(wordVecs: map<string, seq<R>>, order: seq<string>, zero: R, k: nat)
    requires Enumerates(order, wordVecs.Keys)
    requires forall w :: w in wordVecs ==> |wordVecs[w]| == k
    ensures |Rows(wordVecs, order, zero, k)| == |wordVecs| + 1
    ensures Rows(wordVecs, order, zero, k)[0] == Zeros(zero, k)
    ensures forall r :: 0 <= r < |Rows(wordVecs, order, zero, k)| ==> |Rows(wordVecs, order, zero, k)[r]| == k
  {
    EnumeratesCard(order, wordVecs.Keys);
  }

  /** The index map of lines 58-61 numbers exactly the words of `word_vecs`, and no two alike. */
  lemma IndexKeys<R>(wordVecs: map<string, seq<R>>, order: seq<string>)
    requires Enumerates(order, wordVecs.Keys)
    ensures Index(order).Keys == wordVecs.Keys
    ensures forall u, v :: u in Index(order) && v in Index(order) && u != v ==> Index(order)[u] != Index(order)[v]
  {
    IndexRange(order);
  }

  /** The row the index map gives each word is that word's vector (lines 59-60). */
  lemma IndexRows<R>(wordVecs: map<string, seq<R>>, order: seq<string>, zero: R, k: nat)
    requires Enumerates(order, wordVecs.Keys)
    ensures forall w :: w in Index(order) ==>
      && w in wordVecs
      && 1 <= Index(order)[w] < |Rows(wordVecs, order, zero, k)|
      && Rows(wordVecs, order, zero, k)[Index(order)[w]] == wordVecs[w]
  {
    IndexRange(order);
    var rows := Rows(wordVecs, order, zero, k);
    forall w | w in Index(order)
      ensures w in wordVecs && 1 <= Index(order)[w] < |rows| && rows[Index(order)[w]] == wordVecs[w]
    {
      var r := Index(order)[w];
      assert order[r - 1] == w;
      assert rows[r] == wordVecs[order[r - 1]];
    }
  }

  lemma RowOf<R>(wordVecs: map<string, seq<R>>, order: seq<string>, zero: R, k: nat, p: nat)
    requires forall i :: 0 <= i < |order| ==> order[i] in wordVecs
    requires p < |order|
    ensures |Rows(wordVecs, order, zero, k)| == |order| + 1
    ensures Rows(wordVecs, order, zero, k)[p + 1] == wordVecs[order[p]]
  {
  }

  lemma IndexStep(order: seq<string>, p: nat)
    requires p < |order|
    ensures Index(order[..p + 1]) == Index(order[..p])[order[p] := p + 1]
  {
    assert order[..p + 1][..p] == order[..p];
  }

  /**
   * `get_W(word_vecs, k)` (lines 53-62) with `word_vecs` iterated in the order
   * `order`: fills a fresh matrix of `len(word_vecs) + 1` zero rows row by row.
   */
  method GetW<R>(wordVecs: map<string, seq<R>>, order: seq<string>, zero: R, k: nat)
    returns (W: array<seq<R>>, wordIdxMap: map<string, nat>)
    requires Enumerates(order, wordVecs.Keys)
    ensures fresh(W)
    ensures W[..] == Rows(wordVecs, order, zero, k)
    ensures wordIdxMap == Index(order)
  {
    EnumeratesCard(order, wordVecs.Keys);
    ghost var rows := Rows(wordVecs, order, zero, k);
    var vocabSize := |wordVecs|;
    wordIdxMap := map[];
    W := new seq<R>[vocabSize + 1](_ => Zeros(zero, k));
    W[0] := Zeros(zero, k);
    var i := 1;
    for p := 0 to |order|
      invariant i == p + 1
      invariant forall r :: 0 <= r < i ==> W[r] == rows[r]
      invariant wordIdxMap == Index(order[..p])
    {
      var word := order[p];
      RowOf(wordVecs, order, zero, k, p);
      IndexStep(order, p);
      W[i] := wordVecs[word];
      wordIdxMap := wordIdxMap[word := i];
      i := i + 1;
    }
    assert order[..|order|] == order;
  }
}
