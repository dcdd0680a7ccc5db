# Verified model of the GEC data preparation script

`process_data4GEC.py` turns two tokenised corpora and a pre-trained word2vec file
into the inputs of a sentence classifier. It works in four steps:

- read the training and test lines, counting in how many lines each word occurs
  (`readTrainTest`, `build_data_cv`);
- load the binary word2vec vectors of the vocabulary's words (`load_bin_vec`);
- give every frequent word that has no vector a random one (`add_unknown_words`);
- lay the vectors out as an embedding matrix behind a zero row, and number the
  words by their row (`get_W`).

The script also has two string cleaners, `clean_str` and `clean_str_sst`.

The model follows the script's own form:

- The loops that change state are methods with loop invariants, each proved equal
  to a specification function. These are the byte-cursor reader, the in-place
  dictionary fill, the matrix assembly, and the line scan with its shared counter.
- The cleaners are pure functions.
- The properties the script relies on are lemmas about those functions.

| module | file | models |
|---|---|---|
| `Wrappers` | `wrappers.dfy` | `Option` and `Result` |
| `Seqs` | `seqs.dfy` | small facts about concatenation and slicing, shared by the proofs |
| `Text` | `text.dfy` | the Python 2 built-ins used on byte strings: whitespace, `lower`, `strip`, `split` |
| `Word2Vec` | `word2vec.dfy` | `load_bin_vec`: the header, the token scan, record framing, vocabulary filtering, and the cursor-driven reader methods |
| `Word2VecWriter` | `word2vec_writer.dfy` | the partner of the reader: the binary layout word2vec writes, and the round trip `Load(Serialize(layer1Size, es), vocab) == Success(Keep(es, vocab))` for entries that are `Writable(4 * layer1Size, es)`: no word holds a space or a newline, and every block has `4 * layer1Size` bytes |
| `Embedding` | `embedding.dfy` | `add_unknown_words` as a method of a class holding the dictionary, and `get_W` building an array |
| `Cleaning` | `cleaning.dfy` | `clean_str_sst` and `clean_str`, including the rewrite rules of lines 103-113 |
| `Corpus` | `corpus.dfy` | `readTrainTest` and `build_data_cv`, with the frequency dictionary as a class |

Modelling conventions:

- A binary file is a `seq<char>`, each char one byte. A Python 2 `str` is a byte
  string, so vocabulary words and decoded tokens share the type.
- A text file is the sequence of strings its successive `readline` calls return,
  each with its terminator.
- A dictionary's iteration order is a parameter `order` that lists every key once
  (`Embedding.Enumerates`).
- The `j`-th random vector of `k` entries is `uniform(j, k)`, for an arbitrary function `uniform`.

## Model

| member | source | states |
|---|---|---|
| Text.LowerChar | process_data4GEC.py:115 | `lower` on one byte maps capitals to small letters, leaves every other byte alone, and keeps whitespace whitespace |
| Text.Lower | process_data4GEC.py:123 | `lower` keeps the length and lowers each byte in place |
| Text.TrimLeft | process_data4GEC.py:36 | the result is a suffix; every byte dropped is whitespace; the first byte kept is not |
| Text.TrimRight | process_data4GEC.py:36 | the result is a prefix; every byte dropped is whitespace; the last byte kept is not |
| Text.Strip | process_data4GEC.py:115 | `strip` is the slice of the input that remains once the whitespace at both ends is dropped: only whitespace lies outside it, and it has none at either end |
| Text.Split | process_data4GEC.py:41 | `split()` yields non-empty fields without whitespace |
| Text.SplitWord | process_data4GEC.py:71 | a word followed by whitespace or by nothing is the first field of the split |
| Text.SplitSpace | process_data4GEC.py:71 | leading whitespace does not change the split |
| Text.SplitAppend | process_data4GEC.py:41 | two texts joined at whitespace split into the fields of the first followed by those of the second |
| Text.SplitStrip | process_data4GEC.py:36 | `strip` keeps the fields: `s.strip().split() == s.split()` |
| Text.SplitLower | process_data4GEC.py:36 | `lower` keeps the fields, each lowered: `s.lower().split()` is the list of the lowered fields of `s` |
| Word2Vec.ReadLineEnd | process_data4GEC.py:70 | `readline` ends just past the first newline, or at the end of the file when there is none; no newline comes before that end |
| Word2Vec.ParseHeader | process_data4GEC.py:70-71 | when the header parses, the offset of the first record lies within the file |
| Word2Vec.DropNewlines | process_data4GEC.py:80-81 | the token holds exactly the bytes of the read run other than newline; a run without newlines is kept whole; dropping never lengthens |
| Word2Vec.ScanToken | process_data4GEC.py:74-81 | a successful scan ends just past a space inside the file |
| Word2Vec.ScanTokenFirstSpace | process_data4GEC.py:75-81 | the scan stops at the first space and yields the bytes before it with every newline removed, wherever it stood |
| Word2Vec.ScanTokenSucceeds | process_data4GEC.py:75-81 | conversely, a successful scan has no space before its end, and its token is the bytes before that space without newlines |
| Word2Vec.ScanTokenFails | process_data4GEC.py:75-79 | the scan fails exactly when no space follows the cursor |
| Word2Vec.FramesFramed | process_data4GEC.py:73-85 | a successful framing has exactly `count` records, the first starts at the cursor, and each record is the scanned token and the `blockLen` bytes after it |
| Word2Vec.FramesChained | process_data4GEC.py:73-85 | each record's token starts right after the previous record's block, kept or skipped |
| Word2Vec.FramesShape | process_data4GEC.py:72-85 | the two above together: `vocab_size` records, back to back, each framed exactly |
| Word2Vec.FramedBlockLength | process_data4GEC.py:83-85 | every framed block is exactly `binary_len` bytes long |
| Word2Vec.Keep | process_data4GEC.py:82-85 | every stored key is a vocabulary word |
| Word2Vec.KeepKeys | process_data4GEC.py:82-85 | a word is stored if and only if it is in the vocabulary and some record carries it |
| Word2Vec.KeepLastWins | process_data4GEC.py:83 | a vocabulary word's stored vector is the one from the last record carrying it |
| Word2Vec.KeepValues | process_data4GEC.py:83 | every stored vector comes from a record carrying that word |
| Word2Vec.LoadedVectors | process_data4GEC.py:64-86 | a loaded word is in the vocabulary and its vector is `4 * layer1_size` bytes long |
| Word2Vec.ReadLoopFrames | process_data4GEC.py:73-85 | the record loop run after some records were kept equals keeping those records and then the framing still to read; it fails exactly when that framing does |
| Word2Vec.LoadRecordsLoop | process_data4GEC.py:72-86 | the record loop started on an empty dictionary computes the framing filtered by the vocabulary |
| Word2Vec.ReadToken | process_data4GEC.py:74-81 | the byte-at-a-time loop builds exactly the token of `ScanToken`, and leaves the cursor just past the space |
| Word2Vec.ReadRecord | process_data4GEC.py:74-85 | one iteration reads a token and skips or stores its block; the advanced cursor and the updated dictionary continue the record loop, and a short file fails it |
| Word2Vec.ReadRecords | process_data4GEC.py:72-86 | the `for line in xrange(vocab_size)` loop returns the vocabulary-filtered framing, or `Truncated` |
| Word2Vec.LoadBinVec | process_data4GEC.py:64-86 | `load_bin_vec` over the bytes returns `Load(f, vocab)` |
| Word2VecWriter.ShowNat | process_data4GEC.py:71 | the decimal digits written for `n` read back through `int` as `n` |
| Word2VecWriter.HeaderLineEnd | process_data4GEC.py:70 | `readline` stops at the header line's own newline |
| Word2VecWriter.HeaderLineFields | process_data4GEC.py:71 | `header.split()` of a written header gives the two numbers' digits |
| Word2VecWriter.HeaderRoundTrip | process_data4GEC.py:70-71 | a written header parses back to its two numbers, with the records starting right after it |
| Word2VecWriter.TokenAt | process_data4GEC.py:75-81 | a word without spaces or newlines, followed by a space, is what the token scan yields |
| Word2VecWriter.FramesOfLayout | process_data4GEC.py:72-85 | written records frame back into exactly the written words and vectors, even when vectors hold spaces or newlines |
| Word2VecWriter.LoadSerialize | process_data4GEC.py:64-86 | loading a written file gives the written vectors of the vocabulary's words, the last duplicate winning |
| Word2VecWriter.SkipsUnrequestedWord | process_data4GEC.py:82-85 | for a concrete two-record file, the unrequested second block is skipped and the first word's 12 bytes are kept |
| Embedding.EnumeratesCard | process_data4GEC.py:53-58 | an iteration order lists exactly `len(word_vecs)` words |
| Embedding.Zeros | process_data4GEC.py:55-56 | `np.zeros(k)` has `k` entries, all zero |
| Embedding.FillEntries | process_data4GEC.py:93-95 | existing entries keep their vectors; every new key is a vocabulary word counted in at least `min_df` documents, holding one of the draws of length `k`; every such visited word is a key afterwards |
| Embedding.FillLengths | process_data4GEC.py:88-95 | when each draw has the requested length, every added vector has `k` entries, so a table whose vectors all had `k` entries still has only such vectors, as `get_W` needs |
| Embedding.FillDraws | process_data4GEC.py:94-95 | the dictionary grows by exactly the number of vectors drawn |
| Embedding.FillNothingWanted | process_data4GEC.py:93-94 | when every frequent word already has a vector, nothing changes and nothing is drawn |
| Embedding.FillIdempotent | process_data4GEC.py:93-95 | a second call adds nothing and draws nothing, whatever its random vectors |
| Embedding.FillKeys | process_data4GEC.py:93-95 | after the whole vocabulary, the keys are the old keys plus the vocabulary words counted in at least `min_df` documents |
| Embedding.WordVectors.AddUnknownWords | process_data4GEC.py:88-95 | the in-place loop leaves the dictionary and the draw count that `Fill` specifies, and every vector it adds has `k` entries |
| Embedding.IndexRange | process_data4GEC.py:57-61 | every index is in `1..n` and names the word at that position; exactly the listed words are indexed |
| Embedding.IndexOrder | process_data4GEC.py:57-61 | the `q`-th word of the iteration order gets index `q + 1` |
| Embedding.MatrixShape | process_data4GEC.py:53-56 | `W` has `len(word_vecs) + 1` rows of `k` entries, and row 0 is the zero row |
| Embedding.IndexKeys | process_data4GEC.py:54-60 | `word_idx_map` has exactly the dictionary's keys and maps them one-to-one |
| Embedding.IndexRows | process_data4GEC.py:58-60 | `W[word_idx_map[w]] == word_vecs[w]` for every key `w` |
| Embedding.GetW | process_data4GEC.py:47-62 | the loop fills a fresh array with the zero row and then the vectors in iteration order, and builds the index map of that order |
| Cleaning.KeepChars | process_data4GEC.py:102 | each byte outside `[A-Za-z0-9(),!?'\`]` becomes a space; the others stay |
| Cleaning.ReplaceAll | process_data4GEC.py:103-113 | a literal substitution introduces only characters of the string or of the replacement, and changes nothing when the pattern does not occur; `Cleaning.ReplaceAllFirst` fixes what happens at the first occurrence |
| Cleaning.ReplaceAllFirst | process_data4GEC.py:103-113 | the scan is leftmost and non-overlapping: the text before the first occurrence is kept, that occurrence becomes the replacement, and the scan resumes after it, never inside the replacement |
| Cleaning.SpaceRun | process_data4GEC.py:114 | the whitespace run at the front, up to the first non-whitespace byte |
| Cleaning.Collapse | process_data4GEC.py:114 | `\s{2,}` → space leaves no two whitespace bytes side by side, adds only spaces, keeps a non-whitespace first byte, and starts with whitespace exactly when the input does; `Cleaning.SplitCollapse` shows the words survive |
| Cleaning.SplitCollapse | process_data4GEC.py:114 | collapsing whitespace runs keeps the words: `Collapse(s).split() == s.split()` |
| Cleaning.ReplaceAllCharset | process_data4GEC.py:103-113 | a substitution whose replacement is within the charset keeps the string within it |
| Cleaning.CollapseCharset | process_data4GEC.py:114 | collapsing keeps the string within the charset |
| Cleaning.NoDoubleSpaceSlice | process_data4GEC.py:115 | a slice of a string without double whitespace has none either |
| Cleaning.StripClean | process_data4GEC.py:115 | `strip` after the collapse gives a tidy string: within the charset, single spaces, and none at either end |
| Cleaning.LowerClean | process_data4GEC.py:115 | `lower` keeps a string tidy and leaves no capital letter |
| Cleaning.CleanStrSst | process_data4GEC.py:117-123 | the output holds only `[a-z0-9(),!?'\`]` and single spaces, with no space at either end |
| Cleaning.CleanStrSstWords | process_data4GEC.py:117-123 | the words of `clean_str_sst(s)` are the words of the filtered line, each lowered: only the whitespace between them changes |
| Cleaning.CollapseFixed | process_data4GEC.py:122 | a string without double whitespace is left unchanged by the collapse |
| Cleaning.CleanStrSstIdempotent | process_data4GEC.py:117-123 | cleaning an SST line twice is cleaning it once |
| Cleaning.ReplaceEachCharset | process_data4GEC.py:103-113 | a chain of substitutions whose replacements are within the charset keeps the string within it |
| Cleaning.RulesCharset | process_data4GEC.py:103-113 | the eleven rewrite patterns are non-empty literals, and their replacements add only spaces and backslashes |
| Cleaning.Tokens | process_data4GEC.py:102-114 | after the filter, the rewrites and the collapse, the string holds only kept characters, spaces and backslashes, and no double whitespace |
| Cleaning.CleanStr | process_data4GEC.py:97-115 | the output holds only kept characters, backslashes and single spaces, with no space at either end; with `TREC` false it has no capital letter |
| Cleaning.CleanStrWords | process_data4GEC.py:97-115 | the words of `clean_str(s, TREC)` are the words of the filtered and rewritten line, lowered unless `TREC`: only the whitespace between them changes |
| Cleaning.CleanStrNotIdempotent | process_data4GEC.py:103-115 | `clean_str` is not idempotent: "A'S" cleans to "a's", which cleans to "a 's", because the contraction rules match lower-case clitics only and `lower` runs after them |
| Corpus.Chomp | process_data4GEC.py:30 | `[:-1]` drops exactly the last character, if there is one |
| Corpus.KeptLines | process_data4GEC.py:29-33 | the kept lines are the input lines, each with its last character dropped, up to and excluding the first line that becomes empty |
| Corpus.AddWords | process_data4GEC.py:42-43 | the counted words afterwards are the old ones plus the line's words |
| Corpus.AddDocsCount | process_data4GEC.py:41-43 | each word's count rises by the number of lines whose tokens from index 7 contain it, once per line however often it occurs |
| Corpus.AddDocsBound | process_data4GEC.py:41-43 | no count rises by more than the number of lines |
| Corpus.AddDocsKeys | process_data4GEC.py:42-43 | a word is counted exactly when it was already counted or occurs in some line |
| Corpus.AddDocsConcat | process_data4GEC.py:17-20 | reading two files into one shared dictionary is reading their concatenation |
| Corpus.Vocabulary.Increment | process_data4GEC.py:43 | `vocab[word] += 1` on a `defaultdict`: the word's count rises by one from 0 or its old count, and nothing else changes |
| Corpus.CountWords | process_data4GEC.py:41-43 | the inner loop counts each distinct word of the line once, in whatever order the set yields them |
| Corpus.ReadTrainTest | process_data4GEC.py:25-45 | returns the kept lines and leaves the dictionary as the old counts plus the document frequencies of those lines |
| Corpus.BuildDataCv | process_data4GEC.py:8-22 | both files are read into one fresh dictionary, always cleaned; the counts are those of the training lines followed by the test lines |

## Left out

- Float decoding: `np.fromstring(..., dtype='float32')` is not modelled. A vector is its raw block of `4 * layer1_size` bytes, and byte order plays no part.
- The random vectors: `np.random.uniform(-0.25, 0.25, k)` is the function parameter `uniform`, applied to the draw's number and `k`. `Embedding.WordVectors.AddUnknownWords` requires each draw to have the length asked for. The model does not capture the range or the distribution.
- numpy array semantics: `W` is an array of rows, each a `seq`. At line 60, `W[i] = word_vecs[word]` broadcasts a vector of length 1 across all `k` cells of the row, and raises `ValueError` for any other length but `k`. The model does neither: `Embedding.Rows` keeps each vector as it is, so a vector of length 1 stays a row of length 1. `Embedding.MatrixShape` requires every vector to have length `k`, and so says nothing about the broadcast case. `Embedding.FillLengths` shows that `add_unknown_words` keeps that shape.
- Truncated or malformed word2vec files: the script has no error path for them.
  - At the end of the file, `f.read(1)` returns an empty string, so the token loop of lines 75-81 never ends.
  - A short read of a requested word's block at line 83 raises `ValueError` in `np.fromstring` when the number of bytes read is not a multiple of 4. A short read whose length is a multiple of 4 yields a shorter vector without complaint.
  - A short read of a skipped word's block at line 85 is never checked.
  - The model returns `Failure(Truncated)` in all of these cases. This is a modelling choice, not behaviour of the script.
- Word2Vec.ParseHeader: this is stricter than Python's `int()`. A header that is not two fields of decimal digits yields `Failure(BadHeader)`; the script raises `ValueError`. Signs, and anything else `int()` tolerates beyond decimal digits and whitespace, are not accepted.
- Word2Vec.ScanToken: every newline byte in a token is dropped, wherever it stands, as lines 80-81 do. This is wider than dropping only a newline just before the terminating space.
- File handling: opening and closing files is not modelled. A file is its byte string, or its sequence of `readline` results.
- Dictionary iteration order: it is a parameter. The model does not fix what order CPython would produce.
- Corpus.Vocabulary: the `defaultdict(float)` counts are `nat`. They only ever hold whole numbers.
- Text.LowerChar: Python 2 `lower` is modelled for byte strings in the C locale (ASCII only). Locale-dependent case mapping is not modelled.
- Corpus.BuildDataCv: `clean_string` is accepted and ignored, as the script does. `readTrainTest` is called with its default, so both files are always cleaned.
- The `cv` parameter of `build_data_cv` is unused by the script and has no effect in the model.
- `clean_str` keeps the Python 2 replacement templates of lines 111-113 as written. There ` \(`, ` \)` and ` \?` keep their backslash, so `(` becomes ` \( ` and is stripped to `\(`; a second pass gives `\(` again.
- `clean_str` has no idempotence lemma because it is not idempotent. The contraction rules of lines 103-108 are case-sensitive and `lower` runs only at line 115. `Cleaning.CleanStrNotIdempotent` exhibits "A'S", which cleans to "a's" and then to "a 's".
- The driver under `__main__` (lines 125-153) is out of scope: the command line, `configure`, progress output, the `cPickle` dump and `max_l`.
