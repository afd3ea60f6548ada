# seq2seq data preparation in Dafny

A model of the data-preparation logic of the `seq2seq.py` neural machine
translation script, with proofs about it. The modelled parts are:

- the per-language vocabulary `Vocab`, with its word/index/count tables;
- the corpus splitting of `split_lines`;
- the sentence encoding `add_indices_from_sentence`;
- the list padding `add_padding`;
- the batch construction `mini_batch`;
- the output post-processing `clean`.

Files:

- `Wrappers.dfy`: the `Result` type. Python exceptions become failures.
- `Text.dfy` (module `Text`): the Python string built-ins the code relies
  on. These are `strip`, `split(sep)`, `split()`, `sep.join` and
  `replace(old, '')`, with their properties.
- `Vocab.dfy` (module `Vocabulary`):
  - the tables as a value (`Tables`) with their invariant `Consistent`;
  - `_add_word` and `add_sentence` on that value (`AddWordTo`,
    `AddTokensTo`);
  - the class `Vocab`, whose methods update the four fields in place and
    are proved against those functions.
- `Corpus.dfy` (module `Corpus`): `split_lines` as a function of the
  file's text.
- `Batching.dfy` (module `Batching`):
  - `add_indices_from_sentence`;
  - `add_padding`, both as a function and as an in-place method on a list
    object;
  - Python's stable `sorted(..., reverse=True)` keyed on the source
    length;
  - the matrix transpose;
  - the method `MiniBatch`, which is `mini_batch` given the drawn corpus
    entries, with the encoding loop in the method `EncodeDrawn`.
- `Clean.dfy` (module `Cleaning`): `clean`.
- `Scenario.dfy` (module `Scenario`): the one-line corpus
  `le chat ||| the cat`, followed through splitting, vocabulary
  construction and encoding.

Python's run-time errors are modelled as `Failure` values carrying a
`BatchError`:

- `KeyError(word)`: a word the vocabulary does not know.
- `IndexError`: a corpus line with no `|||` field for the target.
- `EmptyBatch`: `zip(*[])` of an empty batch cannot be unpacked into two
  names.

If the spaces around `|||` were dropped, the one-line corpus
`le chat ||| the cat` would give each vocabulary five entries: the three
reserved tokens and two words. The code gives six, because the fields keep
those spaces and `split(' ')` turns each of them into an empty word, which
`_add_word` adds like any other. The model follows the code;
`Scenario.VocabulariesOfLine` states the six-entry result.

## Model

| member | source | states |
|---|---|---|
| Text.TrimLeft | seq2seq.py:93 | `s.lstrip()`; no contract of its own, `TrimLeftSpec` states what it keeps and drops |
| Text.TrimRight | seq2seq.py:93 | `s.rstrip()`; no contract of its own, `TrimRightSpec` states what it keeps and drops |
| Text.Strip | seq2seq.py:93 | `s.strip()`, the right trim of the left trim; `StripSlice` and `Cleaning.WordsOfStrip` carry its contract |
| Text.TrimLeftSpec | seq2seq.py:93 | `lstrip` keeps a suffix of the text; every dropped character is whitespace; the kept text does not start with whitespace |
| Text.TrimRightSpec | seq2seq.py:93 | `rstrip` keeps a prefix of the text; every dropped character is whitespace; the kept text does not end with whitespace |
| Text.StripSlice | seq2seq.py:93 | `strip` returns a contiguous slice of the text; everything outside the slice is whitespace; the slice neither starts nor ends with whitespace |
| Text.SplitOn | seq2seq.py:93 | `split(sep)` returns at least one field, even for the empty text |
| Text.Join | seq2seq.py:445 | `sep.join(parts)`; no contract of its own, `SplitJoin`, `WordsOfJoin` and `JoinWordsShape` state it as the inverse of the splits |
| Text.SplitJoin | seq2seq.py:95 | joining the fields of `s.split(sep)` with `sep` gives `s` back |
| Text.SplitLeftmost | seq2seq.py:95 | `split(sep)` cuts at the leftmost occurrences. No field contains `sep`, even when followed by all but the last character of `sep`, and the last field contains none |
| Text.SplitAtSpaces | seq2seq.py:445 | splitting at every whitespace character gives at least one field |
| Text.SplitAtSpacesFree | seq2seq.py:445 | no field of the whitespace split holds a whitespace character |
| Text.SplitAtSpacesJoin | seq2seq.py:445 | the fields of the whitespace split joined with `' '` give the text back with every whitespace character written as `' '`, so no character is lost or moved |
| Text.SplitAtSpacesUnique | seq2seq.py:445 | any whitespace-free fields (at least one) whose `' '`-join is the text with whitespace written as `' '` are the fields of the whitespace split; with the two rows above this determines the split completely |
| Text.NonEmpty | seq2seq.py:445 | drops the empty fields; no contract of its own, `NonEmptyFilters` states it |
| Text.NonEmptyFilters | seq2seq.py:445 | `NonEmpty` keeps a single string exactly when it is non-empty, distributes over concatenation (so keeps the non-empty fields in their order), and its members are exactly the non-empty fields |
| Text.Words | seq2seq.py:445 | `s.split()`, the non-empty fields of the whitespace split; `WordsAreWords`, `WordsOfJoin`, `SplitAtSpacesJoin` and `NonEmptyFilters` carry its contract |
| Text.WordsAreWords | seq2seq.py:445 | every element of `s.split()` is non-empty and free of whitespace |
| Text.WordsOfJoin | seq2seq.py:445 | for a list of words, `' '.join(ws).split() == ws` |
| Text.JoinWordsShape | seq2seq.py:445 | joining words with `' '` gives text that neither starts nor ends with whitespace, whose only whitespace is single `' '` characters between non-space characters, and that is empty exactly when there are no words |
| Text.RemoveAll | seq2seq.py:445 | `s.replace(pat, '')` as one left-to-right pass; `RemoveAllIsJoinOfSplit` carries its contract |
| Text.RemoveAllIsJoinOfSplit | seq2seq.py:445 | `s.replace(pat, '')` equals `''.join(s.split(pat))`, so it deletes exactly the occurrences `split` cuts at |
| Vocabulary.Tokens | seq2seq.py:68 | `sentence.split(' ')`, the cut at every single space; `Text.SplitJoin` and `Text.SplitLeftmost` carry its contract |
| Vocabulary.Initial | seq2seq.py:62-65 | the tables of a fresh `Vocab`; `InitialConsistent` states that they satisfy the invariant |
| Vocabulary.AddWordTo | seq2seq.py:71-78 | `_add_word` keeps `word2count` and `word2index` on the same set of words |
| Vocabulary.AddTokensTo | seq2seq.py:67-69 | `add_sentence` keeps `word2count` and `word2index` on the same set of words |
| Vocabulary.InitialConsistent | seq2seq.py:59-65 | the fresh tables satisfy the invariant. Indices in use are `0..n_words-1`; 0/1/2 hold `<PAD>`/`<SOS>`/`<EOS>`; `word2index` is a bijection onto `3..n_words-1` with `index2word` as its inverse; `n_words == 3 + len(word2index)`; the counts cover exactly the added words and are positive |
| Vocabulary.AddNewWordConsistent | seq2seq.py:72-76 | adding an unseen word at index `n_words` with count 1 preserves the invariant |
| Vocabulary.AddKnownWordConsistent | seq2seq.py:77-78 | raising a seen word's count preserves the invariant |
| Vocabulary.AddWordConsistent | seq2seq.py:71-78 | `_add_word` preserves the invariant |
| Vocabulary.AddTokensConsistent | seq2seq.py:67-69 | `add_sentence` preserves the invariant |
| Vocabulary.NewWordsSpec | seq2seq.py:72-76 | the words a sentence adds are distinct, are exactly its tokens outside the old vocabulary, and number as many as the distinct unknown tokens |
| Vocabulary.AddTokensIndices | seq2seq.py:67-76 | after `add_sentence` the known words are the old ones plus every token, empty tokens included. Old words keep their indices. The new words take indices `n_words, n_words+1, …` in first-seen order, and `n_words` grows by their number |
| Vocabulary.AddTokensCounts | seq2seq.py:67-78 | after `add_sentence` each word's count has risen by its number of occurrences in the sentence |
| Vocabulary.AddKnownTokens | seq2seq.py:67-78 | adding tokens that are all known leaves `word2index`, `index2word` and `n_words` unchanged |
| Vocabulary.ReAddSentence | seq2seq.py:67-78 | adding the same sentence a second time leaves `word2index`, `index2word` and `n_words` unchanged |
| Vocabulary.Vocab.constructor | seq2seq.py:59-65 | a new `Vocab` holds only the three reserved tokens, with `n_words == 3` and `cut` false, and satisfies the invariant |
| Vocabulary.Vocab.AddWord | seq2seq.py:71-78 | `_add_word` changes the four tables exactly as `AddWordTo` does and nothing else, and keeps the invariant |
| Vocabulary.Vocab.AddSentence | seq2seq.py:67-69 | `add_sentence` leaves the tables equal to `AddTokensTo` of the old tables and the sentence's `' '`-separated tokens, and keeps the invariant |
| Corpus.Lines | seq2seq.py:93 | `text.strip().split('\n')`; `LinesSpec` carries its contract |
| Corpus.SplitLines | seq2seq.py:93-95 | `split_lines` given the text; `SplitLinesSpec` carries its contract |
| Corpus.LinesSpec | seq2seq.py:93 | there is at least one line, even for an empty file. The lines joined with `'\n'` give the stripped text, and no line holds a `'\n'` |
| Corpus.SplitLinesSpec | seq2seq.py:93-95 | `split_lines` has one entry per line of the stripped text. Each entry has at least one field, its fields joined with the three-bar delimiter give the line back, and it is cut at the leftmost delimiters |
| Batching.LookupAll | seq2seq.py:119 | a successful lookup has one index per word |
| Batching.LookupAllSucceeds | seq2seq.py:119 | the lookup succeeds exactly when every word is in `word2index` |
| Batching.LookupAllValues | seq2seq.py:119 | on success, element `k` is `word2index` of word `k` |
| Batching.LookupAllFailure | seq2seq.py:119 | on failure, the error names the first word missing from `word2index` |
| Batching.IndicesFromSentence | seq2seq.py:118-119 | on success, the result has one more element than the sentence has tokens, and the last element is `EOS_index` |
| Batching.IndicesFromSentenceSpec | seq2seq.py:118-119 | the encoding succeeds exactly when every `' '`-separated token is known. Then element `k` is the index of token `k` and the last is `EOS_index` (2). Otherwise the error is the first unknown token |
| Batching.EncodePair | seq2seq.py:131-133 | one drawn entry: `pair[0]`, its indices, `pair[1]`, its indices, failing at the first of these that fails; `EncodePairsSuccess` and `EncodePairsFailure` state it per entry |
| Batching.EncodePairs | seq2seq.py:130-133 | a successful encoding has one pair per drawn entry |
| Batching.EncodePairsSuccess | seq2seq.py:130-133 | the drawn entries encode exactly when each one does. Then pair `i` is entry `i`'s source and target encoding, so the two stay paired in drawing order |
| Batching.EncodePairsFailure | seq2seq.py:130-133 | a failing batch fails with the error of its first failing entry |
| Batching.EncodePairsFailurePersists | seq2seq.py:130-133 | once the first `k` entries fail, the whole batch fails the same way |
| Batching.EncodeDrawn | seq2seq.py:126-133 | the drawing loop builds exactly the pairs of `EncodePairs`, or stops with its error |
| Batching.AddPadding | seq2seq.py:121-123 | the padded list has length `max(len(seq), max_length)`, keeps the original prefix, and every appended element is 0 |
| Batching.PadInPlace | seq2seq.py:121-123 | `add_padding` extends the list object it is given to `AddPadding` of its old contents, and returns that same object |
| Batching.MaxOf | seq2seq.py:141 | `max` of a non-empty list is an element of it and at least every element |
| Batching.SortBySourceLength | seq2seq.py:136 | the stable sort by source length, longest first; `SortPermutes`, `SortOrders` and `SortIsStable` carry its contract |
| Batching.SortPermutes | seq2seq.py:136 | the sort is a permutation of the pairs, so each source stays with its target |
| Batching.SortOrders | seq2seq.py:136 | after the sort the source lengths are non-increasing |
| Batching.SortIsStable | seq2seq.py:136 | for every length, the pairs with a source of that length keep their drawing order |
| Batching.Transpose | seq2seq.py:146-147 | the transpose of a `b × w` matrix is `w × b`, with entry `[t][b]` equal to entry `[b][t]` of the matrix |
| Batching.TransposeTwice | seq2seq.py:146-147 | transposing twice gives the matrix back |
| Batching.Lengths | seq2seq.py:140-142 | `[len(s) for s in seqs]`; `MiniBatch` states that it is taken of the unpadded sorted sequences |
| Batching.PadAll | seq2seq.py:141-143 | `[add_padding(s, width) for s in seqs]`; `PadThenTranspose` carries its contract |
| Batching.PadThenTranspose | seq2seq.py:140-147 | padding every sequence to the longest and transposing gives `max(lengths)` rows of one entry per sequence. Entry `[t][b]` is token `t` of sequence `b`, or 0 past its end |
| Batching.MiniBatch | seq2seq.py:125-149 | fails with the first entry's error when an entry fails to encode, and with `EmptyBatch` when nothing was drawn. Otherwise the lengths are those of the sorted sources and targets, taken before padding; the input lengths are non-increasing; both matrices are the padded, time-major layout of their side |
| Cleaning.Clean | seq2seq.py:445 | `clean`: the two one-pass deletions, then strip, split and single-space join; `CleanShape`, `CleanWords`, `CleanOfPlainText` and `CleanIdempotent` carry its contract |
| Cleaning.WordsOfStrip | seq2seq.py:445 | `s.strip().split() == s.split()` |
| Cleaning.CleanShape | seq2seq.py:445 | the cleaned text neither starts nor ends with whitespace. Its only whitespace is single `' '` characters between non-space characters. It is empty exactly when the text has no words once markers and `<EOS>` are deleted |
| Cleaning.CleanWords | seq2seq.py:445 | the cleaned text has the same words, in order, as the input after the two deletions |
| Cleaning.CleanOfPlainText | seq2seq.py:445 | on text without `@@ ` or `<EOS>`, `clean` only collapses whitespace: it is `' '.join(text.split())` |
| Cleaning.CleanIdempotent | seq2seq.py:445 | cleaning a cleaned text again changes nothing, when the first pass left no marker or `<EOS>` behind |
| Cleaning.CleanOfUnmarkedWord | seq2seq.py:445 | a text that is a single word once unmarked cleans to that word |
| Cleaning.UnmarkedOfNestedEos | seq2seq.py:445 | each deletion is one left-to-right pass: deleting `<EOS>` from `<<EOS>EOS>` leaves `<EOS>` |
| Cleaning.CleanIsOnePass | seq2seq.py:445 | `clean("<<EOS>EOS>") == "<EOS>"`, so the output can still hold the EOS token |
| Scenario.SplitLinesOfLine | seq2seq.py:93-95 | the one-line corpus made of `le chat`, a space, the delimiter, a space and `the cat` splits into one entry with fields `"le chat "` and `" the cat"` |
| Scenario.TokensOfFields | seq2seq.py:68 | `split(' ')` gives `["le", "chat", ""]` and `["", "the", "cat"]` for the two fields, and `["le", "chat"]` for `"le chat"` |
| Scenario.AddThreeWords | seq2seq.py:71-76 | adding three distinct words to a fresh vocabulary gives them indices 3, 4 and 5, and `n_words` becomes 6 |
| Scenario.VocabulariesOfLine | seq2seq.py:118-119 | for the one-line corpus, each vocabulary has 6 entries, counting the empty word. Both fields encode to `[3, 4, 5, EOS]`, and `"le chat"` encodes to `[3, 4, EOS]` |

## Left out

- The PyTorch parts are not modelled: the encoder and decoder modules,
  `train`, `translate`, the plotting and printing helpers, and `main`.
  They are floating-point tensor arithmetic and orchestration of library
  calls.
- Reading the corpus file and the logging in `split_lines` are not
  modelled. `SplitLines` takes the file's text as text mode returns it:
  decoded, with every `\r\n` and `\r` already turned into `\n`.
- `make_vocabs`, which feeds every training pair to `add_sentence`, is not
  modelled. Its behaviour per sentence is `Vocab.AddSentence`.
- The random draw of `mini_batch` is a parameter. `MiniBatch` takes the
  drawn corpus entries in drawing order, so `batch_size` is their number.
  An empty corpus, on which `random.choice` would raise, is not modelled.
- The tensor conversion is not modelled. `Variable(torch.LongTensor(...))`
  becomes a nested sequence of integers, and `.transpose(0, 1)` becomes
  `Transpose`. The 64-bit range of `LongTensor` is not modelled; indices
  are unbounded integers.
- MiniBatch: the sorted sequences are padded as values with `AddPadding`.
  The source instead extends the list objects themselves in place (`PadInPlace`
  models that step on one list). The lengths are taken before padding, so the
  result is the same. The aliasing between the sorted lists and the padded
  lists is not captured.
- Text.IsSpace: Python's `str.isspace` covers all Unicode whitespace, but
  the model covers only the ASCII whitespace characters, the separators
  0x1C-0x1F, NEL (0x85) and NO-BREAK SPACE (0xA0).
- Python raises exceptions where the model returns `Failure` values:
  `KeyError`, `IndexError`, and the `ValueError` of unpacking `zip(*[])`.
  Exception types beyond these are not distinguished.
- `Vocab.langCode` and `Vocab.cut` are kept as fields but no modelled
  operation reads them.
