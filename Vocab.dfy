/**
 * The per-language vocabulary: a symbol table from words to indices that
 * grows in first-seen order, with the three reserved indices for padding,
 * start and end of sentence, and a running occurrence count per word.
 */
module Vocabulary {
  import opened Text

  const PAD_INDEX := 0
  const SOS_INDEX := 1
  const EOS_INDEX := 2
  const PAD_TOKEN := "<PAD>"
  const SOS_TOKEN := "<SOS>"
  const EOS_TOKEN := "<EOS>"

  /** The words of a sentence as `sentence.split(' ')` yields them: cut at
      every single space, so consecutive, leading or trailing spaces (and an
      empty sentence) give empty words. */
  function Tokens(sentence: string): seq<string> {
    SplitOn(sentence, " ")
  }

  // ---------------------------------------------------------------------
  // The tables of a vocabulary as a value

  /** The four tables `Vocab` keeps and updates. */
  datatype Tables = Tables(
    word2index: map<string, int>,
    word2count: map<string, int>,
    index2word: map<int, string>,
    nWords: int)

  /** The indices in use are exactly `0 .. nWords - 1`. */
  ghost predicate IndexDomain(t: Tables) {
    forall i :: i in t.index2word <==> 0 <= i < t.nWords
  }

  /** The first three indices hold the reserved tokens. */
  ghost predicate Reserved(t: Tables) {
    && PAD_INDEX in t.index2word && t.index2word[PAD_INDEX] == PAD_TOKEN
    && SOS_INDEX in t.index2word && t.index2word[SOS_INDEX] == SOS_TOKEN
    && EOS_INDEX in t.index2word && t.index2word[EOS_INDEX] == EOS_TOKEN
  }

  /** Every added word has an index in `3 .. nWords - 1` that maps back to it. */
  ghost predicate Forward(t: Tables) {
    forall w :: w in t.word2index ==>
      && 3 <= t.word2index[w] < t.nWords
      && t.word2index[w] in t.index2word && t.index2word[t.word2index[w]] == w
  }

  /** Every index in `3 .. nWords - 1` holds an added word whose index it is. */
  ghost predicate Backward(t: Tables) {
    forall i :: 3 <= i < t.nWords ==>
      && i in t.index2word
      && t.index2word[i] in t.word2index && t.word2index[t.index2word[i]] == i
  }

  /** Every count is positive. */
  ghost predicate PositiveCounts(t: Tables) {
    forall w :: w in t.word2count ==> t.word2count[w] >= 1
  }

  /** The vocabulary invariant: the indices in use are exactly
      `0 .. nWords - 1`; the first three are the reserved tokens;
      `word2index` is a bijection from the added words onto
      `3 .. nWords - 1` with `index2word` as its inverse there; exactly the
      added words have a count, and it is positive. */
  ghost predicate Consistent(t: Tables) {
    && IndexDomain(t)
    && t.nWords == 3 + |t.word2index|
    && Reserved(t)
    && t.word2count.Keys == t.word2index.Keys
    && Forward(t)
    && Backward(t)
    && PositiveCounts(t)
  }

  /** The tables of a fresh vocabulary (`Vocab.__init__`). */
  function Initial(): Tables {
    Tables(map[], map[], map[PAD_INDEX := PAD_TOKEN, SOS_INDEX := SOS_TOKEN, EOS_INDEX := EOS_TOKEN], 3)
  }

  /** The tables once an unseen word `w` takes index `nWords` with count 1. */
  function Appended(t: Tables, w: string): Tables {
    Tables(t.word2index[w := t.nWords], t.word2count[w := 1], t.index2word[t.nWords := w], t.nWords + 1)
  }

  /** `_add_word` on the tables: an unseen word is appended; a seen word
      only has its count raised by one. */
  function AddWordTo(t: Tables, w: string): (r: Tables)
    requires t.word2count.Keys == t.word2index.Keys
    ensures r.word2count.Keys == r.word2index.Keys
  {
    if w !in t.word2index then Appended(t, w)
    else t.(word2count := t.word2count[w := t.word2count[w] + 1])
  }

  /** `add_sentence` on the tables: `_add_word` for every token, left to right. */
  function AddTokensTo(t: Tables, tokens: seq<string>): (r: Tables)
    requires t.word2count.Keys == t.word2index.Keys
    ensures r.word2count.Keys == r.word2index.Keys
    decreases |tokens|
  {
    if tokens == [] then t
    else AddWordTo(AddTokensTo(t, tokens[..|tokens| - 1]), tokens[|tokens| - 1])
  }

  lemma AddTokensSnoc(t: Tables, prefix: seq<string>, w: string)
    requires t.word2count.Keys == t.word2index.Keys
    ensures AddTokensTo(t, prefix + [w]) == AddWordTo(AddTokensTo(t, prefix), w)
  {
    assert (prefix + [w])[..|prefix|] == prefix;
  }

  /** Adding the first `i + 1` tokens adds the first `i`, then token `i`. */
  lemma AddTokensStep(t: Tables, tokens: seq<string>, i: nat)
    requires t.word2count.Keys == t.word2index.Keys
    requires i < |tokens|
    ensures AddTokensTo(t, tokens[..i + 1]) == AddWordTo(AddTokensTo(t, tokens[..i]), tokens[i])
  {
    assert tokens[..i + 1] == tokens[..i] + [tokens[i]];
    AddTokensSnoc(t, tokens[..i], tokens[i]);
  }

  lemma AddTokensAll(t: Tables, tokens: seq<string>)
    requires t.word2count.Keys == t.word2index.Keys
    ensures AddTokensTo(t, tokens[..|tokens|]) == AddTokensTo(t, tokens)
  {
    assert tokens[..|tokens|] == tokens;
  }

  /** A fresh vocabulary satisfies the invariant. */
  lemma InitialConsistent()
    ensures Consistent(Initial())
  {
    var t := Initial();
    assert forall i :: i in t.index2word <==> 0 <= i < 3;
  }

  lemma AppendedIndexDomain(t: Tables, w: string)
    requires IndexDomain(t) && t.nWords >= 0
    ensures IndexDomain(Appended(t, w))
  {
  }

  lemma AppendedSize(t: Tables, w: string)
    requires t.nWords == 3 + |t.word2index| && w !in t.word2index
    ensures Appended(t, w).nWords == 3 + |Appended(t, w).word2index|
  {
    assert Appended(t, w).word2index.Keys == t.word2index.Keys + {w};
  }

  lemma AppendedReserved(t: Tables, w: string)
    requires Reserved(t) && t.nWords >= 3
    ensures Reserved(Appended(t, w))
  {
  }

  lemma AppendedForward(t: Tables, w: string)
    requires Forward(t) && IndexDomain(t) && w !in t.word2index && t.nWords >= 3
    ensures Forward(Appended(t, w))
  {
    var r := Appended(t, w);
    forall u | u in r.word2index
      ensures 3 <= r.word2index[u] < r.nWords
      ensures r.word2index[u] in r.index2word && r.index2word[r.word2index[u]] == u
    {
      if u != w {
        assert r.word2index[u] == t.word2index[u];
      }
    }
  }

  lemma AppendedBackward(t: Tables, w: string)
    requires Backward(t) && w !in t.word2index
    ensures Backward(Appended(t, w))
  {
    var r := Appended(t, w);
    forall i | 3 <= i < r.nWords
      ensures i in r.index2word
      ensures r.index2word[i] in r.word2index && r.word2index[r.index2word[i]] == i
    {
      if i < t.nWords {
        assert r.index2word[i] == t.index2word[i];
        assert t.index2word[i] != w;
      }
    }
  }

  lemma AddNewWordConsistent(t: Tables, w: string)
    requires Consistent(t) && w !in t.word2index
    ensures Consistent(Appended(t, w))
  {
    AppendedIndexDomain(t, w);
    AppendedSize(t, w);
    AppendedReserved(t, w);
    AppendedForward(t, w);
    AppendedBackward(t, w);
  }

  lemma AddKnownWordConsistent(t: Tables, w: string)
    requires Consistent(t) && w in t.word2index
    ensures Consistent(t.(word2count := t.word2count[w := t.word2count[w] + 1]))
  {
  }

  /** `_add_word` preserves the invariant. */
  lemma AddWordConsistent(t: Tables, w: string)
    requires Consistent(t)
    ensures Consistent(AddWordTo(t, w))
  {
    if w !in t.word2index {
      AddNewWordConsistent(t, w);
    } else {
      AddKnownWordConsistent(t, w);
    }
  }

  /** `add_sentence` preserves the invariant. */
  lemma {:induction false} AddTokensConsistent(t: Tables, tokens: seq<string>)
    requires Consistent(t)
    ensures Consistent(AddTokensTo(t, tokens))
    decreases |tokens|
  {
    if tokens != [] {
      var prefix := tokens[..|tokens| - 1];
      AddTokensConsistent(t, prefix);
      AddWordConsistent(AddTokensTo(t, prefix), tokens[|tokens| - 1]);
    }
  }

  // ---------------------------------------------------------------------
  // What adding a sentence does to the tables

  /** The words of `tokens` not in `known`, each once, in the order of their
      first occurrence. */
  function NewWords(known: set<string>, tokens: seq<string>): seq<string>
    decreases |tokens|
  {
    if tokens == [] then []
    else
      var prefix := tokens[..|tokens| - 1];
      var w := tokens[|tokens| - 1];
      if w in known || w in prefix then NewWords(known, prefix)
      else NewWords(known, prefix) + [w]
  }

  lemma {:induction false} NewWordsElems(known: set<string>, tokens: seq<string>)
    ensures var nw := NewWords(known, tokens);
      && (forall i, j :: 0 <= i < j < |nw| ==> nw[i] != nw[j])
      && (forall w :: w in nw <==> w in tokens && w !in known)
    decreases |tokens|
  {
    if tokens != [] {
      var prefix := tokens[..|tokens| - 1];
      var w := tokens[|tokens| - 1];
      NewWordsElems(known, prefix);
      assert tokens == prefix + [w];
      var before := NewWords(known, prefix);
      if !(w in known || w in prefix) {
        var nw := before + [w];
        assert w !in before;
        forall i, j | 0 <= i < j < |nw| ensures nw[i] != nw[j] {
          if j == |before| {
            assert nw[i] == before[i];
          } else {
            assert nw[i] == before[i] && nw[j] == before[j];
          }
        }
      }
    }
  }

  /** The new words are distinct, unknown, and are exactly the words of
      `tokens` outside `known`; so their number is the number of distinct
      unknown words. */
  lemma NewWordsSpec(known: set<string>, tokens: seq<string>)
    ensures var nw := NewWords(known, tokens);
      && (forall i, j :: 0 <= i < j < |nw| ==> nw[i] != nw[j])
      && (forall w :: w in nw <==> w in tokens && w !in known)
      && |nw| == |(set w | w in tokens) - known|
  {
    var nw := NewWords(known, tokens);
    NewWordsElems(known, tokens);
    DistinctCard(nw, (set w | w in tokens) - known);
  }

  /** A sequence without repetitions has as many elements as its set. */
  lemma {:induction false} DistinctCard(xs: seq<string>, s: set<string>)
    requires forall i, j :: 0 <= i < j < |xs| ==> xs[i] != xs[j]
    requires forall w :: w in xs <==> w in s
    ensures |xs| == |s|
    decreases |xs|
  {
    if xs != [] {
      var last := xs[|xs| - 1];
      var init := xs[..|xs| - 1];
      assert xs == init + [last];
      DistinctCard(init, s - {last});
    } else {
      assert s == {};
    }
  }

  /** After adding `tokens`: the known words are the old ones plus every
      token (empty tokens included); old words keep their indices; the new
      words take the next free indices in first-seen order. */
  lemma {:induction false} AddTokensIndices(t: Tables, tokens: seq<string>)
    requires t.word2count.Keys == t.word2index.Keys
    ensures var r, nw := AddTokensTo(t, tokens), NewWords(t.word2index.Keys, tokens);
      && (forall w :: w in r.word2index <==> w in t.word2index || w in tokens)
      && (forall w :: w in t.word2index ==> r.word2index[w] == t.word2index[w])
      && r.nWords == t.nWords + |nw|
      && (forall k :: 0 <= k < |nw| ==> nw[k] in r.word2index && r.word2index[nw[k]] == t.nWords + k)
    decreases |tokens|
  {
    if tokens != [] {
      var prefix := tokens[..|tokens| - 1];
      var w := tokens[|tokens| - 1];
      AddTokensIndices(t, prefix);
      assert tokens == prefix + [w];
    }
  }

  /** After adding `tokens`, each word's count has risen by its number of
      occurrences among the tokens. */
  lemma {:induction false} AddTokensCounts(t: Tables, tokens: seq<string>)
    requires t.word2count.Keys == t.word2index.Keys
    ensures var r := AddTokensTo(t, tokens);
      forall w :: w in r.word2count ==>
        r.word2count[w] == (if w in t.word2count then t.word2count[w] else 0) + multiset(tokens)[w]
    decreases |tokens|
  {
    if tokens != [] {
      var prefix := tokens[..|tokens| - 1];
      var w := tokens[|tokens| - 1];
      var p := AddTokensTo(t, prefix);
      var r := AddTokensTo(t, tokens);
      AddTokensCounts(t, prefix);
      AddTokensIndices(t, prefix);
      assert tokens == prefix + [w];
      assert r == AddWordTo(p, w);
      assert multiset(tokens) == multiset(prefix) + multiset{w};
      forall x | x in r.word2count
        ensures r.word2count[x] == (if x in t.word2count then t.word2count[x] else 0) + multiset(tokens)[x]
      {
        if x == w && w !in p.word2index {
          assert x !in t.word2index && x !in prefix;
        }
      }
    }
  }

  /** Adding tokens that are all known already changes no index: only the
      counts move. */
  lemma {:induction false} AddKnownTokens(t: Tables, tokens: seq<string>)
    requires t.word2count.Keys == t.word2index.Keys
    requires forall w :: w in tokens ==> w in t.word2index
    ensures var r := AddTokensTo(t, tokens);
      r.word2index == t.word2index && r.index2word == t.index2word && r.nWords == t.nWords
    decreases |tokens|
  {
    if tokens != [] {
      var prefix := tokens[..|tokens| - 1];
      assert forall w :: w in prefix ==> w in tokens;
      AddKnownTokens(t, prefix);
    }
  }

  /** Re-adding a sentence that was just added leaves the indices alone. */
  lemma ReAddSentence(t: Tables, sentence: string)
    requires t.word2count.Keys == t.word2index.Keys
    ensures var once := AddTokensTo(t, Tokens(sentence));
      var twice := AddTokensTo(once, Tokens(sentence));
      twice.word2index == once.word2index && twice.index2word == once.index2word
      && twice.nWords == once.nWords
  {
    AddTokensIndices(t, Tokens(sentence));
    AddKnownTokens(AddTokensTo(t, Tokens(sentence)), Tokens(sentence));
  }

  // ---------------------------------------------------------------------
  // The class

  /** Word/index tables of one language (`Vocab`). */
  class Vocab {
    const langCode: string
    var cut: bool
    var word2index: map<string, int>
    var word2count: map<string, int>
    var index2word: map<int, string>
    var nWords: int

    /** The four tables as one value. */
    function State(): Tables
      reads this
    {
      Tables(word2index, word2count, index2word, nWords)
    }

    ghost predicate Valid()
      reads this
    {
      Consistent(State())
    }

    /** A fresh vocabulary knows only the three reserved tokens. */
    constructor (langCode: string)
      ensures Valid()
      ensures this.langCode == langCode && !cut
      ensures word2index == map[] && word2count == map[]
      ensures index2word == map[PAD_INDEX := PAD_TOKEN, SOS_INDEX := SOS_TOKEN, EOS_INDEX := EOS_TOKEN]
      ensures nWords == 3
    {
      this.langCode := langCode;
      cut := false;
      word2index := map[];
      word2count := map[];
      index2word := map[PAD_INDEX := PAD_TOKEN, SOS_INDEX := SOS_TOKEN, EOS_INDEX := EOS_TOKEN];
      nWords := 3;
      InitialConsistent();
    }

    /** `_add_word`: a new word takes the next free index with count 1; a
        known word only has its count raised by one; nothing else changes. */
    method AddWord(word: string)
      requires Valid()
      modifies this
      ensures Valid()
      ensures cut == old(cut)
      ensures State() == AddWordTo(old(State()), word)
    {
      ghost var before := State();
      if word !in word2index {
        word2index := word2index[word := nWords];
        word2count := word2count[word := 1];
        index2word := index2word[nWords := word];
        nWords := nWords + 1;
        assert State() == AddWordTo(before, word);
      } else {
        word2count := word2count[word := word2count[word] + 1];
        assert State() == AddWordTo(before, word);
      }
      AddWordConsistent(before, word);
    }

    /** `add_sentence`: `_add_word` on every `' '`-separated word of
        `sentence`, in order. What that does to the tables is stated by
        `AddTokensIndices`, `AddTokensCounts`, `AddKnownTokens` and
        `ReAddSentence`. */
    method AddSentence(sentence: string)
      requires Valid()
      modifies this
      ensures Valid()
      ensures cut == old(cut)
      ensures State() == AddTokensTo(old(State()), Tokens(sentence))
    {
      var tokens := Tokens(sentence);
      ghost var start := State();
      var i := 0;
      while i < |tokens|
        invariant 0 <= i <= |tokens|
        invariant cut == old(cut)
        invariant State() == AddTokensTo(start, tokens[..i])
      {
        var w := tokens[i];
        AddTokensConsistent(start, tokens[..i]);
        AddTokensStep(start, tokens, i);
        AddWord(w);
        i := i + 1;
      }
      AddTokensAll(start, tokens);
      AddTokensConsistent(start, tokens);
    }
  }
}
