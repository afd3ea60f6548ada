/**
 * Batch construction (`add_indices_from_sentence`, `add_padding`,
 * `mini_batch`): sentences become index sequences ending in EOS, the pairs
 * are stably sorted by source length, longest first, each side is padded
 * with PAD to its own longest sequence, and both sides are laid out
 * time-major (one row per time step, one column per pair).
 *
 * The random draw of `mini_batch` is not modelled: the method takes the
 * drawn corpus entries, in drawing order.
 */
module Batching {
  import opened Wrappers
  import opened Vocabulary

  /** A (source, target) pair of index sequences. */
  type IndexPair = (seq<int>, seq<int>)

  /** Why `mini_batch` fails (each is an uncaught Python exception). */
  datatype BatchError =
    | KeyError(word: string)  // a word the vocabulary does not know
    | IndexError              // a drawn corpus line without a source or target field
    | EmptyBatch              // nothing was drawn: `zip(*[])` cannot be unpacked into two

  /** `(input_var, input_lengths, target_var, target_lengths)`. */
  datatype Batch = Batch(
    inputVar: seq<seq<int>>,
    inputLengths: seq<int>,
    targetVar: seq<seq<int>>,
    targetLengths: seq<int>)

  // ---------------------------------------------------------------------
  // add_indices_from_sentence

  /** `[word2index[w] for w in words]`, evaluated left to right: the first
      unknown word raises a `KeyError`. */
  function LookupAll(word2index: map<string, int>, words: seq<string>): (r: Result<seq<int>, string>)
    ensures r.Success? ==> |r.value| == |words|
    decreases |words|
  {
    if words == [] then Success([])
    else if words[0] !in word2index then Failure(words[0])
    else
      match LookupAll(word2index, words[1..])
      case Success(ixs) => Success([word2index[words[0]]] + ixs)
      case Failure(w) => Failure(w)
  }

  /** The lookup succeeds exactly when every word is known. */
  lemma {:induction false} LookupAllSucceeds(word2index: map<string, int>, words: seq<string>)
    ensures LookupAll(word2index, words).Success? <==> forall w :: w in words ==> w in word2index
    decreases |words|
  {
    if words != [] {
      LookupAllSucceeds(word2index, words[1..]);
      assert forall w :: w in words <==> w == words[0] || w in words[1..] by {
        assert words == [words[0]] + words[1..];
      }
    }
  }

  /** On success, entry `k` is the index of word `k`. */
  lemma {:induction false} LookupAllValues(word2index: map<string, int>, words: seq<string>)
    requires LookupAll(word2index, words).Success?
    ensures forall k :: 0 <= k < |words| ==>
      words[k] in word2index && LookupAll(word2index, words).value[k] == word2index[words[k]]
    decreases |words|
  {
    if words != [] {
      LookupAllValues(word2index, words[1..]);
      var ixs := LookupAll(word2index, words[1..]).value;
      assert LookupAll(word2index, words).value == [word2index[words[0]]] + ixs;
    }
  }

  /** On failure, the error is the first unknown word. */
  lemma {:induction false} LookupAllFailure(word2index: map<string, int>, words: seq<string>)
    requires LookupAll(word2index, words).Failure?
    ensures var e := LookupAll(word2index, words).error;
      exists k :: 0 <= k < |words| && words[k] == e && e !in word2index
        && forall j :: 0 <= j < k ==> words[j] in word2index
    decreases |words|
  {
    var e := LookupAll(word2index, words).error;
    if words[0] in word2index {
      LookupAllFailure(word2index, words[1..]);
      var k :| 0 <= k < |words[1..]| && words[1..][k] == e && e !in word2index
        && forall j :: 0 <= j < k ==> words[1..][j] in word2index;
      assert words[k + 1] == e;
      assert forall j :: 0 <= j < k + 1 ==> words[j] in word2index by {
        forall j | 0 <= j < k + 1 ensures words[j] in word2index {
          if j > 0 {
            assert words[j] == words[1..][j - 1];
          }
        }
      }
    } else {
      assert words[0] == e;
    }
  }

  /** `add_indices_from_sentence`: the index of every `' '`-separated word,
      then EOS. Fails on the first word the vocabulary does not know. */
  function IndicesFromSentence(word2index: map<string, int>, sentence: string): (r: Result<seq<int>, string>)
    ensures r.Success? ==> |r.value| == |Tokens(sentence)| + 1 && r.value[|r.value| - 1] == EOS_INDEX
  {
    match LookupAll(word2index, Tokens(sentence))
    case Success(ixs) => Success(ixs + [EOS_INDEX])
    case Failure(w) => Failure(w)
  }

  /** The sentence encodes exactly when every word is known; then entry `k`
      is the index of word `k` and EOS ends the sequence; otherwise the error
      is the first word the vocabulary lacks. */
  lemma IndicesFromSentenceSpec(word2index: map<string, int>, sentence: string)
    ensures var r, tokens := IndicesFromSentence(word2index, sentence), Tokens(sentence);
      && (r.Success? <==> forall w :: w in tokens ==> w in word2index)
      && (r.Success? ==>
           && |r.value| == |tokens| + 1
           && r.value[|tokens|] == EOS_INDEX
           && forall k :: 0 <= k < |tokens| ==> r.value[k] == word2index[tokens[k]])
      && (r.Failure? ==>
           exists k :: 0 <= k < |tokens| && tokens[k] == r.error && r.error !in word2index
             && forall j :: 0 <= j < k ==> tokens[j] in word2index)
  {
    var tokens := Tokens(sentence);
    LookupAllSucceeds(word2index, tokens);
    var l := LookupAll(word2index, tokens);
    if l.Success? {
      LookupAllValues(word2index, tokens);
      var r := IndicesFromSentence(word2index, sentence);
      assert r.value == l.value + [EOS_INDEX];
      assert forall k :: 0 <= k < |tokens| ==> r.value[k] == l.value[k];
    } else {
      LookupAllFailure(word2index, tokens);
    }
  }

  /** One drawn corpus entry made into a pair of index sequences, in the
      order `mini_batch` evaluates it: `pair[0]`, its indices, `pair[1]`,
      its indices. */
  function EncodePair(entry: seq<string>, inW: map<string, int>, outW: map<string, int>): Result<IndexPair, BatchError> {
    if |entry| < 1 then Failure(IndexError)
    else match IndicesFromSentence(inW, entry[0])
      case Failure(w) => Failure(KeyError(w))
      case Success(src) =>
        if |entry| < 2 then Failure(IndexError)
        else match IndicesFromSentence(outW, entry[1])
          case Failure(w) => Failure(KeyError(w))
          case Success(tgt) => Success((src, tgt))
  }

  /** The drawing loop of `mini_batch` over all drawn entries: the pairs in
      drawing order, or the first failure. */
  function EncodePairs(entries: seq<seq<string>>, inW: map<string, int>, outW: map<string, int>): (r: Result<seq<IndexPair>, BatchError>)
    ensures r.Success? ==> |r.value| == |entries|
    decreases |entries|
  {
    if entries == [] then Success([])
    else
      match EncodePairs(entries[..|entries| - 1], inW, outW)
      case Failure(e) => Failure(e)
      case Success(ps) =>
        match EncodePair(entries[|entries| - 1], inW, outW)
        case Failure(e) => Failure(e)
        case Success(p) => Success(ps + [p])
  }

  /** One step of the drawing loop. */
  lemma EncodePairsSnoc(init: seq<seq<string>>, entry: seq<string>, inW: map<string, int>, outW: map<string, int>)
    ensures EncodePairs(init + [entry], inW, outW) ==
      match EncodePairs(init, inW, outW)
      case Failure(e) => Failure(e)
      case Success(ps) =>
        match EncodePair(entry, inW, outW)
        case Failure(e) => Failure(e)
        case Success(p) => Success(ps + [p])
  {
    assert (init + [entry])[..|init|] == init;
  }

  /** The batch encodes exactly when every drawn entry does, and then pairs
      the entries in drawing order. */
  lemma {:induction false} EncodePairsSuccess(entries: seq<seq<string>>, inW: map<string, int>, outW: map<string, int>)
    ensures var r := EncodePairs(entries, inW, outW);
      && (r.Success? <==> forall i :: 0 <= i < |entries| ==> EncodePair(entries[i], inW, outW).Success?)
      && (r.Success? ==> forall i :: 0 <= i < |entries| ==> Success(r.value[i]) == EncodePair(entries[i], inW, outW))
    decreases |entries|
  {
    if entries != [] {
      var n := |entries| - 1;
      var init, last := entries[..n], entries[n];
      EncodePairsSuccess(init, inW, outW);
      EncodePairsSnoc(init, last, inW, outW);
      assert entries == init + [last];
      assert forall i :: 0 <= i < n ==> init[i] == entries[i];
    }
  }

  /** A batch that does not encode fails as its first failing entry does. */
  lemma {:induction false} EncodePairsFailure(entries: seq<seq<string>>, inW: map<string, int>, outW: map<string, int>)
    ensures var r := EncodePairs(entries, inW, outW);
      r.Failure? ==>
        exists i :: 0 <= i < |entries| && EncodePair(entries[i], inW, outW) == Failure(r.error)
          && forall j :: 0 <= j < i ==> EncodePair(entries[j], inW, outW).Success?
    decreases |entries|
  {
    if entries != [] {
      var n := |entries| - 1;
      var init, last := entries[..n], entries[n];
      var r, ri := EncodePairs(entries, inW, outW), EncodePairs(init, inW, outW);
      EncodePairsSnoc(init, last, inW, outW);
      assert entries == init + [last];
      if ri.Failure? {
        EncodePairsFailure(init, inW, outW);
        var i :| 0 <= i < n && EncodePair(init[i], inW, outW) == Failure(ri.error)
          && forall j :: 0 <= j < i ==> EncodePair(init[j], inW, outW).Success?;
        assert entries[i] == init[i];
        assert forall j :: 0 <= j < i ==> entries[j] == init[j];
      } else if r.Failure? {
        EncodePairsSuccess(init, inW, outW);
        assert forall j :: 0 <= j < n ==> entries[j] == init[j];
        assert EncodePair(entries[n], inW, outW) == Failure(r.error);
      }
    }
  }

  /** Once a prefix of the drawn entries fails, the whole batch fails the
      same way. */
  lemma {:induction false} EncodePairsFailurePersists(entries: seq<seq<string>>, k: nat, inW: map<string, int>, outW: map<string, int>)
    requires k <= |entries|
    requires EncodePairs(entries[..k], inW, outW).Failure?
    ensures EncodePairs(entries, inW, outW) == EncodePairs(entries[..k], inW, outW)
    decreases |entries| - k
  {
    if k < |entries| {
      assert entries[..k + 1][..k] == entries[..k];
      EncodePairsFailurePersists(entries, k + 1, inW, outW);
    } else {
      assert entries[..k] == entries;
    }
  }

  // ---------------------------------------------------------------------
  // add_padding

  /** `add_padding`: `seq` extended with `max_length - len(seq)` zeros (none
      when it is already that long). */
  function AddPadding(s: seq<int>, maxLength: int): (r: seq<int>)
    ensures |r| == if |s| < maxLength then maxLength else |s|
    ensures r[..|s|] == s
    ensures forall i :: |s| <= i < |r| ==> r[i] == PAD_INDEX
  {
    s + seq(if |s| < maxLength then maxLength - |s| else 0, _ => 0)
  }

  /** A Python list of indices, which `add_padding` extends in place. */
  class IndexList {
    var items: seq<int>

    constructor (items: seq<int>)
      ensures this.items == items
    {
      this.items := items;
    }
  }

  /** `add_padding` on the list object itself: builds the zeros of
      `range(max_length - len(seq))`, extends `l` with them and returns the
      same list. */
  method PadInPlace(l: IndexList, maxLength: int) returns (r: IndexList)
    modifies l
    ensures r == l
    ensures l.items == AddPadding(old(l.items), maxLength)
  {
    var count := maxLength - |l.items|;
    var zeros: seq<int> := [];
    var i := 0;
    while i < count
      invariant 0 <= i && (i <= count || i == 0)
      invariant zeros == seq(i, _ => PAD_INDEX)
    {
      zeros := zeros + [PAD_INDEX];
      i := i + 1;
    }
    l.items := l.items + zeros;
    r := l;
  }

  /** Python's `max` of a non-empty list. */
  function MaxOf(xs: seq<int>): (r: int)
    requires |xs| > 0
    ensures r in xs
    ensures forall x :: x in xs ==> x <= r
    decreases |xs|
  {
    if |xs| == 1 then xs[0]
    else
      var m := MaxOf(xs[1..]);
      assert forall x :: x in xs[1..] ==> x in xs;
      assert forall x :: x in xs ==> x == xs[0] || x in xs[1..];
      if xs[0] < m then m else xs[0]
  }

  // ---------------------------------------------------------------------
  // sorted(zip(input_seqs, target_seqs), key=lambda p: len(p[0]), reverse=True)

  /** The pairs in order of non-increasing source length. */
  ghost predicate NonIncreasingSourceLengths(ps: seq<IndexPair>) {
    forall i, j :: 0 <= i < j < |ps| ==> |ps[i].0| >= |ps[j].0|
  }

  /** The pairs whose source has length `n`, in their order in `ps`. */
  function WithSourceLength(ps: seq<IndexPair>, n: int): seq<IndexPair>
    decreases |ps|
  {
    if ps == [] then []
    else (if |ps[0].0| == n then [ps[0]] else []) + WithSourceLength(ps[1..], n)
  }

  /** Puts `p` into `sorted` before the first pair whose source is not
      longer than p's. */
  function InsertBySourceLength(p: IndexPair, sorted: seq<IndexPair>): seq<IndexPair>
    decreases |sorted|
  {
    if sorted == [] || |sorted[0].0| <= |p.0| then [p] + sorted
    else [sorted[0]] + InsertBySourceLength(p, sorted[1..])
  }

  /** Python's stable `sorted` keyed on the source length, with
      `reverse=True`. */
  function SortBySourceLength(ps: seq<IndexPair>): seq<IndexPair>
    decreases |ps|
  {
    if ps == [] then []
    else InsertBySourceLength(ps[0], SortBySourceLength(ps[1..]))
  }

  lemma {:induction false} InsertPermutes(p: IndexPair, sorted: seq<IndexPair>)
    ensures multiset(InsertBySourceLength(p, sorted)) == multiset(sorted) + multiset{p}
    decreases |sorted|
  {
    if !(sorted == [] || |sorted[0].0| <= |p.0|) {
      InsertPermutes(p, sorted[1..]);
      assert sorted == [sorted[0]] + sorted[1..];
    }
  }

  lemma {:induction false} InsertKeepsOrder(p: IndexPair, sorted: seq<IndexPair>)
    requires NonIncreasingSourceLengths(sorted)
    ensures NonIncreasingSourceLengths(InsertBySourceLength(p, sorted))
    decreases |sorted|
  {
    var r := InsertBySourceLength(p, sorted);
    if sorted == [] || |sorted[0].0| <= |p.0| {
      assert forall j :: 1 <= j < |r| ==> r[j] == sorted[j - 1];
    } else {
      var tail := InsertBySourceLength(p, sorted[1..]);
      InsertKeepsOrder(p, sorted[1..]);
      InsertPermutes(p, sorted[1..]);
      assert r == [sorted[0]] + tail;
      forall j | 1 <= j < |r| ensures |r[0].0| >= |r[j].0| {
        assert r[j] == tail[j - 1];
        assert r[j] in multiset(tail);
        assert r[j] == p || r[j] in multiset(sorted[1..]);
      }
    }
  }

  lemma WithSourceLengthCons(x: IndexPair, xs: seq<IndexPair>, n: int)
    ensures WithSourceLength([x] + xs, n) == (if |x.0| == n then [x] else []) + WithSourceLength(xs, n)
  {
    assert ([x] + xs)[1..] == xs;
  }

  lemma {:induction false} InsertKeepsTies(p: IndexPair, sorted: seq<IndexPair>, n: int)
    ensures WithSourceLength(InsertBySourceLength(p, sorted), n)
         == (if |p.0| == n then [p] else []) + WithSourceLength(sorted, n)
    decreases |sorted|
  {
    if sorted == [] || |sorted[0].0| <= |p.0| {
      WithSourceLengthCons(p, sorted, n);
    } else {
      var tail := InsertBySourceLength(p, sorted[1..]);
      InsertKeepsTies(p, sorted[1..], n);
      WithSourceLengthCons(sorted[0], tail, n);
      WithSourceLengthCons(sorted[0], sorted[1..], n);
      assert sorted == [sorted[0]] + sorted[1..];
    }
  }

  /** The sort is a permutation of the pairs: sources and targets stay paired. */
  lemma {:induction false} SortPermutes(ps: seq<IndexPair>)
    ensures |SortBySourceLength(ps)| == |ps|
    ensures multiset(SortBySourceLength(ps)) == multiset(ps)
    decreases |ps|
  {
    if ps != [] {
      SortPermutes(ps[1..]);
      InsertPermutes(ps[0], SortBySourceLength(ps[1..]));
      assert ps == [ps[0]] + ps[1..];
      assert |SortBySourceLength(ps)| == |multiset(SortBySourceLength(ps))| == |multiset(ps)|;
    }
  }

  /** The sort puts longer sources first. */
  lemma {:induction false} SortOrders(ps: seq<IndexPair>)
    ensures NonIncreasingSourceLengths(SortBySourceLength(ps))
    decreases |ps|
  {
    if ps != [] {
      SortOrders(ps[1..]);
      InsertKeepsOrder(ps[0], SortBySourceLength(ps[1..]));
    }
  }

  /** The sort is stable: pairs with equal source length keep their order. */
  lemma {:induction false} SortIsStable(ps: seq<IndexPair>, n: int)
    ensures WithSourceLength(SortBySourceLength(ps), n) == WithSourceLength(ps, n)
    decreases |ps|
  {
    if ps != [] {
      SortIsStable(ps[1..], n);
      InsertKeepsTies(ps[0], SortBySourceLength(ps[1..]), n);
    }
  }

  // ---------------------------------------------------------------------
  // Lengths, padding and the time-major layout

  function Zip(xs: seq<seq<int>>, ys: seq<seq<int>>): (r: seq<IndexPair>)
    requires |xs| == |ys|
  {
    seq(|xs|, i requires 0 <= i < |xs| => (xs[i], ys[i]))
  }

  function Sources(ps: seq<IndexPair>): seq<seq<int>> {
    seq(|ps|, i requires 0 <= i < |ps| => ps[i].0)
  }

  function Targets(ps: seq<IndexPair>): seq<seq<int>> {
    seq(|ps|, i requires 0 <= i < |ps| => ps[i].1)
  }

  /** `[len(s) for s in seqs]` */
  function Lengths(seqs: seq<seq<int>>): seq<int> {
    seq(|seqs|, i requires 0 <= i < |seqs| => |seqs[i]|)
  }

  /** `[add_padding(s, width) for s in seqs]` */
  function PadAll(seqs: seq<seq<int>>, width: int): seq<seq<int>> {
    seq(|seqs|, i requires 0 <= i < |seqs| => AddPadding(seqs[i], width))
  }

  /** The tensor transpose of a rectangular matrix (`.transpose(0, 1)`). */
  function Transpose(m: seq<seq<int>>, width: nat): (r: seq<seq<int>>)
    requires forall b :: 0 <= b < |m| ==> |m[b]| == width
    ensures |r| == width
    ensures forall t :: 0 <= t < width ==> |r[t]| == |m|
    ensures forall t, b :: 0 <= t < width && 0 <= b < |m| ==> r[t][b] == m[b][t]
  {
    seq(width, t requires 0 <= t < width => seq(|m|, b requires 0 <= b < |m| => m[b][t]))
  }

  /** Transposing twice gives the matrix back. */
  lemma TransposeTwice(m: seq<seq<int>>, width: nat)
    requires forall b :: 0 <= b < |m| ==> |m[b]| == width
    ensures Transpose(Transpose(m, width), |m|) == m
  {
    var r := Transpose(Transpose(m, width), |m|);
    assert forall b :: 0 <= b < |m| ==> r[b] == m[b];
  }

  /** `m` holds `seqs` padded with PAD to `width` and laid out time-major:
      `width` rows, one column per sequence, and entry `[t][b]` is token `t`
      of sequence `b`, or PAD past that sequence's end. */
  ghost predicate IsPaddedTimeMajor(m: seq<seq<int>>, seqs: seq<seq<int>>, width: int) {
    && |m| == width
    && (forall t :: 0 <= t < |m| ==> |m[t]| == |seqs|)
    && forall t, b :: 0 <= t < |m| && 0 <= b < |seqs| ==>
         m[t][b] == if t < |seqs[b]| then seqs[b][t] else PAD_INDEX
  }

  /** Padding every sequence to the longest one and transposing gives the
      time-major layout with as many rows as the longest sequence is long. */
  lemma PadThenTranspose(seqs: seq<seq<int>>)
    requires |seqs| > 0
    ensures var width := MaxOf(Lengths(seqs));
      width >= 0
      && (forall b :: 0 <= b < |seqs| ==> |PadAll(seqs, width)[b]| == width)
      && IsPaddedTimeMajor(Transpose(PadAll(seqs, width), width), seqs, width)
  {
    var lengths := Lengths(seqs);
    var width := MaxOf(lengths);
    assert lengths[0] in lengths;
    forall b | 0 <= b < |seqs| ensures |seqs[b]| <= width {
      assert lengths[b] in lengths;
    }
  }

  // ---------------------------------------------------------------------
  // mini_batch

  /** One more drawn entry: its pair is appended, or its failure ends the
      batch. */
  lemma EncodePairsStep(drawn: seq<seq<string>>, i: nat, inW: map<string, int>, outW: map<string, int>, ps: seq<IndexPair>)
    requires i < |drawn|
    requires EncodePairs(drawn[..i], inW, outW) == Success(ps)
    ensures EncodePair(drawn[i], inW, outW).Failure? ==>
      EncodePairs(drawn, inW, outW) == Failure(EncodePair(drawn[i], inW, outW).error)
    ensures EncodePair(drawn[i], inW, outW).Success? ==>
      EncodePairs(drawn[..i + 1], inW, outW) == Success(ps + [EncodePair(drawn[i], inW, outW).value])
  {
    assert drawn[..i + 1] == drawn[..i] + [drawn[i]];
    EncodePairsSnoc(drawn[..i], drawn[i], inW, outW);
    if EncodePair(drawn[i], inW, outW).Failure? {
      EncodePairsFailurePersists(drawn, i + 1, inW, outW);
    }
  }

  lemma ZipSnoc(xs: seq<seq<int>>, ys: seq<seq<int>>, x: seq<int>, y: seq<int>)
    requires |xs| == |ys|
    ensures Zip(xs + [x], ys + [y]) == Zip(xs, ys) + [(x, y)]
  {
  }

  /** The drawing loop of `mini_batch` given the drawn entries: encodes
      each entry's source, then its target, stopping at the first entry that
      fails. */
  method EncodeDrawn(drawn: seq<seq<string>>, inW: map<string, int>, outW: map<string, int>) returns (r: Result<seq<IndexPair>, BatchError>)
    ensures r == EncodePairs(drawn, inW, outW)
  {
    var inputSeqs: seq<seq<int>> := [];
    var targetSeqs: seq<seq<int>> := [];
    var i := 0;
    assert drawn[..0] == [];
    assert Zip(inputSeqs, targetSeqs) == [];
    while i < |drawn|
      invariant 0 <= i <= |drawn|
      invariant |inputSeqs| == |targetSeqs| == i
      invariant EncodePairs(drawn[..i], inW, outW) == Success(Zip(inputSeqs, targetSeqs))
    {
      var pair := drawn[i];
      EncodePairsStep(drawn, i, inW, outW, Zip(inputSeqs, targetSeqs));
      if |pair| < 1 {
        return Failure(IndexError);
      }
      var src := IndicesFromSentence(inW, pair[0]);
      if src.Failure? {
        return Failure(KeyError(src.error));
      }
      if |pair| < 2 {
        return Failure(IndexError);
      }
      var tgt := IndicesFromSentence(outW, pair[1]);
      if tgt.Failure? {
        return Failure(KeyError(tgt.error));
      }
      ZipSnoc(inputSeqs, targetSeqs, src.value, tgt.value);
      inputSeqs := inputSeqs + [src.value];
      targetSeqs := targetSeqs + [tgt.value];
      i := i + 1;
    }
    assert drawn[..i] == drawn;
    r := Success(Zip(inputSeqs, targetSeqs));
  }

  /** `mini_batch` given the drawn corpus entries: encodes every entry,
      sorts the pairs by source length (longest first, ties in drawing
      order), records the lengths, pads each side to its own longest
      sequence and lays both out time-major. */
  method MiniBatch(drawn: seq<seq<string>>, inputLang: Vocab, outputLang: Vocab) returns (r: Result<Batch, BatchError>)
    ensures EncodePairs(drawn, inputLang.word2index, outputLang.word2index).Failure? ==>
      r == Failure(EncodePairs(drawn, inputLang.word2index, outputLang.word2index).error)
    ensures drawn == [] ==> r == Failure(EmptyBatch)
    ensures r.Success? <==> drawn != [] && EncodePairs(drawn, inputLang.word2index, outputLang.word2index).Success?
    ensures r.Success? ==>
      && drawn != []
      && EncodePairs(drawn, inputLang.word2index, outputLang.word2index).Success?
      && var sorted := SortBySourceLength(EncodePairs(drawn, inputLang.word2index, outputLang.word2index).value);
         && |sorted| == |drawn|
         && r.value.inputLengths == Lengths(Sources(sorted))
         && r.value.targetLengths == Lengths(Targets(sorted))
         && (forall i, j :: 0 <= i < j < |drawn| ==> r.value.inputLengths[i] >= r.value.inputLengths[j])
         && IsPaddedTimeMajor(r.value.inputVar, Sources(sorted), MaxOf(r.value.inputLengths))
         && IsPaddedTimeMajor(r.value.targetVar, Targets(sorted), MaxOf(r.value.targetLengths))
  {
    var encoded := EncodeDrawn(drawn, inputLang.word2index, outputLang.word2index);
    if encoded.Failure? {
      return Failure(encoded.error);
    }
    var sorted := SortBySourceLength(encoded.value);
    SortPermutes(encoded.value);
    if |sorted| == 0 {
      return Failure(EmptyBatch);
    }
    var sources, targets := Sources(sorted), Targets(sorted);
    var inputLengths := Lengths(sources);
    var maxIn := MaxOf(inputLengths);
    PadThenTranspose(sources);
    var inputVar := Transpose(PadAll(sources, maxIn), maxIn);
    var targetLengths := Lengths(targets);
    var maxOut := MaxOf(targetLengths);
    PadThenTranspose(targets);
    var targetVar := Transpose(PadAll(targets, maxOut), maxOut);
    SortOrders(encoded.value);
    r := Success(Batch(inputVar, inputLengths, targetVar, targetLengths));
  }
}
