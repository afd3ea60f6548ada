/**
 * A one-line corpus `le chat ||| the cat` followed through `split_lines`,
 * vocabulary construction and `add_indices_from_sentence`. The spaces
 * around the delimiter stay in the fields, and `split(' ')` turns each of
 * them into an empty word, so each vocabulary ends up with six entries:
 * the three reserved tokens, the two words and the empty word.
 */
module Scenario {
  import opened Wrappers
  import opened Text
  import opened Corpus
  import opened Vocabulary
  import opened Batching

  const SOURCE_FIELD := "le chat "
  const TARGET_FIELD := " the cat"
  const LINE := SOURCE_FIELD + DELIMITER + TARGET_FIELD

  lemma SplitLinesOfLine()
    ensures SplitLines(LINE) == [[SOURCE_FIELD, TARGET_FIELD]]
  {
    assert LINE[0] == 'l' && LINE[|LINE| - 1] == 't';
    assert TrimLeft(LINE) == LINE;
    assert TrimRight(LINE) == LINE;
    assert Strip(LINE) == LINE;
    assert SplitOn(LINE, "\n") == [LINE] by {
      SplitOnAbsent(LINE, "\n");
    }
    FieldsWithoutBar();
    SplitOnAbsent(TARGET_FIELD, DELIMITER);
    SplitOnPrefix(SOURCE_FIELD, TARGET_FIELD, DELIMITER);
    assert [SOURCE_FIELD] + [TARGET_FIELD] == [SOURCE_FIELD, TARGET_FIELD];
  }

  lemma FieldsWithoutBar()
    ensures forall k :: 0 <= k < |SOURCE_FIELD| ==> SOURCE_FIELD[k] != '|'
    ensures forall k :: 0 <= k < |TARGET_FIELD| ==> TARGET_FIELD[k] != '|'
  {
  }

  /** A text without the separator's first character splits into itself. */
  lemma {:induction false} SplitOnAbsent(s: string, sep: string)
    requires |sep| > 0
    requires forall k :: 0 <= k < |s| ==> s[k] != sep[0]
    ensures SplitOn(s, sep) == [s]
    decreases |s|
  {
    if s != [] {
      assert s[0] != sep[0];
      SplitOnAbsent(s[1..], sep);
      SplitOnAtChar(s, sep);
      assert s == [s[0]] + s[1..];
    }
  }

  /** A field free of the separator's first character, then the separator:
      the field is the first field of the split. */
  lemma {:induction false} SplitOnPrefix(f: string, t: string, sep: string)
    requires |sep| > 0
    requires forall k :: 0 <= k < |f| ==> f[k] != sep[0]
    ensures SplitOn(f + sep + t, sep) == [f] + SplitOn(t, sep)
    decreases |f|
  {
    var s := f + sep + t;
    if f == [] {
      assert s == sep + t;
      assert sep <= s;
      assert s[|sep|..] == t;
      SplitOnAtSep(s, sep);
    } else {
      assert s[0] != sep[0];
      assert s[1..] == f[1..] + sep + t;
      SplitOnPrefix(f[1..], t, sep);
      SplitOnAtChar(s, sep);
      assert f == [f[0]] + f[1..];
    }
  }

  lemma TokensOfSourceField()
    ensures Tokens(SOURCE_FIELD) == ["le", "chat", ""]
  {
    assert SplitOn("", " ") == [""];
    assert SplitOn("chat" + " " + "", " ") == ["chat", ""] by {
      SplitOnPrefix("chat", "", " ");
    }
    assert SOURCE_FIELD == "le" + " " + ("chat" + " " + "");
    SplitOnPrefix("le", "chat" + " " + "", " ");
  }

  lemma TokensOfTargetField()
    ensures Tokens(TARGET_FIELD) == ["", "the", "cat"]
  {
    assert SplitOn("the" + " " + "cat", " ") == ["the", "cat"] by {
      SplitOnAbsent("cat", " ");
      SplitOnPrefix("the", "cat", " ");
    }
    assert TARGET_FIELD == "" + " " + ("the" + " " + "cat");
    SplitOnPrefix("", "the" + " " + "cat", " ");
  }

  lemma TokensOfTrimmedSource()
    ensures Tokens("le chat") == ["le", "chat"]
  {
    SplitOnAbsent("chat", " ");
    assert "le chat" == "le" + " " + "chat";
    SplitOnPrefix("le", "chat", " ");
  }

  lemma TokensOfFields()
    ensures Tokens(SOURCE_FIELD) == ["le", "chat", ""]
    ensures Tokens(TARGET_FIELD) == ["", "the", "cat"]
    ensures Tokens("le chat") == ["le", "chat"]
  {
    TokensOfSourceField();
    TokensOfTargetField();
    TokensOfTrimmedSource();
  }

  /** Adding three distinct words to a fresh vocabulary gives them indices
      3, 4 and 5, in order of appearance. */
  lemma AddThreeWords(a: string, b: string, c: string)
    requires a != b && b != c && a != c
    ensures var t := AddTokensTo(Initial(), [a, b, c]);
      && t.nWords == 6
      && t.word2index == map[a := 3, b := 4, c := 5]
      && t.index2word == map[PAD_INDEX := PAD_TOKEN, SOS_INDEX := SOS_TOKEN, EOS_INDEX := EOS_TOKEN, 3 := a, 4 := b, 5 := c]
  {
    AddTokensSnoc(Initial(), [], a);
    AddTokensSnoc(Initial(), [a], b);
    AddTokensSnoc(Initial(), [a, b], c);
    assert [a] == [] + [a] && [a, b] == [a] + [b] && [a, b, c] == [a, b] + [c];
  }

  lemma LookupThree(m: map<string, int>, a: string, b: string, c: string)
    requires a in m && b in m && c in m
    ensures LookupAll(m, [a, b, c]) == Success([m[a], m[b], m[c]])
    ensures LookupAll(m, [a, b]) == Success([m[a], m[b]])
  {
    var abc, ab := [a, b, c], [a, b];
    assert forall w :: w in abc ==> w in m;
    assert forall w :: w in ab ==> w in m;
    LookupAllSucceeds(m, abc);
    LookupAllSucceeds(m, ab);
    LookupAllValues(m, abc);
    LookupAllValues(m, ab);
    var r3, r2 := LookupAll(m, abc), LookupAll(m, ab);
    assert r3.value[0] == m[abc[0]] && r3.value[1] == m[abc[1]] && r3.value[2] == m[abc[2]];
    assert r3.value == [m[a], m[b], m[c]];
    assert r2.value[0] == m[ab[0]] && r2.value[1] == m[ab[1]];
    assert r2.value == [m[a], m[b]];
  }

  /** Three distinct words at indices 3, 4 and 5 encode in order. */
  lemma EncodeThree(a: string, b: string, c: string)
    requires a != b && b != c && a != c
    ensures LookupAll(map[a := 3, b := 4, c := 5], [a, b, c]) == Success([3, 4, 5])
    ensures LookupAll(map[a := 3, b := 4, c := 5], [a, b]) == Success([3, 4])
  {
    var m := map[a := 3, b := 4, c := 5];
    assert m[a] == 3 && m[b] == 4 && m[c] == 5;
    LookupThree(m, a, b, c);
  }

  /** Both fields encode to `[3, 4, 5, EOS]` under the tables they build. */
  lemma EncodeLine()
    ensures var srcW, tgtW := map["le" := 3, "chat" := 4, "" := 5], map["" := 3, "the" := 4, "cat" := 5];
      EncodePair([SOURCE_FIELD, TARGET_FIELD], srcW, tgtW) == Success(([3, 4, 5, EOS_INDEX], [3, 4, 5, EOS_INDEX]))
  {
    var srcW, tgtW := map["le" := 3, "chat" := 4, "" := 5], map["" := 3, "the" := 4, "cat" := 5];
    TokensOfSourceField();
    TokensOfTargetField();
    assert IndicesFromSentence(srcW, SOURCE_FIELD) == Success([3, 4, 5, EOS_INDEX]) by {
      EncodeThree("le", "chat", "");
      assert [3, 4, 5] + [EOS_INDEX] == [3, 4, 5, EOS_INDEX];
    }
    assert IndicesFromSentence(tgtW, TARGET_FIELD) == Success([3, 4, 5, EOS_INDEX]) by {
      EncodeThree("", "the", "cat");
      assert [3, 4, 5] + [EOS_INDEX] == [3, 4, 5, EOS_INDEX];
    }
    var entry := [SOURCE_FIELD, TARGET_FIELD];
    assert entry[0] == SOURCE_FIELD && entry[1] == TARGET_FIELD;
  }

  lemma IndicesOfTrimmedSource()
    ensures IndicesFromSentence(map["le" := 3, "chat" := 4, "" := 5], "le chat") == Success([3, 4, EOS_INDEX])
  {
    TokensOfTrimmedSource();
    EncodeThree("le", "chat", "");
    assert [3, 4] + [EOS_INDEX] == [3, 4, EOS_INDEX];
  }

  lemma EncodeOneEntry(entry: seq<string>, inW: map<string, int>, outW: map<string, int>, pair: IndexPair)
    requires EncodePair(entry, inW, outW) == Success(pair)
    ensures EncodePairs([entry], inW, outW) == Success([pair])
  {
    var entries := [entry];
    assert entries[..0] == [];
    assert [] + [pair] == [pair];
  }

  /** Each side's vocabulary holds six entries, and both fields encode to
      `[3, 4, 5, EOS]`; the source without its trailing space, `"le chat"`,
      encodes to `[3, 4, EOS]`. */
  lemma VocabulariesOfLine()
    ensures var src := AddTokensTo(Initial(), Tokens(SOURCE_FIELD));
      var tgt := AddTokensTo(Initial(), Tokens(TARGET_FIELD));
      && src.nWords == 6 && src.word2index == map["le" := 3, "chat" := 4, "" := 5]
      && tgt.nWords == 6 && tgt.word2index == map["" := 3, "the" := 4, "cat" := 5]
      && EncodePairs([[SOURCE_FIELD, TARGET_FIELD]], src.word2index, tgt.word2index)
         == Success([([3, 4, 5, EOS_INDEX], [3, 4, 5, EOS_INDEX])])
      && IndicesFromSentence(src.word2index, "le chat") == Success([3, 4, EOS_INDEX])
  {
    TokensOfSourceField();
    TokensOfTargetField();
    AddThreeWords("le", "chat", "");
    AddThreeWords("", "the", "cat");
    var srcW := map["le" := 3, "chat" := 4, "" := 5];
    var tgtW := map["" := 3, "the" := 4, "cat" := 5];
    EncodeLine();
    EncodeOneEntry([SOURCE_FIELD, TARGET_FIELD], srcW, tgtW, ([3, 4, 5, EOS_INDEX], [3, 4, 5, EOS_INDEX]));
    IndicesOfTrimmedSource();
  }
}
