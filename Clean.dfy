/**
 * `clean`: turns a decoded sentence back into plain text by deleting the
 * byte-pair-encoding continuation markers `@@ ` and the EOS token, then
 * collapsing every run of whitespace to one `' '`.
 */
module Cleaning {
  import opened Text
  import opened Vocabulary

  /** The marker the byte-pair encoding leaves after a word piece that the
      next piece continues. */
  const BPE_MARKER := "@@ "

  /** The text after the two deletions, before whitespace is normalised. */
  function Unmarked(strx: string): string {
    RemoveAll(RemoveAll(strx, BPE_MARKER), EOS_TOKEN)
  }

  /** `clean(strx)` */
  function Clean(strx: string): string {
    Join(Words(Strip(Unmarked(strx))), " ")
  }

  // ---------------------------------------------------------------------
  // Whitespace at either end does not change `split()`

  lemma {:induction false} SplitAtSpacesSnocSpace(s: string, c: char)
    requires IsSpace(c)
    ensures SplitAtSpaces(s + [c]) == SplitAtSpaces(s) + [""]
    decreases |s|
  {
    if s == [] {
      assert ([c])[1..] == [];
    } else {
      assert (s + [c])[1..] == s[1..] + [c];
      SplitAtSpacesSnocSpace(s[1..], c);
    }
  }

  lemma {:induction false} NonEmptySnocEmpty(fields: seq<string>)
    ensures NonEmpty(fields + [""]) == NonEmpty(fields)
    decreases |fields|
  {
    if fields == [] {
      assert [""][1..] == [];
    } else {
      assert (fields + [""])[1..] == fields[1..] + [""];
      NonEmptySnocEmpty(fields[1..]);
    }
  }

  lemma {:induction false} WordsOfTrimLeft(s: string)
    ensures Words(TrimLeft(s)) == Words(s)
    decreases |s|
  {
    if s != [] && IsSpace(s[0]) {
      WordsOfTrimLeft(s[1..]);
      var rest := SplitAtSpaces(s[1..]);
      assert ([""] + rest)[1..] == rest;
    }
  }

  lemma {:induction false} WordsOfTrimRight(s: string)
    ensures Words(TrimRight(s)) == Words(s)
    decreases |s|
  {
    if s != [] && IsSpace(s[|s| - 1]) {
      var init := s[..|s| - 1];
      WordsOfTrimRight(init);
      assert s == init + [s[|s| - 1]];
      SplitAtSpacesSnocSpace(init, s[|s| - 1]);
      NonEmptySnocEmpty(SplitAtSpaces(init));
    }
  }

  /** `s.strip().split() == s.split()` */
  lemma WordsOfStrip(s: string)
    ensures Words(Strip(s)) == Words(s)
  {
    WordsOfTrimLeft(s);
    WordsOfTrimRight(TrimLeft(s));
  }

  // ---------------------------------------------------------------------
  // What clean promises

  /** The cleaned text is normalised: it neither starts nor ends with
      whitespace, and its only whitespace is single `' '` characters between
      two non-space characters; it is empty exactly when the unmarked text
      holds no word. */
  lemma CleanShape(strx: string)
    ensures var r := Clean(strx);
      && (r == [] <==> Words(Unmarked(strx)) == [])
      && (r != [] ==> !IsSpace(r[0]) && !IsSpace(r[|r| - 1]))
      && forall k :: 0 <= k < |r| && IsSpace(r[k]) ==>
           r[k] == ' ' && 0 < k < |r| - 1 && !IsSpace(r[k - 1]) && !IsSpace(r[k + 1])
  {
    var u := Strip(Unmarked(strx));
    WordsAreWords(u);
    JoinWordsShape(Words(u));
    WordsOfStrip(Unmarked(strx));
  }

  /** The cleaned text holds the same words, in the same order, as the input
      once the markers and the EOS token are deleted. */
  lemma CleanWords(strx: string)
    ensures Words(Clean(strx)) == Words(Unmarked(strx))
  {
    var u := Strip(Unmarked(strx));
    WordsAreWords(u);
    WordsOfJoin(Words(u));
    WordsOfStrip(Unmarked(strx));
  }

  lemma {:induction false} RemoveAllAbsent(s: string, pat: string)
    requires |pat| > 0
    requires !Occurs(pat, s)
    ensures RemoveAll(s, pat) == s
    decreases |s|
  {
    if s != [] {
      RemoveAllAbsent(s[1..], pat);
      assert s == [s[0]] + s[1..];
    }
  }

  /** On a text holding neither a marker nor the EOS token, `clean` only
      normalises the whitespace. */
  lemma CleanOfPlainText(strx: string)
    requires !Occurs(BPE_MARKER, strx) && !Occurs(EOS_TOKEN, strx)
    ensures Clean(strx) == Join(Words(strx), " ")
  {
    RemoveAllAbsent(strx, BPE_MARKER);
    RemoveAllAbsent(strx, EOS_TOKEN);
    WordsOfStrip(strx);
  }

  /** Cleaning a cleaned text changes nothing, unless the first pass left a
      marker or an EOS token behind (see `CleanIsOnePass`). */
  lemma CleanIdempotent(strx: string)
    requires !Occurs(BPE_MARKER, Clean(strx)) && !Occurs(EOS_TOKEN, Clean(strx))
    ensures Clean(Clean(strx)) == Clean(strx)
  {
    CleanOfPlainText(Clean(strx));
    CleanWords(strx);
    WordsOfStrip(Unmarked(strx));
  }

  lemma {:induction false} AbsentWithoutFirstChar(pat: string, s: string)
    requires |pat| > 0
    requires forall k :: 0 <= k < |s| ==> s[k] != pat[0]
    ensures !Occurs(pat, s)
    decreases |s|
  {
    if s != [] {
      assert s[0] != pat[0];
      AbsentWithoutFirstChar(pat, s[1..]);
    }
  }

  lemma EosTokenIsWord()
    ensures IsWord(EOS_TOKEN)
  {
    forall k | 0 <= k < |EOS_TOKEN| ensures !IsSpace(EOS_TOKEN[k]) {
      if k == 0 {} else if k == 1 {} else if k == 2 {} else if k == 3 {} else {}
    }
  }

  /** A text that is a single word once unmarked cleans to that word. */
  lemma CleanOfUnmarkedWord(strx: string)
    requires IsWord(Unmarked(strx))
    ensures Clean(strx) == Unmarked(strx)
  {
    var w := Unmarked(strx);
    assert TrimLeft(w) == w;
    assert TrimRight(w) == w;
    SplitAtSpacesOfWord(w);
    assert [w][1..] == [];
    assert NonEmpty([w]) == [w];
  }

  lemma NestedEosHasNoMarker()
    ensures RemoveAll("<<EOS>EOS>", BPE_MARKER) == "<<EOS>EOS>"
  {
    AbsentWithoutFirstChar(BPE_MARKER, "<<EOS>EOS>");
    RemoveAllAbsent("<<EOS>EOS>", BPE_MARKER);
  }

  /** A text starting with the pattern loses it. */
  lemma RemoveAllLeadingPattern(pat: string, t: string)
    requires |pat| > 0
    ensures RemoveAll(pat + t, pat) == RemoveAll(t, pat)
  {
    assert pat <= pat + t;
    assert (pat + t)[|pat|..] == t;
  }

  /** A character that does not start an occurrence of the pattern, then
      the pattern, then a text free of it: the deletion keeps the character
      and the text. */
  lemma RemoveAllCharThenPattern(c: char, pat: string, t: string)
    requires |pat| > 0 && !(pat <= [c] + pat + t) && !Occurs(pat, t)
    ensures RemoveAll([c] + pat + t, pat) == [c] + t
  {
    var s := [c] + pat + t;
    assert RemoveAll(s, pat) == [c] + RemoveAll(pat + t, pat) by {
      assert s[0] == c;
      assert s[1..] == pat + t;
    }
    RemoveAllLeadingPattern(pat, t);
    RemoveAllAbsent(t, pat);
  }

  lemma NestedEosDeletion()
    ensures RemoveAll("<<EOS>EOS>", EOS_TOKEN) == EOS_TOKEN
  {
    AbsentWithoutFirstChar(EOS_TOKEN, "EOS>");
    assert "<<EOS>EOS>" == ['<'] + EOS_TOKEN + "EOS>";
    assert !(EOS_TOKEN <= "<<EOS>EOS>") by {
      assert EOS_TOKEN[1] != "<<EOS>EOS>"[1];
    }
    RemoveAllCharThenPattern('<', EOS_TOKEN, "EOS>");
    assert ['<'] + "EOS>" == EOS_TOKEN;
  }

  lemma UnmarkedOfNestedEos()
    ensures Unmarked("<<EOS>EOS>") == EOS_TOKEN
  {
    NestedEosHasNoMarker();
    NestedEosDeletion();
  }

  /** Each deletion is one left-to-right pass, so the text it leaves can
      hold the token again: the cleaned text of `"<<EOS>EOS>"` is `"<EOS>"`. */
  lemma CleanIsOnePass()
    ensures Clean("<<EOS>EOS>") == EOS_TOKEN
  {
    UnmarkedOfNestedEos();
    EosTokenIsWord();
    CleanOfUnmarkedWord("<<EOS>EOS>");
  }
}
