/**
 * The Python string built-ins the data-preparation code relies on:
 * `str.strip()`, `str.split(sep)`, `str.split()`, `sep.join(parts)` and
 * `str.replace(old, '')`, over strings as sequences of characters.
 */
module Text {

  /** Python's `str.isspace` on one character, restricted to the ASCII
      whitespace characters, the information separators 0x1C-0x1F, NEL
      and NO-BREAK SPACE (other Unicode space separators are not modelled). */
  predicate IsSpace(c: char) {
    c == ' ' || c == '\t' || c == '\n' || c == '\r' || c == '\U{0B}' || c == '\U{0C}'
    || ('\U{1C}' <= c <= '\U{1F}') || c == '\U{85}' || c == '\U{A0}'
  }

  /** Does `pat` occur anywhere inside `s`? */
  predicate Occurs(pat: string, s: string)
    decreases |s|
  {
    pat <= s || (|s| > 0 && Occurs(pat, s[1..]))
  }

  // ---------------------------------------------------------------------
  // str.strip()

  /** `s.lstrip()` */
  function TrimLeft(s: string): string
    decreases |s|
  {
    if s != [] && IsSpace(s[0]) then TrimLeft(s[1..]) else s
  }

  /** `s.rstrip()` */
  function TrimRight(s: string): string
    decreases |s|
  {
    if s != [] && IsSpace(s[|s| - 1]) then TrimRight(s[..|s| - 1]) else s
  }

  /** `s.strip()` */
  function Strip(s: string): string {
    TrimRight(TrimLeft(s))
  }

  /** `lstrip` drops the leading whitespace and nothing else: it keeps a
      suffix that does not start with whitespace, and all it drops is
      whitespace. */
  lemma {:induction false} TrimLeftSpec(s: string)
    ensures var r := TrimLeft(s);
      && |r| <= |s| && r == s[|s| - |r|..]
      && (forall k :: 0 <= k < |s| - |r| ==> IsSpace(s[k]))
      && (r == [] || !IsSpace(r[0]))
    decreases |s|
  {
    if s != [] && IsSpace(s[0]) {
      TrimLeftSpec(s[1..]);
      var r := TrimLeft(s);
      assert r == TrimLeft(s[1..]);
      forall k | 1 <= k < |s| - |r| ensures IsSpace(s[k]) {
        assert s[k] == s[1..][k - 1];
      }
    }
  }

  /** `rstrip` drops the trailing whitespace and nothing else. */
  lemma {:induction false} TrimRightSpec(s: string)
    ensures var r := TrimRight(s);
      && |r| <= |s| && r == s[..|r|]
      && (forall k :: |r| <= k < |s| ==> IsSpace(s[k]))
      && (r == [] || !IsSpace(r[|r| - 1]))
    decreases |s|
  {
    if s != [] && IsSpace(s[|s| - 1]) {
      var init := s[..|s| - 1];
      TrimRightSpec(init);
      var r := TrimRight(s);
      assert r == TrimRight(init);
      forall k | |r| <= k < |s| - 1 ensures IsSpace(s[k]) {
        assert s[k] == init[k];
      }
    }
  }

  /** Cutting whitespace off the front of `s` (giving `l`) and then off the
      back of `l` (giving `r`) keeps a slice of `s`. */
  lemma TrimmedSlice(s: string, l: string, r: string)
    requires |l| <= |s| && l == s[|s| - |l|..]
    requires forall k :: 0 <= k < |s| - |l| ==> IsSpace(s[k])
    requires l == [] || !IsSpace(l[0])
    requires |r| <= |l| && r == l[..|r|]
    requires forall k :: |r| <= k < |l| ==> IsSpace(l[k])
    requires r == [] || !IsSpace(r[|r| - 1])
    ensures var i := |s| - |l|;
      && (r == [] || (!IsSpace(r[0]) && !IsSpace(r[|r| - 1])))
      && 0 <= i && i + |r| <= |s| && r == s[i..i + |r|]
      && (forall k :: 0 <= k < i ==> IsSpace(s[k]))
      && (forall k :: i + |r| <= k < |s| ==> IsSpace(s[k]))
  {
    var i := |s| - |l|;
    forall k | i + |r| <= k < |s| ensures IsSpace(s[k]) {
      assert s[k] == l[k - i];
    }
    if r != [] {
      assert r[0] == l[0];
    }
  }

  /** Strip keeps one contiguous slice of its argument, the one starting
      after the leading whitespace; everything it drops is whitespace, and
      the result neither starts nor ends with whitespace. */
  lemma StripSlice(s: string)
    ensures var r, i := Strip(s), |s| - |TrimLeft(s)|;
      && (r == [] || (!IsSpace(r[0]) && !IsSpace(r[|r| - 1])))
      && 0 <= i && i + |r| <= |s| && r == s[i..i + |r|]
      && (forall k :: 0 <= k < i ==> IsSpace(s[k]))
      && (forall k :: i + |r| <= k < |s| ==> IsSpace(s[k]))
  {
    TrimLeftSpec(s);
    TrimRightSpec(TrimLeft(s));
    TrimmedSlice(s, TrimLeft(s), TrimRight(TrimLeft(s)));
  }

  // ---------------------------------------------------------------------
  // str.split(sep) and sep.join(parts)

  /** `sep.join(parts)` */
  function Join(parts: seq<string>, sep: string): string
    decreases |parts|
  {
    if |parts| == 0 then ""
    else if |parts| == 1 then parts[0]
    else parts[0] + sep + Join(parts[1..], sep)
  }

  /** `s.split(sep)` for a non-empty separator: scans left to right and cuts
      at every non-overlapping occurrence of `sep`; always at least one field. */
  function SplitOn(s: string, sep: string): (r: seq<string>)
    requires |sep| > 0
    ensures |r| >= 1
    decreases |s|
  {
    if sep <= s then [""] + SplitOn(s[|sep|..], sep)
    else if s == [] then [""]
    else
      var rest := SplitOn(s[1..], sep);
      [[s[0]] + rest[0]] + rest[1..]
  }

  /** A field of a split that is not the last one ends exactly where the
      leftmost occurrence of the separator starts: the field followed by all
      but the last character of the separator holds no occurrence. The last
      field holds no occurrence at all. */
  predicate LeftmostFields(fields: seq<string>, sep: string)
    requires |sep| > 0
    decreases |fields|
  {
    if |fields| <= 1 then fields == [] || !Occurs(sep, fields[0])
    else !Occurs(sep, fields[0] + sep[..|sep| - 1]) && LeftmostFields(fields[1..], sep)
  }

  /** `LeftmostFields`, field by field. */
  lemma {:induction false} LeftmostFieldsAt(fields: seq<string>, sep: string)
    requires |sep| > 0 && LeftmostFields(fields, sep)
    ensures forall i :: 0 <= i < |fields| - 1 ==> !Occurs(sep, fields[i] + sep[..|sep| - 1])
    ensures |fields| > 0 ==> !Occurs(sep, fields[|fields| - 1])
    decreases |fields|
  {
    if |fields| > 1 {
      LeftmostFieldsAt(fields[1..], sep);
      assert forall i :: 1 <= i < |fields| ==> fields[i] == fields[1..][i - 1];
    }
  }

  lemma {:induction false} OccursLength(pat: string, s: string)
    requires Occurs(pat, s)
    ensures |pat| <= |s|
    decreases |s|
  {
    if !(pat <= s) {
      OccursLength(pat, s[1..]);
    }
  }

  /** An occurrence inside a prefix is an occurrence in the whole string. */
  lemma {:induction false} OccursInPrefix(pat: string, a: string, s: string)
    requires a <= s && Occurs(pat, a)
    ensures Occurs(pat, s)
    decreases |a|
  {
    if pat <= a {
      assert pat <= s;
    } else {
      OccursInPrefix(pat, a[1..], s[1..]);
    }
  }

  lemma {:induction false} JoinCons(p: string, parts: seq<string>, sep: string)
    requires |parts| > 0
    ensures Join([p] + parts, sep) == p + sep + Join(parts, sep)
  {
    assert ([p] + parts)[1..] == parts;
  }

  /** The first field is a prefix of the joined string. */
  lemma JoinHead(parts: seq<string>, sep: string)
    requires |parts| > 0
    ensures parts[0] <= Join(parts, sep)
    ensures |parts| > 1 ==> parts[0] + sep <= Join(parts, sep)
  {
  }

  /** One unfolding of `SplitOn` when `s` starts with the separator. */
  lemma SplitOnAtSep(s: string, sep: string)
    requires |sep| > 0 && sep <= s
    ensures SplitOn(s, sep) == [""] + SplitOn(s[|sep|..], sep)
  {
  }

  /** One unfolding of `SplitOn` when `s` does not start with the separator. */
  lemma SplitOnAtChar(s: string, sep: string)
    requires |sep| > 0 && !(sep <= s) && s != []
    ensures var rest := SplitOn(s[1..], sep);
      SplitOn(s, sep) == [[s[0]] + rest[0]] + rest[1..]
  {
  }

  /** Prepending a character to the first part prepends it to the join. */
  lemma JoinConsChar(c: char, parts: seq<string>, sep: string)
    requires |parts| > 0
    ensures Join([[c] + parts[0]] + parts[1..], sep) == [c] + Join(parts, sep)
  {
    var f := [c] + parts[0];
    if |parts| == 1 {
      assert Join([f], sep) == f;
    } else {
      JoinCons(f, parts[1..], sep);
      JoinCons(parts[0], parts[1..], sep);
      assert parts == [parts[0]] + parts[1..];
    }
  }

  lemma SplitJoinAtSep(s: string, sep: string)
    requires |sep| > 0 && sep <= s
    requires Join(SplitOn(s[|sep|..], sep), sep) == s[|sep|..]
    ensures Join(SplitOn(s, sep), sep) == s
  {
    var t := s[|sep|..];
    var tail := SplitOn(t, sep);
    assert SplitOn(s, sep) == [""] + tail by { SplitOnAtSep(s, sep); }
    assert Join([""] + tail, sep) == "" + sep + t by { JoinCons("", tail, sep); }
    assert "" + sep + t == s by {
      assert "" + sep == sep;
      assert s[..|sep|] == sep;
      assert s == s[..|sep|] + t;
    }
  }

  lemma SplitJoinAtChar(s: string, sep: string)
    requires |sep| > 0 && !(sep <= s) && s != []
    requires Join(SplitOn(s[1..], sep), sep) == s[1..]
    ensures Join(SplitOn(s, sep), sep) == s
  {
    var rest := SplitOn(s[1..], sep);
    assert SplitOn(s, sep) == [[s[0]] + rest[0]] + rest[1..] by { SplitOnAtChar(s, sep); }
    assert Join([[s[0]] + rest[0]] + rest[1..], sep) == [s[0]] + s[1..] by {
      JoinConsChar(s[0], rest, sep);
    }
    ConsSlice(s);
  }

  /** Round trip: joining the fields of `s.split(sep)` with `sep` gives back `s`. */
  lemma {:induction false} SplitJoin(s: string, sep: string)
    requires |sep| > 0
    ensures Join(SplitOn(s, sep), sep) == s
    decreases |s|
  {
    if sep <= s {
      SplitJoin(s[|sep|..], sep);
      SplitJoinAtSep(s, sep);
    } else if s != [] {
      SplitJoin(s[1..], sep);
      SplitJoinAtChar(s, sep);
    }
  }

  lemma ConsSlice(s: string)
    requires s != []
    ensures [s[0]] + s[1..] == s
  {
  }

  lemma PrefixAppend(a: string, b: string, c: string)
    requires b <= c
    ensures a + b <= a + c
  {
    forall k | 0 <= k < |a + b| ensures (a + b)[k] == (a + c)[k] {
      if k >= |a| {
        assert (a + b)[k] == b[k - |a|];
      }
    }
  }

  lemma PrefixTrans(a: string, b: string, c: string)
    requires a <= b && b <= c
    ensures a <= c
  {
    assert forall k :: 0 <= k < |a| ==> a[k] == b[k] == c[k];
  }

  /** `fields` is cut at the leftmost occurrences when its first field is,
      and the fields after it are. */
  lemma SplitLeftmostAtSep(s: string, sep: string)
    requires |sep| > 0 && sep <= s
    requires LeftmostFields(SplitOn(s[|sep|..], sep), sep)
    ensures LeftmostFields(SplitOn(s, sep), sep)
  {
    var tail := SplitOn(s[|sep|..], sep);
    var r := [""] + tail;
    var short := sep[..|sep| - 1];
    assert SplitOn(s, sep) == r by { SplitOnAtSep(s, sep); }
    assert !Occurs(sep, r[0] + short) by {
      assert r[0] + short == short;
      if Occurs(sep, short) {
        OccursLength(sep, short);
      }
    }
    assert r[1..] == tail;
  }

  /** A prefix of `whole`, where `whole` does not start with `sep`, holds
      `sep` only after its first character. */
  lemma NoOccursAfterFirst(y: string, sep: string, whole: string)
    requires |sep| > 0 && y != [] && !Occurs(sep, y[1..])
    requires y <= whole && !(sep <= whole)
    ensures !Occurs(sep, y)
  {
    if sep <= y {
      PrefixTrans(sep, y, whole);
    }
  }

  lemma DropConcat(a: string, b: string)
    requires a != []
    ensures (a + b)[1..] == a[1..] + b
  {
  }

  /** The first field of `s.split(sep)` when `s` does not start with
      `sep`, as a prefix of `s` (followed by `sep` when more fields follow). */
  lemma FirstFieldPrefix(s: string, sep: string)
    requires |sep| > 0 && !(sep <= s) && s != []
    ensures var rest := SplitOn(s[1..], sep);
      var f := [s[0]] + rest[0];
      && f <= s
      && (|rest| > 1 ==> f + sep[..|sep| - 1] <= s)
  {
    var rest := SplitOn(s[1..], sep);
    var f := [s[0]] + rest[0];
    var r := [f] + rest[1..];
    assert SplitOn(s, sep) == r by { SplitOnAtChar(s, sep); }
    assert Join(r, sep) == s by { SplitJoin(s, sep); }
    JoinHead(r, sep);
    if |rest| > 1 {
      var short := sep[..|sep| - 1];
      assert short <= sep;
      PrefixAppend(f, short, sep);
      PrefixTrans(f + short, f + sep, s);
    }
  }

  lemma SplitLeftmostAtChar(s: string, sep: string)
    requires |sep| > 0 && !(sep <= s) && s != []
    requires LeftmostFields(SplitOn(s[1..], sep), sep)
    ensures LeftmostFields(SplitOn(s, sep), sep)
  {
    var rest := SplitOn(s[1..], sep);
    var f := [s[0]] + rest[0];
    var r := [f] + rest[1..];
    FirstFieldPrefix(s, sep);
    assert f[1..] == rest[0];
    if |rest| == 1 {
      NoOccursAfterFirst(f, sep, s);
    } else {
      var short := sep[..|sep| - 1];
      DropConcat(f, short);
      NoOccursAfterFirst(f + short, sep, s);
      assert r[1..] == rest[1..];
    }
    assert SplitOn(s, sep) == r by { SplitOnAtChar(s, sep); }
  }

  /** The fields of `s.split(sep)` are cut at the leftmost occurrences. */
  lemma {:induction false} SplitLeftmost(s: string, sep: string)
    requires |sep| > 0
    ensures LeftmostFields(SplitOn(s, sep), sep)
    decreases |s|
  {
    if sep <= s {
      SplitLeftmost(s[|sep|..], sep);
      SplitLeftmostAtSep(s, sep);
    } else if s == [] {
      assert !Occurs(sep, "");
    } else {
      SplitLeftmost(s[1..], sep);
      SplitLeftmostAtChar(s, sep);
    }
  }

  // ---------------------------------------------------------------------
  // str.split() with no argument

  /** The fields of `s` cut at every single whitespace character. */
  function SplitAtSpaces(s: string): (r: seq<string>)
    ensures |r| >= 1
    decreases |s|
  {
    if s == [] then [""]
    else
      var rest := SplitAtSpaces(s[1..]);
      if IsSpace(s[0]) then [""] + rest
      else [[s[0]] + rest[0]] + rest[1..]
  }

  /** Keeps the non-empty strings, in order. */
  function NonEmpty(fields: seq<string>): seq<string>
    decreases |fields|
  {
    if fields == [] then []
    else if fields[0] == "" then NonEmpty(fields[1..])
    else [fields[0]] + NonEmpty(fields[1..])
  }

  /** Keeping the non-empty strings distributes over concatenation. */
  lemma {:induction false} NonEmptyAppend(a: seq<string>, b: seq<string>)
    ensures NonEmpty(a + b) == NonEmpty(a) + NonEmpty(b)
    decreases |a|
  {
    if a != [] {
      assert (a + b)[0] == a[0];
      assert (a + b)[1..] == a[1..] + b;
      NonEmptyAppend(a[1..], b);
      if a[0] != "" {
        assert NonEmpty(a + b) == [a[0]] + NonEmpty(a[1..] + b);
        assert NonEmpty(a) == [a[0]] + NonEmpty(a[1..]);
      }
    } else {
      assert a + b == b;
    }
  }

  /** `NonEmpty` keeps exactly the non-empty strings, in their order: a
      single string is kept when it is non-empty, and the result of a
      concatenation is the concatenation of the results. */
  lemma NonEmptyFilters(a: seq<string>, b: seq<string>, w: string)
    ensures NonEmpty([w]) == if w == "" then [] else [w]
    ensures NonEmpty(a + b) == NonEmpty(a) + NonEmpty(b)
    ensures forall x :: x in NonEmpty(a) <==> x in a && x != ""
  {
    assert [w][1..] == [];
    NonEmptyAppend(a, b);
    NonEmptyMembers(a);
  }

  lemma {:induction false} NonEmptyMembers(a: seq<string>)
    ensures forall x :: x in NonEmpty(a) <==> x in a && x != ""
    decreases |a|
  {
    if a != [] {
      NonEmptyMembers(a[1..]);
      assert a == [a[0]] + a[1..];
    }
  }

  /** `s` with every whitespace character replaced by `' '`. */
  function Normalise(s: string): string {
    seq(|s|, k requires 0 <= k < |s| => if IsSpace(s[k]) then ' ' else s[k])
  }

  lemma NormaliseCons(s: string)
    requires s != []
    ensures Normalise(s) == [if IsSpace(s[0]) then ' ' else s[0]] + Normalise(s[1..])
  {
  }

  /** The fields of `SplitAtSpaces(s)` joined with `' '` rebuild `s`, each
      cut character standing as a `' '`: no character is lost or moved. */
  lemma {:induction false} SplitAtSpacesJoin(s: string)
    ensures Join(SplitAtSpaces(s), " ") == Normalise(s)
    decreases |s|
  {
    if s != [] {
      var rest := SplitAtSpaces(s[1..]);
      SplitAtSpacesJoin(s[1..]);
      NormaliseCons(s);
      if IsSpace(s[0]) {
        JoinCons("", rest, " ");
      } else {
        JoinConsChar(s[0], rest, " ");
      }
    }
  }

  /** Whitespace-free fields joined with `' '` split back into themselves. */
  lemma {:induction false} SplitAtSpacesOfJoin(fields: seq<string>)
    requires |fields| >= 1
    requires forall i, k :: 0 <= i < |fields| && 0 <= k < |fields[i]| ==> !IsSpace(fields[i][k])
    ensures SplitAtSpaces(Join(fields, " ")) == fields
    decreases |fields|
  {
    if |fields| == 1 {
      SplitAtSpacesOfWord(fields[0]);
    } else {
      var tail := fields[1..];
      assert forall i, k :: 0 <= i < |tail| && 0 <= k < |tail[i]| ==> !IsSpace(tail[i][k]) by {
        assert forall i :: 0 <= i < |tail| ==> tail[i] == fields[i + 1];
      }
      SplitAtSpacesOfJoin(tail);
      assert Join(fields, " ") == fields[0] + [' '] + Join(tail, " ");
      SplitAtSpacesAfterWord(fields[0], ' ', Join(tail, " "));
      assert fields == [fields[0]] + tail;
    }
  }

  /** Where the cuts fall depends only on which characters are whitespace. */
  lemma {:induction false} SplitAtSpacesOfNormalise(s: string)
    ensures SplitAtSpaces(Normalise(s)) == SplitAtSpaces(s)
    decreases |s|
  {
    if s != [] {
      NormaliseCons(s);
      var n := Normalise(s);
      assert n[1..] == Normalise(s[1..]);
      SplitAtSpacesOfNormalise(s[1..]);
    }
  }

  /** The fields of `SplitAtSpaces(s)` are the only whitespace-free fields
      that rebuild `s`: together with `SplitAtSpacesFree` and
      `SplitAtSpacesJoin` this pins the split down completely. */
  lemma SplitAtSpacesUnique(s: string, fields: seq<string>)
    requires |fields| >= 1
    requires forall i, k :: 0 <= i < |fields| && 0 <= k < |fields[i]| ==> !IsSpace(fields[i][k])
    requires Join(fields, " ") == Normalise(s)
    ensures fields == SplitAtSpaces(s)
  {
    SplitAtSpacesOfJoin(fields);
    SplitAtSpacesOfNormalise(s);
  }

  /** `s.split()`: runs of whitespace separate the words, and no empty word
      appears at the start, at the end or between two separators. */
  function Words(s: string): seq<string> {
    NonEmpty(SplitAtSpaces(s))
  }

  /** A word: non-empty and free of whitespace. */
  predicate IsWord(w: string) {
    |w| > 0 && forall k :: 0 <= k < |w| ==> !IsSpace(w[k])
  }

  lemma {:induction false} SplitAtSpacesFree(s: string)
    ensures forall i, k :: 0 <= i < |SplitAtSpaces(s)| && 0 <= k < |SplitAtSpaces(s)[i]| ==>
      !IsSpace(SplitAtSpaces(s)[i][k])
    decreases |s|
  {
    if s != [] {
      SplitAtSpacesFree(s[1..]);
      var rest := SplitAtSpaces(s[1..]);
      var r := SplitAtSpaces(s);
      if IsSpace(s[0]) {
        assert forall i :: 1 <= i < |r| ==> r[i] == rest[i - 1];
      } else {
        assert forall i :: 1 <= i < |r| ==> r[i] == rest[i];
      }
    }
  }

  lemma {:induction false} NonEmptyKeeps(fields: seq<string>)
    requires forall i, k :: 0 <= i < |fields| && 0 <= k < |fields[i]| ==> !IsSpace(fields[i][k])
    ensures forall i :: 0 <= i < |NonEmpty(fields)| ==> IsWord(NonEmpty(fields)[i])
    decreases |fields|
  {
    if fields != [] {
      assert forall i :: 0 <= i < |fields[1..]| ==> fields[1..][i] == fields[i + 1];
      NonEmptyKeeps(fields[1..]);
    }
  }

  /** Every word that `s.split()` yields is non-empty and whitespace-free. */
  lemma WordsAreWords(s: string)
    ensures forall i :: 0 <= i < |Words(s)| ==> IsWord(Words(s)[i])
  {
    SplitAtSpacesFree(s);
    NonEmptyKeeps(SplitAtSpaces(s));
  }

  lemma {:induction false} SplitAtSpacesOfWord(w: string)
    requires forall k :: 0 <= k < |w| ==> !IsSpace(w[k])
    ensures SplitAtSpaces(w) == [w]
    decreases |w|
  {
    if w != [] {
      SplitAtSpacesOfWord(w[1..]);
      assert w == [w[0]] + w[1..];
    }
  }

  lemma {:induction false} SplitAtSpacesAfterWord(w: string, c: char, t: string)
    requires forall k :: 0 <= k < |w| ==> !IsSpace(w[k])
    requires IsSpace(c)
    ensures SplitAtSpaces(w + [c] + t) == [w] + SplitAtSpaces(t)
    decreases |w|
  {
    var s := w + [c] + t;
    if w == [] {
      assert s == [c] + t;
      assert s[1..] == t;
    } else {
      assert s[1..] == w[1..] + [c] + t;
      SplitAtSpacesAfterWord(w[1..], c, t);
      assert w == [w[0]] + w[1..];
    }
  }

  /** Round trip: `' '.join(ws).split() == ws` for a list of words. */
  lemma {:induction false} WordsOfJoin(ws: seq<string>)
    requires forall i :: 0 <= i < |ws| ==> IsWord(ws[i])
    ensures Words(Join(ws, " ")) == ws
    decreases |ws|
  {
    if |ws| == 1 {
      SplitAtSpacesOfWord(ws[0]);
      assert Join(ws, " ") == ws[0];
      assert ws[0] != "";
      assert NonEmpty([ws[0]]) == [ws[0]] + NonEmpty([]) by {
        assert [ws[0]][1..] == [];
      }
      assert ws == [ws[0]];
    } else if |ws| > 1 {
      var tail := ws[1..];
      WordsOfJoin(tail);
      assert Join(ws, " ") == ws[0] + [' '] + Join(tail, " ");
      SplitAtSpacesAfterWord(ws[0], ' ', Join(tail, " "));
      var f := SplitAtSpaces(Join(tail, " "));
      assert ([ws[0]] + f)[1..] == f;
      assert ws == [ws[0]] + tail;
    }
  }

  /** `' '.join(ws)` of a list of words has no whitespace at either end, and
      its only whitespace is single `' '` characters between two word characters. */
  lemma {:induction false} JoinWordsShape(ws: seq<string>)
    requires forall i :: 0 <= i < |ws| ==> IsWord(ws[i])
    ensures var r := Join(ws, " ");
      && (r == [] <==> ws == [])
      && (r != [] ==> !IsSpace(r[0]) && !IsSpace(r[|r| - 1]))
      && forall k :: 0 <= k < |r| && IsSpace(r[k]) ==>
           r[k] == ' ' && 0 < k < |r| - 1 && !IsSpace(r[k - 1]) && !IsSpace(r[k + 1])
    decreases |ws|
  {
    if |ws| > 1 {
      var tail := ws[1..];
      JoinWordsShape(tail);
      var t := Join(tail, " ");
      var r := Join(ws, " ");
      var w := ws[0];
      assert r == w + [' '] + t;
      forall k | 0 <= k < |r| && IsSpace(r[k])
        ensures r[k] == ' ' && 0 < k < |r| - 1 && !IsSpace(r[k - 1]) && !IsSpace(r[k + 1])
      {
        if k == |w| {
          assert r[k - 1] == w[|w| - 1];
          assert r[k + 1] == t[0];
        } else if k > |w| {
          assert r[k] == t[k - |w| - 1];
          if k - 1 > |w| {
            assert r[k - 1] == t[k - 1 - |w| - 1];
          }
          assert r[k + 1] == t[k + 1 - |w| - 1];
        }
      }
    }
  }

  // ---------------------------------------------------------------------
  // str.replace(old, '')

  /** `s.replace(pat, '')` for a non-empty pattern: one left-to-right pass
      that deletes every non-overlapping occurrence of `pat`. */
  function RemoveAll(s: string, pat: string): string
    requires |pat| > 0
    decreases |s|
  {
    if pat <= s then RemoveAll(s[|pat|..], pat)
    else if s == [] then ""
    else [s[0]] + RemoveAll(s[1..], pat)
  }

  /** The removal deletes exactly the separators of `s.split(pat)`:
      `s.replace(pat, '') == ''.join(s.split(pat))`, while
      `pat.join(s.split(pat)) == s` by `SplitJoin`. */
  lemma {:induction false} RemoveAllIsJoinOfSplit(s: string, pat: string)
    requires |pat| > 0
    ensures RemoveAll(s, pat) == Join(SplitOn(s, pat), "")
    decreases |s|
  {
    if pat <= s {
      SplitOnAtSep(s, pat);
      RemoveAllIsJoinOfSplit(s[|pat|..], pat);
      JoinCons("", SplitOn(s[|pat|..], pat), "");
    } else if s != [] {
      SplitOnAtChar(s, pat);
      RemoveAllIsJoinOfSplit(s[1..], pat);
      JoinConsChar(s[0], SplitOn(s[1..], pat), "");
    }
  }
}
