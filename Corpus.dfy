/**
 * Splitting a bitext corpus (`split_lines`): the file's text is stripped,
 * cut into lines at `'\n'`, and every line is cut into fields at the
 * literal delimiter `|||`. Reading the file is not part of this model: the
 * function takes the text as `open(..., encoding='utf-8').read()` returns
 * it, that is, after text mode has decoded the bytes and turned every
 * `"\r\n"` and `"\r"` into `"\n"`.
 */
module Corpus {
  import opened Text

  const DELIMITER := "|||"

  /** The lines of the stripped text. */
  function Lines(text: string): seq<string> {
    SplitOn(Strip(text), "\n")
  }

  /** `split_lines` given the file's contents: one entry per line, each the
      list of fields between `|||` delimiters. */
  function SplitLines(text: string): seq<seq<string>> {
    var lines := Lines(text);
    seq(|lines|, i requires 0 <= i < |lines| => SplitOn(lines[i], DELIMITER))
  }

  /** The lines (at least one, even for an empty file) joined back with
      `'\n'` give the stripped text, and no line holds a `'\n'`. */
  lemma LinesSpec(text: string)
    ensures var lines := Lines(text);
      && |lines| >= 1
      && Join(lines, "\n") == Strip(text)
      && forall i :: 0 <= i < |lines| ==> !Occurs("\n", lines[i])
  {
    var lines := Lines(text);
    SplitJoin(Strip(text), "\n");
    SplitLeftmost(Strip(text), "\n");
    LeftmostFieldsAt(lines, "\n");
    forall i | 0 <= i < |lines| - 1 ensures !Occurs("\n", lines[i]) {
      assert lines[i] + "\n"[..0] == lines[i];
    }
  }

  /** The result has one entry per `'\n'`-separated line of the stripped
      text. Each entry joined back with `|||` gives its line, every field is
      cut at the leftmost delimiter, and the last field holds none. */
  lemma SplitLinesSpec(text: string)
    ensures var lines, pairs := Lines(text), SplitLines(text);
      && |pairs| == |lines| >= 1
      && Join(lines, "\n") == Strip(text)
      && (forall i :: 0 <= i < |lines| ==> !Occurs("\n", lines[i]))
      && forall i :: 0 <= i < |pairs| ==>
           |pairs[i]| >= 1 && Join(pairs[i], DELIMITER) == lines[i] && LeftmostFields(pairs[i], DELIMITER)
  {
    var lines := Lines(text);
    LinesSpec(text);
    forall i | 0 <= i < |lines|
      ensures Join(SplitOn(lines[i], DELIMITER), DELIMITER) == lines[i]
      ensures LeftmostFields(SplitOn(lines[i], DELIMITER), DELIMITER)
    {
      SplitJoin(lines[i], DELIMITER);
      SplitLeftmost(lines[i], DELIMITER);
    }
  }
}
