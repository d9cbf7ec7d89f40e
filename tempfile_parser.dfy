/**
 * `TempFileParser.parse`, which turns the text the user saved in the editor
 * back into an entry: the first line is the date and the remaining lines are
 * the body.
 */
module TempFileParsing {
  import opened Common
  import opened Text

  /**
   * `parse`: empty contents mean the editor was left without saving and give
   * `null`; otherwise the contents are split on newlines, the first line is
   * shifted off as the date and the rest are joined back as the body.
   */
  function Parse(contents: string): (entry: Option<Entry>)
    ensures entry.None? <==> |contents| == 0
  {
    if |contents| == 0 then None
    else
      var lines := Split(contents, '\n');
      Some(Entry(lines[0], Join(lines[1..], '\n')))
  }

  /**
   * The date is the text before the first newline and the body the text
   * after it; without a newline the whole contents are the date and the
   * body is empty.
   */
  lemma ParseSplitsAtFirstNewline(contents: string)
    requires |contents| > 0
    ensures '\n' !in contents ==> Parse(contents) == Some(Entry(contents, ""))
    ensures forall i :: 0 <= i < |contents| && contents[i] == '\n' && '\n' !in contents[..i] ==>
      Parse(contents) == Some(Entry(contents[..i], contents[i + 1..]))
  {
    SplitHeadAndRest(contents, '\n');
  }

  /**
   * Every parsed entry can be written back: its date has no newline, and the
   * contents were the date alone (with an empty body) or the date, a newline
   * and the body.
   */
  lemma ParseInverse(contents: string)
    requires |contents| > 0
    ensures var e := Parse(contents).value;
      && '\n' !in e.date
      && (contents == e.date + "\n" + e.body || (contents == e.date && e.body == ""))
  {
    SplitPartsLackSeparator(contents, '\n');
    var lines := Split(contents, '\n');
    assert lines[0] in lines;
    JoinSplit(contents, '\n');
    if |lines| > 1 {
      assert lines == [lines[0]] + lines[1..];
      assert Join(lines, '\n') == lines[0] + "\n" + Join(lines[1..], '\n');
    }
  }

  /** An entry whose date has no newline survives being written as date, newline, body and parsed. */
  lemma ParseRoundTrip(date: string, body: string)
    requires '\n' !in date
    ensures Parse(date + "\n" + body) == Some(Entry(date, body))
  {
    SplitAtFirst(date, body, '\n');
    assert Split(date + "\n" + body, '\n')[1..] == Split(body, '\n');
    JoinSplit(body, '\n');
  }
}
