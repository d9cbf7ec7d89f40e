/**
 * `JournalTempFile`: the temp file an entry is written to for editing. Its
 * own private `TempFileParser` reads the first line as the date but keeps the
 * whole contents as the body, and `write` puts the date line in front only
 * for a new entry.
 */
module JournalTempFiles {
  import opened Common
  import opened Text
  import TempFileParsing

  /** The private `parse`: `null` for empty contents, else the first line as date and every line joined back as body. */
  function ParseContents(contents: string): (entry: Option<Entry>)
    ensures entry.None? <==> |contents| == 0
    ensures entry.Some? ==> entry.value.body == contents && '\n' !in entry.value.date
  {
    if |contents| == 0 then None
    else
      var lines := Split(contents, '\n');
      JoinSplit(contents, '\n');
      SplitPartsLackSeparator(contents, '\n');
      assert lines[0] in lines;
      Some(Entry(lines[0], Join(lines, '\n')))
  }

  /** The date the private parser reads is the one `TempFileParser.parse` reads: the first line. */
  lemma ParseContentsDateIsFirstLine(contents: string)
    requires |contents| > 0
    ensures ParseContents(contents).value.date == TempFileParsing.Parse(contents).value.date
    ensures forall i :: 0 <= i < |contents| && contents[i] == '\n' && '\n' !in contents[..i] ==>
      ParseContents(contents).value.date == contents[..i]
    ensures '\n' !in contents ==> ParseContents(contents).value.date == contents
  {
    SplitHeadAndRest(contents, '\n');
  }

  /** The contents `write` puts in the file: date line and body for a new entry, the body alone otherwise. */
  function WriteContents(entry: Entry, isNewEntry: bool): (contents: string)
    ensures isNewEntry ==>
      && |contents| == |entry.date| + 1 + |entry.body|
      && contents[..|entry.date|] == entry.date
      && contents[|entry.date|] == '\n'
      && contents[|entry.date| + 1..] == entry.body
    ensures !isNewEntry ==> contents == entry.body
    ensures |contents| == 0 <==> !isNewEntry && entry.body == ""
  {
    if isNewEntry then entry.date + "\n" + entry.body else entry.body
  }

  /**
   * A new entry written and read back keeps its date (when that has no
   * newline) but comes back with the date line at the head of its body.
   */
  lemma NewEntryRoundTrip(entry: Entry)
    ensures var read := ParseContents(WriteContents(entry, true));
      && read.Some?
      && read.value.body == entry.date + "\n" + entry.body
      && ('\n' !in entry.date ==> read.value.date == entry.date)
  {
    var contents := WriteContents(entry, true);
    if '\n' !in entry.date {
      assert contents[|entry.date|] == '\n' && contents[..|entry.date|] == entry.date;
      ParseContentsDateIsFirstLine(contents);
    }
  }

  /**
   * An existing entry is written as its body alone, so reading it back gives
   * the body unchanged and no second date line; the date read is the body's
   * first line. An empty body reads back as `null`.
   */
  lemma ExistingEntryRoundTrip(entry: Entry)
    ensures var read := ParseContents(WriteContents(entry, false));
      && (read.None? <==> entry.body == "")
      && (read.Some? ==> read.value.body == entry.body)
      && (read.Some? ==> read.value.date == TempFileParsing.Parse(entry.body).value.date)
  {
    if entry.body != "" {
      ParseContentsDateIsFirstLine(entry.body);
    }
  }

  /**
   * An existing entry whose body starts with its date line, as the journal
   * stores it, reads back exactly as it was.
   */
  lemma StoredEntryRoundTrip(date: string, text: string)
    requires '\n' !in date
    ensures ParseContents(WriteContents(Entry(date, date + "\n" + text), false)) == Some(Entry(date, date + "\n" + text))
  {
    var contents := date + "\n" + text;
    assert contents[|date|] == '\n' && contents[..|date|] == date;
    ParseContentsDateIsFirstLine(contents);
  }

  /** The name kept by the constructor: a non-empty given name, or the generated unique name with `.md` appended. */
  function ChosenFilename(given: Option<string>, unique: string): (name: string)
    ensures given.Some? && given.value != "" ==> name == given.value
    ensures given.None? || given.value == "" ==> |name| >= 3 && name[|name| - 3..] == ".md" && name[..|name| - 3] == unique
    ensures name != ""
  {
    if given.Some? && given.value != "" then given.value else unique + ".md"
  }

  class JournalTempFile {
    const filename: string

    /**
     * `filename || uniqueFilename(os.tmpdir()) + '.md'`: a missing or empty
     * name is replaced by a generated one, here the given `unique` name.
     */
    constructor(filename: Option<string>, unique: string)
      ensures this.filename == ChosenFilename(filename, unique)
    {
      this.filename := ChosenFilename(filename, unique);
    }
  }
}
