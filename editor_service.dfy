/**
 * The pure parts of `EditorService`: the temp file's name and contents, and
 * how the `EDITOR` setting is cut into the command and arguments the editor
 * is spawned with.
 */
module EditorServices {
  import opened Common
  import opened Text
  import TempFileParsing
  import JournalTempFiles

  /** `generateTempFile`: the unique name generated in the temp directory, here given, with `.md` appended. */
  function TempFileName(unique: string): (name: string)
    ensures |name| == |unique| + 3
    ensures name[..|unique|] == unique && name[|unique|..] == ".md"
  {
    unique + ".md"
  }

  /**
   * `writeToTempFile`: the entry's date, a newline, then its body, the same
   * text `JournalTempFile.write` produces for a new entry; never empty, so it
   * never reads back as `null`.
   */
  function TempFileContents(entry: Entry): (contents: string)
    ensures contents == JournalTempFiles.WriteContents(entry, true)
    ensures |contents| > |entry.date| && contents[|entry.date|] == '\n'
  {
    entry.date + "\n" + entry.body
  }

  /**
   * What the editor writes back untouched parses to the entry it was given,
   * provided the date is a single line: the temp file round-trips through
   * `TempFileParser.parse`.
   */
  lemma TempFileReadsBack(entry: Entry)
    requires '\n' !in entry.date
    ensures TempFileParsing.Parse(TempFileContents(entry)) == Some(entry)
  {
    TempFileParsing.ParseRoundTrip(entry.date, entry.body);
  }

  /** The program and argument list handed to `spawn`; `command` is `undefined` (None) when there is no token. */
  datatype Invocation = Invocation(command: Option<string>, args: seq<string>)

  /**
   * Calling `split` on an unset `EDITOR` throws a `TypeError`. Its text comes
   * from the JavaScript engine and differs between Node versions; the program
   * itself fixes no message, so this constant stands for whichever text the
   * engine produces and only the failure is part of the model.
   */
  const UnsetEditorMessage: string := "Cannot read properties of undefined (reading 'split')"

  /**
   * The command line `spawnEditor` builds: `EDITOR` split on single spaces,
   * blank tokens dropped, the first token as the command and the rest,
   * followed by the temp file, as the arguments.
   */
  function CommandLine(editor: Option<string>, tempFile: string): (invocation: Result<Invocation>)
    ensures invocation.Err? <==> editor.None?
    ensures invocation.Ok? ==>
      var inv := invocation.value;
      && |inv.args| >= 1 && inv.args[|inv.args| - 1] == tempFile
      && (forall i :: 0 <= i < |inv.args| - 1 ==> !IsBlank(inv.args[i]) && ' ' !in inv.args[i])
      && (inv.command.Some? ==> !IsBlank(inv.command.value) && ' ' !in inv.command.value)
      && (inv.command.None? ==> inv.args == [tempFile])
      && |inv.args| == if inv.command.Some? then |NonBlank(Split(editor.value, ' '))| else 1
  {
    if editor.None? then Err(UnsetEditorMessage)
    else
      var parts := NonBlank(Split(editor.value, ' '));
      SplitPartsLackSeparator(editor.value, ' ');
      if |parts| == 0 then Ok(Invocation(None, [tempFile]))
      else
        assert parts[0] in parts;
        assert forall i :: 1 <= i < |parts| ==> parts[i] in parts;
        Ok(Invocation(Some(parts[0]), parts[1..] + [tempFile]))
  }

  /**
   * The command-line building inside `spawnEditor`: split and filter the
   * setting, `shift` the command off the tokens and `push` the temp file
   * onto what remains.
   */
  method OpenEditorCommand(editor: Option<string>, tempFile: string) returns (invocation: Result<Invocation>)
    ensures invocation == CommandLine(editor, tempFile)
  {
    if editor.None? {
      return Err(UnsetEditorMessage);
    }
    var editorParts := NonBlank(Split(editor.value, ' '));
    var editorCmd: Option<string> := None;
    if |editorParts| > 0 {
      editorCmd := Some(editorParts[0]);
      editorParts := editorParts[1..];
    }
    var args := editorParts;
    args := args + [tempFile];
    assert editorCmd.None? ==> args == [tempFile];
    return Ok(Invocation(editorCmd, args));
  }

  /**
   * A setting made of a command and arguments separated by single spaces,
   * none of them blank or holding a space, is taken apart into exactly that
   * command and those arguments, in order, with the temp file last.
   */
  lemma CommandLineRoundTrip(command: string, arguments: seq<string>, tempFile: string)
    requires !IsBlank(command) && ' ' !in command
    requires forall a :: a in arguments ==> !IsBlank(a) && ' ' !in a
    ensures CommandLine(Some(Join([command] + arguments, ' ')), tempFile)
         == Ok(Invocation(Some(command), arguments + [tempFile]))
  {
    var tokens := [command] + arguments;
    assert forall t :: t in tokens ==> t == command || t in arguments;
    SplitJoin(tokens, ' ');
    NonBlankKeepsNonBlank(tokens);
    assert tokens[1..] == arguments;
  }

  /** Runs of spaces between tokens make no difference: only the non-blank tokens count. */
  lemma CommandLineIgnoresBlankTokens(editor: string, tempFile: string)
    ensures var tokens := NonBlank(Split(editor, ' '));
      CommandLine(Some(editor), tempFile) == CommandLine(Some(Join(tokens, ' ')), tempFile)
  {
    var tokens := NonBlank(Split(editor, ' '));
    SplitPartsLackSeparator(editor, ' ');
    if |tokens| > 0 {
      CommandLineRoundTrip(tokens[0], tokens[1..], tempFile);
      assert tokens == [tokens[0]] + tokens[1..];
      assert tokens[0] in tokens;
      assert forall i :: 1 <= i < |tokens| ==> tokens[i] in tokens;
    } else {
      assert Split(Join(tokens, ' '), ' ') == [""];
    }
  }

  /** A set but blank `EDITOR` leaves no command: `spawn` gets `undefined` and the temp file alone. */
  lemma BlankEditorHasNoCommand(editor: string, tempFile: string)
    requires IsBlank(editor)
    ensures CommandLine(Some(editor), tempFile) == Ok(Invocation(None, [tempFile]))
  {
    SplitPartsWithin(editor, ' ');
    forall p | p in Split(editor, ' ') ensures IsBlank(p) {
      forall i | 0 <= i < |p| ensures IsWhitespace(p[i]) {
        assert p[i] in p;
        var j :| 0 <= j < |editor| && editor[j] == p[i];
      }
    }
    var tokens := NonBlank(Split(editor, ' '));
    if |tokens| > 0 {
      assert tokens[0] in tokens;
    }
  }
}
