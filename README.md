# jrnl-md core, modelled in Dafny

jrnl-md is a command-line journal that keeps entries (a date string and a
Markdown body) in a JSON file and lets the user show or edit the entries a
query selects. This project models the logic at its core and proves what it
does:

- **Date filters** (`src/filter/filters.ts`):
  - a modified binary search, `findFirstOnOrAfterDate`, for the first entry on or after a date;
  - `handleDuplicateMatches`, which walks to the edge of a run of entries with equal dates;
  - the Range, From and Last filters, which turn indices into tagged slices of the entry array.
- **The filter service** (`src/filter/filter-service.ts`): it runs every filter that applies and concatenates the results in a fixed order. When no filter applies it returns every entry with its index.
- **The database tree** (`src/storage/tree-node.ts`, `src/storage/journal.ts`):
  - a `TreeNode` keeps an index of children by key and a sorted list of their keys;
  - `Journal.addEntry` hangs a year, a month and a weekday node under the root, then a leaf for the entry under the weekday node.
- **The temp-file text format** (`src/editor/tempfile-parser.ts`, `src/editor/journal-temp-file.ts`, `src/editor/editor-service.ts`):
  - how an entry is written to the file the editor opens, and parsed back;
  - how the `EDITOR` setting becomes a command and arguments.
- **`flattenArray`** (`src/util/arrays.ts`): an in-place append.

Modules follow the source files:

| module | file | what it holds |
|---|---|---|
| `Common` | `common.dfy` | `Option`, `Result`, `Outcome`, `Entry` |
| `Text` | `text.dfy` | The JavaScript string built-ins the code relies on: `split`/`join` on one character, `trim`, `Number.prototype.toString` on integers, and the default string order of `Array.prototype.sort`. |
| `Filters` | `filters.dfy` | The search, the filters, and a reference definition `Select` of what a filter over chronological entries means. |
| `FilterService` | `filter_service.dfy` | `filter` and the concatenation order. |
| `TreeNodes` | `tree_node.dfy` | The `TreeNode` class and its invariant. |
| `Journals` | `journal.dfy` | The `Journal` class and `addEntry`. |
| `TempFileParsing` | `tempfile_parser.dfy` | `TempFileParser.parse` |
| `JournalTempFiles` | `journal_temp_file.dfy` | `JournalTempFile`, its private parser and its write format. |
| `EditorServices` | `editor_service.dfy` | Temp-file name and contents, and the `EDITOR` command line. |
| `Arrays` | `arrays.dfy` | `flattenArray` over a mutable array object. |

moment.js is replaced by a `Calendar` value of three functions:
- `instant`: the instant a date string denotes;
- `startOfDay` and `endOfDay`: the instants of what `setToStartOfDay` and `setToEndOfDay` return.

The JavaScript values the filters can produce are written out:
- `undefined` from `handleDuplicateMatches` is `None`;
- `idx + undefined` is the position `NaN`;
- `slice(undefined, …)` starts at 0, and `slice(…, NaN)` ends at 0;
- negative `slice` indices count from the end.

The search and the filters take the entries in any order. What they return is characterised when the entries are in chronological order, because a binary search presupposes it. Nothing in the code guarantees that order: the callers in `src/application.ts` (lines 79 and 132) pass the `Journal` object returned by `Journal.load`, not an array of entries, and nothing sorts entries before filtering.

Several behaviours of the code as written are proved as lemmas rather than corrected:
- `handleDuplicateMatches` returns `undefined` when a run of equal dates reaches the end of the array in the strategy's direction: index 0 for checkLeft, the last index for checkRight. As a result the Range filter loses every position when the first entry is exactly at the start bound, and returns nothing when the last entry is exactly at the end bound.
- `findChild` indexes a `Map` like a plain object, so it never finds a child. `createChildUnlessExists` therefore throws for every key already present, and `addEntry` fails for a second entry in the same year.
- `JournalTempFile`'s own parser keeps the date line inside the body.

## Model

| member | source | states |
|---|---|---|
| Filters.FindFirstOnOrAfterDate | src/filter/filters.ts:31-67 | On any entries the search terminates with -1, an index of the array, or undefined. On chronological entries the answer is `FirstOnOrAfter`: -1 when everything is before the date, 0 when the date is before everything, the run edge on an exact hit, and otherwise the first later index (minus one for checkRight). |
| Filters.HandleDuplicateMatches | src/filter/filters.ts:78-92 | Returns the index of the far end of the run of dates equal to the found one, in the strategy's direction. Returns undefined when that run reaches the end in the strategy's direction: index 0 for checkLeft, the last index for checkRight. |
| Filters.ExactHitIsFirstOnOrAfter | src/filter/filters.ts:62-65 | On chronological entries, the run edge reported after an exact hit is the first index of the run at the date (checkLeft) or the last (checkRight). |
| Filters.CountBeforeIsPrefix | src/filter/filters.ts:52-60 | In chronological entries, the entries before a date are exactly a prefix: the ones the search moves `left` past. |
| Filters.GapIsCount | src/filter/filters.ts:36-47 | When the search interval empties, `left` counts the entries before the date and also those at or before it. |
| Filters.FirstOnOrAfterNotFound | src/filter/filters.ts:20-21 | The search answers -1 exactly when every entry is before the date, the empty array included. |
| Filters.FirstOnOrAfterBeforeEverything | src/filter/filters.ts:19-20 | A date before every entry gives 0 under both strategies; checkRight never turns it into -1. |
| Filters.FirstOnOrAfterBetween | src/filter/filters.ts:44-47 | With no entry at the date and entries on both sides, checkLeft gives the first entry after the date and checkRight the last one before it. |
| Filters.FirstOnOrAfterExact | src/filter/filters.ts:62-64 | With an entry at the date, checkLeft gives the first of the run and checkRight the last. The answer is undefined exactly when the run starts at index 0 (checkLeft) or ends at the last index (checkRight). |
| Filters.FromShouldExecute | src/filter/filters.ts:242-244 | The From filter applies only without `to`, so it never runs together with the Range filter. |
| Filters.RangeExecute | src/filter/filters.ts:169-191 | On chronological entries, returns the slice from the start index to the end index plus one, tagged with start-relative positions. An end of -1 is widened to the last index when the start is at least 0. |
| Filters.FromExecute | src/filter/filters.ts:218-233 | On chronological entries, returns `[]` for a start of -1. Otherwise returns the suffix from the start index, each entry tagged with its index. |
| Filters.RangeIsWindow | src/filter/filters.ts:169-191 | On chronological entries, the Range filter returns exactly the entries from the start of `from`'s day to the end of `to`'s day, same-day duplicates at both bounds included, each with its own index. This holds unless an entry sits at the start bound on index 0 or at the end bound on the last index, or the first entry is after the end bound. |
| Filters.RangeResultsByCount | src/filter/filters.ts:170-184 | Under those conditions the Range filter returns the entries from the first one at or after the start bound to the last one at or before the end bound. |
| Filters.StartSearchCounts | src/filter/filters.ts:170-173 | Without an entry at the start bound on index 0, the start search answers the number of entries before the bound, or -1 when that is all of them. |
| Filters.EndSearchCounts | src/filter/filters.ts:175-182 | Without an entry at the end bound on the last index, and with the first entry not after it, the end search answers the last index at or before the bound, or -1 when every entry is. |
| Filters.SelectBetween | src/filter/filters.ts:154-168 | In chronological entries, the entries between two instants form a contiguous window. |
| Filters.SelectFrom | src/filter/filters.ts:206-217 | In chronological entries, the entries on or after an instant form a suffix. |
| Filters.SelectWindow | src/filter/filters.ts:185-190 | Keeping exactly the entries of a window `[a, b)` gives that slice tagged with positions from `a`. |
| Filters.RangeBeforeEverythingKeepsFirstEntry | src/filter/filters.ts:175-184 | When the first entry is after both bounds, the Range filter still returns that entry, because the end search answers 0. |
| Filters.RangeEndingOnLastEntryIsEmpty | src/filter/filters.ts:175-184 | When the last entry is exactly at the end bound, the Range filter returns nothing: the end index is undefined and `slice(…, NaN)` is empty. |
| Filters.RangeStartingOnFirstEntryLosesPositions | src/filter/filters.ts:170-187 | When the first entry is exactly at the start bound, every position the Range filter reports is NaN. |
| Filters.FromIsSuffix | src/filter/filters.ts:218-233 | On chronological entries, the From filter returns exactly the entries on or after `from`, each with its index, unless the first entry is exactly at `from`. |
| Filters.FromResultsByCount | src/filter/filters.ts:219-230 | Without an entry at `from` on index 0, the From filter returns the entries from the first one at or after `from`. |
| Filters.FromStartingOnFirstEntryLosesPositions | src/filter/filters.ts:219-230 | When the first entry is exactly at `from`, the From filter returns every entry, each at position NaN. |
| Filters.LastResults | src/filter/filters.ts:260-279 | For a positive count, the Last filter returns the newest `min(last, n)` entries in order, each with its index. A count of 0 returns every entry (`slice(-0)`), with every position shifted by the array's length. A negative count drops the first `-last` entries and shifts the positions by `n - last`. |
| Filters.IsDefined | src/filter/filters.ts:100-102 | Definition, as the source has no promise beyond its body: a parameter is defined exactly when it is neither `undefined` nor `null` (both `None`); falsy values such as 0 count as defined. |
| Filters.RangeShouldExecute | src/filter/filters.ts:200-203 | Definition, as the source has no promise beyond its body: the Range filter applies exactly when both `from` and `to` are given. |
| Filters.LastShouldExecute | src/filter/filters.ts:288-290 | Definition, as the source has no promise beyond its body: the Last filter applies exactly when `last` is given, a count of 0 included. |
| Filters.RelativeIndex | src/filter/filters.ts:184 | A `slice` index is clamped into `[0, n]`. |
| Filters.Tag | src/filter/filters.ts:185-190 | Tagging keeps one result per entry. |
| FilterService.Filter | src/filter/filter-service.ts:23-46 | Returns `Filtered`: the results of the applicable filters in order, or every entry with its index when none applies. This assumes the entries are chronological whenever `from` is given. |
| FilterService.ExecuteAll | src/filter/filter-service.ts:38-41 | Running the applicable filters one after another and pushing their results gives their contributions concatenated in list order, given chronological entries whenever `from` is given. |
| FilterService.Execute | src/filter/filter-service.ts:39 | Running one applicable filter gives that filter's results: always for the Last and On filters, and for the Range and From filters on chronological entries. |
| FilterService.MatchedSelectsApplicable | src/filter/filter-service.ts:36 | The matched filters are exactly those whose `shouldExecute` holds, and no more than there are filters. |
| FilterService.FilterConcatenatesInDeclaredOrder | src/filter/filter-service.ts:24-41 | When any filter applies, the result is the Range, Last, From and On results, concatenated in that order, each included only when its filter applies. |
| FilterService.FilterFallsBackToEveryEntry | src/filter/filter-service.ts:31-33 | When no filter applies, the result is every entry in order, with its index as position. |
| FilterService.RangeAndLastTogether | src/filter/filter-service.ts:24-45 | With `from`, `to` and `last` all given, the result is the Range results, then the Last results, then the On results; From is skipped. |
| FilterService.ConcatenatedAppend | src/filter/filter-service.ts:38-41 | Pushing the results of two lists of filters one after the other is pushing those of the joined list. |
| TreeNodes.TreeNode.constructor | src/storage/tree-node.ts:3-12 | A new node holds the given key and value, with no keys and an empty index. |
| TreeNodes.TreeNode.AddChild | src/storage/tree-node.ts:14-20 | A key already indexed throws `Index '<key>' already exists` and changes nothing. Otherwise the child is indexed under its key and `keys` becomes the sorted old keys plus the new one. The invariant (keys list the index, each once, in ascending order) is kept. |
| TreeNodes.TreeNode.FindChild | src/storage/tree-node.ts:32-34 | Property access on a `Map` finds nothing: the result is null, even for an indexed key. |
| TreeNodes.TreeNode.CreateChildUnlessExists | src/storage/tree-node.ts:22-30 | Throws the duplicate-key error, changing nothing, for a key already present. Otherwise it adds exactly one fresh child with that key, value and no children, and returns it. |
| TreeNodes.KeysMatchIndex | src/storage/tree-node.ts:15-19 | In a valid node, `keys` and the index hold the same keys, and no key twice. |
| TreeNodes.EnumeratesIffSameMultiset | src/storage/tree-node.ts:17-19 | Listing each indexed key once is having the same multiset as the index's key set. |
| Journals.Journal.constructor | src/storage/journal.ts:10-13 | Keeps the given database and file name. |
| Journals.Journal.AddEntry | src/storage/journal.ts:15-27 | The root gains exactly the fresh, childless nodes for `Added` (the keys created before the first that is already present); existing children are unchanged. The call fails with that key's duplicate error unless all three keys are created. On success the weekday node holds exactly one leaf, keyed by the timestamp and holding the entry. |
| Journals.Journal.CreateDayNode | src/storage/journal.ts:21-23 | The three `createChildUnlessExists` calls on the root create the year, month and weekday nodes in turn until a key is already present, and report that key's error. |
| Journals.EntryKeys | src/storage/journal.ts:17-19 | `addEntry` derives three keys from the date. |
| Journals.CreatedIsLongestNewPrefix | src/storage/journal.ts:21-23 | Successive creations add a prefix of the requested keys, each new and distinct. They stop only at a key present before or added earlier in the run. |
| Journals.AddEntrySucceedsIff | src/storage/journal.ts:17-23 | `addEntry` succeeds exactly when none of the year, month and weekday keys is under the root and the three numbers are pairwise different. It adds nothing when the year is already present. |
| TempFileParsing.Parse | src/editor/tempfile-parser.ts:4-18 | Empty contents give null; any other contents give an entry. |
| TempFileParsing.ParseSplitsAtFirstNewline | src/editor/tempfile-parser.ts:10-15 | The date is the text before the first newline and the body the text after it; without a newline, the date is everything and the body is empty. |
| TempFileParsing.ParseInverse | src/editor/tempfile-parser.ts:10-15 | A parsed date has no newline, and the contents were the date alone (with an empty body) or date, newline, body. |
| TempFileParsing.ParseRoundTrip | src/editor/tempfile-parser.ts:10-15 | Writing a single-line date, a newline and a body, then parsing, gives back exactly that date and body. |
| JournalTempFiles.ParseContents | src/editor/journal-temp-file.ts:53-69 | Empty contents give null. Otherwise the body is the whole contents unchanged, and the date has no newline. |
| JournalTempFiles.ParseContentsDateIsFirstLine | src/editor/journal-temp-file.ts:60-63 | The date read is the first line, the same date `TempFileParser.parse` reads. |
| JournalTempFiles.NewEntryRoundTrip | src/editor/journal-temp-file.ts:42-44 | A new entry written and read back comes back with body `date + "\n" + body`, and with its date when that is a single line. |
| JournalTempFiles.ExistingEntryRoundTrip | src/editor/journal-temp-file.ts:42-44 | An existing entry reads back with its body unchanged, so there is no second date line. Its date is the body's first line, and an empty body reads back as null. |
| JournalTempFiles.StoredEntryRoundTrip | src/editor/journal-temp-file.ts:42-44 | An existing entry whose body starts with its date line reads back exactly as it was. |
| JournalTempFiles.WriteContents | src/editor/journal-temp-file.ts:42-44 | A new entry is written as its date, a newline and its body; an existing entry as its body alone. The file is empty exactly when an existing entry has an empty body. |
| JournalTempFiles.ChosenFilename | src/editor/journal-temp-file.ts:11-13 | A given non-empty name is kept; a missing or empty one is replaced by the generated name plus `.md`. |
| JournalTempFiles.JournalTempFile.constructor | src/editor/journal-temp-file.ts:11-13 | The file name is the chosen one. |
| EditorServices.TempFileName | src/editor/editor-service.ts:62-64 | The temp-file name is the generated unique name followed by `.md`. |
| EditorServices.TempFileContents | src/editor/editor-service.ts:118 | The editor's temp file holds the same text `JournalTempFile.write` writes for a new entry: the date, then a newline at the date's length, then the body. |
| EditorServices.TempFileReadsBack | src/editor/editor-service.ts:116-118 | Temp-file contents (date, newline, body) that the editor leaves untouched parse back to the same entry, for a single-line date. |
| EditorServices.CommandLine | src/editor/editor-service.ts:72-80 | An unset `EDITOR` is an error. Otherwise the last argument is the temp file; every other argument, and the command when there is one, is a non-blank token without spaces. With no token, the command is undefined and the temp file is the only argument. The argument count is the token count, or 1. |
| EditorServices.OpenEditorCommand | src/editor/editor-service.ts:74-79 | The `shift`/`push` steps build exactly `CommandLine`. |
| EditorServices.CommandLineRoundTrip | src/editor/editor-service.ts:74-79 | A setting made of a command and arguments joined by single spaces, none blank or spaced, gives back that command and those arguments in order, with the temp file last. |
| EditorServices.CommandLineIgnoresBlankTokens | src/editor/editor-service.ts:74 | Extra spaces between tokens change nothing: only the non-blank tokens count. |
| EditorServices.BlankEditorHasNoCommand | src/editor/editor-service.ts:74-79 | A blank `EDITOR` gives an undefined command and the temp file as the only argument. |
| Arrays.FlattenArray | src/util/arrays.ts:1-4 | The result is the accumulator object itself. Its contents become the old contents followed by those of `currentValue`, so its length grows by exactly that many. `currentValue` is unchanged unless it is the accumulator. |
| Arrays.JsArray.Push | src/util/arrays.ts:2 | `push(...values)` appends the values in order. |
| Text.Sort | src/storage/tree-node.ts:19 | The sorted keys are a permutation of the keys, in ascending default string order. |
| Text.JoinSplit | src/editor/journal-temp-file.ts:60-64 | Joining the pieces of a split with the same separator gives the string back. |
| Text.SplitJoin | src/editor/editor-service.ts:74 | Splitting pieces joined by a separator none of them contains gives the pieces back. |
| Text.NonBlank | src/editor/editor-service.ts:74 | The kept tokens are exactly the input tokens that are not blank when trimmed. |
| Text.DecimalStringInjective | src/storage/journal.ts:17-19 | Two integers have the same decimal string exactly when they are equal. |

## Left out

- moment.js is not part of this model. Dates are integers read through the `Calendar` functions, so the search's three comparisons are a total order. With the invalid dates moment.js can produce, none of the three holds and the source loop never ends; that case is not modelled. The `'LLLL'` formatting of `setToStartOfDay`/`setToEndOfDay`, which drops the seconds, is folded into `Calendar.startOfDay`/`endOfDay`.
- Filters.FindFirstOnOrAfterDate: on entries that are not in chronological order, only the bounds of the answer are stated, not which index it is.
- Filters.RangeExecute: on entries that are not in chronological order, its contract states nothing about the result.
- Filters.FromExecute: on entries that are not in chronological order, its contract states nothing about the result.
- FilterService.Execute: for the Range and From filters on entries that are not in chronological order, its contract states nothing; the Last and On results are stated for any entries.
- FilterService.ExecuteAll: when `from` is given and the entries are not in chronological order, its contract states nothing, not even about the Last and On parts of a combined query.
- FilterService.Filter: when `from` is given and the entries are not in chronological order, its contract states nothing, not even about the Last and On parts of a combined query.
- FilterService.Filter takes the entries as the array its declared `Entry[]` parameter promises. The callers at `src/application.ts:79` and `:132` pass a `Journal` object instead, which has no `length` and no indices; what the filters would do with it is not modelled.
- `OnFilter` is imported from `./filters` (`src/filter/filter-service.ts:5`), but `src/filter/filters.ts` does not define it. Whether it applies and what it returns are parameters of `FilterService.Filter`.
- `Journal.addEntry` takes the year, zero-based month, weekday and ISO timestamp strings as inputs. Deriving them from the date through moment.js is left out, and `Journals.EntryKeys` only spells out the `toString` step.
- Journals.Journal.AddEntry: the ghost results `made` and `added` name the created keys and nodes. The three root calls are grouped in `CreateDayNode` so that each method's proof stays small.
- `Journal.load`/`save`, `StorageService` and `ConfigService`, and all file-system, process and Promise plumbing, are left out. This covers reading and writing the temp file, spawning the editor, its exit code and `uniqueFilename`. The unique name is an input.
- JSON persistence (`JSON.parse(...) as TreeNode`) yields plain objects without methods, and a `Map` serialises to `{}`. No round trip exists to model.
- Keys such as `"get"` or `"size"`, which a `Map` inherits as properties, would make `findChild` find something. `TreeNodes.TreeNode.FindChild` always returns null.
- `Text.Less` compares strings by Unicode code point. `Array.prototype.sort` compares UTF-16 code units; the two differ only for characters outside the Basic Multilingual Plane, which never appear in the journal's numeric and ISO-timestamp keys.
- Numbers are unbounded integers. A non-integer or NaN `last` is not modelled.
- `application.ts` (rendering and orchestration), `index.ts` (command line), `inversify.config.ts` and the build are not part of this model.
