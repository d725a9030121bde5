# compare_tool, modelled in Dafny

`compare_tool.py` compares two directories of OpenStack configuration files
(an Icehouse tree and a Liberty tree). It pairs the files that have the same
name, computes a unified diff of each pair and reads that diff line by line:

- a header line `[section]`, changed or not, sets the current section;
- a removed option `-key=value` followed by an added `+key=value` with the
  same key is an `updated` row;
- a removed option alone is a `removed` row;
- an added option alone is a `new` row.

Rows go into one table per file and per section. The report sorts the
sections of each file by name, ignoring `+` and `-`, and labels sections from
a removed or an added header with `(deleted)` or `(added)`.

The model has five modules, one file each:

- `text.dfy` (`Text`): the Python 2 string operations the tool relies on,
  written out over `seq<char>`:
  - `strip`;
  - `split('=', 1)`;
  - `replace`;
  - `translate(None, '+-')`;
  - the byte-string order.
- `classifier.dfy` (`Classifier`): the loop of `compare` as a pure
  specification.
  - `Step` is one iteration over the stripped lines.
  - `Classify` is the whole loop. It returns the rows emitted, each tagged with
    its section, plus the final section and the line that made the source
    raise, if any.
- `tables.dfy` (`Tables`): what `make_table` does to the nested dictionary
  `file -> section -> rows`, and how a cell is wrapped and escaped.
- `tool.dfy` (`Tool`): the `CompareTool` class.
  - Its fields are the settings, `tableDict`, `section` and `filename`.
  - Its methods are `SplitLine`, `Replace`, `ReplaceSquareBrackets`,
    `WrapLine`, `RenderCell`, `MakeTable`, `Emit`, `CompareLine`, `Compare`
    and `Run`.
  - Each method is proved against the functions of the other modules. For
    example, `Compare` leaves `tableDict` equal to the table the
    specification builds from `Classify`.
- `pairing.dfy` (`Pairing`) and `report.dfy` (`Report`):
  - `Pairing` is the walk over the file names in `__init__`.
  - `Report` is the sort key and the section label of `print_table`, plus the
    one finding below.

Errors are values, not exceptions. A changed line without `=` makes the
source raise, either by indexing past the split or because `add_row` gets a
row of the wrong length. The model returns that line as `fault`, after the
rows the source had already added.

## Model

| member | source | states |
|---|---|---|
| Text.StripSpec | compare_tool.py:64 | a stripped line neither starts nor ends with whitespace, is a contiguous stretch of the raw line, and everything dropped before and after it is whitespace |
| Text.Strip | compare_tool.py:64 | `str.strip()`: the text with leading and trailing whitespace removed (its properties are in `Text.StripSpec`) |
| Text.StripPadded | compare_tool.py:64 | a diff line whose text is followed by whitespace and a line break strips to that text |
| Text.StripIdempotent | compare_tool.py:76 | the second `strip()` of a header line changes nothing |
| Text.SplitOnce | compare_tool.py:109 | `str.split('=', 1)`: the text before the first separator and the text after it, or the whole text when there is none (characterised by `Text.SplitOnceSpec`) |
| Text.SplitOnceSpec | compare_tool.py:109 | `split('=', 1)` gives one part exactly when there is no `=`; otherwise the two parts joined with `=` give back the input and the first part holds no `=` |
| Text.SplitOnceAt | compare_tool.py:109 | the split happens at the first `=`, so the value keeps any later `=` |
| Text.ReplaceAll | compare_tool.py:139-140 | `str.replace` with a one-character pattern: every occurrence replaced, left to right (`Text.TwoPassIsEscape` relates the two passes to the escape) |
| Text.TwoPassIsEscape | compare_tool.py:138-141 | replacing `[` and then `]` escapes every bracket exactly once, because the first pass adds no `]` |
| Text.UnescapeEscaped | compare_tool.py:138-141 | the bracket escape loses nothing: reading it back gives the original text |
| Text.RemoveChars | compare_tool.py:157 | `str.translate(None, chars)`: no character of `chars` remains, every remaining character comes from the input, and an input without such characters is returned unchanged |
| Text.RemoveCharsIdempotent | compare_tool.py:157 | deleting `+` and `-` a second time changes nothing |
| Text.LexLe | compare_tool.py:157 | Python 2's `<=` on byte strings, lexicographic by character code (`Text.LexLeTotal` and `Text.LexLeTransitive` make it a total order) |
| Text.LexLeTotal | compare_tool.py:157 | any two sort keys are comparable |
| Text.LexLeTransitive | compare_tool.py:157 | the string order of the sort is transitive |
| Classifier.StatusNameInjective | compare_tool.py:11-13 | the three status strings `new`, `removed` and `updated` are different |
| Classifier.Normalize | compare_tool.py:64-72 | a diff line is stripped, and a line of at most one character becomes `None` (used through `Classifier.NormalizedAt`) |
| Classifier.IsHeader | compare_tool.py:75 | a header has `[` as its first or second character |
| Classifier.IsRemoved | compare_tool.py:77 | a removed option line starts with `-` and its second character is not `-` |
| Classifier.Pairs | compare_tool.py:79 | the lookahead pairs with a removed line when it exists, starts with `+` and its second character is not `[` |
| Classifier.IsAdded | compare_tool.py:102 | an added option line starts with `+` and its second character is not `+` |
| Classifier.SplitParts | compare_tool.py:108-111 | `split_line`: at most two parts, the stripped text after the marker split at the first `=` (characterised by `Classifier.SplitPartsCount` and `Classifier.SplitPartsAt`) |
| Classifier.SplitPartsCount | compare_tool.py:108-111 | `split_line` gives two parts exactly when the line after its marker holds `=`; otherwise it gives one part, the stripped rest |
| Classifier.SplitPartsAt | compare_tool.py:108-111 | for `marker key=value` with no `=` in the key, `split_line` gives the stripped key and the stripped value |
| Classifier.NormalizedAt | compare_tool.py:64-72 | line `j` of the loop is the stripped line `j` of the diff, or nothing when it has at most one character |
| Classifier.Step | compare_tool.py:63-106 | one iteration consumes one line, or two when a removed line takes its lookahead, and never runs past the end |
| Classifier.StepOn | compare_tool.py:73-106 | an iteration consumes the lookahead only when there is one |
| Classifier.RemovedStep | compare_tool.py:77-100 | a removed line keeps the section, and it consumes the next line exactly when that line is `+x` and not `+[` |
| Classifier.PairedStep | compare_tool.py:79-95 | a removed line with its partner keeps the section and always consumes both lines |
| Classifier.AddedStep | compare_tool.py:102-106 | an added line alone keeps the section and consumes one line |
| Classifier.Classify | compare_tool.py:63-106 | the whole `while` loop: the rows emitted with their sections, the final section, and the line that raised; its properties are the lemmas below and `Tool.CompareTool.Compare` is proved equal to it |
| Classifier.UpdatedPair | compare_tool.py:82-85 | a removed and an added line with the same key give one `updated` row holding the old and the new value |
| Classifier.DifferentKeysStep | compare_tool.py:86-95 | a removed and an added line with different keys give a `removed` row, then a `new` row, and consume both lines |
| Classifier.DifferentKeys | compare_tool.py:86-94 | the same two rows, in that order, at the head of the rest of the classification |
| Classifier.LoneRemoved | compare_tool.py:96-100 | a removed line without a partner gives a `removed` row with an empty new value |
| Classifier.LoneAdded | compare_tool.py:102-106 | an added line alone gives a `new` row with an empty old value |
| Classifier.HeaderStep | compare_tool.py:75-76 | a header line sets the section to the stripped line and emits nothing |
| Classifier.HeaderSetsSection | compare_tool.py:64-76 | in terms of the raw diff, the section becomes `diff[i].strip()` |
| Classifier.MissingSeparatorFaults | compare_tool.py:77-106 | a removed or added option line without `=` always aborts the comparison |
| Classifier.IgnoredLine | compare_tool.py:75-106 | lines that are neither a header nor an option change (context, `---`, `+++`, `@@`, too short) change nothing |
| Classifier.LoneRemovedFault | compare_tool.py:96-100 | a lone removed line without `=` raises before any row is added |
| Classifier.PairedFaults | compare_tool.py:79-94 | which line raises in each pairing case; with different keys and only the added line lacking `=`, the `removed` row is already in the table |
| Classifier.LoneAddedFault | compare_tool.py:102-106 | a lone added line without `=` raises before any row is added |
| Classifier.StepFacts | compare_tool.py:73-106 | only a header changes the section, and then it emits no row; two lines are consumed only for a removed line and its partner; every row has one of the three shapes |
| Classifier.ClassifyShapes | compare_tool.py:63-106 | every row is `updated`, `removed` with an empty new value, or `new` with an empty old value |
| Classifier.NoChangesNoRows | compare_tool.py:63-106 | a diff with no removed or added option line (identical files) gives no row and no fault |
| Classifier.NoHeaderKeepsSection | compare_tool.py:75-76 | without a header ahead, every row goes to the current section and the section stays as it was |
| Classifier.FinalSectionIsLastHeader | compare_tool.py:63-106 | after a complete pass the section is the last header of the diff, or the incoming section when there is none; a header is never consumed as lookahead |
| Classifier.RemovedLinesAccounted | compare_tool.py:63-106 | a complete pass gives exactly one `removed` or `updated` row per removed option line |
| Classifier.StepOldSide | compare_tool.py:77-100 | one iteration gives one row on the old side for a removed line and none otherwise |
| Tables.RenderWithoutWrap | compare_tool.py:113-116 | without wrapping, a markup row reads back as the classified row, and a plain row is stored unchanged |
| Tables.Cell | compare_tool.py:114-116 | a cell is wrapped when the width is positive, then escaped in markup mode |
| Tables.RenderRow | compare_tool.py:113-116 | a row is stored as its four rendered cells: status name, option, old value, new value (`Tables.RenderWithoutWrap` says what is kept) |
| Tables.Insert | compare_tool.py:117-131 | after `make_table` the file and the section both have an entry |
| Tables.InsertRows | compare_tool.py:117-131 | the row goes at the end of the table of the current file and section; every other table is unchanged; the file key and section key are added if they were missing |
| Tables.AddEntriesRows | compare_tool.py:113-131 | after a sequence of rows for one file, each section's table is its old rows followed by that section's new rows, in order; other files are unchanged; every section used has a table |
| Tables.AddEntries | compare_tool.py:113-131 | a sequence of `make_table` calls for one file, in order (characterised by `Tables.AddEntriesRows`) |
| Tool.CompareTool.constructor | compare_tool.py:17-25 | markup mode forces the wrap width to 0; the table dictionary and the section start empty |
| Tool.CompareTool.SplitLine | compare_tool.py:108-111 | the loop that looks for the first `=` computes `SplitParts` |
| Tool.CompareTool.Replace | compare_tool.py:139-140 | `str.replace` replaces every occurrence, so none is left when the replacement does not contain the character |
| Tool.CompareTool.ReplaceSquareBrackets | compare_tool.py:138-141 | the result is the bracket escape of the input and reads back as the input |
| Tool.CompareTool.WrapLine | compare_tool.py:133-136 | with a width of 0 or less the value is not wrapped |
| Tool.CompareTool.RenderCell | compare_tool.py:114-116 | a cell is wrapped and, in markup mode, then escaped |
| Tool.CompareTool.MakeTable | compare_tool.py:113-131 | the new dictionary is the old one with the rendered row appended to the (file, section) table, created if missing; no other table changes |
| Tool.CompareTool.Emit | compare_tool.py:113-131 | one `make_table` call for a classified row extends the table by exactly that row of the current file and section |
| Tool.CompareTool.CompareLine | compare_tool.py:64-106 | one pass of the loop body updates the section, appends the rows and reports the fault exactly as `StepOn` says |
| Tool.CompareTool.Compare | compare_tool.py:61-106 | afterwards the section, the fault and the tables are those of `Classify` over the stripped diff, starting from the section the object already held |
| Tool.CompareTool.Run | compare_tool.py:28-37 | the loop over the first directory's names leaves the object in the state `CompareFiles` gives |
| Pairing.Get | compare_tool.py:30-31 | a name missing from a directory gives no path |
| Pairing.HasPeer | compare_tool.py:33 | a name is compared exactly when both directories give it a non-empty path |
| Pairing.CompareFile | compare_tool.py:29-37 | each turn of the loop sets the current file name, whether or not the file has a peer |
| Pairing.CompareFiles | compare_tool.py:28-37 | the `for file in fileList` loop over the names in walk order, stopping at the first fault (`Tool.CompareTool.Run` is proved equal to it) |
| Pairing.Unpaired | compare_tool.py:29-37 | the names reported as passed are names of the walk that have no peer |
| Pairing.OnlyPairedFilesCompared | compare_tool.py:28-37 | only a name of the walk with a file in both directories gets tables; the tables of every other file are untouched |
| Pairing.SkippedAreUnpaired | compare_tool.py:28-37 | a run without a fault passes over exactly the names without a peer, in walk order |
| Pairing.SecondDirectoryOnlyIgnored | compare_tool.py:28-31 | a name found only in the second directory is neither compared nor reported |
| Pairing.SectionCarriesOver | compare_tool.py:25-34 | the section is not reset between files: the second file compared starts from the last header of the first |
| Pairing.InheritedSection | compare_tool.py:25-34 | so the rows of a second file without headers all go under the first file's last header |
| Report.SortKey | compare_tool.py:157 | the sort key contains no `+` or `-` and only characters of the section name, and a section without `+` or `-` is its own key |
| Report.SortKeyIgnoresMarker | compare_tool.py:157 | `-[s]`, `+[s]` and `[s]` have the same key, so they sort together |
| Report.SortKeyChar | compare_tool.py:157 | a `+` or `-` vanishes from the key and any other character stays |
| Report.SortKeyConcat | compare_tool.py:157 | the key of a concatenation is the concatenation of the keys, so the kept characters stay in order |
| Report.SortKeyIdempotent | compare_tool.py:157 | a key is its own key |
| Report.SortSections | compare_tool.py:156-157 | the sorted list has one entry per section |
| Report.SortSectionsSpec | compare_tool.py:156-157 | the sections are in non-decreasing key order and are exactly the sections given (a permutation) |
| Report.SectionDescAsWritten | compare_tool.py:158-164 | the label as written raises exactly for the empty section, and otherwise agrees with `SectionDesc` |
| Report.SectionDesc | compare_tool.py:158-164 | the label is defined for every section, and the empty section is labelled with the empty string |
| Report.SectionDescMarked | compare_tool.py:158-164 | `-h` is labelled `h(deleted)`, `+h` is labelled `h(added)`, and an unmarked section is its own label |
| Report.SectionDescInjective | compare_tool.py:158-164 | two sections ending in `]` never share a label |
| Report.Heading | compare_tool.py:166-174 | the heading `*file: label*` of a table, with the label escaped in markup mode (`Report.HeadingEscapeLossless` relates the two modes) |
| Report.HeadingEscapeLossless | compare_tool.py:166-168 | the markup heading escapes the label and reads back as the plain label |
| Report.OptionBeforeHeaderLines | compare_tool.py:64-72 | the example diff strips to its text lines |
| Report.OptionBeforeHeaderClassified | compare_tool.py:75-100 | in the example diff the file header and hunk lines are passed over, and the removed line becomes a `removed` row in section `""` |
| Report.EmptySectionReachable | compare_tool.py:158-159 | a diff whose only change is an option above every header puts a table under section `""` in the first file compared, and the label of that section raises |

## Left out

- `feed_files` and `os.walk`: the two directory maps `name -> path` are parameters. So is the order in which `fileDict1.keys()` returns its names (`Run`'s `order`).
- Reading the files and `difflib.unified_diff`: the diff of a pair of paths is the parameter `diff`, a function from two paths to diff lines.
- `logging` calls and the "peer file doesn't exist" message. The model records only the passed name (`skipped`).
- `textwrap.fill`: the tool's `fill` constant, taken as given.
- PrettyTable:
  - Rows are stored as four cells, and rendering is not modelled.
  - The table is created and stored just before `add_row` raises on a bad row. A fault path does not model that empty table.
  - The sort by `sortby_field` in `get_string` is left out: `sortbyField` is stored but not used.
- Everything `print_table` prints (file titles, breakers, field names, table text) and `main`/argparse. Only the section order, the section labels and the heading text are modelled.
- Report.SortSections: it does not state that sections with equal keys keep the dictionary order. The definition inserts each name before the equal-keyed names that follow it, as the stable sort does, but no lemma states it.
- Python's exceptions are `fault` values, and the run stops at the first one. What happens after the exception (the traceback) is not modelled.
- Where the wording of the tool's description and the code differ, the model follows the code:
  - the section is never reset between files;
  - the sort key deletes every `+` and `-`, not only a leading marker;
  - the lookahead after a removed line rejects `+[` but not `++`;
  - a key may be empty (`-=v`).

## Findings

| source | as written | input that shows it | evidently intended | confidence | as-written member | corrected member |
|---|---|---|---|---|---|---|
| compare_tool.py:159 | `section[0]` is read for every section name of a file's tables | the first file compared has an option line above its first header, and that line is removed (`k=v` on top, diffed against a file without it); its row is filed under the initial section `''`, and `''[0]` raises IndexError | test the marker with `section[:1]`, so the empty section gets the label `''` | high, not executed | Report.SectionDescAsWritten, Report.EmptySectionReachable | Report.SectionDesc |
