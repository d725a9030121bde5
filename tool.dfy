/** The `CompareTool` object: its settings, the nested table dictionary it
    fills, the section and file name it carries from line to line and from
    file to file, and the methods `compare`, `split_line`, `make_table` and
    `replace_square_brackets` that update them. Each method is proved
    against the functions of `Classifier` and `Tables`. */
module Tool {
  import opened Text
  import opened Classifier
  import opened Tables
  import opened Pairing

  class CompareTool {
    /** Markup output (wiki tables) instead of plain tables. */
    const markup: bool
    /** Wrap width of the cells; forced to 0 in markup mode. */
    const wrap: int
    /** The column the rendered tables are sorted by. */
    const sortbyField: string
    /** `textwrap.fill`, a library call taken as given. */
    const fill: (string, nat) -> string

    /** File name to section name to rows. */
    var tableDict: Table
    /** The section rows are filed under; set by headers, never reset. */
    var section: string
    /** The file whose diff is being classified. */
    var filename: string

    /** The settings `make_table` renders cells with. */
    function Config(): (cfg: Settings)
      ensures cfg.markup == markup && cfg.wrap == wrap && cfg.fill == fill
    {
      Settings(wrap, markup, fill)
    }

    /** The settings part of `__init__`: markup mode switches wrapping off;
        the table dictionary starts empty and the section empty. */
    constructor (wrapWidth: int, isMarkup: bool, sortby: string, filler: (string, nat) -> string)
      ensures markup == isMarkup && wrap == (if isMarkup then 0 else wrapWidth)
      ensures sortbyField == sortby && fill == filler
      ensures tableDict == map[] && section == ""
    {
      markup := isMarkup;
      wrap := if isMarkup then 0 else wrapWidth;
      sortbyField := sortby;
      fill := filler;
      tableDict := map[];
      section := "";
      filename := "";
    }

    /** `split_line`: drop the diff marker, split at the first `=` only and
        strip both parts. */
    method SplitLine(line: string) returns (elements: seq<string>)
      ensures elements == SplitParts(line)
    {
      var rest := if |line| == 0 then "" else line[1..];
      var j := 0;
      while j < |rest| && rest[j] != '='
        invariant 0 <= j <= |rest|
        invariant '=' !in rest[..j]
      {
        j := j + 1;
      }
      if j == |rest| {
        assert rest[..j] == rest;
        SplitOnceSpec(rest, '=');
        elements := [Strip(rest)];
      } else {
        SplitOnceAt(rest, '=', j);
        elements := [Strip(rest[..j]), Strip(rest[j + 1..])];
      }
    }

    /** `v.replace(c, rep)` for a one-character pattern. */
    method Replace(v: string, c: char, rep: string) returns (r: string)
      ensures r == ReplaceAll(v, c, rep)
      ensures c !in rep ==> c !in r
    {
      r := "";
      var k := 0;
      while k < |v|
        invariant 0 <= k <= |v|
        invariant r == ReplaceAll(v[..k], c, rep)
      {
        ReplaceAllConcat(v[..k], [v[k]], c, rep);
        assert v[..k + 1] == v[..k] + [v[k]];
        r := r + (if v[k] == c then rep else [v[k]]);
        k := k + 1;
      }
      assert v[..k] == v;
    }

    /** `replace_square_brackets`: every `[` becomes `\[`, then every `]`
        becomes `\]`; the result is the one-pass escape and loses nothing. */
    method ReplaceSquareBrackets(v: string) returns (r: string)
      ensures r == Escaped(v)
      ensures Unescape(r) == v
    {
      r := Replace(v, '[', "\\[");
      r := Replace(r, ']', "\\]");
      TwoPassIsEscape(v);
      UnescapeEscaped(v);
    }

    /** `wrap_line`. */
    function WrapLine(v: string): (w: string)
      ensures wrap <= 0 ==> w == v
    {
      WrapCell(v, Config())
    }

    /** One cell through `wrap_line` and, in markup mode, the bracket escape. */
    method RenderCell(v: string) returns (w: string)
      ensures w == Cell(v, Config())
    {
      w := WrapLine(v);
      if markup {
        w := ReplaceSquareBrackets(w);
      }
    }

    /** `make_table`: render the row and append it to the table of the
        current file and section, creating the entries that are missing. */
    method MakeTable(row: Row)
      modifies this`tableDict
      ensures tableDict == Insert(old(tableDict), filename, section, RenderRow(row, Config()))
      ensures Rows(tableDict, filename, section) == Rows(old(tableDict), filename, section) + [RenderRow(row, Config())]
      ensures forall f, s :: (f != filename || s != section) ==> Rows(tableDict, f, s) == Rows(old(tableDict), f, s)
    {
      var status := RenderCell(StatusName(row.status));
      var option := RenderCell(row.option);
      var oldValue := RenderCell(row.oldValue);
      var newValue := RenderCell(row.newValue);
      var elements := Cells(status, option, oldValue, newValue);
      if filename in tableDict {
        if section in tableDict[filename] {
          tableDict := tableDict[filename := tableDict[filename][section := tableDict[filename][section] + [elements]]];
        } else {
          tableDict := tableDict[filename := tableDict[filename][section := [elements]]];
        }
      } else {
        tableDict := tableDict[filename := map[section := [elements]]];
      }
      InsertRows(old(tableDict), filename, section, RenderRow(row, Config()));
    }

    /** `make_table` for a row the classifier emits: the table grows by one
        entry of the current file. */
    method Emit(row: Row, ghost t0: Table, ghost before: seq<Entry>) returns (ghost after: seq<Entry>)
      requires tableDict == AddEntries(t0, filename, before, Config())
      modifies this`tableDict
      ensures after == before + [Entry(section, row)]
      ensures tableDict == AddEntries(t0, filename, after, Config())
    {
      MakeTable(row);
      after := before + [Entry(section, row)];
      AddEntriesSnoc(t0, filename, before, Entry(section, row), Config());
    }

    /** One pass of the loop body of `compare`: the stripped line and its
        lookahead line (`None` when too short or past the end). `skip` says
        that the lookahead line was consumed; `fault` is the changed line
        without `=` that makes the source raise, after the rows added
        before it. */
    method CompareLine(line: Option<Line>, nextLine: Option<Line>, ghost i: nat, ghost t0: Table, ghost before: seq<Entry>)
      returns (skip: bool, fault: Option<string>, ghost after: seq<Entry>)
      requires tableDict == AddEntries(t0, filename, before, Config())
      modifies this`section, this`tableDict
      ensures var st := StepOn(line, nextLine, old(section), i);
        && section == st.section && fault == st.fault
        && st.next == (if skip then i + 2 else i + 1)
        && after == before + Tag(st.rows, old(section))
        && tableDict == AddEntries(t0, filename, after, Config())
    {
      ghost var s0 := section;
      skip, fault, after := false, None, before;
      if line.Some? && IsHeader(line.value) {
        section := Strip(line.value);
      } else if line.Some? && IsRemoved(line.value) {
        var elements := SplitLine(line.value);
        if Pairs(nextLine) {
          var nextElements := SplitLine(nextLine.value);
          skip := true;
          if elements[0] == nextElements[0] {
            // the option is in both files with a new value
            if |nextElements| < 2 {
              fault := Some(nextLine.value);
            } else if |elements| < 2 {
              fault := Some(line.value);
            } else {
              var row := Row(Updated, elements[0], elements[1], nextElements[1]);
              after := Emit(row, t0, after);
              TagOne(row, s0);
            }
          } else {
            // the option of this line is only in the first file,
            // the option of the next line only in the second
            if |elements| < 2 {
              fault := Some(line.value);
            } else {
              var row := Row(Deleted, elements[0], elements[1], "");
              after := Emit(row, t0, after);
              TagOne(row, s0);
              if |nextElements| < 2 {
                fault := Some(nextLine.value);
              } else {
                var row' := Row(New, nextElements[0], "", nextElements[1]);
                after := Emit(row', t0, after);
                TagTwo(row, row', s0);
                AppendTwo(before, Entry(s0, row), Entry(s0, row'));
              }
            }
          }
        } else {
          // the option is only in the first file
          if |elements| < 2 {
            fault := Some(line.value);
          } else {
            var row := Row(Deleted, elements[0], elements[1], "");
            after := Emit(row, t0, after);
            TagOne(row, s0);
          }
        }
      } else if line.Some? && IsAdded(line.value) {
        // the option is only in the second file
        var elements := SplitLine(line.value);
        if |elements| < 2 {
          fault := Some(line.value);
        } else {
          var row := Row(New, elements[0], "", elements[1]);
          after := Emit(row, t0, after);
          TagOne(row, s0);
        }
      }
    }

    /** The loop of `compare` over the unified-diff lines of one file pair.
        It files rows exactly as `Classify` says, leaves the section where
        `Classify` does, and stops at the first changed line without `=`
        (an exception in the source), keeping the rows added before it. */
    method Compare(diffResult: seq<string>) returns (fault: Option<string>)
      modifies this`section, this`tableDict
      ensures var c := Classify(Normalized(diffResult), 0, old(section));
        section == c.section && fault == c.fault &&
        tableDict == AddEntries(old(tableDict), filename, c.entries, Config())
    {
      ghost var ls := Normalized(diffResult);
      ghost var whole := Classify(ls, 0, section);
      ghost var emitted: seq<Entry> := [];
      assert whole == Prefix(emitted, whole);
      var length := |diffResult|;
      var i := 0;
      fault := None;
      while i < length
        invariant 0 <= i <= length && fault.None?
        invariant whole == Prefix(emitted, Classify(ls, i, section))
        invariant tableDict == AddEntries(old(tableDict), filename, emitted, Config())
        decreases length - i
      {
        var line := Normalize(diffResult[i]);
        var nextLine: Option<Line> := None;
        if i + 1 < length {
          nextLine := Normalize(diffResult[i + 1]);
        }
        NormalizedAt(diffResult, i);
        if i + 1 < length {
          NormalizedAt(diffResult, i + 1);
        }
        ghost var i0, s0, before := i, section, emitted;
        ghost var st := Step(ls, i, section);
        assert st == StepOn(line, nextLine, s0, i0);
        ClassifyStep(ls, i, section);
        var skip;
        skip, fault, emitted := CompareLine(line, nextLine, i, old(tableDict), emitted);
        i := i + 1;
        if fault.Some? {
          assert whole == Classified(emitted, section, fault);
          return;
        }
        if skip {
          i := i + 1;
        }
        assert i == st.next && section == st.section && emitted == before + Tag(st.rows, s0);
        ghost var rest := Classify(ls, i, section);
        assert Classify(ls, i0, s0) == Prefix(Tag(st.rows, s0), rest);
        PrefixPrefix(before, Tag(st.rows, s0), rest);
      }
      assert Classify(ls, i, section) == Classified([], section, None);
      assert whole == Classified(emitted, section, None);
    }

    /** The pairing loop of `__init__` over `order`, the names of the first
        directory in dictionary order: each name with a peer is compared,
        each name without one is reported, and a fault ends the run. */
    method Run(files1: map<string, string>, files2: map<string, string>, order: seq<string>, diff: Differ)
      returns (skipped: seq<string>, fault: Option<string>)
      requires forall f :: f in order <==> f in files1
      requires forall a, b :: 0 <= a < b < |order| ==> order[a] != order[b]
      modifies this`tableDict, this`section, this`filename
      ensures RunState(tableDict, section, filename, skipped, fault) ==
        CompareFiles(RunState(old(tableDict), old(section), old(filename), [], None), order, files1, files2, diff, Config())
    {
      ghost var whole := CompareFiles(RunState(tableDict, section, filename, [], None), order, files1, files2, diff, Config());
      skipped, fault := [], None;
      var k := 0;
      while k < |order|
        invariant 0 <= k <= |order| && fault.None?
        invariant whole == CompareFiles(RunState(tableDict, section, filename, skipped, fault), order[k..], files1, files2, diff, Config())
        decreases |order| - k
      {
        var file := order[k];
        ghost var st := RunState(tableDict, section, filename, skipped, fault);
        assert order[k..][1..] == order[k + 1..];
        var file1 := Get(files1, file);
        var file2 := Get(files2, file);
        filename := file;
        if file1 != "" && file2 != "" {
          fault := Compare(diff(file1, file2));
          if fault.Some? {
            return;
          }
        } else {
          skipped := skipped + [file];
        }
        k := k + 1;
      }
    }
  }
}
