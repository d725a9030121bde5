/** The diff classifier of `CompareTool.compare`: how one unified-diff line,
    with one line of lookahead, becomes zero, one or two change rows, and
    what a whole diff classifies to. The loop itself lives in
    `CompareTool.Compare`; the functions here are its specification. */
module Classifier {
  import opened Text

  /** The status column: an option only in the second file, only in the
      first, or in both with another value. */
  datatype Status = New | Deleted | Updated

  const NEW := "new"
  const DELETED := "removed"
  const UPDATED := "updated"

  /** The text the status column shows. */
  function StatusName(st: Status): string {
    match st
    case New => NEW
    case Deleted => DELETED
    case Updated => UPDATED
  }

  /** The three status names are different strings, so the status column
      tells the three kinds apart. */
  lemma StatusNameInjective(a: Status, b: Status)
    requires StatusName(a) == StatusName(b)
    ensures a == b
  {
    assert |NEW| != |DELETED| && |NEW| != |UPDATED|;
    assert DELETED[0] != UPDATED[0];
  }

  /** One table row: `[status, option, old value, new value]`. */
  datatype Row = Row(status: Status, option: string, oldValue: string, newValue: string)

  /** A row together with the section that was current when it was emitted. */
  datatype Entry = Entry(section: string, row: Row)

  /** A stripped diff line that is not treated as `None`: at least two characters. */
  type Line = s: string | |s| >= 2 witness "  "

  /** A raw diff line, stripped; lines of length at most 1 count as `None`. */
  function Normalize(raw: string): Option<Line> {
    var t := Strip(raw);
    if |t| <= 1 then None else Some(t)
  }

  /** Section header: first or second character is `[`. */
  predicate IsHeader(l: Line) { l[0] == '[' || l[1] == '[' }

  /** Removed option line: `-x`, but not `--`. */
  predicate IsRemoved(l: Line) { l[0] == '-' && l[1] != '-' }

  /** Added option line: `+x`, but not `++`. */
  predicate IsAdded(l: Line) { l[0] == '+' && l[1] != '+' }

  /** The lookahead test after a removed line: `+x`, but not `+[`
      (a `++` second character is not rejected here). */
  predicate Pairs(next: Option<Line>) {
    next.Some? && next.value[0] == '+' && next.value[1] != '['
  }

  /** The line dropped of its first character. */
  function Rest(l: string): string {
    if l == [] then [] else l[1..]
  }

  /** `split_line`: drop the marker, split at the first `=`, strip both parts. */
  function SplitParts(l: string): (p: seq<string>)
    ensures 1 <= |p| <= 2
  {
    var parts := SplitOnce(Rest(l), '=');
    if |parts| == 1 then [Strip(parts[0])] else [Strip(parts[0]), Strip(parts[1])]
  }

  /** `split_line` gives two parts exactly when the text after the marker
      holds an `=`; one part is that whole text, stripped. */
  lemma SplitPartsCount(l: string)
    ensures |SplitParts(l)| == 2 <==> '=' in Rest(l)
    ensures |SplitParts(l)| == 1 ==> SplitParts(l)[0] == Strip(Rest(l))
  {
    SplitOnceSpec(Rest(l), '=');
  }

  /** With `key=value` after the marker and no `=` in `key`, the parts are
      the stripped key and the stripped value, whatever `=` the value holds. */
  lemma SplitPartsAt(l: string, key: string, value: string)
    requires Rest(l) == key + "=" + value && '=' !in key
    ensures SplitParts(l) == [Strip(key), Strip(value)]
  {
    var r := Rest(l);
    assert r[|key|] == '=' && r[..|key|] == key && r[|key| + 1..] == value;
    SplitOnceAt(r, '=', |key|);
  }

  /** What one iteration of the loop does. `fault` is the stripped line that
      made the iteration abort (a changed line without `=`); `rows` are the
      rows already added when it did. */
  datatype StepResult = StepResult(rows: seq<Row>, section: string, next: nat, fault: Option<string>)

  /** The diff as the loop sees it: every line stripped, short ones `None`. */
  function Normalized(d: seq<string>): (ls: seq<Option<Line>>)
    ensures |ls| == |d|
  {
    if d == [] then [] else [Normalize(d[0])] + Normalized(d[1..])
  }

  /** Line `j` of the normalized diff is line `j` of the diff, normalized. */
  lemma {:induction false} NormalizedAt(d: seq<string>, j: nat)
    requires j < |d|
    ensures Normalized(d)[j] == Normalize(d[j])
  {
    if j > 0 {
      NormalizedAt(d[1..], j - 1);
    }
  }

  /** The lookahead line after `i`, or `None` at the end of the diff. */
  function NextLine(ls: seq<Option<Line>>, i: nat): (o: Option<Line>)
    requires i < |ls|
    ensures o.Some? ==> i + 1 < |ls|
  {
    if i + 1 < |ls| then ls[i + 1] else None
  }

  /** One iteration of the loop of `compare`, starting at index `i`. */
  function Step(ls: seq<Option<Line>>, i: nat, section: string): (r: StepResult)
    requires i < |ls|
    ensures i + 1 <= r.next <= i + 2 && r.next <= |ls|
  {
    StepOn(ls[i], NextLine(ls, i), section, i)
  }

  /** One iteration, given the current line and the lookahead line. */
  function StepOn(line: Option<Line>, nextLine: Option<Line>, section: string, i: nat): (r: StepResult)
    ensures i + 1 <= r.next <= i + 2 && (r.next == i + 2 ==> nextLine.Some?)
  {
    match line
    case None => StepResult([], section, i + 1, None)
    case Some(l) =>
      if IsHeader(l) then StepResult([], Strip(l), i + 1, None)
      else if IsRemoved(l) then RemovedStep(l, nextLine, section, i)
      else if IsAdded(l) then AddedStep(l, section, i)
      else StepResult([], section, i + 1, None)
  }

  /** A removed line, with its possible partner. */
  function RemovedStep(l: Line, nextLine: Option<Line>, section: string, i: nat): (r: StepResult)
    ensures r.section == section && i + 1 <= r.next <= i + 2
    ensures r.next == i + 2 <==> Pairs(nextLine)
  {
    var e := SplitParts(l);
    if Pairs(nextLine) then PairedStep(l, e, nextLine.value, SplitParts(nextLine.value), section, i)
    else if |e| < 2 then StepResult([], section, i + 1, Some(l))
    else StepResult([Row(Deleted, e[0], e[1], "")], section, i + 1, None)
  }

  /** A removed line `l` (parts `e`) and its partner `n` (parts `ne`). */
  function PairedStep(l: Line, e: seq<string>, n: Line, ne: seq<string>, section: string, i: nat): (r: StepResult)
    requires 1 <= |e| <= 2 && 1 <= |ne| <= 2
    ensures r.section == section && r.next == i + 2
  {
    if e[0] == ne[0] then
      // line 84 indexes the added part's value first; a three-field
      // row is then refused by the table
      if |ne| < 2 then StepResult([], section, i + 2, Some(n))
      else if |e| < 2 then StepResult([], section, i + 2, Some(l))
      else StepResult([Row(Updated, e[0], e[1], ne[1])], section, i + 2, None)
    else
      if |e| < 2 then StepResult([], section, i + 2, Some(l))
      else if |ne| < 2 then StepResult([Row(Deleted, e[0], e[1], "")], section, i + 2, Some(n))
      else StepResult([Row(Deleted, e[0], e[1], ""), Row(New, ne[0], "", ne[1])], section, i + 2, None)
  }

  /** An added line reached on its own. */
  function AddedStep(l: Line, section: string, i: nat): (r: StepResult)
    ensures r.section == section && r.next == i + 1
  {
    var e := SplitParts(l);
    if |e| < 2 then StepResult([], section, i + 1, Some(l))
    else StepResult([Row(New, e[0], "", e[1])], section, i + 1, None)
  }

  /** Rows filed under one section. */
  function Tag(rows: seq<Row>, section: string): (es: seq<Entry>)
    ensures |es| == |rows|
    ensures forall k :: 0 <= k < |es| ==> es[k] == Entry(section, rows[k])
  {
    if rows == [] then [] else [Entry(section, rows[0])] + Tag(rows[1..], section)
  }

  lemma TagOne(r: Row, s: string)
    ensures Tag([r], s) == [Entry(s, r)]
  {
  }

  lemma TagTwo(r1: Row, r2: Row, s: string)
    ensures Tag([r1, r2], s) == [Entry(s, r1), Entry(s, r2)]
  {
  }

  lemma AppendTwo(es: seq<Entry>, e1: Entry, e2: Entry)
    ensures (es + [e1]) + [e2] == es + [e1, e2]
  {
  }

  /** The outcome of classifying a diff: the rows in emission order with their
      sections, the section left current, and the fault that aborted it. */
  datatype Classified = Classified(entries: seq<Entry>, section: string, fault: Option<string>)

  /** `es` emitted before the rest of a classification. */
  function Prefix(es: seq<Entry>, c: Classified): Classified {
    Classified(es + c.entries, c.section, c.fault)
  }

  /** Emitting `a` and then `b` is emitting `a + b`. */
  lemma PrefixPrefix(a: seq<Entry>, b: seq<Entry>, c: Classified)
    ensures Prefix(a, Prefix(b, c)) == Prefix(a + b, c)
  {
    assert (a + b) + c.entries == a + (b + c.entries);
  }

  /** The whole loop of `compare` from index `i`, with `section` current. */
  function Classify(ls: seq<Option<Line>>, i: nat, section: string): Classified
    decreases |ls| - i
  {
    if i >= |ls| then Classified([], section, None)
    else
      var st := Step(ls, i, section);
      if st.fault.Some? then Classified(Tag(st.rows, section), st.section, st.fault)
      else Prefix(Tag(st.rows, section), Classify(ls, st.next, st.section))
  }

  // ---------------------------------------------------------------------
  // Line predicates used by the properties below

  /** The line at `j` is a removed option line. */
  predicate RemovedAt(ls: seq<Option<Line>>, j: nat)
    requires j < |ls|
  {
    ls[j].Some? && !IsHeader(ls[j].value) && IsRemoved(ls[j].value)
  }

  /** The line at `j` is an added option line reached on its own. */
  predicate AddedAt(ls: seq<Option<Line>>, j: nat)
    requires j < |ls|
  {
    ls[j].Some? && !IsHeader(ls[j].value) && !IsRemoved(ls[j].value) && IsAdded(ls[j].value)
  }

  /** The line at `j` is a section header. */
  predicate HeaderAt(ls: seq<Option<Line>>, j: nat)
    requires j < |ls|
  {
    ls[j].Some? && IsHeader(ls[j].value)
  }

  /** The three row shapes `compare` emits. */
  predicate WellShaped(row: Row) {
    || row.status == Updated
    || (row.status == Deleted && row.newValue == "")
    || (row.status == New && row.oldValue == "")
  }

  /** Unfolding one iteration of a classification that does not abort there. */
  lemma ClassifyUnfold(ls: seq<Option<Line>>, i: nat, s: string)
    requires i < |ls| && Step(ls, i, s).fault.None?
    ensures Classify(ls, i, s) ==
      Prefix(Tag(Step(ls, i, s).rows, s), Classify(ls, Step(ls, i, s).next, Step(ls, i, s).section))
  {
  }

  /** One iteration of a classification, whether or not it aborts there. */
  lemma ClassifyStep(ls: seq<Option<Line>>, i: nat, s: string)
    requires i < |ls|
    ensures var st := Step(ls, i, s);
      Classify(ls, i, s) ==
        if st.fault.Some? then Classified(Tag(st.rows, s), st.section, st.fault)
        else Prefix(Tag(st.rows, s), Classify(ls, st.next, st.section))
  {
  }

  /** Which iteration function handles the line at `i`. */
  lemma StepCases(ls: seq<Option<Line>>, i: nat, s: string)
    requires i < |ls|
    ensures HeaderAt(ls, i) ==> Step(ls, i, s) == StepResult([], Strip(ls[i].value), i + 1, None)
    ensures RemovedAt(ls, i) ==> Step(ls, i, s) == RemovedStep(ls[i].value, NextLine(ls, i), s, i)
    ensures AddedAt(ls, i) ==> Step(ls, i, s) == AddedStep(ls[i].value, s, i)
    ensures !HeaderAt(ls, i) && !RemovedAt(ls, i) && !AddedAt(ls, i) ==>
      Step(ls, i, s) == StepResult([], s, i + 1, None)
  {
  }

  // ---------------------------------------------------------------------
  // Properties of one iteration

  /** `-k=a` followed by `+k=b`: one `updated` row, both lines consumed. */
  lemma UpdatedPair(ls: seq<Option<Line>>, i: nat, s: string, k: string, a: string, b: string)
    requires i + 1 < |ls| && RemovedAt(ls, i) && Pairs(ls[i + 1])
    requires SplitParts(ls[i].value) == [k, a] && SplitParts(ls[i + 1].value) == [k, b]
    ensures Classify(ls, i, s) == Prefix([Entry(s, Row(Updated, k, a, b))], Classify(ls, i + 2, s))
  {
    assert Step(ls, i, s) == StepResult([Row(Updated, k, a, b)], s, i + 2, None);
    ClassifyUnfold(ls, i, s);
    assert Tag([Row(Updated, k, a, b)], s) == [Entry(s, Row(Updated, k, a, b))];
  }

  /** The iteration at a removed line whose partner has a different key. */
  lemma DifferentKeysStep(ls: seq<Option<Line>>, i: nat, s: string, k1: string, a: string, k2: string, b: string)
    requires i + 1 < |ls| && RemovedAt(ls, i) && Pairs(ls[i + 1]) && k1 != k2
    requires SplitParts(ls[i].value) == [k1, a] && SplitParts(ls[i + 1].value) == [k2, b]
    ensures Step(ls, i, s) == StepResult([Row(Deleted, k1, a, ""), Row(New, k2, "", b)], s, i + 2, None)
  {
    var rows := [Row(Deleted, k1, a, ""), Row(New, k2, "", b)];
    var l, n := ls[i].value, ls[i + 1].value;
    assert PairedStep(l, [k1, a], n, [k2, b], s, i) == StepResult(rows, s, i + 2, None);
    assert RemovedStep(l, ls[i + 1], s, i) == StepResult(rows, s, i + 2, None);
  }

  /** `-k1=a` followed by `+k2=b` with different keys: a `removed` row, then a
      `new` row; the added line is not looked at again. */
  lemma DifferentKeys(ls: seq<Option<Line>>, i: nat, s: string, k1: string, a: string, k2: string, b: string)
    requires i + 1 < |ls| && RemovedAt(ls, i) && Pairs(ls[i + 1]) && k1 != k2
    requires SplitParts(ls[i].value) == [k1, a] && SplitParts(ls[i + 1].value) == [k2, b]
    ensures Classify(ls, i, s) ==
      Prefix([Entry(s, Row(Deleted, k1, a, "")), Entry(s, Row(New, k2, "", b))], Classify(ls, i + 2, s))
  {
    var rows := [Row(Deleted, k1, a, ""), Row(New, k2, "", b)];
    DifferentKeysStep(ls, i, s, k1, a, k2, b);
    ClassifyUnfold(ls, i, s);
    assert Tag(rows, s) == [Entry(s, rows[0]), Entry(s, rows[1])];
  }

  /** A removed line without a qualifying partner (end of diff, a `None` line,
      a line not starting with `+`, or a `+[` line): a lone `removed` row, and
      the next line is left to the next iteration. */
  lemma LoneRemoved(ls: seq<Option<Line>>, i: nat, s: string, k: string, a: string)
    requires i < |ls| && RemovedAt(ls, i) && !Pairs(NextLine(ls, i))
    requires SplitParts(ls[i].value) == [k, a]
    ensures Classify(ls, i, s) == Prefix([Entry(s, Row(Deleted, k, a, ""))], Classify(ls, i + 1, s))
  {
    assert Step(ls, i, s) == StepResult([Row(Deleted, k, a, "")], s, i + 1, None);
    ClassifyUnfold(ls, i, s);
    assert Tag([Row(Deleted, k, a, "")], s) == [Entry(s, Row(Deleted, k, a, ""))];
  }

  /** An added line reached on its own: a `new` row. */
  lemma LoneAdded(ls: seq<Option<Line>>, i: nat, s: string, k: string, b: string)
    requires i < |ls| && AddedAt(ls, i)
    requires SplitParts(ls[i].value) == [k, b]
    ensures Classify(ls, i, s) == Prefix([Entry(s, Row(New, k, "", b))], Classify(ls, i + 1, s))
  {
    assert Step(ls, i, s) == StepResult([Row(New, k, "", b)], s, i + 1, None);
    ClassifyUnfold(ls, i, s);
    assert Tag([Row(New, k, "", b)], s) == [Entry(s, Row(New, k, "", b))];
  }

  /** A header emits nothing and becomes the current section. */
  lemma HeaderStep(ls: seq<Option<Line>>, i: nat, s: string)
    requires i < |ls| && HeaderAt(ls, i)
    ensures Classify(ls, i, s) == Classify(ls, i + 1, Strip(ls[i].value))
  {
    assert Step(ls, i, s) == StepResult([], Strip(ls[i].value), i + 1, None);
    ClassifyUnfold(ls, i, s);
    assert Tag([], s) == [];
  }

  /** The section a header sets is the whole stripped diff line, marker included. */
  lemma HeaderSetsSection(d: seq<string>, i: nat, s: string)
    requires i < |d| && HeaderAt(Normalized(d), i)
    ensures Classify(Normalized(d), i, s) == Classify(Normalized(d), i + 1, Strip(d[i]))
  {
    var ls := Normalized(d);
    NormalizedAt(d, i);
    assert ls[i].value == Strip(d[i]);
    StripIdempotent(d[i]);
    HeaderStep(ls, i, s);
  }

  /** A removed or added line without `=` aborts the classification. */
  lemma MissingSeparatorFaults(ls: seq<Option<Line>>, i: nat, s: string)
    requires i < |ls| && (RemovedAt(ls, i) || AddedAt(ls, i)) && '=' !in Rest(ls[i].value)
    ensures Classify(ls, i, s).fault.Some?
  {
    SplitPartsCount(ls[i].value);
    assert Step(ls, i, s).fault.Some?;
  }

  /** Any other line (`None`, a `---`/`+++` file header, a context line)
      emits nothing and leaves the section as it was. */
  lemma IgnoredLine(ls: seq<Option<Line>>, i: nat, s: string)
    requires i < |ls| && !HeaderAt(ls, i) && !RemovedAt(ls, i) && !AddedAt(ls, i)
    ensures Classify(ls, i, s) == Classify(ls, i + 1, s)
  {
    assert Step(ls, i, s) == StepResult([], s, i + 1, None);
    ClassifyUnfold(ls, i, s);
    assert Tag([], s) == [];
  }

  /** A lone removed line without `=` aborts at once (a three-field row). */
  lemma LoneRemovedFault(ls: seq<Option<Line>>, i: nat, s: string)
    requires i < |ls| && RemovedAt(ls, i) && !Pairs(NextLine(ls, i))
    requires |SplitParts(ls[i].value)| < 2
    ensures Classify(ls, i, s) == Classified([], s, Some(ls[i].value))
  {
    assert Step(ls, i, s) == StepResult([], s, i + 1, Some(ls[i].value));
  }

  /** A removed line and its partner, one of them without `=`: the
      classification aborts; with different keys and only the partner
      lacking `=`, the `removed` row is added first. */
  lemma PairedFaults(ls: seq<Option<Line>>, i: nat, s: string)
    requires i + 1 < |ls| && RemovedAt(ls, i) && Pairs(ls[i + 1])
    ensures var l, n := ls[i].value, ls[i + 1].value;
      var e, ne := SplitParts(l), SplitParts(n);
      && (e[0] == ne[0] && |ne| < 2 ==> Classify(ls, i, s) == Classified([], s, Some(n)))
      && (e[0] == ne[0] && |ne| == 2 && |e| < 2 ==> Classify(ls, i, s) == Classified([], s, Some(l)))
      && (e[0] != ne[0] && |e| < 2 ==> Classify(ls, i, s) == Classified([], s, Some(l)))
      && (e[0] != ne[0] && |e| == 2 && |ne| < 2 ==>
            Classify(ls, i, s) == Classified([Entry(s, Row(Deleted, e[0], e[1], ""))], s, Some(n)))
  {
    var l, n := ls[i].value, ls[i + 1].value;
    var e, ne := SplitParts(l), SplitParts(n);
    var st := Step(ls, i, s);
    assert st == PairedStep(l, e, n, ne, s, i);
    if e[0] != ne[0] && |e| == 2 && |ne| < 2 {
      assert Tag(st.rows, s) == [Entry(s, Row(Deleted, e[0], e[1], ""))];
    }
  }

  /** An added line without `=` aborts at once (a three-field row). */
  lemma LoneAddedFault(ls: seq<Option<Line>>, i: nat, s: string)
    requires i < |ls| && AddedAt(ls, i) && |SplitParts(ls[i].value)| < 2
    ensures Classify(ls, i, s) == Classified([], s, Some(ls[i].value))
  {
    assert Step(ls, i, s) == StepResult([], s, i + 1, Some(ls[i].value));
  }

  /** What one iteration can do: only a header changes the section (and
      emits nothing), only a removed line with a partner consumes two lines,
      and every row has one of the three shapes. */
  lemma StepFacts(ls: seq<Option<Line>>, i: nat, s: string)
    requires i < |ls|
    ensures var st := Step(ls, i, s);
      && (st.section != s ==> st.rows == [] && HeaderAt(ls, i) && st.section == Strip(ls[i].value))
      && (st.next == i + 2 ==> RemovedAt(ls, i) && Pairs(ls[i + 1]))
      && (forall row :: row in st.rows ==> WellShaped(row))
  {
    var st := Step(ls, i, s);
    if RemovedAt(ls, i) {
      var l, n := ls[i].value, NextLine(ls, i);
      var e := SplitParts(l);
      assert st == RemovedStep(l, n, s, i);
      if Pairs(n) {
        assert st == PairedStep(l, e, n.value, SplitParts(n.value), s, i);
      }
    } else if AddedAt(ls, i) {
      assert st == AddedStep(ls[i].value, s, i);
    }
  }

  // ---------------------------------------------------------------------
  // Properties of a whole classification

  /** Rows of one iteration all have one of the three shapes. */
  lemma StepShapes(ls: seq<Option<Line>>, i: nat, s: string)
    requires i < |ls|
    ensures forall e :: e in Tag(Step(ls, i, s).rows, s) ==> WellShaped(e.row)
  {
    var rows := Step(ls, i, s).rows;
    StepFacts(ls, i, s);
    forall e | e in Tag(rows, s) ensures WellShaped(e.row) {
      var k :| 0 <= k < |Tag(rows, s)| && Tag(rows, s)[k] == e;
      assert e.row == rows[k];
    }
  }

  /** Every row has one of the three shapes. */
  lemma {:induction false} ClassifyShapes(ls: seq<Option<Line>>, i: nat, s: string)
    ensures forall e :: e in Classify(ls, i, s).entries ==> WellShaped(e.row)
    decreases |ls| - i
  {
    if i < |ls| {
      var st := Step(ls, i, s);
      StepShapes(ls, i, s);
      if st.fault.None? {
        ClassifyUnfold(ls, i, s);
        ClassifyShapes(ls, st.next, st.section);
      }
    }
  }

  /** A diff with no removed or added option line yields no row and no fault;
      in particular the empty diff of two identical files yields nothing. */
  lemma {:induction false} NoChangesNoRows(ls: seq<Option<Line>>, i: nat, s: string)
    requires forall j :: i <= j < |ls| ==> !RemovedAt(ls, j) && !AddedAt(ls, j)
    ensures Classify(ls, i, s).entries == [] && Classify(ls, i, s).fault.None?
    decreases |ls| - i
  {
    if i < |ls| {
      var st := Step(ls, i, s);
      assert !RemovedAt(ls, i) && !AddedAt(ls, i);
      assert st.rows == [] && st.fault.None? && st.next == i + 1;
      ClassifyUnfold(ls, i, s);
      NoChangesNoRows(ls, i + 1, st.section);
    }
  }

  /** Without a header ahead, every row is filed under the current section and
      the section stays as it was. */
  lemma {:induction false} NoHeaderKeepsSection(ls: seq<Option<Line>>, i: nat, s: string)
    requires forall j :: i <= j < |ls| ==> !HeaderAt(ls, j)
    ensures forall e :: e in Classify(ls, i, s).entries ==> e.section == s
    ensures Classify(ls, i, s).section == s
    decreases |ls| - i
  {
    if i < |ls| {
      var st := Step(ls, i, s);
      assert !HeaderAt(ls, i);
      StepFacts(ls, i, s);
      if st.fault.None? {
        ClassifyUnfold(ls, i, s);
        NoHeaderKeepsSection(ls, st.next, s);
      }
    }
  }

  /** The section in effect after scanning `ls[i..]` from `s`: the last header. */
  function LastHeader(ls: seq<Option<Line>>, i: nat, s: string): string
    decreases |ls| - i
  {
    if i >= |ls| then s
    else LastHeader(ls, i + 1, if HeaderAt(ls, i) then Strip(ls[i].value) else s)
  }

  /** The section left current after a complete classification is the last
      header of the diff (or the incoming section when there is none): a
      header is never swallowed as lookahead. */
  lemma {:induction false} FinalSectionIsLastHeader(ls: seq<Option<Line>>, i: nat, s: string)
    requires Classify(ls, i, s).fault.None?
    ensures Classify(ls, i, s).section == LastHeader(ls, i, s)
    decreases |ls| - i
  {
    if i < |ls| {
      var st := Step(ls, i, s);
      ClassifyUnfold(ls, i, s);
      StepFacts(ls, i, s);
      FinalSectionIsLastHeader(ls, st.next, st.section);
      if st.next == i + 2 {
        assert !HeaderAt(ls, i + 1);
        assert LastHeader(ls, i, s) == LastHeader(ls, i + 2, s);
      }
    }
  }

  /** Number of removed option lines in `ls[i..]`. */
  function RemovedLines(ls: seq<Option<Line>>, i: nat): nat
    decreases |ls| - i
  {
    if i >= |ls| then 0 else (if RemovedAt(ls, i) then 1 else 0) + RemovedLines(ls, i + 1)
  }

  /** Number of rows of status `removed` or `updated`. */
  function OldSideRows(es: seq<Entry>): nat {
    if es == [] then 0
    else (if es[0].row.status != New then 1 else 0) + OldSideRows(es[1..])
  }

  lemma {:induction false} OldSideRowsConcat(a: seq<Entry>, b: seq<Entry>)
    ensures OldSideRows(a + b) == OldSideRows(a) + OldSideRows(b)
  {
    if a != [] {
      assert (a + b)[1..] == a[1..] + b;
      OldSideRowsConcat(a[1..], b);
    } else {
      assert a + b == b;
    }
  }

  /** One iteration at a removed line yields one `removed` or `updated` row
      (followed possibly by a `new` row); any other iteration yields no such row. */
  lemma StepOldSide(ls: seq<Option<Line>>, i: nat, s: string)
    requires i < |ls| && Step(ls, i, s).fault.None?
    ensures OldSideRows(Tag(Step(ls, i, s).rows, s)) == if RemovedAt(ls, i) then 1 else 0
  {
    var st := Step(ls, i, s);
    if RemovedAt(ls, i) {
      var l, n := ls[i].value, NextLine(ls, i);
      var e := SplitParts(l);
      assert st == RemovedStep(l, n, s, i);
      if Pairs(n) {
        var ne := SplitParts(n.value);
        assert st == PairedStep(l, e, n.value, ne, s, i);
        if e[0] == ne[0] {
          var r := Row(Updated, e[0], e[1], ne[1]);
          TagOne(r, s);
          assert OldSideRows([Entry(s, r)]) == 1 + OldSideRows([]);
        } else {
          var r1, r2 := Row(Deleted, e[0], e[1], ""), Row(New, ne[0], "", ne[1]);
          TagTwo(r1, r2, s);
          assert [Entry(s, r1), Entry(s, r2)][1..] == [Entry(s, r2)];
          assert OldSideRows([Entry(s, r2)]) == 0 + OldSideRows([]);
        }
      } else {
        var r := Row(Deleted, e[0], e[1], "");
        TagOne(r, s);
        assert OldSideRows([Entry(s, r)]) == 1 + OldSideRows([]);
      }
    } else if AddedAt(ls, i) {
      var e := SplitParts(ls[i].value);
      assert st == AddedStep(ls[i].value, s, i);
      var r := Row(New, e[0], "", e[1]);
      TagOne(r, s);
      assert OldSideRows([Entry(s, r)]) == 0 + OldSideRows([]);
    } else {
      assert st.rows == [];
    }
  }

  /** Each removed line yields exactly one `removed` or `updated` row. */
  lemma {:induction false} RemovedLinesAccounted(ls: seq<Option<Line>>, i: nat, s: string)
    requires Classify(ls, i, s).fault.None?
    ensures OldSideRows(Classify(ls, i, s).entries) == RemovedLines(ls, i)
    decreases |ls| - i
  {
    if i < |ls| {
      var st := Step(ls, i, s);
      var here := Tag(st.rows, s);
      ClassifyUnfold(ls, i, s);
      OldSideRowsConcat(here, Classify(ls, st.next, st.section).entries);
      RemovedLinesAccounted(ls, st.next, st.section);
      StepOldSide(ls, i, s);
      StepFacts(ls, i, s);
      if st.next == i + 2 {
        assert !RemovedAt(ls, i + 1);
        assert RemovedLines(ls, i) == (if RemovedAt(ls, i) then 1 else 0) + RemovedLines(ls, i + 2);
      }
    }
  }
}
