/** The file pairing of `CompareTool.__init__`: the names of the first
    directory are walked in dictionary order, a name is compared only when
    both directories hold a file of that name, and the section, the file
    name and the table dictionary carry over from one file to the next. */
module Pairing {
  import opened Text
  import opened Classifier
  import opened Tables

  /** `files.get(f, None)`, with the missing path as the empty string (both
      are false in the `if file1 and file2` test). */
  function Get(files: map<string, string>, f: string): (p: string)
    ensures f !in files ==> p == ""
  {
    if f in files then files[f] else ""
  }

  /** `if file1 and file2`: both directories give a (non-empty) path. */
  predicate HasPeer(files1: map<string, string>, files2: map<string, string>, f: string) {
    Get(files1, f) != "" && Get(files2, f) != ""
  }

  /** What the tool object holds between files, plus the names whose peer
      was missing (reported and passed) and the fault that aborted the run. */
  datatype RunState = RunState(table: Table, section: string, filename: string, skipped: seq<string>, fault: Option<string>)

  /** The diff of one file pair, as produced by the unified-diff library
      from the two paths; the model takes it as given. */
  type Differ = (string, string) -> seq<string>

  /** The normalised diff lines of file `f`. */
  function FileLines(files1: map<string, string>, files2: map<string, string>, f: string, diff: Differ): seq<Option<Line>> {
    Normalized(diff(Get(files1, f), Get(files2, f)))
  }

  /** The classification of file `f` starting from `section`. */
  function ClassifyFile(files1: map<string, string>, files2: map<string, string>, f: string, diff: Differ, section: string): Classified {
    Classify(FileLines(files1, files2, f, diff), 0, section)
  }

  /** One turn of the `for file in fileList` loop. */
  function CompareFile(st: RunState, f: string, files1: map<string, string>, files2: map<string, string>, diff: Differ, cfg: Settings): (r: RunState)
    ensures r.filename == f
  {
    if HasPeer(files1, files2, f) then
      var c := ClassifyFile(files1, files2, f, diff, st.section);
      RunState(AddEntries(st.table, f, c.entries, cfg), c.section, f, st.skipped, c.fault)
    else
      RunState(st.table, st.section, f, st.skipped + [f], None)
  }

  /** The whole loop over `names`, stopping at the first fault. */
  function CompareFiles(st: RunState, names: seq<string>, files1: map<string, string>, files2: map<string, string>, diff: Differ, cfg: Settings): RunState
    decreases |names|
  {
    if names == [] || st.fault.Some? then st
    else CompareFiles(CompareFile(st, names[0], files1, files2, diff, cfg), names[1..], files1, files2, diff, cfg)
  }

  /** The names of `names` that have no peer, in order. */
  function Unpaired(names: seq<string>, files1: map<string, string>, files2: map<string, string>): (u: seq<string>)
    ensures forall f :: f in u ==> f in names && !HasPeer(files1, files2, f)
  {
    if names == [] then []
    else (if HasPeer(files1, files2, names[0]) then [] else [names[0]]) + Unpaired(names[1..], files1, files2)
  }

  /** Only names of the walk that have a peer get a table; every other
      file's tables stay as they were. */
  lemma {:induction false} OnlyPairedFilesCompared(st: RunState, names: seq<string>, files1: map<string, string>, files2: map<string, string>, diff: Differ, cfg: Settings)
    ensures var r := CompareFiles(st, names, files1, files2, diff, cfg);
      && (forall f :: f in r.table && f !in st.table ==> f in names && HasPeer(files1, files2, f))
      && (forall f, s :: (f !in names || !HasPeer(files1, files2, f)) ==> Rows(r.table, f, s) == Rows(st.table, f, s))
    decreases |names|
  {
    if names != [] && st.fault.None? {
      var f := names[0];
      var st' := CompareFile(st, f, files1, files2, diff, cfg);
      OnlyPairedFilesCompared(st', names[1..], files1, files2, diff, cfg);
      if HasPeer(files1, files2, f) {
        AddEntriesRows(st.table, f, ClassifyFile(files1, files2, f, diff, st.section).entries, cfg);
      }
    }
  }

  /** A run without a fault reports exactly the names without a peer, in
      the order of the walk. */
  lemma {:induction false} SkippedAreUnpaired(st: RunState, names: seq<string>, files1: map<string, string>, files2: map<string, string>, diff: Differ, cfg: Settings)
    requires st.fault.None?
    requires CompareFiles(st, names, files1, files2, diff, cfg).fault.None?
    ensures CompareFiles(st, names, files1, files2, diff, cfg).skipped == st.skipped + Unpaired(names, files1, files2)
    decreases |names|
  {
    if names != [] {
      var f := names[0];
      var st' := CompareFile(st, f, files1, files2, diff, cfg);
      if st'.fault.Some? {
        assert false;
      } else {
        SkippedAreUnpaired(st', names[1..], files1, files2, diff, cfg);
        var u := if HasPeer(files1, files2, f) then [] else [f];
        var rest := Unpaired(names[1..], files1, files2);
        assert st'.skipped == st.skipped + u;
        assert Unpaired(names, files1, files2) == u + rest;
        assert (st.skipped + u) + rest == st.skipped + (u + rest);
      }
    }
  }

  /** The walk covers the first directory only: a name found only in the
      second directory is neither compared nor reported. */
  lemma SecondDirectoryOnlyIgnored(st: RunState, names: seq<string>, files1: map<string, string>, files2: map<string, string>, diff: Differ, cfg: Settings, f: string)
    requires forall g :: g in names <==> g in files1
    requires st.fault.None? && f !in files1 && f !in st.table && f !in st.skipped
    requires CompareFiles(st, names, files1, files2, diff, cfg).fault.None?
    ensures f !in CompareFiles(st, names, files1, files2, diff, cfg).table
    ensures f !in CompareFiles(st, names, files1, files2, diff, cfg).skipped
  {
    OnlyPairedFilesCompared(st, names, files1, files2, diff, cfg);
    SkippedAreUnpaired(st, names, files1, files2, diff, cfg);
  }

  /** The section is not reset between files: the second of two compared
      files is classified from the last header of the first. */
  lemma SectionCarriesOver(st: RunState, f: string, g: string, files1: map<string, string>, files2: map<string, string>, diff: Differ, cfg: Settings)
    requires st.fault.None? && HasPeer(files1, files2, f) && HasPeer(files1, files2, g)
    requires ClassifyFile(files1, files2, f, diff, st.section).fault.None?
    ensures var lf := FileLines(files1, files2, f, diff);
      var cf := ClassifyFile(files1, files2, f, diff, st.section);
      var cg := ClassifyFile(files1, files2, g, diff, LastHeader(lf, 0, st.section));
      CompareFiles(st, [f, g], files1, files2, diff, cfg) ==
        RunState(AddEntries(AddEntries(st.table, f, cf.entries, cfg), g, cg.entries, cfg), cg.section, g, st.skipped, cg.fault)
  {
    var lf := FileLines(files1, files2, f, diff);
    var cf := ClassifyFile(files1, files2, f, diff, st.section);
    FinalSectionIsLastHeader(lf, 0, st.section);
    assert cf.section == LastHeader(lf, 0, st.section);
    var st1 := CompareFile(st, f, files1, files2, diff, cfg);
    assert st1 == RunState(AddEntries(st.table, f, cf.entries, cfg), cf.section, f, st.skipped, None);
    assert [f, g][1..] == [g];
    assert CompareFiles(st, [f, g], files1, files2, diff, cfg) == CompareFiles(st1, [g], files1, files2, diff, cfg);
    assert [g][1..] == [];
    assert CompareFiles(st1, [g], files1, files2, diff, cfg) == CompareFiles(CompareFile(st1, g, files1, files2, diff, cfg), [], files1, files2, diff, cfg);
  }

  /** Hence the rows of a second file that has no header of its own are all
      filed under the last header of the first file. */
  lemma InheritedSection(st: RunState, f: string, g: string, files1: map<string, string>, files2: map<string, string>, diff: Differ)
    requires HasPeer(files1, files2, f) && HasPeer(files1, files2, g)
    requires ClassifyFile(files1, files2, f, diff, st.section).fault.None?
    requires forall j :: 0 <= j < |FileLines(files1, files2, g, diff)| ==> !HeaderAt(FileLines(files1, files2, g, diff), j)
    ensures var lf := FileLines(files1, files2, f, diff);
      var s := ClassifyFile(files1, files2, f, diff, st.section).section;
      && s == LastHeader(lf, 0, st.section)
      && forall e :: e in ClassifyFile(files1, files2, g, diff, s).entries ==> e.section == s
  {
    var lf := FileLines(files1, files2, f, diff);
    var lg := FileLines(files1, files2, g, diff);
    FinalSectionIsLastHeader(lf, 0, st.section);
    NoHeaderKeepsSection(lg, 0, ClassifyFile(files1, files2, f, diff, st.section).section);
  }
}
