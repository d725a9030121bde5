/** The change-table builder of `make_table`: rows are rendered cell by cell
    (optional wrapping, then optional markup escaping) and appended to the
    table of their (file, section) pair in a nested dictionary. */
module Tables {
  import opened Text
  import opened Classifier

  /** A row as the table holds it: four rendered cells. */
  datatype Cells = Cells(status: string, option: string, oldValue: string, newValue: string)

  /** File name to section name to that section's rows, in insertion order. */
  type Table = map<string, map<string, seq<Cells>>>

  /** The rendering settings of a tool: the wrap width (0 or less: no
      wrapping), markup mode, and the line filler used when wrapping
      (`textwrap.fill`, a library call the model takes as given). */
  datatype Settings = Settings(wrap: int, markup: bool, fill: (string, nat) -> string)

  /** `wrap_line`. */
  function WrapCell(v: string, cfg: Settings): string {
    if cfg.wrap > 0 then cfg.fill(v, cfg.wrap) else v
  }

  /** One cell as stored: wrapped, then escaped in markup mode. */
  function Cell(v: string, cfg: Settings): string {
    var w := WrapCell(v, cfg);
    if cfg.markup then Escaped(w) else w
  }

  /** A row as `make_table` stores it. */
  function RenderRow(row: Row, cfg: Settings): Cells {
    Cells(Cell(StatusName(row.status), cfg), Cell(row.option, cfg), Cell(row.oldValue, cfg), Cell(row.newValue, cfg))
  }

  /** The row's cells before any rendering. */
  function PlainCells(row: Row): Cells {
    Cells(StatusName(row.status), row.option, row.oldValue, row.newValue)
  }

  /** Field-wise unescaping of a stored row. */
  function UnescapeCells(c: Cells): Cells {
    Cells(Unescape(c.status), Unescape(c.option), Unescape(c.oldValue), Unescape(c.newValue))
  }

  /** Without wrapping, a markup row reads back as the classified row: the
      escape loses no text. Without markup and wrapping the row is stored as is. */
  lemma RenderWithoutWrap(row: Row, cfg: Settings)
    requires cfg.wrap <= 0
    ensures cfg.markup ==> UnescapeCells(RenderRow(row, cfg)) == PlainCells(row)
    ensures !cfg.markup ==> RenderRow(row, cfg) == PlainCells(row)
  {
    if cfg.markup {
      UnescapeEscaped(StatusName(row.status));
      UnescapeEscaped(row.option);
      UnescapeEscaped(row.oldValue);
      UnescapeEscaped(row.newValue);
    }
  }

  /** The rows of the (file, section) table, empty when it does not exist. */
  function Rows(t: Table, f: string, s: string): seq<Cells> {
    if f in t && s in t[f] then t[f][s] else []
  }

  /** `make_table` on an already rendered row: append it to the (f, s) table,
      creating the file entry or the section entry when missing. */
  function Insert(t: Table, f: string, s: string, row: Cells): (r: Table)
    ensures f in r && s in r[f]
  {
    if f in t then
      if s in t[f] then t[f := t[f][s := t[f][s] + [row]]]
      else t[f := t[f][s := [row]]]
    else t[f := map[s := [row]]]
  }

  /** The row lands at the end of its own table; every other table, and
      every other file's dictionary, is unchanged; no key disappears. */
  lemma InsertRows(t: Table, f: string, s: string, row: Cells)
    ensures var r := Insert(t, f, s, row);
      && Rows(r, f, s) == Rows(t, f, s) + [row]
      && (forall f', s' :: (f' != f || s' != s) ==> Rows(r, f', s') == Rows(t, f', s'))
      && r.Keys == t.Keys + {f}
      && r[f].Keys == (if f in t then t[f].Keys else {}) + {s}
      && (forall f' :: f' in t && f' != f ==> r[f'] == t[f'])
  {
  }

  /** The rendered rows of the entries filed under section `s`, in order. */
  function RowsIn(es: seq<Entry>, s: string, cfg: Settings): seq<Cells>
    decreases |es|
  {
    if es == [] then []
    else
      var last := es[|es| - 1];
      RowsIn(es[..|es| - 1], s, cfg) + (if last.section == s then [RenderRow(last.row, cfg)] else [])
  }

  /** A sequence of `make_table` calls for file `f`, one per entry, in order. */
  function AddEntries(t: Table, f: string, es: seq<Entry>, cfg: Settings): (r: Table)
    decreases |es|
  {
    if es == [] then t
    else
      var last := es[|es| - 1];
      Insert(AddEntries(t, f, es[..|es| - 1], cfg), f, last.section, RenderRow(last.row, cfg))
  }

  /** Filing the entries of file `f`: other files keep their tables, each
      section of `f` gains the rows filed under it, in emission order, and a
      file gets a dictionary exactly when it has a row. */
  lemma {:induction false} AddEntriesRows(t: Table, f: string, es: seq<Entry>, cfg: Settings)
    ensures var r := AddEntries(t, f, es, cfg);
      && r.Keys == t.Keys + (if es == [] then {} else {f})
      && (forall f', s' :: f' != f ==> Rows(r, f', s') == Rows(t, f', s'))
      && (forall s' :: Rows(r, f, s') == Rows(t, f, s') + RowsIn(es, s', cfg))
      && (forall e :: e in es ==> f in r && e.section in r[f])
    decreases |es|
  {
    if es != [] {
      var last := es[|es| - 1];
      var init := es[..|es| - 1];
      AddEntriesRows(t, f, init, cfg);
      InsertRows(AddEntries(t, f, init, cfg), f, last.section, RenderRow(last.row, cfg));
      assert forall e :: e in es ==> e in init || e == last;
      var r := AddEntries(t, f, es, cfg);
      forall e | e in init ensures f in r && e.section in r[f] {
      }
    }
  }

  /** Adding one more entry is one more `make_table` call. */
  lemma AddEntriesSnoc(t: Table, f: string, es: seq<Entry>, e: Entry, cfg: Settings)
    ensures AddEntries(t, f, es + [e], cfg) == Insert(AddEntries(t, f, es, cfg), f, e.section, RenderRow(e.row, cfg))
  {
    assert (es + [e])[..|es|] == es;
  }
}
