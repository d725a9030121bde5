/** The part of `print_table` that decides how the sections of one file are
    ordered and labelled: sections sort by their name with every `+` and `-`
    deleted, and a section from a removed or an added header is labelled with
    its marker turned into a `(deleted)` or `(added)` suffix. */
module Report {
  import opened Text
  import opened Classifier
  import opened Tables

  /** `x.translate(None, '+-')`, the sort key of a section. */
  function SortKey(section: string): (k: string)
    ensures '+' !in k && '-' !in k
    ensures forall c :: c in k ==> c in section
    ensures '+' !in section && '-' !in section ==> k == section
  {
    RemoveChars(section, {'+', '-'})
  }

  /** The key of a single character: `+` and `-` vanish, any other
      character stays. */
  lemma SortKeyChar(c: char)
    ensures SortKey([c]) == if c == '+' || c == '-' then [] else [c]
  {
    assert [c][1..] == [];
  }

  /** The key is taken piece by piece, so the characters other than `+` and
      `-` are kept in their order. */
  lemma SortKeyConcat(a: string, b: string)
    ensures SortKey(a + b) == SortKey(a) + SortKey(b)
  {
    RemoveCharsConcat(a, b, {'+', '-'});
  }

  /** A removed, an added and an unchanged copy of a header share one sort
      key, so they sort next to each other. */
  lemma SortKeyIgnoresMarker(h: string)
    ensures SortKey("-" + h) == SortKey(h) && SortKey("+" + h) == SortKey(h)
  {
    RemoveCharsConcat("-", h, {'+', '-'});
    RemoveCharsConcat("+", h, {'+', '-'});
  }

  /** Sorting by the key again changes nothing: a key is its own key. */
  lemma SortKeyIdempotent(section: string)
    ensures SortKey(SortKey(section)) == SortKey(section)
  {
    RemoveCharsIdempotent(section, {'+', '-'});
  }

  /** Sections in non-decreasing order of their keys. */
  ghost predicate Sorted(s: seq<string>) {
    forall i, j :: 0 <= i < j < |s| ==> LexLe(SortKey(s[i]), SortKey(s[j]))
  }

  /** Insert `x` before the first element whose key is not below its own. */
  function InsertSection(x: string, s: seq<string>): (r: seq<string>)
    ensures |r| == |s| + 1
  {
    if s == [] then [x]
    else if LexLe(SortKey(x), SortKey(s[0])) then [x] + s
    else [s[0]] + InsertSection(x, s[1..])
  }

  /** `keys.sort(key=...)` on the section names of one file, `keys` in the
      dictionary's order. Each name goes in front of the equal-keyed names
      that follow it, so the order among equal keys is kept, as the stable
      sort of the source keeps it. */
  function SortSections(keys: seq<string>): (r: seq<string>)
    ensures |r| == |keys|
  {
    if keys == [] then [] else InsertSection(keys[0], SortSections(keys[1..]))
  }

  /** Inserting adds exactly `x`. */
  lemma {:induction false} InsertSectionPerm(x: string, s: seq<string>)
    ensures multiset(InsertSection(x, s)) == multiset(s) + multiset{x}
  {
    if s != [] && !LexLe(SortKey(x), SortKey(s[0])) {
      InsertSectionPerm(x, s[1..]);
      assert s == [s[0]] + s[1..];
    }
  }

  /** An element in front of a sorted sequence, with a key below all of it. */
  lemma SortedCons(y: string, rest: seq<string>)
    requires Sorted(rest)
    requires forall z :: z in rest ==> LexLe(SortKey(y), SortKey(z))
    ensures Sorted([y] + rest)
  {
    var r := [y] + rest;
    forall i, j | 0 <= i < j < |r| ensures LexLe(SortKey(r[i]), SortKey(r[j])) {
      assert r[j] == rest[j - 1];
      if i == 0 {
        assert rest[j - 1] in rest;
      } else {
        assert r[i] == rest[i - 1];
      }
    }
  }

  lemma SortedTail(s: seq<string>)
    requires Sorted(s) && s != []
    ensures Sorted(s[1..])
    ensures forall z :: z in s[1..] ==> LexLe(SortKey(s[0]), SortKey(z))
  {
    forall i, j | 0 <= i < j < |s[1..]| ensures LexLe(SortKey(s[1..][i]), SortKey(s[1..][j])) {
      assert s[1..][i] == s[i + 1] && s[1..][j] == s[j + 1];
    }
    forall z | z in s[1..] ensures LexLe(SortKey(s[0]), SortKey(z)) {
      var k :| 0 <= k < |s[1..]| && s[1..][k] == z;
      assert s[k + 1] == z;
    }
  }

  /** Inserting into a sorted sequence keeps it sorted. */
  lemma {:induction false} InsertSectionSorted(x: string, s: seq<string>)
    requires Sorted(s)
    ensures Sorted(InsertSection(x, s))
  {
    if s == [] {
    } else if LexLe(SortKey(x), SortKey(s[0])) {
      SortedTail(s);
      forall z | z in s ensures LexLe(SortKey(x), SortKey(z)) {
        if z != s[0] {
          assert z in s[1..] by { assert s == [s[0]] + s[1..]; }
          LexLeTransitive(SortKey(x), SortKey(s[0]), SortKey(z));
        }
      }
      SortedCons(x, s);
    } else {
      LexLeTotal(SortKey(x), SortKey(s[0]));
      var rest := InsertSection(x, s[1..]);
      SortedTail(s);
      InsertSectionSorted(x, s[1..]);
      InsertSectionPerm(x, s[1..]);
      forall z | z in rest ensures LexLe(SortKey(s[0]), SortKey(z)) {
        assert z in multiset(rest);
        assert z == x || z in multiset(s[1..]);
      }
      SortedCons(s[0], rest);
    }
  }

  /** The sort is a sort: the result is ordered by key and holds exactly the
      sections it was given. */
  lemma {:induction false} SortSectionsSpec(keys: seq<string>)
    ensures Sorted(SortSections(keys))
    ensures multiset(SortSections(keys)) == multiset(keys)
  {
    if keys != [] {
      SortSectionsSpec(keys[1..]);
      InsertSectionSorted(keys[0], SortSections(keys[1..]));
      InsertSectionPerm(keys[0], SortSections(keys[1..]));
      assert keys == [keys[0]] + keys[1..];
    }
  }

  /** The label of a section, as written: `section[0]` is read before
      anything else, so the empty section has no label (the subscript raises
      IndexError, shown as `None`). */
  function SectionDescAsWritten(section: string): (d: Option<string>)
    ensures d.None? <==> section == ""
    ensures d.Some? ==> d.value == SectionDesc(section)
  {
    if |section| == 0 then None
    else if section[0] == '-' then Some(section[1..] + "(deleted)")
    else if section[0] == '+' then Some(section[1..] + "(added)")
    else Some(section)
  }

  /** The label of a section, with the marker test made safe for the empty
      section (which then labels as itself, the empty string). */
  function SectionDesc(section: string): (d: string)
    ensures section == "" ==> d == ""
  {
    if |section| > 0 && section[0] == '-' then section[1..] + "(deleted)"
    else if |section| > 0 && section[0] == '+' then section[1..] + "(added)"
    else section
  }

  /** A removed header is labelled `(deleted)`, an added one `(added)`, and
      any other section by its own name. */
  lemma SectionDescMarked(h: string)
    ensures SectionDesc("-" + h) == h + "(deleted)"
    ensures SectionDesc("+" + h) == h + "(added)"
    ensures h == [] || (h[0] != '-' && h[0] != '+') ==> SectionDesc(h) == h
  {
    assert ("-" + h)[1..] == h;
    assert ("+" + h)[1..] == h;
  }

  /** Sections that end in `]` (a header line `[...]`, possibly marked) get
      different labels, so no two tables of a file print under one heading. */
  lemma SectionDescInjective(a: string, b: string)
    requires |a| > 0 && a[|a| - 1] == ']' && |b| > 0 && b[|b| - 1] == ']'
    requires SectionDesc(a) == SectionDesc(b)
    ensures a == b
  {
    var d := SectionDesc(a);
    var ma := if a[0] == '-' then 1 else if a[0] == '+' then 2 else 0;
    var mb := if b[0] == '-' then 1 else if b[0] == '+' then 2 else 0;
    if ma == 1 {
      assert d == a[1..] + "(deleted)";
      assert d[|d| - 1] == ')' && d[|d| - 4] == 't';
    } else if ma == 2 {
      assert d == a[1..] + "(added)";
      assert d[|d| - 1] == ')' && d[|d| - 4] == 'd';
    } else {
      assert d == a && d[|d| - 1] == ']';
    }
    if mb == 1 {
      assert d == b[1..] + "(deleted)";
      assert d[|d| - 1] == ')' && d[|d| - 4] == 't';
    } else if mb == 2 {
      assert d == b[1..] + "(added)";
      assert d[|d| - 1] == ')' && d[|d| - 4] == 'd';
    } else {
      assert d == b && d[|d| - 1] == ']';
    }
    assert ma == mb;
    if ma == 1 {
      assert a[1..] == d[..|d| - 9] == b[1..];
      assert a == [a[0]] + a[1..] && b == [b[0]] + b[1..];
    } else if ma == 2 {
      assert a[1..] == d[..|d| - 7] == b[1..];
      assert a == [a[0]] + a[1..] && b == [b[0]] + b[1..];
    }
  }

  /** The heading text of a table, `*file: label*`; in markup mode the label
      has its brackets escaped. */
  function Heading(file: string, section: string, markup: bool): (h: string)
  {
    "*" + file + ": " + (if markup then Escaped(SectionDesc(section)) else SectionDesc(section)) + "*"
  }

  /** The escaped heading reads back as the plain one. */
  lemma HeadingEscapeLossless(file: string, section: string)
    ensures var h := Heading(file, section, true);
      var n := |file| + 3;
      |h| >= n + 1 && Unescape(h[n..|h| - 1]) == SectionDesc(section)
      && h[..n] == Heading(file, section, false)[..n]
  {
    var h := Heading(file, section, true);
    var n := |file| + 3;
    assert h[n..|h| - 1] == Escaped(SectionDesc(section));
    UnescapeEscaped(SectionDesc(section));
  }

  /** The unified diff of a file holding the one line `k=v` against an
      empty file: two file header lines, a hunk header and the removed line. */
  const OptionBeforeHeader: seq<string> := ["--- \n", "+++ \n", "@@ -1 +0,0 @@\n", "-k=v\n"]

  /** A diff line with trailing whitespace normalises to its text. */
  lemma NormalizePadded(t: string, w: string)
    requires |t| >= 2 && !IsSpace(t[0]) && !IsSpace(t[|t| - 1])
    requires forall k :: 0 <= k < |w| ==> IsSpace(w[k])
    ensures Normalize(t + w) == Some(t)
  {
    StripPadded(t, w);
  }

  /** The stripped lines of `OptionBeforeHeader`. */
  const OptionBeforeHeaderStripped: seq<Option<Line>> := [Some("---"), Some("+++"), Some("@@ -1 +0,0 @@"), Some("-k=v")]

  lemma OptionBeforeHeaderLines()
    ensures Normalized(OptionBeforeHeader) == OptionBeforeHeaderStripped
  {
    var d := OptionBeforeHeader;
    var e := OptionBeforeHeaderStripped;
    assert d[0] == "---" + " \n" && d[1] == "+++" + " \n";
    assert d[2] == "@@ -1 +0,0 @@" + "\n" && d[3] == "-k=v" + "\n";
    NormalizePadded("---", " \n");
    NormalizePadded("+++", " \n");
    NormalizePadded("@@ -1 +0,0 @@", "\n");
    NormalizePadded("-k=v", "\n");
    forall j | 0 <= j < 4 ensures Normalized(d)[j] == e[j] {
      NormalizedAt(d, j);
    }
  }

  /** The removed line of `OptionBeforeHeader` splits into key and value. */
  lemma OptionBeforeHeaderSplit()
    ensures SplitParts("-k=v") == ["k", "v"]
  {
    assert Rest("-k=v") == "k" + "=" + "v";
    SplitPartsAt("-k=v", "k", "v");
    StripNoOp("k");
    StripNoOp("v");
  }

  /** The three lines before the removed one are passed over, and the
      removed line becomes a `removed` row of the section in effect. */
  lemma OptionBeforeHeaderClassified()
    ensures Classify(OptionBeforeHeaderStripped, 0, "") == Classified([Entry("", Row(Deleted, "k", "v", ""))], "", None)
  {
    var ls := OptionBeforeHeaderStripped;
    OptionBeforeHeaderSplit();
    IgnoredLine(ls, 0, "");
    IgnoredLine(ls, 1, "");
    IgnoredLine(ls, 2, "");
    assert RemovedAt(ls, 3) && NextLine(ls, 3) == None;
    LoneRemoved(ls, 3, "", "k", "v");
    assert Classify(ls, 4, "") == Classified([], "", None);
  }

  /** The empty section is reachable: an option removed before any header of
      the first file compared is filed under section `""`, which then has a
      table, and the label of that section raises. */
  lemma EmptySectionReachable(f: string, cfg: Settings)
    ensures var c := Classify(Normalized(OptionBeforeHeader), 0, "");
      && c == Classified([Entry("", Row(Deleted, "k", "v", ""))], "", None)
      && "" in AddEntries(map[], f, c.entries, cfg)[f]
      && SectionDescAsWritten("") == None
  {
    OptionBeforeHeaderLines();
    OptionBeforeHeaderClassified();
    var es := [Entry("", Row(Deleted, "k", "v", ""))];
    AddEntriesRows(map[], f, es, cfg);
    assert es[0] in es;
  }
}
