/** String primitives the comparison tool relies on: Python 2's `str.strip`,
    `str.split(sep, 1)`, `str.replace`, `str.translate(None, chars)` and the
    ordering of byte strings, each written out over `seq<char>`. */
module Text {

  datatype Option<+T> = None | Some(value: T)

  /** The characters Python 2's `str.strip()` removes: ASCII whitespace. */
  predicate IsSpace(c: char) {
    c == ' ' || c == '\t' || c == '\n' || c == '\r' || c == '\U{000B}' || c == '\U{000C}'
  }

  /** Drop leading whitespace. */
  function TrimLeft(s: string): (r: string)
    ensures |r| <= |s|
  {
    if |s| > 0 && IsSpace(s[0]) then TrimLeft(s[1..]) else s
  }

  /** What `TrimLeft` keeps is a suffix not starting with whitespace, and
      what it drops is all whitespace. */
  lemma {:induction false} TrimLeftSpec(s: string)
    ensures var r := TrimLeft(s);
      && r == s[|s| - |r|..]
      && (forall k :: 0 <= k < |s| - |r| ==> IsSpace(s[k]))
      && (r == [] || !IsSpace(r[0]))
  {
    if |s| > 0 && IsSpace(s[0]) {
      TrimLeftSpec(s[1..]);
    }
  }

  /** Drop trailing whitespace. */
  function TrimRight(s: string): (r: string)
    ensures |r| <= |s|
  {
    if |s| > 0 && IsSpace(s[|s| - 1]) then TrimRight(s[..|s| - 1]) else s
  }

  /** What `TrimRight` keeps is a prefix not ending with whitespace, and
      what it drops is all whitespace. */
  lemma {:induction false} TrimRightSpec(s: string)
    ensures var r := TrimRight(s);
      && r == s[..|r|]
      && (forall k :: |r| <= k < |s| ==> IsSpace(s[k]))
      && (r == [] || !IsSpace(r[|r| - 1]))
  {
    if |s| > 0 && IsSpace(s[|s| - 1]) {
      TrimRightSpec(s[..|s| - 1]);
    }
  }

  /** Trailing whitespace after a non-blank text is all dropped. */
  lemma {:induction false} TrimRightPadded(t: string, w: string)
    requires t != [] && !IsSpace(t[|t| - 1])
    requires forall k :: 0 <= k < |w| ==> IsSpace(w[k])
    ensures TrimRight(t + w) == t
  {
    if w == [] {
      assert t + w == t;
    } else {
      var w' := w[..|w| - 1];
      assert (t + w)[..|t + w| - 1] == t + w';
      TrimRightPadded(t, w');
    }
  }

  /** Python's `s.strip()`. */
  function Strip(s: string): (r: string)
    ensures |r| <= |s|
  {
    TrimRight(TrimLeft(s))
  }

  /** The stripped text neither starts nor ends with whitespace, and it is
      the stretch of the original left after the leading whitespace. */
  lemma StripSpec(s: string)
    ensures var r := Strip(s);
      && (r == [] || (!IsSpace(r[0]) && !IsSpace(r[|r| - 1])))
      && r == s[|s| - |TrimLeft(s)|..][..|r|]
      && (forall k :: 0 <= k < |s| - |TrimLeft(s)| ==> IsSpace(s[k]))
      && (forall k :: |s| - |TrimLeft(s)| + |r| <= k < |s| ==> IsSpace(s[k]))
  {
    var t := TrimLeft(s);
    var u := TrimRight(t);
    TrimLeftSpec(s);
    TrimRightSpec(t);
    assert u != [] ==> u[0] == t[0];
  }

  /** A string that neither starts nor ends with whitespace is its own strip. */
  lemma StripNoOp(s: string)
    requires s == [] || (!IsSpace(s[0]) && !IsSpace(s[|s| - 1]))
    ensures Strip(s) == s
  {
    assert TrimLeft(s) == s;
    assert TrimRight(s) == s;
  }

  /** A line as read from a file, with its trailing whitespace and line
      break, strips to its text. */
  lemma StripPadded(t: string, w: string)
    requires t != [] && !IsSpace(t[0]) && !IsSpace(t[|t| - 1])
    requires forall k :: 0 <= k < |w| ==> IsSpace(w[k])
    ensures Strip(t + w) == t
  {
    assert TrimLeft(t + w) == t + w;
    TrimRightPadded(t, w);
  }

  /** Stripping twice is stripping once. */
  lemma StripIdempotent(s: string)
    ensures Strip(Strip(s)) == Strip(s)
  {
    StripSpec(s);
    StripNoOp(Strip(s));
  }

  /** Index of the first occurrence of `c` in `s`. */
  function FirstIndex(s: string, c: char): (i: nat)
    requires c in s
    ensures i < |s| && s[i] == c && c !in s[..i]
  {
    if s[0] == c then 0 else
      assert c in s[1..] by { var j :| 0 <= j < |s| && s[j] == c; assert s[1..][j - 1] == c; }
      var j := FirstIndex(s[1..], c);
      assert s[..j + 1] == [s[0]] + s[1..][..j];
      j + 1
  }

  /** The first occurrence is the only position holding `c` with no `c` before it. */
  lemma FirstIndexUnique(s: string, c: char, k: nat)
    requires k < |s| && s[k] == c && c !in s[..k]
    ensures FirstIndex(s, c) == k
  {
  }

  /** Python's `s.split(sep, 1)`: split at the first `sep` only. */
  function SplitOnce(s: string, sep: char): (r: seq<string>)
    ensures 1 <= |r| <= 2
  {
    if sep in s then
      var i := FirstIndex(s, sep);
      [s[..i], s[i + 1..]]
    else
      [s]
  }

  /** Without `sep` the string is one part; with it, the two parts around
      the first `sep` put back together give the string. */
  lemma SplitOnceSpec(s: string, sep: char)
    ensures var r := SplitOnce(s, sep);
      && (|r| == 1 <==> sep !in s)
      && (|r| == 1 ==> r[0] == s)
      && (|r| == 2 ==> s == r[0] + [sep] + r[1] && sep !in r[0])
  {
    if sep in s {
      var i := FirstIndex(s, sep);
      assert s == s[..i] + [sep] + s[i + 1..];
    }
  }

  /** The split happens at the first `sep`: a later `sep` stays in the second part. */
  lemma SplitOnceAt(s: string, sep: char, k: nat)
    requires k < |s| && s[k] == sep && sep !in s[..k]
    ensures SplitOnce(s, sep) == [s[..k], s[k + 1..]]
  {
    FirstIndexUnique(s, sep, k);
  }

  /** Python's `s.replace(c, rep)` for a single-character pattern. */
  function ReplaceAll(s: string, c: char, rep: string): (r: string)
    ensures c !in rep ==> c !in r
    ensures forall d :: d in r ==> d in s || d in rep
  {
    if s == [] then []
    else (if s[0] == c then rep else [s[0]]) + ReplaceAll(s[1..], c, rep)
  }

  lemma {:induction false} ReplaceAllConcat(a: string, b: string, c: char, rep: string)
    ensures ReplaceAll(a + b, c, rep) == ReplaceAll(a, c, rep) + ReplaceAll(b, c, rep)
  {
    if a != [] {
      assert (a + b)[1..] == a[1..] + b;
      ReplaceAllConcat(a[1..], b, c, rep);
    } else {
      assert a + b == b;
    }
  }

  /** The markup escape of one character: a bracket gets a backslash in front. */
  function EscapeChar(c: char): string {
    if c == '[' then "\\[" else if c == ']' then "\\]" else [c]
  }

  /** Every bracket of `s` preceded by a backslash. */
  function Escaped(s: string): (r: string)
    ensures |r| >= |s|
    ensures r == [] || (r[0] != '[' && r[0] != ']')
  {
    if s == [] then [] else EscapeChar(s[0]) + Escaped(s[1..])
  }

  lemma {:induction false} EscapedConcat(a: string, b: string)
    ensures Escaped(a + b) == Escaped(a) + Escaped(b)
  {
    if a != [] {
      assert (a + b)[1..] == a[1..] + b;
      EscapedConcat(a[1..], b);
    } else {
      assert a + b == b;
    }
  }

  /** Replacing `[` and then `]`, as two passes, is the one-pass escape:
      the first pass never introduces a `]`. */
  lemma {:induction false} TwoPassIsEscape(s: string)
    ensures ReplaceAll(ReplaceAll(s, '[', "\\["), ']', "\\]") == Escaped(s)
  {
    if s != [] {
      var head := if s[0] == '[' then "\\[" else [s[0]];
      assert ReplaceAll(s, '[', "\\[") == head + ReplaceAll(s[1..], '[', "\\[");
      ReplaceAllConcat(head, ReplaceAll(s[1..], '[', "\\["), ']', "\\]");
      if s[0] == '[' {
        assert ReplaceAll(head, ']', "\\]") == "\\[" by {
          assert head == ['\\'] + ['['];
          ReplaceAllConcat(['\\'], ['['], ']', "\\]");
        }
      } else {
        assert ReplaceAll(head, ']', "\\]") == EscapeChar(s[0]);
      }
      TwoPassIsEscape(s[1..]);
    }
  }

  /** Reading a markup-escaped string back: a backslash followed by a bracket
      stands for the bracket, any other character stands for itself. */
  function Unescape(t: string): (r: string)
    ensures |r| <= |t|
  {
    if |t| >= 2 && t[0] == '\\' && (t[1] == '[' || t[1] == ']') then [t[1]] + Unescape(t[2..])
    else if t == [] then []
    else [t[0]] + Unescape(t[1..])
  }

  /** The escape loses nothing: unescaping gives back the original text. */
  lemma {:induction false} UnescapeEscaped(s: string)
    ensures Unescape(Escaped(s)) == s
  {
    if s != [] {
      var tail := Escaped(s[1..]);
      UnescapeEscaped(s[1..]);
      if s[0] == '[' || s[0] == ']' {
        assert (EscapeChar(s[0]) + tail)[2..] == tail;
      } else {
        assert (EscapeChar(s[0]) + tail)[1..] == tail;
      }
    }
  }

  /** Python 2's `s.translate(None, chars)`: delete every character in `chars`. */
  function RemoveChars(s: string, chars: set<char>): (r: string)
    ensures |r| <= |s|
    ensures forall c :: c in r ==> c in s && c !in chars
    ensures (forall k :: 0 <= k < |s| ==> s[k] !in chars) ==> r == s
  {
    if s == [] then []
    else (if s[0] in chars then [] else [s[0]]) + RemoveChars(s[1..], chars)
  }

  /** Deleting characters that are already absent changes nothing. */
  lemma {:induction false} RemoveCharsIdempotent(s: string, chars: set<char>)
    ensures RemoveChars(RemoveChars(s, chars), chars) == RemoveChars(s, chars)
  {
    if s != [] {
      RemoveCharsIdempotent(s[1..], chars);
      RemoveCharsConcat(if s[0] in chars then [] else [s[0]], RemoveChars(s[1..], chars), chars);
    }
  }

  lemma {:induction false} RemoveCharsConcat(a: string, b: string, chars: set<char>)
    ensures RemoveChars(a + b, chars) == RemoveChars(a, chars) + RemoveChars(b, chars)
  {
    if a != [] {
      var head := if a[0] in chars then [] else [a[0]];
      assert (a + b)[0] == a[0] && (a + b)[1..] == a[1..] + b;
      assert RemoveChars(a + b, chars) == head + RemoveChars(a[1..] + b, chars);
      RemoveCharsConcat(a[1..], b, chars);
      assert RemoveChars(a, chars) == head + RemoveChars(a[1..], chars);
      assert head + (RemoveChars(a[1..], chars) + RemoveChars(b, chars))
        == (head + RemoveChars(a[1..], chars)) + RemoveChars(b, chars);
    } else {
      assert a + b == b;
    }
  }

  /** Python 2's `<=` on byte strings: lexicographic by character code. */
  predicate LexLe(a: string, b: string) {
    a == [] || (b != [] && (a[0] < b[0] || (a[0] == b[0] && LexLe(a[1..], b[1..]))))
  }

  lemma {:induction false} LexLeTotal(a: string, b: string)
    ensures LexLe(a, b) || LexLe(b, a)
  {
    if a != [] && b != [] && a[0] == b[0] {
      LexLeTotal(a[1..], b[1..]);
    }
  }

  lemma {:induction false} LexLeTransitive(a: string, b: string, c: string)
    requires LexLe(a, b) && LexLe(b, c)
    ensures LexLe(a, c)
  {
    if a != [] && a[0] == b[0] && b[0] == c[0] {
      LexLeTransitive(a[1..], b[1..], c[1..]);
    }
  }
}
