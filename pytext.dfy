/**
 * The parts of Python's text library that the renderer relies on, over
 * strings as sequences of characters: `sep.join(lines)`, `s.split(sep)`,
 * `s.splitlines(True)` and `textwrap.indent(text, prefix)` with its default
 * predicate (prefix every line that is not whitespace only).
 */
module PyText {

  /** Characters at which `str.splitlines` ends a line. */
  predicate IsLineBreak(c: char)
  {
    c == '\n' || c == '\r' || c == '\U{000B}' || c == '\U{000C}' || c == '\U{001C}' ||
    c == '\U{001D}' || c == '\U{001E}' || c == '\U{0085}' || c == '\U{2028}' || c == '\U{2029}'
  }

  /** Characters that `str.isspace` (and so `str.strip`) treats as whitespace. */
  predicate IsSpace(c: char)
  {
    c == ' ' || c == '\t' || c == '\n' || c == '\U{000B}' || c == '\U{000C}' || c == '\r' ||
    ('\U{001C}' <= c <= '\U{001F}') || c == '\U{0085}' || c == '\U{00A0}' || c == '\U{1680}' ||
    ('\U{2000}' <= c <= '\U{200A}') || c == '\U{2028}' || c == '\U{2029}' ||
    c == '\U{202F}' || c == '\U{205F}' || c == '\U{3000}'
  }

  /** No character of `s` ends a line. */
  predicate NoLineBreak(s: string)
  {
    forall i :: 0 <= i < |s| ==> !IsLineBreak(s[i])
  }

  /** A concatenation is a single line exactly when both parts are. */
  lemma NoLineBreakConcat(a: string, b: string)
    ensures NoLineBreak(a + b) <==> NoLineBreak(a) && NoLineBreak(b)
  {
    if NoLineBreak(a + b) {
      forall i | 0 <= i < |a| ensures !IsLineBreak(a[i]) {
        assert a[i] == (a + b)[i];
      }
      forall i | 0 <= i < |b| ensures !IsLineBreak(b[i]) {
        assert b[i] == (a + b)[|a| + i];
      }
    }
    if NoLineBreak(a) && NoLineBreak(b) {
      forall i | 0 <= i < |a + b| ensures !IsLineBreak((a + b)[i]) {
        if i >= |a| {
          assert (a + b)[i] == b[i - |a|];
        }
      }
    }
  }

  /** `line.strip()` is non-empty: some character is not whitespace. */
  predicate HasNonSpace(s: string)
  {
    exists i :: 0 <= i < |s| && !IsSpace(s[i])
  }

  /** `sep.join(lines)`. */
  function Join(sep: string, lines: seq<string>): (r: string)
    ensures lines == [] ==> r == ""
  {
    if lines == [] then ""
    else if |lines| == 1 then lines[0]
    else lines[0] + sep + Join(sep, lines[1..])
  }

  /** `s.split(sep)` for a one-character separator. */
  function Split(s: string, sep: char): (r: seq<string>)
    ensures |r| >= 1
  {
    if s == [] then [""]
    else
      var rest := Split(s[1..], sep);
      if s[0] == sep then [""] + rest
      else [[s[0]] + rest[0]] + rest[1..]
  }

  /** `s.splitlines(True)`: the lines of `s`, each with its terminator ("\r\n" counts as one). */
  function SplitLines(s: string): (r: seq<string>)
  {
    if s == [] then []
    else if IsLineBreak(s[0]) then
      var n := if s[0] == '\r' && |s| > 1 && s[1] == '\n' then 2 else 1;
      [s[..n]] + SplitLines(s[n..])
    else
      var rest := SplitLines(s[1..]);
      if rest == [] then [[s[0]]] else [[s[0]] + rest[0]] + rest[1..]
  }

  /** Concatenates `lines`, prefixing each one that is not whitespace only. */
  function PrefixLines(lines: seq<string>, prefix: string): string
  {
    if lines == [] then ""
    else (if HasNonSpace(lines[0]) then prefix + lines[0] else lines[0]) + PrefixLines(lines[1..], prefix)
  }

  /** `textwrap.indent(text, prefix)` with the default predicate. */
  function Indent(text: string, prefix: string): string
  {
    PrefixLines(SplitLines(text), prefix)
  }

  /** `prefix + line` for every line, the shape an indented block has when no line is blank. */
  function Prefixed(prefix: string, lines: seq<string>): (r: seq<string>)
    ensures |r| == |lines|
    ensures forall i :: 0 <= i < |lines| ==> r[i] == prefix + lines[i]
  {
    seq(|lines|, i requires 0 <= i < |lines| => prefix + lines[i])
  }

  // ---------------------------------------------------------------------
  // Splitting a joined text
  // ---------------------------------------------------------------------

  /** A separator character in the middle splits the text into the pieces on either side. */
  lemma {:induction false} SplitAtSeparator(a: string, sep: char, b: string)
    ensures Split(a + [sep] + b, sep) == Split(a, sep) + Split(b, sep)
  {
    if a == [] {
      assert a + [sep] + b == [sep] + b;
      assert ([sep] + b)[1..] == b;
    } else {
      assert (a + [sep] + b)[1..] == a[1..] + [sep] + b;
      SplitAtSeparator(a[1..], sep, b);
    }
  }

  /** A text without the separator is one piece. */
  lemma {:induction false} SplitWithoutSeparator(s: string, sep: char)
    requires forall i :: 0 <= i < |s| ==> s[i] != sep
    ensures Split(s, sep) == [s]
  {
    if s != [] {
      SplitWithoutSeparator(s[1..], sep);
      assert [s[0]] + s[1..] == s;
    }
  }

  /** `sep.join` followed by `split(sep)` gives back the lines when none holds the separator. */
  lemma {:induction false} SplitJoin(lines: seq<string>, sep: char)
    requires |lines| >= 1
    requires forall k, i :: 0 <= k < |lines| && 0 <= i < |lines[k]| ==> lines[k][i] != sep
    ensures Split(Join([sep], lines), sep) == lines
  {
    SplitWithoutSeparator(lines[0], sep);
    if |lines| > 1 {
      SplitJoin(lines[1..], sep);
      SplitAtSeparator(lines[0], sep, Join([sep], lines[1..]));
      assert lines == [lines[0]] + lines[1..];
    }
  }

  /** A joined text between two separators splits into an empty piece, the lines, and an empty piece. */
  lemma SplitWrappedJoin(lines: seq<string>, sep: char)
    requires |lines| >= 1
    requires forall k, i :: 0 <= k < |lines| && 0 <= i < |lines[k]| ==> lines[k][i] != sep
    ensures Split([sep] + Join([sep], lines) + [sep], sep) == [""] + lines + [""]
  {
    var joined := Join([sep], lines);
    SplitJoin(lines, sep);
    assert [sep] + joined + [sep] == [] + [sep] + (joined + [sep] + []);
    SplitAtSeparator([], sep, joined + [sep] + []);
    SplitAtSeparator(joined, sep, []);
  }

  // ---------------------------------------------------------------------
  // Indenting a joined text
  // ---------------------------------------------------------------------

  /** A non-empty text without line breaks is a single line. */
  lemma {:induction false} SplitLinesSingle(a: string)
    requires a != [] && NoLineBreak(a)
    ensures SplitLines(a) == [a]
  {
    assert !IsLineBreak(a[0]);
    if |a| == 1 {
      assert SplitLines(a[1..]) == [];
      assert a == [a[0]];
    } else {
      SplitLinesSingle(a[1..]);
      assert [a[0]] + a[1..] == a;
    }
  }

  /** A line without breaks followed by "\n" is split off as the first line. */
  lemma {:induction false} SplitLinesAfterNewline(a: string, b: string)
    requires NoLineBreak(a)
    ensures SplitLines(a + "\n" + b) == [a + "\n"] + SplitLines(b)
  {
    var s := a + "\n" + b;
    if a == [] {
      assert s == "\n" + b;
      assert s[..1] == "\n" && s[1..] == b;
    } else {
      assert s[1..] == a[1..] + "\n" + b;
      SplitLinesAfterNewline(a[1..], b);
      assert [a[0]] + (a[1..] + "\n") == a + "\n";
    }
  }

  /**
   * Indenting lines joined by "\n" prefixes each of them, provided no line
   * holds a line break and none is whitespace only.
   */
  lemma {:induction false} IndentJoin(lines: seq<string>, prefix: string)
    requires forall k :: 0 <= k < |lines| ==> NoLineBreak(lines[k]) && HasNonSpace(lines[k])
    ensures Indent(Join("\n", lines), prefix) == Join("\n", Prefixed(prefix, lines))
  {
    if |lines| == 1 {
      SplitLinesSingle(lines[0]);
      assert HasNonSpace(lines[0]);
      assert PrefixLines([lines[0]], prefix) == prefix + lines[0] + PrefixLines([], prefix);
    } else if |lines| > 1 {
      var a, rest := lines[0], Join("\n", lines[1..]);
      SplitLinesAfterNewline(a, rest);
      IndentJoin(lines[1..], prefix);
      var i :| 0 <= i < |a| && !IsSpace(a[i]);
      assert (a + "\n")[i] == a[i];
      assert Prefixed(prefix, lines)[1..] == Prefixed(prefix, lines[1..]);
    }
  }

  // ---------------------------------------------------------------------
  // Lines of a text
  // ---------------------------------------------------------------------

  /** `''.join([x] + rest) == x + ''.join(rest)`. */
  lemma JoinEmptyCons(x: string, rest: seq<string>)
    ensures Join("", [x] + rest) == x + Join("", rest)
  {
    if rest != [] {
      assert ([x] + rest)[1..] == rest;
    }
  }

  /** `''.join(s.splitlines(True)) == s`: splitting into lines loses and adds nothing. */
  lemma {:induction false} SplitLinesConcat(s: string)
    ensures Join("", SplitLines(s)) == s
  {
    if s == [] {
    } else if IsLineBreak(s[0]) {
      var n := if s[0] == '\r' && |s| > 1 && s[1] == '\n' then 2 else 1;
      SplitLinesConcat(s[n..]);
      JoinEmptyCons(s[..n], SplitLines(s[n..]));
      assert s[..n] + s[n..] == s;
    } else {
      var rest := SplitLines(s[1..]);
      SplitLinesConcat(s[1..]);
      if rest == [] {
        assert s == [s[0]];
      } else {
        assert rest == [rest[0]] + rest[1..];
        JoinEmptyCons(rest[0], rest[1..]);
        JoinEmptyCons([s[0]] + rest[0], rest[1..]);
        assert s == [s[0]] + s[1..];
      }
    }
  }
}
