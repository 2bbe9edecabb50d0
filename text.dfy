/** Character classes and line handling shared by the two slide renderers:
    JavaScript's notion of white space (used by `trim()` and by `\s` in a regular
    expression), its line terminators (which `.` in a regular expression does not
    match), `split('\n')` and the filter that drops blank lines. */
module Text {

  datatype Option<T> = None | Some(value: T)

  /** ECMAScript WhiteSpace and LineTerminator code points: what `String.prototype.trim`
      removes and what `\s` matches. */
  predicate IsSpace(c: char) {
    c == '\t' || c == '\n' || c == '\U{B}' || c == '\U{C}' || c == '\r' || c == ' '
    || c == '\U{A0}' || c == '\U{1680}' || ('\U{2000}' <= c <= '\U{200A}')
    || c == '\U{2028}' || c == '\U{2029}' || c == '\U{202F}' || c == '\U{205F}'
    || c == '\U{3000}' || c == '\U{FEFF}'
  }

  /** The characters that `.` in a JavaScript regular expression refuses to match. */
  predicate IsLineTerminator(c: char) {
    c == '\n' || c == '\r' || c == '\U{2028}' || c == '\U{2029}'
  }

  /** `\d` without the `u` flag: the ASCII digits. */
  predicate IsDigit(c: char) {
    '0' <= c <= '9'
  }

  /** `s.trimStart()`: leading white space removed. */
  function TrimStart(s: string): (r: string)
    ensures r == [] || !IsSpace(r[0])
  {
    if s != [] && IsSpace(s[0]) then TrimStart(s[1..]) else s
  }

  /** `s.trimEnd()`: trailing white space removed. */
  function TrimEnd(s: string): (r: string)
    ensures |r| <= |s| && r == s[..|r|]
  {
    if s != [] && IsSpace(s[|s| - 1]) then TrimEnd(s[..|s| - 1]) else s
  }

  /** `s.trim()` */
  function Trim(s: string): string {
    TrimEnd(TrimStart(s))
  }

  /** `line.trim() === ''`, decided without trimming: every character is white space. */
  predicate IsBlank(line: string) {
    forall k :: 0 <= k < |line| ==> IsSpace(line[k])
  }

  /** `IsBlank` is `trim() === ''`: trimming leaves nothing exactly when there is nothing
      but white space. */
  lemma TrimBlank(s: string)
    ensures IsBlank(s) <==> Trim(s) == []
  {
    TrimStartBlank(s);
    var t := TrimStart(s);
    if t != [] {
      TrimEndKeepsHead(t);
    }
  }

  lemma {:induction false} TrimStartBlank(s: string)
    ensures TrimStart(s) == [] <==> forall k :: 0 <= k < |s| ==> IsSpace(s[k])
  {
    if s != [] && IsSpace(s[0]) {
      TrimStartBlank(s[1..]);
      assert forall k :: 1 <= k < |s| ==> s[k] == s[1..][k - 1];
    }
  }

  /** `trimEnd()` stops at a first character that is not white space. */
  lemma {:induction false} TrimEndKeepsHead(t: string)
    requires t != [] && !IsSpace(t[0])
    ensures TrimEnd(t) != []
  {
    if IsSpace(t[|t| - 1]) {
      assert |t| > 1;
      TrimEndKeepsHead(t[..|t| - 1]);
    }
  }

  predicate NoLineTerminator(s: string) {
    forall k :: 0 <= k < |s| ==> !IsLineTerminator(s[k])
  }

  /** `s.startsWith(p)` */
  predicate StartsWith(s: string, p: string) {
    |p| <= |s| && s[..|p|] == p
  }

  /** Glues lines back together with `'\n'`: the inverse of `SplitLines`. */
  function JoinLines(lines: seq<string>): string
    requires |lines| >= 1
  {
    if |lines| == 1 then lines[0] else lines[0] + "\n" + JoinLines(lines[1..])
  }

  /** `s.split('\n')`: the pieces between newlines, at least one (`"".split('\n')` is `[""]`),
      none holding a newline, and joining them with newlines gives back `s`. */
  function SplitLines(s: string): (lines: seq<string>)
    ensures |lines| >= 1
    ensures forall k :: 0 <= k < |lines| ==> '\n' !in lines[k]
    ensures JoinLines(lines) == s
    decreases |s|
  {
    if s == [] then [""]
    else
      var rest := SplitLines(s[1..]);
      if s[0] == '\n' then
        assert s == "\n" + s[1..];
        [""] + rest
      else
        var lines := [[s[0]] + rest[0]] + rest[1..];
        assert lines[1..] == rest[1..];
        assert s == [s[0]] + s[1..];
        lines
  }

  /** The converse round trip: splitting what was joined gives back the lines,
      as long as no line holds a newline itself. */
  lemma {:induction false} SplitJoin(lines: seq<string>)
    requires |lines| >= 1
    requires forall k :: 0 <= k < |lines| ==> '\n' !in lines[k]
    ensures SplitLines(JoinLines(lines)) == lines
  {
    if |lines| == 1 {
      SplitNoNewline(lines[0]);
    } else {
      SplitJoin(lines[1..]);
      SplitPrefix(lines[0], JoinLines(lines[1..]));
    }
  }

  lemma {:induction false} SplitNoNewline(s: string)
    requires '\n' !in s
    ensures SplitLines(s) == [s]
    decreases |s|
  {
    if s != [] {
      SplitNoNewline(s[1..]);
    }
  }

  /** A newline-free head followed by a newline contributes exactly one line. */
  lemma {:induction false} SplitPrefix(head: string, tail: string)
    requires '\n' !in head
    ensures SplitLines(head + "\n" + tail) == [head] + SplitLines(tail)
    decreases |head|
  {
    if head == [] {
      assert (head + "\n" + tail)[1..] == tail;
    } else {
      var s := head + "\n" + tail;
      assert s[0] == head[0] && s[1..] == head[1..] + "\n" + tail;
      SplitPrefix(head[1..], tail);
      assert [head[0]] + head[1..] == head;
    }
  }

  /** `lines.filter(line => line.trim() !== '')`: keeps exactly the non-blank lines, in order. */
  function NonBlankLines(lines: seq<string>): (kept: seq<string>)
    ensures |kept| <= |lines|
    ensures forall k :: 0 <= k < |kept| ==> !IsBlank(kept[k])
  {
    if lines == [] then []
    else if IsBlank(lines[0]) then NonBlankLines(lines[1..])
    else [lines[0]] + NonBlankLines(lines[1..])
  }

  /** The filter drops exactly the blank lines: a line is kept if and only if it is a
      non-blank line of the input. */
  lemma {:induction false} NonBlankMembers(lines: seq<string>)
    ensures forall x :: x in NonBlankLines(lines) <==> x in lines && !IsBlank(x)
  {
    if lines != [] {
      NonBlankMembers(lines[1..]);
      assert lines == [lines[0]] + lines[1..];
    }
  }

  lemma {:induction false} NonBlankConcat(a: seq<string>, b: seq<string>)
    ensures NonBlankLines(a + b) == NonBlankLines(a) + NonBlankLines(b)
  {
    if a != [] {
      assert (a + b)[0] == a[0] && (a + b)[1..] == a[1..] + b;
      NonBlankConcat(a[1..], b);
    } else {
      assert a + b == b;
    }
  }

  /** A blank line is dropped wherever it stands: inserting one between two lines of a
      slide body changes nothing the renderers see, so it cannot split a bullet list. */
  lemma BlankLineDropped(before: seq<string>, blank: string, after: seq<string>)
    requires |before + after| >= 1 && IsBlank(blank) && '\n' !in blank
    requires forall k :: 0 <= k < |before + after| ==> '\n' !in (before + after)[k]
    ensures ContentLines(JoinLines(before + [blank] + after)) == ContentLines(JoinLines(before + after))
  {
    InsertNoNewline(before, blank, after);
    SplitJoin(before + [blank] + after);
    SplitJoin(before + after);
    FilterDropsBlank(before, blank, after);
  }

  lemma InsertNoNewline(before: seq<string>, blank: string, after: seq<string>)
    requires '\n' !in blank
    requires forall k :: 0 <= k < |before + after| ==> '\n' !in (before + after)[k]
    ensures forall k :: 0 <= k < |before + [blank] + after| ==> '\n' !in (before + [blank] + after)[k]
  {
    var with := before + [blank] + after;
    forall k | 0 <= k < |with| ensures '\n' !in with[k] {
      if k < |before| {
        assert with[k] == (before + after)[k];
      } else if k > |before| {
        assert with[k] == (before + after)[k - 1];
      }
    }
  }

  lemma FilterDropsBlank(before: seq<string>, blank: string, after: seq<string>)
    requires IsBlank(blank)
    ensures NonBlankLines(before + [blank] + after) == NonBlankLines(before + after)
  {
    NonBlankConcat(before + [blank], after);
    NonBlankConcat(before, [blank]);
    NonBlankConcat(before, after);
    assert NonBlankLines([blank]) == [];
  }

  /** A slide body as both renderers see it: split on newlines, blank lines dropped. */
  function ContentLines(content: string): seq<string> {
    NonBlankLines(SplitLines(content))
  }

  /** How many times `c` occurs in `s`. */
  function Occurrences(c: char, s: string): nat {
    if s == [] then 0 else (if s[0] == c then 1 else 0) + Occurrences(c, s[1..])
  }

  lemma {:induction false} OccurrencesConcat(c: char, a: string, b: string)
    ensures Occurrences(c, a + b) == Occurrences(c, a) + Occurrences(c, b)
  {
    if a != [] {
      assert (a + b)[0] == a[0] && (a + b)[1..] == a[1..] + b;
      OccurrencesConcat(c, a[1..], b);
    } else {
      assert a + b == b;
    }
  }

  lemma {:induction false} OccurrencesNone(c: char, s: string)
    requires c !in s
    ensures Occurrences(c, s) == 0
  {
    if s != [] {
      assert s[0] in s;
      assert forall x :: x in s[1..] ==> x in s;
      OccurrencesNone(c, s[1..]);
    }
  }
}
