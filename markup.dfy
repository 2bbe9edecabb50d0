/** The block structure both slide renderers build from a slide body: each non-blank line
    is classified by its prefix, a maximal run of bullet lines becomes one list, every
    other line becomes one block of its own. `Blocks` is the reference definition the two
    renderers (`PresentationViewer.RenderContent`, `Sidebar.RenderThumbnailContent`) are
    proved against. */
module Markup {
  import opened Text
  import opened Emphasis

  /** One rendered block, without styling. Header text is raw; list items, numbered text
      and paragraphs have been through both emphasis passes. */
  datatype Block =
    | Title(text: string)
    | Section(text: string)
    | Subsection(text: string)
    | List(items: seq<string>)
    | Numbered(number: string, text: string)
    | Paragraph(html: string)

  /** How a line is classified, tests applied in the renderers' order. */
  datatype Kind = TitleKind | SectionKind | SubsectionKind | BulletKind | NumberedKind | ParagraphKind

  /** `line.startsWith('- ') || line.startsWith('• ')`, the test the look-ahead also uses. */
  predicate IsBullet(line: string) {
    StartsWith(line, "- ") || StartsWith(line, "• ")
  }

  /** The number of leading ASCII digits of `s`: how far the greedy `\d+` reaches. */
  function DigitRun(s: string): (n: nat)
    ensures n <= |s|
    ensures forall k :: 0 <= k < n ==> IsDigit(s[k])
    ensures n < |s| ==> !IsDigit(s[n])
  {
    if s == [] || !IsDigit(s[0]) then 0 else 1 + DigitRun(s[1..])
  }

  /** `^\d+\.\s` matches with `n` digits: `n` digits, a `.` and one white-space character. */
  predicate NumberedAt(line: string, n: nat) {
    0 < n && n + 2 <= |line| && (forall k :: 0 <= k < n ==> IsDigit(line[k]))
    && line[n] == '.' && IsSpace(line[n + 1])
  }

  /** The numbered-item test, decided on the greedy digit run. */
  predicate IsNumberedLine(line: string)
    ensures IsNumberedLine(line) <==> exists n: nat :: NumberedAt(line, n)
  {
    DigitRunDecides(line);
    var n := DigitRun(line);
    0 < n && n + 2 <= |line| && line[n] == '.' && IsSpace(line[n + 1])
  }

  /** `.` is no digit, so the regular expression matches with some number of digits
      exactly when it matches with all the leading ones. */
  lemma DigitRunDecides(line: string)
    ensures var n := DigitRun(line);
      (exists m: nat :: NumberedAt(line, m))
      <==> 0 < n && n + 2 <= |line| && line[n] == '.' && IsSpace(line[n + 1])
  {
    var n := DigitRun(line);
    if exists m: nat :: NumberedAt(line, m) {
      var m: nat :| NumberedAt(line, m);
      assert m == n;
    }
    if 0 < n && n + 2 <= |line| && line[n] == '.' && IsSpace(line[n + 1]) {
      assert NumberedAt(line, n);
    }
  }

  /** What a greedy `(.*)` captures: the longest prefix without a line terminator. */
  function LineText(s: string): (r: string)
    ensures |r| <= |s| && r == s[..|r|]
    ensures NoLineTerminator(r)
    ensures |r| < |s| ==> IsLineTerminator(s[|r|])
  {
    if s == [] || IsLineTerminator(s[0]) then [] else [s[0]] + LineText(s[1..])
  }

  /** The classifier: `"# "`, `"## "`, `"### "`, bullet, numbered, paragraph, first match wins. */
  function KindOf(line: string): (k: Kind)
    ensures k == BulletKind <==> IsBullet(line)
    ensures k == NumberedKind <==> IsNumberedLine(line) && !IsBullet(line)
    ensures k == ParagraphKind ==>
      !StartsWith(line, "# ") && !StartsWith(line, "## ") && !StartsWith(line, "### ")
      && !IsBullet(line) && !IsNumberedLine(line)
  {
    if StartsWith(line, "# ") then TitleKind
    else if StartsWith(line, "## ") then SectionKind
    else if StartsWith(line, "### ") then SubsectionKind
    else if IsBullet(line) then BulletKind
    else if IsNumberedLine(line) then NumberedKind
    else ParagraphKind
  }

  /** The block a non-bullet line renders to. Headers give back the exact line when their
      prefix is put back in front (no emphasis pass); a numbered block's label is the literal
      digit string the line starts with. */
  function BlockOf(line: string): (b: Block)
    requires !IsBullet(line)
    ensures !b.List?
    ensures b.Title? <==> KindOf(line) == TitleKind
    ensures b.Title? ==> line == "# " + b.text
    ensures b.Section? ==> line == "## " + b.text
    ensures b.Subsection? ==> line == "### " + b.text
    ensures b.Numbered? ==>
      KindOf(line) == NumberedKind && 0 < |b.number| && |b.number| + 2 <= |line|
      && line[..|b.number|] == b.number && line[|b.number|] == '.'
      && (forall k :: 0 <= k < |b.number| ==> IsDigit(b.number[k]))
    ensures b.Numbered? ==> b.text == Emph(LineText(line[|b.number| + 2..]))
    ensures b.Paragraph? <==> KindOf(line) == ParagraphKind
    ensures b.Paragraph? ==> b.html == Emph(line)
  {
    match KindOf(line)
    case TitleKind => Title(line[2..])
    case SectionKind => Section(line[3..])
    case SubsectionKind => Subsection(line[4..])
    case NumberedKind =>
      var n := DigitRun(line);
      Numbered(line[..n], Emph(LineText(line[n + 2..])))
    case ParagraphKind => Paragraph(Emph(line))
  }

  /** The item text of a bullet line: the line without its two-character marker. */
  function BulletText(line: string): string
    requires IsBullet(line)
  {
    line[2..]
  }

  /** The texts of the bullet lines among `lines`, in order. */
  function BulletTexts(lines: seq<string>): seq<string> {
    if lines == [] then []
    else if IsBullet(lines[0]) then [BulletText(lines[0])] + BulletTexts(lines[1..])
    else BulletTexts(lines[1..])
  }

  /** Both emphasis passes on every item, as the list rendering does. */
  function EmphAll(texts: seq<string>): seq<string> {
    seq(|texts|, k requires 0 <= k < |texts| => Emph(texts[k]))
  }

  /** How many bullet lines `lines` starts with. */
  function RunLength(lines: seq<string>): (n: nat)
    ensures n <= |lines|
    ensures forall k :: 0 <= k < n ==> IsBullet(lines[k])
    ensures n < |lines| ==> !IsBullet(lines[n])
  {
    if lines == [] || !IsBullet(lines[0]) then 0 else 1 + RunLength(lines[1..])
  }

  /** The blocks of a list of non-blank lines: a maximal run of bullet lines gives one list
      of their emphasised texts, every other line its own block. */
  function Blocks(lines: seq<string>): (r: seq<Block>)
    ensures |r| <= |lines|
    ensures r == [] <==> lines == []
    decreases |lines|
  {
    if lines == [] then []
    else if IsBullet(lines[0]) then
      var n := RunLength(lines);
      [List(EmphAll(BulletTexts(lines[..n])))] + Blocks(lines[n..])
    else
      [BlockOf(lines[0])] + Blocks(lines[1..])
  }

  /** Where `a` and `b` do not split a run of bullets, the run at the head of `a + b` is
      the one at the head of `a`. */
  lemma RunLengthConcat(a: seq<string>, b: seq<string>)
    requires a == [] || b == [] || !IsBullet(a[|a| - 1]) || !IsBullet(b[0])
    ensures a != [] ==> RunLength(a + b) == RunLength(a)
  {
    assert forall k :: 0 <= k < |a| ==> (a + b)[k] == a[k];
    assert b != [] ==> (a + b)[|a|] == b[0];
  }

  /** Blocks never straddle a boundary that does not split a bullet run: the blocks of a
      concatenation are the blocks of its parts. */
  lemma {:induction false} BlocksConcat(a: seq<string>, b: seq<string>)
    requires a == [] || b == [] || !IsBullet(a[|a| - 1]) || !IsBullet(b[0])
    ensures Blocks(a + b) == Blocks(a) + Blocks(b)
    decreases |a|
  {
    if a == [] {
      assert a + b == b;
    } else {
      var n := if IsBullet(a[0]) then RunLength(a) else 1;
      var head := if IsBullet(a[0]) then List(EmphAll(BulletTexts(a[..n]))) else BlockOf(a[0]);
      if IsBullet(a[0]) {
        HeadRunConcat(a, b);
      } else {
        CutConcat(a, b, 1);
      }
      TailKeepsLast(a, n);
      BlocksConcat(a[n..], b);
      JoinShape(Blocks(a + b), Blocks(a), Blocks(b), [head], Blocks(a[n..] + b), Blocks(a[n..]));
    }
  }

  /** What is left after the head of `a` still ends with `a`'s last line. */
  lemma TailKeepsLast<T>(a: seq<T>, n: nat)
    requires n <= |a|
    ensures a[n..] != [] ==> a[n..][|a[n..]| - 1] == a[|a| - 1]
  {
  }

  /** The head block followed by the blocks of the rest, on both sides of a concatenation. */
  lemma JoinShape<T>(whole: seq<T>, left: seq<T>, right: seq<T>, head: seq<T>, restRight: seq<T>, rest: seq<T>)
    requires whole == head + restRight && left == head + rest && restRight == rest + right
    ensures whole == left + right
  {
  }

  /** The bullet run at the head of `a` is also the first block of `a + b`. */
  lemma HeadRunConcat(a: seq<string>, b: seq<string>)
    requires a != [] && IsBullet(a[0])
    requires b == [] || !IsBullet(a[|a| - 1]) || !IsBullet(b[0])
    ensures var n := RunLength(a);
      Blocks(a + b) == [List(EmphAll(BulletTexts(a[..n])))] + Blocks(a[n..] + b)
  {
    RunLengthConcat(a, b);
    CutConcat(a, b, RunLength(a));
  }

  /** Cutting `a + b` inside `a`. */
  lemma CutConcat<T>(a: seq<T>, b: seq<T>, n: nat)
    requires 0 < n <= |a|
    ensures (a + b)[0] == a[0] && (a + b)[..n] == a[..n] && (a + b)[n..] == a[n..] + b
  {
  }

  /** A run made only of bullet lines is one list holding the emphasised texts of all of
      them. */
  lemma OneRun(run: seq<string>)
    requires run != [] && forall k :: 0 <= k < |run| ==> IsBullet(run[k])
    ensures Blocks(run) == [List(EmphAll(BulletTexts(run)))]
  {
    assert RunLength(run) == |run|;
    assert run[..|run|] == run && run[|run|..] == [];
  }

  /** Each maximal run of bullet lines, wherever it stands, yields exactly one list block,
      and its items are the texts of that run's lines. */
  lemma MaximalRun(a: seq<string>, run: seq<string>, b: seq<string>)
    requires run != [] && forall k :: 0 <= k < |run| ==> IsBullet(run[k])
    requires a == [] || !IsBullet(a[|a| - 1])
    requires b == [] || !IsBullet(b[0])
    ensures Blocks(a + run + b) == Blocks(a) + [List(EmphAll(BulletTexts(run)))] + Blocks(b)
  {
    BlocksConcat(a, run);
    LastOfConcat(a, run);
    BlocksConcat(a + run, b);
    OneRun(run);
    ThreeParts(Blocks(a + run + b), Blocks(a + run), Blocks(a), Blocks(run), Blocks(b));
  }

  /** A concatenation ends where its non-empty second part ends. */
  lemma LastOfConcat<T>(a: seq<T>, r: seq<T>)
    requires r != []
    ensures (a + r)[|a + r| - 1] == r[|r| - 1]
  {
  }

  /** Regrouping a concatenation of three parts. */
  lemma ThreeParts<T>(whole: seq<T>, front: seq<T>, a: seq<T>, r: seq<T>, b: seq<T>)
    requires whole == front + b && front == a + r
    ensures whole == a + r + b
  {
  }

  /** Line `k` is the last line of a run of bullets. */
  predicate EndsRun(lines: seq<string>, k: nat)
    requires k < |lines|
  {
    IsBullet(lines[k]) && (k + 1 == |lines| || !IsBullet(lines[k + 1]))
  }

  /** The number of maximal bullet runs, counted by their last lines. */
  function RunCount(lines: seq<string>): nat {
    if lines == [] then 0
    else (if EndsRun(lines, 0) then 1 else 0) + RunCount(lines[1..])
  }

  /** The number of lines that are not bullets. */
  function NonBulletCount(lines: seq<string>): nat {
    if lines == [] then 0
    else (if IsBullet(lines[0]) then 0 else 1) + NonBulletCount(lines[1..])
  }

  /** The blocks of the non-bullet lines, one per line, in order. */
  function NonBulletBlocks(lines: seq<string>): seq<Block> {
    if lines == [] then []
    else if IsBullet(lines[0]) then NonBulletBlocks(lines[1..])
    else [BlockOf(lines[0])] + NonBulletBlocks(lines[1..])
  }

  /** The items of all list blocks, concatenated in order. */
  function ListItems(blocks: seq<Block>): seq<string> {
    if blocks == [] then []
    else (if blocks[0].List? then blocks[0].items else []) + ListItems(blocks[1..])
  }

  /** The blocks that are not lists, in order. */
  function NonLists(blocks: seq<Block>): seq<Block> {
    if blocks == [] then []
    else (if blocks[0].List? then [] else [blocks[0]]) + NonLists(blocks[1..])
  }

  /** No list is empty and no two lists are adjacent. */
  predicate WellGrouped(blocks: seq<Block>) {
    (forall k :: 0 <= k < |blocks| && blocks[k].List? ==> blocks[k].items != [])
    && (forall k :: 0 <= k < |blocks| - 1 && blocks[k].List? ==> !blocks[k + 1].List?)
  }

  /** What skipping one whole run of bullets does to each count. */
  lemma SkipRun(lines: seq<string>)
    requires lines != [] && IsBullet(lines[0])
    ensures var n := RunLength(lines);
      && RunCount(lines) == 1 + RunCount(lines[n..])
      && NonBulletCount(lines) == NonBulletCount(lines[n..])
      && NonBulletBlocks(lines) == NonBulletBlocks(lines[n..])
      && BulletTexts(lines) == BulletTexts(lines[..n]) + BulletTexts(lines[n..])
      && |BulletTexts(lines[..n])| == n
  {
    SkipRunCounts(lines);
    SkipRunTexts(lines);
  }

  /** The run ends once and holds no other line. */
  lemma {:induction false} SkipRunCounts(lines: seq<string>)
    requires lines != [] && IsBullet(lines[0])
    ensures var n := RunLength(lines);
      && RunCount(lines) == 1 + RunCount(lines[n..])
      && NonBulletCount(lines) == NonBulletCount(lines[n..])
      && NonBulletBlocks(lines) == NonBulletBlocks(lines[n..])
  {
    var n := RunLength(lines);
    if n == 1 {
      assert lines[1..] == lines[n..];
    } else {
      var rest := lines[1..];
      SkipRunCounts(rest);
      assert RunLength(rest) == n - 1;
      assert rest[n - 1..] == lines[n..];
      assert !EndsRun(lines, 0);
    }
  }

  /** Every line of the run gives one item. */
  lemma SkipRunTexts(lines: seq<string>)
    requires lines != [] && IsBullet(lines[0])
    ensures var n := RunLength(lines);
      && BulletTexts(lines) == BulletTexts(lines[..n]) + BulletTexts(lines[n..])
      && |BulletTexts(lines[..n])| == n
  {
    var n := RunLength(lines);
    assert lines == lines[..n] + lines[n..];
    BulletTextsConcat(lines[..n], lines[n..]);
    AllBulletTexts(lines[..n]);
  }

  /** Lines that are all bullets give one text each. */
  lemma {:induction false} AllBulletTexts(run: seq<string>)
    requires forall k :: 0 <= k < |run| ==> IsBullet(run[k])
    ensures |BulletTexts(run)| == |run|
  {
    if run != [] {
      AllBulletTexts(run[1..]);
    }
  }

  lemma {:induction false} BulletTextsConcat(a: seq<string>, b: seq<string>)
    ensures BulletTexts(a + b) == BulletTexts(a) + BulletTexts(b)
  {
    if a != [] {
      assert (a + b)[0] == a[0] && (a + b)[1..] == a[1..] + b;
      BulletTextsConcat(a[1..], b);
    } else {
      assert a + b == b;
    }
  }

  /** Pushing the text of one more bullet line onto the texts of a stretch of lines. */
  lemma BulletTextsSnoc(lines: seq<string>, start: nat, index: nat)
    requires start <= index < |lines| && IsBullet(lines[index])
    ensures BulletTexts(lines[start..index + 1])
         == BulletTexts(lines[start..index]) + [BulletText(lines[index])]
  {
    BulletTextsConcat(lines[start..index], [lines[index]]);
    assert lines[start..index + 1] == lines[start..index] + [lines[index]];
    assert BulletTexts([lines[index]]) == [BulletText(lines[index])] + BulletTexts([]);
  }

  /** `RunLength` measures the whole run: a stretch of bullets ended by a non-bullet or by
      the end of the input. */
  lemma {:induction false} RunLengthIs(lines: seq<string>, n: nat)
    requires n <= |lines| && (forall k :: 0 <= k < n ==> IsBullet(lines[k]))
    requires n == |lines| || !IsBullet(lines[n])
    ensures RunLength(lines) == n
  {
    if n > 0 {
      RunLengthIs(lines[1..], n - 1);
    }
  }

  /** The blocks from `start` on, when a run of bullets covers `start` to `end`. */
  lemma RunBlocks(lines: seq<string>, start: nat, end: nat)
    requires start < end <= |lines| && (forall k :: start <= k < end ==> IsBullet(lines[k]))
    requires end == |lines| || !IsBullet(lines[end])
    ensures Blocks(lines[start..])
         == [List(EmphAll(BulletTexts(lines[start..end])))] + Blocks(lines[end..])
  {
    var rest := lines[start..];
    RunLengthIs(rest, end - start);
    assert rest[..end - start] == lines[start..end];
    assert rest[end - start..] == lines[end..];
  }

  /** The blocks from `i` on, when line `i` is not a bullet. */
  lemma LineBlocks(lines: seq<string>, i: nat)
    requires i < |lines| && !IsBullet(lines[i])
    ensures Blocks(lines[i..]) == [BlockOf(lines[i])] + Blocks(lines[i + 1..])
  {
    assert lines[i..][1..] == lines[i + 1..];
  }

  /** A run of bullets gives exactly one list block: there are as many blocks as non-bullet
      lines plus maximal bullet runs. */
  lemma {:induction false} BlockCount(lines: seq<string>)
    ensures |Blocks(lines)| == NonBulletCount(lines) + RunCount(lines)
    decreases |lines|
  {
    if lines != [] {
      if IsBullet(lines[0]) {
        SkipRun(lines);
        BlockCount(lines[RunLength(lines)..]);
      } else {
        BlockCount(lines[1..]);
      }
    }
  }

  /** Every bullet line's text appears as a list item, emphasised, in input order, and
      nothing else does. */
  lemma {:induction false} ListItemsAreBullets(lines: seq<string>)
    ensures ListItems(Blocks(lines)) == EmphAll(BulletTexts(lines))
    decreases |lines|
  {
    if lines != [] {
      var b := Blocks(lines);
      if IsBullet(lines[0]) {
        var n := RunLength(lines);
        SkipRun(lines);
        ListItemsAreBullets(lines[n..]);
        assert b[1..] == Blocks(lines[n..]);
        EmphAllConcat(BulletTexts(lines[..n]), BulletTexts(lines[n..]));
      } else {
        ListItemsAreBullets(lines[1..]);
        assert b[1..] == Blocks(lines[1..]);
      }
    }
  }

  lemma EmphAllConcat(a: seq<string>, b: seq<string>)
    ensures EmphAll(a + b) == EmphAll(a) + EmphAll(b)
  {
  }

  /** Every non-bullet line gives its own block, in input order. */
  lemma {:induction false} NonListsAreLines(lines: seq<string>)
    ensures NonLists(Blocks(lines)) == NonBulletBlocks(lines)
    decreases |lines|
  {
    if lines != [] {
      if IsBullet(lines[0]) {
        var n := RunLength(lines);
        SkipRun(lines);
        NonListsAreLines(lines[n..]);
        assert Blocks(lines)[1..] == Blocks(lines[n..]);
      } else {
        NonListsAreLines(lines[1..]);
        assert Blocks(lines)[1..] == Blocks(lines[1..]);
      }
    }
  }

  /** Runs are maximal: lists are never empty and never follow one another. */
  lemma {:induction false} BlocksWellGrouped(lines: seq<string>)
    ensures WellGrouped(Blocks(lines))
    decreases |lines|
  {
    if lines != [] {
      var b := Blocks(lines);
      if IsBullet(lines[0]) {
        var n := RunLength(lines);
        SkipRun(lines);
        BlocksWellGrouped(lines[n..]);
        assert b[1..] == Blocks(lines[n..]);
        assert |b| > 1 ==> b[1] == BlockOf(lines[n]);
      } else {
        BlocksWellGrouped(lines[1..]);
        assert b[1..] == Blocks(lines[1..]);
      }
    }
  }

  /** A line with a leading white-space character is a paragraph, even `"  - a"`. */
  lemma IndentedIsParagraph(line: string)
    requires |line| > 0 && IsSpace(line[0])
    ensures !IsBullet(line) && BlockOf(line) == Paragraph(Emph(line))
  {
    assert DigitRun(line) == 0;
  }

  /** A line starting with `#` that is not a header, as in `"#Heading"` or `"##x"`, gives
      a paragraph. */
  lemma HashWithoutSpace(rest: string)
    requires !StartsWith("#" + rest, "# ")
    requires !StartsWith("#" + rest, "## ") && !StartsWith("#" + rest, "### ")
    ensures !IsBullet("#" + rest) && BlockOf("#" + rest) == Paragraph(Emph("#" + rest))
  {
    var line := "#" + rest;
    assert DigitRun(line) == 0;
  }

  /** Leading digits, a dot, one white-space character and text on one line give a numbered
      block labelled with the digits exactly as written (leading zeros kept). */
  lemma NumberedBlock(digits: string, space: char, text: string)
    requires digits != [] && (forall k :: 0 <= k < |digits| ==> IsDigit(digits[k]))
    requires IsSpace(space) && NoLineTerminator(text)
    ensures var line := digits + "." + [space] + text;
      !IsBullet(line) && BlockOf(line) == Numbered(digits, Emph(text))
  {
    var line := digits + "." + [space] + text;
    DigitRunOf(digits, "." + [space] + text);
    assert line == digits + ("." + [space] + text);
    assert line[|digits| + 2..] == text;
    LineTextWhole(text);
    assert line[..|digits|] == digits;
  }

  /** The digit run of digits followed by a non-digit is exactly those digits. */
  lemma {:induction false} DigitRunOf(digits: string, rest: string)
    requires forall k :: 0 <= k < |digits| ==> IsDigit(digits[k])
    requires rest != [] && !IsDigit(rest[0])
    ensures DigitRun(digits + rest) == |digits|
  {
    if digits != [] {
      assert (digits + rest)[1..] == digits[1..] + rest;
      DigitRunOf(digits[1..], rest);
    } else {
      assert digits + rest == rest;
    }
  }

  /** `(.*)` takes the whole of a text without line terminators. */
  lemma LineTextWhole(s: string)
    requires NoLineTerminator(s)
    ensures LineText(s) == s
  {
    var r := LineText(s);
    assert r == s[..|r|];
  }
}
