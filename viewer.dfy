/** The main slide view's `renderContent`: a `map` over the non-blank lines whose callback
    pushes bullet texts into a shared buffer and returns, per line, either a block or
    `null` (a bullet that is not the last of its run). */
module PresentationViewer {
  import opened Text
  import opened Markup

  /** The blocks React renders from the per-line results: the `null`s skipped, order kept. */
  function Present(out: seq<Option<Block>>): seq<Block> {
    if out == [] then []
    else Present(out[..|out| - 1]) + (if out[|out| - 1].Some? then [out[|out| - 1].value] else [])
  }

  /** Line `k` renders as `null`: a bullet whose next line is a bullet too. */
  predicate Hidden(lines: seq<string>, k: nat)
    requires k < |lines|
  {
    IsBullet(lines[k]) && k + 1 < |lines| && IsBullet(lines[k + 1])
  }

  /** The state of the `map` after `index` lines: the buffer holds the texts of the bullets
      since `start`, which are all bullets of a run still going on; the results so far and
      the reference blocks of the lines from `start` on make up all the blocks. */
  ghost predicate Rendered(lines: seq<string>, start: nat, index: nat,
                           bulletPoints: seq<string>, out: seq<Option<Block>>)
  {
    && start <= index <= |lines| && |out| == index
    && (forall k :: start <= k < index ==> IsBullet(lines[k]))
    && bulletPoints == BulletTexts(lines[start..index])
    && (start < index ==> index < |lines| && IsBullet(lines[index]))
    && Present(out) + Blocks(lines[start..]) == Blocks(lines)
    && (forall k :: 0 <= k < index ==> (out[k].None? <==> Hidden(lines, k)))
  }

  /** A bullet followed by another bullet renders as `null`. */
  lemma KeepBullet(lines: seq<string>, start: nat, index: nat,
                   bulletPoints: seq<string>, out: seq<Option<Block>>, buffer: seq<string>)
    requires Rendered(lines, start, index, bulletPoints, out)
    requires index + 1 < |lines| && IsBullet(lines[index]) && IsBullet(lines[index + 1])
    requires buffer == bulletPoints + [BulletText(lines[index])]
    ensures Rendered(lines, start, index + 1, buffer, out + [None])
  {
    BulletTextsSnoc(lines, start, index);
    PresentSnocNone(out);
    HiddenSnoc(lines, index, out, None);
  }

  /** A `null` result adds nothing to what React renders. */
  lemma PresentSnocNone(out: seq<Option<Block>>)
    ensures Present(out + [None]) == Present(out)
  {
    assert (out + [None])[..|out|] == out;
  }

  /** One more result that is `null` exactly when its line is hidden. */
  lemma HiddenSnoc(lines: seq<string>, index: nat, out: seq<Option<Block>>, r: Option<Block>)
    requires index < |lines| && |out| == index
    requires forall k :: 0 <= k < index ==> (out[k].None? <==> Hidden(lines, k))
    requires r.None? <==> Hidden(lines, index)
    ensures forall k :: 0 <= k < index + 1 ==> ((out + [r])[k].None? <==> Hidden(lines, k))
  {
    forall k | 0 <= k < index + 1 ensures (out + [r])[k].None? <==> Hidden(lines, k) {
      if k < index { assert (out + [r])[k] == out[k]; }
    }
  }

  /** Emitting block `b` at line `index`, when `b` is the reference block covering the
      lines from `start` to `index`. */
  lemma EmitBlock(lines: seq<string>, start: nat, index: nat,
                  bulletPoints: seq<string>, out: seq<Option<Block>>, b: Block)
    requires Rendered(lines, start, index, bulletPoints, out)
    requires index < |lines| && !Hidden(lines, index)
    requires Blocks(lines[start..]) == [b] + Blocks(lines[index + 1..])
    ensures Rendered(lines, index + 1, index + 1, [], out + [Some(b)])
  {
    var out' := out + [Some(b)];
    assert out'[..index] == out;
    assert (Present(out) + [b]) + Blocks(lines[index + 1..]) == Blocks(lines);
    assert lines[index + 1..index + 1] == [];
  }

  /** The last bullet of a run renders the whole run as one list and empties the buffer. */
  lemma FlushBullets(lines: seq<string>, start: nat, index: nat,
                     bulletPoints: seq<string>, out: seq<Option<Block>>, result: Option<Block>)
    requires Rendered(lines, start, index, bulletPoints, out)
    requires index < |lines| && IsBullet(lines[index])
    requires index + 1 == |lines| || !IsBullet(lines[index + 1])
    requires result == Some(List(EmphAll(bulletPoints + [BulletText(lines[index])])))
    ensures Rendered(lines, index + 1, index + 1, [], out + [result])
  {
    BulletTextsSnoc(lines, start, index);
    RunBlocks(lines, start, index + 1);
    EmitBlock(lines, start, index, bulletPoints, out, result.value);
  }

  /** Any other line renders as its own block. */
  lemma EmitLine(lines: seq<string>, start: nat, index: nat,
                 bulletPoints: seq<string>, out: seq<Option<Block>>, result: Option<Block>)
    requires Rendered(lines, start, index, bulletPoints, out)
    requires index < |lines| && !IsBullet(lines[index])
    requires result == Some(BlockOf(lines[index]))
    ensures Rendered(lines, index + 1, index + 1, [], out + [result])
  {
    LineBlocks(lines, index);
    EmitBlock(lines, start, index, bulletPoints, out, result.value);
  }

  /** The `map` callback for line `index`: a bullet joins the buffer and renders `null`,
      unless it is the last of its run, which renders the buffer as one list and empties
      it; any other line renders its own block. */
  method RenderLine(lines: seq<string>, index: nat, bulletPoints: seq<string>,
                    ghost start: nat, ghost out: seq<Option<Block>>)
    returns (result: Option<Block>, bulletPoints': seq<string>, ghost start': nat)
    requires index < |lines| && Rendered(lines, start, index, bulletPoints, out)
    ensures Rendered(lines, start', index + 1, bulletPoints', out + [result])
    ensures !IsBullet(lines[index]) ==> bulletPoints' == bulletPoints == []
  {
    var line := lines[index];
    if KindOf(line) == BulletKind {
      var nextLineIndex := index + 1;
      var isLastBullet := nextLineIndex >= |lines| || !IsBullet(lines[nextLineIndex]);
      if isLastBullet {
        result := Some(List(EmphAll(bulletPoints + [BulletText(line)])));
        FlushBullets(lines, start, index, bulletPoints, out, result);
        bulletPoints' := [];
        start' := index + 1;
      } else {
        result := None;
        KeepBullet(lines, start, index, bulletPoints, out, bulletPoints + [BulletText(line)]);
        bulletPoints' := bulletPoints + [BulletText(line)];
        start' := start;
      }
    } else {
      // A line that is no bullet ends no run, so the buffer is already empty here.
      assert lines[start..index] == [];
      assert bulletPoints == [];
      result := Some(BlockOf(line));
      EmitLine(lines, start, index, bulletPoints, out, result);
      bulletPoints' := bulletPoints;
      start' := index + 1;
    }
  }

  /** The `map` over the non-blank lines: one result per line; the non-null ones are
      exactly the reference blocks, and a line is `null` exactly when it is a bullet that
      another bullet follows, so each block stands at the last line it covers. */
  method RenderLines(lines: seq<string>) returns (out: seq<Option<Block>>)
    ensures |out| == |lines|
    ensures forall k :: 0 <= k < |out| ==> (out[k].None? <==> Hidden(lines, k))
    ensures Present(out) == Blocks(lines)
  {
    var bulletPoints: seq<string> := [];
    ghost var start: nat := 0;
    out := [];
    var index := 0;
    RenderedAtStart(lines);
    while index < |lines|
      invariant index <= |lines| && Rendered(lines, start, index, bulletPoints, out)
      decreases |lines| - index
    {
      var result;
      result, bulletPoints, start := RenderLine(lines, index, bulletPoints, start, out);
      out := out + [result];
      index := index + 1;
    }
    RenderedAtEnd(lines, start, bulletPoints, out);
  }

  /** Before the first line nothing is buffered and nothing rendered. */
  lemma RenderedAtStart(lines: seq<string>)
    ensures Rendered(lines, 0, 0, [], [])
  {
    assert lines[0..] == lines;
    assert lines[0..0] == [];
  }

  /** After the last line every run has been rendered: the buffer is empty and the results
      present all the blocks. */
  lemma RenderedAtEnd(lines: seq<string>, start: nat, bulletPoints: seq<string>,
                      out: seq<Option<Block>>)
    requires Rendered(lines, start, |lines|, bulletPoints, out)
    ensures bulletPoints == [] && Present(out) == Blocks(lines)
  {
    assert lines[start..] == [];
    assert lines[start..|lines|] == [];
  }

  /** Renders a slide body: split into lines, blank lines dropped, then the `map`. */
  method RenderContent(content: string) returns (out: seq<Option<Block>>)
    ensures |out| == |ContentLines(content)|
    ensures forall k :: 0 <= k < |out| ==> (out[k].None? <==> Hidden(ContentLines(content), k))
    ensures Present(out) == Blocks(ContentLines(content))
  {
    var lines := ContentLines(content);
    out := RenderLines(lines);
  }
}
