/** The sidebar: thumbnails of every slide (`renderThumbnailContent`, a `forEach` over the
    non-blank lines pushing into an element list, cut to twelve blocks) and drag-and-drop
    reordering (`handleDrop`). */
module Sidebar {
  import opened Text
  import opened Markup
  import opened Slides

  /** `lines.findIndex((l, i) => i > index && l.trim() !== '')`, scanning from `i`: the first
      position after `index` holding a non-blank line, or -1. */
  function FindNextNonBlank(lines: seq<string>, index: int, i: nat): (r: int)
    requires i <= |lines|
    ensures r == -1 || (i <= r < |lines| && r > index)
    decreases |lines| - i
  {
    if i == |lines| then -1
    else if i > index && !IsBlank(lines[i]) then i
    else FindNextNonBlank(lines, index, i + 1)
  }

  /** What `findIndex` promises: the position found is the first one after `index` holding
      a non-blank line, and -1 means there is none. */
  lemma {:induction false} FindNextNonBlankIsFirst(lines: seq<string>, index: int, i: nat)
    requires i <= |lines|
    ensures var r := FindNextNonBlank(lines, index, i);
      && (r != -1 ==> !IsBlank(lines[r]) && forall j :: i <= j < r && j > index ==> IsBlank(lines[j]))
      && (r == -1 ==> forall j :: i <= j < |lines| && j > index ==> IsBlank(lines[j]))
    decreases |lines| - i
  {
    if i < |lines| && !(i > index && !IsBlank(lines[i])) {
      FindNextNonBlankIsFirst(lines, index, i + 1);
    }
  }

  /** Blank lines are gone before the look-ahead runs, so `findIndex` finds the very next
      line, or -1 after the last one: the same look-ahead as the main view's `index + 1`. */
  lemma NextNonBlankIsNext(lines: seq<string>, index: nat)
    requires forall k :: 0 <= k < |lines| ==> !IsBlank(lines[k])
    requires index < |lines|
    ensures FindNextNonBlank(lines, index, 0) == if index + 1 < |lines| then index + 1 else -1
  {
    FindNextNonBlankIsFirst(lines, index, 0);
    if index + 1 < |lines| {
      assert !IsBlank(lines[index + 1]);
    }
  }

  /** The two look-aheads agree on whether a bullet is the last of its run. */
  lemma LookAheadsAgree(lines: seq<string>, index: nat)
    requires forall k :: 0 <= k < |lines| ==> !IsBlank(lines[k])
    requires index < |lines|
    ensures var next := FindNextNonBlank(lines, index, 0);
      (next == -1 || !IsBullet(lines[next]))
      <==> (index + 1 >= |lines| || !IsBullet(lines[index + 1]))
  {
    NextNonBlankIsNext(lines, index);
  }

  /** `elements.slice(0, 12)`: at most the first twelve blocks. */
  function FirstTwelve(blocks: seq<Block>): (r: seq<Block>)
    ensures |r| == if |blocks| < 12 then |blocks| else 12
    ensures r == blocks[..|r|]
  {
    if |blocks| <= 12 then blocks else blocks[..12]
  }

  /** The state of the `forEach` after `index` lines: the buffer holds the texts of the
      bullets since `start`, a run still going on, and the elements pushed so far followed
      by the reference blocks of the lines from `start` on make up all the blocks. */
  ghost predicate Drawn(lines: seq<string>, start: nat, index: nat,
                        bulletPoints: seq<string>, elements: seq<Block>)
  {
    && start <= index <= |lines|
    && (forall k :: start <= k < index ==> IsBullet(lines[k]))
    && bulletPoints == BulletTexts(lines[start..index])
    && (start < index ==> index < |lines| && IsBullet(lines[index]))
    && elements + Blocks(lines[start..]) == Blocks(lines)
  }

  /** A bullet that another bullet follows only joins the buffer. */
  lemma HoldBullet(lines: seq<string>, start: nat, index: nat,
                   bulletPoints: seq<string>, elements: seq<Block>, buffer: seq<string>)
    requires Drawn(lines, start, index, bulletPoints, elements)
    requires index + 1 < |lines| && IsBullet(lines[index]) && IsBullet(lines[index + 1])
    requires buffer == bulletPoints + [BulletText(lines[index])]
    ensures Drawn(lines, start, index + 1, buffer, elements)
  {
    BulletTextsSnoc(lines, start, index);
  }

  /** Pushing block `b` at line `index`, when `b` is the reference block covering the lines
      from `start` to `index`. */
  lemma PushBlock(lines: seq<string>, start: nat, index: nat,
                  bulletPoints: seq<string>, elements: seq<Block>, b: Block)
    requires Drawn(lines, start, index, bulletPoints, elements)
    requires index < |lines|
    requires Blocks(lines[start..]) == [b] + Blocks(lines[index + 1..])
    ensures Drawn(lines, index + 1, index + 1, [], elements + [b])
  {
    assert (elements + [b]) + Blocks(lines[index + 1..]) == elements + Blocks(lines[start..]);
    assert lines[index + 1..index + 1] == [];
  }

  /** The last bullet of a run pushes the whole run as one list and empties the buffer. */
  lemma PushList(lines: seq<string>, start: nat, index: nat,
                 bulletPoints: seq<string>, elements: seq<Block>, b: Block)
    requires Drawn(lines, start, index, bulletPoints, elements)
    requires index < |lines| && IsBullet(lines[index])
    requires index + 1 == |lines| || !IsBullet(lines[index + 1])
    requires b == List(EmphAll(bulletPoints + [BulletText(lines[index])]))
    ensures Drawn(lines, index + 1, index + 1, [], elements + [b])
  {
    BulletTextsSnoc(lines, start, index);
    assert b == List(EmphAll(BulletTexts(lines[start..index + 1])));
    assert forall k :: start <= k < index + 1 ==> IsBullet(lines[k]);
    RunBlocks(lines, start, index + 1);
    PushBlock(lines, start, index, bulletPoints, elements, b);
  }

  /** Any other line pushes its own block. */
  lemma PushLine(lines: seq<string>, start: nat, index: nat,
                 bulletPoints: seq<string>, elements: seq<Block>, b: Block)
    requires Drawn(lines, start, index, bulletPoints, elements)
    requires index < |lines| && !IsBullet(lines[index]) && b == BlockOf(lines[index])
    ensures Drawn(lines, index + 1, index + 1, [], elements + [b])
  {
    LineBlocks(lines, index);
    PushBlock(lines, start, index, bulletPoints, elements, b);
  }

  /** The `forEach` callback for line `index`: a bullet joins the buffer, and the last one
      of its run pushes the buffer as one list; any other line pushes its own block. */
  method DrawLine(lines: seq<string>, index: nat, bulletPoints: seq<string>, elements: seq<Block>,
                  ghost start: nat)
    returns (bulletPoints': seq<string>, elements': seq<Block>, ghost start': nat)
    requires forall k :: 0 <= k < |lines| ==> !IsBlank(lines[k])
    requires index < |lines| && Drawn(lines, start, index, bulletPoints, elements)
    ensures Drawn(lines, start', index + 1, bulletPoints', elements')
    ensures !IsBullet(lines[index]) ==> bulletPoints' == bulletPoints == []
  {
    var line := lines[index];
    var kind := KindOf(line);
    if kind == BulletKind {
      var nextLineIndex := FindNextNonBlank(lines, index, 0);
      var isLastBullet := nextLineIndex == -1 || !IsBullet(lines[nextLineIndex]);
      LookAheadsAgree(lines, index);
      if isLastBullet {
        var b := List(EmphAll(bulletPoints + [BulletText(line)]));
        PushList(lines, start, index, bulletPoints, elements, b);
        elements' := elements + [b];
        bulletPoints' := [];
        start' := index + 1;
      } else {
        HoldBullet(lines, start, index, bulletPoints, elements, bulletPoints + [BulletText(line)]);
        bulletPoints' := bulletPoints + [BulletText(line)];
        elements' := elements;
        start' := start;
      }
    } else {
      // The paragraph branch is guarded by `line.trim()`, which always holds here.
      assert kind == ParagraphKind ==> !IsBlank(line);
      // A line that is no bullet ends no run, so the buffer is already empty here.
      assert lines[start..index] == [];
      assert bulletPoints == [];
      var b := BlockOf(line);
      PushLine(lines, start, index, bulletPoints, elements, b);
      elements' := elements + [b];
      bulletPoints' := bulletPoints;
      start' := index + 1;
    }
  }

  /** The `forEach` over the non-blank lines: the elements it pushes are exactly the
      reference blocks. */
  method DrawLines(lines: seq<string>) returns (elements: seq<Block>)
    requires forall k :: 0 <= k < |lines| ==> !IsBlank(lines[k])
    ensures elements == Blocks(lines)
  {
    var bulletPoints: seq<string> := [];
    elements := [];
    ghost var start: nat := 0;
    var index := 0;
    DrawnAtStart(lines);
    while index < |lines|
      invariant index <= |lines| && Drawn(lines, start, index, bulletPoints, elements)
      decreases |lines| - index
    {
      bulletPoints, elements, start := DrawLine(lines, index, bulletPoints, elements, start);
      index := index + 1;
    }
    DrawnAtEnd(lines, start, bulletPoints, elements);
  }

  /** Before the first line nothing is buffered and nothing pushed. */
  lemma DrawnAtStart(lines: seq<string>)
    ensures Drawn(lines, 0, 0, [], [])
  {
    assert lines[0..] == lines;
    assert lines[0..0] == [];
  }

  /** After the last line every run has been pushed: the buffer is empty and the elements
      are all the blocks. */
  lemma DrawnAtEnd(lines: seq<string>, start: nat, bulletPoints: seq<string>, elements: seq<Block>)
    requires Drawn(lines, start, |lines|, bulletPoints, elements)
    ensures bulletPoints == [] && elements == Blocks(lines)
  {
    assert lines[start..] == [];
    assert lines[start..|lines|] == [];
  }

  /** Renders a thumbnail: the same blocks as the main view, in the same order, cut to the
      first twelve. */
  method RenderThumbnailContent(content: string) returns (shown: seq<Block>)
    ensures shown == FirstTwelve(Blocks(ContentLines(content)))
  {
    var lines := ContentLines(content);
    var elements := DrawLines(lines);
    shown := FirstTwelve(elements);
  }

  /** The local reorder of `handleDrop`: the dragged slide spliced out of a copy of the list
      and spliced back in at the drop position. */
  function Move(slides: seq<Slide>, dragged: nat, dropIndex: nat): (r: seq<Slide>)
    requires dragged < |slides| && dropIndex < |slides|
    ensures |r| == |slides| && r[dropIndex] == slides[dragged]
  {
    InsertAt(RemoveAt(slides, dragged), dropIndex, slides[dragged])
  }

  /** `slides.map((slide, index) => ({ ...slide, order: index }))` */
  function Renumber(slides: seq<Slide>): (r: seq<Slide>)
    ensures |r| == |slides|
    ensures forall k :: 0 <= k < |r| ==>
      r[k].order == k && r[k].id == slides[k].id
      && r[k].title == slides[k].title && r[k].content == slides[k].content
  {
    seq(|slides|, k requires 0 <= k < |slides| => slides[k].(order := k))
  }

  /** The sidebar's own current index after a successful drop of `dragged` at `dropIndex`. */
  function AdjustCurrent(current: int, dragged: int, dropIndex: int): (r: int)
    ensures dragged == current ==> r == dropIndex
    ensures dragged != current ==> current - 1 <= r <= current + 1
  {
    if dragged == current then dropIndex
    else if dragged < current && dropIndex >= current then current - 1
    else if dragged > current && dropIndex <= current then current + 1
    else current
  }

  /** The reorder is a permutation of the same length. */
  lemma MovePermutes(slides: seq<Slide>, dragged: nat, dropIndex: nat)
    requires dragged < |slides| && dropIndex < |slides|
    ensures |Move(slides, dragged, dropIndex)| == |slides|
    ensures multiset(Move(slides, dragged, dropIndex)) == multiset(slides)
  {
    RemoveAtMultiset(slides, dragged);
    InsertAtMultiset(RemoveAt(slides, dragged), dropIndex, slides[dragged]);
  }

  /** The dragged slide lands at the drop position, and every other slide keeps its place
      relative to the others. */
  lemma MoveLands(slides: seq<Slide>, dragged: nat, dropIndex: nat)
    requires dragged < |slides| && dropIndex < |slides|
    ensures Move(slides, dragged, dropIndex)[dropIndex] == slides[dragged]
    ensures RemoveAt(Move(slides, dragged, dropIndex), dropIndex) == RemoveAt(slides, dragged)
  {
    RemoveInserted(RemoveAt(slides, dragged), dropIndex, slides[dragged]);
  }

  /** Where each slide goes: the dragged one to `dropIndex`, the ones between the two
      positions one step towards the old position, the rest nowhere. */
  lemma MoveIndex(slides: seq<Slide>, dragged: nat, dropIndex: nat, c: nat)
    requires dragged < |slides| && dropIndex < |slides| && c < |slides|
    ensures 0 <= AdjustCurrent(c, dragged, dropIndex) < |slides|
    ensures Move(slides, dragged, dropIndex)[AdjustCurrent(c, dragged, dropIndex)] == slides[c]
  {
  }

  /** Moving a slide back from where it was dropped restores the list. */
  lemma MoveBack(slides: seq<Slide>, dragged: nat, dropIndex: nat)
    requires dragged < |slides| && dropIndex < |slides|
    ensures Move(Move(slides, dragged, dropIndex), dropIndex, dragged) == slides
  {
    MoveLands(slides, dragged, dropIndex);
    InsertRemoved(slides, dragged);
  }

  /** The sidebar's component state: its slide list, its own current index and the drag
      state (`draggedSlide`, `dragOverIndex`; `null` is `None`). */
  class SidebarState {
    var slides: seq<Slide>
    var currentSlide: int
    var draggedSlide: Option<int>
    var dragOverIndex: Option<int>

    constructor ()
      ensures slides == [] && currentSlide == 0
      ensures draggedSlide.None? && dragOverIndex.None?
    {
      slides := [];
      currentSlide := 0;
      draggedSlide := None;
      dragOverIndex := None;
    }

    /** A successful `fetchSlides`: the list becomes what the server sent. */
    method OnFetched(data: seq<Slide>)
      modifies this
      ensures slides == data && currentSlide == old(currentSlide)
      ensures draggedSlide == old(draggedSlide) && dragOverIndex == old(dragOverIndex)
    {
      slides := data;
    }

    /** `handleDragStart`: remembers which slide is being dragged. */
    method HandleDragStart(index: int)
      modifies this
      ensures draggedSlide == Some(index)
      ensures slides == old(slides) && currentSlide == old(currentSlide)
      ensures dragOverIndex == old(dragOverIndex)
    {
      draggedSlide := Some(index);
    }

    /** `handleDrop` on the slide at `dropIndex`. Without a dragged slide, or dropped on
        itself, nothing changes but the drag state. Otherwise the list is reordered and
        renumbered at once; when the server accepts the new order (`reorderOk`, the outcome
        of the request) the current index follows the slide that was current. */
    method HandleDrop(dropIndex: int, reorderOk: bool)
      requires 0 <= dropIndex < |slides|
      requires draggedSlide.Some? ==> 0 <= draggedSlide.value < |slides|
      modifies this
      ensures draggedSlide.None? && dragOverIndex.None?
      ensures old(draggedSlide).None? || old(draggedSlide) == Some(dropIndex) ==>
        slides == old(slides) && currentSlide == old(currentSlide)
      ensures old(draggedSlide).Some? && old(draggedSlide) != Some(dropIndex) ==>
        && slides == Renumber(Move(old(slides), old(draggedSlide).value, dropIndex))
        && currentSlide == if reorderOk
             then AdjustCurrent(old(currentSlide), old(draggedSlide).value, dropIndex)
             else old(currentSlide)
    {
      if draggedSlide.None? || draggedSlide == Some(dropIndex) {
        draggedSlide := None;
        dragOverIndex := None;
        return;
      }
      var dragged := draggedSlide.value;
      var newSlides := slides;
      var draggedSlideData := newSlides[dragged];
      newSlides := RemoveAt(newSlides, dragged);
      newSlides := InsertAt(newSlides, dropIndex, draggedSlideData);
      var updatedSlides := Renumber(newSlides);
      slides := updatedSlides;
      if reorderOk {
        if dragged == currentSlide {
          currentSlide := dropIndex;
        } else if dragged < currentSlide && dropIndex >= currentSlide {
          currentSlide := currentSlide - 1;
        } else if dragged > currentSlide && dropIndex <= currentSlide {
          currentSlide := currentSlide + 1;
        }
      }
      draggedSlide := None;
      dragOverIndex := None;
    }
  }

  /** After a successful drop the sidebar's current index still shows the same slide. */
  lemma DropKeepsCurrent(slides: seq<Slide>, dragged: nat, dropIndex: nat, current: nat)
    requires dragged < |slides| && dropIndex < |slides| && current < |slides|
    ensures var after := Renumber(Move(slides, dragged, dropIndex));
      var c := AdjustCurrent(current, dragged, dropIndex);
      0 <= c < |after| && after[c].id == slides[current].id
      && after[c].title == slides[current].title && after[c].content == slides[current].content
  {
    MoveIndex(slides, dragged, dropIndex, current);
  }
}
