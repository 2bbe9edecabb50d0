/** The presentation page (`Home`): the list of slides fetched from the server, the index
    of the slide on screen, and the handlers that move that index — keyboard navigation,
    the next/previous buttons, the `goToSlide` event, and the edit, delete and create
    callbacks of the viewer. */
module Page {
  import opened Slides

  /** What a well-formed page state promises the renderer: `slides[currentSlideIndex]`
      exists whenever there are slides, and the index is 0 otherwise. */
  predicate IndexValid(c: int, n: nat) {
    (n == 0 ==> c == 0) && (n > 0 ==> 0 <= c < n)
  }

  /** The keydown handler's `switch (event.key)` on `n` slides, as written. */
  function KeyStepAsWritten(key: string, c: int, n: nat): (r: int)
    ensures key == "Home" ==> r == 0
    ensures key == "End" ==> r == n - 1
    ensures key != "Home" && key != "End" ==> c - 1 <= r <= c + 1
    ensures key !in ["ArrowRight", " ", "ArrowLeft", "Home", "End"] ==> r == c
  {
    if key == "ArrowRight" || key == " " then (if c < n - 1 then c + 1 else c)
    else if key == "ArrowLeft" then (if c > 0 then c - 1 else c)
    else if key == "Home" then 0
    else if key == "End" then n - 1
    else c
  }

  /** The keydown handler with "End" on an empty list handled: there is no last slide to
      go to, so the index stays. Every other key behaves as written, and now every key
      keeps a valid index valid. */
  function KeyStep(key: string, c: int, n: nat): (r: int)
    ensures !(key == "End" && n == 0) ==> r == KeyStepAsWritten(key, c, n)
    ensures key == "End" && n == 0 ==> r == c
    ensures IndexValid(c, n) ==> IndexValid(r, n)
  {
    if key == "End" && n == 0 then c else KeyStepAsWritten(key, c, n)
  }

  function Min(a: int, b: int): int { if a <= b then a else b }
  function Max(a: int, b: int): int { if a >= b then a else b }

  /** `nextSlide`: `Math.min(i + 1, slides.length - 1)`, one step on and never past the
      last slide. */
  function NextIndex(c: int, n: nat): (r: int)
    ensures r <= c + 1 && r <= n - 1
    ensures r == c + 1 || r == n - 1
  {
    Min(c + 1, n - 1)
  }

  /** `prevSlide`: `Math.max(i - 1, 0)`, one step back and never before the first slide. */
  function PrevIndex(c: int): (r: int)
    ensures r >= c - 1 && r >= 0
    ensures r == c - 1 || r == 0
  {
    Max(c - 1, 0)
  }

  /** The `goToSlide` listener: an index outside the list is ignored. */
  function GoToIndex(c: int, index: int, n: nat): (r: int)
    ensures r == index || r == c
    ensures 0 <= index < n ==> r == index
    ensures !(0 <= index < n) ==> r == c
    ensures IndexValid(c, n) ==> IndexValid(r, n)
  {
    if 0 <= index < n then index else c
  }

  /** The index adjustment after a successful fetch of `n` slides: an index past the end is
      pulled back to the last slide, and an empty list resets it to 0. */
  function FetchIndex(c: int, n: nat): (r: int)
    ensures n == 0 ==> r == 0
    ensures n > 0 ==> r == (if c >= n then n - 1 else c)
  {
    if n > 0 && c >= n then n - 1
    else if n == 0 then 0
    else c
  }

  /** As written, every key keeps a valid index valid as long as there is a slide; "Home"
      also on an empty list. */
  lemma KeyStepInRange(key: string, c: int, n: nat)
    requires IndexValid(c, n) && (n > 0 || key != "End")
    ensures IndexValid(KeyStepAsWritten(key, c, n), n)
  {
  }

  /** As written, "End" with no slides sets the index to -1, and a later fetch puts it back
      to 0 only if it again finds no slides; otherwise the index stays -1 and the page reads
      `slides[-1]`. */
  lemma EndWithoutSlides(c: int, later: nat)
    ensures KeyStepAsWritten("End", c, 0) == -1
    ensures FetchIndex(KeyStepAsWritten("End", c, 0), later) == if later == 0 then 0 else -1
    ensures later > 0 ==> !IndexValid(FetchIndex(KeyStepAsWritten("End", c, 0), later), later)
  {
  }

  /** The buttons and the arrow keys agree: on a valid index, `nextSlide` is "ArrowRight"
      (and the space bar), `prevSlide` is "ArrowLeft". */
  lemma ButtonsMatchKeys(c: int, n: nat)
    requires n > 0 && IndexValid(c, n)
    ensures NextIndex(c, n) == KeyStep("ArrowRight", c, n) == KeyStep(" ", c, n)
    ensures PrevIndex(c) == KeyStep("ArrowLeft", c, n)
  {
  }

  /** Next and previous stop at the ends of the list: repeating them at the last or first
      slide changes nothing, and they step back from each other inside the list. */
  lemma NextPrevBounds(c: int, n: nat)
    requires n > 0 && IndexValid(c, n)
    ensures IndexValid(NextIndex(c, n), n) && IndexValid(PrevIndex(c), n)
    ensures c == n - 1 <==> NextIndex(c, n) == c
    ensures c == 0 <==> PrevIndex(c) == c
    ensures c < n - 1 ==> PrevIndex(NextIndex(c, n)) == c
    ensures c > 0 ==> NextIndex(PrevIndex(c), n) == c
  {
  }

  /** A fetch clamps any non-negative index into the new list. */
  lemma FetchInRange(c: int, n: nat)
    requires c >= 0
    ensures IndexValid(FetchIndex(c, n), n)
    ensures IndexValid(c, n) ==> FetchIndex(c, n) == c
  {
  }

  /** `slides.findIndex(slide => slide.id === id)`: the first position holding `id`, or -1. */
  function IndexOfId(s: seq<Slide>, id: int): (r: int)
    ensures r == -1 || (0 <= r < |s| && s[r].id == id)
  {
    if s == [] then -1
    else if s[0].id == id then 0
    else
      var r := IndexOfId(s[1..], id);
      if r == -1 then -1 else r + 1
  }

  lemma {:induction false} IndexOfIdIsFirst(s: seq<Slide>, id: int)
    ensures IndexOfId(s, id) == -1 <==> forall k :: 0 <= k < |s| ==> s[k].id != id
    ensures forall k :: 0 <= k < IndexOfId(s, id) ==> s[k].id != id
  {
    if s != [] && s[0].id != id {
      IndexOfIdIsFirst(s[1..], id);
      assert forall k :: 1 <= k < |s| ==> s[k] == s[1..][k - 1];
    }
  }

  /** `slides.filter(slide => slide.id !== id)` */
  function RemoveById(s: seq<Slide>, id: int): (r: seq<Slide>)
    ensures |r| <= |s|
    ensures forall k :: 0 <= k < |r| ==> r[k].id != id
  {
    if s == [] then []
    else if s[0].id == id then RemoveById(s[1..], id)
    else [s[0]] + RemoveById(s[1..], id)
  }

  /** Removing an id no slide has leaves the list as it is. */
  lemma {:induction false} RemoveAbsent(s: seq<Slide>, id: int)
    requires forall k :: 0 <= k < |s| ==> s[k].id != id
    ensures RemoveById(s, id) == s
  {
    if s != [] {
      RemoveAbsent(s[1..], id);
      assert s == [s[0]] + s[1..];
    }
  }

  /** With unique ids the filter takes out exactly the one slide holding the id. */
  lemma {:induction false} RemoveUnique(s: seq<Slide>, i: nat, id: int)
    requires UniqueIds(s) && i < |s| && s[i].id == id
    ensures RemoveById(s, id) == RemoveAt(s, i)
  {
    if i == 0 {
      RemoveAbsent(s[1..], id);
    } else {
      RemoveUnique(s[1..], i - 1, id);
      assert RemoveAt(s, i) == [s[0]] + RemoveAt(s[1..], i - 1);
    }
  }

  /** `slides.map(slide => slide.id === updated.id ? updated : slide)` */
  function ReplaceById(s: seq<Slide>, updated: Slide): (r: seq<Slide>)
    ensures |r| == |s|
    ensures forall k :: 0 <= k < |r| ==> r[k].id == s[k].id
    ensures forall k :: 0 <= k < |r| && s[k].id != updated.id ==> r[k] == s[k]
    ensures forall k :: 0 <= k < |r| && s[k].id == updated.id ==> r[k] == updated
  {
    seq(|s|, k requires 0 <= k < |s| => if s[k].id == updated.id then updated else s[k])
  }

  /** An update never changes which ids are present or where, so ids stay unique and
      applying the same update twice is the same as once. */
  lemma ReplaceKeepsIds(s: seq<Slide>, updated: Slide)
    ensures UniqueIds(s) ==> UniqueIds(ReplaceById(s, updated))
    ensures ReplaceById(ReplaceById(s, updated), updated) == ReplaceById(s, updated)
  {
  }

  /** `handleSlideDelete`'s index arithmetic, as written: `deleted` is the `findIndex` of
      the id in the `n` slides before the delete, and -1 when no slide has it. */
  function DeleteIndexAsWritten(c: int, n: nat, deleted: int): (r: int)
    ensures 2 <= n && 0 <= c < n && 0 <= deleted < n ==> 0 <= r <= n - 2
    ensures 2 <= n && deleted == -1 && 0 <= c ==> r == c - 1
  {
    if n <= 1 then 0
    else if deleted == c then (if c >= n - 1 then n - 2 else c)
    else if deleted < c then c - 1
    else c
  }

  /** As written, deleting an id no slide has removes nothing but still moves the index
      back by one: off the list from the first slide, onto another slide otherwise. */
  lemma DeleteAbsentAsWritten(s: seq<Slide>, c: int, id: int)
    requires |s| >= 2 && 0 <= c < |s|
    requires forall k :: 0 <= k < |s| ==> s[k].id != id
    ensures RemoveById(s, id) == s
    ensures DeleteIndexAsWritten(c, |s|, IndexOfId(s, id)) == c - 1
    ensures c == 0 ==> !IndexValid(DeleteIndexAsWritten(c, |s|, IndexOfId(s, id)), |s|)
  {
    RemoveAbsent(s, id);
    IndexOfIdIsFirst(s, id);
  }

  /** The delete's index arithmetic with the missing case handled: when no slide was
      removed the index stays. */
  function DeleteIndex(c: int, n: nat, deleted: int): (r: int)
    ensures deleted < 0 ==> r == c
    ensures 0 <= deleted ==> r == DeleteIndexAsWritten(c, n, deleted)
    ensures 2 <= n && 0 <= c < n && 0 <= deleted < n ==> 0 <= r <= n - 2
  {
    if deleted < 0 then c else DeleteIndexAsWritten(c, n, deleted)
  }

  /** Deleting by id from a valid page leaves a valid page; the slide on screen stays on
      screen unless it was the one deleted, in which case the next slide takes its place,
      or the previous one when it was the last. */
  lemma DeleteKeepsView(s: seq<Slide>, c: int, id: int)
    requires UniqueIds(s) && IndexValid(c, |s|)
    ensures var after := RemoveById(s, id);
      var c' := DeleteIndex(c, |s|, IndexOfId(s, id));
      && UniqueIds(after) && IndexValid(c', |after|)
      && |after| == (if IndexOfId(s, id) == -1 then |s| else |s| - 1)
      && (IndexOfId(s, id) != c && |s| > 0 ==> after[c'] == s[c])
      && (IndexOfId(s, id) == c && c < |s| - 1 ==> after[c'] == s[c + 1])
      && (IndexOfId(s, id) == c && c == |s| - 1 && c > 0 ==> after[c'] == s[c - 1])
  {
    var d := IndexOfId(s, id);
    IndexOfIdIsFirst(s, id);
    if d == -1 {
      RemoveAbsent(s, id);
    } else {
      RemoveUnique(s, d, id);
      DeleteAtKeepsView(s, c, d);
    }
  }

  /** The same for the slide at position `d` taken out. */
  lemma DeleteAtKeepsView(s: seq<Slide>, c: int, d: nat)
    requires UniqueIds(s) && IndexValid(c, |s|) && d < |s|
    ensures var after := RemoveAt(s, d);
      var c' := DeleteIndexAsWritten(c, |s|, d);
      && UniqueIds(after) && IndexValid(c', |after|)
      && (d != c ==> after[c'] == s[c])
      && (d == c && c < |s| - 1 ==> after[c'] == s[c + 1])
      && (d == c && c == |s| - 1 && c > 0 ==> after[c'] == s[c - 1])
  {
  }

  /** The page component's state. */
  class Home {
    var slides: seq<Slide>
    var currentSlideIndex: int

    ghost predicate Valid()
      reads this
    {
      UniqueIds(slides) && IndexValid(currentSlideIndex, |slides|)
    }

    /** `slides[currentSlideIndex]`, read once the empty-list screen is past: on a valid
        page it is one of the slides. */
    function CurrentSlide(): (s: Slide)
      reads this
      requires Valid() && |slides| > 0
      ensures s in slides
    {
      slides[currentSlideIndex]
    }

    constructor ()
      ensures slides == [] && currentSlideIndex == 0
      ensures Valid()
    {
      slides := [];
      currentSlideIndex := 0;
    }

    /** A successful `fetchSlides`: the list is replaced by what the server sent and the
        index pulled back inside it. */
    method OnFetched(data: seq<Slide>)
      modifies this
      ensures slides == data
      ensures currentSlideIndex == FetchIndex(old(currentSlideIndex), |data|)
      ensures UniqueIds(data) && old(currentSlideIndex) >= 0 ==> Valid()
    {
      slides := data;
      if |data| > 0 && currentSlideIndex >= |data| {
        currentSlideIndex := |data| - 1;
      } else if |data| == 0 {
        currentSlideIndex := 0;
      }
      if old(currentSlideIndex) >= 0 {
        FetchInRange(old(currentSlideIndex), |data|);
      }
    }

    /** The keydown handler (keys typed into an input field never reach it). */
    method HandleKeyPress(key: string)
      modifies this
      ensures slides == old(slides)
      ensures currentSlideIndex == KeyStep(key, old(currentSlideIndex), |slides|)
      ensures old(Valid()) ==> Valid()
    {
      if key == "ArrowRight" || key == " " {
        if currentSlideIndex < |slides| - 1 {
          currentSlideIndex := currentSlideIndex + 1;
        }
      } else if key == "ArrowLeft" {
        if currentSlideIndex > 0 {
          currentSlideIndex := currentSlideIndex - 1;
        }
      } else if key == "Home" {
        currentSlideIndex := 0;
      } else if key == "End" && |slides| > 0 {
        currentSlideIndex := |slides| - 1;
      }
    }

    method NextSlide()
      modifies this
      ensures slides == old(slides)
      ensures currentSlideIndex == NextIndex(old(currentSlideIndex), |slides|)
      ensures old(Valid()) && |slides| > 0 ==> Valid()
    {
      currentSlideIndex := Min(currentSlideIndex + 1, |slides| - 1);
    }

    method PrevSlide()
      modifies this
      ensures slides == old(slides)
      ensures currentSlideIndex == PrevIndex(old(currentSlideIndex))
      ensures old(Valid()) ==> Valid()
    {
      currentSlideIndex := Max(currentSlideIndex - 1, 0);
    }

    /** `goToSlide`: sets the index without a check. */
    method GoToSlide(index: int)
      modifies this
      ensures slides == old(slides) && currentSlideIndex == index
    {
      currentSlideIndex := index;
    }

    /** The `goToSlide` window-event listener, which checks the index first. */
    method OnGoToSlide(slideIndex: int)
      modifies this
      ensures slides == old(slides)
      ensures currentSlideIndex == GoToIndex(old(currentSlideIndex), slideIndex, |slides|)
      ensures old(Valid()) ==> Valid()
    {
      if slideIndex >= 0 && slideIndex < |slides| {
        currentSlideIndex := slideIndex;
      }
    }

    /** `handleSlideUpdate`: every slide with the updated slide's id is replaced by it. */
    method UpdateSlide(updated: Slide)
      modifies this
      ensures slides == ReplaceById(old(slides), updated)
      ensures currentSlideIndex == old(currentSlideIndex)
      ensures old(Valid()) ==> Valid()
    {
      slides := ReplaceById(slides, updated);
      ReplaceKeepsIds(old(slides), updated);
    }

    /** `handleSlideDelete`, with the index left alone when the id is not in the list. */
    method DeleteSlide(id: int)
      modifies this
      ensures slides == RemoveById(old(slides), id)
      ensures currentSlideIndex
        == DeleteIndex(old(currentSlideIndex), |old(slides)|, IndexOfId(old(slides), id))
      ensures old(Valid()) ==> Valid()
    {
      var deletedIndex := IndexOfId(slides, id);
      var n := |slides|;
      slides := RemoveById(slides, id);
      if deletedIndex < 0 {
      } else if n <= 1 {
        currentSlideIndex := 0;
      } else if deletedIndex == currentSlideIndex {
        if currentSlideIndex >= n - 1 {
          currentSlideIndex := n - 2;
        }
      } else if deletedIndex < currentSlideIndex {
        currentSlideIndex := currentSlideIndex - 1;
      }
      if old(Valid()) {
        DeleteKeepsView(old(slides), old(currentSlideIndex), id);
      }
    }

    /** `handleSlideCreate`: the new slide is appended and shown. */
    method CreateSlide(newSlide: Slide)
      modifies this
      ensures slides == old(slides) + [newSlide]
      ensures currentSlideIndex == |old(slides)| && slides[currentSlideIndex] == newSlide
      ensures old(Valid()) && (forall k :: 0 <= k < |old(slides)| ==> old(slides)[k].id != newSlide.id)
        ==> Valid()
    {
      var n := |slides|;
      slides := slides + [newSlide];
      currentSlideIndex := n;
    }
  }
}
