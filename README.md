# Slide editor: renderer, reorder and navigation model

A Dafny model of the sequential logic inside a Next.js slide editor. It covers three parts.

- **The slide-text renderer.** It turns a slide's `content` into blocks: titles, sections, subsections, bullet lists, numbered items and paragraphs. The main view (`renderContent`) and the sidebar thumbnails (`renderThumbnailContent`) implement it twice. Both go through the same steps:
  - split on `'\n'`;
  - drop blank lines;
  - classify each line by its prefix;
  - collect runs of bullet lines in a mutable buffer;
  - send list items, numbered text and paragraphs through two regular-expression passes, `**x**` to `<strong>x</strong>` and then `*x*` to `<em>x</em>`.
- **The sidebar's drag-and-drop reorder (`handleDrop`).** It splices the dragged slide out and back in, renumbers `order`, and moves the sidebar's current index so that it follows the slide that was current.
- **The page's navigation state (`Home` in `app/page.tsx`).** This is the list of slides and the index of the slide on screen, changed by:
  - the keyboard;
  - the next and previous buttons;
  - the `goToSlide` event;
  - a fetch;
  - the update, delete and create callbacks.

Modules:

- `Text` (`text.dfy`) covers:
  - JavaScript white space and line terminators;
  - `split('\n')` and the blank-line filter.
- `Emphasis` (`emphasis.dfy`): the two global lazy `replace` passes, as an index-based scan.
- `Markup` (`markup.dfy`): the line classifier, the `Block` datatype, and `Blocks`. `Blocks` is the reference definition of the block sequence, and both renderers are proved against it.
- `PresentationViewer` (`viewer.dfy`): `renderContent` as a loop over the lines. Its per-line callback returns a block or `null`.
- `Slides` (`slides.dfy`) covers:
  - the `Slide` record;
  - `splice` for taking one element out and for putting one in.
- `Sidebar` (`sidebar.dfy`): the thumbnail loop with its `findIndex` look-ahead and 12-block cap, and the `SidebarState` class with `handleDrop`.
- `Page` (`page.dfy`): the `Home` class and the index arithmetic of its handlers.

## Model

| member | source | states |
|---|---|---|
| Text.SplitLines | app/components/PresentationViewer.tsx:21 | `split('\n')` yields at least one piece, no piece holds a newline, and joining the pieces with newlines gives back the text |
| Text.SplitJoin | app/components/PresentationViewer.tsx:21 | splitting newline-joined lines gives back exactly those lines |
| Text.NonBlankLines | app/components/PresentationViewer.tsx:21 | the filter keeps no more lines than it is given and every kept line is non-blank |
| Text.TrimBlank | app/components/PresentationViewer.tsx:21 | `line.trim() === ''` holds exactly when every character of the line is white space, the test `IsBlank` makes |
| Text.NonBlankConcat | app/components/PresentationViewer.tsx:21 | the filter works line by line: filtering a concatenation is the concatenation of the filtered parts |
| Text.NonBlankMembers | app/components/PresentationViewer.tsx:21 | a line survives the filter if and only if it is a non-blank line of the input |
| Text.BlankLineDropped | app/components/PresentationViewer.tsx:21 | inserting a blank line anywhere in a slide body changes nothing the renderers see, so a blank line never separates two bullet runs |
| Emphasis.Replace | app/components/PresentationViewer.tsx:108-109 | a pass never shortens the text it scans, because every tag is longer than the delimiters it replaces |
| Emphasis.Emph | app/components/PresentationViewer.tsx:107-109 | both passes together never shorten the text |
| Emphasis.FindCloseIsFirst | app/components/PresentationViewer.tsx:108-109 | the lazy `(.*?)` stops at the first closing delimiter with no line terminator before it, and fails exactly when every later delimiter has a line terminator in front of it |
| Emphasis.NoAsteriskUnchanged | app/components/PresentationViewer.tsx:107-109 | text without `*` passes through both passes unchanged |
| Emphasis.ReplaceKeepsLines | app/components/PresentationViewer.tsx:107-109 | a pass adds no line terminator to a line that has none |
| Emphasis.ReplaceParity | app/components/PresentationViewer.tsx:108 | one pass keeps the parity of the number of asterisks |
| Emphasis.SingleParity | app/components/PresentationViewer.tsx:109 | on a single line, the `*x*` pass pairs up all asterisks left to right, so exactly (count mod 2) of them remain |
| Emphasis.AsteriskParity | app/components/PresentationViewer.tsx:107-109 | on a line without line terminators, both passes together leave exactly (number of `*` in the input) mod 2 asterisks |
| Emphasis.ReplaceIdentity | app/components/PresentationViewer.tsx:108-109 | a pass in which no delimiter finds a partner copies its input unchanged |
| Emphasis.PassOnSpan | app/components/PresentationViewer.tsx:108-109 | one delimited span in otherwise star-free text becomes exactly one tagged span |
| Emphasis.LoneAsterisk | app/components/PresentationViewer.tsx:109 | a lone `*` is left literal |
| Emphasis.StrongSpan | app/components/Sidebar.tsx:279 | `a**x**b` with star-free parts renders as `a<strong>x</strong>b` |
| Emphasis.EmSpan | app/components/Sidebar.tsx:280 | `a*x*b` with star-free parts renders as `a<em>x</em>b`; with empty `x` this is a stray `**`, which the strong pass leaves and the emphasis pass turns into `<em></em>` |
| Emphasis.EmptyEmphasis | app/components/Sidebar.tsx:279-280 | a stray `**` with no partner becomes an empty `<em></em>` |
| Markup.DigitRun | app/components/PresentationViewer.tsx:93 | the label is the longest run of leading ASCII digits |
| Markup.LineText | app/components/PresentationViewer.tsx:88 | the `(.*)` capture is the longest prefix without a line terminator |
| Markup.IsNumberedLine | app/components/PresentationViewer.tsx:87 | `^\d+\.\s` matches exactly when the line is one or more ASCII digits, a `.` and a white-space character, for some number of digits |
| Markup.KindOf | app/components/PresentationViewer.tsx:26-87 | a line is a bullet if and only if it starts with `- ` or `• `. It is numbered if and only if it is not a bullet and matches `^\d+\.\s`. A paragraph starts with none of the five prefixes |
| Markup.BlockOf | app/components/PresentationViewer.tsx:26-118 | header blocks are exactly the lines with `# `, `## ` and `### ` removed, with raw text. Numbered blocks carry the digit label and the emphasised `(.*)` capture of the text after the digits, `.` and white space. Paragraphs are exactly the lines of paragraph kind, and their HTML is the emphasised line. Bullet lines (lines 59-82) are grouped by `Blocks`, not here |
| Markup.Blocks | app/components/PresentationViewer.tsx:24-119 | there are never more blocks than lines, and no blocks exactly when there are no lines |
| Markup.RunLength | app/components/PresentationViewer.tsx:63-66 | the run of bullets at the head of the lines is maximal |
| Markup.BlockCount | app/components/PresentationViewer.tsx:24-119 | there are as many blocks as non-bullet lines plus maximal bullet runs |
| Markup.ListItemsAreBullets | app/components/PresentationViewer.tsx:59-82 | the list items of all blocks are the emphasised texts of all bullet lines, in input order |
| Markup.NonListsAreLines | app/components/PresentationViewer.tsx:26-109 | the non-list blocks are the blocks of the non-bullet lines, one each, in input order |
| Markup.BlocksWellGrouped | app/components/PresentationViewer.tsx:59-82 | no list block is empty and no two list blocks are adjacent |
| Markup.BlocksConcat | app/components/PresentationViewer.tsx:24-119 | splitting the lines anywhere except inside a bullet run splits the blocks there: the blocks of `a + b` are the blocks of `a` followed by those of `b` |
| Markup.OneRun | app/components/PresentationViewer.tsx:59-82 | lines that are all bullets give exactly one list block holding the emphasised texts of all of them |
| Markup.MaximalRun | app/components/PresentationViewer.tsx:59-82 | each maximal run of bullets, wherever it stands, yields exactly one list block whose items are the emphasised texts of that run's lines, between the blocks of the lines before and after it |
| Markup.IndentedIsParagraph | app/components/PresentationViewer.tsx:26-59 | a line starting with white space, such as `"  - a"`, is a paragraph |
| Markup.HashWithoutSpace | app/components/PresentationViewer.tsx:26-56 | a line starting with `#` but not with `# `, `## ` or `### `, such as `"#Heading"` or `"##x"`, gives a paragraph |
| Markup.NumberedBlock | app/components/PresentationViewer.tsx:87-103 | digits, `.`, one white-space character and text give a numbered block labelled with the digits as written (leading zeros kept) and holding the emphasised text |
| PresentationViewer.RenderLine | app/components/PresentationViewer.tsx:58-118 | the `map` callback keeps the loop invariant: the buffer holds exactly the bullets of the unfinished run, and it is empty after any non-bullet line |
| PresentationViewer.RenderLines | app/components/PresentationViewer.tsx:22-119 | there is one result per line. A result is `null` exactly for a bullet followed by a bullet. The non-null results are exactly the reference blocks |
| PresentationViewer.RenderContent | app/components/PresentationViewer.tsx:20-120 | the rendered blocks of a slide body are `Blocks` of its non-blank lines |
| Slides.RemoveAt | app/components/Sidebar.tsx:142 | `splice(i, 1)` removes element `i` and shifts the later ones down by one |
| Slides.InsertAt | app/components/Sidebar.tsx:143 | `splice(i, 0, x)` puts `x` at `i` and shifts the later ones up by one |
| Slides.RemoveInserted | app/components/Sidebar.tsx:142-143 | taking out the element just put in at `i` gives back the list |
| Slides.InsertRemoved | app/components/Sidebar.tsx:142-143 | removing an element and inserting it back at the same place restores the list |
| Slides.RemoveAtMultiset | app/components/Sidebar.tsx:142 | removal takes exactly that one element out of the multiset |
| Slides.InsertAtMultiset | app/components/Sidebar.tsx:143 | insertion adds exactly that one element to the multiset |
| Sidebar.FindNextNonBlank | app/components/Sidebar.tsx:237 | `findIndex` returns -1 or a position after `index` |
| Sidebar.FindNextNonBlankIsFirst | app/components/Sidebar.tsx:237 | the position found is the first non-blank line after `index`, and -1 means there is none |
| Sidebar.NextNonBlankIsNext | app/components/Sidebar.tsx:237 | over the already-filtered lines, `findIndex` gives `index + 1`, or -1 after the last line |
| Sidebar.LookAheadsAgree | app/components/Sidebar.tsx:237-239 | the thumbnail's `findIndex` look-ahead and the main view's `index + 1` look-ahead agree on which bullet ends a run |
| Sidebar.FirstTwelve | app/components/Sidebar.tsx:292 | the thumbnail keeps exactly the first min(12, n) blocks |
| Sidebar.DrawLine | app/components/Sidebar.tsx:200-290 | the `forEach` callback keeps the loop invariant: the pushed elements followed by the reference blocks of the unfinished lines are all the blocks |
| Sidebar.DrawLines | app/components/Sidebar.tsx:197-290 | the elements pushed are exactly the reference blocks, the same sequence the main view renders |
| Sidebar.RenderThumbnailContent | app/components/Sidebar.tsx:195-293 | a thumbnail is the first twelve of the main view's blocks for the same content |
| Sidebar.Renumber | app/components/Sidebar.tsx:146-149 | every slide's `order` becomes its position, and id, title and content are unchanged |
| Sidebar.Move | app/components/Sidebar.tsx:140-143 | the reorder keeps the length and puts the dragged slide at `dropIndex` |
| Sidebar.AdjustCurrent | app/components/Sidebar.tsx:170-181 | the dragged slide's index becomes `dropIndex` when it was current; otherwise the index moves by at most one |
| Sidebar.MovePermutes | app/components/Sidebar.tsx:140-143 | the local reorder keeps the length and is a permutation |
| Sidebar.MoveLands | app/components/Sidebar.tsx:140-143 | the dragged slide lands at `dropIndex`, and the other slides keep their relative order |
| Sidebar.MoveIndex | app/components/Sidebar.tsx:170-181 | for every slide `c`, the adjusted index is in range and holds the slide that was at `c`. This covers all five cases of dragged and drop position against `c` |
| Sidebar.MoveBack | app/components/Sidebar.tsx:140-143 | dragging the slide back from `dropIndex` to where it was restores the list |
| Sidebar.DropKeepsCurrent | app/components/Sidebar.tsx:140-181 | after the reorder and the renumbering, the adjusted current index shows the slide (id, title, content) that was current |
| Sidebar.SidebarState.constructor | app/components/Sidebar.tsx:21-25 | the sidebar starts with no slides, index 0 and no drag in progress |
| Sidebar.SidebarState.OnFetched | app/components/Sidebar.tsx:37-38 | a fetch replaces the list and leaves the rest of the state alone |
| Sidebar.SidebarState.HandleDragStart | app/components/Sidebar.tsx:114-117 | remembers the dragged index and changes nothing else |
| Sidebar.SidebarState.HandleDrop | app/components/Sidebar.tsx:129-192 | with no dragged slide, or one dropped on itself, the list and index are unchanged. Otherwise the list becomes the renumbered reorder, and the index follows the current slide when the server accepts the reorder. Either way the drag state is cleared |
| Page.KeyStepAsWritten | app/page.tsx:74-95 | Home gives 0 and End gives `length - 1`, the arrows and space move by at most one, and any other key leaves the index |
| Page.KeyStep | app/page.tsx:74-95 | the corrected step behaves as written except End on an empty list, which leaves the index exactly as it was, and it keeps every valid index valid |
| Page.KeyStepInRange | app/page.tsx:74-95 | as written, every key keeps a valid index valid, except End on an empty list |
| Page.EndWithoutSlides | app/page.tsx:92-95 | as written, End with no slides sets the index to -1, and a later fetch with slides keeps it at -1, an invalid index |
| Page.NextIndex | app/page.tsx:104 | `nextSlide` moves one step on, or to the last slide, and never past the last slide |
| Page.PrevIndex | app/page.tsx:105 | `prevSlide` moves one step back, or to the first slide, and never before the first slide |
| Page.ButtonsMatchKeys | app/page.tsx:74-87 | on a valid index, `nextSlide` and `prevSlide` move exactly as ArrowRight (and space) and ArrowLeft do |
| Page.NextPrevBounds | app/page.tsx:104-105 | next and previous stay in range and do nothing exactly at the last and first slide. Each undoes the other inside the list |
| Page.GoToIndex | app/page.tsx:55-60 | the `goToSlide` listener takes the index exactly when it is in range, otherwise keeps the old one. It keeps a valid index valid |
| Page.FetchIndex | app/page.tsx:33-38 | an empty list resets the index to 0, an index past the end goes to the last slide, and any other index is kept |
| Page.FetchInRange | app/page.tsx:33-38 | after a fetch a non-negative index is clamped into the new list, and an index already valid is kept |
| Page.IndexOfId | app/page.tsx:116 | `findIndex` returns -1 or a position holding the id |
| Page.IndexOfIdIsFirst | app/page.tsx:116 | the result is -1 exactly when no slide has the id, and no earlier slide has it |
| Page.RemoveById | app/page.tsx:117 | the filter never grows the list and leaves no slide with the id |
| Page.RemoveAbsent | app/page.tsx:117 | deleting an id no slide has removes nothing |
| Page.RemoveUnique | app/page.tsx:117 | with unique ids, the filter is exactly `splice` at the slide's position |
| Page.ReplaceById | app/page.tsx:110 | an update keeps the length and every id, replaces the slides with the updated id, and leaves the others unchanged |
| Page.ReplaceKeepsIds | app/page.tsx:110 | an update keeps ids unique and is idempotent |
| Page.DeleteIndexAsWritten | app/page.tsx:119-127 | as written, deleting a listed slide from two or more leaves an index into the shorter list, and an absent id (`findIndex` -1) decrements the index |
| Page.DeleteIndex | app/page.tsx:115-127 | the corrected arithmetic leaves the index when no slide was found, and otherwise agrees with the code as written |
| Page.DeleteAbsentAsWritten | app/page.tsx:115-127 | as written, deleting an absent id from two or more slides removes nothing but still decrements the index. From index 0 that makes the index invalid |
| Page.DeleteKeepsView | app/page.tsx:115-127 | the corrected delete keeps ids unique, the index valid and the length right. The same slide stays current unless it was deleted. If it was, the next slide takes its place, or the previous one when it was the last |
| Page.Home.constructor | app/page.tsx:18-19 | the page starts with no slides at index 0, a valid state |
| Page.Home.OnFetched | app/page.tsx:30-38 | a fetch replaces the list and clamps the index. The state is valid afterwards when the ids are unique and the index was non-negative |
| Page.Home.HandleKeyPress | app/page.tsx:68-97 | the index moves as the corrected `KeyStep` says, so End on an empty list leaves it, and validity is always kept |
| Page.Home.CurrentSlide | app/page.tsx:168-181 | once the empty-list screen is past, `slides[currentSlideIndex]` on a valid page is one of the slides |
| Page.Home.NextSlide | app/page.tsx:104 | `Math.min(i + 1, length - 1)`; validity is kept on a non-empty list |
| Page.Home.PrevSlide | app/page.tsx:105 | `Math.max(i - 1, 0)`; validity is always kept |
| Page.Home.GoToSlide | app/page.tsx:106 | sets the index unchecked |
| Page.Home.OnGoToSlide | app/page.tsx:55-60 | the bounds-checked listener keeps validity |
| Page.Home.UpdateSlide | app/page.tsx:109-112 | the list becomes the updated list, the index is unchanged, and validity is kept |
| Page.Home.DeleteSlide | app/page.tsx:115-130 | the list loses the slides with the id, the index follows the corrected arithmetic, and validity is kept |
| Page.Home.CreateSlide | app/page.tsx:133-137 | the new slide is appended and becomes current. Validity is kept when its id is fresh |

## Left out

- JSX, styling and `dangerouslySetInnerHTML`: blocks are values, not markup, and HTML escaping is not modelled.
- Emphasis: the main view writes its spans with `class` attributes; the model writes bare `<strong>`/`<em>` tags, exactly as the thumbnails do.
- Strings are sequences of Unicode scalar values, whereas JavaScript strings are UTF-16 code units. `slice(2)` and the regular expressions differ only on text outside the Basic Multilingual Plane.
- Emphasis.AsteriskParity: the parity result assumes a line without `\r`, U+2028 or U+2029, because `.` does not match those and the count can then differ.
- Sidebar.SidebarState.HandleDrop: assumes the dragged and drop indices are positions in the list, as they come from the rendered thumbnails.
- Sidebar.SidebarState.HandleDrop: the reorder `PUT` and the refetches are network I/O. The outcome of the `PUT` is the parameter `reorderOk`, and the refetch that replaces the local order afterwards is `OnFetched`.
- Sidebar: the `goToSlide` events sent to the page are left out, as are `handleDragOver`, `handleDragLeave`, `handleSlideClick`, `handleAddSlide` and the `slideChange`/`slideUpdated` listeners. They are event plumbing or network I/O outside `handleDrop`.
- Page.Home: React's batched and asynchronous state updates are modelled as sequential assignments. The `useEffect` that refetches whenever the index changes, the keyboard guard for input fields, the window events, and the loading and error screens are left out.
- Page.Home.HandleKeyPress: uses the corrected step `KeyStep`, in which End on an empty list leaves the index. The code as written is `KeyStepAsWritten`; see Findings.
- Page.Home.DeleteSlide: uses the corrected index arithmetic `DeleteIndex`. The code as written is `DeleteIndexAsWritten`; see Findings.
- Page.Home.OnFetched: validity afterwards is only promised for unique ids and a non-negative index. As written, a fetch does not repair a negative index (see Page.EndWithoutSlides).
- The server (`backend/routes/slides.js`, `models/index.js`, `server.js`), `seed.js`, `app/data/slides.ts`, `app/types/index.ts`, `app/layout.tsx` and `NavigationControls.tsx` are not part of this model. They are ORM handlers, static data, type declarations and presentational components.
- The progress bars are left out, because they are floating-point percentages.

## Findings

| source | as written | input that shows it | evidently intended | confidence | as-written member | corrected member |
|---|---|---|---|---|---|---|
| app/page.tsx:115-127 | `findIndex` gives -1 for an id that is not in the list, and `-1 < currentSlideIndex` then decrements the index although nothing was removed | two slides, index 0, delete an id neither has: the index becomes -1 and `slides[-1]` is undefined. At index 1 the view jumps to the other slide | the index changes only when a slide was actually removed | not executed | Page.DeleteAbsentAsWritten | Page.DeleteKeepsView |
| app/page.tsx:92-95 | End sets the index to `slides.length - 1` with no check for an empty list, and the fetch at lines 33-38 only clamps an index past the end | no slides, press End: the index becomes -1. A later fetch that returns slides keeps -1, and line 181 reads `slides[-1]`, which is undefined | End on an empty list leaves the index | not executed | Page.EndWithoutSlides | Page.KeyStep |
