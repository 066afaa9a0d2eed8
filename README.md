# purescript-book-ja: the chapter transformation layer, in Dafny

The Japanese PureScript book is written as one Markdown file per chapter.
`script/render.mjs` turns each chapter into HTML. Before rendering, it edits
the parsed commonmark document:

- **numberHeadings** puts `第{c}章 ` in front of each level-1 heading.
  It puts `{c}.{n} ` in front of each level-2 heading that counts as a
  section. It returns the chapter title and the section titles.
- **insertNextChapterLink** appends a raw-HTML link to `chapter{NN}.html`
  when there is a next chapter.
- **insertLinkToHome** puts a link back to the table of contents at both
  ends.

After rendering, it edits the cheerio view:

- **transformExercise** turns each `演習` (exercise) heading, together with
  the elements that follow it up to the next heading, into a
  `div.exercise` block.
- **insertPageBreak** appends a page-break block.
- **concatHtmls** joins several chapters into one document.
- **renderMarkdown** gives its options their defaults and applies the steps
  in a fixed order.

This project models those edits. The commonmark document is a `Document`
class holding the top-level nodes. The cheerio view is a `View` class
holding the elements under `<body>`. Every edit is a method that changes
those fields in place, and each method is proved against a specification
function. Lemmas then prove what the book relies on about that function:

- section numbers count up from 1 and restart at every chapter heading;
- the summary and exercise headings stay unnumbered;
- only headings change;
- the error path: when it is taken, the rest of the document is untouched;
- the page name round-trips to the chapter number;
- where the navigation blocks land;
- exercise blocks take exactly the run up to the next heading and lose no
  element;
- concatenation keeps input order.

Files:

- `wrappers.dfy`: `Option` and `Result`.
- `strings.dfy`: the JavaScript string built-ins the code uses:
  - `trim` over ECMAScript whitespace;
  - `indexOf`;
  - `Number.prototype.toString` on a non-negative integer;
  - `padStart`.
- `seqs.dfy`: generic sequence facts.
- `markdown.dfy`: commonmark nodes and the `Document` class.
- `numbering.dfy`: `numberHeadings`.
- `navigation.dfy`: `insertNextChapterLink` and `insertLinkToHome`.
- `html.dfy`: the cheerio view and its three edits: `transformExercise`,
  `insertPageBreak` and `concatHtmls`.
- `render.dfy`: `renderMarkdown`.

Where JavaScript would throw a `TypeError`, the model returns an error.
`numberHeadings` does this when a level-1 or level-2 heading has no first child, and when a
level-2 heading's first child has no `literal`. The model keeps the
partial edit already made to the document before the throw, as the code
does.

`concatHtmls([])` does not throw. It returns `undefined`, because
`htmls.shift()` of an empty array is `undefined` (script/render.mjs:147).
`Html.ConcatHtmls` returns `null` for it.

## Model

| member | source | states |
|---|---|---|
| `Strings.TrimStrips` | script/render.mjs:25 | `trim` cuts only whitespace, and all of it, from both ends: the result is a slice that neither starts nor ends with whitespace |
| `Strings.IndexOf` | script/render.mjs:26 | `indexOf` is negative exactly when the needle does not occur; otherwise it is the first position where it occurs |
| `Strings.ContainsTrimmed` | script/render.mjs:25-26 | a needle without whitespace occurs in the trimmed text exactly when it occurs in the untrimmed text |
| `Strings.Decimal` | script/render.mjs:21 | `toString` of a non-negative integer is at least one decimal digit with no leading zero; one digit below 10, at most two below 100 |
| `Strings.DecimalRoundTrip` | script/html.mjs:23 | reading the decimal digits back gives the number |
| `Strings.PadStart` | script/render.mjs:44 | `padStart(w, fill)` keeps the string as its suffix, has length max(w, length), and only `fill` in front |
| `Markdown.Document.AppendChild` | script/render.mjs:46 | the node becomes the last child and the others stay as they were |
| `Markdown.Document.PrependChild` | script/render.mjs:57 | the node becomes the first child and the others stay as they were |
| `Numbering.UnnumberedMeans` | script/render.mjs:25-26 | a level-2 heading is skipped exactly when its trimmed first literal is `まとめ`, or `演習` occurs anywhere in it |
| `Numbering.Run` | script/render.mjs:16-35 | the walk never changes how many top-level children there are |
| `Numbering.NumberChild` | script/render.mjs:17-33 | one visit edits the child at `i` and updates the counter, title and sections as one step of the walk says, or throws and edits nothing |
| `Numbering.NumberHeadings` | script/render.mjs:12-37 | the children after the call are the walk's result, and the returned `{chapterTitle, sections}`, or the `TypeError`, is the walk's outcome |
| `Numbering.RunAfterFailure` | script/render.mjs:19-25 | once a heading throws, no later child is touched |
| `Numbering.RunFailsOnFirstUnreadable` | script/render.mjs:19-25 | the call succeeds exactly when every level-1 heading has a first child and every level-2 heading a first child with a literal; otherwise the error names the first one that does not, and nothing from it on has changed |
| `Numbering.RunState` | script/render.mjs:13-36 | on success the counter is one more than the numbered sections since the last level-1 heading, the title is that heading's original first literal (or null), and the sections are the untrimmed first literals of the numbered headings in order |
| `Numbering.RunNumbersHeadings` | script/render.mjs:18-32 | every level-1 heading gains `第{c}章 `; every numbered section gains `{c}.{k} `, where k - 1 numbered sections precede it since the last level-1 heading; every other child is unchanged |
| `Numbering.SinceChapterCounts` | script/render.mjs:23-31 | that k is a count of numbered sections restarted at each level-1 heading |
| `Numbering.OnlyHeadingsChange` | script/render.mjs:16-35 | each child comes out identical, or it is a level-1 or numbered level-2 heading that keeps its level and children and gains one text node in front |
| `Numbering.NumberingExample` | script/render.mjs:18-23 | chapter 3 with one level-1 heading `はじめに` becomes `第3章 はじめに`, titled `はじめに` |
| `Numbering.CodeHeadingExample` | script/render.mjs:24-31 | a level-2 heading that starts with inline code `Functor` is numbered `1.1 ` and lists `Functor` as a section, since inline code carries a literal |
| `Numbering.FunctorIsNumbered` | script/render.mjs:25-26 | the literal `Functor` passes the skip test, so its heading is numbered |
| `Navigation.ChapterName` | script/render.mjs:44 | `chapter` followed by digits; nine characters exactly for chapters below 100 |
| `Navigation.ChapterNameRoundTrip` | script/html.mjs:22-24 | reading the number back from a page name the way the build script does gives the chapter |
| `Navigation.InsertNextChapterLink` | script/render.mjs:39-48 | one link block to chapter + 1 is appended exactly when both numbers are present and chapter < lastChapter; otherwise nothing changes |
| `Navigation.InsertLinkToHome` | script/render.mjs:50-58 | the children become home block, original children, home block |
| `Navigation.NextChapterExamples` | script/render.mjs:41-44 | chapter 5 of 10 links to `chapter06`; chapter 10 of 10 links nowhere |
| `Html.LeadingRunStops` | script/render.mjs:81-92 | the run after a heading holds no heading and ends at a heading or at the end of the body |
| `Html.MoveRun` | script/render.mjs:79-92 | the new block holds a fresh `演習` heading then exactly that run, and the run has left the body |
| `Html.WrapExercise` | script/render.mjs:79-94 | the heading is replaced by the block, with the run inside it and everything else in place |
| `Html.VisitElement` | script/render.mjs:73-96 | an exercise heading is replaced by a block holding the run of non-headings after it, and the rest of the body stays in place; any other element leaves the body unchanged; either way the visit is one step of the transformation and does not make the body longer |
| `Html.TransformExercise` | script/render.mjs:72-97 | the body becomes `Exercised` of the old body |
| `Html.ExercisedLeavesNoExerciseHeading` | script/render.mjs:73-94 | no exercise heading remains at the top level |
| `Html.ExercisedWithoutExerciseHeadings` | script/render.mjs:74-78 | a body without exercise headings is left unchanged |
| `Html.LabelIsExerciseHeading` | script/render.mjs:73-79 | every block starts with the fresh `<h2>演習</h2>` label, and that label is itself an exercise heading of the kind the selector picks |
| `Html.ExercisedKeepsElements` | script/render.mjs:81-94 | for a body without exercise blocks of its own, opening the blocks again gives the old body without its exercise headings: no element is lost, duplicated or reordered |
| `Html.ExerciseStopsAtHeading` | script/render.mjs:87-90 | the block takes the run of non-headings, and the stopping heading and what follows stay outside, in order |
| `Html.InsertPageBreak` | script/render.mjs:142-144 | exactly one page-break block is appended at the end |
| `Html.ViewList.Shift` | script/render.mjs:147 | removes and returns the first view; returns null on an empty list |
| `Html.AppendBodies` | script/render.mjs:148-151 | the first view's body gains every later view's body elements, in order |
| `Html.ConcatHtmls` | script/render.mjs:146-153 | returns null for an empty list; otherwise returns the first view, whose body is the bodies of all views in input order, and leaves the later views in the list |
| `Html.BodiesAppend` | script/render.mjs:146-153 | concatenating in two stages gives the same body as concatenating at once |
| `Html.BodiesSingle` | script/render.mjs:146-153 | a single view concatenates to its own body |
| `Render.Defaults` | script/render.mjs:113-115 | a chapter number is kept only when options are given and the number is present and not 0; home links are on only when the flag is `true` |
| `Render.RenderMarkdown` | script/render.mjs:112-136 | the document gets the next-chapter link, then the home links; the returned view is a fresh one whose body is the exercise transformation of the rendered document |
| `Render.NoOptionsNoLink` | script/render.mjs:113-121 | with no options, or a missing or zero chapter, and home links off, the document is unchanged |
| `Render.ContentKept` | script/render.mjs:117-123 | the original content survives whole and in order, right after the leading home block or at the front |
| `Render.LinkBeforeTrailingHome` | script/render.mjs:117-123 | with both edits, the next-chapter block sits after the content and before the trailing home block, and three blocks are added |
| `Render.AddedBlocks` | script/render.mjs:117-123 | exactly one block for the link and two for home links are added |
| `Render.RenderExample` | script/render.mjs:112-123 | chapter 4 of 12 with home links gets a link to chapter 5 between the content and the trailing home block |

## Left out

- `readMarkdown` and `writeHtml` (script/render.mjs:6-10, 138-140): file I/O.
- `markdownToHtml` (script/render.mjs:99-109) is foreign code: the commonmark renderer and `cheerio.load`. Its catch-and-retry repeats the same call.
- `highlightCodes` (script/render.mjs:60-70) is foreign code: `highlightjs.highlightAuto`.
- `Render.RenderMarkdown` takes `markdownToHtml` followed by `highlightCodes` as one parameter, `toView`.
- CSS selectors are modelled only over the top-level siblings of `<body>`. An `h2` nested inside another element is not modelled.
- `Html.TransformExercise` is not idempotent on the whole document, and the model says nothing about a second pass. `$('h2')` (script/render.mjs:73) also selects the `<h2>演習</h2>` label nested inside each block (script/render.mjs:79), so a second pass wraps that label in another `div.exercise`. `Html.LabelIsExerciseHeading` states that the label matches; the nesting itself lies below the top level and is not modelled.
- Text nodes between elements are not modelled. The view is a list of elements, and an element's `text` is the text before its first child element; text after a child element is not represented.
- `Html.TransformExercise` assumes that `child.next()` walks the siblings as they stood before the scan moved `child` into the block. Which node cheerio actually returns after the move (script/render.mjs:84, 90) is not part of this model.
- `Html.ConcatHtmls` does not say what happens to the later views' bodies. cheerio moves the appended nodes out of them, and the model leaves them as they were.
- `Html.ConcatHtmls` requires the views in the list to be distinct objects. Aliasing between them is not modelled.
- `Html.AppendBodies` changes only the first view. cheerio moves the appended nodes out of the later views' bodies (script/render.mjs:150), and the model's frame leaves those bodies as they were.
- `Html.AppendBodies` requires the first view not to be among the later ones. Aliasing between them is not modelled.
- Chapter numbers are non-negative integers. Negative, fractional and non-number `chapter`/`lastChapter` values are not modelled. Neither is JavaScript's exponent notation for numbers of 10^21 and more.
- `Render.Defaults` reads a missing options object, a missing field and the number 0 as falsy. Other falsy or truthy non-number values are not modelled.
- Node identity and the remaining commonmark node fields are not modelled: a node is a value.
- The build scripts are orchestration, not part of this model: `gulpfile.js`, `script/html.mjs`, `script/epub.mjs`, `script/pdf.mjs`, `script/clean.mjs`. Only the page-name convention at script/html.mjs:22-24 is reused.
