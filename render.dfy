/** `renderMarkdown`: the defaults it gives its options and the order in
    which it applies the edits to one chapter. */
module Render {
  import opened Wrappers
  import opened Markdown
  import opened Navigation
  import opened Html
  import opened Seqs

  /** The options object as far as `renderMarkdown` reads it: each number
      is present or missing, and so is the flag. */
  datatype Options = Options(chapter: Option<nat>, lastChapter: Option<nat>, homeLinks: Option<bool>)

  /** The three values after defaulting. */
  datatype Settings = Settings(chapter: Option<nat>, lastChapter: Option<nat>, homeLinks: bool)

  /** `value || null` for a number: a missing number and the falsy 0 both
      give `null`. */
  function OrNull(value: Option<nat>): Option<nat> {
    if value == Some(0) then None else value
  }

  /** The defaults of `renderMarkdown`: a chapter number is kept only when
      it is given and not 0, and home links are on only when the flag is
      given as `true`. */
  function Defaults(options: Option<Options>): (s: Settings)
    ensures s.chapter.None? <==> options.None? || options.value.chapter in {None, Some(0)}
    ensures s.chapter.Some? ==> s.chapter == options.value.chapter && s.chapter.value > 0
    ensures s.lastChapter.None? <==> options.None? || options.value.lastChapter in {None, Some(0)}
    ensures s.lastChapter.Some? ==> s.lastChapter == options.value.lastChapter && s.lastChapter.value > 0
    ensures s.homeLinks <==> options.Some? && options.value.homeLinks == Some(true)
  {
    if options.None? then Settings(None, None, false)
    else Settings(OrNull(options.value.chapter), OrNull(options.value.lastChapter),
                  options.value.homeLinks == Some(true))
  }

  /** The top-level children once both navigation edits have been made. */
  function Prepared(xs: seq<Node>, s: Settings): seq<Node> {
    var linked := if LinksToNext(s.chapter, s.lastChapter)
                  then xs + [HtmlBlock(NextChapterHtml(s.chapter.value + 1))]
                  else xs;
    if s.homeLinks then [HomeBlock] + linked + [HomeBlock] else linked
  }

  /** `renderMarkdown(document, options)`. `toView` stands for rendering the
      document to HTML, loading it and highlighting its code blocks; the
      result is the loaded view after the exercise blocks are made. */
  method RenderMarkdown(document: Document, options: Option<Options>, toView: seq<Node> -> seq<Element>)
    returns (view: View)
    modifies document
    ensures document.children == Prepared(old(document.children), Defaults(options))
    ensures fresh(view) && view.body == Exercised(toView(document.children))
  {
    var settings := Defaults(options);
    InsertNextChapterLink(document, settings.chapter, settings.lastChapter);
    if settings.homeLinks {
      InsertLinkToHome(document);
    }
    view := new View(toView(document.children));
    TransformExercise(view);
  }

  /** Without options, or with a missing or zero chapter, no link to a next
      chapter is added and the document is left as it is. */
  lemma NoOptionsNoLink(xs: seq<Node>, options: Option<Options>)
    requires options.None? || options.value.chapter in {None, Some(0)}
    requires options.None? || options.value.homeLinks != Some(true)
    ensures Prepared(xs, Defaults(options)) == xs
  {
  }

  /** The original content survives whole and in order: after the leading
      home block when home links are on, at the very front otherwise. */
  lemma ContentKept(xs: seq<Node>, s: Settings)
    ensures var r := Prepared(xs, s);
            var at := if s.homeLinks then 1 else 0;
            at + |xs| <= |r| && r[at..at + |xs|] == xs
  {
    var linked := if LinksToNext(s.chapter, s.lastChapter)
                  then xs + [HtmlBlock(NextChapterHtml(s.chapter.value + 1))]
                  else xs;
    var extra := linked[|xs|..];
    assert linked == xs + extra;
    Between(HomeBlock, xs, extra);
    if s.homeLinks {
      Between(HomeBlock, xs, extra + [HomeBlock]);
      Assoc(xs, extra, [HomeBlock]);
      Assoc([HomeBlock], linked, [HomeBlock]);
    }
  }

  /** With a next chapter and home links, the link to the next chapter sits
      right after the original content and right before the trailing home
      block, and there are exactly three new blocks. */
  lemma LinkBeforeTrailingHome(xs: seq<Node>, s: Settings)
    requires LinksToNext(s.chapter, s.lastChapter) && s.homeLinks
    ensures var r := Prepared(xs, s);
            |r| == |xs| + 3 && r[0] == HomeBlock && r[1..|xs| + 1] == xs &&
            r[|xs| + 1] == HtmlBlock(NextChapterHtml(s.chapter.value + 1)) &&
            r[|xs| + 2] == HomeBlock
  {
    ContentKept(xs, s);
  }

  /** Exactly how many blocks the navigation edits add. */
  lemma AddedBlocks(xs: seq<Node>, s: Settings)
    ensures |Prepared(xs, s)| ==
            |xs| + (if LinksToNext(s.chapter, s.lastChapter) then 1 else 0) + (if s.homeLinks then 2 else 0)
  {
  }

  /** Chapter 4 of 12 with home links: the link points at `chapter05`. */
  lemma RenderExample(xs: seq<Node>)
    ensures var s := Defaults(Some(Options(Some(4), Some(12), Some(true))));
            Prepared(xs, s) == [HomeBlock] + xs + [HtmlBlock(NextChapterHtml(5)), HomeBlock]
  {
  }
}
