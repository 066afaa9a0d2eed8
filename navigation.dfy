/** `insertNextChapterLink` and `insertLinkToHome`: whole raw-HTML blocks
    added at the ends of a chapter document. */
module Navigation {
  import opened Wrappers
  import opened Strings
  import opened Markdown

  /** `chapter${NN}`: the page name of a chapter, its number left-padded
      with zeros to two digits. */
  function ChapterName(chapter: nat): (name: string)
    ensures |name| >= 9 && (chapter < 100 <==> |name| == 9)
    ensures name[..7] == "chapter" && AllDigits(name[7..])
  {
    var digits := PadStart(Decimal(chapter), 2, '0');
    assert ("chapter" + digits)[7..] == digits;
    "chapter" + digits
  }

  /** Reads a chapter number back from a page name, the way the build
      scripts read `chapterNN` with `parseInt`. */
  function ParseChapterName(name: string): Option<nat> {
    if |name| > 7 && name[..7] == "chapter" && AllDigits(name[7..])
    then Some(DigitsValue(name[7..]))
    else None
  }

  /** The page name determines the chapter number. */
  lemma ChapterNameRoundTrip(chapter: nat)
    ensures ParseChapterName(ChapterName(chapter)) == Some(chapter)
  {
    var d := Decimal(chapter);
    var padded := PadStart(d, 2, '0');
    var z := padded[..|padded| - |d|];
    assert padded == z + d;
    LeadingZeros(z, d);
    DecimalRoundTrip(chapter);
    assert ChapterName(chapter)[7..] == padded;
  }

  /** The raw HTML of the link to chapter `next`. */
  function NextChapterHtml(next: nat): string {
    "\n\n<a href=\"" + ChapterName(next) + ".html\"><div class=\"next\">次の第" +
    Decimal(next) + "章を読む</div></a>"
  }

  const HomeHtml: string := "<p class=\"home\"><a href=\"index.html\">目次に戻る</a></p>"

  const HomeBlock: Node := HtmlBlock(HomeHtml)

  /** Both numbers are present and this is not the last chapter. */
  predicate LinksToNext(chapter: Option<nat>, lastChapter: Option<nat>) {
    chapter.Some? && lastChapter.Some? && chapter.value < lastChapter.value
  }

  /** `insertNextChapterLink(document, chapter, lastChapter)`: one block
      linking to the following chapter is appended exactly when
      `LinksToNext`; otherwise the document is left as it is. */
  method InsertNextChapterLink(document: Document, chapter: Option<nat>, lastChapter: Option<nat>)
    modifies document
    ensures LinksToNext(chapter, lastChapter) ==>
              document.children == old(document.children) + [HtmlBlock(NextChapterHtml(chapter.value + 1))]
    ensures !LinksToNext(chapter, lastChapter) ==> document.children == old(document.children)
  {
    if chapter != None && lastChapter != None && chapter.value < lastChapter.value {
      var nextChapter := chapter.value + 1;
      document.AppendChild(HtmlBlock(NextChapterHtml(nextChapter)));
    }
  }

  /** `insertLinkToHome(document)`: a home block before and after all of
      the existing content. */
  method InsertLinkToHome(document: Document)
    modifies document
    ensures document.children == [HomeBlock] + old(document.children) + [HomeBlock]
  {
    document.AppendChild(HomeBlock);
    document.PrependChild(HomeBlock);
  }

  /** Chapter 5 of 10 links to `chapter06.html`; chapter 10 of 10 links
      nowhere. */
  lemma NextChapterExamples()
    ensures LinksToNext(Some(5), Some(10)) && ChapterName(5 + 1) == "chapter06"
    ensures !LinksToNext(Some(10), Some(10))
  {
    assert Decimal(6) == "6";
    assert PadStart("6", 2, '0') == "06";
  }
}
