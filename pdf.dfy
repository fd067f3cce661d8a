/** The PDF pipeline: translate the text of every page, in page order, into
    one accumulated text, and rebuild a single-page document holding it. The
    document is its ordered pages; extracting their text and laying the new
    page out belong to the format library. */
module Pdf {
  import opened Wrappers
  import opened Text
  import opened Translation

  /** A page's dimensions, which the pipeline only copies. */
  datatype Size = Size(width: real, height: real)

  /** A page: its plain text and its dimensions. */
  datatype Page = Page(text: string, size: Size)

  /** The blank line written after every page's translation. */
  const PageSeparator: string := "\n\n"

  /** What one page adds to the accumulated text. */
  function PageUnit(translate: Translator, target: Language, page: Page): (r: string)
    ensures |r| == |TranslateText(translate, page.text, target)| + |PageSeparator|
    ensures EndsWith(r, PageSeparator)
    ensures AlwaysRaises(translate) ==> r == page.text + PageSeparator
  {
    TranslateText(translate, page.text, target) + PageSeparator
  }

  /** The translations of all pages, in page order, each followed by a blank
      line. No page is skipped, so every page adds at least the separator. */
  function CombinedText(translate: Translator, target: Language, pages: seq<Page>): (r: string)
    ensures |r| >= |PageSeparator| * |pages|
  {
    if pages == [] then ""
    else PageUnit(translate, target, pages[0]) + CombinedText(translate, target, pages[1..])
  }

  /** Appending a page appends its unit: the shape in which the loop builds
      the text. */
  lemma {:induction false} CombinedTextAppend(translate: Translator, target: Language, pages: seq<Page>, page: Page)
    ensures CombinedText(translate, target, pages + [page]) ==
            CombinedText(translate, target, pages) + PageUnit(translate, target, page)
  {
    if pages == [] {
      assert [page][1..] == [];
    } else {
      assert (pages + [page])[1..] == pages[1..] + [page];
      CombinedTextAppend(translate, target, pages[1..], page);
    }
  }

  /** With at least one page, the accumulated text ends in a blank line. */
  lemma CombinedTextEndsWithSeparator(translate: Translator, target: Language, pages: seq<Page>)
    requires pages != []
    ensures EndsWith(CombinedText(translate, target, pages), PageSeparator)
  {
    var last := |pages| - 1;
    assert pages == pages[..last] + [pages[last]];
    CombinedTextAppend(translate, target, pages[..last], pages[last]);
  }

  /** Every page's own text, in page order, each followed by a blank line. */
  function PlainText(pages: seq<Page>): (r: string)
    ensures |r| >= |PageSeparator| * |pages|
    ensures pages != [] ==> |pages[0].text| <= |r| && r[..|pages[0].text|] == pages[0].text
  {
    if pages == [] then "" else pages[0].text + PageSeparator + PlainText(pages[1..])
  }

  /** With a service that always raises, the accumulated text is the pages'
      own text. */
  lemma {:induction false} CombinedTextPassthrough(translate: Translator, target: Language, pages: seq<Page>)
    requires AlwaysRaises(translate)
    ensures CombinedText(translate, target, pages) == PlainText(pages)
  {
    if pages != [] {
      TranslateTextPassthrough(translate, pages[0].text, target);
      CombinedTextPassthrough(translate, target, pages[1..]);
    }
  }

  /** The rebuilt document: one page, sized like the first input page, holding
      the accumulated text. A document without pages has no first page, so no
      document is built. */
  function TranslatedPdf(translate: Translator, target: Language, pages: seq<Page>): (r: Option<seq<Page>>)
    ensures r.Some? <==> pages != []
    ensures r.Some? ==> |r.value| == 1 && r.value[0].size == pages[0].size
  {
    if pages == [] then None
    else Some([Page(CombinedText(translate, target, pages), pages[0].size)])
  }

  /** Run the pipeline over the pages of an opened document. */
  method ProcessPdf(pages: seq<Page>, translate: Translator, target: Language) returns (r: Option<seq<Page>>)
    ensures r == TranslatedPdf(translate, target, pages)
  {
    var translatedText := "";
    for i := 0 to |pages|
      invariant translatedText == CombinedText(translate, target, pages[..i])
    {
      var text := pages[i].text;
      translatedText := translatedText + TranslateText(translate, text, target) + PageSeparator;
      CombinedTextAppend(translate, target, pages[..i], pages[i]);
      assert pages[..i + 1] == pages[..i] + [pages[i]];
    }
    assert pages[..|pages|] == pages;
    if |pages| == 0 {
      r := None;
    } else {
      r := Some([Page(translatedText, pages[0].size)]);
    }
  }
}
