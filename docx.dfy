/** The word-processing pipeline: translate every non-blank paragraph of an
    opened document in place. The document is its ordered paragraph texts;
    opening and saving it belong to the format library. */
module Docx {
  import opened Text
  import opened Translation

  /** A paragraph is left alone when its text, stripped, is empty; by the
      contract of Strip that is when every character is whitespace. */
  predicate IsBlank(text: string)
  {
    AllSpace(text)
  }

  /** Blank is exactly what the pipeline tests: the stripped text is empty. */
  lemma BlankIffStripEmpty(text: string)
    ensures IsBlank(text) <==> Strip(text) == []
  {
  }

  /** What becomes of one paragraph's text: a paragraph whose stripped text
      is empty is kept as it is, any other is translated; with a service that
      always raises, every paragraph is kept. */
  function TranslateParagraph(translate: Translator, target: Language, text: string): (r: string)
    ensures Strip(text) == [] ==> r == text
    ensures Strip(text) != [] ==> r == TranslateText(translate, text, target)
    ensures AlwaysRaises(translate) ==> r == text
  {
    if IsBlank(text) then text else TranslateText(translate, text, target)
  }

  /** The paragraph texts after the pipeline, in document order. */
  function TranslatedParagraphs(translate: Translator, target: Language, paragraphs: seq<string>): (r: seq<string>)
    ensures |r| == |paragraphs|
  {
    if paragraphs == [] then []
    else [TranslateParagraph(translate, target, paragraphs[0])] + TranslatedParagraphs(translate, target, paragraphs[1..])
  }

  /** Count and order are kept: slot `i` of the result comes from slot `i` of
      the input, unchanged when blank and translated otherwise. */
  lemma {:induction false} TranslatedParagraphsAt(translate: Translator, target: Language, paragraphs: seq<string>, i: nat)
    requires i < |paragraphs|
    ensures TranslatedParagraphs(translate, target, paragraphs)[i] == TranslateParagraph(translate, target, paragraphs[i])
  {
    if i > 0 {
      TranslatedParagraphsAt(translate, target, paragraphs[1..], i - 1);
    }
  }

  /** With a service that always raises, the document comes back as it was. */
  lemma {:induction false} TranslatedParagraphsPassthrough(translate: Translator, target: Language, paragraphs: seq<string>)
    requires AlwaysRaises(translate)
    ensures TranslatedParagraphs(translate, target, paragraphs) == paragraphs
  {
    if paragraphs != [] {
      TranslatedParagraphsPassthrough(translate, target, paragraphs[1..]);
      TranslateTextPassthrough(translate, paragraphs[0], target);
    }
  }

  /** The loop body for one paragraph: translate its text in place unless
      the text, stripped, is empty. */
  method TranslateSlot(paragraphs: array<string>, i: nat, translate: Translator, target: Language)
    requires i < paragraphs.Length
    modifies paragraphs
    ensures paragraphs[i] == TranslateParagraph(translate, target, old(paragraphs[i]))
    ensures forall k :: 0 <= k < paragraphs.Length && k != i ==> paragraphs[k] == old(paragraphs[k])
  {
    var text := paragraphs[i];
    if Strip(text) != [] {
      var translated := TranslateText(translate, text, target);
      paragraphs[i] := translated;
    }
  }

  /** Translate the paragraphs of an opened document in place, in document
      order, skipping the blank ones. */
  method ProcessDocx(paragraphs: array<string>, translate: Translator, target: Language)
    modifies paragraphs
    ensures paragraphs[..] == TranslatedParagraphs(translate, target, old(paragraphs[..]))
  {
    ghost var original := paragraphs[..];
    for i := 0 to paragraphs.Length
      invariant forall k :: 0 <= k < i ==> paragraphs[k] == TranslateParagraph(translate, target, original[k])
      invariant forall k :: i <= k < paragraphs.Length ==> paragraphs[k] == original[k]
    {
      TranslateSlot(paragraphs, i, translate, target);
    }
    forall k | 0 <= k < paragraphs.Length
      ensures paragraphs[..][k] == TranslatedParagraphs(translate, target, original)[k]
    {
      TranslatedParagraphsAt(translate, target, original, k);
    }
  }

  /** For instance, a blank paragraph between two non-blank ones stays
      as it is, and the other two are translated (say "Hello world",
      "" and "Goodbye"). */
  lemma BlankBetweenTwoParagraphs(translate: Translator, target: Language, first: string, middle: string, last: string)
    requires !IsBlank(first) && IsBlank(middle) && !IsBlank(last)
    ensures TranslatedParagraphs(translate, target, [first, middle, last]) ==
            [TranslateText(translate, first, target), middle, TranslateText(translate, last, target)]
  {
    var ps := [first, middle, last];
    TranslatedParagraphsAt(translate, target, ps, 0);
    TranslatedParagraphsAt(translate, target, ps, 1);
    TranslatedParagraphsAt(translate, target, ps, 2);
  }
}
