/** The translation client: one call of the external translation service,
    with its fallback to the original text when the service fails. */
module Translation {
  import opened Wrappers

  /** What one call of the external service yields: the translated text, or an
      exception of any kind (network, service or input error). */
  datatype Attempt = Translated(text: string) | Raised

  /** The target language as the form supplies it; `None` when the form has
      no `language` field. */
  type Language = Option<string>

  /** The external service, seen as a function of the text and the target
      language. */
  type Translator = (string, Language) -> Attempt

  /** A service that raises on every call. */
  ghost predicate AlwaysRaises(translate: Translator)
  {
    forall text, target :: translate(text, target) == Raised
  }

  /** Translate `text`; the result is the service's translation when the call
      succeeds and `text` itself when it raises, so this never fails. */
  function TranslateText(translate: Translator, text: string, target: Language): (r: string)
    ensures translate(text, target).Translated? ==> r == translate(text, target).text
    ensures translate(text, target) == Raised ==> r == text
  {
    match translate(text, target)
    case Translated(translated) => translated
    case Raised => text
  }

  /** With a service that always raises, every text comes back unchanged. */
  lemma TranslateTextPassthrough(translate: Translator, text: string, target: Language)
    requires AlwaysRaises(translate)
    ensures TranslateText(translate, text, target) == text
  {
  }
}
