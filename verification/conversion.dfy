/** `html_to_markdown`: extraction, then the external Markdown converter
    (the parameter `toMarkdown`, standing for markdownify together with the
    serialisation of the extract and the configured options), then the
    whitespace normaliser. */
module Conversion {
  import opened Wrappers
  import opened Text
  import opened Dom
  import opened Extractor
  import opened Normalizer

  /** A fixed point of the normaliser: either "\n" or text ending in a
      non-whitespace character and one newline. */
  predicate IsNormalText(t: string) {
    && Normalize(t) == t
    && (t == "\n" || (|t| >= 2 && t[|t| - 1] == '\n' && !IsSpace(t[|t| - 2])))
  }

  lemma NormalizedShape(markdown: string)
    ensures IsNormalText(Normalize(markdown))
  {
    NormalizeIdempotent(markdown);
  }

  /** `html_to_markdown`: fails exactly when extraction fails; otherwise the text
      is already normalised (normalising it again changes nothing) and ends
      in a single newline after a non-whitespace character, or is just "\n". */
  function HtmlToMarkdown(
    doc: seq<Node>,
    selector: Option<string>,
    selectOne: (string, seq<Node>) -> Option<Node>,
    navClass: seq<string> -> bool,
    contentClass: seq<string> -> bool,
    toMarkdown: Extract -> string
  ): (r: Result<string, ExtractError>)
    ensures r.Failure? <==> HasSelector(selector) && selectOne(selector.value, doc).None?
    ensures r.Failure? ==> r.error == SelectorNotFound(selector.value)
    ensures r.Success? ==>
              r.value == Normalize(toMarkdown(CleanHtml(doc, selector, selectOne, navClass, contentClass).value))
    ensures r.Success? ==> IsNormalText(r.value)
  {
    var cleaned := CleanHtml(doc, selector, selectOne, navClass, contentClass);
    if cleaned.Failure? then Failure(cleaned.error)
    else
      var markdown := toMarkdown(cleaned.value);
      NormalizedShape(markdown);
      Success(Normalize(markdown))
  }

  /** What the converter writes survives: the non-blank lines of the
      produced text are the converter's non-blank lines, in order,
      right-trimmed, the first also left-trimmed. */
  lemma ConverterLinesSurvive(
    doc: seq<Node>,
    selector: Option<string>,
    selectOne: (string, seq<Node>) -> Option<Node>,
    navClass: seq<string> -> bool,
    contentClass: seq<string> -> bool,
    toMarkdown: Extract -> string
  )
    requires !HasSelector(selector) || selectOne(selector.value, doc).Some?
    ensures var r := HtmlToMarkdown(doc, selector, selectOne, navClass, contentClass, toMarkdown);
            var markdown := toMarkdown(CleanHtml(doc, selector, selectOne, navClass, contentClass).value);
            && r.Success?
            && NonBlank(OutputLines(r.value)) == LStripFirst(RStripAll(NonBlank(Split(markdown))))
  {
    var markdown := toMarkdown(CleanHtml(doc, selector, selectOne, navClass, contentClass).value);
    NonBlankLinesSurvive(markdown);
  }
}
