/** Translating one subtitle line. The translation service is the function
    parameter `translate`: whatever text it is given, it answers with some text. */
module LineTranslation {
  import opened Wrappers
  import opened Text
  import opened Classify
  import opened Markup

  /** A line holds markup when a closing tag opener `</` occurs in it. */
  predicate HasMarkup(line: string) {
    Contains(line, "</")
  }

  /** The text a line sends to the translation service, if any: nothing for
      a structural line or one whose markup cannot be split; the stripped
      text for a line with markup; the whole line otherwise. */
  function TranslatorQuery(line: string): Option<string> {
    if !NeedsTranslate(line) then None
    else if HasMarkup(line) then
      match SplitTags(line)
      case Failure(_) => None
      case Success(s) => Some(s.stripped)
    else Some(line)
  }

  /** The translator's per-line step: structural lines pass unchanged; a line
      with markup is split, its stripped text translated and re-wrapped in the
      tag pair; any other line is translated whole. Splitting may fail. */
  function TranslateLine(translate: string -> string, line: string): (r: Result<string, SplitError>)
    ensures !NeedsTranslate(line) ==> r == Success(line)
    ensures NeedsTranslate(line) && !HasMarkup(line) ==> r == Success(translate(line))
    ensures r.Failure? <==> NeedsTranslate(line) && HasMarkup(line) && SplitTags(line).Failure?
    ensures NeedsTranslate(line) && HasMarkup(line) && r.Success? ==>
      exists k :: FirstTagAt(line, k) && r.value == OpenTag(StyleTags[k]) + translate(Unwrap(line, StyleTags[k])) + CloseTag(StyleTags[k])
  {
    if !NeedsTranslate(line) then Success(line)
    else if HasMarkup(line) then
      match SplitTags(line)
      case Failure(e) => Failure(e)
      case Success(s) => Success(s.openTag + translate(s.stripped) + s.closeTag)
    else Success(translate(line))
  }

  /** The service is consulted on the query text and nothing else: two
      services that agree there give the same result, and a line with no
      query (structural, or failing to split) does not depend on the service at all. */
  lemma TranslatorConsultedOnlyOnQuery(t1: string -> string, t2: string -> string, line: string)
    requires TranslatorQuery(line).Some? ==> t1(TranslatorQuery(line).value) == t2(TranslatorQuery(line).value)
    ensures TranslateLine(t1, line) == TranslateLine(t2, line)
    ensures TranslatorQuery(line).None? <==> !NeedsTranslate(line) || TranslateLine(t1, line).Failure?
  {
  }

  /** Structural lines come back unchanged whatever the service does. */
  lemma StructuralLineUnchanged(translate: string -> string, line: string)
    requires AllSpace(line) || IsIndexLine(line) || IsTimingLine(line)
    ensures TranslateLine(translate, line) == Success(line)
    ensures TranslatorQuery(line) == None
  {
    NeedsTranslateExactly(line);
  }

  /** A line of text without `</` is translated whole, any opening tag in it included. */
  lemma PlainLineTranslatedWhole(translate: string -> string, line: string)
    requires !AllSpace(line) && !IsIndexLine(line) && !IsTimingLine(line)
    requires !HasMarkup(line)
    ensures TranslateLine(translate, line) == Success(translate(line))
    ensures TranslatorQuery(line) == Some(line)
  {
    NeedsTranslateExactly(line);
  }

  /** A line wrapped in one style tag, whose body has no `<` and no `-->`,
      has its body translated and is wrapped again in the same tag pair. */
  lemma WrappedLineRewrapped(translate: string -> string, tag: string, body: string)
    requires tag in StyleTags && '<' !in body && !Contains(body, "-->")
    ensures TranslateLine(translate, OpenTag(tag) + body + CloseTag(tag)) == Success(OpenTag(tag) + translate(body) + CloseTag(tag))
    ensures TranslatorQuery(OpenTag(tag) + body + CloseTag(tag)) == Some(body)
  {
    var line := OpenTag(tag) + body + CloseTag(tag);
    assert NeedsTranslate(line) by {
      assert line[0] == '<';
      NeedsTranslateExactly(line);
      WrappedTimingInBody(tag, body);
      ContainsOccurrence(line, "-->");
    }
    SplitWrapped(tag, body);
    assert StartsAt(line, |OpenTag(tag)| + |body|, "</") by {
      assert line[|OpenTag(tag)| + |body|..] == CloseTag(tag);
    }
    ContainsOccurrence(line, "</");
  }

  /** A translatable line with `</` but none of the style tags opening in it
      raises the splitter's error. */
  lemma UnknownMarkupFails(translate: string -> string, line: string)
    requires NeedsTranslate(line) && HasMarkup(line)
    requires forall tag :: tag in StyleTags ==> !Contains(line, OpenTag(tag))
    ensures TranslateLine(translate, line) == Failure(NoStyleTag)
  {
  }
}
