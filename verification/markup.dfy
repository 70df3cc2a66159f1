/** Splitting inline style markup off a subtitle line: the first style tag
    whose opening form occurs is chosen, and every opening and closing form
    of that tag is deleted. */
module Markup {
  import opened Wrappers
  import opened Text

  /** The style tags looked for, in the order they are tried. */
  const StyleTags: seq<string> := ["i", "b", "u", "em", "strong"]

  function OpenTag(tag: string): string {
    "<" + tag + ">"
  }

  function CloseTag(tag: string): string {
    "</" + tag + ">"
  }

  /** The splitter's `ValueError("No HTML tags found.")`. */
  datatype SplitError = NoStyleTag

  /** A line with its markup taken off, and the tag pair to put back. */
  datatype Split = Split(stripped: string, openTag: string, closeTag: string)

  /** `k` is the position of the first style tag whose opening form occurs in `text`. */
  ghost predicate FirstTagAt(text: string, k: int) {
    && 0 <= k < |StyleTags|
    && Contains(text, OpenTag(StyleTags[k]))
    && forall j :: 0 <= j < k ==> !Contains(text, OpenTag(StyleTags[j]))
  }

  /** The first style tag, at or after position `k`, whose opening form occurs in `text`. */
  function FirstTagFrom(text: string, k: nat): (r: Option<nat>)
    requires k <= |StyleTags|
    ensures r.Some? ==> k <= r.value < |StyleTags| && Contains(text, OpenTag(StyleTags[r.value]))
    ensures r.Some? ==> forall j :: k <= j < r.value ==> !Contains(text, OpenTag(StyleTags[j]))
    ensures r.None? ==> forall j :: k <= j < |StyleTags| ==> !Contains(text, OpenTag(StyleTags[j]))
    decreases |StyleTags| - k
  {
    if k == |StyleTags| then None
    else if Contains(text, OpenTag(StyleTags[k])) then Some(k)
    else FirstTagFrom(text, k + 1)
  }

  /** `text` with every opening and every closing form of `tag` deleted,
      the opening forms first (two passes of Python's `replace`). */
  function Unwrap(text: string, tag: string): string {
    RemoveAll(RemoveAll(text, OpenTag(tag)), CloseTag(tag))
  }

  /** The splitter: fails when no style tag opens in `text`; otherwise picks
      the first one that does and returns `text` unwrapped of it. */
  function SplitTags(text: string): (r: Result<Split, SplitError>)
    ensures r.Failure? <==> forall j :: 0 <= j < |StyleTags| ==> !Contains(text, OpenTag(StyleTags[j]))
    ensures r.Success? ==> exists k :: FirstTagAt(text, k) && r.value == Split(Unwrap(text, StyleTags[k]), OpenTag(StyleTags[k]), CloseTag(StyleTags[k]))
  {
    match FirstTagFrom(text, 0)
    case None => Failure(NoStyleTag)
    case Some(k) =>
      var tag := StyleTags[k];
      assert FirstTagAt(text, k);
      Success(Split(Unwrap(text, tag), OpenTag(tag), CloseTag(tag)))
  }

  /** A tag name: non-empty, free of `<`, and not beginning with `/`. */
  predicate PlainTag(tag: string) {
    |tag| > 0 && '<' !in tag && tag[0] != '/'
  }

  lemma StyleTagsPlain(tag: string)
    requires tag in StyleTags
    ensures PlainTag(tag)
  {
  }

  lemma TagMarkers(tag: string)
    requires PlainTag(tag)
    ensures Marker(OpenTag(tag), '<') && Marker(CloseTag(tag), '<')
  {
    assert OpenTag(tag)[1..] == tag + ">";
    assert CloseTag(tag)[1..] == "/" + tag + ">";
  }

  /** When every `<` of the line begins the chosen tag's opening or closing
      form, the stripped text holds no `<` at all, so in particular neither form. */
  lemma SplitLeavesNoMarkup(text: string)
    requires SplitTags(text).Success?
    requires OnlyBegins(text, '<', SplitTags(text).value.openTag, SplitTags(text).value.closeTag)
    ensures '<' !in SplitTags(text).value.stripped
    ensures !Contains(SplitTags(text).value.stripped, SplitTags(text).value.openTag)
    ensures !Contains(SplitTags(text).value.stripped, SplitTags(text).value.closeTag)
  {
    var s := SplitTags(text).value;
    var k :| FirstTagAt(text, k) && s == Split(Unwrap(text, StyleTags[k]), OpenTag(StyleTags[k]), CloseTag(StyleTags[k]));
    var tag := StyleTags[k];
    StyleTagsPlain(tag);
    TagMarkers(tag);
    RemoveAllKeepsOtherMarker(text, '<', OpenTag(tag), CloseTag(tag));
    RemoveAllClearsMarker(RemoveAll(text, OpenTag(tag)), '<', CloseTag(tag));
    AbsentMarkerNotContained(s.stripped, s.openTag);
    AbsentMarkerNotContained(s.stripped, s.closeTag);
  }

  /** No style tag's opening form is a prefix of another's. */
  lemma OpenTagsApart(j: nat, k: nat)
    requires j < |StyleTags| && k < |StyleTags| && j != k
    ensures !(OpenTag(StyleTags[j]) <= OpenTag(StyleTags[k]))
  {
    var initials := "ibues";
    assert forall m :: 0 <= m < |StyleTags| ==> StyleTags[m][0] == initials[m];
    assert OpenTag(StyleTags[j])[1] == initials[j];
    assert OpenTag(StyleTags[k])[1] == initials[k];
  }

  /** In a wrapped line `<tag>body</tag>` with no `<` in the body, a string
      beginning with `<` can only occur at the start or at the closing tag. */
  lemma {:induction false} ContainsInWrapped(tag: string, body: string, p: string)
    requires PlainTag(tag) && '<' !in body
    requires Marker(p, '<')
    ensures Contains(OpenTag(tag) + body + CloseTag(tag), p)
        <==> p <= OpenTag(tag) + body + CloseTag(tag) || p <= CloseTag(tag)
  {
    TagMarkers(tag);
    var text := OpenTag(tag) + body + CloseTag(tag);
    var c := CloseTag(tag);
    var x := tag + ">" + body;
    assert text[1..] == x + c;
    ContainsSkipsPrefix(x, c, p);
    assert c[1..] == "/" + tag + ">";
    AbsentMarkerNotContained(c[1..], p);
  }

  /** In a wrapped line `<tag>body</tag>` with no `<` in the body, the
      only style tag that opens is `tag`. */
  lemma WrappedOpens(tag: string, body: string, j: nat)
    requires tag in StyleTags && '<' !in body && j < |StyleTags|
    ensures Contains(OpenTag(tag) + body + CloseTag(tag), OpenTag(StyleTags[j])) <==> StyleTags[j] == tag
  {
    var o, c := OpenTag(tag), CloseTag(tag);
    var text := o + body + c;
    var p := OpenTag(StyleTags[j]);
    StyleTagsPlain(StyleTags[j]);
    TagMarkers(StyleTags[j]);
    StyleTagsPlain(tag);
    ContainsInWrapped(tag, body, p);
    assert p[1] != '/';
    assert !(p <= c);
    var t :| 0 <= t < |StyleTags| && StyleTags[t] == tag;
    if j != t {
      OpenTagsApart(j, t);
      OpenTagsApart(t, j);
      assert StyleTags[j] != tag by {
        assert StyleTags == ["i", "b", "u", "em", "strong"];
      }
    } else {
      assert o <= text;
    }
  }

  /** Unwrapping `<tag>body</tag>` of `tag` gives back the body. */
  lemma UnwrapWrapped(tag: string, body: string)
    requires PlainTag(tag) && '<' !in body
    ensures Unwrap(OpenTag(tag) + body + CloseTag(tag), tag) == body
  {
    var o, c := OpenTag(tag), CloseTag(tag);
    assert o + body + c == o + (body + c);
    RemoveAllAtFront(o, body + c);
    CloseTagSurvivesOpen(tag, body);
    TagMarkers(tag);
    RemoveAllSkipsPrefix(body, c, c);
    RemoveAllAtFront(c, []);
    assert c + [] == c;
    assert body + [] == body;
  }

  /** Splitting a line wrapped in one style tag gives back its body and the tag pair. */
  lemma SplitWrapped(tag: string, body: string)
    requires tag in StyleTags && '<' !in body
    ensures SplitTags(OpenTag(tag) + body + CloseTag(tag)) == Success(Split(body, OpenTag(tag), CloseTag(tag)))
  {
    var text := OpenTag(tag) + body + CloseTag(tag);
    forall j | 0 <= j < |StyleTags|
      ensures Contains(text, OpenTag(StyleTags[j])) <==> StyleTags[j] == tag
    {
      WrappedOpens(tag, body, j);
    }
    var r := SplitTags(text);
    var t :| 0 <= t < |StyleTags| && StyleTags[t] == tag;
    assert Contains(text, OpenTag(StyleTags[t]));
    var k :| FirstTagAt(text, k) && r.value == Split(Unwrap(text, StyleTags[k]), OpenTag(StyleTags[k]), CloseTag(StyleTags[k]));
    assert StyleTags[k] == tag;
    StyleTagsPlain(tag);
    UnwrapWrapped(tag, body);
  }

  /** In `<<t>t></t>` the only style tag that opens is `t`. */
  lemma SinglePassOpens(tag: string, j: nat)
    requires tag in StyleTags && j < |StyleTags|
    ensures Contains("<" + OpenTag(tag) + tag + ">" + CloseTag(tag), OpenTag(StyleTags[j])) <==> StyleTags[j] == tag
  {
    var o, c := OpenTag(tag), CloseTag(tag);
    var body := tag + ">";
    StyleTagsPlain(tag);
    TagMarkers(tag);
    var text := "<" + o + tag + ">" + c;
    assert text == "<" + (o + body + c);
    var p := OpenTag(StyleTags[j]);
    StyleTagsPlain(StyleTags[j]);
    TagMarkers(StyleTags[j]);
    assert !(p <= text) by { assert p[1] != text[1]; }
    assert text[1..] == o + body + c;
    WrappedOpens(tag, body, j);
  }

  /** Deleting `<t>` from `<<t>t></t>` leaves `<t></t>`. */
  lemma SinglePassFirst(tag: string)
    requires PlainTag(tag)
    ensures RemoveAll("<" + OpenTag(tag) + tag + ">" + CloseTag(tag), OpenTag(tag)) == OpenTag(tag) + CloseTag(tag)
  {
    var o, c := OpenTag(tag), CloseTag(tag);
    var body := tag + ">";
    var rest := body + c;
    var inner := o + rest;
    assert "<" + o + tag + ">" + c == ['<'] + inner;
    assert ['<'] + rest == o + c;
    TagMarkers(tag);
    assert RemoveAll(['<'] + inner, o) == ['<'] + RemoveAll(inner, o) by {
      assert o[1] != (['<'] + inner)[1];
      RemoveAllKeepsFront('<', inner, o);
    }
    assert RemoveAll(inner, o) == RemoveAll(rest, o) by {
      RemoveAllAtFront(o, rest);
    }
    CloseTagSurvivesOpen(tag, body);
  }

  /** Deleting the opening form leaves `body</t>` as it is when `body` has no `<`. */
  lemma CloseTagSurvivesOpen(tag: string, body: string)
    requires PlainTag(tag) && '<' !in body
    ensures RemoveAll(body + CloseTag(tag), OpenTag(tag)) == body + CloseTag(tag)
  {
    var o, c := OpenTag(tag), CloseTag(tag);
    TagMarkers(tag);
    RemoveAllSkipsPrefix(body, c, o);
    assert c[1..] == "/" + tag + ">";
    AbsentMarkerNotContained(c[1..], o);
    assert o[1] != c[1];
    RemoveAllKeepsFront('<', c[1..], o);
    assert [c[0]] + c[1..] == c;
  }

  /** Deleting `</t>` from `<t></t>` leaves `<t>`. */
  lemma SinglePassSecond(tag: string)
    requires PlainTag(tag)
    ensures RemoveAll(OpenTag(tag) + CloseTag(tag), CloseTag(tag)) == OpenTag(tag)
  {
    var o, c := OpenTag(tag), CloseTag(tag);
    var body := tag + ">";
    TagMarkers(tag);
    assert !(c <= o + c) by { assert c[1] != (o + c)[1]; }
    assert (o + c)[1..] == body + c;
    RemoveAllSkipsPrefix(body, c, c);
    assert RemoveAll(c, c) == [] by { assert c[|c|..] == []; }
    assert "<" + (body + []) == o;
  }

  /** Deletion is a single pass, so an opening tag split around another
      occurrence of itself comes back together: for every style tag `t`, the
      stripped text of `<<t>t></t>` is `<t>`, which still holds the tag. */
  lemma SplitIsSinglePass(tag: string)
    requires tag in StyleTags
    ensures SplitTags("<" + OpenTag(tag) + tag + ">" + CloseTag(tag)) == Success(Split(OpenTag(tag), OpenTag(tag), CloseTag(tag)))
    ensures Contains(SplitTags("<" + OpenTag(tag) + tag + ">" + CloseTag(tag)).value.stripped, OpenTag(tag))
  {
    var text := "<" + OpenTag(tag) + tag + ">" + CloseTag(tag);
    forall j | 0 <= j < |StyleTags|
      ensures Contains(text, OpenTag(StyleTags[j])) <==> StyleTags[j] == tag
    {
      SinglePassOpens(tag, j);
    }
    var t :| 0 <= t < |StyleTags| && StyleTags[t] == tag;
    assert Contains(text, OpenTag(StyleTags[t]));
    assert SplitTags(text).Success?;
    var k :| FirstTagAt(text, k) && SplitTags(text).value == Split(Unwrap(text, StyleTags[k]), OpenTag(StyleTags[k]), CloseTag(StyleTags[k]));
    assert StyleTags[k] == tag;
    StyleTagsPlain(tag);
    SinglePassFirst(tag);
    SinglePassSecond(tag);
    assert OpenTag(tag) <= OpenTag(tag);
  }

  /** In `<t>body</t>` an occurrence of `-->` can only lie inside the body:
      no style tag holds `-`, and the closing tag begins with `<`. */
  lemma WrappedTimingInBody(tag: string, body: string)
    requires tag in StyleTags
    ensures Contains(OpenTag(tag) + body + CloseTag(tag), "-->") ==> Contains(body, "-->")
  {
    var o, c := OpenTag(tag), CloseTag(tag);
    var line := o + body + c;
    assert '-' !in tag;
    assert '-' !in o && '-' !in c;
    ContainsOccurrence(line, "-->");
    ContainsOccurrence(body, "-->");
    if Contains(line, "-->") {
      var i :| StartsAt(line, i, "-->");
      assert "-->" == line[i..][..3];
      assert line[i] == '-' && line[i + 1] == '-' && line[i + 2] == '>';
      assert |o| <= i && i + 3 <= |o| + |body|;
      assert body[i - |o|..][..3] == line[i..][..3];
      assert StartsAt(body, i - |o|, "-->");
    }
  }
}
