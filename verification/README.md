# SRT subtitle translator — a Dafny model of its line logic

The translator reads a SubRip (`.srt`) file. It translates the human-readable
lines through a machine-translation service. It leaves the structural lines
alone: blank separators, cue index numbers and `-->` timing lines. Only a
translatable line that contains `</` goes through the markup splitter; any
other translatable line, an opening tag included, is sent whole. The splitter
picks the first of `<i>`, `<b>`, `<u>`, `<em>`, `<strong>` that opens in the
line, deletes that tag's forms and sends the rest. The translation is then
wrapped in that tag pair as a whole, so a tag in mid-line moves to the ends
(`He said <i>hola</i>` becomes `<i>` + translation of `He said hola` + `</i>`).
A line holding `</` but none of those opening tags raises an error. So does
the second half of a cue whose italics span two lines (`line two</i>`), and
the error ends the whole run.
Lines are translated concurrently. The results are sorted by their original
line number before the file is written.

This project models that logic as pure functions over Dafny strings and proves
what it promises:

- `Text` holds the Python `str` operations the code relies on:
  - `isspace` (the exact set of code points Python treats as whitespace);
  - `strip` and `rstrip`;
  - `in` on strings (`Contains`), with its partner `StartsAt`, which names an occurrence by position;
  - `replace(p, '')` (`RemoveAll`): one left-to-right pass of deletions that do not overlap.
- `Classify` is `_line_needs_translate`. It is proved equal, in both
  directions, to an independent description: not blank, not a cue index, not a timing line.
- `Markup` is `_html_tag_splitter`. It fails when no style tag opens. Otherwise
  it picks the first tag in list order. It makes one `replace` pass for the
  opening form, then one for the closing form. Each pass deletes the occurrences
  it meets from left to right. Text that closes up around a deletion can form a
  new tag, and that tag survives (`Markup.SplitIsSinglePass`).
- `LineTranslation` is `_translate_line`. The translation service is a
  function parameter `translate: string -> string`. `TranslatorQuery` names the one
  text the service is asked about, if any. The splitter's `ValueError` is the `Failure` of a `Result`.
- `Pipeline` is the numbering in `_read_file_to_indexed_lines`, the
  worker step and `_translate_indexed_lines`. The thread pool becomes a sequential
  map, followed by an insertion sort on the line number.
  `ArrivalOrderIrrelevant` proves the outcome is the same in whatever order the
  results arrive. (`executor.map` already yields them in input order, so the
  sort is a safeguard, not a necessity.)
- `Lines` is the pure side of file I/O: `readlines` cutting text after each
  newline, and the writer appending `\n` to every line.

## Model

| member | source | states |
|---|---|---|
| Text.ContainsOccurrence | srt_translator.py:28 | Python's `p in s` holds exactly when some position of `s` begins an occurrence of `p` |
| Text.RemoveAllChangesIffContains | srt_translator.py:40 | `replace(p, '')` changes the string if and only if `p` occurs in it |
| Text.RemoveCharMembers | srt_translator.py:25 | removing all spaces keeps exactly the characters that are not spaces |
| Text.RemoveAllKeepsOtherMarker | srt_translator.py:40 | if every `<` of a line begins the opening or the closing form, then after deleting the opening forms every remaining `<` begins a closing form |
| Text.RemoveAllClearsMarker | srt_translator.py:40 | if every `<` begins the closing form, deleting the closing forms leaves no `<` |
| Text.RStrip | srt_translator.py:49 | the result is a prefix of the line; everything cut off is whitespace; the result does not end in whitespace |
| Text.Strip | srt_translator.py:22 | `strip()` is empty exactly when the line is all whitespace (or empty); a non-empty result begins and ends with non-whitespace |
| Classify.DigitsOnceSpacesDropped | srt_translator.py:25 | with spaces removed the line passes `isdigit` iff it has a non-space character and every non-space character is a digit |
| Classify.BlankLineKept | srt_translator.py:22-23 | an empty or whitespace-only line is not translated |
| Classify.IndexLineKept | srt_translator.py:25-26 | a cue index line (digits and spaces, at least one digit) is not translated |
| Classify.TimingLineKept | srt_translator.py:28-29 | a line with `-->` anywhere in it is not translated |
| Classify.NeedsTranslateExactly | srt_translator.py:20-31 | a line is translated if and only if it is not blank, not a cue index and holds no `-->` |
| Markup.FirstTagFrom | srt_translator.py:37-39 | the chosen tag's opening form occurs in the text and no earlier tag's does; no tag is chosen only when none occurs |
| Markup.SplitTags | srt_translator.py:34-42 | fails iff none of `<i>`, `<b>`, `<u>`, `<em>`, `<strong>` occurs; otherwise returns the first such tag's pair and the text with that tag's opening and then closing forms deleted |
| Markup.SplitLeavesNoMarkup | srt_translator.py:40-41 | if every `<` of the line begins the chosen tag's opening or closing form, the stripped text has no `<`, and so neither form |
| Markup.OpenTagsApart | srt_translator.py:37 | no style tag's opening form is a prefix of another's, so at most one of them can begin at a position |
| Markup.SplitWrapped | srt_translator.py:37-41 | splitting `<t>body</t>` whose body has no `<` returns exactly `body`, `<t>` and `</t>` |
| Markup.SplitIsSinglePass | srt_translator.py:40 | for each style tag `t`, the stripped text of `<<t>t></t>` is `<t>`: the single pass of deletions can leave a tag in the stripped text |
| LineTranslation.TranslateLine | srt_translator.py:71-83 | a non-translated line comes back as it is; a plain line becomes `translate(line)`; the call fails iff the line is translated, has `</` and the splitter fails; a styled line becomes opening tag + translated stripped text + closing tag |
| LineTranslation.TranslatorConsultedOnlyOnQuery | srt_translator.py:72-80 | the result depends on the service only through its answer on the one query text; structural lines and lines whose split fails make no query |
| LineTranslation.StructuralLineUnchanged | srt_translator.py:72-73 | blank, index and timing lines come back unchanged, whatever the service does, and no query is made |
| LineTranslation.PlainLineTranslatedWhole | srt_translator.py:79-80 | a translatable line without `</` (an opening tag or a lone `<` included) is sent whole and replaced by the service's answer |
| LineTranslation.WrappedLineRewrapped | srt_translator.py:75-78 | a `<t>body</t>` line, for any style tag `t` and any body without `<` or `-->`, is translated: it sends `body` and becomes `<t>` + translation of body + `</t>` |
| LineTranslation.UnknownMarkupFails | srt_translator.py:75-76 | a translatable line with `</` where no style tag opens fails with the splitter's error |
| Pipeline.NumberLines | srt_translator.py:49-50 | entry `k` is the pair of `k` and line `k` right-stripped, one entry per line |
| Pipeline.SortByNumber | srt_translator.py:94 | the result is ordered by line number and is a rearrangement of its input (same multiset) |
| Pipeline.SortedRearrangementUnique | srt_translator.py:94 | a sorted rearrangement of entries numbered consecutively is those entries in their original order |
| Pipeline.TranslateNumbered | srt_translator.py:85-93 | succeeds iff every line translates; entry `k` then keeps number `k`'s place and holds that line's translation |
| Pipeline.ArrivalOrderIrrelevant | srt_translator.py:93-95 | whatever the order in which the worker results are gathered, sorting by number and projecting gives the same list |
| Pipeline.TranslateIndexedLinesKeepsOrder | srt_translator.py:91-96 | the output has one entry per numbered line; entry `k` is line `k` translated; it fails iff some line fails |
| Pipeline.TranslateLinesPositionwise | srt_translator.py:100-103 | over the lines of a file: output line `k` is input line `k`, right-stripped and translated; lengths agree |
| Pipeline.RereadWritten | srt_translator.py:48-50 | a file written from newline-free lines, read and numbered again, gives those lines right-stripped in order |
| Lines.ReadLines | srt_translator.py:48 | each line is non-empty; only its last character may be a newline; every line but the last ends in one |
| Lines.ReadLinesPartitions | srt_translator.py:48 | the lines laid end to end are the text again |
| Lines.ReadWritten | srt_translator.py:61 | reading back what the writer wrote gives each line followed by its newline, provided no line held a newline |
| Lines.Serialize | srt_translator.py:61 | the written text of a non-empty list of lines ends in a newline |

## Left out

- File opening, reading, writing and their printed error handling are left out. If reading fails, `_read_file_to_indexed_lines` returns `None` and `translate_file` then crashes on `len(None)`. Only the pure text steps are modelled.
- The translation client (`deepl.Translator`, `_translator`) is a remote call. It is the parameter `translate`, a total function, so service errors, quotas and network failures are not modelled.
- The thread pool and `max_workers` only affect throughput. The map is sequential; `ArrivalOrderIrrelevant` covers any completion order.
- The progress bar, `print_result` logging, the `is_translating` / `line_count` bookkeeping, `main`, and the `KEY` / `LANG` constants are left out. They carry no behaviour.
- Text.IsDigit: only the ASCII digits `0`–`9`. Python's `isdigit` also accepts other Unicode digits, such as superscripts and Arabic-Indic digits.
- Lines.ReadLines: models files with `\n` line ends. Text-mode translation of `\r\n` and lone `\r` is not modelled. A `\r` before `\n` is removed by `rstrip` either way.
- Markup.SplitLeavesNoMarkup: weaker than "the stripped text contains neither form of the tag". It holds only for lines whose every `<` begins the chosen tag. Without that condition the claim is false for the code as written: `Markup.SplitIsSinglePass` exhibits a line where the single pass of `replace` re-forms a tag.
- Pipeline.TranslateNumbered: when several lines fail, `executor.map` re-raises the first failure in input order. All failures are the same `NoStyleTag`, so which line failed is not recorded.
- Pipeline.SortByNumber: it is a stable insertion sort, like Python's `sorted`, but stability is not proved. Line numbers are distinct here, so it cannot matter.
