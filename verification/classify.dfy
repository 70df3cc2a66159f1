/** Deciding whether a subtitle line is human text to translate or one of
    the structural lines of the SubRip format: blank separators, cue index
    numbers and `-->` timing lines. */
module Classify {
  import opened Text

  /** The classifier of the translator: blank lines, lines that are a number
      once spaces are dropped, and lines holding `-->` are not translated;
      every other line is. */
  predicate NeedsTranslate(line: string) {
    if Strip(line) == [] then false
    else if IsDigits(RemoveAll(line, " ")) then false
    else if Contains(line, "-->") then false
    else true
  }

  /** A cue index: some character other than a space, and every such character a digit. */
  ghost predicate IsIndexLine(line: string) {
    && (exists i :: 0 <= i < |line| && line[i] != ' ')
    && (forall i :: 0 <= i < |line| && line[i] != ' ' ==> IsDigit(line[i]))
  }

  /** A timing line: `-->` occurs in it. */
  ghost predicate IsTimingLine(line: string) {
    exists i :: StartsAt(line, i, "-->")
  }

  /** Dropping the spaces leaves a digit string exactly for a cue index. */
  lemma DigitsOnceSpacesDropped(line: string)
    ensures IsDigits(RemoveAll(line, " ")) <==> IsIndexLine(line)
  {
    var r := RemoveAll(line, " ");
    forall x
      ensures x in r <==> x in line && x != ' '
    {
      RemoveCharMembers(line, ' ', x);
    }
    if IsDigits(r) {
      assert r[0] in r;
      forall i | 0 <= i < |line| && line[i] != ' '
        ensures IsDigit(line[i])
      {
        assert line[i] in r;
      }
    }
    if IsIndexLine(line) {
      var i :| 0 <= i < |line| && line[i] != ' ';
      assert line[i] in r;
      forall k | 0 <= k < |r|
        ensures IsDigit(r[k])
      {
        assert r[k] in r;
      }
    }
  }

  /** A blank line, whitespace only or empty, is not translated. */
  lemma BlankLineKept(line: string)
    requires AllSpace(line)
    ensures !NeedsTranslate(line)
  {
  }

  /** A cue index line is not translated. */
  lemma IndexLineKept(line: string)
    requires IsIndexLine(line)
    ensures !NeedsTranslate(line)
  {
    DigitsOnceSpacesDropped(line);
  }

  /** A timing line is not translated. */
  lemma TimingLineKept(line: string)
    requires IsTimingLine(line)
    ensures !NeedsTranslate(line)
  {
    ContainsOccurrence(line, "-->");
  }

  /** The classification in both directions: a line is translated exactly
      when it is neither blank, nor a cue index, nor a timing line. */
  lemma NeedsTranslateExactly(line: string)
    ensures NeedsTranslate(line) <==> !AllSpace(line) && !IsIndexLine(line) && !IsTimingLine(line)
  {
    DigitsOnceSpacesDropped(line);
    ContainsOccurrence(line, "-->");
  }
}
