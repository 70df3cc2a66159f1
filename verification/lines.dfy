/** The pure side of reading and writing a subtitle file: cutting the text
    into lines as `readlines` does, and writing each line followed by a newline. */
module Lines {

  /** The text `writelines([line + '\n' for line in lines])` writes. */
  function Serialize(lines: seq<string>): (r: string)
    ensures |lines| > 0 ==> |r| > 0 && r[|r| - 1] == '\n'
  {
    if |lines| == 0 then [] else lines[0] + "\n" + Serialize(lines[1..])
  }

  /** The lines laid end to end. */
  function Concat(lines: seq<string>): string {
    if |lines| == 0 then [] else lines[0] + Concat(lines[1..])
  }

  /** The length of the first line of `text`, its newline included. */
  function FirstLineLength(text: string): (n: nat)
    requires |text| > 0
    ensures 0 < n <= |text|
    ensures '\n' !in text[..n - 1]
    ensures n == |text| || text[n - 1] == '\n'
    decreases |text|
  {
    if text[0] == '\n' || |text| == 1 then 1
    else
      var m := FirstLineLength(text[1..]);
      assert text[..m] == [text[0]] + text[1..][..m - 1];
      1 + m
  }

  /** `readlines()`: the text cut after every newline; a last line without
      one is kept. Each line is non-empty, holds no newline but possibly its
      last character, and every line but the last ends in one. */
  function ReadLines(text: string): (r: seq<string>)
    ensures forall k :: 0 <= k < |r| ==> |r[k]| > 0 && '\n' !in r[k][..|r[k]| - 1]
    ensures forall k :: 0 <= k < |r| - 1 ==> r[k][|r[k]| - 1] == '\n'
    decreases |text|
  {
    if |text| == 0 then []
    else
      var n := FirstLineLength(text);
      var rest := ReadLines(text[n..]);
      assert n < |text| ==> |rest| > 0;
      [text[..n]] + rest
  }

  /** Cutting into lines loses nothing: laid end to end they are the text again. */
  lemma {:induction false} ReadLinesPartitions(text: string)
    ensures Concat(ReadLines(text)) == text
    decreases |text|
  {
    if |text| > 0 {
      var n := FirstLineLength(text);
      ReadLinesPartitions(text[n..]);
      assert ReadLines(text)[1..] == ReadLines(text[n..]);
      assert text == text[..n] + text[n..];
    }
  }

  lemma {:induction false} FirstLineOfWritten(w: string, t: string)
    requires '\n' !in w
    ensures FirstLineLength(w + "\n" + t) == |w| + 1
    decreases |w|
  {
    if |w| > 0 {
      assert (w + "\n" + t)[1..] == w[1..] + "\n" + t;
      assert w[0] in w;
      FirstLineOfWritten(w[1..], t);
    }
  }

  /** Reading back what was written gives each line with its newline,
      provided no line held a newline of its own. */
  lemma {:induction false} ReadWritten(lines: seq<string>)
    requires forall k :: 0 <= k < |lines| ==> '\n' !in lines[k]
    ensures |ReadLines(Serialize(lines))| == |lines|
    ensures forall k :: 0 <= k < |lines| ==> ReadLines(Serialize(lines))[k] == lines[k] + "\n"
    decreases |lines|
  {
    if |lines| > 0 {
      var text := Serialize(lines);
      var w := lines[0];
      FirstLineOfWritten(w, Serialize(lines[1..]));
      assert text[..|w| + 1] == w + "\n";
      assert text[|w| + 1..] == Serialize(lines[1..]);
      ReadWritten(lines[1..]);
      var r := ReadLines(text);
      assert r == [w + "\n"] + ReadLines(Serialize(lines[1..]));
      forall k | 0 < k < |lines|
        ensures r[k] == lines[k] + "\n"
      {
        assert lines[1..][k - 1] == lines[k];
      }
    }
  }
}
