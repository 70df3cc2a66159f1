/** The file-level pipeline: lines are right-stripped and numbered, each
    numbered line is translated, the results are sorted by their number and
    the texts projected back; writing appends a newline to every line. */
module Pipeline {
  import opened Wrappers
  import opened Text
  import opened Markup
  import opened LineTranslation
  import opened Lines

  /** Python's `list(zip(range(len(lines)), [line.rstrip() for line in lines]))`. */
  function NumberLines(raw: seq<string>): (r: seq<(int, string)>)
    ensures |r| == |raw|
    ensures NumberedFrom(r, 0)
    ensures forall k :: 0 <= k < |r| ==> r[k].1 == RStrip(raw[k])
  {
    seq(|raw|, k requires 0 <= k < |raw| => (k, RStrip(raw[k])))
  }

  /** Entry `k` of `xs` carries the number `base + k`. */
  predicate NumberedFrom<V>(xs: seq<(int, V)>, base: int) {
    forall k :: 0 <= k < |xs| ==> xs[k].0 == base + k
  }

  predicate SortedByNumber<V>(xs: seq<(int, V)>) {
    forall i, j :: 0 <= i < j < |xs| ==> xs[i].0 <= xs[j].0
  }

  /** Inserts `x` into a sorted sequence, after every entry with a smaller
      number and before the rest. */
  function InsertByNumber<V>(x: (int, V), xs: seq<(int, V)>): (r: seq<(int, V)>)
    requires SortedByNumber(xs)
    ensures SortedByNumber(r)
    ensures multiset(r) == multiset(xs) + multiset{x}
  {
    if |xs| == 0 then [x]
    else if x.0 <= xs[0].0 then [x] + xs
    else
      var rest := InsertByNumber(x, xs[1..]);
      assert xs == [xs[0]] + xs[1..];
      assert forall k :: 0 <= k < |rest| ==> xs[0].0 <= rest[k].0 by {
        forall k | 0 <= k < |rest|
          ensures xs[0].0 <= rest[k].0
        {
          assert rest[k] in multiset(rest);
          if rest[k] != x {
            assert rest[k] in multiset(xs[1..]);
            assert rest[k] in xs[1..];
          }
        }
      }
      PrependSorted(xs[0], rest);
      [xs[0]] + rest
  }

  lemma PrependSorted<V>(a: (int, V), rest: seq<(int, V)>)
    requires SortedByNumber(rest)
    requires forall k :: 0 <= k < |rest| ==> a.0 <= rest[k].0
    ensures SortedByNumber([a] + rest)
  {
    var r := [a] + rest;
    forall i, j | 0 <= i < j < |r|
      ensures r[i].0 <= r[j].0
    {
      if i > 0 {
        assert r[i] == rest[i - 1] && r[j] == rest[j - 1];
      } else {
        assert r[j] == rest[j - 1];
      }
    }
  }

  /** Python's `sorted(results, key=lambda x: x[0])`, as an insertion sort. */
  function SortByNumber<V>(xs: seq<(int, V)>): (r: seq<(int, V)>)
    ensures SortedByNumber(r)
    ensures multiset(r) == multiset(xs)
  {
    if |xs| == 0 then []
    else
      assert xs == [xs[0]] + xs[1..];
      InsertByNumber(xs[0], SortByNumber(xs[1..]))
  }

  /** The first entry of a sorted rearrangement of a consecutively numbered
      sequence is the entry with the smallest number. */
  lemma SortedRearrangementHead<V>(r: seq<(int, V)>, xs: seq<(int, V)>, base: int)
    requires NumberedFrom(xs, base) && |xs| > 0
    requires SortedByNumber(r) && multiset(r) == multiset(xs)
    ensures |r| == |xs| && r[0] == xs[0]
  {
    assert |r| == |multiset(r)| == |multiset(xs)| == |xs|;
    assert r[0] in multiset(xs);
    var j :| 0 <= j < |xs| && xs[j] == r[0];
    assert xs[0] in multiset(r);
    var i :| 0 <= i < |r| && r[i] == xs[0];
    assert r[0].0 <= r[i].0;
  }

  /** Rearrangements that agree on their first entry agree on the rest. */
  lemma RearrangementTail<T>(r: seq<T>, xs: seq<T>)
    requires |r| > 0 && |xs| > 0 && r[0] == xs[0]
    requires multiset(r) == multiset(xs)
    ensures multiset(r[1..]) == multiset(xs[1..])
  {
    assert r == [r[0]] + r[1..];
    assert xs == [xs[0]] + xs[1..];
    var a, b := multiset(r[1..]), multiset(xs[1..]);
    assert multiset{r[0]} + a == multiset{r[0]} + b;
    assert a == multiset{r[0]} + a - multiset{r[0]};
    assert b == multiset{r[0]} + b - multiset{r[0]};
  }

  /** A sorted rearrangement of a consecutively numbered sequence is that
      sequence: numbering fixes every entry's place. */
  lemma {:induction false} SortedRearrangementUnique<V>(r: seq<(int, V)>, xs: seq<(int, V)>, base: int)
    requires NumberedFrom(xs, base)
    requires SortedByNumber(r) && multiset(r) == multiset(xs)
    ensures r == xs
    decreases |xs|
  {
    if |xs| == 0 {
      assert |r| == |multiset(r)| == 0;
    } else {
      SortedRearrangementHead(r, xs, base);
      RearrangementTail(r, xs);
      assert NumberedFrom(xs[1..], base + 1);
      assert SortedByNumber(r[1..]);
      SortedRearrangementUnique(r[1..], xs[1..], base + 1);
      assert r == [r[0]] + r[1..];
      assert xs == [xs[0]] + xs[1..];
    }
  }

  /** The worker step over every numbered line, in input order as
      `executor.map` delivers it; any line that raises makes the whole map raise. */
  function TranslateNumbered(translate: string -> string, pairs: seq<(int, string)>): (r: Result<seq<(int, string)>, SplitError>)
    ensures r.Success? <==> forall k :: 0 <= k < |pairs| ==> TranslateLine(translate, pairs[k].1).Success?
    ensures r.Success? ==> |r.value| == |pairs|
    ensures r.Success? ==> forall k :: 0 <= k < |pairs| ==>
      r.value[k] == (pairs[k].0, TranslateLine(translate, pairs[k].1).value)
  {
    if |pairs| == 0 then Success([])
    else
      match TranslateLine(translate, pairs[0].1)
      case Failure(e) => Failure(e)
      case Success(line) =>
        match TranslateNumbered(translate, pairs[1..])
        case Failure(e) => Failure(e)
        case Success(rest) => Success([(pairs[0].0, line)] + rest)
  }

  /** The texts of numbered entries, in order. */
  function Texts<V>(xs: seq<(int, V)>): (r: seq<V>)
    ensures |r| == |xs|
    ensures forall k :: 0 <= k < |xs| ==> r[k] == xs[k].1
  {
    seq(|xs|, k requires 0 <= k < |xs| => xs[k].1)
  }

  /** Translating numbered lines: map, sort the results by number, project the texts. */
  function TranslateIndexedLines(translate: string -> string, pairs: seq<(int, string)>): Result<seq<string>, SplitError> {
    match TranslateNumbered(translate, pairs)
    case Failure(e) => Failure(e)
    case Success(results) => Success(Texts(SortByNumber(results)))
  }

  /** Translating the lines of a file as read (`readlines` output). */
  function TranslateLines(translate: string -> string, raw: seq<string>): Result<seq<string>, SplitError> {
    TranslateIndexedLines(translate, NumberLines(raw))
  }

  /** Sorting the results, in whatever order they arrive, puts each one back
      at the place of the line it came from. */
  lemma ArrivalOrderIrrelevant(translate: string -> string, pairs: seq<(int, string)>, arrived: seq<(int, string)>)
    requires NumberedFrom(pairs, 0)
    requires TranslateNumbered(translate, pairs).Success?
    requires multiset(arrived) == multiset(TranslateNumbered(translate, pairs).value)
    ensures SortByNumber(arrived) == TranslateNumbered(translate, pairs).value
    ensures Texts(SortByNumber(arrived)) == TranslateIndexedLines(translate, pairs).value
  {
    var results := TranslateNumbered(translate, pairs).value;
    assert NumberedFrom(results, 0);
    SortedRearrangementUnique(SortByNumber(arrived), results, 0);
    SortedRearrangementUnique(SortByNumber(results), results, 0);
  }

  /** The numbered pipeline keeps length and order: entry `k` of the result is
      line `k` translated; it raises exactly when some line does. */
  lemma TranslateIndexedLinesKeepsOrder(translate: string -> string, pairs: seq<(int, string)>)
    requires NumberedFrom(pairs, 0)
    ensures TranslateIndexedLines(translate, pairs).Success?
        <==> forall k :: 0 <= k < |pairs| ==> TranslateLine(translate, pairs[k].1).Success?
    ensures TranslateIndexedLines(translate, pairs).Success? ==>
      && |TranslateIndexedLines(translate, pairs).value| == |pairs|
      && forall k :: 0 <= k < |pairs| ==>
           TranslateIndexedLines(translate, pairs).value[k] == TranslateLine(translate, pairs[k].1).value
  {
    var m := TranslateNumbered(translate, pairs);
    if m.Success? {
      ArrivalOrderIrrelevant(translate, pairs, m.value);
    }
  }

  /** Over a file's lines: the output has one line per input line, and line
      `k` is the translation of input line `k` with trailing whitespace removed. */
  lemma TranslateLinesPositionwise(translate: string -> string, raw: seq<string>)
    ensures TranslateLines(translate, raw).Success?
        <==> forall k :: 0 <= k < |raw| ==> TranslateLine(translate, RStrip(raw[k])).Success?
    ensures TranslateLines(translate, raw).Success? ==>
      && |TranslateLines(translate, raw).value| == |raw|
      && forall k :: 0 <= k < |raw| ==>
           TranslateLines(translate, raw).value[k] == TranslateLine(translate, RStrip(raw[k])).value
  {
    TranslateIndexedLinesKeepsOrder(translate, NumberLines(raw));
  }

  /** A file written from `lines` (none holding a newline) reads back, once
      numbered and right-stripped, as those lines right-stripped in order. */
  lemma RereadWritten(lines: seq<string>)
    requires forall k :: 0 <= k < |lines| ==> '\n' !in lines[k]
    ensures |NumberLines(ReadLines(Serialize(lines)))| == |lines|
    ensures forall k :: 0 <= k < |lines| ==> NumberLines(ReadLines(Serialize(lines)))[k] == (k, RStrip(lines[k]))
  {
    ReadWritten(lines);
    forall k | 0 <= k < |lines|
      ensures RStrip(lines[k] + "\n") == RStrip(lines[k])
    {
      assert (lines[k] + "\n")[..|lines[k]|] == lines[k];
    }
  }
}
