/** The handful of Python `str` operations the subtitle translator relies on,
    over Dafny strings (sequences of Unicode scalar values). */
module Text {

  /** Python's `str.isspace()` for one character: the code points with
      bidirectional class WS, B or S, or general category Zs. */
  predicate IsSpace(c: char) {
    || ('\t' <= c <= '\r')
    || ('\U{1C}' <= c <= '\U{1F}')
    || c == ' '
    || c == '\U{85}'
    || c == '\U{A0}'
    || c == '\U{1680}'
    || ('\U{2000}' <= c <= '\U{200A}')
    || c == '\U{2028}'
    || c == '\U{2029}'
    || c == '\U{202F}'
    || c == '\U{205F}'
    || c == '\U{3000}'
  }

  /** A decimal digit (ASCII only; see README). */
  predicate IsDigit(c: char) {
    '0' <= c <= '9'
  }

  /** Every character of `s` is whitespace (vacuously so for the empty string). */
  predicate AllSpace(s: string) {
    forall i :: 0 <= i < |s| ==> IsSpace(s[i])
  }

  /** Python's `s.isdigit()`: `s` is non-empty and made of digits only. */
  predicate IsDigits(s: string) {
    |s| > 0 && forall i :: 0 <= i < |s| ==> IsDigit(s[i])
  }

  /** `p` occurs in `s` beginning at position `i`. */
  predicate StartsAt(s: string, i: int, p: string) {
    0 <= i <= |s| && p <= s[i..]
  }

  lemma StartsAtTail(s: string, i: nat, p: string)
    requires 0 < |s|
    ensures StartsAt(s, i + 1, p) <==> StartsAt(s[1..], i, p)
  {
    if i + 1 <= |s| {
      assert s[1..][i..] == s[i + 1..];
    }
  }

  /** Python's `p in s`: `p` occurs somewhere in `s`. */
  predicate Contains(s: string, p: string)
    decreases |s|
  {
    p <= s || (|s| > 0 && Contains(s[1..], p))
  }

  /** `Contains` finds exactly the occurrences `StartsAt` describes. */
  lemma {:induction false} ContainsOccurrence(s: string, p: string)
    ensures Contains(s, p) <==> exists i :: StartsAt(s, i, p)
    decreases |s|
  {
    if p <= s {
      assert s[0..] == s;
      assert StartsAt(s, 0, p);
    } else if |s| > 0 {
      ContainsOccurrence(s[1..], p);
      forall i | StartsAt(s, i, p)
        ensures i > 0 && StartsAt(s[1..], i - 1, p)
      {
        assert s[0..] == s;
        StartsAtTail(s, i - 1, p);
      }
      forall i: nat | StartsAt(s[1..], i, p)
        ensures StartsAt(s, i + 1, p)
      {
        StartsAtTail(s, i, p);
      }
    } else {
      assert forall i :: StartsAt(s, i, p) ==> i == 0;
    }
  }

  /** Python's `s.replace(p, '')`: the occurrences of `p` met scanning `s`
      from left to right, each search resuming after the previous match,
      are deleted. A single pass: deleting may bring a new occurrence together. */
  function RemoveAll(s: string, p: string): (r: string)
    requires |p| > 0
    ensures |r| <= |s|
    decreases |s|
  {
    if |s| == 0 then []
    else if p <= s then RemoveAll(s[|p|..], p)
    else [s[0]] + RemoveAll(s[1..], p)
  }

  /** Deleting changes the string exactly when the pattern occurs in it. */
  lemma {:induction false} RemoveAllChangesIffContains(s: string, p: string)
    requires |p| > 0
    ensures RemoveAll(s, p) == s <==> !Contains(s, p)
    decreases |s|
  {
    if |s| > 0 && !(p <= s) {
      RemoveAllChangesIffContains(s[1..], p);
      assert s == [s[0]] + s[1..];
    }
  }

  /** Python's `s.rstrip()`: trailing whitespace removed. */
  function RStrip(s: string): (r: string)
    ensures r <= s
    ensures AllSpace(s[|r|..])
    ensures r == [] || !IsSpace(r[|r| - 1])
    decreases |s|
  {
    if |s| > 0 && IsSpace(s[|s| - 1]) then RStrip(s[..|s| - 1]) else s
  }

  /** Python's `s.lstrip()`: leading whitespace removed. */
  function LStrip(s: string): (r: string)
    ensures |r| <= |s| && r == s[|s| - |r|..]
    ensures AllSpace(s[..|s| - |r|])
    ensures r == [] || !IsSpace(r[0])
    decreases |s|
  {
    if |s| > 0 && IsSpace(s[0]) then
      var r := LStrip(s[1..]);
      assert s[1..][|s| - 1 - |r|..] == s[|s| - |r|..];
      assert s[..|s| - |r|] == [s[0]] + s[1..][..|s| - 1 - |r|];
      r
    else s
  }

  /** Python's `s.strip()`: whitespace removed at both ends. */
  function Strip(s: string): (r: string)
    ensures r == [] <==> AllSpace(s)
    ensures r != [] ==> !IsSpace(r[0]) && !IsSpace(r[|r| - 1])
  {
    LStrip(RStrip(s))
  }

  /** Deleting a one-character pattern keeps exactly the other characters. */
  lemma {:induction false} RemoveCharMembers(s: string, c: char, x: char)
    ensures x in RemoveAll(s, [c]) <==> x in s && x != c
    decreases |s|
  {
    if |s| > 0 {
      RemoveCharMembers(s[1..], c, x);
      assert s == [s[0]] + s[1..];
    }
  }

  /** Deleting an occurrence at the front. */
  lemma RemoveAllAtFront(p: string, t: string)
    requires |p| > 0
    ensures RemoveAll(p + t, p) == RemoveAll(t, p)
  {
    assert p <= p + t;
    assert (p + t)[|p|..] == t;
  }

  /** Keeping a first character that does not begin an occurrence. */
  lemma RemoveAllKeepsFront(c: char, t: string, p: string)
    requires |p| > 0 && !(p <= [c] + t)
    ensures RemoveAll([c] + t, p) == [c] + RemoveAll(t, p)
  {
    assert ([c] + t)[1..] == t;
  }

  /** A prefix `w` in which `p` cannot begin is left as it is. */
  lemma {:induction false} RemoveAllSkipsPrefix(w: string, t: string, p: string)
    requires |p| > 0 && p[0] !in w
    ensures RemoveAll(w + t, p) == w + RemoveAll(t, p)
    decreases |w|
  {
    if |w| > 0 {
      var s := w + t;
      assert s[0] == w[0] != p[0];
      assert !(p <= s);
      assert s[1..] == w[1..] + t;
      assert RemoveAll(s, p) == [w[0]] + RemoveAll(w[1..] + t, p);
      RemoveAllSkipsPrefix(w[1..], t, p);
      assert w == [w[0]] + w[1..];
    } else {
      assert w + t == t;
    }
  }

  /** Nor can `p` be found there. */
  lemma {:induction false} ContainsSkipsPrefix(w: string, t: string, p: string)
    requires |p| > 0 && p[0] !in w
    ensures Contains(w + t, p) == Contains(t, p)
    decreases |w|
  {
    if |w| > 0 {
      assert (w + t)[0] == w[0];
      assert (w + t)[1..] == w[1..] + t;
      ContainsSkipsPrefix(w[1..], t, p);
    } else {
      assert w + t == t;
    }
  }

  /** A string without the first character of `p` does not contain `p`. */
  lemma AbsentMarkerNotContained(s: string, p: string)
    requires |p| > 0 && p[0] !in s
    ensures !Contains(s, p)
    ensures RemoveAll(s, p) == s
  {
    ContainsSkipsPrefix(s, [], p);
    assert s + [] == s;
    RemoveAllChangesIffContains(s, p);
  }

  /** `p` begins with `c` and `c` occurs nowhere else in it (as `<` in `<i>`). */
  predicate Marker(p: string, c: char) {
    |p| > 0 && p[0] == c && c !in p[1..]
  }

  /** Every occurrence of `c` in `s` begins an occurrence of `p` or of `q`. */
  ghost predicate OnlyBegins(s: string, c: char, p: string, q: string) {
    forall i :: 0 <= i < |s| && s[i] == c ==> StartsAt(s, i, p) || StartsAt(s, i, q)
  }

  lemma OnlyBeginsTail(s: string, c: char, p: string, q: string, n: nat)
    requires n <= |s| && OnlyBegins(s, c, p, q)
    ensures OnlyBegins(s[n..], c, p, q)
  {
    forall i | 0 <= i < |s[n..]| && s[n..][i] == c
      ensures StartsAt(s[n..], i, p) || StartsAt(s[n..], i, q)
    {
      assert s[n..][i..] == s[n + i..];
    }
  }

  /** When every `c` of `s` begins `p` or `q`, deleting the `p`s leaves a
      string in which every `c` begins `q`. */
  lemma {:induction false} RemoveAllKeepsOtherMarker(s: string, c: char, p: string, q: string)
    requires Marker(p, c) && Marker(q, c)
    requires OnlyBegins(s, c, p, q)
    ensures OnlyBegins(RemoveAll(s, p), c, q, q)
    decreases |s|
  {
    if |s| == 0 {
    } else if p <= s {
      forall j | 1 <= j < |p|
        ensures s[j] != c
      {
        assert s[j] == p[1..][j - 1];
      }
      forall i | 0 <= i < |s[|p|..]| && s[|p|..][i] == c
        ensures StartsAt(s[|p|..], i, p) || StartsAt(s[|p|..], i, q)
      {
        assert s[|p|..][i..] == s[|p| + i..];
      }
      RemoveAllKeepsOtherMarker(s[|p|..], c, p, q);
    } else {
      OnlyBeginsTail(s, c, p, q, 1);
      RemoveAllKeepsOtherMarker(s[1..], c, p, q);
      var rest := RemoveAll(s[1..], p);
      var r := [s[0]] + rest;
      assert r == RemoveAll(s, p);
      if s[0] == c {
        assert s[0..] == s;
        assert q <= s;
        var w := q[1..];
        assert s[1..] == w + s[|q|..];
        RemoveAllSkipsPrefix(w, s[|q|..], p);
        assert r == [c] + w + RemoveAll(s[|q|..], p);
        assert q == [c] + w;
        assert StartsAt(r, 0, q);
      }
      forall i | 0 <= i < |r| && r[i] == c
        ensures StartsAt(r, i, q)
      {
        if i > 0 {
          assert rest[i - 1] == c;
          assert StartsAt(rest, i - 1, q);
          assert r[1..] == rest;
          StartsAtTail(r, i - 1, q);
        }
      }
    }
  }

  /** When every `c` of `s` begins `q`, deleting the `q`s removes every `c`. */
  lemma {:induction false} RemoveAllClearsMarker(s: string, c: char, q: string)
    requires Marker(q, c)
    requires OnlyBegins(s, c, q, q)
    ensures c !in RemoveAll(s, q)
    decreases |s|
  {
    if |s| == 0 {
    } else if q <= s {
      forall j | 1 <= j < |q|
        ensures s[j] != c
      {
        assert s[j] == q[1..][j - 1];
      }
      forall i | 0 <= i < |s[|q|..]| && s[|q|..][i] == c
        ensures StartsAt(s[|q|..], i, q)
      {
        assert s[|q|..][i..] == s[|q| + i..];
      }
      RemoveAllClearsMarker(s[|q|..], c, q);
    } else {
      assert s[0..] == s;
      assert s[0] != c;
      OnlyBeginsTail(s, c, q, q, 1);
      RemoveAllClearsMarker(s[1..], c, q);
    }
  }
}
