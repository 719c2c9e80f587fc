/**
 * The pieces of Python's `str` behaviour the model relies on: `str.isspace`,
 * `str.strip()` (an instance of trimming by a set of characters), `str.split(sep)` for a one-character separator, and the
 * matching `sep.join(parts)`.
 */
module Strings {

  /** Python's `str.isspace` for a single character. */
  predicate IsSpace(c: char) {
    || ('\t' <= c <= '\r')
    || ('\U{1C}' <= c <= ' ')
    || c == '\U{85}' || c == '\U{A0}' || c == '\U{1680}'
    || ('\U{2000}' <= c <= '\U{200A}')
    || c == '\U{2028}' || c == '\U{2029}' || c == '\U{202F}'
    || c == '\U{205F}' || c == '\U{3000}'
  }

  /** The index of the first character of `s` outside the set `ws`, or `|s|`. */
  function StartBy(s: string, ws: char -> bool): (i: nat)
    ensures i <= |s|
    ensures forall j :: 0 <= j < i ==> ws(s[j])
    ensures i == |s| || !ws(s[i])
  {
    SkipFrom(s, ws, 0)
  }

  function SkipFrom(s: string, ws: char -> bool, k: nat): (i: nat)
    requires k <= |s|
    requires forall j :: 0 <= j < k ==> ws(s[j])
    ensures k <= i <= |s|
    ensures forall j :: 0 <= j < i ==> ws(s[j])
    ensures i == |s| || !ws(s[i])
    decreases |s| - k
  {
    if k == |s| || !ws(s[k]) then k else SkipFrom(s, ws, k + 1)
  }

  /** The index just past the last character of `s` outside `ws`, at least `StartBy(s, ws)`. */
  function EndBy(s: string, ws: char -> bool): (j: nat)
    ensures StartBy(s, ws) <= j <= |s|
    ensures forall k :: j <= k < |s| ==> ws(s[k])
    ensures j == StartBy(s, ws) || !ws(s[j - 1])
  {
    SkipBack(s, ws, StartBy(s, ws), |s|)
  }

  function SkipBack(s: string, ws: char -> bool, lo: nat, k: nat): (j: nat)
    requires lo <= k <= |s|
    requires forall m :: k <= m < |s| ==> ws(s[m])
    ensures lo <= j <= k
    ensures forall m :: j <= m < |s| ==> ws(s[m])
    ensures j == lo || !ws(s[j - 1])
    decreases k
  {
    if k == lo || !ws(s[k - 1]) then k else SkipBack(s, ws, lo, k - 1)
  }

  /**
   * `s` cut down to the part from its first to its last character outside
   * `ws`. Everything cut off on either side is in `ws`, and the result
   * neither starts nor ends with a character of `ws`.
   */
  function TrimBy(s: string, ws: char -> bool): (r: string)
    ensures |r| == EndBy(s, ws) - StartBy(s, ws)
    ensures forall k :: 0 <= k < |r| ==> r[k] == s[StartBy(s, ws) + k]
    ensures r == [] || (!ws(r[0]) && !ws(r[|r| - 1]))
  {
    s[StartBy(s, ws)..EndBy(s, ws)]
  }

  /** Every character of `s` is either cut off by `TrimBy` (so in `ws`) or kept. */
  lemma TrimByKeepsOrDrops(s: string, ws: char -> bool, i: nat)
    requires i < |s|
    ensures ws(s[i]) || s[i] in TrimBy(s, ws)
  {
    var a := StartBy(s, ws);
    if a <= i < EndBy(s, ws) {
      assert TrimBy(s, ws)[i - a] == s[i];
    }
  }

  /** The index of the first character of `s` that is not whitespace, or `|s|`. */
  function StripStart(s: string): (i: nat)
    ensures i <= |s|
    ensures forall j :: 0 <= j < i ==> IsSpace(s[j])
    ensures i == |s| || !IsSpace(s[i])
  {
    StartBy(s, IsSpace)
  }

  /** The index just past the last character of `s` that is not whitespace, at least `StripStart(s)`. */
  function StripEnd(s: string): (j: nat)
    ensures StripStart(s) <= j <= |s|
    ensures forall k :: j <= k < |s| ==> IsSpace(s[k])
    ensures j == StripStart(s) || !IsSpace(s[j - 1])
  {
    EndBy(s, IsSpace)
  }

  /**
   * `s.strip()`: the part of `s` from its first to its last character that
   * is not whitespace. Everything cut off on either side is whitespace, and
   * the result neither starts nor ends with whitespace.
   */
  function Strip(s: string): (r: string)
    ensures |r| == StripEnd(s) - StripStart(s)
    ensures forall k :: 0 <= k < |r| ==> r[k] == s[StripStart(s) + k]
    ensures r == [] || (!IsSpace(r[0]) && !IsSpace(r[|r| - 1]))
  {
    TrimBy(s, IsSpace)
  }

  /** Every character of `s` is either cut off by `Strip` (so whitespace) or kept. */
  lemma StripKeepsOrDrops(s: string, i: nat)
    requires i < |s|
    ensures IsSpace(s[i]) || s[i] in Strip(s)
  {
    TrimByKeepsOrDrops(s, IsSpace, i);
  }

  /** The number of occurrences of `c` in `s`. */
  function Count(s: string, c: char): nat {
    if s == [] then 0 else (if s[0] == c then 1 else 0) + Count(s[1..], c)
  }

  /**
   * `s.split(sep)` for a one-character separator: the pieces between
   * separators, empty pieces included, so there is always at least one.
   */
  function Split(s: string, sep: char): (r: seq<string>)
    ensures |r| == Count(s, sep) + 1
    ensures forall i :: 0 <= i < |r| ==> sep !in r[i]
  {
    if s == [] then [[]]
    else
      var rest := Split(s[1..], sep);
      if s[0] == sep then [[]] + rest
      else [[s[0]] + rest[0]] + rest[1..]
  }

  /** `sep.join(parts)`. */
  function Join(parts: seq<string>, sep: char): string {
    if |parts| == 0 then []
    else if |parts| == 1 then parts[0]
    else parts[0] + [sep] + Join(parts[1..], sep)
  }

  /** Splitting and joining again on the same separator gives back the input. */
  lemma {:induction false} JoinSplit(s: string, sep: char)
    ensures Join(Split(s, sep), sep) == s
  {
    if s != [] {
      var rest := Split(s[1..], sep);
      JoinSplit(s[1..], sep);
      if s[0] == sep {
        assert Split(s, sep)[1..] == rest;
      } else if |rest| == 1 {
        assert Split(s, sep) == [[s[0]] + rest[0]];
      } else {
        var parts := Split(s, sep);
        assert parts[1..] == rest[1..];
        assert Join(rest, sep) == rest[0] + [sep] + Join(rest[1..], sep);
        calc {
          Join(parts, sep);
          ([s[0]] + rest[0]) + [sep] + Join(rest[1..], sep);
          [s[0]] + (rest[0] + [sep] + Join(rest[1..], sep));
          [s[0]] + s[1..];
        }
      }
    }
  }

  /** Split ↔ Join the other way: pieces free of the separator come back unchanged. */
  lemma {:induction false} SplitJoin(parts: seq<string>, sep: char)
    requires |parts| >= 1
    requires forall i :: 0 <= i < |parts| ==> sep !in parts[i]
    ensures Split(Join(parts, sep), sep) == parts
  {
    if |parts| == 1 {
      SplitPieceFree(parts[0], sep);
    } else {
      SplitJoin(parts[1..], sep);
      SplitPrefix(parts[0], Join(parts[1..], sep), sep);
    }
  }

  lemma {:induction false} SplitPieceFree(p: string, sep: char)
    requires sep !in p
    ensures Split(p, sep) == [p]
  {
    if p != [] {
      SplitPieceFree(p[1..], sep);
      assert p[0] != sep;
      assert [p[0]] + p[1..] == p;
    }
  }

  lemma {:induction false} SplitPrefix(p: string, tail: string, sep: char)
    requires sep !in p
    ensures Split(p + [sep] + tail, sep) == [p] + Split(tail, sep)
  {
    if p == [] {
      assert p + [sep] + tail == [sep] + tail;
      assert ([sep] + tail)[1..] == tail;
    } else {
      SplitPrefix(p[1..], tail, sep);
      assert (p + [sep] + tail)[1..] == p[1..] + [sep] + tail;
      assert [p[0]] + p[1..] == p;
    }
  }
}
