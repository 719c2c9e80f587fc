/**
 * Python's conversions between integers and their decimal text: `str(n)` for
 * an `int`, and `int(s)` for a string in base 10. `int(s)` ignores
 * surrounding whitespace (but not the four information separators
 * U+001C to U+001F, although `str.isspace` holds of them), accepts one
 * optional sign, and allows single underscores between digits. The model
 * reads ASCII digits only: Python also accepts the other Unicode decimal
 * digits, which the model rejects like any other text. Where `int(s)`
 * raises `ValueError`, the model gives `None`.
 */
module Decimal {
  import opened Wrappers
  import opened Strings

  predicate IsDigit(c: char) { '0' <= c <= '9' }

  predicate AllDigits(s: string) {
    forall i :: 0 <= i < |s| ==> IsDigit(s[i])
  }

  function DigitChar(d: nat): (c: char)
    requires d < 10
    ensures IsDigit(c)
  {
    ('0' as int + d) as char
  }

  function DigitValue(c: char): (d: nat)
    requires IsDigit(c)
    ensures d < 10 && DigitChar(d) == c
  {
    c as int - '0' as int
  }

  /** The decimal digits of a natural number, most significant first, without leading zeros. */
  function NatText(n: nat): (s: string)
    ensures |s| >= 1 && AllDigits(s)
    ensures |s| > 1 ==> s[0] != '0'
  {
    if n < 10 then [DigitChar(n)] else NatText(n / 10) + [DigitChar(n % 10)]
  }

  /** Python's `str(n)` for an integer. */
  function Text(n: int): (s: string)
    ensures |s| >= 1
    ensures s[0] == '-' <==> n < 0
    ensures var digits := if n < 0 then s[1..] else s;
      && |digits| >= 1 && AllDigits(digits) && (|digits| > 1 ==> digits[0] != '0')
      && DigitsValue(digits) == if n < 0 then -n else n
  {
    var k: nat := if n < 0 then -n else n;
    NatTextValue(k);
    if n < 0 then "-" + NatText(k) else NatText(k)
  }

  /** The value of a string of decimal digits, most significant first. */
  function DigitsValue(s: string): nat
    requires AllDigits(s)
  {
    if s == [] then 0 else DigitsValue(s[..|s| - 1]) * 10 + DigitValue(s[|s| - 1])
  }

  /** A digit group as `int()` accepts it: digits, single underscores only between two digits. */
  predicate DigitGroup(s: string) {
    && |s| >= 1
    && IsDigit(s[0]) && IsDigit(s[|s| - 1])
    && (forall i :: 0 <= i < |s| ==> IsDigit(s[i]) || s[i] == '_')
    && NoDoubleUnderscore(s)
  }

  predicate NoDoubleUnderscore(s: string) {
    |s| < 2 || (!(s[0] == '_' && s[1] == '_') && NoDoubleUnderscore(s[1..]))
  }

  function RemoveUnderscores(s: string): (r: string)
    requires forall i :: 0 <= i < |s| ==> IsDigit(s[i]) || s[i] == '_'
    ensures AllDigits(r)
  {
    if s == [] then []
    else (if s[0] == '_' then [] else [s[0]]) + RemoveUnderscores(s[1..])
  }

  /** The value of a digit group, `None` for anything else. */
  function ParseDigits(s: string): Option<nat> {
    if DigitGroup(s) then Some(DigitsValue(RemoveUnderscores(s))) else None
  }

  /** A digit group with an optional leading sign. */
  function ParseSigned(t: string): Option<int> {
    if |t| >= 1 && (t[0] == '-' || t[0] == '+') then
      match ParseDigits(t[1..])
      case None => None
      case Some(m) => Some(if t[0] == '-' then 0 - m as int else m)
    else
      match ParseDigits(t)
      case None => None
      case Some(m) => Some(m)
  }

  /** The ASCII information separators U+001C to U+001F. */
  predicate IsSeparator(c: char) { '\U{1C}' <= c <= '\U{1F}' }

  /**
   * The whitespace `int()` skips around a literal. CPython first turns every
   * non-ASCII whitespace character into a space and then skips only ASCII
   * tab, line feed, vertical tab, form feed, carriage return and space, so
   * this is `str.isspace` without the information separators.
   */
  predicate IntSpace(c: char) {
    IsSpace(c) && !IsSeparator(c)
  }

  /** The index of the first character of `s` that `int()` does not skip, or `|s|`. */
  function TrimStart(s: string): (i: nat)
    ensures i <= |s|
    ensures forall j :: 0 <= j < i ==> IntSpace(s[j])
    ensures i == |s| || !IntSpace(s[i])
  {
    StartBy(s, IntSpace)
  }

  /** The index just past the last character of `s` that `int()` does not skip, at least `TrimStart(s)`. */
  function TrimEnd(s: string): (j: nat)
    ensures TrimStart(s) <= j <= |s|
    ensures forall k :: j <= k < |s| ==> IntSpace(s[k])
    ensures j == TrimStart(s) || !IntSpace(s[j - 1])
  {
    EndBy(s, IntSpace)
  }

  /** The text `int()` reads: `s` without the whitespace it skips on either side. */
  function Trim(s: string): (r: string)
    ensures |r| == TrimEnd(s) - TrimStart(s)
    ensures forall k :: 0 <= k < |r| ==> r[k] == s[TrimStart(s) + k]
    ensures r == [] || (!IntSpace(r[0]) && !IntSpace(r[|r| - 1]))
  {
    TrimBy(s, IntSpace)
  }

  /** Text without information separators is trimmed by `int()` exactly as `str.strip()` strips it. */
  lemma TrimWithoutSeparators(s: string)
    requires forall i :: 0 <= i < |s| ==> !IsSeparator(s[i])
    ensures TrimStart(s) == StripStart(s) && TrimEnd(s) == StripEnd(s)
    ensures Trim(s) == Strip(s)
  {
    var a, b := StripStart(s), TrimStart(s);
    assert a < |s| ==> !IntSpace(s[a]);
    assert b < |s| ==> !IsSpace(s[b]);
    var e, f := StripEnd(s), TrimEnd(s);
    assert e > a ==> !IntSpace(s[e - 1]);
    assert f > b ==> !IsSpace(s[f - 1]);
  }

  /** Every character of `s` is either skipped by `Trim` (so whitespace) or kept. */
  lemma TrimKeepsOrDrops(s: string, i: nat)
    requires i < |s|
    ensures IntSpace(s[i]) || s[i] in Trim(s)
  {
    TrimByKeepsOrDrops(s, IntSpace, i);
  }

  /**
   * Python's `int(s)`: `Some(value)` when `s` is a base-10 integer literal,
   * `None` when it raises. An information separator at either end is not
   * skipped, and makes it raise.
   */
  function ParseInt(s: string): (r: Option<int>)
    ensures |s| >= 1 && (IsSeparator(s[0]) || IsSeparator(s[|s| - 1])) ==> r.None?
  {
    ParseSigned(Trim(s))
  }

  /**
   * Text that `int()` accepts holds only digits, underscores, signs and
   * whitespace: a letter or any other character anywhere makes it raise.
   */
  lemma ParseIntCharacters(s: string)
    requires ParseInt(s).Some?
    ensures forall i :: 0 <= i < |s| ==> NumeralChar(s[i])
  {
    var t := Trim(s);
    var signed := |t| >= 1 && (t[0] == '-' || t[0] == '+');
    var body := if signed then t[1..] else t;
    assert ParseDigits(body).Some?;
    forall j | 0 <= j < |t| ensures NumeralChar(t[j]) {
      if signed && j > 0 { assert t[j] == body[j - 1]; }
    }
    forall i | 0 <= i < |s| ensures NumeralChar(s[i]) {
      TrimKeepsOrDrops(s, i);
    }
  }

  /** A character that may appear in text `int()` accepts. */
  predicate NumeralChar(c: char) {
    IsDigit(c) || c == '_' || c == '+' || c == '-' || IntSpace(c)
  }

  lemma {:induction false} NatTextValue(n: nat)
    ensures DigitsValue(NatText(n)) == n
  {
    if n >= 10 {
      NatTextValue(n / 10);
      var s := NatText(n);
      assert s[..|s| - 1] == NatText(n / 10);
    }
  }

  lemma {:induction false} RemoveUnderscoresOfDigits(s: string)
    requires AllDigits(s)
    ensures RemoveUnderscores(s) == s
  {
    if s != [] {
      RemoveUnderscoresOfDigits(s[1..]);
      assert [s[0]] + s[1..] == s;
    }
  }

  /** Text without surrounding whitespace is read by `int()` as it is. */
  lemma TrimUnpadded(s: string)
    requires |s| >= 1 && !IntSpace(s[0]) && !IntSpace(s[|s| - 1])
    ensures TrimStart(s) == 0 && TrimEnd(s) == |s|
    ensures Trim(s) == s
  {
  }

  /** A string of digits is a digit group whose value is its digits' value. */
  lemma ParseDigitsOfDigits(s: string)
    requires |s| >= 1 && AllDigits(s)
    ensures ParseDigits(s) == Some(DigitsValue(s))
  {
    DigitsAreGroup(s);
    RemoveUnderscoresOfDigits(s);
  }

  /** `int` on text without surrounding whitespace reads it as it is. */
  lemma ParseIntUnpadded(t: string)
    requires |t| >= 1 && !IntSpace(t[0]) && !IntSpace(t[|t| - 1])
    ensures ParseInt(t) == ParseSigned(t)
  {
    TrimUnpadded(t);
  }

  /** `int` on an unsigned digit group reads its value. */
  lemma ParseIntOfGroup(s: string, m: nat)
    requires ParseDigits(s) == Some(m)
    ensures ParseInt(s) == Some(m)
  {
    ParseIntUnpadded(s);
  }

  /** A minus sign before a digit group negates its value. */
  lemma ParseSignedMinus(t: string, m: nat)
    requires |t| >= 1 && t[0] == '-' && ParseDigits(t[1..]) == Some(m)
    ensures ParseSigned(t) == Some(0 - m as int)
  {
  }

  /** `int` on a minus sign followed by a digit group reads the negated value. */
  lemma ParseIntOfNegatedGroup(s: string, m: nat)
    requires ParseDigits(s) == Some(m)
    ensures ParseInt("-" + s) == Some(0 - m as int)
  {
    var t := "-" + s;
    assert t[0] == '-' && t[|t| - 1] == s[|s| - 1] && t[1..] == s;
    ParseIntUnpadded(t);
    ParseSignedMinus(t, m);
  }

  /** `int(str(n)) == n` for every integer `n`. */
  lemma ParseIntOfText(n: int)
    ensures ParseInt(Text(n)) == Some(n)
  {
    var k: nat := if n < 0 then -n else n;
    NatTextValue(k);
    ParseDigitsOfDigits(NatText(k));
    if n < 0 {
      ParseIntOfNegatedGroup(NatText(k), k);
    } else {
      ParseIntOfGroup(NatText(k), k);
    }
  }

  lemma {:induction false} DigitsAreGroup(s: string)
    requires |s| >= 1 && AllDigits(s)
    ensures DigitGroup(s)
  {
    if |s| >= 2 {
      DigitsAreGroup(s[1..]);
    }
  }
}
