/**
 * Character classes and the few `str` operations the exporter relies on:
 * `startswith`, `in`, `strip`, `replace`, `lower`, `int()` of a digit run
 * and the decimal rendering of an `int` inside an f-string.
 */
module Strings {

  /** Python's `str.isspace()`, which is also what `\s` and `\S` test in a `str` regex. */
  predicate IsSpace(c: char) {
    || c == ' ' || c == '\t' || c == '\n' || c == '\r'
    || c == '\U{B}' || c == '\U{C}'
    || ('\U{1C}' <= c <= '\U{1F}')
    || c == '\U{85}' || c == '\U{A0}' || c == '\U{1680}'
    || ('\U{2000}' <= c <= '\U{200A}')
    || c == '\U{2028}' || c == '\U{2029}' || c == '\U{202F}' || c == '\U{205F}' || c == '\U{3000}'
  }

  /** `\d`, restricted to the ASCII digits. */
  predicate IsDigit(c: char) {
    '0' <= c <= '9'
  }

  /** The character class `[A-Z_]`. */
  predicate IsUpperOrUnderscore(c: char) {
    ('A' <= c <= 'Z') || c == '_'
  }

  predicate IsNotSpace(c: char) {
    !IsSpace(c)
  }

  /** `s.startswith(p)`. */
  predicate StartsWith(s: string, p: string) {
    |p| <= |s| && s[..|p|] == p
  }

  /** `p in s` for strings. */
  predicate Contains(s: string, p: string)
    decreases |s|
  {
    StartsWith(s, p) || (|s| > 0 && Contains(s[1..], p))
  }

  /** `s[i..]` starts with `p`. */
  predicate HasAt(s: string, i: nat, p: string) {
    i + |p| <= |s| && s[i..i + |p|] == p
  }

  /** Every character of `s[a..b]` satisfies `P`. */
  predicate RunOf(s: string, a: nat, b: nat, P: char -> bool) {
    a <= b <= |s| && forall k :: a <= k < b ==> P(s[k])
  }

  /** The end of the longest run of characters satisfying `P` that starts at `i`: a greedy regex repetition. */
  function SkipWhile(s: string, i: nat, P: char -> bool): (j: nat)
    requires i <= |s|
    ensures i <= j <= |s|
    ensures forall k :: i <= k < j ==> P(s[k])
    ensures j == |s| || !P(s[j])
    decreases |s| - i
  {
    if i == |s| || !P(s[i]) then i else SkipWhile(s, i + 1, P)
  }

  /** A greedy run is determined by where it starts and where it stops. */
  lemma SkipWhileStopsAt(s: string, i: nat, j: nat, P: char -> bool)
    requires RunOf(s, i, j, P)
    requires j == |s| || !P(s[j])
    ensures SkipWhile(s, i, P) == j
  {
  }

  /** `s[..a]` and `s[b..]` are whitespace only. */
  predicate OuterSpace(s: string, a: nat, b: nat) {
    a <= b <= |s| && RunOf(s, 0, a, IsSpace) && RunOf(s, b, |s|, IsSpace)
  }

  /**
   * `s.strip()`: the result is `s` with only whitespace cut from its two
   * ends, and it neither starts nor ends with whitespace, so all of the outer
   * whitespace is cut.
   */
  function Strip(s: string): (r: string)
    ensures exists a: nat, b: nat :: OuterSpace(s, a, b) && r == s[a..b]
    ensures r != [] ==> !IsSpace(r[0]) && !IsSpace(r[|r| - 1])
    ensures s != [] && !IsSpace(s[0]) && !IsSpace(s[|s| - 1]) ==> r == s
  {
    var i := SkipWhile(s, 0, IsSpace);
    var j := TrailingStart(s, i);
    assert OuterSpace(s, i, j);
    s[i..j]
  }

  /** The start of the trailing whitespace of `s[lo..]`. */
  function TrailingStart(s: string, lo: nat): (j: nat)
    requires lo <= |s|
    ensures lo <= j <= |s|
    ensures forall k :: j <= k < |s| ==> IsSpace(s[k])
    ensures j > lo ==> !IsSpace(s[j - 1])
    decreases |s| - lo
  {
    if lo == |s| then lo
    else if !IsSpace(s[|s| - 1]) then |s|
    else TrailingStart(s[..|s| - 1], lo)
  }

  /** `s.replace(pat, sub)`: every non-overlapping occurrence, scanning left to right. */
  function ReplaceAll(s: string, pat: string, sub: string): (r: string)
    requires pat != []
    ensures forall c :: c in r ==> c in s || c in sub
    decreases |s|
  {
    if s == [] then []
    else if StartsWith(s, pat) then sub + ReplaceAll(s[|pat|..], pat, sub)
    else [s[0]] + ReplaceAll(s[1..], pat, sub)
  }

  /** Replacing a pattern that does not occur changes nothing. */
  lemma {:induction false} ReplaceAllAbsent(s: string, pat: string, sub: string)
    requires pat != [] && !Contains(s, pat)
    ensures ReplaceAll(s, pat, sub) == s
    decreases |s|
  {
    if s != [] {
      ReplaceAllAbsent(s[1..], pat, sub);
      assert [s[0]] + s[1..] == s;
    }
  }

  /** A text that starts with the pattern has its first occurrence replaced there. */
  lemma ReplaceAllPrefix(s: string, pat: string, sub: string)
    requires pat != []
    ensures ReplaceAll(pat + s, pat, sub) == sub + ReplaceAll(s, pat, sub)
  {
    assert (pat + s)[..|pat|] == pat;
    assert (pat + s)[|pat|..] == s;
  }

  /** `s.replace(a, b)` for one-character `a` and `b`. */
  function ReplaceChar(s: string, a: char, b: char): (r: string)
    ensures |r| == |s|
    ensures forall k :: 0 <= k < |s| ==> r[k] == (if s[k] == a then b else s[k])
  {
    seq(|s|, k requires 0 <= k < |s| => if s[k] == a then b else s[k])
  }

  function LowerChar(c: char): char {
    if 'A' <= c <= 'Z' then (c as int + 32) as char else c
  }

  /** `s.lower()` on the ASCII letters. */
  function Lower(s: string): (r: string)
    ensures |r| == |s|
    ensures forall k :: 0 <= k < |s| ==> r[k] == LowerChar(s[k])
  {
    seq(|s|, k requires 0 <= k < |s| => LowerChar(s[k]))
  }

  /** A non-empty run of ASCII digits: what `\d+` captures. */
  predicate IsDigits(s: string) {
    s != [] && forall k :: 0 <= k < |s| ==> IsDigit(s[k])
  }

  /** `int(s)` for a string of ASCII digits (leading zeros allowed). */
  function DigitsValue(s: string): nat
    requires forall k :: 0 <= k < |s| ==> IsDigit(s[k])
    decreases |s|
  {
    if s == [] then 0
    else DigitsValue(s[..|s| - 1]) * 10 + DigitValue(s[|s| - 1])
  }

  function DigitValue(c: char): nat
    requires IsDigit(c)
  {
    c as int - '0' as int
  }

  /** The decimal rendering of `n`, as `f"{n}"` prints it. */
  function NatToString(n: nat): (r: string)
    ensures IsDigits(r)
    ensures |r| > 1 ==> r[0] != '0'
    decreases n
  {
    if n < 10 then [('0' as int + n) as char]
    else NatToString(n / 10) + [('0' as int + n % 10) as char]
  }

  /** Rendering a number in decimal and reading it back with `int()` gives the number. */
  lemma {:induction false} DigitsValueOfNatToString(n: nat)
    ensures DigitsValue(NatToString(n)) == n
    decreases n
  {
    var r := NatToString(n);
    if n >= 10 {
      DigitsValueOfNatToString(n / 10);
      assert r[..|r| - 1] == NatToString(n / 10);
    }
  }
}
