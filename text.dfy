/**
 * The few pieces of `java.lang.String` and `java.lang.Character` that the
 * search engine relies on, written out over `seq<char>`: prefix tests,
 * `indexOf`, `replace`, `isBlank`, and the case mappings restricted to the
 * ASCII and Cyrillic letters the engine works with.
 */
module Text {

  predicate StartsWith(s: string, prefix: string) {
    |prefix| <= |s| && s[..|prefix|] == prefix
  }

  /** `pat` occurs in `s` starting at index `i`. */
  predicate OccursAt(s: string, pat: string, i: int) {
    0 <= i && i + |pat| <= |s| && s[i..i + |pat|] == pat
  }

  ghost predicate Contains(s: string, pat: string) {
    exists i :: OccursAt(s, pat, i)
  }

  /** `s.indexOf(pat, from)`: the least index at or after `from` where `pat` occurs, or -1. */
  function IndexOfFrom(s: string, pat: string, from: nat): (r: int)
    ensures r == -1 || (from <= r && OccursAt(s, pat, r))
    ensures r == -1 ==> forall j :: from <= j ==> !OccursAt(s, pat, j)
    ensures r != -1 ==> forall j :: from <= j < r ==> !OccursAt(s, pat, j)
    decreases |s| - from
  {
    if |s| < from + |pat| then -1
    else if s[from..from + |pat|] == pat then from
    else IndexOfFrom(s, pat, from + 1)
  }

  /** `s.indexOf(pat)`: the least index where `pat` occurs, or -1 when it does not occur at all. */
  function IndexOf(s: string, pat: string): (r: int)
    ensures r == -1 <==> !Contains(s, pat)
    ensures r != -1 ==> OccursAt(s, pat, r) && forall j :: 0 <= j < r ==> !OccursAt(s, pat, j)
  {
    IndexOfFrom(s, pat, 0)
  }

  /**
   * `s.replace(target, repl)`: every non-overlapping occurrence of `target`,
   * scanning left to right, becomes `repl`.  An empty `target` matches before
   * every character and at the end, as in Java.
   */
  function Replace(s: string, target: string, repl: string): (r: string)
    ensures target != [] && repl == target ==> r == s
    ensures target != [] && |repl| == |target| ==> |r| == |s|
    decreases |s|
  {
    if target == [] then
      (if s == [] then repl else repl + [s[0]] + Replace(s[1..], target, repl))
    else if |s| < |target| then s
    else if s[..|target|] == target then repl + Replace(s[|target|..], target, repl)
    else [s[0]] + Replace(s[1..], target, repl)
  }

  /** A string in which a non-empty `target` does not occur is left as it is by `Replace`. */
  lemma {:induction false} ReplaceWithoutOccurrence(s: string, target: string, repl: string)
    requires target != [] && !Contains(s, target)
    ensures Replace(s, target, repl) == s
    decreases |s|
  {
    if |s| >= |target| {
      assert !OccursAt(s, target, 0);
      assert s != [];
      forall i | OccursAt(s[1..], target, i) ensures false {
        assert s[1..][i..i + |target|] == s[i + 1..i + 1 + |target|];
        assert OccursAt(s, target, i + 1);
      }
      ReplaceWithoutOccurrence(s[1..], target, repl);
      assert s == [s[0]] + s[1..];
    }
  }

  /**
   * The replacement of a prefix: when `s` is `target + rest` and `target`
   * does not occur again in `rest`, the result is `repl + rest`.
   */
  lemma ReplaceLeadingOnly(target: string, rest: string, repl: string)
    requires target != [] && !Contains(rest, target)
    ensures Replace(target + rest, target, repl) == repl + rest
  {
    var s := target + rest;
    assert s[..|target|] == target;
    assert s[|target|..] == rest;
    ReplaceWithoutOccurrence(rest, target, repl);
  }

  /** `Character.isWhitespace`: the Java space characters (no-break spaces excluded). */
  predicate IsJavaWhitespace(c: char) {
    c == ' ' || c == '\t' || c == '\n' || c == '\U{B}' || c == '\U{C}' || c == '\r'
    || ('\U{1C}' <= c <= '\U{1F}')
    || c == '\U{1680}' || ('\U{2000}' <= c <= '\U{2006}') || ('\U{2008}' <= c <= '\U{200A}')
    || c == '\U{2028}' || c == '\U{2029}' || c == '\U{205F}' || c == '\U{3000}'
  }

  /** `String.isBlank`: empty or made only of white space. */
  predicate IsBlank(s: string) {
    forall i :: 0 <= i < |s| ==> IsJavaWhitespace(s[i])
  }

  /** The regular-expression class `\s`: space, tab, line feed, vertical tab, form feed, carriage return. */
  predicate IsRegexSpace(c: char) {
    c == ' ' || c == '\t' || c == '\n' || c == '\U{B}' || c == '\U{C}' || c == '\r'
  }

  /**
   * `Character.toLowerCase` on the ASCII capitals and the Cyrillic capitals
   * U+0400..U+042F; every other character is left unchanged.
   */
  function LowerChar(c: char): char {
    if 'A' <= c <= 'Z' then (c as int + 32) as char
    else if '\U{400}' <= c <= '\U{40F}' then (c as int + 0x50) as char
    else if '\U{410}' <= c <= '\U{42F}' then (c as int + 0x20) as char
    else c
  }

  /** `Character.toUpperCase` on the ASCII and Cyrillic small letters; every other character unchanged. */
  function UpperChar(c: char): char {
    if 'a' <= c <= 'z' then (c as int - 32) as char
    else if '\U{430}' <= c <= '\U{44F}' then (c as int - 0x20) as char
    else if '\U{450}' <= c <= '\U{45F}' then (c as int - 0x50) as char
    else c
  }

  function Lower(s: string): (r: string)
    ensures |r| == |s| && forall i :: 0 <= i < |s| ==> r[i] == LowerChar(s[i])
  {
    seq(|s|, i requires 0 <= i < |s| => LowerChar(s[i]))
  }

  function Upper(s: string): (r: string)
    ensures |r| == |s| && forall i :: 0 <= i < |s| ==> r[i] == UpperChar(s[i])
  {
    seq(|s|, i requires 0 <= i < |s| => UpperChar(s[i]))
  }

  /** The case folding of a `(?i)` regular expression without UNICODE_CASE: ASCII letters only. */
  function AsciiFold(c: char): char {
    if 'A' <= c <= 'Z' then (c as int + 32) as char else c
  }

  /** `pat` matches `s` at `i` under `(?i)`, that is, equal after ASCII folding. */
  predicate MatchesIgnoringAsciiCase(s: string, pat: string, i: int) {
    0 <= i && i + |pat| <= |s| && forall j :: 0 <= j < |pat| ==> AsciiFold(s[i + j]) == AsciiFold(pat[j])
  }
}
