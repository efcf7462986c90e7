/**
 * The few `str` methods of Python 3 that the converter relies on:
 * `startswith`, `endswith`, `find`, `lower`, `strip` and slicing,
 * each with a contract that pins down its result.
 */
module PyStrings {

  /** `s.startswith(prefix)` */
  predicate StartsWith(s: string, prefix: string) {
    |prefix| <= |s| && s[..|prefix|] == prefix
  }

  /** `s.endswith(suffix)` */
  predicate EndsWith(s: string, suffix: string) {
    |suffix| <= |s| && s[|s| - |suffix|..] == suffix
  }

  /** `t` occurs in `s` starting at index `i`. */
  predicate OccursAt(s: string, t: string, i: int) {
    0 <= i && i + |t| <= |s| && s[i..i + |t|] == t
  }

  /** `t in s` for strings: a substring test anywhere in `s`. */
  ghost predicate Contains(s: string, t: string) {
    exists i :: OccursAt(s, t, i)
  }

  /** `s.find(t)`: the lowest index where `t` occurs, or -1 when it does not occur. */
  function Find(s: string, t: string): (r: int)
    ensures r == -1 || OccursAt(s, t, r)
    ensures forall i :: 0 <= i && (r == -1 || i < r) ==> !OccursAt(s, t, i)
  {
    FindFrom(s, t, 0)
  }

  function FindFrom(s: string, t: string, start: nat): (r: int)
    ensures r == -1 || (start <= r && OccursAt(s, t, r))
    ensures forall i :: start <= i && (r == -1 || i < r) ==> !OccursAt(s, t, i)
    decreases |s| - start
  {
    if start + |t| > |s| then -1
    else if s[start..start + |t|] == t then start
    else FindFrom(s, t, start + 1)
  }

  /** `s.find(t) != -1` is exactly the substring test. */
  lemma FindFindsContained(s: string, t: string)
    ensures Find(s, t) != -1 <==> Contains(s, t)
  {
    if Find(s, t) != -1 {
      assert OccursAt(s, t, Find(s, t));
    }
  }

  /**
   * `c.lower()` for one character, as far as it matters for comparing the result
   * with ASCII text: ASCII capitals become small letters, and the KELVIN SIGN
   * U+212A becomes `k` (the only non-ASCII character whose lower case is an ASCII
   * letter). Every other character is kept; Python would map some of them to other
   * non-ASCII characters, which never equal an ASCII character either.
   */
  function LowerChar(c: char): (r: char)
    ensures !('A' <= r <= 'Z')
    ensures 'a' <= c <= 'z' ==> r == c
  {
    if 'A' <= c <= 'Z' then (c as int + 32) as char
    else if c == '\U{212A}' then 'k'
    else c
  }

  /** `s.lower()`, character by character. */
  function Lower(s: string): string {
    seq(|s|, i requires 0 <= i < |s| => LowerChar(s[i]))
  }

  /** The lower-cased string has no capitals, and a string of small letters is its own lower case. */
  lemma LowerHasNoCapitals(s: string)
    ensures |Lower(s)| == |s|
    ensures forall i :: 0 <= i < |s| ==> !('A' <= Lower(s)[i] <= 'Z')
    ensures (forall i :: 0 <= i < |s| ==> 'a' <= s[i] <= 'z') ==> Lower(s) == s
  {
  }

  /** `c.isspace()`: the characters `str.strip()` removes when given no argument. */
  predicate IsSpace(c: char) {
    c == ' ' || '\t' <= c <= '\r' || '\U{001C}' <= c <= '\U{001F}' ||
    c == '\U{0085}' || c == '\U{00A0}' || c == '\U{1680}' || '\U{2000}' <= c <= '\U{200A}' ||
    c == '\U{2028}' || c == '\U{2029}' || c == '\U{202F}' || c == '\U{205F}' || c == '\U{3000}'
  }

  /** Removes the trailing characters of `s` that `drop` selects: what remains is a prefix of `s`. */
  function StripRight(s: string, drop: char -> bool): (r: string)
    ensures |r| <= |s| && r == s[..|r|]
    ensures forall k :: |r| <= k < |s| ==> drop(s[k])
    ensures r == [] || !drop(r[|r| - 1])
  {
    s[..StrippedLength(s, drop, |s|)]
  }

  /** The length of `s[..n]` once its trailing characters that `drop` selects are removed. */
  function StrippedLength(s: string, drop: char -> bool, n: nat): (m: nat)
    requires n <= |s|
    ensures m <= n
    ensures forall k :: m <= k < n ==> drop(s[k])
    ensures m == 0 || !drop(s[m - 1])
  {
    if n > 0 && drop(s[n - 1]) then StrippedLength(s, drop, n - 1) else n
  }

  /**
   * `s.strip()` (with `drop == IsSpace`) and `s.strip(chars)` (with `drop` the test for
   * membership in `chars`): the longest middle part of `s` that neither starts nor ends
   * with a character `drop` selects.
   */
  function Strip(s: string, drop: char -> bool): (r: string)
    ensures |r| <= |s|
    ensures r == [] || (!drop(r[0]) && !drop(r[|r| - 1]))
    decreases |s|
  {
    if |s| > 0 && drop(s[0]) then Strip(s[1..], drop)
    else if |s| > 0 && drop(s[|s| - 1]) then Strip(s[..|s| - 1], drop)
    else s
  }

  /** `strip` yields the empty string exactly when every character of `s` is one it removes. */
  lemma {:induction false} StripToEmpty(s: string, drop: char -> bool)
    ensures Strip(s, drop) == [] <==> forall k :: 0 <= k < |s| ==> drop(s[k])
    decreases |s|
  {
    if |s| > 0 && drop(s[0]) {
      StripToEmpty(s[1..], drop);
      assert forall k :: 1 <= k < |s| ==> s[k] == s[1..][k - 1];
    } else if |s| > 0 && drop(s[|s| - 1]) {
      StripToEmpty(s[..|s| - 1], drop);
    }
  }

  /** Every character of `s` before `i` and from `j` on is one that `drop` selects. */
  predicate CutsOnly(s: string, drop: char -> bool, i: nat, j: nat)
    requires i <= j <= |s|
  {
    (forall k :: 0 <= k < i ==> drop(s[k])) && (forall k :: j <= k < |s| ==> drop(s[k]))
  }

  /**
   * What `strip` keeps is a middle slice of `s`: everything cut before and after it
   * is a character `drop` selects. With the edge clauses of `Strip` this fixes the
   * result: the cut cannot stop earlier, and it does not go further.
   */
  lemma {:induction false} StripKeepsMiddle(s: string, drop: char -> bool)
    ensures exists i: nat, j: nat :: i <= j <= |s| && Strip(s, drop) == s[i..j] && CutsOnly(s, drop, i, j)
    decreases |s|
  {
    if |s| > 0 && drop(s[0]) {
      var t := s[1..];
      StripKeepsMiddle(t, drop);
      var i: nat, j: nat :| i <= j <= |t| && Strip(t, drop) == t[i..j] && CutsOnly(t, drop, i, j);
      CutFront(s, drop, i, j);
    } else if |s| > 0 && drop(s[|s| - 1]) {
      var t := s[..|s| - 1];
      StripKeepsMiddle(t, drop);
      var i: nat, j: nat :| i <= j <= |t| && Strip(t, drop) == t[i..j] && CutsOnly(t, drop, i, j);
      CutBack(s, drop, i, j);
    } else {
      assert Strip(s, drop) == s[0..|s|];
      assert CutsOnly(s, drop, 0, |s|);
    }
  }

  lemma CutFront(s: string, drop: char -> bool, i: nat, j: nat)
    requires |s| > 0 && drop(s[0]) && i <= j <= |s| - 1 && CutsOnly(s[1..], drop, i, j)
    ensures s[1..][i..j] == s[i + 1..j + 1] && CutsOnly(s, drop, i + 1, j + 1)
  {
    assert forall k :: 1 <= k < |s| ==> s[k] == s[1..][k - 1];
  }

  lemma CutBack(s: string, drop: char -> bool, i: nat, j: nat)
    requires |s| > 0 && drop(s[|s| - 1]) && i <= j <= |s| - 1 && CutsOnly(s[..|s| - 1], drop, i, j)
    ensures s[..|s| - 1][i..j] == s[i..j] && CutsOnly(s, drop, i, j)
  {
  }

  /** The index Python uses for a slice bound `i` on a sequence of length `n`. */
  function SliceIndex(i: int, n: nat): (r: nat)
    ensures r <= n
    ensures 0 <= i <= n ==> r == i
    ensures -(n as int) <= i < 0 ==> r == n + i
  {
    if i < 0 then (if n + i < 0 then 0 else n + i)
    else if i > n then n
    else i
  }

  /** `s[start:stop]`, negative bounds counting from the end and out-of-range bounds clamped. */
  function Slice(s: string, start: int, stop: int): string {
    var lo, hi := SliceIndex(start, |s|), SliceIndex(stop, |s|);
    if lo < hi then s[lo..hi] else []
  }
}
