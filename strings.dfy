/**
 * ASCII string helpers shared by the cleaner and the style scanners.
 *
 * Python's `str.lower`, `str.strip`, `str.split`, `str.join`, the `in`
 * substring test and the regular-expression classes `\s` and `\w` are
 * modelled here on ASCII characters only.
 */
module Strings {

  /**
   * Python's `str.isspace` restricted to ASCII (also the regex class `\s`):
   * space, tab, line feed, carriage return, vertical tab, form feed and the
   * four separators `\x1c` to `\x1f`.
   */
  predicate IsSpace(c: char) {
    || c == ' ' || c == '\t' || c == '\n' || c == '\r' || c == '\U{000B}' || c == '\U{000C}'
    || ('\U{001C}' <= c <= '\U{001F}')
  }

  /** The regex class `\w` on ASCII: letters, digits and underscore. */
  predicate IsWordChar(c: char) {
    ('a' <= c <= 'z') || ('A' <= c <= 'Z') || ('0' <= c <= '9') || c == '_'
  }

  /** The regex class `[a-z]` under IGNORECASE. */
  predicate IsLetter(c: char) {
    ('a' <= c <= 'z') || ('A' <= c <= 'Z')
  }

  /** The regex class `[0-9a-fA-F]`. */
  predicate IsHexDigit(c: char) {
    ('0' <= c <= '9') || ('a' <= c <= 'f') || ('A' <= c <= 'F')
  }

  function LowerChar(c: char): (r: char)
    ensures 'A' <= c <= 'Z' ==> 'a' <= r <= 'z'
    ensures !('A' <= c <= 'Z') ==> r == c
  {
    if 'A' <= c <= 'Z' then (c as int - 'A' as int + 'a' as int) as char else c
  }

  /** `str.lower()` on ASCII. */
  function Lower(s: string): (r: string)
    ensures |r| == |s|
    ensures forall i :: 0 <= i < |s| ==> r[i] == LowerChar(s[i])
  {
    seq(|s|, i requires 0 <= i < |s| => LowerChar(s[i]))
  }

  /** `p` occurs in `s` starting at index `i`. */
  predicate OccursAt(s: string, p: string, i: nat) {
    i + |p| <= |s| && s[i..i + |p|] == p
  }

  /** The substring test `p in s`. */
  predicate Contains(s: string, p: string) {
    exists i: nat | i <= |s| :: OccursAt(s, p, i)
  }

  /** A string containing `u + v` contains `u` and contains `v`. */
  lemma ContainsParts(s: string, u: string, v: string)
    requires Contains(s, u + v)
    ensures Contains(s, u) && Contains(s, v)
  {
    var i: nat :| i <= |s| && OccursAt(s, u + v, i);
    assert s[i..i + |u|] == (u + v)[..|u|] == u;
    assert s[i + |u|..i + |u| + |v|] == (u + v)[|u|..] == v;
    assert OccursAt(s, u, i) && OccursAt(s, v, i + |u|);
  }

  /** A string that contains `p` has every character of `p` among its own. */
  lemma ContainsChar(s: string, p: string, k: nat)
    requires k < |p| && Contains(s, p)
    ensures p[k] in s
  {
    var i: nat :| i <= |s| && OccursAt(s, p, i);
    assert s[i + k] == s[i..i + |p|][k] == p[k];
  }

  /** A string without upper-case letters is its own `lower()`. */
  lemma LowerKeeps(s: string)
    requires forall k | 0 <= k < |s| :: !('A' <= s[k] <= 'Z')
    ensures Lower(s) == s
  {
  }

  /** First index at or after `i` that is not whitespace (or `|s|`); the regex `\s*`. */
  function SkipSpaces(s: string, i: nat): (j: nat)
    requires i <= |s|
    ensures i <= j <= |s|
    ensures forall k :: i <= k < j ==> IsSpace(s[k])
    ensures j == |s| || !IsSpace(s[j])
    decreases |s| - i
  {
    if i < |s| && IsSpace(s[i]) then SkipSpaces(s, i + 1) else i
  }

  /** Every character of `s` is whitespace. */
  predicate AllSpaces(s: string) {
    forall k | 0 <= k < |s| :: IsSpace(s[k])
  }

  lemma AllSpacesSlice(s: string, lo: nat, hi: nat)
    requires lo <= hi <= |s|
    requires forall t :: lo <= t < hi ==> IsSpace(s[t])
    ensures AllSpaces(s[lo..hi])
  {
  }

  /** Greedy skipping of whitespace stops at the first non-space character. */
  lemma SkipSpacesStopsAt(s: string, i: nat, j: nat)
    requires i <= j <= |s| && AllSpaces(s[i..j]) && (j == |s| || !IsSpace(s[j]))
    ensures SkipSpaces(s, i) == j
    decreases j - i
  {
    if i < j {
      assert IsSpace(s[i..j][0]);
      assert s[i + 1..j] == s[i..j][1..];
      SkipSpacesStopsAt(s, i + 1, j);
    }
  }

  /** Going left from `hi`, drop whitespace but never go below `lo`. */
  function TrimSpaces(s: string, lo: nat, hi: nat): (j: nat)
    requires lo <= hi <= |s|
    ensures lo <= j <= hi
    ensures forall k :: j <= k < hi ==> IsSpace(s[k])
    ensures j == lo || !IsSpace(s[j - 1])
    decreases hi
  {
    if hi > lo && IsSpace(s[hi - 1]) then TrimSpaces(s, lo, hi - 1) else hi
  }

  /** `str.strip()`: drop leading and trailing whitespace. */
  function Strip(s: string): (r: string)
    ensures |r| <= |s|
    ensures |r| == 0 || (!IsSpace(r[0]) && !IsSpace(r[|r| - 1]))
  {
    var lo := SkipSpaces(s, 0);
    s[lo..TrimSpaces(s, lo, |s|)]
  }

  /** A string without whitespace at either end is its own `strip()`. */
  lemma StripTrimmed(s: string)
    requires |s| == 0 || (!IsSpace(s[0]) && !IsSpace(s[|s| - 1]))
    ensures Strip(s) == s
  {
  }

  /** First index at or after `i` whose character is not `c` (or `|s|`). */
  function SkipChar(s: string, c: char, i: nat): (j: nat)
    requires i <= |s|
    ensures i <= j <= |s|
    ensures forall k :: i <= k < j ==> s[k] == c
    ensures j == |s| || s[j] != c
    decreases |s| - i
  {
    if i < |s| && s[i] == c then SkipChar(s, c, i + 1) else i
  }

  /** Going left from `hi`, drop the character `c` but never go below `lo`. */
  function TrimChar(s: string, c: char, lo: nat, hi: nat): (j: nat)
    requires lo <= hi <= |s|
    ensures lo <= j <= hi
    ensures forall k :: j <= k < hi ==> s[k] == c
    ensures j == lo || s[j - 1] != c
    decreases hi
  {
    if hi > lo && s[hi - 1] == c then TrimChar(s, c, lo, hi - 1) else hi
  }

  /** `s.strip(c)` for one character `c`: drop every leading and trailing `c`. */
  function StripChar(s: string, c: char): (r: string)
    ensures |r| <= |s|
    ensures |r| == 0 || (r[0] != c && r[|r| - 1] != c)
  {
    var lo := SkipChar(s, c, 0);
    s[lo..TrimChar(s, c, lo, |s|)]
  }

  /** `sep.join(xs)`. */
  function Join(xs: seq<string>, sep: string): string {
    if |xs| == 0 then ""
    else if |xs| == 1 then xs[0]
    else xs[0] + sep + Join(xs[1..], sep)
  }

  /** Number of occurrences of character `c` in `s`. */
  function CountChar(s: string, c: char): nat {
    if s == [] then 0 else (if s[0] == c then 1 else 0) + CountChar(s[1..], c)
  }

  /** `s.split(c)` for a one-character separator: the pieces between the separators. */
  function Split(s: string, c: char): (r: seq<string>)
    ensures |r| == CountChar(s, c) + 1
    ensures forall k :: 0 <= k < |r| ==> c !in r[k]
    ensures Join(r, [c]) == s
  {
    if s == [] then [""]
    else
      var tail := Split(s[1..], c);
      if s[0] == c then
        assert s == [c] + s[1..];
        [""] + tail
      else
        assert s == [s[0]] + tail[0] + (if |tail| == 1 then "" else [c] + Join(tail[1..], [c]));
        [[s[0]] + tail[0]] + tail[1..]
  }

  /** A string without the separator is a single piece. */
  lemma {:induction false} SplitWhole(s: string, c: char)
    requires c !in s
    ensures Split(s, c) == [s]
  {
    if s != [] {
      assert c !in s[1..];
      SplitWhole(s[1..], c);
    }
  }

  /** Splitting the join of separator-free pieces gives the pieces back. */
  lemma {:induction false} SplitJoin(r: seq<string>, c: char)
    requires |r| >= 1 && forall k | 0 <= k < |r| :: c !in r[k]
    ensures Split(Join(r, [c]), c) == r
    decreases |r|, |r[0]|
  {
    if |r| == 1 {
      SplitWhole(r[0], c);
    } else if r[0] == [] {
      var s := Join(r, [c]);
      assert s == [c] + Join(r[1..], [c]);
      assert s[1..] == Join(r[1..], [c]);
      SplitJoin(r[1..], c);
    } else {
      var s := Join(r, [c]);
      var r' := [r[0][1..]] + r[1..];
      assert r'[1..] == r[1..];
      assert c !in r[0][1..] by {
        assert forall x | x in r[0][1..] :: x in r[0];
      }
      assert Join(r', [c]) == r[0][1..] + [c] + Join(r[1..], [c]);
      assert s == [r[0][0]] + Join(r', [c]);
      assert s[1..] == Join(r', [c]);
      SplitJoin(r', c);
      assert [r[0][0]] + r[0][1..] == r[0];
    }
  }

  /** `s.strip(c)` leaves a string that neither starts nor ends with `c` unchanged. */
  lemma StripCharNone(s: string, c: char)
    requires |s| == 0 || (s[0] != c && s[|s| - 1] != c)
    ensures StripChar(s, c) == s
  {
  }

  /** `s.strip(c)` removes one `c` on each side of a string that has no other `c` at its ends. */
  lemma StripCharQuoted(m: string, c: char)
    requires |m| > 0 && m[0] != c && m[|m| - 1] != c
    ensures StripChar([c] + m + [c], c) == m
  {
    var s := [c] + m + [c];
    assert SkipChar(s, c, 1) == 1;
    assert TrimChar(s, c, 1, |s| - 1) == |s| - 1;
    assert s[1..|s| - 1] == m;
  }

  /** `strip()` removes one leading space from a string that is otherwise trimmed. */
  lemma StripLeadingSpace(m: string)
    requires |m| > 0 && !IsSpace(m[0]) && !IsSpace(m[|m| - 1])
    ensures Strip([' '] + m) == m
  {
    var s := [' '] + m;
    assert SkipSpaces(s, 1) == 1;
    assert TrimSpaces(s, 1, |s|) == |s|;
    assert s[1..] == m;
  }
}
