/**
 * The CSS token scanners of the style analyser.
 *
 * Each regular expression of the analyser is replaced by a hand-written matcher
 * that decides, at one position, whether the expression matches there and
 * where the match ends. `FindAll` then scans like Python's `re.findall`:
 * leftmost matches, none overlapping, the next search starting where the last
 * match ended. All matching is case-insensitive and `\b` is the ASCII word
 * boundary.
 */
module Scanners {
  import opened Strings
  import opened Dom

  datatype Pattern =
    | HexColor     // #[0-9a-fA-F]{3,8}\b
    | RgbColor     // rgba?\([^)]+\)
    | HslColor     // hsla?\([^)]+\)
    | NamedColor   // \b(color|background-color|border-color|fill|stroke)\s*:\s*([a-z]+)\b, group 2
    | FontFamily   // font-family\s*:\s*([^;]+), group 1

  /** A match: where it ends, and the text `findall` reports for it. */
  datatype Match = Match(end: nat, capture: string)

  // ----- Character runs -----

  /** Number of hex digits starting at `j`. */
  function HexRun(s: string, j: nat): (n: nat)
    requires j <= |s|
    ensures j + n <= |s|
    ensures forall k | j <= k < j + n :: IsHexDigit(s[k])
    ensures j + n == |s| || !IsHexDigit(s[j + n])
    decreases |s| - j
  {
    if j < |s| && IsHexDigit(s[j]) then 1 + HexRun(s, j + 1) else 0
  }

  /** Number of letters starting at `j`. */
  function LetterRun(s: string, j: nat): (n: nat)
    requires j <= |s|
    ensures j + n <= |s|
    ensures forall k | j <= k < j + n :: IsLetter(s[k])
    ensures j + n == |s| || !IsLetter(s[j + n])
    decreases |s| - j
  {
    if j < |s| && IsLetter(s[j]) then 1 + LetterRun(s, j + 1) else 0
  }

  /** First index at or after `j` holding `c`, or `|s|`. */
  function Find(s: string, c: char, j: nat): (q: nat)
    requires j <= |s|
    ensures j <= q <= |s|
    ensures forall k | j <= k < q :: s[k] != c
    ensures q == |s| || s[q] == c
    decreases |s| - j
  {
    if j < |s| && s[j] != c then Find(s, c, j + 1) else j
  }

  /** `\b` just after a word character ending at `e`. */
  predicate BoundaryAfter(s: string, e: nat) {
    e >= |s| || !IsWordChar(s[e])
  }

  /** `\b` just before a word character starting at `i`. */
  predicate BoundaryBefore(s: string, i: nat) {
    i == 0 || i > |s| || !IsWordChar(s[i - 1])
  }

  /** The lower-case word `w` occurs at `i`, ignoring case. */
  predicate WordAt(s: string, i: nat, w: string) {
    i + |w| <= |s| && Lower(s[i..i + |w|]) == w
  }

  // ----- The matchers -----

  /**
   * `#[0-9a-fA-F]{3,8}\b`: the greedy repetition backs off only onto hex digits,
   * where no boundary can hold, so the whole run of digits must be 3 to 8 long
   * and be followed by a non-word character or the end.
   */
  function MatchHex(s: string, i: nat): Option<Match>
    requires i < |s|
  {
    if s[i] != '#' then None
    else
      var n := HexRun(s, i + 1);
      if 3 <= n <= 8 && BoundaryAfter(s, i + 1 + n) then Some(Match(i + 1 + n, s[i..i + 1 + n]))
      else None
  }

  /**
   * `rgba?\([^)]+\)` (or `hsla?...`): the name, an optional `a`, `(`, at least one
   * character up to the first `)`, and that `)`. Without the `a` the parenthesis
   * would have to stand where the `a` is, so an `a` not followed by `(` fails.
   */
  function MatchFunctional(s: string, i: nat, name: string): Option<Match>
    requires i < |s|
  {
    if !WordAt(s, i, name) then None
    else
      var p := if i + |name| < |s| && LowerChar(s[i + |name|]) == 'a' then i + |name| + 1 else i + |name|;
      if p < |s| && s[p] == '(' then
        var q := Find(s, ')', p + 1);
        if p + 1 < q < |s| then Some(Match(q + 1, s[i..q + 1])) else None
      else None
  }

  const ColorProperties: seq<string> := ["color", "background-color", "border-color", "fill", "stroke"]

  /** The end of the first colour property name (ignoring case) at `i`. */
  function PropertyAt(s: string, i: nat, k: nat): (r: Option<nat>)
    requires k <= |ColorProperties|
    ensures r.Some? ==> i < r.value <= |s|
    decreases |ColorProperties| - k
  {
    if k == |ColorProperties| then None
    else if WordAt(s, i, ColorProperties[k]) then Some(i + |ColorProperties[k]|)
    else PropertyAt(s, i, k + 1)
  }

  /**
   * `\s*:\s*([a-z]+)\b` from `j`, reporting the letters. Both `\s*` are greedy
   * and cannot usefully back off (a space is neither `:` nor a letter), and the
   * letter run is maximal, so the boundary must follow it directly.
   */
  function ColonLetters(s: string, j: nat): (r: Option<Match>)
    requires j <= |s|
    ensures r.Some? ==> j < r.value.end <= |s|
  {
    var c := SkipSpaces(s, j);
    if c < |s| && s[c] == ':' then
      var v := SkipSpaces(s, c + 1);
      var n := LetterRun(s, v);
      if n > 0 && BoundaryAfter(s, v + n) then Some(Match(v + n, s[v..v + n])) else None
    else None
  }

  /** `\b(color|background-color|border-color|fill|stroke)\s*:\s*([a-z]+)\b`, reporting group 2. */
  function MatchNamed(s: string, i: nat): Option<Match>
    requires i < |s|
  {
    if !BoundaryBefore(s, i) then None
    else match PropertyAt(s, i, 0)
      case None => None
      case Some(j) => ColonLetters(s, j)
  }

  /**
   * `font-family\s*:\s*([^;]+)`, reporting group 1: the text after the colon and
   * the spaces, up to the next `;`. When nothing but a `;` or the end follows the
   * spaces, the second `\s*` gives back one whitespace character, which becomes
   * the whole capture.
   */
  function MatchFont(s: string, i: nat): Option<Match>
    requires i < |s|
  {
    if !WordAt(s, i, "font-family") then None
    else
      var c := SkipSpaces(s, i + 11);
      if c < |s| && s[c] == ':' then
        var v := SkipSpaces(s, c + 1);
        var q := Find(s, ';', v);
        if q > v then Some(Match(q, s[v..q]))
        else if v > c + 1 then Some(Match(v, s[v - 1..v]))
        else None
      else None
  }

  /** The pattern matches at `i`. */
  function MatchAt(p: Pattern, s: string, i: nat): (r: Option<Match>)
    requires i < |s|
    ensures r.Some? ==> i < r.value.end <= |s|
  {
    match p
    case HexColor => MatchHex(s, i)
    case RgbColor => MatchFunctional(s, i, "rgb")
    case HslColor => MatchFunctional(s, i, "hsl")
    case NamedColor => MatchNamed(s, i)
    case FontFamily => MatchFont(s, i)
  }

  /** `re.findall(pattern, s[i:], re.IGNORECASE)`. */
  function FindAll(p: Pattern, s: string, i: nat): seq<string>
    requires i <= |s|
    decreases |s| - i
  {
    if i == |s| then []
    else match MatchAt(p, s, i)
      case Some(m) => [m.capture] + FindAll(p, s, m.end)
      case None => FindAll(p, s, i + 1)
  }

  // ----- extract_colors_from_style and extract_fonts_from_style -----

  const IgnoredNames: seq<string> := ["inherit", "initial", "unset", "transparent", "currentColor"]

  /** Named colours without the exact keywords of `IgnoredNames`. */
  function KeepNamed(names: seq<string>): (r: seq<string>)
    ensures forall t | t in r :: t in names && t !in IgnoredNames
    ensures forall t | t in names && t !in IgnoredNames :: t in r
  {
    if names == [] then []
    else (if names[0] in IgnoredNames then [] else [names[0]]) + KeepNamed(names[1..])
  }

  /** `extract_colors_from_style`: hex, then rgb, then hsl, then named colours. */
  function ExtractColors(s: string): seq<string> {
    FindAll(HexColor, s, 0) + FindAll(RgbColor, s, 0) + FindAll(HslColor, s, 0)
    + KeepNamed(FindAll(NamedColor, s, 0))
  }

  /** One font name: stripped of whitespace, then of `"`, then of `'`. */
  function CleanFontName(f: string): string {
    StripChar(StripChar(Strip(f), '"'), '\'')
  }

  /** The names of one `font-family` value, split at every comma. */
  function FontNames(value: string): (r: seq<string>)
    ensures |r| == CountChar(value, ',') + 1
  {
    var parts := Split(value, ',');
    seq(|parts|, k requires 0 <= k < |parts| => CleanFontName(parts[k]))
  }

  /** The names of every value, in order. */
  function FlattenNames(values: seq<string>): seq<string> {
    if values == [] then [] else FontNames(values[0]) + FlattenNames(values[1..])
  }

  /** `extract_fonts_from_style`. */
  function ExtractFonts(s: string): seq<string> {
    FlattenNames(FindAll(FontFamily, s, 0))
  }

  // ----- findall -----

  /** Every reported text is the capture of a match found at or after `i`. */
  lemma {:induction false} FindAllCaptures(p: Pattern, s: string, i: nat, t: string) returns (j: nat)
    requires i <= |s| && t in FindAll(p, s, i)
    ensures i <= j < |s| && MatchAt(p, s, j).Some? && MatchAt(p, s, j).value.capture == t
    decreases |s| - i
  {
    match MatchAt(p, s, i) {
      case Some(m) =>
        if t == m.capture {
          j := i;
        } else {
          j := FindAllCaptures(p, s, m.end, t);
        }
      case None =>
        j := FindAllCaptures(p, s, i + 1, t);
    }
  }

  /** Positions where nothing matches are passed over. */
  lemma {:induction false} FindAllSkip(p: Pattern, s: string, i: nat, j: nat)
    requires i <= j <= |s|
    requires forall k | i <= k < j :: MatchAt(p, s, k).None?
    ensures FindAll(p, s, i) == FindAll(p, s, j)
    decreases j - i
  {
    if i < j {
      assert MatchAt(p, s, i).None?;
      assert FindAll(p, s, i) == FindAll(p, s, i + 1);
      FindAllSkip(p, s, i + 1, j);
    }
  }

  /** The first match after a stretch of non-matching positions is reported first. */
  lemma FindAllFirst(p: Pattern, s: string, i: nat, j: nat)
    requires i <= j < |s|
    requires forall k | i <= k < j :: MatchAt(p, s, k).None?
    requires MatchAt(p, s, j).Some?
    ensures FindAll(p, s, i) == [MatchAt(p, s, j).value.capture] + FindAll(p, s, MatchAt(p, s, j).value.end)
  {
    FindAllSkip(p, s, i, j);
  }

  /** A case-insensitive word fixes the case-folded characters it covers. */
  lemma WordAtChar(s: string, i: nat, w: string, j: nat)
    requires WordAt(s, i, w) && j < |w|
    ensures i + j < |s| && LowerChar(s[i + j]) == w[j]
  {
    assert Lower(s[i..i + |w|])[j] == w[j];
  }

  // ----- Hex colours -----

  /**
   * The text `s[i..e]` matches `#[0-9a-fA-F]{3,8}\b`: a `#`, 3 to 8 hex digits
   * and a word boundary after the last digit.
   */
  ghost predicate HexMatch(s: string, i: nat, e: nat) {
    && i < e <= |s| && 4 <= e - i <= 9 && s[i] == '#'
    && (forall k | i < k < e :: IsHexDigit(s[k]))
    && BoundaryAfter(s, e)
  }

  lemma {:induction false} HexRunCovers(s: string, j: nat, m: nat)
    requires j + m <= |s| && forall k | j <= k < j + m :: IsHexDigit(s[k])
    ensures HexRun(s, j) >= m
    decreases m
  {
    if m > 0 {
      HexRunCovers(s, j + 1, m - 1);
    }
  }

  /** The hex matcher finds a match exactly when the pattern matches, and reports it whole. */
  lemma MatchHexIff(s: string, i: nat)
    requires i < |s|
    ensures MatchHex(s, i).Some? <==> exists e :: HexMatch(s, i, e)
    ensures MatchHex(s, i).Some? ==>
      HexMatch(s, i, MatchHex(s, i).value.end) && MatchHex(s, i).value.capture == s[i..MatchHex(s, i).value.end]
  {
    if MatchHex(s, i).Some? {
      assert HexMatch(s, i, i + 1 + HexRun(s, i + 1));
    }
    if e: nat :| HexMatch(s, i, e) {
      HexRunCovers(s, i + 1, e - i - 1);
      if e < |s| {
        assert !IsHexDigit(s[e]);
      }
    }
  }

  /** Every hex token is `#` and 3 to 8 hex digits. */
  lemma HexTokens(s: string, t: string)
    requires t in FindAll(HexColor, s, 0)
    ensures 4 <= |t| <= 9 && t[0] == '#'
    ensures forall k | 1 <= k < |t| :: IsHexDigit(t[k])
  {
    var j := FindAllCaptures(HexColor, s, 0, t);
    MatchHexIff(s, j);
    var e := MatchHex(s, j).value.end;
    forall k | 1 <= k < |t|
      ensures IsHexDigit(t[k])
    {
      assert t[k] == s[j + k];
    }
  }

  /** `#` and a run of hex digits: the matcher sees the whole run. */
  lemma HashRun(d: string)
    requires forall k | 0 <= k < |d| :: IsHexDigit(d[k])
    ensures ("#" + d)[0] == '#' && HexRun("#" + d, 1) == |d|
    ensures forall k | 1 <= k < 1 + |d| :: ("#" + d)[k] != '#'
  {
    var s := "#" + d;
    assert forall k | 1 <= k < |s| :: s[k] == d[k - 1];
    HexRunCovers(s, 1, |d|);
  }

  lemma HexWholeMatch(d: string)
    requires 3 <= |d| <= 8 && forall k | 0 <= k < |d| :: IsHexDigit(d[k])
    ensures MatchAt(HexColor, "#" + d, 0) == Some(Match(1 + |d|, "#" + d))
  {
    var s := "#" + d;
    HashRun(d);
    assert BoundaryAfter(s, 1 + |d|);
    assert s[0..1 + |d|] == s;
  }

  /** A `#` with any 3 to 8 hex digits is one token, 5 and 7 digits included. */
  lemma HexDigitsAccepted(d: string)
    requires 3 <= |d| <= 8 && forall k | 0 <= k < |d| :: IsHexDigit(d[k])
    ensures FindAll(HexColor, "#" + d, 0) == ["#" + d]
  {
    HexWholeMatch(d);
  }

  /** A `#` followed by 9 or more hex digits gives no token at all. */
  lemma LongHexRunRejected(d: string)
    requires |d| >= 9 && forall k | 0 <= k < |d| :: IsHexDigit(d[k])
    ensures FindAll(HexColor, "#" + d, 0) == []
  {
    var s := "#" + d;
    HashRun(d);
    assert forall k | 0 <= k < |s| :: MatchAt(HexColor, s, k).None?;
    FindAllSkip(HexColor, s, 0, |s|);
  }

  // ----- rgb() and hsl() colours -----

  lemma {:induction false} FindAt(s: string, c: char, j: nat, q: nat)
    requires j <= q <= |s| && (q == |s| || s[q] == c)
    requires forall k | j <= k < q :: s[k] != c
    ensures Find(s, c, j) == q
    decreases q - j
  {
    if j < q {
      FindAt(s, c, j + 1, q);
    }
  }

  /**
   * The text `s[i..e]` matches `<name>a?\([^)]+\)` (ignoring case), with the
   * opening parenthesis at `p`.
   */
  ghost predicate FunctionalMatch(s: string, i: nat, name: string, p: nat, e: nat) {
    && WordAt(s, i, name)
    && p + 2 < e <= |s|
    && (p == i + |name| || (p == i + |name| + 1 && LowerChar(s[i + |name|]) == 'a'))
    && s[p] == '(' && s[e - 1] == ')'
    && forall k | p < k < e - 1 :: s[k] != ')'
  }

  /** A match found by the functional matcher is a match of the pattern, reported whole. */
  lemma MatchFunctionalSound(s: string, i: nat, name: string) returns (p: nat)
    requires i < |s| && MatchFunctional(s, i, name).Some?
    ensures FunctionalMatch(s, i, name, p, MatchFunctional(s, i, name).value.end)
    ensures MatchFunctional(s, i, name).value.capture == s[i..MatchFunctional(s, i, name).value.end]
  {
    p := if i + |name| < |s| && LowerChar(s[i + |name|]) == 'a' then i + |name| + 1 else i + |name|;
  }

  /** Every match of the pattern is found by the functional matcher. */
  lemma MatchFunctionalComplete(s: string, i: nat, name: string, p: nat, e: nat)
    requires i < |s| && FunctionalMatch(s, i, name, p, e)
    ensures MatchFunctional(s, i, name) == Some(Match(e, s[i..e]))
  {
    FindAt(s, ')', p + 1, e - 1);
  }

  /** The functional matcher finds a match exactly when the pattern matches. */
  lemma MatchFunctionalIff(s: string, i: nat, name: string)
    requires i < |s|
    ensures MatchFunctional(s, i, name).Some? <==> exists p, e :: FunctionalMatch(s, i, name, p, e)
  {
    if MatchFunctional(s, i, name).Some? {
      var p := MatchFunctionalSound(s, i, name);
    }
    if p: nat, e: nat :| FunctionalMatch(s, i, name, p, e) {
      MatchFunctionalComplete(s, i, name, p, e);
    }
  }

  /** A functional token on its own. */
  ghost predicate FunctionalToken(t: string, name: string) {
    exists p :: FunctionalMatch(t, 0, name, p, |t|)
  }

  lemma FunctionalShift(s: string, j: nat, name: string, p: nat, e: nat)
    requires j <= p && FunctionalMatch(s, j, name, p, e)
    ensures FunctionalMatch(s[j..e], 0, name, p - j, e - j)
  {
    var t := s[j..e];
    assert t[0..|name|] == s[j..j + |name|];
    forall k | p - j < k < |t| - 1
      ensures t[k] != ')'
    {
      assert t[k] == s[j + k];
    }
  }

  lemma FunctionalTokenAt(s: string, j: nat, name: string)
    requires j < |s| && MatchFunctional(s, j, name).Some?
    ensures FunctionalToken(MatchFunctional(s, j, name).value.capture, name)
  {
    var p := MatchFunctionalSound(s, j, name);
    var e := MatchFunctional(s, j, name).value.end;
    FunctionalShift(s, j, name, p, e);
    assert FunctionalMatch(s[j..e], 0, name, p - j, |s[j..e]|);
  }

  /**
   * Every rgb token is `rgb(` or `rgba(` (any case), a non-empty interior
   * without `)`, and `)`; likewise every hsl token with `hsl`.
   */
  lemma FunctionalTokens(pat: Pattern, s: string, t: string)
    requires pat == RgbColor || pat == HslColor
    requires t in FindAll(pat, s, 0)
    ensures FunctionalToken(t, if pat == RgbColor then "rgb" else "hsl")
  {
    var j := FindAllCaptures(pat, s, 0, t);
    if pat == RgbColor {
      FunctionalTokenAt(s, j, "rgb");
    } else {
      FunctionalTokenAt(s, j, "hsl");
    }
  }

  // ----- Named colours -----

  /** At most one colour property name starts at any position. */
  lemma PropertyUnique(s: string, i: nat, k1: nat, k2: nat)
    requires k1 < |ColorProperties| && k2 < |ColorProperties|
    requires WordAt(s, i, ColorProperties[k1]) && WordAt(s, i, ColorProperties[k2])
    ensures k1 == k2
  {
    WordAtChar(s, i, ColorProperties[k1], 0);
    WordAtChar(s, i, ColorProperties[k2], 0);
    WordAtChar(s, i, ColorProperties[k1], 1);
    WordAtChar(s, i, ColorProperties[k2], 1);
  }

  /** The property scan finds a property exactly when one is there, and ends after it. */
  lemma {:induction false} PropertyAtIff(s: string, i: nat, k0: nat)
    requires k0 <= |ColorProperties|
    ensures PropertyAt(s, i, k0).Some? <==> exists k | k0 <= k < |ColorProperties| :: WordAt(s, i, ColorProperties[k])
    ensures forall k | k0 <= k < |ColorProperties| && WordAt(s, i, ColorProperties[k]) ::
      PropertyAt(s, i, k0) == Some(i + |ColorProperties[k]|)
    decreases |ColorProperties| - k0
  {
    if k0 < |ColorProperties| {
      if WordAt(s, i, ColorProperties[k0]) {
        forall k | k0 <= k < |ColorProperties| && WordAt(s, i, ColorProperties[k])
          ensures k == k0
        {
          PropertyUnique(s, i, k, k0);
        }
      } else {
        PropertyAtIff(s, i, k0 + 1);
      }
    }
  }

  lemma {:induction false} LetterRunCovers(s: string, j: nat, m: nat)
    requires j + m <= |s| && forall k | j <= k < j + m :: IsLetter(s[k])
    ensures LetterRun(s, j) >= m
    decreases m
  {
    if m > 0 {
      LetterRunCovers(s, j + 1, m - 1);
    }
  }

  /** `s[lo..hi]` is whitespace. */
  predicate Spaces(s: string, lo: nat, hi: nat) {
    forall t | lo <= t < hi && t < |s| :: IsSpace(s[t])
  }

  /** `s[lo..hi]` is letters. */
  predicate Letters(s: string, lo: nat, hi: nat) {
    forall t | lo <= t < hi && t < |s| :: IsLetter(s[t])
  }

  /** `\s*` from `lo` stops at `hi`. */
  lemma SkipTo(s: string, lo: nat, hi: nat)
    requires lo <= hi <= |s| && Spaces(s, lo, hi) && (hi == |s| || !IsSpace(s[hi]))
    ensures SkipSpaces(s, lo) == hi
  {
    AllSpacesSlice(s, lo, hi);
    SkipSpacesStopsAt(s, lo, hi);
  }

  /**
   * From `j`: whitespace, the colon at `c`, whitespace, and the letters
   * `s[v..e]` closed by a word boundary.
   */
  ghost predicate ColonMatch(s: string, j: nat, c: nat, v: nat, e: nat) {
    && j <= c < v < e <= |s|
    && Spaces(s, j, c) && s[c] == ':' && Spaces(s, c + 1, v)
    && Letters(s, v, e) && BoundaryAfter(s, e)
  }

  /**
   * The text `s[i..e]` matches the named-colour pattern: a word boundary, the
   * `k`-th colour property (ignoring case), and then a colon and letters.
   */
  ghost predicate NamedMatch(s: string, i: nat, k: nat, c: nat, v: nat, e: nat) {
    && k < |ColorProperties| && BoundaryBefore(s, i) && WordAt(s, i, ColorProperties[k])
    && ColonMatch(s, i + |ColorProperties[k]|, c, v, e)
  }

  lemma ColonLettersSound(s: string, j: nat) returns (c: nat, v: nat)
    requires j <= |s| && ColonLetters(s, j).Some?
    ensures ColonMatch(s, j, c, v, ColonLetters(s, j).value.end)
    ensures ColonLetters(s, j).value.capture == s[v..ColonLetters(s, j).value.end]
  {
    c := SkipSpaces(s, j);
    v := SkipSpaces(s, c + 1);
  }

  lemma ColonLettersComplete(s: string, j: nat, c: nat, v: nat, e: nat)
    requires ColonMatch(s, j, c, v, e)
    ensures ColonLetters(s, j) == Some(Match(e, s[v..e]))
  {
    SkipTo(s, j, c);
    SkipTo(s, c + 1, v);
    LetterRunCovers(s, v, e - v);
    if e < |s| {
      assert !IsLetter(s[e]);
    }
  }

  lemma MatchNamedVia(s: string, i: nat, j: nat)
    requires i < |s| && BoundaryBefore(s, i) && PropertyAt(s, i, 0) == Some(j)
    ensures MatchNamed(s, i) == ColonLetters(s, j)
  {
  }

  /** A match found by the named-colour matcher is a match of the pattern, reporting group 2. */
  lemma MatchNamedSound(s: string, i: nat) returns (k: nat, c: nat, v: nat)
    requires i < |s| && MatchNamed(s, i).Some?
    ensures NamedMatch(s, i, k, c, v, MatchNamed(s, i).value.end)
    ensures MatchNamed(s, i).value.capture == s[v..MatchNamed(s, i).value.end]
  {
    PropertyAtIff(s, i, 0);
    k :| 0 <= k < |ColorProperties| && WordAt(s, i, ColorProperties[k]);
    MatchNamedVia(s, i, i + |ColorProperties[k]|);
    c, v := ColonLettersSound(s, i + |ColorProperties[k]|);
  }

  /** Every match of the pattern is found by the named-colour matcher. */
  lemma MatchNamedComplete(s: string, i: nat, k: nat, c: nat, v: nat, e: nat)
    requires i < |s| && NamedMatch(s, i, k, c, v, e)
    ensures MatchNamed(s, i) == Some(Match(e, s[v..e]))
  {
    PropertyAtIff(s, i, 0);
    MatchNamedVia(s, i, i + |ColorProperties[k]|);
    ColonLettersComplete(s, i + |ColorProperties[k]|, c, v, e);
  }

  /** The named-colour matcher finds a match exactly when the pattern matches. */
  lemma MatchNamedIff(s: string, i: nat)
    requires i < |s|
    ensures MatchNamed(s, i).Some? <==> exists k, c, v, e :: NamedMatch(s, i, k, c, v, e)
  {
    if MatchNamed(s, i).Some? {
      var k, c, v := MatchNamedSound(s, i);
    }
    if k: nat, c: nat, v: nat, e: nat :| NamedMatch(s, i, k, c, v, e) {
      MatchNamedComplete(s, i, k, c, v, e);
    }
  }

  /** Every named-colour token is a non-empty run of letters. */
  lemma NamedTokens(s: string, t: string)
    requires t in FindAll(NamedColor, s, 0)
    ensures |t| > 0 && forall k | 0 <= k < |t| :: IsLetter(t[k])
  {
    var j := FindAllCaptures(NamedColor, s, 0, t);
    var k, c, v := MatchNamedSound(s, j);
    LettersSlice(s, v, MatchNamed(s, j).value.end);
  }

  lemma LettersSlice(s: string, v: nat, e: nat)
    requires v <= e <= |s| && Letters(s, v, e)
    ensures forall x | 0 <= x < e - v :: IsLetter(s[v..e][x])
  {
    forall x | 0 <= x < e - v
      ensures IsLetter(s[v..e][x])
    {
      assert s[v..e][x] == s[v + x];
    }
  }

  // ----- font-family values -----

  /**
   * The text from `i` matches `font-family\s*:\s*([^;]+)` (ignoring case) with
   * the colon at `c` and group 1 being `s[v..e]`: whitespace, the colon,
   * whitespace, and then characters other than `;` up to a `;` or the end.
   */
  ghost predicate FontMatch(s: string, i: nat, c: nat, v: nat, e: nat) {
    && WordAt(s, i, "font-family")
    && i + 11 <= c < v < e <= |s|
    && (forall t | i + 11 <= t < c :: IsSpace(s[t])) && s[c] == ':'
    && (forall t | c < t < v :: IsSpace(s[t]))
    && (forall t | v <= t < e :: s[t] != ';') && (e == |s| || s[e] == ';')
  }

  /**
   * A match found by the font matcher is a match of the pattern whose group is
   * what it reports; the greedy second `\s*` leaves a group that starts with a
   * non-space character, unless the group is a single whitespace character.
   */
  lemma MatchFontSound(s: string, i: nat) returns (c: nat, v: nat)
    requires i < |s| && MatchFont(s, i).Some?
    ensures FontMatch(s, i, c, v, MatchFont(s, i).value.end)
    ensures MatchFont(s, i).value.capture == s[v..MatchFont(s, i).value.end]
    ensures !IsSpace(s[v]) || MatchFont(s, i).value.end == v + 1
  {
    c := SkipSpaces(s, i + 11);
    var v0 := SkipSpaces(s, c + 1);
    v := if Find(s, ';', v0) > v0 then v0 else v0 - 1;
  }

  lemma {:induction false} SkipSpacesCovers(s: string, i: nat, j: nat)
    requires i <= j <= |s| && forall t | i <= t < j :: IsSpace(s[t])
    ensures SkipSpaces(s, i) >= j
    decreases j - i
  {
    if i < j {
      SkipSpacesCovers(s, i + 1, j);
    }
  }

  /** Whenever the pattern matches at `i`, the font matcher finds a match. */
  lemma MatchFontComplete(s: string, i: nat, c: nat, v: nat, e: nat)
    requires i < |s| && FontMatch(s, i, c, v, e)
    ensures MatchFont(s, i).Some?
  {
    AllSpacesSlice(s, i + 11, c);
    SkipSpacesStopsAt(s, i + 11, c);
    SkipSpacesCovers(s, c + 1, v);
    var v0 := SkipSpaces(s, c + 1);
    if v0 == c + 1 {
      assert v == v0 && s[v] != ';';
    }
  }

  /** The font matcher finds a match exactly when the pattern matches. */
  lemma MatchFontIff(s: string, i: nat)
    requires i < |s|
    ensures MatchFont(s, i).Some? <==> exists c, v, e :: FontMatch(s, i, c, v, e)
  {
    if MatchFont(s, i).Some? {
      var c, v := MatchFontSound(s, i);
    }
    if c: nat, v: nat, e: nat :| FontMatch(s, i, c, v, e) {
      MatchFontComplete(s, i, c, v, e);
    }
  }

  /** Every `font-family` value is non-empty and holds no `;`. */
  lemma FontValues(s: string, t: string)
    requires t in FindAll(FontFamily, s, 0)
    ensures |t| > 0 && ';' !in t
  {
    var j := FindAllCaptures(FontFamily, s, 0, t);
    var c, v := MatchFontSound(s, j);
    NoSemicolon(s, v, MatchFont(s, j).value.end);
  }

  lemma NoSemicolon(s: string, v: nat, e: nat)
    requires v <= e <= |s| && forall t | v <= t < e :: s[t] != ';'
    ensures ';' !in s[v..e]
  {
    forall x | 0 <= x < e - v
      ensures s[v..e][x] != ';'
    {
      assert s[v..e][x] == s[v + x];
    }
  }

  // ----- Examples -----

  /** A name in double quotes loses its quotes. */
  lemma DoubleQuotedName(m: string)
    requires |m| > 0 && !IsSpace(m[0]) && !IsSpace(m[|m| - 1])
    requires m[0] != '"' && m[|m| - 1] != '"' && m[0] != '\'' && m[|m| - 1] != '\''
    ensures CleanFontName(['"'] + m + ['"']) == m
  {
    StripTrimmed(['"'] + m + ['"']);
    StripCharQuoted(m, '"');
    StripCharNone(m, '\'');
  }

  /** A bare name after a comma and a space loses the space. */
  lemma SpacedName(m: string)
    requires |m| > 0 && !IsSpace(m[0]) && !IsSpace(m[|m| - 1])
    requires m[0] != '"' && m[|m| - 1] != '"' && m[0] != '\'' && m[|m| - 1] != '\''
    ensures CleanFontName([' '] + m) == m
  {
    StripLeadingSpace(m);
    StripCharNone(m, '"');
    StripCharNone(m, '\'');
  }

  lemma HelveticaSplit(a: string, b: string, c: string)
    requires a == ['"'] + "Helvetica Neue" + ['"'] && b == [' '] + "Arial" && c == [' '] + "sans-serif"
    ensures Split(a + [','] + b + [','] + c, ',') == [a, b, c]
  {
    assert [a, b, c][1..] == [b, c] && [b, c][1..] == [c];
    assert Join([c], [',']) == c;
    assert Join([b, c], [',']) == b + [','] + c;
    assert Join([a, b, c], [',']) == a + [','] + (b + [','] + c);
    assert a + [','] + (b + [','] + c) == a + [','] + b + [','] + c;
    SplitJoin([a, b, c], ',');
  }

  lemma FontNamesOfThree(v: string, a: string, b: string, c: string)
    requires Split(v, ',') == [a, b, c]
    ensures FontNames(v) == [CleanFontName(a), CleanFontName(b), CleanFontName(c)]
  {
  }

  lemma HelveticaPieces(v: string)
    requires v == "\"Helvetica Neue\", Arial, sans-serif"
    ensures v == (['"'] + "Helvetica Neue" + ['"']) + [','] + ([' '] + "Arial") + [','] + ([' '] + "sans-serif")
  {
  }

  lemma HelveticaQuoted()
    ensures CleanFontName(['"'] + "Helvetica Neue" + ['"']) == "Helvetica Neue"
  {
    DoubleQuotedName("Helvetica Neue");
  }

  /** The two names after a comma and a space come out clean. */
  lemma SpacedNamesClean()
    ensures CleanFontName([' '] + "Arial") == "Arial"
    ensures CleanFontName([' '] + "sans-serif") == "sans-serif"
  {
    SpacedName("Arial");
    SpacedName("sans-serif");
  }

  /** `"Helvetica Neue", Arial, sans-serif` gives three clean names. */
  lemma HelveticaNames(v: string)
    requires v == "\"Helvetica Neue\", Arial, sans-serif"
    ensures FontNames(v) == ["Helvetica Neue", "Arial", "sans-serif"]
  {
    var a, b, c := ['"'] + "Helvetica Neue" + ['"'], [' '] + "Arial", [' '] + "sans-serif";
    HelveticaPieces(v);
    HelveticaSplit(a, b, c);
    FontNamesOfThree(v, a, b, c);
    HelveticaQuoted();
    SpacedNamesClean();
  }

  /** Whitespace inside the quotes survives: there is no second whitespace strip. */
  lemma QuotedSpaceKept()
    ensures CleanFontName("' Arial'") == " Arial"
  {
    assert "' Arial'" == ['\''] + " Arial" + ['\''];
    StripTrimmed("' Arial'");
    StripCharNone("' Arial'", '"');
    StripCharQuoted(" Arial", '\'');
  }

  // ----- Where a match can start -----

  /** A style without `#` has no hex colour. */
  lemma NoHashNoHex(s: string)
    requires '#' !in s
    ensures FindAll(HexColor, s, 0) == []
  {
    forall k | 0 <= k < |s|
      ensures MatchAt(HexColor, s, k).None?
    {
      assert s[k] in s;
    }
    FindAllSkip(HexColor, s, 0, |s|);
  }

  /** No functional match starts where the function name does not. */
  lemma FunctionalNeedsName(s: string, k: nat, name: string)
    requires k < |s| && |name| > 0 && LowerChar(s[k]) != name[0]
    ensures MatchFunctional(s, k, name).None?
  {
    if k + |name| <= |s| {
      assert Lower(s[k..k + |name|])[0] == LowerChar(s[k]);
    }
  }

  /** No functional match starts where no `(` follows the name or its `a`. */
  lemma FunctionalNeedsParen(s: string, k: nat, name: string)
    requires k < |s|
    requires k + |name| < |s| ==> s[k + |name|] != '('
    requires k + |name| + 1 < |s| ==> s[k + |name| + 1] != '('
    ensures MatchFunctional(s, k, name).None?
  {
  }

  /** No named-colour match starts on a character that is not a letter. */
  lemma NamedNeedsLetter(s: string, k: nat)
    requires k < |s| && !IsLetter(s[k])
    ensures MatchNamed(s, k).None?
  {
    forall p | 0 <= p < |ColorProperties| && WordAt(s, k, ColorProperties[p])
      ensures false
    {
      WordAtChar(s, k, ColorProperties[p], 0);
    }
    PropertyAtIff(s, k, 0);
  }

  // ----- `background-color: rgba(0,0,0,0.5)` -----

  /** The pieces of `background-color: rgba(0,0,0,0.5)` the examples below look at. */
  ghost predicate QuirkShape(s: string) {
    && |s| == 33 && s[..22] == "background-color: rgba" && s[22] == '(' && s[23..32] == "0,0,0,0.5" && s[32] == ')'
    && s[22..] == "(0,0,0,0.5)"
    && s[0..16] == "background-color" && s[16] == ':' && s[17] == ' ' && s[18..21] == "rgb" && s[21] == 'a'
    && s[18..22] == "rgba" && s[18..33] == "rgba(0,0,0,0.5)"
  }

  lemma QuirkSplit(s: string)
    requires s == "background-color: rgba(0,0,0,0.5)"
    ensures |s| == 33 && s[..22] == "background-color: rgba" && s[22..] == "(0,0,0,0.5)"
  {
  }

  lemma QuirkDetails(s: string)
    requires |s| == 33 && s[..22] == "background-color: rgba" && s[22..] == "(0,0,0,0.5)"
    ensures QuirkShape(s)
  {
    assert s[0..16] == s[..22][0..16];
    assert s[18..21] == s[..22][18..21] && s[18..22] == s[..22][18..22];
    assert s[23..32] == s[22..][1..10] && s[32] == s[22..][10];
    assert s[18..33] == s[..22][18..] + s[22..];
  }

  lemma QuirkPieces(s: string)
    requires s == "background-color: rgba(0,0,0,0.5)"
    ensures QuirkShape(s)
  {
    QuirkSplit(s);
    QuirkDetails(s);
  }

  lemma QuirkHex(s: string)
    requires s == "background-color: rgba(0,0,0,0.5)"
    ensures FindAll(HexColor, s, 0) == []
  {
    NoHashNoHex(s);
  }

  lemma QuirkHsl(s: string)
    requires s == "background-color: rgba(0,0,0,0.5)"
    ensures FindAll(HslColor, s, 0) == []
  {
    forall k | 0 <= k < |s|
      ensures MatchAt(HslColor, s, k).None?
    {
      assert s[k] in s;
      FunctionalNeedsName(s, k, "hsl");
    }
    FindAllSkip(HslColor, s, 0, |s|);
  }

  lemma QuirkRgbMatch(s: string)
    requires QuirkShape(s)
    ensures MatchAt(RgbColor, s, 18) == Some(Match(33, "rgba(0,0,0,0.5)"))
  {
    assert Lower(s[18..21]) == "rgb" by {
      LowerKeeps("rgb");
    }
    forall k | 22 < k < 32
      ensures s[k] != ')'
    {
      assert s[k] == s[23..32][k - 23];
    }
    assert FunctionalMatch(s, 18, "rgb", 22, 33);
    MatchFunctionalComplete(s, 18, "rgb", 22, 33);
  }

  lemma QuirkRgb(s: string)
    requires QuirkShape(s)
    ensures FindAll(RgbColor, s, 0) == ["rgba(0,0,0,0.5)"]
  {
    forall k | 0 <= k < 18
      ensures MatchAt(RgbColor, s, k).None?
    {
      assert s[k + 3] in s[..22] && s[k + 4] in s[..22];
      FunctionalNeedsParen(s, k, "rgb");
    }
    QuirkRgbMatch(s);
    FindAllFirst(RgbColor, s, 0, 18);
  }

  lemma QuirkNamedMatch(s: string)
    requires QuirkShape(s)
    ensures MatchAt(NamedColor, s, 0) == Some(Match(22, "rgba"))
  {
    assert WordAt(s, 0, ColorProperties[1]) by {
      LowerKeeps("background-color");
    }
    assert Letters(s, 18, 22);
    assert ColonMatch(s, 16, 16, 18, 22);
    MatchNamedComplete(s, 0, 1, 16, 18, 22);
  }

  lemma QuirkNamed(s: string)
    requires QuirkShape(s)
    ensures FindAll(NamedColor, s, 0) == ["rgba"]
  {
    QuirkNamedMatch(s);
    forall k | 22 <= k < 33
      ensures MatchAt(NamedColor, s, k).None?
    {
      assert s[k] in s[22..];
      NamedNeedsLetter(s, k);
    }
    FindAllSkip(NamedColor, s, 22, 33);
  }

  lemma QuirkColors(s: string)
    requires QuirkShape(s) && FindAll(HexColor, s, 0) == [] && FindAll(HslColor, s, 0) == []
    ensures ExtractColors(s) == ["rgba(0,0,0,0.5)", "rgba"]
  {
    QuirkRgb(s);
    QuirkNamed(s);
    assert KeepNamed(["rgba"]) == ["rgba"];
  }

  /**
   * `background-color: rgba(0,0,0,0.5)` yields the rgba value, and the named
   * colour rule also reports the bare function name `rgba`.
   */
  lemma FunctionNameAlsoNamed(s: string)
    requires s == "background-color: rgba(0,0,0,0.5)"
    ensures ExtractColors(s) == ["rgba(0,0,0,0.5)", "rgba"]
  {
    QuirkPieces(s);
    QuirkHex(s);
    QuirkHsl(s);
    QuirkColors(s);
  }
}
