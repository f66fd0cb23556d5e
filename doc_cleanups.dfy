/**
 * The "Works cited" heading cleanup applied to Gemini Deep Research output
 * (src/texpr/doc_cleanups.py). The source performs one case-insensitive
 * `re.sub` of the pattern `#{1,6}\s+(works\s+cited)` by `## Works Cited`.
 *
 * `MatchAt` is the matcher: it reads, part by part, the unique match that
 * begins at a position, if any. `MatchesAt` is an independent, declarative
 * statement of the pattern's language. `Scan` is the rewrite: it goes left
 * to right, replaces the leftmost match, resumes right after it, and copies
 * every other character unchanged.
 *
 * Characters are compared as Python's `re` compares them on `str` patterns
 * under IGNORECASE, and whitespace is what `\s` matches there.
 */
module DocCleanups {
  import opened Wrappers

  /** The text written in place of every match. */
  const Replacement: string := "## Works Cited"

  /** The two words of the pattern, in lower case. */
  const Works: string := "works"
  const Cited: string := "cited"

  /**
   * What `\s` matches on a `str` pattern, which is what `str.isspace`
   * accepts: tab, line feed, vertical tab, form feed and carriage return,
   * the four information separators, space, next line, no-break space,
   * ogham space mark, the spaces from en quad to hair space, line and
   * paragraph separators, narrow no-break space, medium mathematical space
   * and ideographic space.
   */
  predicate IsSpace(c: char) {
    || ('\t' <= c <= '\r')
    || ('\U{1C}' <= c <= ' ')
    || c == '\U{85}' || c == '\U{A0}' || c == '\U{1680}'
    || ('\U{2000}' <= c <= '\U{200A}')
    || c == '\U{2028}' || c == '\U{2029}' || c == '\U{202F}' || c == '\U{205F}'
    || c == '\U{3000}'
  }

  /**
   * Under IGNORECASE, the character `c` of the text matches the letter `l`
   * of the pattern: `c` is `l`, its ASCII capital, or one of the letters
   * Python folds onto it besides: capital I with dot above and dotless i
   * onto `i`, the Kelvin sign onto `k` and long s onto `s`.
   */
  predicate LetterMatches(c: char, l: char) {
    || c == l
    || ('A' <= c <= 'Z' && c as int + 32 == l as int)
    || (l == 'i' && (c == '\U{130}' || c == '\U{131}'))
    || (l == 'k' && c == '\U{212A}')
    || (l == 's' && c == '\U{17F}')
  }

  /** The length of the run of `#` that begins at position `i` of `s`. */
  function HashRun(s: string, i: nat): (n: nat)
    requires i <= |s|
    ensures i + n <= |s|
    decreases |s| - i
  {
    if i < |s| && s[i] == '#' then 1 + HashRun(s, i + 1) else 0
  }

  /** The length of the run of whitespace that begins at position `i` of `s`. */
  function SpaceRun(s: string, i: nat): (n: nat)
    requires i <= |s|
    ensures i + n <= |s|
    decreases |s| - i
  {
    if i < |s| && IsSpace(s[i]) then 1 + SpaceRun(s, i + 1) else 0
  }

  /** The word `w` stands at position `i` of `s`, letter case ignored. */
  predicate WordAt(s: string, i: nat, w: string) {
    i + |w| <= |s| && forall k :: 0 <= k < |w| ==> LetterMatches(s[i + k], w[k])
  }

  /**
   * From position `p`, `s` reads `#{a} \s{b} works \s{c} cited` (letter case
   * ignored), with `a` between 1 and 6 and `b`, `c` at least 1.
   */
  predicate Shaped(s: string, p: nat, a: nat, b: nat, c: nat) {
    && 1 <= a <= 6 && 1 <= b && 1 <= c
    && p + a + b + c + 10 <= |s|
    && (forall k :: p <= k < p + a ==> s[k] == '#')
    && (forall k :: p + a <= k < p + a + b ==> IsSpace(s[k]))
    && WordAt(s, p + a + b, Works)
    && (forall k :: p + a + b + 5 <= k < p + a + b + 5 + c ==> IsSpace(s[k]))
    && WordAt(s, p + a + b + 5 + c, Cited)
  }

  /**
   * `s[p..e]` is in the language of `#{1,6}\s+works\s+cited` under
   * IGNORECASE: some choice of the three run lengths spells it out.
   */
  ghost predicate MatchesAt(s: string, p: nat, e: nat) {
    exists a: nat, b: nat, c: nat :: e == p + a + b + c + 10 && Shaped(s, p, a, b, c)
  }

  /** The whole of `t` is one match of the pattern. */
  ghost predicate IsMatch(t: string) {
    MatchesAt(t, 0, |t|)
  }

  /** No match of the pattern begins at a position in `[i, j)` of `s`. */
  ghost predicate NoMatchBetween(s: string, i: nat, j: nat) {
    forall q: nat, e: nat :: i <= q < j ==> !MatchesAt(s, q, e)
  }

  /** No match of the pattern occurs anywhere in `s`. */
  ghost predicate NoMatchIn(s: string) {
    NoMatchBetween(s, 0, |s|)
  }

  /** The three parts of the pattern, each with what precedes its word. */
  datatype Part =
    | AtHashes   // `#{1,6}`, before `\s+works`
    | AtWorks    // `\s+works`, before `\s+cited`
    | AtCited    // `\s+cited`, the last part

  /** The number of parts still to be matched after `part`. */
  function PartsAfter(part: Part): (n: nat)
    ensures n <= 2
  {
    match part
    case AtHashes => 2
    case AtWorks => 1
    case AtCited => 0
  }

  /** The fewest characters the pattern from `part` onwards can match. */
  function MinLength(part: Part): (n: nat)
    ensures n >= 6
  {
    match part
    case AtHashes => 13
    case AtWorks => 12
    case AtCited => 6
  }

  /**
   * Matching the pattern from `part` onwards at position `i` of `s`: the end
   * of the match, or `None`. The greedy `#{1,6}` takes the whole run of `#`
   * (a longer run fails), and each `\s+` the whole run of whitespace; as
   * neither `#` nor whitespace can start the next part, backing off would
   * not help.
   */
  function MatchFrom(s: string, i: nat, part: Part): (r: Option<nat>)
    requires i <= |s|
    ensures r.Some? ==> i + MinLength(part) <= r.value <= |s|
    decreases PartsAfter(part)
  {
    match part
    case AtHashes =>
      var a := HashRun(s, i);
      if !(1 <= a <= 6) then None else MatchFrom(s, i + a, AtWorks)
    case AtWorks =>
      var b := SpaceRun(s, i);
      if b == 0 || !WordAt(s, i + b, Works) then None else MatchFrom(s, i + b + 5, AtCited)
    case AtCited =>
      var c := SpaceRun(s, i);
      if c == 0 || !WordAt(s, i + c, Cited) then None else Some(i + c + 5)
  }

  /**
   * The match that begins at position `p` of `s`: `Some(e)` when it ends at
   * `e`, `None` when none begins there (and past the end of `s`).
   */
  function MatchAt(s: string, p: nat): (r: Option<nat>)
    ensures r.Some? ==> p + 13 <= r.value <= |s|
  {
    if p <= |s| then MatchFrom(s, p, AtHashes) else None
  }

  /** A matcher: for a text and a position, the end of the match that begins there, if any. */
  type Matcher = (string, nat) -> Option<nat>

  /**
   * `m` reports at position `i` of `s` a match that ends after `i` and
   * within `s`. (`MatchAt` reports nothing else; for any other report the
   * scan goes on as if nothing were found, which keeps it from looping.)
   */
  predicate Found(m: Matcher, s: string, i: nat) {
    m(s, i).Some? && i < m(s, i).value <= |s|
  }

  /**
   * The scan of `re.sub` from position `i`, with the matcher `m`: a match
   * that begins at `i` is replaced and the scan resumes where it ends;
   * otherwise `s[i]` is copied and the scan moves on by one.
   */
  function Scan(m: Matcher, s: string, i: nat): string
    requires i <= |s|
    decreases |s| - i
  {
    if i == |s| then []
    else if Found(m, s, i) then Replacement + Scan(m, s, m(s, i).value)
    else [s[i]] + Scan(m, s, i + 1)
  }

  /** `gemini_cleanups(body)`. */
  function GeminiCleanups(body: string): string {
    Scan(MatchAt, body, 0)
  }

  // ---------------------------------------------------------------------
  // The greedy runs

  /** `HashRun` measures a run of `#` that ends at the first other character. */
  lemma {:induction false} HashRunSpans(s: string, i: nat)
    requires i <= |s|
    ensures forall k :: i <= k < i + HashRun(s, i) ==> s[k] == '#'
    ensures i + HashRun(s, i) < |s| ==> s[i + HashRun(s, i)] != '#'
    decreases |s| - i
  {
    if i < |s| && s[i] == '#' {
      HashRunSpans(s, i + 1);
    }
  }

  /** `SpaceRun` measures a run of whitespace that ends at the first other character. */
  lemma {:induction false} SpaceRunSpans(s: string, i: nat)
    requires i <= |s|
    ensures forall k :: i <= k < i + SpaceRun(s, i) ==> IsSpace(s[k])
    ensures i + SpaceRun(s, i) < |s| ==> !IsSpace(s[i + SpaceRun(s, i)])
    decreases |s| - i
  {
    if i < |s| && IsSpace(s[i]) {
      SpaceRunSpans(s, i + 1);
    }
  }

  /** A run of `n` hashes followed by something other than `#` is the whole run. */
  lemma {:induction false} HashRunExact(s: string, i: nat, n: nat)
    requires i + n < |s| && s[i + n] != '#'
    requires forall k :: i <= k < i + n ==> s[k] == '#'
    ensures HashRun(s, i) == n
    decreases n
  {
    if n > 0 {
      HashRunExact(s, i + 1, n - 1);
    }
  }

  /** A run of `n` spaces followed by a non-space is the whole run. */
  lemma {:induction false} SpaceRunExact(s: string, i: nat, n: nat)
    requires i + n < |s| && !IsSpace(s[i + n])
    requires forall k :: i <= k < i + n ==> IsSpace(s[k])
    ensures SpaceRun(s, i) == n
    decreases n
  {
    if n > 0 {
      SpaceRunExact(s, i + 1, n - 1);
    }
  }

  /** A run of at least `n` hashes from `i` makes `HashRun(s, i)` at least `n`. */
  lemma {:induction false} HashRunAtLeast(s: string, i: nat, n: nat)
    requires i + n <= |s|
    requires forall k :: i <= k < i + n ==> s[k] == '#'
    ensures HashRun(s, i) >= n
    decreases n
  {
    if n > 0 {
      HashRunAtLeast(s, i + 1, n - 1);
    }
  }

  // ---------------------------------------------------------------------
  // The matcher against the declarative pattern

  /** What the first part of the matcher finds: a run of 1 to 6 `#`, then the rest. */
  lemma {:induction false} HashesFound(s: string, p: nat)
    requires p <= |s| && MatchFrom(s, p, AtHashes).Some?
    ensures 1 <= HashRun(s, p) <= 6
    ensures MatchFrom(s, p + HashRun(s, p), AtWorks) == MatchFrom(s, p, AtHashes)
  {
  }

  /** What the second part of the matcher finds: whitespace, "works", then the rest. */
  lemma {:induction false} WorksFound(s: string, i: nat)
    requires i <= |s| && MatchFrom(s, i, AtWorks).Some?
    ensures SpaceRun(s, i) >= 1 && WordAt(s, i + SpaceRun(s, i), Works)
    ensures MatchFrom(s, i + SpaceRun(s, i) + 5, AtCited) == MatchFrom(s, i, AtWorks)
  {
  }

  /** What the last part of the matcher finds: whitespace, then "cited". */
  lemma {:induction false} CitedFound(s: string, i: nat)
    requires i <= |s| && MatchFrom(s, i, AtCited).Some?
    ensures SpaceRun(s, i) >= 1 && WordAt(s, i + SpaceRun(s, i), Cited)
    ensures MatchFrom(s, i, AtCited) == Some(i + SpaceRun(s, i) + 5)
  {
  }

  /** Runs of the measured lengths, with the two words after them, make a shaped match. */
  lemma {:induction false} RunsShaped(s: string, p: nat, a: nat, b: nat, c: nat)
    requires p + a + b + c + 10 <= |s|
    requires 1 <= a <= 6 && HashRun(s, p) == a
    requires 1 <= b && SpaceRun(s, p + a) == b && WordAt(s, p + a + b, Works)
    requires 1 <= c && SpaceRun(s, p + a + b + 5) == c && WordAt(s, p + a + b + 5 + c, Cited)
    ensures Shaped(s, p, a, b, c)
  {
    HashRunSpans(s, p);
    SpaceRunSpans(s, p + a);
    SpaceRunSpans(s, p + a + b + 5);
  }

  /** What the matcher finds is a match. */
  lemma {:induction false} MatchAtSound(s: string, p: nat)
    requires MatchAt(s, p).Some?
    ensures MatchesAt(s, p, MatchAt(s, p).value)
  {
    var a := HashRun(s, p);
    HashesFound(s, p);
    var b := SpaceRun(s, p + a);
    WorksFound(s, p + a);
    var c := SpaceRun(s, p + a + b + 5);
    CitedFound(s, p + a + b + 5);
    RunsShaped(s, p, a, b, c);
  }

  /** Where "works" or "cited" stands, the character is neither `#` nor whitespace. */
  lemma {:induction false} WordStart(s: string, i: nat, w: string)
    requires WordAt(s, i, w) && |w| > 0 && 'a' <= w[0] <= 'z'
    ensures s[i] != '#' && !IsSpace(s[i])
  {
    assert LetterMatches(s[i + 0], w[0]);
  }

  /** In a shaped match, the greedy runs measure exactly `a`, `b` and `c`. */
  lemma {:induction false} ShapedRuns(s: string, p: nat, a: nat, b: nat, c: nat)
    requires Shaped(s, p, a, b, c)
    ensures HashRun(s, p) == a
    ensures SpaceRun(s, p + a) == b
    ensures SpaceRun(s, p + a + b + 5) == c
  {
    WordStart(s, p + a + b, Works);
    WordStart(s, p + a + b + 5 + c, Cited);
    HashRunExact(s, p, a);
    SpaceRunExact(s, p + a, b);
    SpaceRunExact(s, p + a + b + 5, c);
  }

  /** The matcher reads a shaped match with exactly its run lengths. */
  lemma {:induction false} ShapedMatched(s: string, p: nat, a: nat, b: nat, c: nat)
    requires Shaped(s, p, a, b, c)
    ensures MatchAt(s, p) == Some(p + a + b + c + 10)
  {
    ShapedRuns(s, p, a, b, c);
    assert MatchFrom(s, p + a + b + 5, AtCited) == Some(p + a + b + c + 10);
    assert MatchFrom(s, p + a, AtWorks) == Some(p + a + b + c + 10);
  }

  /** Every match that begins at `p` is the one the matcher finds. */
  lemma {:induction false} MatchAtComplete(s: string, p: nat, e: nat)
    requires MatchesAt(s, p, e)
    ensures p <= |s| && MatchAt(s, p) == Some(e)
  {
    var a: nat, b: nat, c: nat :| e == p + a + b + c + 10 && Shaped(s, p, a, b, c);
    ShapedMatched(s, p, a, b, c);
  }

  /** The matcher agrees with the pattern in both directions. */
  lemma {:induction false} MatchAtIff(s: string, p: nat, e: nat)
    ensures MatchAt(s, p) == Some(e) <==> MatchesAt(s, p, e)
  {
    if MatchAt(s, p) == Some(e) {
      MatchAtSound(s, p);
    }
    if MatchesAt(s, p, e) {
      MatchAtComplete(s, p, e);
    }
  }

  /**
   * At most one match begins at any position: the span of a match is fully
   * determined by where it starts, so a backtracking search finds that span.
   */
  lemma {:induction false} MatchUnique(s: string, p: nat, e1: nat, e2: nat)
    requires MatchesAt(s, p, e1) && MatchesAt(s, p, e2)
    ensures e1 == e2
  {
    MatchAtComplete(s, p, e1);
    MatchAtComplete(s, p, e2);
  }

  /**
   * Only a position whose run of `#` is 1 to 6 long and is followed by
   * whitespace can start a match.
   */
  lemma {:induction false} MatchStart(s: string, p: nat, e: nat)
    requires MatchesAt(s, p, e)
    ensures p <= |s| && 1 <= HashRun(s, p) <= 6
    ensures p + HashRun(s, p) < |s| && IsSpace(s[p + HashRun(s, p)])
  {
    var a: nat, b: nat, c: nat :| e == p + a + b + c + 10 && Shaped(s, p, a, b, c);
    ShapedRuns(s, p, a, b, c);
  }

  /** A run of seven or more `#` cannot start a match at its first `#`. */
  lemma {:induction false} LongHashRunNoMatch(s: string, p: nat)
    requires p + 7 <= |s|
    requires forall k :: p <= k < p + 7 ==> s[k] == '#'
    ensures forall e: nat :: !MatchesAt(s, p, e)
  {
    HashRunAtLeast(s, p, 7);
    forall e: nat | MatchesAt(s, p, e)
      ensures false
    {
      MatchStart(s, p, e);
    }
  }

  /** Where the pattern does not occur, the matcher finds nothing. */
  lemma {:induction false} NoMatchFound(s: string, i: nat, j: nat)
    requires j <= |s| && NoMatchBetween(s, i, j)
    ensures forall q :: i <= q < j ==> MatchAt(s, q).None?
  {
    forall q | i <= q < j
      ensures MatchAt(s, q).None?
    {
      if MatchAt(s, q).Some? {
        MatchAtSound(s, q);
      }
    }
  }

  // ---------------------------------------------------------------------
  // The matcher does not look outside the match

  /** A prefix `u` shifts the run of `#` without changing its length. */
  lemma {:induction false} HashRunAppend(u: string, v: string, i: nat)
    requires i <= |v|
    ensures HashRun(u + v, |u| + i) == HashRun(v, i)
    decreases |v| - i
  {
    if i < |v| {
      assert (u + v)[|u| + i] == v[i];
      HashRunAppend(u, v, i + 1);
    }
  }

  /** A prefix `u` shifts the run of whitespace without changing its length. */
  lemma {:induction false} SpaceRunAppend(u: string, v: string, i: nat)
    requires i <= |v|
    ensures SpaceRun(u + v, |u| + i) == SpaceRun(v, i)
    decreases |v| - i
  {
    if i < |v| {
      assert (u + v)[|u| + i] == v[i];
      SpaceRunAppend(u, v, i + 1);
    }
  }

  /** A prefix `u` shifts where a word stands. */
  lemma {:induction false} WordAtAppend(u: string, v: string, i: nat, w: string)
    requires i <= |v|
    ensures WordAt(u + v, |u| + i, w) <==> WordAt(v, i, w)
  {
    if i + |w| <= |v| {
      forall j | i <= j < i + |w|
        ensures (u + v)[|u| + j] == v[j]
      {
      }
    }
  }

  /** A prefix `u` shifts the match of `\s+cited` and keeps its absence. */
  lemma {:induction false} CitedAppend(u: string, v: string, i: nat)
    requires i <= |v|
    ensures MatchFrom(u + v, |u| + i, AtCited).Some? <==> MatchFrom(v, i, AtCited).Some?
    ensures MatchFrom(v, i, AtCited).Some? ==>
              MatchFrom(u + v, |u| + i, AtCited).value == |u| + MatchFrom(v, i, AtCited).value
  {
    SpaceRunAppend(u, v, i);
    WordAtAppend(u, v, i + SpaceRun(v, i), Cited);
  }

  /** A prefix `u` shifts the match of `\s+works\s+cited` and keeps its absence. */
  lemma {:induction false} WorksAppend(u: string, v: string, i: nat)
    requires i <= |v|
    ensures MatchFrom(u + v, |u| + i, AtWorks).Some? <==> MatchFrom(v, i, AtWorks).Some?
    ensures MatchFrom(v, i, AtWorks).Some? ==>
              MatchFrom(u + v, |u| + i, AtWorks).value == |u| + MatchFrom(v, i, AtWorks).value
  {
    SpaceRunAppend(u, v, i);
    var b := SpaceRun(v, i);
    WordAtAppend(u, v, i + b, Works);
    if b != 0 && WordAt(v, i + b, Works) {
      CitedAppend(u, v, i + b + 5);
    }
  }

  /** A prefix `u` shifts the match of the whole pattern and keeps its absence. */
  lemma {:induction false} HashesAppend(u: string, v: string, i: nat)
    requires i <= |v|
    ensures MatchFrom(u + v, |u| + i, AtHashes).Some? <==> MatchFrom(v, i, AtHashes).Some?
    ensures MatchFrom(v, i, AtHashes).Some? ==>
              MatchFrom(u + v, |u| + i, AtHashes).value == |u| + MatchFrom(v, i, AtHashes).value
  {
    HashRunAppend(u, v, i);
    var a := HashRun(v, i);
    if 1 <= a <= 6 {
      WorksAppend(u, v, i + a);
    }
  }

  /** A prefix `u` shifts the match that begins at `i`, and keeps its absence. */
  lemma {:induction false} MatchAtAppend(u: string, v: string, i: nat)
    requires i <= |v|
    ensures MatchAt(u + v, |u| + i).Some? <==> MatchAt(v, i).Some?
    ensures MatchAt(v, i).Some? ==> MatchAt(u + v, |u| + i).value == |u| + MatchAt(v, i).value
  {
    HashesAppend(u, v, i);
  }

  /** A match of all of `t` is still a match at the start of `t + rest`. */
  lemma {:induction false} ShapedPrefix(t: string, rest: string)
    requires IsMatch(t)
    ensures MatchesAt(t + rest, 0, |t|)
  {
    var a: nat, b: nat, c: nat :| |t| == a + b + c + 10 && Shaped(t, 0, a, b, c);
    var s := t + rest;
    assert forall k :: 0 <= k < |t| ==> s[k] == t[k];
    assert Shaped(s, 0, a, b, c);
  }

  // ---------------------------------------------------------------------
  // The scan, whatever the matcher

  /** From a position where `m` finds nothing, the scan copies one character. */
  lemma {:induction false} CopyStep(m: Matcher, s: string, i: nat)
    requires i < |s| && !Found(m, s, i)
    ensures Scan(m, s, i) == [s[i]] + Scan(m, s, i + 1)
  {
  }

  /** From a position where `m` finds a match, the scan replaces it and resumes at its end. */
  lemma {:induction false} FoundStep(m: Matcher, s: string, i: nat)
    requires i < |s| && Found(m, s, i)
    ensures Scan(m, s, i) == Replacement + Scan(m, s, m(s, i).value)
  {
  }

  /** Putting one character in front of a concatenation. */
  lemma ConsAssoc(c: char, x: string, y: string)
    ensures [c] + (x + y) == ([c] + x) + y
  {
  }

  /**
   * Up to the first position where `m` finds something, the scan copies the
   * text unchanged.
   */
  lemma {:induction false} CopiedUpTo(m: Matcher, s: string, i: nat, p: nat)
    requires i <= p <= |s|
    requires forall q :: i <= q < p ==> !Found(m, s, q)
    ensures Scan(m, s, i) == s[i..p] + Scan(m, s, p)
    decreases p - i
  {
    if i == p {
      assert s[i..p] == [];
    } else {
      CopyStep(m, s, i);
      CopiedUpTo(m, s, i + 1, p);
      assert [s[i]] + s[i + 1..p] == s[i..p];
      ConsAssoc(s[i], s[i + 1..p], Scan(m, s, p));
    }
  }

  /** What `m` finds in `u + v` behind `u` is what it finds in `v`, shifted by `|u|`. */
  ghost predicate ShiftsBy(m: Matcher, u: string, v: string) {
    forall j :: 0 <= j <= |v| ==>
      && (Found(m, u + v, |u| + j) <==> Found(m, v, j))
      && (Found(m, v, j) ==> m(u + v, |u| + j) == Some(|u| + m(v, j).value))
  }

  /** Behind a prefix `u`, a match found in `v` is replaced as it would be in `v`. */
  lemma {:induction false} ScanAppendFound(m: Matcher, u: string, v: string, i: nat)
    requires i < |v| && ShiftsBy(m, u, v) && Found(m, v, i)
    ensures Scan(m, u + v, |u| + i) == Replacement + Scan(m, u + v, |u| + m(v, i).value)
  {
    FoundStep(m, u + v, |u| + i);
  }

  /** Behind a prefix `u`, a character of `v` where nothing is found is copied as it would be in `v`. */
  lemma {:induction false} ScanAppendCopied(m: Matcher, u: string, v: string, i: nat)
    requires i < |v| && ShiftsBy(m, u, v) && !Found(m, v, i)
    ensures Scan(m, u + v, |u| + i) == [v[i]] + Scan(m, u + v, |u| + i + 1)
  {
    assert (u + v)[|u| + i] == v[i];
    CopyStep(m, u + v, |u| + i);
  }

  /** When `m` shifts with a prefix `u`, the scan of `u + v` from `|u| + i` is the scan of `v` from `i`. */
  lemma {:induction false} ScanAppend(m: Matcher, u: string, v: string, i: nat)
    requires i <= |v| && ShiftsBy(m, u, v)
    ensures Scan(m, u + v, |u| + i) == Scan(m, v, i)
    decreases |v| - i, 1
  {
    if i == |v| {
    } else if Found(m, v, i) {
      ScanAppendAtMatch(m, u, v, i);
    } else {
      ScanAppendAtCopy(m, u, v, i);
    }
  }

  /** `ScanAppend` where a match begins at `i`. */
  lemma {:induction false} ScanAppendAtMatch(m: Matcher, u: string, v: string, i: nat)
    requires i < |v| && ShiftsBy(m, u, v) && Found(m, v, i)
    ensures Scan(m, u + v, |u| + i) == Scan(m, v, i)
    decreases |v| - i, 0
  {
    FoundStep(m, v, i);
    ScanAppendFound(m, u, v, i);
    ScanAppend(m, u, v, m(v, i).value);
  }

  /** `ScanAppend` where no match begins at `i`. */
  lemma {:induction false} ScanAppendAtCopy(m: Matcher, u: string, v: string, i: nat)
    requires i < |v| && ShiftsBy(m, u, v) && !Found(m, v, i)
    ensures Scan(m, u + v, |u| + i) == Scan(m, v, i)
    decreases |v| - i, 0
  {
    CopyStep(m, v, i);
    ScanAppendCopied(m, u, v, i);
    ScanAppend(m, u, v, i + 1);
  }

  /** When `m` finds all of `t` at the start of `t + rest`, `t` is replaced and `rest` scanned alone. */
  lemma {:induction false} PrefixReplaced(m: Matcher, t: string, rest: string)
    requires 0 < |t| && m(t + rest, 0) == Some(|t|) && ShiftsBy(m, t, rest)
    ensures Scan(m, t + rest, 0) == Replacement + Scan(m, rest, 0)
  {
    FoundStep(m, t + rest, 0);
    ScanAppend(m, t, rest, 0);
  }

  // ---------------------------------------------------------------------
  // The rewrite of the pattern

  /** At one position, the pattern's matcher shifts with a prefix `u`. */
  lemma {:induction false} FoundShifts(u: string, v: string, j: nat)
    requires j <= |v|
    ensures Found(MatchAt, u + v, |u| + j) <==> Found(MatchAt, v, j)
    ensures Found(MatchAt, v, j) ==> MatchAt(u + v, |u| + j) == Some(|u| + MatchAt(v, j).value)
  {
    MatchAtAppend(u, v, j);
  }

  /** The pattern's matcher shifts with any prefix. */
  lemma {:induction false} MatchAtShifts(u: string, v: string)
    ensures ShiftsBy(MatchAt, u, v)
  {
    forall j | 0 <= j <= |v|
      ensures Found(MatchAt, u + v, |u| + j) <==> Found(MatchAt, v, j)
      ensures Found(MatchAt, v, j) ==> MatchAt(u + v, |u| + j) == Some(|u| + MatchAt(v, j).value)
    {
      FoundShifts(u, v, j);
    }
  }

  /** From a position where a match begins, the rewrite replaces it and resumes at its end. */
  lemma {:induction false} ReplaceStep(s: string, i: nat, e: nat)
    requires MatchesAt(s, i, e)
    ensures i <= e <= |s| && Scan(MatchAt, s, i) == Replacement + Scan(MatchAt, s, e)
  {
    MatchAtComplete(s, i, e);
    FoundStep(MatchAt, s, i);
  }

  /** Input in which the pattern does not occur is returned unchanged. */
  lemma {:induction false} NoMatchUnchanged(body: string)
    requires NoMatchIn(body)
    ensures GeminiCleanups(body) == body
  {
    NoMatchFound(body, 0, |body|);
    CopiedUpTo(MatchAt, body, 0, |body|);
    assert body[0..|body|] == body;
  }

  /** The scan from `i` is the rewrite of the suffix that starts there. */
  lemma {:induction false} ScanSuffix(s: string, i: nat)
    requires i <= |s|
    ensures Scan(MatchAt, s, i) == GeminiCleanups(s[i..])
  {
    assert s[..i] + s[i..] == s;
    MatchAtShifts(s[..i], s[i..]);
    ScanAppend(MatchAt, s[..i], s[i..], 0);
  }

  /**
   * The leftmost match of the whole body is replaced by `## Works Cited`,
   * everything before it is kept, and the rest of the body is rewritten on
   * its own from the end of the match.
   */
  lemma {:induction false} LeftmostMatchReplaced(body: string, p: nat, e: nat)
    requires MatchesAt(body, p, e) && NoMatchBetween(body, 0, p)
    ensures p <= e <= |body|
    ensures GeminiCleanups(body) == body[..p] + Replacement + GeminiCleanups(body[e..])
  {
    ReplaceStep(body, p, e);
    NoMatchFound(body, 0, p);
    CopiedUpTo(MatchAt, body, 0, p);
    assert body[0..p] == body[..p];
    ScanSuffix(body, e);
  }

  /** A heading spelled like the pattern, then any text: the heading is normalised, the text rewritten alone. */
  lemma {:induction false} HeadingNormalised(heading: string, rest: string)
    requires IsMatch(heading)
    ensures GeminiCleanups(heading + rest) == Replacement + GeminiCleanups(rest)
  {
    ShapedPrefix(heading, rest);
    MatchAtComplete(heading + rest, 0, |heading|);
    MatchAtShifts(heading, rest);
    PrefixReplaced(MatchAt, heading, rest);
  }

  /** Where the pattern occurs, it has a leftmost occurrence. */
  lemma {:induction false} LeftmostExists(s: string, q: nat, e: nat)
    requires MatchesAt(s, q, e)
    ensures exists p: nat, f: nat :: p <= q && MatchesAt(s, p, f) && NoMatchBetween(s, 0, p)
    decreases q
  {
    if !NoMatchBetween(s, 0, q) {
      var q2: nat, e2: nat :| q2 < q && MatchesAt(s, q2, e2);
      LeftmostExists(s, q2, e2);
    }
  }

  /**
   * `gemini_cleanups` in full: a body in which the pattern does not occur
   * comes back as it is; otherwise the leftmost match is replaced, the text
   * before it is kept, and the text after it is rewritten in turn.
   */
  lemma {:induction false} GeminiCleanupsCharacterised(body: string)
    ensures NoMatchIn(body) ==> GeminiCleanups(body) == body
    ensures !NoMatchIn(body) ==> exists p: nat, e: nat ::
      && p <= e <= |body| && MatchesAt(body, p, e) && NoMatchBetween(body, 0, p)
      && GeminiCleanups(body) == body[..p] + Replacement + GeminiCleanups(body[e..])
  {
    if NoMatchIn(body) {
      NoMatchUnchanged(body);
    } else {
      var q: nat, e: nat :| q < |body| && MatchesAt(body, q, e);
      LeftmostExists(body, q, e);
      var p: nat, f: nat :| p <= q && MatchesAt(body, p, f) && NoMatchBetween(body, 0, p);
      LeftmostMatchReplaced(body, p, f);
    }
  }

  /** `n` copies of `#`. */
  function Hashes(n: nat): (h: string)
    ensures |h| == n && forall k :: 0 <= k < n ==> h[k] == '#'
  {
    if n == 0 then [] else "#" + Hashes(n - 1)
  }

  /** Every character of `u` is whitespace. */
  predicate AllSpaces(u: string) {
    forall k :: 0 <= k < |u| ==> IsSpace(u[k])
  }

  /** `u` matches the lower-case word `w` letter by letter under IGNORECASE. */
  predicate SpellsWord(u: string, w: string) {
    |u| == |w| && forall k :: 0 <= k < |u| ==> LetterMatches(u[k], w[k])
  }

  /** A heading of any level from 1 to 6, with any whitespace and any letter case, is a match. */
  lemma {:induction false} HeadingIsMatch(level: nat, gap1: string, works: string, gap2: string, cited: string)
    requires 1 <= level <= 6 && |gap1| >= 1 && |gap2| >= 1
    requires AllSpaces(gap1) && AllSpaces(gap2)
    requires SpellsWord(works, Works) && SpellsWord(cited, Cited)
    ensures IsMatch(Hashes(level) + gap1 + works + gap2 + cited)
  {
    var h := Hashes(level) + gap1 + works + gap2 + cited;
    var a, b, c := level, |gap1|, |gap2|;
    assert forall k :: 0 <= k < a ==> h[k] == Hashes(level)[k];
    assert forall k :: a <= k < a + b ==> h[k] == gap1[k - a];
    assert forall k :: 0 <= k < 5 ==> h[a + b + k] == works[k];
    assert forall k :: a + b + 5 <= k < a + b + 5 + c ==> h[k] == gap2[k - a - b - 5];
    assert forall k :: 0 <= k < 5 ==> h[a + b + 5 + c + k] == cited[k];
    assert Shaped(h, 0, a, b, c);
  }

  /** Such a heading on its own becomes exactly `## Works Cited`. */
  lemma {:induction false} AnyHeadingLevel(level: nat, gap1: string, works: string, gap2: string, cited: string)
    requires 1 <= level <= 6 && |gap1| >= 1 && |gap2| >= 1
    requires AllSpaces(gap1) && AllSpaces(gap2)
    requires SpellsWord(works, Works) && SpellsWord(cited, Cited)
    ensures GeminiCleanups(Hashes(level) + gap1 + works + gap2 + cited) == Replacement
  {
    var h := Hashes(level) + gap1 + works + gap2 + cited;
    HeadingIsMatch(level, gap1, works, gap2, cited);
    HeadingNormalised(h, []);
    assert h + [] == h;
  }

  /** The canonical heading is a fixed point: its one match is replaced by itself. */
  lemma {:induction false} CanonicalFixedPoint()
    ensures GeminiCleanups(Replacement) == Replacement
  {
    assert Hashes(2) + " " + "Works" + " " + "Cited" == Replacement;
    AnyHeadingLevel(2, " ", "Works", " ", "Cited");
  }

  /** A level-3 heading is normalised to level 2. */
  lemma {:induction false} ThreeHashHeading()
    ensures GeminiCleanups("### Works Cited") == Replacement
  {
    assert Hashes(3) + " " + "Works" + " " + "Cited" == "### Works Cited";
    AnyHeadingLevel(3, " ", "Works", " ", "Cited");
  }

  /** One `#` in front of the canonical heading makes a level-3 heading. */
  lemma {:induction false} HashBeforeReplacement()
    ensures "#" + Replacement == "### Works Cited"
  {
  }

  /**
   * A `#` in front of six more is copied as it is: it cannot start a match,
   * and the scan goes on with the text behind it.
   */
  lemma {:induction false} HashBeforeLongRun(h: string)
    requires |h| >= 6 && forall k :: 0 <= k < 6 ==> h[k] == '#'
    ensures GeminiCleanups("#" + h) == "#" + GeminiCleanups(h)
  {
    var s := "#" + h;
    HashRunAtLeast(s, 0, 7);
    CopyStep(MatchAt, s, 0);
    MatchAtShifts("#", h);
    ScanAppend(MatchAt, "#", h, 0);
  }

  /**
   * The rewrite is not idempotent: in front of a level-6 heading, one more
   * `#` cannot start a match, so it stays in front of the canonical heading
   * that replaces the rest, and a second pass lowers the result again (as
   * with `####### works cited`, rewritten to `### Works Cited` and then to
   * `## Works Cited`).
   */
  lemma {:induction false} SevenHashesNotIdempotent(heading: string)
    requires IsMatch(heading)
    requires |heading| >= 6 && forall k :: 0 <= k < 6 ==> heading[k] == '#'
    ensures GeminiCleanups("#" + heading) == "### Works Cited"
    ensures GeminiCleanups(GeminiCleanups("#" + heading)) == Replacement
    ensures GeminiCleanups(GeminiCleanups("#" + heading)) != GeminiCleanups("#" + heading)
  {
    HashBeforeLongRun(heading);
    HeadingNormalised(heading, []);
    assert heading + [] == heading;
    HashBeforeReplacement();
    ThreeHashHeading();
  }

  /** A level-6 heading meets the premises of `SevenHashesNotIdempotent`. */
  lemma {:induction false} SixHashHeading(gap1: string, works: string, gap2: string, cited: string)
    requires |gap1| >= 1 && |gap2| >= 1
    requires AllSpaces(gap1) && AllSpaces(gap2)
    requires SpellsWord(works, Works) && SpellsWord(cited, Cited)
    ensures var heading := Hashes(6) + gap1 + works + gap2 + cited;
      IsMatch(heading) && |heading| >= 6 && forall k :: 0 <= k < 6 ==> heading[k] == '#'
  {
    HeadingIsMatch(6, gap1, works, gap2, cited);
  }
}
