# textpress core: Gemini heading cleanup and publish configuration

This project models two small, pure parts of textpress, a tool that turns
Markdown and documents into published web pages.

The first is `gemini_cleanups` (`src/texpr/doc_cleanups.py`). It post-processes
the Markdown produced by Gemini Deep Research. Its single action is a
case-insensitive `re.sub` that rewrites every occurrence of
`#{1,6}\s+works\s+cited` to the level-2 heading `## Works Cited`. The pattern
is not anchored and has no word boundary, so an occurrence in the middle of a
line or at the start of a longer word is rewritten too.

- `DocCleanups.MatchAt` models the regular-expression matcher.
- `DocCleanups.MatchesAt` describes the pattern's language declaratively and
  independently of the matcher.
- `DocCleanups.Scan` models the left-to-right substitution of `re.sub`.
  It is generic in the matcher. `DocCleanups.GeminiCleanups` is this scan run
  with `MatchAt` from position 0.

Characters are compared the way Python's `re` compares them for `str` patterns
under `IGNORECASE`. Whitespace is the set `\s` matches on `str` patterns, which
is the set `str.isspace` accepts.

The second is `get_api_root` and `get_api_key` (`src/texpr/texpr_env.py`).
They read `TEXTPRESS_API_ROOT` and `TEXTPRESS_API_KEY` from the environment.
Each fails with "<NAME> environment variable not set." when its variable is
unset or empty. The environment is an explicit `map<string, string>`, and the
raised `ValueError` is an `Err` result.

The files are `wrappers.dfy` (`Option`, `Result`), `doc_cleanups.dfy` and
`texpr_env.dfy`.

## Model

| member | source | states |
|---|---|---|
| DocCleanups.GeminiCleanups | src/texpr/doc_cleanups.py:4-13 | the cleanup itself; its meaning is stated by GeminiCleanupsCharacterised, NoMatchUnchanged and LeftmostMatchReplaced |
| DocCleanups.Scan | src/texpr/doc_cleanups.py:11 | the left-to-right substitution of `re.sub`; ScanSuffix, ReplaceStep and PrefixReplaced state how it proceeds past copied text and replaced matches |
| DocCleanups.MatchAt | src/texpr/doc_cleanups.py:11 | a reported match starts at the position and is at least 13 characters long within the text; MatchAtIff states which spans it reports |
| DocCleanups.MatchFrom | src/texpr/doc_cleanups.py:11 | reads the parts of the pattern in turn; a reported end lies within the text and at least as far past the start as the remaining parts' shortest match; MatchAtSound and MatchAtComplete relate it to the pattern |
| DocCleanups.IsSpace | src/texpr/doc_cleanups.py:11 | the characters `\s` matches on a `str` pattern; used by MatchesAt, and MatchStart shows a match needs one after the `#` run |
| DocCleanups.LetterMatches | src/texpr/doc_cleanups.py:11 | the characters that match a pattern letter under IGNORECASE; HeadingIsMatch shows any letter case is accepted |
| TexprEnv.Truthy | src/texpr/texpr_env.py:6 | Python truthiness of the looked-up value; EmptyIsUnset and the getters' `Ok` iff clauses state that unset and empty fail alike |
| DocCleanups.MatchAtIff | src/texpr/doc_cleanups.py:11 | the matcher reports a match from `p` to `e` exactly when the text between is 1 to 6 `#`, whitespace, "works" in any case, whitespace and "cited" in any case |
| DocCleanups.MatchAtSound | src/texpr/doc_cleanups.py:11 | every span the matcher reports is in the pattern's language |
| DocCleanups.MatchAtComplete | src/texpr/doc_cleanups.py:11 | every span of the pattern's language is found by the matcher |
| DocCleanups.MatchUnique | src/texpr/doc_cleanups.py:11 | at most one match starts at any position, so the span the backtracking regex engine picks is that one |
| DocCleanups.MatchStart | src/texpr/doc_cleanups.py:11 | a match starts only at a run of 1 to 6 `#` followed by whitespace |
| DocCleanups.LongHashRunNoMatch | src/texpr/doc_cleanups.py:11 | no match starts at the first `#` of a run of seven or more |
| DocCleanups.NoMatchUnchanged | src/texpr/doc_cleanups.py:11-13 | a body in which the pattern does not occur is returned unchanged |
| DocCleanups.LeftmostMatchReplaced | src/texpr/doc_cleanups.py:11 | the leftmost match is replaced by `## Works Cited`; the text before it is kept and the text after it is cleaned in turn |
| DocCleanups.LeftmostExists | src/texpr/doc_cleanups.py:11 | if the pattern occurs at all, there is a leftmost occurrence |
| DocCleanups.GeminiCleanupsCharacterised | src/texpr/doc_cleanups.py:4-13 | the result is the body itself when the pattern does not occur; otherwise it is the prefix before the leftmost match, then the replacement, then the cleaned rest |
| DocCleanups.ScanSuffix | src/texpr/doc_cleanups.py:11 | once the scan has got past a position, what it produces from there depends only on the text from there on |
| DocCleanups.HeadingNormalised | src/texpr/doc_cleanups.py:9-11 | a body that starts with a "Works cited" heading gets `## Works Cited` in its place, and the rest is cleaned independently |
| DocCleanups.HeadingIsMatch | src/texpr/doc_cleanups.py:9-11 | a heading of level 1 to 6, with any non-empty whitespace gaps and any letter case, is in the pattern's language |
| DocCleanups.AnyHeadingLevel | src/texpr/doc_cleanups.py:9-11 | any such heading becomes exactly `## Works Cited` |
| DocCleanups.CanonicalFixedPoint | src/texpr/doc_cleanups.py:11 | the replacement text is left unchanged by the cleanup |
| DocCleanups.HashBeforeLongRun | src/texpr/doc_cleanups.py:11 | a `#` in front of six or more `#` is copied, and the cleanup proceeds on the rest |
| DocCleanups.SevenHashesNotIdempotent | src/texpr/doc_cleanups.py:11 | a match written after one extra `#` becomes `### Works Cited`, which a second pass turns into `## Works Cited`: the cleanup is not idempotent |
| DocCleanups.SixHashHeading | src/texpr/doc_cleanups.py:11 | level-6 headings meet the premises of the non-idempotence lemma |
| DocCleanups.ThreeHashHeading | src/texpr/doc_cleanups.py:11 | `### Works Cited` is cleaned to `## Works Cited` |
| TexprEnv.GetApiRoot | src/texpr/texpr_env.py:4-8 | succeeds exactly when `TEXTPRESS_API_ROOT` is set and non-empty, and then returns its value; otherwise fails naming that variable |
| TexprEnv.GetApiKey | src/texpr/texpr_env.py:11-15 | succeeds exactly when `TEXTPRESS_API_KEY` is set and non-empty, and then returns its value; otherwise fails naming that variable |
| TexprEnv.Getenv | src/texpr/texpr_env.py:5 | a lookup yields a value exactly when the variable is set, and that value is the variable's |
| TexprEnv.Message | src/texpr/texpr_env.py:7 | the error text starts with the name of the missing variable |
| TexprEnv.ApiRootReadsOnlyItsVariable | src/texpr/texpr_env.py:4-8 | two environments that agree on `TEXTPRESS_API_ROOT` give the same outcome |
| TexprEnv.ApiKeyReadsOnlyItsVariable | src/texpr/texpr_env.py:11-15 | two environments that agree on `TEXTPRESS_API_KEY` give the same outcome |
| TexprEnv.GettersIndependent | src/texpr/texpr_env.py:4-15 | setting the key does not change the root's outcome, and setting the root does not change the key's |
| TexprEnv.EmptyIsUnset | src/texpr/texpr_env.py:6-7 | an empty variable fails just as an unset one does, and an unset one fails, for either getter |

## Left out

- The rest of textpress is not part of this model: the command line, the kash
  actions, document conversion, the publish client and its HTTP calls, file
  and URL handling, and footnote processing.
- `os.getenv` is a lookup in an explicit environment map. The process
  environment and changes to it while running are not modelled.
- Getenv: the lookup is exact. On Windows, environment variable names are
  case-insensitive, and that is not modelled.
- GeminiCleanups: a Dafny `string` cannot hold a lone surrogate, which a
  Python `str` can (for example after `surrogateescape` decoding). Such a
  character can never be part of a match and would only be copied, so no
  behaviour is lost, but the model's input domain is narrower.
- GeminiCleanups: idempotence is not claimed, because the code does not have
  it. `SevenHashesNotIdempotent` proves that a second pass can change the output.
- LetterMatches: case-insensitive comparison follows `re` in Python 3.7 and
  later. A character matches a pattern letter when its simple lower-case
  mapping is that letter, which lets `İ` match `i` and the Kelvin sign match
  `k`. It also matches when it is one of the lower-case letters `re` treats as
  equal because they share an upper case: `ı` with `i` and `ſ` with `s`. Other
  Python versions and the `re.ASCII` flag are not modelled.
- Scan: the scan is generic in the matcher. It treats a report that ends at or
  before its start, or past the text, as no match. `MatchAt` never makes such
  a report, so this only keeps the generic scan total.
- The regex engine's backtracking search is not modelled step by step. The
  model instead proves that at most one match starts at each position
  (`MatchUnique`), so any search that succeeds at a position finds that span.
