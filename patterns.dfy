/**
 * The regular-expression library, seen through the only two questions the
 * engine asks of it. Every rule pattern is compiled case-insensitively in one
 * of two shapes: "^(?:p)" (anchored at the start of the text it is applied to)
 * or "(?:p)$" (anchored at the end). The library is a parameter of the model.
 */
module Patterns {
  import opened Wrappers

  datatype RegexLibrary = RegexLibrary(
    /** "^(?:p)" applied to s: the length of its match, None when there is none. */
    matchStart: (string, string) -> Option<nat>,
    /** Whether "(?:p)$" matches s. */
    matchEnd: (string, string) -> bool)

  /** A match anchored at the start never runs past the end of the text. */
  ghost predicate MatchesWithinText(lib: RegexLibrary)
  {
    forall p: string, s: string :: lib.matchStart(p, s).Some? ==> lib.matchStart(p, s).value <= |s|
  }

  type Engine = lib: RegexLibrary | MatchesWithinText(lib)
    witness RegexLibrary((p, s) => None, (p, s) => false)

  /** Regex.IsMatch for "^(?:p)": true also for a match of length 0. */
  predicate StartMatches(re: Engine, p: string, s: string)
  {
    re.matchStart(p, s).Some?
  }

  /** Regex.IsMatch for "(?:p)$". */
  predicate EndMatches(re: Engine, p: string, s: string)
  {
    re.matchEnd(p, s)
  }

  /** Match(s).Length for "^(?:p)": 0 both when nothing matches and when the match is empty. */
  function MatchLength(re: Engine, p: string, s: string): (n: nat)
    ensures n <= |s|
    ensures n > 0 ==> StartMatches(re, p, s)
  {
    match re.matchStart(p, s)
    case Some(k) => k
    case None => 0
  }

  /** An optional pattern: the empty string given for it means "no pattern" (null in the source). */
  function Optional(p: string): (r: Option<string>)
    ensures r.None? <==> p == ""
    ensures r.Some? ==> r.value == p
  {
    if p == "" then None else Some(p)
  }

  /** An absent start-anchored pattern accepts every text. */
  predicate StartMatchesIfGiven(re: Engine, p: Option<string>, s: string)
  {
    p.None? || StartMatches(re, p.value, s)
  }

  /** An absent end-anchored pattern accepts every text. */
  predicate EndMatchesIfGiven(re: Engine, p: Option<string>, s: string)
  {
    p.None? || EndMatches(re, p.value, s)
  }

  // ---------------------------------------------------------------------------
  // A concrete library: every pattern is a literal, compared ignoring ASCII case.

  function FoldCase(c: char): char
  {
    if 'A' <= c <= 'Z' then (c as int + 32) as char else c
  }

  predicate SameIgnoringCase(a: string, b: string)
  {
    |a| == |b| && forall k :: 0 <= k < |a| ==> FoldCase(a[k]) == FoldCase(b[k])
  }

  function LiteralStart(p: string, s: string): (r: Option<nat>)
    ensures r.Some? ==> r.value == |p| <= |s|
  {
    if |p| <= |s| && SameIgnoringCase(p, s[..|p|]) then Some(|p|) else None
  }

  function LiteralEnd(p: string, s: string): bool
  {
    |p| <= |s| && SameIgnoringCase(p, s[|s| - |p|..])
  }

  const Literal: Engine := RegexLibrary(LiteralStart, LiteralEnd)
}
