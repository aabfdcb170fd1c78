/** An exception to a rule's default replacement. */
module TranscriptionExceptions {
  import opened Wrappers
  import opened Patterns

  /**
   * Three optional refinements and the replacement they select. An absent
   * refinement (null in the source) accepts every text.
   */
  datatype TranscriptionException = TranscriptionException(
    original: Option<string>,
    prefix: Option<string>,
    suffix: Option<string>,
    replacement: string)
  {
    /**
     * Whether the exception applies, given the text from the cursor to the end
     * (`remainder`), the text before the cursor and the text after the match.
     */
    predicate IsMatch(re: Engine, remainder: string, before: string, after: string)
      ensures original.None? && prefix.None? && suffix.None? ==> IsMatch(re, remainder, before, after)
      ensures IsMatch(re, remainder, before, after) && original.Some? ==> StartMatches(re, original.value, remainder)
      ensures IsMatch(re, remainder, before, after) && prefix.Some? ==> EndMatches(re, prefix.value, before)
      ensures IsMatch(re, remainder, before, after) && suffix.Some? ==> StartMatches(re, suffix.value, after)
    {
      StartMatchesIfGiven(re, original, remainder)
      && EndMatchesIfGiven(re, prefix, before)
      && StartMatchesIfGiven(re, suffix, after)
    }
  }

  /** The constructor: a field given as "" becomes no pattern at all. */
  function NewException(original: string, replacement: string, prefix: string, suffix: string): (e: TranscriptionException)
    ensures e.replacement == replacement
    ensures e.original.None? <==> original == ""
    ensures e.prefix.None? <==> prefix == ""
    ensures e.suffix.None? <==> suffix == ""
    ensures e.original.Some? ==> e.original.value == original
    ensures e.prefix.Some? ==> e.prefix.value == prefix
    ensures e.suffix.Some? ==> e.suffix.value == suffix
  {
    TranscriptionException(Optional(original), Optional(prefix), Optional(suffix), replacement)
  }

  /**
   * A constructed exception matches exactly when each given field matches:
   * original and suffix anchored at the start of their text, prefix at the end
   * of its text; a field given as "" imposes nothing. The replacement is kept as given.
   */
  lemma ExceptionMatchesByField(re: Engine, original: string, replacement: string, prefix: string, suffix: string,
                                remainder: string, before: string, after: string)
    ensures NewException(original, replacement, prefix, suffix).replacement == replacement
    ensures NewException(original, replacement, prefix, suffix).IsMatch(re, remainder, before, after) <==>
              (original == "" || StartMatches(re, original, remainder))
              && (prefix == "" || EndMatches(re, prefix, before))
              && (suffix == "" || StartMatches(re, suffix, after))
  {
  }

  /** An exception with every field empty applies everywhere. */
  lemma EmptyExceptionAlwaysMatches(re: Engine, replacement: string, remainder: string, before: string, after: string)
    ensures NewException("", replacement, "", "").IsMatch(re, remainder, before, after)
  {
  }
}
