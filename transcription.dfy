/** A pattern rule: main pattern, optional context, default replacement and ordered exceptions. */
module Transcriptions {
  import opened Wrappers
  import opened Patterns
  import opened TranscriptionMatches
  import opened TranscriptionExceptions

  /** The replacement of the first exception, in list order, that applies; the default when none does. */
  function ChooseReplacement(re: Engine, exceptions: seq<TranscriptionException>, default: string,
                             remainder: string, before: string, after: string): (r: string)
    ensures r == default || exists k :: 0 <= k < |exceptions| && exceptions[k].IsMatch(re, remainder, before, after)
                                        && r == exceptions[k].replacement
  {
    if exceptions == [] then default
    else if exceptions[0].IsMatch(re, remainder, before, after) then exceptions[0].replacement
    else ChooseReplacement(re, exceptions[1..], default, remainder, before, after)
  }

  class Transcription {
    /** Main pattern, compiled as "^(?:original)". */
    const original: string
    /** Text that must precede the cursor, compiled as "(?:prefix)$"; None when given as "". */
    const prefix: Option<string>
    /** Text that must follow the match, compiled as "^(?:suffix)"; None when given as "". */
    const suffix: Option<string>
    const replacement: string
    var exceptions: seq<TranscriptionException>

    /** The two-argument constructor: no context at all. */
    constructor Plain(original: string, replacement: string)
      ensures this.original == original && this.replacement == replacement
      ensures prefix == None && suffix == None && exceptions == []
    {
      this.original := original;
      this.replacement := replacement;
      prefix := None;
      suffix := None;
      exceptions := [];
    }

    /** The four-argument constructor: a context given as "" is no context. */
    constructor (original: string, replacement: string, prefix: string, suffix: string)
      ensures this.original == original && this.replacement == replacement
      ensures this.prefix == Optional(prefix) && this.suffix == Optional(suffix)
      ensures exceptions == []
    {
      this.original := original;
      this.replacement := replacement;
      this.prefix := Optional(prefix);
      this.suffix := Optional(suffix);
      exceptions := [];
    }

    /** Appends an exception after all earlier ones. */
    method AddException(original: string, replacement: string, prefix: string, suffix: string)
      modifies this`exceptions
      ensures exceptions == old(exceptions) + [NewException(original, replacement, prefix, suffix)]
    {
      exceptions := exceptions + [NewException(original, replacement, prefix, suffix)];
    }

    /** The rule tried at `startIndex` of `raw`: None when it does not apply. */
    function IsMatch(re: Engine, raw: string, startIndex: nat): (r: Option<TranscriptionMatch>)
      reads this
      requires startIndex <= |raw|
      ensures r.Some? ==> 1 <= r.value.length <= |raw| - startIndex
    {
      var remainder := raw[startIndex..];
      var matchLength := MatchLength(re, original, remainder);
      if matchLength != 0 then
        var before := raw[..startIndex];
        if EndMatchesIfGiven(re, prefix, before) then
          var after := raw[startIndex + matchLength..];
          if StartMatchesIfGiven(re, suffix, after) then
            Some(TranscriptionMatch(ChooseReplacement(re, exceptions, replacement, remainder, before, after), matchLength))
          else None
        else None
      else None
    }
  }

  /** No main match at the cursor, or only an empty one, means no match. */
  lemma NoMainMatchNoMatch(re: Engine, t: Transcription, raw: string, i: nat)
    requires i <= |raw|
    requires MatchLength(re, t.original, raw[i..]) == 0
    ensures t.IsMatch(re, raw, i).None?
  {
  }

  /** A given prefix context must match the text before the cursor, anchored at its end. */
  lemma PrefixContextRequired(re: Engine, t: Transcription, raw: string, i: nat)
    requires i <= |raw|
    requires t.prefix.Some? && !EndMatches(re, t.prefix.value, raw[..i])
    ensures t.IsMatch(re, raw, i).None?
  {
  }

  /** A given suffix context must match the text after the main match, anchored at its start. */
  lemma SuffixContextRequired(re: Engine, t: Transcription, raw: string, i: nat)
    requires i <= |raw|
    requires t.suffix.Some?
    requires !StartMatches(re, t.suffix.value, raw[i + MatchLength(re, t.original, raw[i..])..])
    ensures t.IsMatch(re, raw, i).None?
  {
  }

  /**
   * The converse of the three lemmas above: a non-empty main match whose given
   * contexts both hold makes the rule match.
   */
  lemma ContextsHoldThenMatch(re: Engine, t: Transcription, raw: string, i: nat)
    requires i <= |raw| && MatchLength(re, t.original, raw[i..]) > 0
    requires EndMatchesIfGiven(re, t.prefix, raw[..i])
    requires StartMatchesIfGiven(re, t.suffix, raw[i + MatchLength(re, t.original, raw[i..])..])
    ensures t.IsMatch(re, raw, i).Some?
  {
  }

  /** Without context patterns, the rule matches exactly where its main pattern matches a non-empty text. */
  lemma NoContextNoConstraint(re: Engine, t: Transcription, raw: string, i: nat)
    requires i <= |raw|
    requires t.prefix.None? && t.suffix.None?
    ensures t.IsMatch(re, raw, i).Some? <==> MatchLength(re, t.original, raw[i..]) > 0
  {
  }

  /**
   * A match consumes exactly the main pattern's match length, and takes its
   * replacement from the exceptions, which are shown the whole remainder of the
   * text from the cursor rather than the matched span.
   */
  lemma MatchConsumesMainLength(re: Engine, t: Transcription, raw: string, i: nat)
    requires i <= |raw|
    requires t.IsMatch(re, raw, i).Some?
    ensures var n := MatchLength(re, t.original, raw[i..]);
      t.IsMatch(re, raw, i).value
        == TranscriptionMatch(ChooseReplacement(re, t.exceptions, t.replacement, raw[i..], raw[..i], raw[i + n..]), n)
  {
  }

  /** Exceptions never decide whether a rule matches or how much it consumes, only what it emits. */
  lemma ExceptionsKeepMatchShape(re: Engine, t: Transcription, u: Transcription, raw: string, i: nat)
    requires i <= |raw|
    requires t.original == u.original && t.prefix == u.prefix && t.suffix == u.suffix
    ensures t.IsMatch(re, raw, i).Some? <==> u.IsMatch(re, raw, i).Some?
    ensures t.IsMatch(re, raw, i).Some? ==> t.IsMatch(re, raw, i).value.length == u.IsMatch(re, raw, i).value.length
  {
  }

  /** The first applicable exception in list order supplies the replacement. */
  lemma {:induction false} FirstApplicableExceptionWins(re: Engine, exceptions: seq<TranscriptionException>, default: string,
                                                      remainder: string, before: string, after: string, j: nat)
    requires j < |exceptions| && exceptions[j].IsMatch(re, remainder, before, after)
    requires forall k :: 0 <= k < j ==> !exceptions[k].IsMatch(re, remainder, before, after)
    ensures ChooseReplacement(re, exceptions, default, remainder, before, after) == exceptions[j].replacement
  {
    if j > 0 {
      FirstApplicableExceptionWins(re, exceptions[1..], default, remainder, before, after, j - 1);
    }
  }

  /** When no exception applies, the default replacement is used. */
  lemma {:induction false} NoApplicableExceptionUsesDefault(re: Engine, exceptions: seq<TranscriptionException>, default: string,
                                                          remainder: string, before: string, after: string)
    requires forall k :: 0 <= k < |exceptions| ==> !exceptions[k].IsMatch(re, remainder, before, after)
    ensures ChooseReplacement(re, exceptions, default, remainder, before, after) == default
  {
    if exceptions != [] {
      NoApplicableExceptionUsesDefault(re, exceptions[1..], default, remainder, before, after);
    }
  }

  /**
   * Appending an exception cannot override an earlier applicable one: it is
   * consulted only where every earlier exception fails.
   */
  lemma {:induction false} AppendedExceptionComesLast(re: Engine, exceptions: seq<TranscriptionException>, e: TranscriptionException,
                                                    default: string, remainder: string, before: string, after: string)
    ensures ChooseReplacement(re, exceptions + [e], default, remainder, before, after)
         == ChooseReplacement(re, exceptions, if e.IsMatch(re, remainder, before, after) then e.replacement else default,
                              remainder, before, after)
  {
    if exceptions != [] {
      assert (exceptions + [e])[1..] == exceptions[1..] + [e];
      AppendedExceptionComesLast(re, exceptions[1..], e, default, remainder, before, after);
    }
  }
}
