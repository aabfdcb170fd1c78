/** A named romanization profile: an ordered list of transliteration rules. */
module Romanizations {
  import opened Patterns
  import opened Transcriptions
  import opened Scanning

  class Romanization {
    const name: string
    /** The rules, tried in list order at every cursor. */
    var transliterations: seq<Transcription>

    /** A profile starts with no rules. */
    constructor (name: string)
      ensures this.name == name && transliterations == []
    {
      this.name := name;
      transliterations := [];
    }

    /** Transliterations.Add: the rule goes after every earlier one. */
    method AddTransliteration(t: Transcription)
      modifies this`transliterations
      ensures transliterations == old(transliterations) + [t]
    {
      transliterations := transliterations + [t];
    }

    /** The first-match scan with this profile's rules; the result is not trimmed. */
    method Romanize(re: Engine, input: string) returns (output: string)
      ensures output == Scan(re, transliterations, input)
    {
      output := RunScanner(re, transliterations, input);
    }
  }

  /** A profile without rules romanizes every text to itself. */
  lemma EmptyProfileIsIdentity(re: Engine, r: Romanization, input: string)
    requires r.transliterations == []
    ensures Scan(re, r.transliterations, input) == input
  {
    ScanWithoutRules(re, input);
  }
}
