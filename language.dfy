/**
 * One language: its transcription rules, romanization profiles and
 * decomposition formulas, the selected profile, and the three operations
 * (decompose, romanize, transcribe) that run them.
 */
module Languages {
  import opened Wrappers
  import opened Patterns
  import opened Transcriptions
  import opened Scanning
  import opened Decompositions
  import opened Romanizations
  import opened Sorting
  import opened Texts
  import opened LanguageRecords
  import opened TextDecomposition

  /** The first profile, in list order, with the given name. */
  function FirstNamed(roms: seq<Romanization>, value: string): (r: Option<nat>)
    ensures r.Some? ==> r.value < |roms| && roms[r.value].name == value
                        && forall j :: 0 <= j < r.value ==> roms[j].name != value
    ensures r.None? <==> forall j :: 0 <= j < |roms| ==> roms[j].name != value
  {
    if roms == [] then None
    else if roms[0].name == value then Some(0)
    else
      match FirstNamed(roms[1..], value)
      case Some(i) => Some(i + 1)
      case None => None
  }

  class Language {
    /** The two-letter ISO code. */
    const iso: string
    /** The full English name, also the key of the language in the XML document. */
    const name: string
    var transcriptions: seq<Transcription>
    var romanizations: seq<Romanization>
    var decompositions: seq<Decomposition>
    /** The selected profile; -1 selects none. */
    var romanizationIndex: int
    /** Tested by Load, but never set to true. */
    var loaded: bool

    constructor (iso: string, name: string)
      ensures this.iso == iso && this.name == name
      ensures transcriptions == [] && romanizations == [] && decompositions == []
      ensures romanizationIndex == -1 && !loaded
    {
      this.iso := iso;
      this.name := name;
      transcriptions := [];
      romanizations := [];
      decompositions := [];
      romanizationIndex := -1;
      loaded := false;
    }

    // ---------------------------------------------------------------------
    // Loading
    // ---------------------------------------------------------------------

    /**
     * Appends the parsed rule data: transcriptions, then profiles, then
     * formulas. The `loaded` flag guards nothing, since no code sets it, so
     * a second load appends a second copy. A factor list with a repeated
     * index throws, leaving the formulas before it appended.
     */
    method Load(data: LanguageRecord) returns (r: Result<()>)
      modifies this`transcriptions, this`romanizations, this`decompositions
      ensures old(loaded) ==>
        r == Ok(()) && transcriptions == old(transcriptions)
        && romanizations == old(romanizations) && decompositions == old(decompositions)
      ensures !old(loaded) ==>
        |transcriptions| == |old(transcriptions)| + |data.transcriptions|
        && transcriptions[..|old(transcriptions)|] == old(transcriptions)
        && RulesModel(transcriptions[|old(transcriptions)|..], data.transcriptions)
      ensures !old(loaded) ==>
        |romanizations| == |old(romanizations)| + |data.romanizations|
        && romanizations[..|old(romanizations)|] == old(romanizations)
        && forall k :: 0 <= k < |data.romanizations| ==>
             romanizations[|old(romanizations)| + k].name == data.romanizations[k].name
             && RulesModel(romanizations[|old(romanizations)| + k].transliterations, data.romanizations[k].rules)
      ensures !old(loaded) ==>
        var n := LoadableCount(data.decompositions);
        |decompositions| == |old(decompositions)| + n
        && decompositions[..|old(decompositions)|] == old(decompositions)
        && (forall k :: 0 <= k < n ==> DecompositionModels(decompositions[|old(decompositions)| + k], data.decompositions[k]))
        && (r.Ok? <==> n == |data.decompositions|)
        && (r.Err? ==> r.error == DuplicateKey(FirstDuplicate(data.decompositions[n].prevFactors).value))
    {
      r := Ok(());
      if !loaded {
        AppendTranscriptions(data.transcriptions);
        AppendRomanizations(data.romanizations);
        r := AppendDecompositions(data.decompositions);
      }
    }

    /** The loader's first loop: one rule per transcription element. */
    method AppendTranscriptions(recs: seq<RuleRecord>)
      modifies this`transcriptions
      ensures |transcriptions| == |old(transcriptions)| + |recs|
      ensures transcriptions[..|old(transcriptions)|] == old(transcriptions)
      ensures RulesModel(transcriptions[|old(transcriptions)|..], recs)
    {
      ghost var before := transcriptions;
      for k := 0 to |recs|
        invariant |transcriptions| == |before| + k
        invariant transcriptions[..|before|] == before
        invariant forall j :: 0 <= j < k ==> RuleModels(transcriptions[|before| + j], recs[j])
      {
        var t := NewRule(recs[k]);
        transcriptions := transcriptions + [t];
      }
    }

    /** The loader's second loop: one profile per romanization element. */
    method AppendRomanizations(recs: seq<ProfileRecord>)
      modifies this`romanizations
      ensures |romanizations| == |old(romanizations)| + |recs|
      ensures romanizations[..|old(romanizations)|] == old(romanizations)
      ensures forall k :: 0 <= k < |recs| ==>
        romanizations[|old(romanizations)| + k].name == recs[k].name
        && RulesModel(romanizations[|old(romanizations)| + k].transliterations, recs[k].rules)
    {
      ghost var before := romanizations;
      for k := 0 to |recs|
        invariant |romanizations| == |before| + k
        invariant romanizations[..|before|] == before
        invariant forall j :: 0 <= j < k ==>
          romanizations[|before| + j].name == recs[j].name
          && RulesModel(romanizations[|before| + j].transliterations, recs[j].rules)
      {
        var p := NewProfile(recs[k]);
        romanizations := romanizations + [p];
      }
    }

    /** The loader's third loop: one formula per decomposition element, up to the first that throws. */
    method AppendDecompositions(recs: seq<DecompositionRecord>) returns (r: Result<()>)
      modifies this`decompositions
      ensures var n := LoadableCount(recs);
        |decompositions| == |old(decompositions)| + n
        && decompositions[..|old(decompositions)|] == old(decompositions)
        && (forall k :: 0 <= k < n ==> DecompositionModels(decompositions[|old(decompositions)| + k], recs[k]))
        && (r.Ok? <==> n == |recs|)
        && (r.Err? ==> r.error == DuplicateKey(FirstDuplicate(recs[n].prevFactors).value))
    {
      ghost var before := decompositions;
      var k := 0;
      r := Ok(());
      while k < |recs| && r.Ok?
        invariant 0 <= k <= |recs|
        invariant |decompositions| == |before| + k
        invariant decompositions[..|before|] == before
        invariant forall j :: 0 <= j < k ==> FirstDuplicate(recs[j].prevFactors).None?
        invariant forall j :: 0 <= j < k ==> DecompositionModels(decompositions[|before| + j], recs[j])
        invariant r.Err? ==>
          k < |recs| && FirstDuplicate(recs[k].prevFactors).Some?
          && r.error == DuplicateKey(FirstDuplicate(recs[k].prevFactors).value)
        decreases |recs| - k, if r.Ok? then 1 else 0
      {
        r := AppendDecomposition(recs[k]);
        if r.Ok? {
          k := k + 1;
        }
      }
      LoadableCountExact(recs, k);
    }

    /** One pass of the loader's third loop: the formula is appended only when its factors load. */
    method AppendDecomposition(rec: DecompositionRecord) returns (r: Result<()>)
      modifies this`decompositions
      ensures r.Ok? <==> FirstDuplicate(rec.prevFactors).None?
      ensures r.Err? ==> r.error == DuplicateKey(FirstDuplicate(rec.prevFactors).value)
      ensures r.Err? ==> decompositions == old(decompositions)
      ensures r.Ok? ==>
        |decompositions| == |old(decompositions)| + 1
        && decompositions[..|old(decompositions)|] == old(decompositions)
        && DecompositionModels(decompositions[|old(decompositions)|], rec)
    {
      var d;
      d, r := NewDecomposition(rec);
      if r.Ok? {
        decompositions := decompositions + [d];
      }
    }

    // ---------------------------------------------------------------------
    // Decomposition
    // ---------------------------------------------------------------------

    /** Decomposes every character of the input; the input itself when the language has no formulas. */
    method Decompose(input: string) returns (r: Result<string>)
      ensures r == Decomposed(decompositions, input)
    {
      if |decompositions| == 0 {
        return Ok(input);
      }
      var builder := "";
      var n := 0;
      while n < |input|
        invariant 0 <= n <= |input|
        invariant DecomposeText(decompositions, input[..n]) == Ok(builder)
      {
        var letter := input[n];
        assert input[..n + 1][..n] == input[..n];
        var piece := DecomposeLetter(letter);
        if piece.Err? {
          TextFailureDecides(decompositions, input, n + 1);
          return Err(piece.error);
        }
        builder := builder + piece.value;
        n := n + 1;
      }
      assert input[..n] == input;
      return Ok(builder);
    }

    /** One character: collect the results, then emit the character or its sorted results. */
    method DecomposeLetter(letter: char) returns (r: Result<string>)
      ensures r == DecomposeChar(decompositions, letter)
    {
      var collected := CollectResults(letter);
      if collected.Err? {
        return Err(collected.error);
      }
      var results := collected.value;
      if |results| == 0 {
        return Ok([letter]);
      }
      results := SortAscending(results);
      r := EncodeResults(results);
    }

    /** The inner loop over the formulas: every formula whose range holds the codepoint adds one result. */
    method CollectResults(letter: char) returns (r: Result<seq<int>>)
      ensures r == ResultsFor(decompositions, letter as int)
    {
      var results: seq<int> := [];
      var codepoint := letter as int;
      var k := 0;
      while k < |decompositions|
        invariant 0 <= k <= |decompositions|
        invariant ResultsFor(decompositions[..k], codepoint) == Ok(results)
      {
        var decomposition := decompositions[k];
        assert decompositions[..k + 1][..k] == decompositions[..k];
        if codepoint >= decomposition.rangeMin && codepoint <= decomposition.rangeMax {
          var v := decomposition.Decompose(letter, results);
          if v.Err? {
            ResultsFailureDecides(decompositions, codepoint, k + 1);
            return Err(v.error);
          }
          results := results + [v.value];
        }
        k := k + 1;
      }
      assert decompositions[..k] == decompositions;
      return Ok(results);
    }

    /** Appends Char.ConvertFromUtf32 of every result in turn. */
    method EncodeResults(results: seq<int>) returns (r: Result<string>)
      ensures r == EncodeAll(results)
    {
      var builder := "";
      for j := 0 to |results|
        invariant EncodeAll(results[..j]) == Ok(builder)
      {
        assert results[..j + 1][..j] == results[..j];
        var c := ConvertFromUtf32(results[j]);
        if c.Err? {
          EncodeFailureDecides(results, j + 1);
          return Err(c.error);
        }
        builder := builder + c.value;
      }
      assert results[..|results|] == results;
      return Ok(builder);
    }

    // ---------------------------------------------------------------------
    // Romanization
    // ---------------------------------------------------------------------

    /** The rules of the selected profile; none when the index selects no profile. */
    function SelectedRules(): seq<Transcription>
      reads this, romanizations
    {
      if 0 <= romanizationIndex < |romanizations| then romanizations[romanizationIndex].transliterations else []
    }

    /** What Romanize(input, isDecomposed) returns. */
    function Romanized(re: Engine, input: string, isDecomposed: bool): Result<string>
      reads this, decompositions, romanizations, SelectedRules()
    {
      if |romanizations| == 0 || romanizationIndex == -1 then Ok(input)
      else
        match (if isDecomposed then Ok(input) else Decomposed(decompositions, input))
        case Err(e) => Err(e)
        case Ok(text) =>
          if 0 <= romanizationIndex < |romanizations| then Ok(Scan(re, SelectedRules(), text))
          else Err(ArgumentOutOfRange(romanizationIndex))
    }

    /** The Romanization property: the selected profile, or the list indexer's exception. */
    function CurrentRomanization(): (r: Result<Romanization>)
      reads this
      ensures r.Ok? <==> 0 <= romanizationIndex < |romanizations|
      ensures r.Ok? ==> r.value == romanizations[romanizationIndex]
      ensures r.Err? ==> r.error == ArgumentOutOfRange(romanizationIndex)
    {
      if 0 <= romanizationIndex < |romanizations| then Ok(romanizations[romanizationIndex])
      else Err(ArgumentOutOfRange(romanizationIndex))
    }

    /**
     * Romanizes with the selected profile, decomposing first unless told the
     * input already is; with no profile selected the input comes back as is.
     */
    method Romanize(re: Engine, input: string, isDecomposed: bool) returns (r: Result<string>)
      ensures r == Romanized(re, input, isDecomposed)
    {
      if |romanizations| == 0 || romanizationIndex == -1 {
        return Ok(input);
      }
      var text := input;
      if !isDecomposed {
        var d := Decompose(input);
        if d.Err? {
          return Err(d.error);
        }
        text := d.value;
      }
      var profile := CurrentRomanization();
      if profile.Err? {
        return Err(profile.error);
      }
      var output := profile.value.Romanize(re, text);
      return Ok(output);
    }

    /** The one-argument Romanize: the input is taken as already decomposed. */
    method RomanizeDecomposed(re: Engine, input: string) returns (r: Result<string>)
      ensures r == Romanized(re, input, true)
    {
      r := Romanize(re, input, true);
    }

    // ---------------------------------------------------------------------
    // Transcription
    // ---------------------------------------------------------------------

    /** The text Transcribe scans: decomposed, then romanized, each unless its flag says it is done. */
    function Prepared(re: Engine, input: string, isDecomposed: bool, isRomanized: bool): Result<string>
      reads this, decompositions, romanizations, SelectedRules()
    {
      match (if isDecomposed then Ok(input) else Decomposed(decompositions, input))
      case Err(e) => Err(e)
      case Ok(decomposed) => if isRomanized then Ok(decomposed) else Romanized(re, decomposed, true)
    }

    /** What Transcribe(input, isDecomposed, isRomanized) returns. */
    function Transcribed(re: Engine, input: string, isDecomposed: bool, isRomanized: bool): Result<string>
      reads this, decompositions, romanizations, SelectedRules(), transcriptions
    {
      match Prepared(re, input, isDecomposed, isRomanized)
      case Err(e) => Err(e)
      case Ok(text) => Ok(Trim(Scan(re, transcriptions, text)))
    }

    /**
     * Decomposes and romanizes unless told these are done, then runs the
     * first-match scan with the transcription rules and trims the result.
     */
    method Transcribe(re: Engine, input: string, isDecomposed: bool, isRomanized: bool) returns (r: Result<string>)
      ensures r == Transcribed(re, input, isDecomposed, isRomanized)
    {
      var prepared := Prepare(re, input, isDecomposed, isRomanized);
      if prepared.Err? {
        return Err(prepared.error);
      }
      var output := RunScanner(re, transcriptions, prepared.value);
      ScanOfPrepared(re, input, isDecomposed, isRomanized, prepared.value);
      return Ok(Trim(output));
    }

    /** Once the steps before the scan succeed, the transcription is the trimmed scan of their result. */
    lemma ScanOfPrepared(re: Engine, input: string, isDecomposed: bool, isRomanized: bool, text: string)
      requires Prepared(re, input, isDecomposed, isRomanized) == Ok(text)
      ensures Transcribed(re, input, isDecomposed, isRomanized) == Ok(Trim(Scan(re, transcriptions, text)))
    {
    }

    /** The first half of Transcribe: the two optional steps before the scan. */
    method Prepare(re: Engine, input: string, isDecomposed: bool, isRomanized: bool) returns (r: Result<string>)
      ensures r == Prepared(re, input, isDecomposed, isRomanized)
    {
      var text := input;
      if !isDecomposed {
        var d := Decompose(text);
        if d.Err? {
          return Err(d.error);
        }
        text := d.value;
      }
      if !isRomanized {
        r := RomanizeDecomposed(re, text);
      } else {
        r := Ok(text);
      }
    }

    /** The one-argument Transcribe: decomposed and romanized already. */
    method TranscribeProcessed(re: Engine, input: string) returns (r: Result<string>)
      ensures r == Transcribed(re, input, true, true)
    {
      r := Transcribe(re, input, true, true);
    }

    /** The two-argument Transcribe: romanized already. */
    method TranscribeRomanized(re: Engine, input: string, isDecomposed: bool) returns (r: Result<string>)
      ensures r == Transcribed(re, input, isDecomposed, true)
    {
      r := Transcribe(re, input, isDecomposed, true);
    }

    // ---------------------------------------------------------------------
    // Profile selection
    // ---------------------------------------------------------------------

    /** The RomanizationIndex setter: any value is accepted, in range or not. */
    method SetRomanizationIndex(value: int)
      modifies this`romanizationIndex
      ensures romanizationIndex == value
    {
      romanizationIndex := value;
    }

    /** The RomanizationName getter: the selected profile's name. */
    function RomanizationName(): (r: Result<string>)
      reads this
      ensures r.Ok? <==> 0 <= romanizationIndex < |romanizations|
      ensures r.Ok? ==> r.value == romanizations[romanizationIndex].name
      ensures r.Err? ==> r.error == ArgumentOutOfRange(romanizationIndex)
    {
      match CurrentRomanization()
      case Ok(p) => Ok(p.name)
      case Err(e) => Err(e)
    }

    /** The RomanizationName setter: selects the first profile so named; no such profile changes nothing. */
    method SetRomanizationName(value: string)
      modifies this`romanizationIndex
      ensures FirstNamed(romanizations, value).Some? ==> romanizationIndex == FirstNamed(romanizations, value).value
      ensures FirstNamed(romanizations, value).None? ==> romanizationIndex == old(romanizationIndex)
    {
      var romanizationLength := |romanizations|;
      for i := 0 to romanizationLength
        invariant forall j :: 0 <= j < i ==> romanizations[j].name != value
        invariant romanizationIndex == old(romanizationIndex)
      {
        if value == romanizations[i].name {
          romanizationIndex := i;
          return;
        }
      }
    }

    /** The RomanizationNames property: the profile names in list order. */
    method RomanizationNames() returns (rs: seq<string>)
      ensures |rs| == |romanizations|
      ensures forall k :: 0 <= k < |rs| ==> rs[k] == romanizations[k].name
    {
      rs := [];
      for k := 0 to |romanizations|
        invariant |rs| == k
        invariant forall j :: 0 <= j < k ==> rs[j] == romanizations[j].name
      {
        rs := rs + [romanizations[k].name];
      }
    }
  }

  /** Selecting by name picks the first profile of that name, and a name no profile has keeps the selection. */
  lemma SelectByNameIsFirstMatch(l: Language, value: string)
    ensures FirstNamed(l.romanizations, value).Some? ==>
      var i := FirstNamed(l.romanizations, value).value;
      l.romanizations[i].name == value && forall j :: 0 <= j < i ==> l.romanizations[j].name != value
    ensures FirstNamed(l.romanizations, value).None? <==> forall j :: 0 <= j < |l.romanizations| ==> l.romanizations[j].name != value
  {
  }

  /** With no profile, or none selected, Romanize returns its input exactly, even when asked to decompose it first. */
  lemma RomanizeWithoutProfileIsIdentity(re: Engine, l: Language, input: string, isDecomposed: bool)
    requires |l.romanizations| == 0 || l.romanizationIndex == -1
    ensures l.Romanized(re, input, isDecomposed) == Ok(input)
  {
  }

  /** An index the setter let through that selects no profile makes Romanize throw. */
  lemma RomanizeWithBadIndexFails(re: Engine, l: Language, input: string)
    requires |l.romanizations| > 0 && l.romanizationIndex != -1
    requires !(0 <= l.romanizationIndex < |l.romanizations|)
    ensures l.Romanized(re, input, true) == Err(ArgumentOutOfRange(l.romanizationIndex))
  {
  }

  /** With a profile selected and the input decomposed, romanizing is the profile's scan, untrimmed. */
  lemma RomanizeUsesSelectedProfile(re: Engine, l: Language, input: string)
    requires 0 <= l.romanizationIndex < |l.romanizations|
    ensures l.Romanized(re, input, true) == Ok(Scan(re, l.romanizations[l.romanizationIndex].transliterations, input))
  {
  }

  /** Decompose is the identity when the language has no formulas. */
  lemma DecomposeWithoutFormulasIsIdentity(l: Language, input: string)
    requires l.decompositions == []
    ensures Decomposed(l.decompositions, input) == Ok(input)
  {
  }

  /** With no transcription rules and both flags set, Transcribe only trims its input. */
  lemma TranscribeWithoutRulesTrims(re: Engine, l: Language, input: string)
    requires l.transcriptions == []
    ensures l.Transcribed(re, input, true, true) == Ok(Trim(input))
  {
    ScanWithoutRules(re, input);
  }

  /** A transcription never starts or ends with whitespace. */
  lemma TranscriptionIsTrimmed(re: Engine, l: Language, input: string, isDecomposed: bool, isRomanized: bool)
    requires l.Transcribed(re, input, isDecomposed, isRomanized).Ok?
    ensures var out := l.Transcribed(re, input, isDecomposed, isRomanized).value;
      out == [] || (!IsWhiteSpace(out[0]) && !IsWhiteSpace(out[|out| - 1]))
  {
    var text := l.Prepared(re, input, isDecomposed, isRomanized).value;
    l.ScanOfPrepared(re, input, isDecomposed, isRomanized, text);
  }

  /**
   * With both flags set Transcribe decides nothing by the decomposition
   * formulas or the profiles: only the transcription rules matter.
   */
  lemma TranscribeProcessedUsesOnlyTranscriptions(re: Engine, l: Language, input: string)
    ensures l.Transcribed(re, input, true, true) == Ok(Trim(Scan(re, l.transcriptions, input)))
  {
  }
}
