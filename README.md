# transcripa's transformation engine, in Dafny

transcripa turns text in a non-Latin script into a romanization and into an
IPA transcription. It does this by interpreting rule data for each language.
This project models that rule-interpreting engine and proves what it does.

The engine has four parts:

- **Codepoint decomposition.** Each `Decomposition` formula computes
  `((cp + Σ previous[i]·PrevFactors[i] + Offset) [mod Modulus]) / Divisor + Intercept`
  in C#'s truncating arithmetic. `Language.Decompose` runs, for every
  character, all formulas whose range holds its codepoint, in list order.
  Each formula sees the results of the formulas before it. The results are
  emitted in ascending numeric order. A character no formula covers is
  copied unchanged.
- **Pattern rules.** A `Transcription` has:
  - a main pattern, anchored at the cursor;
  - an optional prefix context, matched at the end of the text before the cursor;
  - an optional suffix context, matched at the start of the text after the match;
  - an ordered list of `TranscriptionException`s.

  The first exception that applies supplies the replacement. An optional
  field given as `""` is no pattern at all and accepts everything; this
  covers the prefix and suffix contexts and the three fields of an
  exception. The main pattern is always a pattern, and an empty match of
  it is no match.
- **The first-match scanner.** It is shared by `Romanization.Romanize` and
  `Language.Transcribe`:
  - The text is padded with a space on each side.
  - At each position between the pads, the first rule in list order that
    matches emits its replacement, and the cursor skips the main match.
  - Where no rule matches, the character is copied.
  - Only transcription trims the result.
- **The orchestrator and the registry.** `Language` holds the three rule
  lists and the selected romanization profile. It decomposes, romanizes and
  transcribes, with flags that skip the steps already done.
  `LanguageManager` maps names to languages and tracks the current one.

Files, one module each:

| file | module | contents |
|---|---|---|
| wrappers.dfy | Wrappers | `Option`, `Result`, and the .NET exceptions the engine raises at call time |
| patterns.dfy | Patterns | the regex library as a parameter (`Engine`), optional patterns, and a literal case-insensitive library |
| decomposition.dfy | Decompositions | truncating `/` and `%`, and the `Decomposition` class |
| sorting.dfy | Sorting | `List<int>.Sort` as an ascending permutation |
| transcription_match.dfy | TranscriptionMatches | the match record |
| transcription_exception.dfy | TranscriptionExceptions | exceptions and their `IsMatch` |
| transcription.dfy | Transcriptions | the `Transcription` class and `IsMatch` |
| scanner.dfy | Scanning | the scanner loop and its specification `Scan` |
| romanization.dfy | Romanizations | the `Romanization` profile class |
| texts.dfy | Texts | `Char.ConvertFromUtf32` and `String.Trim` |
| language_records.dfy | LanguageRecords | already-parsed rule data, and the builders `Load` uses |
| text_decomposition.dfy | TextDecomposition | what `Language.Decompose` computes, as functions |
| language.dfy | Languages | the `Language` class |
| language_manager.dfy | LanguageManagers | the `LanguageManager` class |
| scenarios.dfy | Scenarios | concrete rule sets on concrete texts |

Modelling choices:

- **The regex library is a parameter.** `re: Engine` answers the engine's two
  questions:
  - `"^(?:p)"`: the length of its match on a text, if any;
  - `"(?:p)$"`: whether it matches a text.

  The type guarantees only that a match does not run past the text. Every
  statement about rules holds for every such library. `Patterns.Literal`
  treats each pattern as a literal compared ignoring ASCII case; the
  scenarios use it.
- **Failures are values.** A .NET exception the core can throw becomes the
  `Err` case of a `Result`:
  - `DivideByZero`: a zero `Modulus` or `Divisor`;
  - `ArgumentOutOfRange`: a result that is no Unicode scalar, or a profile
    index outside the list;
  - `KeyNotFound`: an unregistered current language;
  - `DuplicateKey`: a repeated `PrevFactor` index;
  - `DuplicateName`: a language registered twice.

  The first failure wins, as the first throw does.
- **Classes where the source updates in place.** These are `Decomposition`
  (`PrevFactors`), `Transcription` (its exceptions), `Romanization` (its
  rules), `Language` and `LanguageManager`. The loops in the source are
  methods with loop invariants, each proved against a specification
  function:
  - the scanner;
  - the decomposition loops;
  - `Decomposition.Decompose`'s factor loop;
  - the loader loops;
  - the `RomanizationName` search;
  - `RomanizationNames`.

Where the code departs from its own documentation comments, the model
follows the code. These comments are `Decomposition.Order`, `Language.Loaded`
and the first parameter of `TranscriptionException.IsMatch`, which is
documented as `prefix`. Each departure is stated as a lemma or an `ensures`:

- `Language.Loaded` is documented as telling whether the rules have been
  loaded, but `loaded` is never set. So every `Load` appends another copy
  (`Scenarios.LoadTwice`).
- With no profile selected, `Romanize` returns its input undecomposed.
- An exception's main pattern is tried on the whole rest of the text, not
  only on the matched span (`Scenarios.ExceptionSeesRemainder`).
- The `RomanizationIndex` setter has no bounds check. When at least one
  profile exists, a bad index makes `Romanize` throw.
- `Decomposition.Order` is documented as the order for sorting the
  decompositions and the final result. It never takes part in
  decomposition: the results are sorted by value.

## Model

| member | source | states |
|---|---|---|
| Patterns.MatchLength | src/transcripa/Transcription/Transcription.cs:80-81 | the main pattern's match length never runs past the remainder; a positive length means the pattern matched |
| Patterns.Optional | src/transcripa/Transcription/Transcription.cs:55-63 | a pattern given as "" becomes no pattern, any other is kept as given |
| Decompositions.TDiv | src/transcripa/Transcription/Decomposition.cs:69 | C#'s `/`: the quotient's size is the dividend's size divided by the divisor's, it is negative exactly when the operands' signs differ and it is not zero, and it agrees with Euclidean division for a non-negative dividend |
| Decompositions.TMod | src/transcripa/Transcription/Decomposition.cs:69 | C#'s `%`: divisor times the truncated quotient plus the remainder is the dividend; the remainder is smaller than the divisor in size and, when not zero, has the dividend's sign |
| Decompositions.Decomposition.constructor | src/transcripa/Transcription/Decomposition.cs:35-45 | all seven fields are stored as given and the factor map starts empty |
| Decompositions.Decomposition.AddPrevFactor | src/transcripa/Management/Language.cs:139 | Dictionary.Add: a new index is added with its factor; an index already present fails with DuplicateKey and changes nothing |
| Decompositions.Decomposition.Decompose | src/transcripa/Transcription/Decomposition.cs:52-72 | the factor loop computes the formula `Value`, including the divide-by-zero failures; it changes neither `previous` nor any field |
| Decompositions.Decomposition.CompareTo | src/transcripa/Transcription/Decomposition.cs:123-126 | the comparison has the sign of the other formula's order minus this one's |
| Decompositions.OutsideRangeUnchanged | src/transcripa/Transcription/Decomposition.cs:56-71 | a codepoint outside [RangeMin, RangeMax] is returned unchanged, whatever the previous results |
| Decompositions.OnlyFactoredResultsCount | src/transcripa/Transcription/Decomposition.cs:58-66 | the weighted sum depends only on the previous results at indices that have a factor |
| Decompositions.SameFactoredResultsSameValue | src/transcripa/Transcription/Decomposition.cs:58-69 | two result lists that agree on every factored index yield the same value |
| Decompositions.UnfactoredResultsIgnored | src/transcripa/Transcription/Decomposition.cs:58-69 | previous results whose indices have no factor have no effect: the value is that for an empty list |
| Decompositions.ZeroResultsSumToZero | src/transcripa/Transcription/Decomposition.cs:58-66 | zero previous results add nothing, whatever the factors |
| Decompositions.FirstResultFormula | src/transcripa/Transcription/Decomposition.cs:68-69 | with no previous results the value is TMod(cp+Offset, Modulus) truncating-divided by Divisor plus Intercept, without the modulo when Modulus is 1 |
| Decompositions.ModulusOneSkipsModulo | src/transcripa/Transcription/Decomposition.cs:69 | with Modulus 1 no modulo is taken: the value is the accumulated codepoint truncating-divided by Divisor plus Intercept, and it differs from the value for a zero sum once that codepoint is at least the Divisor's size |
| Decompositions.ZeroDivisorFails | src/transcripa/Transcription/Decomposition.cs:69 | a covered codepoint with a zero Divisor or Modulus fails with DivideByZero |
| Decompositions.CompareToDescending | src/transcripa/Transcription/Decomposition.cs:123-126 | CompareTo sorts by descending Order: negative exactly when this order is larger, zero exactly on equal orders, and antisymmetric |
| Sorting.SortAscending | src/transcripa/Management/Language.cs:180 | results.Sort(): the output is ascending and a permutation of the input |
| TranscriptionMatches.SetLength | src/transcripa/Transcription/TranscriptionMatch.cs:22-23 | setting Length leaves Replacement unchanged |
| TranscriptionMatches.SetReplacement | src/transcripa/Transcription/TranscriptionMatch.cs:22-23 | setting Replacement leaves Length unchanged |
| TranscriptionExceptions.NewException | src/transcripa/Transcription/TranscriptionException.cs:36-51 | the constructor keeps the replacement verbatim; a field given as "" becomes no pattern, any other is kept as given |
| TranscriptionExceptions.TranscriptionException.IsMatch | src/transcripa/Transcription/TranscriptionException.cs:60-65 | an exception without patterns matches everything; a match means each given pattern matched: the original and suffix at the start of their texts, the prefix at the end of its text |
| TranscriptionExceptions.ExceptionMatchesByField | src/transcripa/Transcription/TranscriptionException.cs:36-65 | a constructed exception matches exactly when each given field matches: original and suffix at the start of their text, prefix at its end; an empty field imposes nothing; the replacement is kept verbatim |
| TranscriptionExceptions.EmptyExceptionAlwaysMatches | src/transcripa/Transcription/TranscriptionException.cs:60-65 | an exception with all three fields empty matches every triple of texts |
| Transcriptions.Transcription.Plain | src/transcripa/Transcription/Transcription.cs:36-40 | the two-argument constructor: pattern and replacement as given, no context, no exceptions |
| Transcriptions.Transcription.constructor | src/transcripa/Transcription/Transcription.cs:49-64 | the four-argument constructor: a context given as "" is no context, any other is kept |
| Transcriptions.Transcription.AddException | src/transcripa/Transcription/Transcription.cs:66-69 | the new exception goes after all earlier ones, which keep their order |
| Transcriptions.Transcription.IsMatch | src/transcripa/Transcription/Transcription.cs:77-104 | a match consumes at least one character and no more than the remainder from the cursor |
| Transcriptions.NoMainMatchNoMatch | src/transcripa/Transcription/Transcription.cs:79-103 | no main match, or an empty one, means no match |
| Transcriptions.PrefixContextRequired | src/transcripa/Transcription/Transcription.cs:84-101 | a given prefix context that does not match the end of the text before the cursor means no match |
| Transcriptions.SuffixContextRequired | src/transcripa/Transcription/Transcription.cs:87-99 | a given suffix context that does not match the start of the text after the main match means no match |
| Transcriptions.ContextsHoldThenMatch | src/transcripa/Transcription/Transcription.cs:79-103 | a non-empty main match whose given prefix and suffix contexts hold is a match: the converse of the two context lemmas above |
| Transcriptions.NoContextNoConstraint | src/transcripa/Transcription/Transcription.cs:55-63 | without context patterns a rule matches exactly where its main pattern has a non-empty match |
| Transcriptions.MatchConsumesMainLength | src/transcripa/Transcription/Transcription.cs:79-97 | a match's length is the main pattern's match length; its replacement is chosen by the exceptions, which see the whole remainder from the cursor, the text before, and the text after the main match |
| Transcriptions.ExceptionsKeepMatchShape | src/transcripa/Transcription/Transcription.cs:79-97 | exceptions decide neither whether a rule matches nor how much it consumes |
| Transcriptions.ChooseReplacement | src/transcripa/Transcription/Transcription.cs:90-97 | the replacement is the rule's own or that of an exception that applies |
| Transcriptions.FirstApplicableExceptionWins | src/transcripa/Transcription/Transcription.cs:90-96 | the first exception in list order that applies supplies the replacement |
| Transcriptions.NoApplicableExceptionUsesDefault | src/transcripa/Transcription/Transcription.cs:90-97 | when no exception applies the rule's own replacement is used |
| Transcriptions.AppendedExceptionComesLast | src/transcripa/Transcription/Transcription.cs:66-69 | an appended exception is consulted only where every earlier exception fails |
| Scanning.FirstMatch | src/transcripa/Transcription/Romanization.cs:47-57 | the match found at a cursor consumes at least one character, so the scanner always advances |
| Scanning.RunScanner | src/transcripa/Transcription/Romanization.cs:40-62 | the padded scanning loop computes `Scan` of the rules and the text |
| Scanning.ScanPadded | src/transcripa/Transcription/Romanization.cs:44-60 | the loop from position 1 to the closing pad produces the scan from position 1 |
| Scanning.ScanStep | src/transcripa/Transcription/Romanization.cs:46-59 | one turn of the loop moves the cursor forward and emits exactly what the scan emits between the old and the new cursor |
| Scanning.FindFirstMatch | src/transcripa/Transcription/Romanization.cs:47-57 | the inner loop stops at the first rule that matches and yields its match |
| Scanning.ScanAfterMiss | src/transcripa/Transcription/Romanization.cs:59 | where no rule matches, the character is emitted and the scan resumes one position on |
| Scanning.ScanAfterMatch | src/transcripa/Transcription/Romanization.cs:53-54 | after a match its replacement is emitted and the scan resumes exactly the match length on, within the padded text |
| Scanning.NoMatchIffNoRuleMatches | src/transcripa/Transcription/Romanization.cs:46-59 | there is no match at a cursor exactly when no rule in the list matches there |
| Scanning.FirstMatchingRuleWins | src/transcripa/Transcription/Romanization.cs:47-56 | the first rule in list order that matches decides; later rules are not consulted |
| Scanning.FirstRuleDecidesScan | src/transcripa/Transcription/Romanization.cs:47-56 | where rule j is the first to match, the output is its replacement followed by the scan from after its main match |
| Scanning.UnmatchedCharacterCopied | src/transcripa/Transcription/Romanization.cs:59 | where no rule matches, the character at the cursor is copied |
| Scanning.ScanFromWithoutRules | src/transcripa/Transcription/Romanization.cs:44-60 | with no rules the scan from a cursor copies the text up to the closing pad |
| Scanning.ScanWithoutRules | src/transcripa/Transcription/Romanization.cs:40-62 | with no rules the scanner returns its input exactly: neither pad is copied and nothing is trimmed |
| Romanizations.Romanization.constructor | src/transcripa/Transcription/Romanization.cs:27-31 | the profile stores its name and starts with no rules |
| Romanizations.Romanization.AddTransliteration | src/transcripa/Management/Language.cs:114 | Transliterations.Add puts the rule after every earlier one |
| Romanizations.Romanization.Romanize | src/transcripa/Transcription/Romanization.cs:38-63 | the result is the first-match scan with the profile's rules, untrimmed |
| Romanizations.EmptyProfileIsIdentity | src/transcripa/Transcription/Romanization.cs:40-62 | a profile without rules romanizes every text to itself |
| Texts.IsWhiteSpace | src/transcripa/Management/Language.cs:287 | Char.IsWhiteSpace as Trim uses it: space, tab, line feed and carriage return are whitespace; no ASCII letter or digit is |
| Texts.ConvertFromUtf32 | src/transcripa/Management/Language.cs:183 | a Unicode scalar becomes the one character with that codepoint; anything else fails with ArgumentOutOfRange |
| Texts.TrimStart | src/transcripa/Management/Language.cs:287 | the leading whitespace is dropped: a suffix of the text that does not start with whitespace, all of whose dropped part is whitespace |
| Texts.TrimEnd | src/transcripa/Management/Language.cs:287 | the trailing whitespace is dropped: a prefix of the text that does not end with whitespace, all of whose dropped part is whitespace |
| Texts.Trim | src/transcripa/Management/Language.cs:287 | String.Trim: the result neither starts nor ends with whitespace |
| Texts.TrimIsSlice | src/transcripa/Management/Language.cs:287 | what Trim removes is whitespace only: the result is the slice of the text between its leading and trailing whitespace |
| Texts.TrimIdempotent | src/transcripa/Management/Language.cs:287 | trimming twice is trimming once |
| Texts.TrimUnchanged | src/transcripa/Management/Language.cs:287 | a text that neither starts nor ends with whitespace is its own trim |
| Texts.TrimAllWhiteSpace | src/transcripa/Management/Language.cs:287 | a text made only of whitespace trims to nothing |
| LanguageRecords.FactorMapKeys | src/transcripa/Management/Language.cs:134-140 | the keys of the factor map are exactly the indices of the factor elements |
| LanguageRecords.NoDuplicateIffDistinct | src/transcripa/Management/Language.cs:134-140 | PrevFactors.Add throws for some element exactly when two elements share an index |
| LanguageRecords.FactorMapStoresEachFactor | src/transcripa/Management/Language.cs:134-140 | with distinct indices every factor is stored under its own index |
| LanguageRecords.DuplicateInPrefixDecides | src/transcripa/Management/Language.cs:134-140 | the first repeated index among the first elements is the one the whole list throws on |
| LanguageRecords.LoadableCount | src/transcripa/Management/Language.cs:120-143 | the number of formulas loaded before one throws: all of them add without a duplicate, and the next one has a duplicate |
| LanguageRecords.LoadableCountExact | src/transcripa/Management/Language.cs:120-143 | the loader stops exactly at the first decomposition element holding a repeated index |
| LanguageRecords.NewRule | src/transcripa/Management/Language.cs:72-86 | a new rule built by the four-argument constructor, with the exceptions added in document order |
| LanguageRecords.NewProfile | src/transcripa/Management/Language.cs:93-115 | a new profile with the element's name and one rule per transliteration element, in document order |
| LanguageRecords.NewDecomposition | src/transcripa/Management/Language.cs:122-140 | a new formula with the seven fields given; the factors are added unless an index repeats, and then the error names the first repeated index |
| TextDecomposition.ResultsFor | src/transcripa/Management/Language.cs:164-173 | when no formula fails, the results are empty exactly when no formula's range holds the codepoint |
| TextDecomposition.EncodeAll | src/transcripa/Management/Language.cs:181-184 | the encoding succeeds exactly when every result is a Unicode scalar, and then it yields one character per result with that codepoint |
| TextDecomposition.ResultsFailureDecides | src/transcripa/Management/Language.cs:167-173 | a failure among the first formulas is the failure of the whole list |
| TextDecomposition.EncodeFailureDecides | src/transcripa/Management/Language.cs:181-184 | a failure on an earlier result is the failure of the whole encoding |
| TextDecomposition.TextFailureDecides | src/transcripa/Management/Language.cs:162-186 | a failure on an earlier character is the failure of the whole text |
| TextDecomposition.DecomposeConcatenation | src/transcripa/Management/Language.cs:162-186 | the results list starts empty for every character, so decomposing s + t is decomposing s and then t |
| TextDecomposition.ConcatenationAfterSuccess | src/transcripa/Management/Language.cs:162-186 | after s decomposes successfully, decomposing s + t appends the decomposition of t |
| TextDecomposition.SingleCharacter | src/transcripa/Management/Language.cs:162-186 | a one-character text decomposes as that character on its own |
| TextDecomposition.UncoveredCharacterUnchanged | src/transcripa/Management/Language.cs:174-177 | a character has no results exactly when no formula covers it, and it is then emitted unchanged |
| TextDecomposition.NothingCoveredNoResults | src/transcripa/Management/Language.cs:164-174 | formulas that cover nothing yield no results |
| TextDecomposition.AppliedResultsAscending | src/transcripa/Management/Language.cs:178-184 | a covered character is replaced by its results in ascending codepoint order: an ascending permutation of the results |
| TextDecomposition.OrderUnusedForResults | src/transcripa/Management/Language.cs:167-173 | formulas that differ only in Order give the same results for every codepoint |
| TextDecomposition.SameFactorsSameSum | src/transcripa/Transcription/Decomposition.cs:58-66 | formulas with the same factor map give the same weighted sum |
| TextDecomposition.OrderUnusedInDecomposition | src/transcripa/Management/Language.cs:152-189 | formulas that differ only in Order decompose every text alike |
| TextDecomposition.OrderUnusedForText | src/transcripa/Management/Language.cs:160-187 | the same, character by character |
| Languages.FirstNamed | src/transcripa/Management/Language.cs:345-355 | the first profile in list order with the given name, and none exactly when no profile has it |
| Languages.Language.constructor | src/transcripa/Management/Language.cs:50-54 | the new language has the given code and name, empty rule lists, no selected profile, and is not loaded |
| Languages.Language.Load | src/transcripa/Management/Language.cs:60-145 | a loaded language changes nothing; otherwise each element is appended after the existing rules as the builders make it, and formulas are appended up to the first repeated factor index, whose error is returned |
| Languages.Language.AppendTranscriptions | src/transcripa/Management/Language.cs:69-89 | one rule per transcription element is appended after the existing ones |
| Languages.Language.AppendRomanizations | src/transcripa/Management/Language.cs:91-118 | one profile per romanization element is appended, with its name and rules |
| Languages.Language.AppendDecomposition | src/transcripa/Management/Language.cs:122-141 | one turn of the formula loop: the formula is appended after the existing ones exactly when its factor indices are distinct; otherwise the list is unchanged and the error names the first repeated index |
| Languages.Language.AppendDecompositions | src/transcripa/Management/Language.cs:120-143 | formulas are appended up to the first that throws; the error is that formula's first repeated index |
| Languages.Language.Decompose | src/transcripa/Management/Language.cs:152-189 | the nested loops compute `Decomposed`: the input itself when there are no formulas, otherwise each character decomposed in turn |
| Languages.Language.DecomposeLetter | src/transcripa/Management/Language.cs:164-185 | one character: the character itself when it has no results, otherwise its sorted results encoded |
| Languages.Language.CollectResults | src/transcripa/Management/Language.cs:164-173 | the inner loop collects the results of the covering formulas in list order, each fed the results before it |
| Languages.Language.EncodeResults | src/transcripa/Management/Language.cs:181-184 | the results are appended one character each, stopping at the first that is no Unicode scalar |
| Languages.Language.CurrentRomanization | src/transcripa/Management/Language.cs:320-323 | the selected profile when the index is in range, and ArgumentOutOfRange otherwise |
| Languages.Language.Romanize | src/transcripa/Management/Language.cs:230-245 | computes `Romanized`: the input when no profile is selected, otherwise decomposition unless already done, then the selected profile's scan |
| Languages.Language.RomanizeDecomposed | src/transcripa/Management/Language.cs:197-200 | the one-argument overload treats the input as decomposed |
| Languages.Language.Transcribe | src/transcripa/Management/Language.cs:254-288 | computes `Transcribed`: decompose and romanize unless done, then the first-match scan with the transcription rules, trimmed |
| Languages.Language.Prepare | src/transcripa/Management/Language.cs:256-263 | the steps before the scan: decompose unless done, then romanize as decomposed unless done |
| Languages.Language.ScanOfPrepared | src/transcripa/Management/Language.cs:265-287 | once the steps before the scan succeed, the transcription is the trimmed scan of their result with the transcription rules |
| Languages.Language.TranscribeProcessed | src/transcripa/Management/Language.cs:207-210 | the one-argument overload treats the input as decomposed and romanized |
| Languages.Language.TranscribeRomanized | src/transcripa/Management/Language.cs:218-221 | the two-argument overload treats the input as romanized |
| Languages.Language.SetRomanizationIndex | src/transcripa/Management/Language.cs:331 | the setter stores any value, in range or not |
| Languages.Language.RomanizationName | src/transcripa/Management/Language.cs:339-342 | the selected profile's name, or ArgumentOutOfRange for an index outside the list |
| Languages.Language.SetRomanizationName | src/transcripa/Management/Language.cs:343-355 | selects the first profile so named; when none is, the index is left unchanged |
| Languages.Language.RomanizationNames | src/transcripa/Management/Language.cs:361-372 | the profile names in list order |
| Languages.SelectByNameIsFirstMatch | src/transcripa/Management/Language.cs:345-355 | the profile the name setter selects has that name and no earlier profile has it; none is selected exactly when no profile has the name |
| Languages.RomanizeWithoutProfileIsIdentity | src/transcripa/Management/Language.cs:232-235 | with no profile, or none selected, Romanize returns its input unchanged, even when asked to decompose it |
| Languages.RomanizeWithBadIndexFails | src/transcripa/Management/Language.cs:236-243 | an index other than -1 outside the profile list makes Romanize throw ArgumentOutOfRange |
| Languages.RomanizeUsesSelectedProfile | src/transcripa/Management/Language.cs:236-244 | with a profile selected and decomposed input, romanizing is that profile's scan, untrimmed |
| Languages.DecomposeWithoutFormulasIsIdentity | src/transcripa/Management/Language.cs:154-157 | with no formulas Decompose returns its input |
| Languages.TranscribeWithoutRulesTrims | src/transcripa/Management/Language.cs:265-287 | with no transcription rules and both flags set, Transcribe returns the trimmed input |
| Languages.TranscriptionIsTrimmed | src/transcripa/Management/Language.cs:287 | a transcription never starts or ends with whitespace |
| Languages.TranscribeProcessedUsesOnlyTranscriptions | src/transcripa/Management/Language.cs:254-288 | with both flags set, the formulas and profiles play no part: the result is the trimmed scan with the transcription rules |
| LanguageManagers.LanguageManager.constructor | src/transcripa/Management/LanguageManager.cs:30-31 | the registry starts with no languages and the empty current name |
| LanguageManagers.LanguageManager.Register | src/transcripa/Management/LanguageManager.cs:47 | languages.Add: a new name gets a new unloaded language with that code and name, and other entries are kept; a registered name fails with DuplicateName and changes nothing |
| LanguageManagers.LanguageManager.CurrentLanguage | src/transcripa/Management/LanguageManager.cs:94-97 | the language registered under the current name, and KeyNotFound when there is none |
| LanguageManagers.LanguageManager.Load | src/transcripa/Management/LanguageManager.cs:56-60 | the name is set first and the map is untouched; an unknown name fails with KeyNotFound; a known one is loaded as Language.Load states. Only the current name and the named language may change; that language's profile index and loaded flag stay as they were |
| LanguageManagers.LanguageManager.Languages | src/transcripa/Management/LanguageManager.cs:74-81 | every registered name exactly once, as many as Length |
| LanguageManagers.LanguageManager.Length | src/transcripa/Management/LanguageManager.cs:86-89 | the number of registered languages |
| LanguageManagers.LanguageManager.SetName | src/transcripa/Management/LanguageManager.cs:102-106 | the setter changes the current name and nothing else |
| LanguageManagers.UnknownNameHasNoLanguage | src/transcripa/Management/LanguageManager.cs:94-97 | an unregistered current name has no language, so loading it fails |
| Scenarios.LiteralRuleAt | src/transcripa/Transcription/Transcription.cs:77-104 | under the literal library, a context-free rule matches exactly where its text starts the remainder, ignoring case |
| Scenarios.SingleLetterRule | src/transcripa/Transcription/Romanization.cs:38-63 | a one-letter rule with no context and no exceptions replaces every occurrence of the letter, in either case |
| Scenarios.Banana | src/transcripa/Transcription/Romanization.cs:38-63 | the rule "a" → "X" turns "banana" into "bXnXnX" and "BANANA" into "BXNXNX" |
| Scenarios.FirstListedRuleWins | src/transcripa/Transcription/Romanization.cs:47-56 | rules "a" → "1" then "an" → "2" turn "an" into "1n": list order beats match length |
| Scenarios.LongerRuleListedFirstWins | src/transcripa/Transcription/Romanization.cs:47-56 | the same rules in the other order turn "an" into "2" |
| Scenarios.PrefixContextHolds | src/transcripa/Transcription/Transcription.cs:79-103 | rule "n" → "N" with prefix context "a", listed before "n" → "n", turns "an" into "aN": the context rule fires where its prefix holds |
| Scenarios.PrefixContextFails | src/transcripa/Transcription/Transcription.cs:79-103 | the same rules turn "bn" into "bn": where the prefix fails, the next rule is consulted |
| Scenarios.ExceptionSeesRemainder | src/transcripa/Transcription/Transcription.cs:79-94 | rule "a" → "X" with exception "an" → "Y" turns "ana" into "YnX": the exception sees past the one-letter match |
| Scenarios.HangulResults | src/transcripa/Management/Language.cs:164-173 | the three Hangul jamo formulas give U+D55C the results U+11AB, U+1161, U+1112 in formula order |
| Scenarios.HangulSyllable | src/transcripa/Management/Language.cs:164-184 | with the formulas listed final, medial, initial, U+D55C decomposes into U+1112 U+1161 U+11AB: the results are emitted sorted, not in formula order |
| Scenarios.LoadTwice | src/transcripa/Management/Language.cs:60-145 | loading the same data twice into a new language doubles every rule list |

## Left out

- .NET regular expressions: IgnoreCase, backtracking, and `$` before a final newline belong to the library. Its two operations are a parameter. The model assumes only that a match stays within the text. `Patterns.Literal` is a stand-in used by the scenarios.
- A pattern that does not compile: `new Regex` throwing in a constructor is not modelled.
- XML parsing:
  - `Language.Load` takes already-parsed records. An absent attribute is `""`.
  - `int.Parse` and its exceptions, the XPath queries, and the null language node for a name missing from the document are not modelled.
  - `LanguageManager`'s XML constructor becomes an empty constructor plus `Register`, one call per `Language` element.
- UTF-16: text is a sequence of Unicode scalars. `char.ConvertFromUtf32` of a codepoint above U+FFFF gives one character here, where .NET gives a surrogate pair. A .NET string holding unpaired surrogates cannot be written.
- 32-bit overflow in the decomposition arithmetic. Integers are unbounded.
- `Dictionary` key order: `LanguageManager.Languages` is stated as every key exactly once. The order is not stated.
- Setters the core never calls are modelled as constants and left out:
  - `Language.IsoCode` and `Language.Name`;
  - `Romanization.Name`;
  - the `Decomposition` field setters;
  - `Transcription.Replacement`, the only settable property of a
    `Transcription`. `Original`, `Prefix` and `Suffix` are get-only and are
    fixed by the constructor.

  `Romanization.Transliterations` is modelled only through `AddTransliteration`.
- The user interface (`MainWindow`), accent input (`Accents`), validation message boxes (`Validation`) and XML loading helpers (`XmlExtension`) are not part of this model.
- The scanner loop appears twice in the source, in `Romanization.Romanize` and `Language.Transcribe`. The model has one loop, `Scanning.RunScanner`, and both call it.
