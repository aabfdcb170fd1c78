/**
 * Concrete runs of the engine with the literal, case-insensitive pattern
 * library: what a handful of small rule sets do to small texts.
 */
module Scenarios {
  import opened Wrappers
  import opened Patterns
  import opened TranscriptionMatches
  import opened TranscriptionExceptions
  import opened Transcriptions
  import opened Scanning
  import opened Decompositions
  import opened Sorting
  import opened LanguageRecords
  import opened TextDecomposition
  import opened Texts
  import opened Languages

  /** A rule without context patterns, under the literal library: it matches where its text starts the remainder. */
  lemma LiteralRuleAt(t: Transcription, raw: string, i: nat)
    requires i <= |raw| && t.prefix.None? && t.suffix.None?
    ensures var n := |t.original|;
      t.IsMatch(Literal, raw, i) ==
        if 0 < n <= |raw| - i && SameIgnoringCase(t.original, raw[i..i + n])
        then Some(TranscriptionMatch(ChooseReplacement(Literal, t.exceptions, t.replacement, raw[i..], raw[..i], raw[i + n..]), n))
        else None
  {
    var n := |t.original|;
    if n <= |raw| - i {
      assert raw[i..][..n] == raw[i..i + n];
    }
  }

  /** With a single rule, the first match at a cursor is that rule's match. */
  lemma SingleRule(re: Engine, t: Transcription, p: string, i: nat)
    requires i <= |p|
    ensures FirstMatch(re, [t], p, i) == t.IsMatch(re, p, i)
  {
    assert [t][1..] == [];
  }

  /** A plain literal rule without exceptions that matches at i emits its replacement and skips its text. */
  lemma PlainHit(t: Transcription, p: string, i: nat)
    requires t.prefix.None? && t.suffix.None? && t.exceptions == []
    requires 0 < |t.original| && i + |t.original| < |p|
    requires SameIgnoringCase(t.original, p[i..i + |t.original|])
    ensures ScanFrom(Literal, [t], p, i) == t.replacement + ScanFrom(Literal, [t], p, i + |t.original|)
  {
    LiteralRuleAt(t, p, i);
    SingleRule(Literal, t, p, i);
    var m := TranscriptionMatch(t.replacement, |t.original|);
    assert FirstMatch(Literal, [t], p, i) == Some(m);
    ScanAfterMatch(Literal, [t], p, i, m);
  }

  /** A plain literal rule that does not match at i leaves the character to be copied. */
  lemma PlainMiss(t: Transcription, p: string, i: nat)
    requires t.prefix.None? && t.suffix.None?
    requires i + 1 < |p|
    requires !(|t.original| <= |p| - i && SameIgnoringCase(t.original, p[i..i + |t.original|]))
    ensures ScanFrom(Literal, [t], p, i) == [p[i]] + ScanFrom(Literal, [t], p, i + 1)
  {
    LiteralRuleAt(t, p, i);
    SingleRule(Literal, t, p, i);
    ScanAfterMiss(Literal, [t], p, i);
  }

  /** Every occurrence of letter c, in either case, replaced by r; every other character kept. */
  function Substitute(s: string, c: char, r: string): string
  {
    if s == [] then []
    else (if FoldCase(s[0]) == FoldCase(c) then r else [s[0]]) + Substitute(s[1..], c, r)
  }

  lemma {:induction false} SingleLetterRuleFrom(t: Transcription, p: string, i: nat)
    requires |t.original| == 1 && t.prefix.None? && t.suffix.None? && t.exceptions == []
    requires 1 <= i < |p|
    ensures ScanFrom(Literal, [t], p, i) == Substitute(p[i..|p| - 1], t.original[0], t.replacement)
    decreases |p| - i
  {
    var c := t.original[0];
    if i + 1 < |p| {
      SingleLetterRuleFrom(t, p, i + 1);
      assert p[i..|p| - 1] == [p[i]] + p[i + 1..|p| - 1];
      assert p[i..i + 1] == [p[i]];
      if FoldCase(p[i]) == FoldCase(c) {
        PlainHit(t, p, i);
      } else {
        PlainMiss(t, p, i);
      }
    }
  }

  /**
   * A rule whose pattern is one letter, with no context and no exceptions,
   * replaces every occurrence of that letter, in either case.
   */
  lemma SingleLetterRule(t: Transcription, text: string)
    requires |t.original| == 1 && t.prefix.None? && t.suffix.None? && t.exceptions == []
    ensures Scan(Literal, [t], text) == Substitute(text, t.original[0], t.replacement)
  {
    var p := " " + text + " ";
    SingleLetterRuleFrom(t, p, 1);
    assert p[1..|p| - 1] == text;
  }

  /** One rule "a" -> "X": every a of "banana" is replaced, the other letters are copied. */
  lemma Banana(t: Transcription)
    requires t.original == "a" && t.replacement == "X"
    requires t.prefix.None? && t.suffix.None? && t.exceptions == []
    ensures Scan(Literal, [t], "banana") == "bXnXnX"
    ensures Scan(Literal, [t], "BANANA") == "BXNXNX"
  {
    SingleLetterRule(t, "banana");
    SingleLetterRule(t, "BANANA");
    assert t.original[0] == 'a';
    assert Substitute("banana", 'a', "X") == "bXnXnX";
    assert Substitute("BANANA", 'a', "X") == "BXNXNX";
  }

  /** With two rules, the second is consulted only where the first does not match. */
  lemma TwoRules(re: Engine, a: Transcription, b: Transcription, p: string, i: nat)
    requires i <= |p|
    ensures FirstMatch(re, [a, b], p, i) == if a.IsMatch(re, p, i).Some? then a.IsMatch(re, p, i) else b.IsMatch(re, p, i)
  {
    assert [a, b][1..] == [b];
    SingleRule(re, b, p, i);
  }

  /** A plain literal rule without exceptions. */
  predicate PlainRule(t: Transcription, original: string, replacement: string)
    reads t
  {
    t.original == original && t.replacement == replacement
    && t.prefix.None? && t.suffix.None? && t.exceptions == []
  }

  /** Neither of two rules matches: the character is copied. */
  lemma TwoRulesMiss(re: Engine, a: Transcription, b: Transcription, p: string, i: nat)
    requires i + 1 < |p| && a.IsMatch(re, p, i).None? && b.IsMatch(re, p, i).None?
    ensures ScanFrom(re, [a, b], p, i) == [p[i]] + ScanFrom(re, [a, b], p, i + 1)
  {
    TwoRules(re, a, b, p, i);
    ScanAfterMiss(re, [a, b], p, i);
  }

  /** The first of two rules matches: its match is applied, whatever the second would do. */
  lemma TwoRulesFirstHits(re: Engine, a: Transcription, b: Transcription, p: string, i: nat, m: TranscriptionMatch)
    requires i + 1 < |p| && a.IsMatch(re, p, i) == Some(m)
    ensures i + m.length <= |p|
    ensures ScanFrom(re, [a, b], p, i) == m.replacement + ScanFrom(re, [a, b], p, i + m.length)
  {
    TwoRules(re, a, b, p, i);
    ScanAfterMatch(re, [a, b], p, i, m);
  }

  /** Only the second of two rules matches: its match is applied. */
  lemma TwoRulesSecondHits(re: Engine, a: Transcription, b: Transcription, p: string, i: nat, m: TranscriptionMatch)
    requires i + 1 < |p| && a.IsMatch(re, p, i).None? && b.IsMatch(re, p, i) == Some(m)
    ensures i + m.length <= |p|
    ensures ScanFrom(re, [a, b], p, i) == m.replacement + ScanFrom(re, [a, b], p, i + m.length)
  {
    TwoRules(re, a, b, p, i);
    ScanAfterMatch(re, [a, b], p, i, m);
  }

  /** A plain literal rule under the literal library: its match where its text starts the remainder. */
  lemma PlainRuleAt(t: Transcription, original: string, replacement: string, p: string, i: nat)
    requires PlainRule(t, original, replacement) && i + |original| <= |p| && 0 < |original|
    requires SameIgnoringCase(original, p[i..i + |original|])
    ensures t.IsMatch(Literal, p, i) == Some(TranscriptionMatch(replacement, |original|))
  {
    LiteralRuleAt(t, p, i);
  }

  /** A rule whose first letter differs from the text at the cursor does not match there. */
  lemma FirstLetterDiffers(t: Transcription, p: string, i: nat)
    requires i < |p| && 0 < |t.original|
    requires FoldCase(t.original[0]) != FoldCase(p[i])
    ensures t.IsMatch(Literal, p, i).None?
  {
    if |t.original| <= |p| - i {
      assert p[i..][..|t.original|][0] == p[i];
    }
    NoMainMatchNoMatch(Literal, t, p, i);
  }

  /**
   * Rules "a" -> "1" then "an" -> "2" on "an": the shorter rule comes first
   * and wins, although the longer one would match more.
   */
  lemma FirstListedRuleWins(one: Transcription, two: Transcription)
    requires PlainRule(one, "a", "1") && PlainRule(two, "an", "2")
    ensures Scan(Literal, [one, two], "an") == "1n"
  {
    var p := " an ";
    assert " " + "an" + " " == p;
    assert p[1..2] == "a";
    PlainRuleAt(one, "a", "1", p, 1);
    TwoRulesFirstHits(Literal, one, two, p, 1, TranscriptionMatch("1", 1));
    FirstLetterDiffers(one, p, 2);
    FirstLetterDiffers(two, p, 2);
    TwoRulesMiss(Literal, one, two, p, 2);
    assert ScanFrom(Literal, [one, two], p, 3) == [];
    assert "1" + ([p[2]] + []) == "1n";
  }

  /** The same two rules listed the other way round: now "an" is consumed whole. */
  lemma LongerRuleListedFirstWins(one: Transcription, two: Transcription)
    requires PlainRule(one, "a", "1") && PlainRule(two, "an", "2")
    ensures Scan(Literal, [two, one], "an") == "2"
  {
    var p := " an ";
    assert " " + "an" + " " == p;
    var rules := [two, one];
    LiteralRuleAt(two, p, 1);
    TwoRules(Literal, two, one, p, 1);
    assert p[1..3] == "an";
    ScanAfterMatch(Literal, rules, p, 1, TranscriptionMatch("2", 2));
    assert ScanFrom(Literal, rules, p, 3) == [];
  }

  /** Rule "n" -> "N" that needs an "a" before the cursor, with no suffix and no exceptions. */
  predicate AfterARule(t: Transcription)
    reads t
  {
    t.original == "n" && t.replacement == "N" && t.prefix == Some("a") && t.suffix.None? && t.exceptions == []
  }

  /** After an "a" the context rule fires and hides the plain rule listed after it. */
  lemma PrefixContextHolds(ctx: Transcription, plain: Transcription)
    requires AfterARule(ctx) && PlainRule(plain, "n", "n")
    ensures Scan(Literal, [ctx, plain], "an") == "aN"
  {
    var p := " an ";
    assert " " + "an" + " " == p;
    FirstLetterDiffers(ctx, p, 1);
    FirstLetterDiffers(plain, p, 1);
    TwoRulesMiss(Literal, ctx, plain, p, 1);
    AfterAFires(ctx, p);
    TwoRulesFirstHits(Literal, ctx, plain, p, 2, TranscriptionMatch("N", 1));
    assert ScanFrom(Literal, [ctx, plain], p, 3) == [];
    assert [p[1]] + ("N" + []) == "aN";
  }

  lemma AfterAFires(ctx: Transcription, p: string)
    requires AfterARule(ctx) && p == " an "
    ensures ctx.IsMatch(Literal, p, 2) == Some(TranscriptionMatch("N", 1))
  {
    assert p[2..][..1] == "n" && p[..2][1..] == "a";
    ContextsHoldThenMatch(Literal, ctx, p, 2);
    MatchConsumesMainLength(Literal, ctx, p, 2);
  }

  /** After any other letter the context rule does not apply and the plain rule copies the "n". */
  lemma PrefixContextFails(ctx: Transcription, plain: Transcription)
    requires AfterARule(ctx) && PlainRule(plain, "n", "n")
    ensures Scan(Literal, [ctx, plain], "bn") == "bn"
  {
    var p := " bn ";
    assert " " + "bn" + " " == p;
    FirstLetterDiffers(ctx, p, 1);
    FirstLetterDiffers(plain, p, 1);
    TwoRulesMiss(Literal, ctx, plain, p, 1);
    assert p[..2][1..] == "b" && FoldCase('b') != FoldCase('a');
    PrefixContextRequired(Literal, ctx, p, 2);
    assert p[2..3] == "n";
    PlainRuleAt(plain, "n", "n", p, 2);
    TwoRulesSecondHits(Literal, ctx, plain, p, 2, TranscriptionMatch("n", 1));
    assert ScanFrom(Literal, [ctx, plain], p, 3) == [];
    assert [p[1]] + ("n" + []) == "bn";
  }

  /**
   * Rule "a" -> "X" with the exception "an" -> "Y" on "ana": the exception's
   * pattern is tried on the whole rest of the text, so it applies to the first
   * a, whose own match is the single letter, but not to the last.
   */
  lemma ExceptionSeesRemainder(t: Transcription)
    requires t.original == "a" && t.replacement == "X" && t.prefix.None? && t.suffix.None?
    requires t.exceptions == [NewException("an", "Y", "", "")]
    ensures Scan(Literal, [t], "ana") == "YnX"
  {
    var p := " ana ";
    assert " " + "ana" + " " == p;
    ExceptionAppliesAtFirst(t, p);
    ExceptionTail(t, p);
    ScanAfterMatch(Literal, [t], p, 1, TranscriptionMatch("Y", 1));
    assert "Y" + "nX" == "YnX";
  }

  lemma ExceptionAppliesAtFirst(t: Transcription, p: string)
    requires t.original == "a" && t.replacement == "X" && t.prefix.None? && t.suffix.None?
    requires t.exceptions == [NewException("an", "Y", "", "")]
    requires p == " ana "
    ensures FirstMatch(Literal, [t], p, 1) == Some(TranscriptionMatch("Y", 1))
  {
    var e := NewException("an", "Y", "", "");
    assert [e][1..] == [];
    SingleRule(Literal, t, p, 1);
    LiteralRuleAt(t, p, 1);
    assert p[1..2] == "a" && p[1..][..2] == "an";
    assert e.IsMatch(Literal, p[1..], p[..1], p[2..]);
  }

  lemma ExceptionTail(t: Transcription, p: string)
    requires t.original == "a" && t.replacement == "X" && t.prefix.None? && t.suffix.None?
    requires t.exceptions == [NewException("an", "Y", "", "")]
    requires p == " ana "
    ensures ScanFrom(Literal, [t], p, 2) == "nX"
  {
    var e := NewException("an", "Y", "", "");
    assert [e][1..] == [];
    SingleRule(Literal, t, p, 2);
    LiteralRuleAt(t, p, 2);
    assert !SameIgnoringCase("a", p[2..3]) by {
      assert FoldCase(p[2..3][0]) != FoldCase("a"[0]);
    }
    ScanAfterMiss(Literal, [t], p, 2);
    SingleRule(Literal, t, p, 3);
    LiteralRuleAt(t, p, 3);
    assert p[3..4] == "a";
    assert !e.IsMatch(Literal, p[3..], p[..3], p[4..]) by {
      assert FoldCase(p[3..][..2][1]) != FoldCase("an"[1]);
    }
    ScanAfterMatch(Literal, [t], p, 3, TranscriptionMatch("X", 1));
    assert ScanFrom(Literal, [t], p, 4) == [];
    assert [p[2]] + "X" == "nX";
  }

  // ---------------------------------------------------------------------------
  // Decomposition: the Hangul syllable formulas.

  /** The trailing consonant of a Hangul syllable: (cp - 0xAC00) % 28 + 0x11A7. */
  const FinalJamo := DecompositionRecord(-0xAC00, 28, 1, 0x11A7, 0, 0xAC00, 0xD7A3, [])
  /** The vowel: ((cp - 0xAC00) % 588) / 28 + 0x1161. */
  const MedialJamo := DecompositionRecord(-0xAC00, 588, 28, 0x1161, 0, 0xAC00, 0xD7A3, [])
  /** The leading consonant: (cp - 0xAC00) / 588 + 0x1100, with the modulo step skipped. */
  const InitialJamo := DecompositionRecord(-0xAC00, 1, 588, 0x1100, 0, 0xAC00, 0xD7A3, [])

  /** One more formula that covers the codepoint adds its value to the results. */
  lemma ResultsStep(decs: seq<Decomposition>, d: Decomposition, cp: int, rs: seq<int>, v: int)
    requires ResultsFor(decs, cp) == Ok(rs) && d.Covers(cp) && d.Value(cp, rs) == Ok(v)
    ensures ResultsFor(decs + [d], cp) == Ok(rs + [v])
  {
    assert (decs + [d])[..|decs|] == decs;
  }

  /** The results for U+D55C, the formulas listed final, medial, initial: in list order, not yet sorted. */
  lemma HangulResults(fin: Decomposition, med: Decomposition, ini: Decomposition)
    requires DecompositionModels(fin, FinalJamo) && DecompositionModels(med, MedialJamo)
    requires DecompositionModels(ini, InitialJamo)
    ensures ResultsFor([fin, med, ini], 0xD55C) == Ok([0x11AB, 0x1161, 0x1112])
  {
    assert fin.Value(0xD55C, []) == Ok(0x11AB);
    ResultsStep([], fin, 0xD55C, [], 0x11AB);
    assert [] + [fin] == [fin] && [] + [0x11AB] == [0x11AB];
    assert med.WeightedSum([0x11AB], 1) == 0;
    assert med.Value(0xD55C, [0x11AB]) == Ok(0x1161);
    ResultsStep([fin], med, 0xD55C, [0x11AB], 0x1161);
    assert [fin] + [med] == [fin, med] && [0x11AB] + [0x1161] == [0x11AB, 0x1161];
    assert ini.WeightedSum([0x11AB, 0x1161], 1) == 0;
    assert ini.WeightedSum([0x11AB, 0x1161], 2) == 0;
    assert ini.Value(0xD55C, [0x11AB, 0x1161]) == Ok(0x1112);
    ResultsStep([fin, med], ini, 0xD55C, [0x11AB, 0x1161], 0x1112);
    assert [fin, med] + [ini] == [fin, med, ini] && [0x11AB, 0x1161] + [0x1112] == [0x11AB, 0x1161, 0x1112];
  }

  /** Sorting x followed by s inserts x into the sorted s. */
  lemma SortCons(x: int, s: seq<int>, sorted: seq<int>)
    requires SortAscending(s) == sorted
    ensures SortAscending([x] + s) == Insert(x, sorted)
  {
    assert ([x] + s)[1..] == s;
  }

  /** A value above the head is inserted into the tail. */
  lemma InsertPast(x: int, h: int, s: seq<int>)
    requires x > h
    ensures Insert(x, [h] + s) == [h] + Insert(x, s)
  {
    assert ([h] + s)[1..] == s;
  }

  lemma SortSingle(x: int)
    ensures SortAscending([x]) == [x]
  {
    SortCons(x, [], []);
    assert [x] + [] == [x];
  }

  lemma SortDescendingPair(med: int, ini: int)
    requires ini < med
    ensures SortAscending([med, ini]) == [ini, med]
  {
    SortSingle(ini);
    SortCons(med, [ini], [ini]);
    assert [med] + [ini] == [med, ini];
    InsertPast(med, ini, []);
    assert [ini] + [] == [ini] && Insert(med, []) == [med];
  }

  lemma InsertAbovePair(fin: int, ini: int, med: int)
    requires ini < med < fin
    ensures Insert(fin, [ini, med]) == [ini, med, fin]
  {
    InsertPast(fin, med, []);
    assert [med] + [] == [med] && Insert(fin, []) == [fin];
    InsertPast(fin, ini, [med]);
    assert [ini] + [med] == [ini, med];
  }

  /** Three values listed in descending order come out of the sort reversed. */
  lemma DescendingTripleSorted(fin: int, med: int, ini: int)
    requires ini < med < fin
    ensures SortAscending([fin, med, ini]) == [ini, med, fin]
  {
    SortDescendingPair(med, ini);
    SortCons(fin, [med, ini], [ini, med]);
    assert [fin] + [med, ini] == [fin, med, ini];
    InsertAbovePair(fin, ini, med);
  }

  lemma HangulEncoded()
    ensures EncodeAll([0x1112, 0x1161, 0x11AB]) == Ok([0x1112 as char, 0x1161 as char, 0x11AB as char])
  {
    var vs := [0x1112, 0x1161, 0x11AB];
    assert forall k :: 0 <= k < |vs| ==> IsScalar(vs[k]);
    var r := EncodeAll(vs);
    assert r.Ok? && |r.value| == 3;
    assert r.value == [0x1112 as char, 0x1161 as char, 0x11AB as char];
  }

  /**
   * The syllable U+D55C decomposes into its three jamo U+1112 U+1161 U+11AB:
   * the formulas run final, medial, initial, and the results come out sorted.
   */
  lemma HangulSyllable(fin: Decomposition, med: Decomposition, ini: Decomposition)
    requires DecompositionModels(fin, FinalJamo) && DecompositionModels(med, MedialJamo)
    requires DecompositionModels(ini, InitialJamo)
    ensures DecomposeChar([fin, med, ini], 0xD55C as char) == Ok([0x1112 as char, 0x1161 as char, 0x11AB as char])
  {
    HangulResults(fin, med, ini);
    DescendingTripleSorted(0x11AB, 0x1161, 0x1112);
    HangulEncoded();
  }

  // ---------------------------------------------------------------------------
  // Loading.

  /**
   * Loading the same rule data twice into a new language: the `loaded` flag
   * is never set, so the second load appends a second copy of every list.
   */
  method LoadTwice(data: LanguageRecord) returns (transcriptionCount: nat, romanizationCount: nat, decompositionCount: nat)
    ensures transcriptionCount == 2 * |data.transcriptions|
    ensures romanizationCount == 2 * |data.romanizations|
    ensures decompositionCount == 2 * LoadableCount(data.decompositions)
  {
    var language := new Language("ko", "Korean");
    var first := language.Load(data);
    var second := language.Load(data);
    transcriptionCount := |language.transcriptions|;
    romanizationCount := |language.romanizations|;
    decompositionCount := |language.decompositions|;
  }
}
