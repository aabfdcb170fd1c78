/**
 * The first-match scanner shared by romanization and transcription: the text is
 * padded with one space on each side and the positions strictly between the
 * pads are scanned left to right. At each cursor the first rule in list order
 * that matches emits its replacement and the cursor moves past the main match;
 * where no rule matches the character is copied and the cursor moves by one.
 */
module Scanning {
  import opened Wrappers
  import opened Patterns
  import opened TranscriptionMatches
  import opened Transcriptions

  /** The match of the first rule, in list order, that applies at cursor i. */
  function FirstMatch(re: Engine, rules: seq<Transcription>, raw: string, i: nat): (r: Option<TranscriptionMatch>)
    reads rules
    requires i <= |raw|
    ensures r.Some? ==> 1 <= r.value.length <= |raw| - i
  {
    if rules == [] then None
    else
      match rules[0].IsMatch(re, raw, i)
      case Some(m) => Some(m)
      case None => FirstMatch(re, rules[1..], raw, i)
  }

  /** The output the scanner produces from cursor i of the padded text to the closing pad. */
  function ScanFrom(re: Engine, rules: seq<Transcription>, padded: string, i: nat): string
    reads rules
    requires i <= |padded|
    decreases |padded| - i
  {
    if i + 1 >= |padded| then []
    else
      match FirstMatch(re, rules, padded, i)
      case Some(m) => m.replacement + ScanFrom(re, rules, padded, i + m.length)
      case None => [padded[i]] + ScanFrom(re, rules, padded, i + 1)
  }

  /** The scanner's output for a text, without the trimming transcription adds. */
  function Scan(re: Engine, rules: seq<Transcription>, text: string): string
    reads rules
  {
    ScanFrom(re, rules, " " + text + " ", 1)
  }

  /** The scanning loop of Romanization.Romanize and Language.Transcribe: pad, then scan. */
  method RunScanner(re: Engine, rules: seq<Transcription>, input: string) returns (output: string)
    ensures output == Scan(re, rules, input)
  {
    output := ScanPadded(re, rules, " " + input + " ");
  }

  /** The loop itself, over a text that already carries its two pads. */
  method ScanPadded(re: Engine, rules: seq<Transcription>, padded: string) returns (output: string)
    requires 2 <= |padded|
    ensures output == ScanFrom(re, rules, padded, 1)
  {
    var builder := "";
    var inputLength := |padded|;
    var i := 1;
    while i < inputLength - 1
      invariant 1 <= i <= inputLength
      invariant builder + ScanFrom(re, rules, padded, i) == ScanFrom(re, rules, padded, 1)
      decreases inputLength - i
    {
      var piece, next := ScanStep(re, rules, padded, i);
      assert (builder + piece) + ScanFrom(re, rules, padded, next) == builder + (piece + ScanFrom(re, rules, padded, next));
      builder := builder + piece;
      i := next;
    }
    output := builder;
  }

  /**
   * One turn of the loop at cursor i: the replacement of the first rule that
   * matches and the cursor past its main match, or the character and i + 1.
   */
  method ScanStep(re: Engine, rules: seq<Transcription>, padded: string, i: nat) returns (piece: string, next: nat)
    requires i + 1 < |padded|
    ensures i < next <= |padded|
    ensures ScanFrom(re, rules, padded, i) == piece + ScanFrom(re, rules, padded, next)
  {
    var found := FindFirstMatch(re, rules, padded, i);
    if found.Some? {
      ScanAfterMatch(re, rules, padded, i, found.value);
      piece, next := found.value.replacement, i + found.value.length;
    } else {
      ScanAfterMiss(re, rules, padded, i);
      piece, next := [padded[i]], i + 1;
    }
  }

  /** The inner loop: try the rules in list order and stop at the first that matches. */
  method FindFirstMatch(re: Engine, rules: seq<Transcription>, raw: string, i: nat) returns (found: Option<TranscriptionMatch>)
    requires i <= |raw|
    ensures found == FirstMatch(re, rules, raw, i)
  {
    found := None;
    var k := 0;
    while k < |rules|
      invariant 0 <= k <= |rules|
      invariant found == None
      invariant FirstMatch(re, rules, raw, i) == FirstMatch(re, rules[k..], raw, i)
    {
      found := rules[k].IsMatch(re, raw, i);
      if found.Some? {
        assert rules[k..][0] == rules[k];
        assert FirstMatch(re, rules[k..], raw, i) == found;
        return;
      }
      assert rules[k..][1..] == rules[k + 1..];
      k := k + 1;
    }
    assert rules[k..] == [];
  }

  /** One step of the scanner where no rule matches: the character is copied and the cursor moves by one. */
  lemma ScanAfterMiss(re: Engine, rules: seq<Transcription>, padded: string, i: nat)
    requires i + 1 < |padded|
    requires FirstMatch(re, rules, padded, i) == None
    ensures ScanFrom(re, rules, padded, i) == [padded[i]] + ScanFrom(re, rules, padded, i + 1)
  {
  }

  /** One step of the scanner where a rule matches: its replacement, then the scan from after the main match. */
  lemma ScanAfterMatch(re: Engine, rules: seq<Transcription>, padded: string, i: nat, m: TranscriptionMatch)
    requires i + 1 < |padded|
    requires FirstMatch(re, rules, padded, i) == Some(m)
    ensures 1 <= m.length && i + m.length <= |padded|
    ensures ScanFrom(re, rules, padded, i) == m.replacement + ScanFrom(re, rules, padded, i + m.length)
  {
  }

  /** No match at the cursor exactly when no rule in the list matches there. */
  lemma {:induction false} NoMatchIffNoRuleMatches(re: Engine, rules: seq<Transcription>, raw: string, i: nat)
    requires i <= |raw|
    ensures FirstMatch(re, rules, raw, i).None? <==> forall k :: 0 <= k < |rules| ==> rules[k].IsMatch(re, raw, i).None?
  {
    if rules != [] {
      NoMatchIffNoRuleMatches(re, rules[1..], raw, i);
      assert forall k :: 1 <= k < |rules| ==> rules[1..][k - 1] == rules[k];
    }
  }

  /** The first rule that matches decides; rules after it are not consulted. */
  lemma {:induction false} FirstMatchingRuleWins(re: Engine, rules: seq<Transcription>, raw: string, i: nat, j: nat)
    requires i <= |raw| && j < |rules|
    requires rules[j].IsMatch(re, raw, i).Some?
    requires forall k :: 0 <= k < j ==> rules[k].IsMatch(re, raw, i).None?
    ensures FirstMatch(re, rules, raw, i) == rules[j].IsMatch(re, raw, i)
  {
    if j > 0 {
      FirstMatchingRuleWins(re, rules[1..], raw, i, j - 1);
    }
  }

  /**
   * Where rule j is the first to match, the scanner emits its replacement and
   * resumes right after its main match, whatever later rules would have done.
   */
  lemma FirstRuleDecidesScan(re: Engine, rules: seq<Transcription>, padded: string, i: nat, j: nat)
    requires i + 1 < |padded| && j < |rules|
    requires rules[j].IsMatch(re, padded, i).Some?
    requires forall k :: 0 <= k < j ==> rules[k].IsMatch(re, padded, i).None?
    ensures var m := rules[j].IsMatch(re, padded, i).value;
      ScanFrom(re, rules, padded, i) == m.replacement + ScanFrom(re, rules, padded, i + m.length)
  {
    FirstMatchingRuleWins(re, rules, padded, i, j);
  }

  /** Where no rule matches, the character at the cursor is copied and the cursor moves by one. */
  lemma UnmatchedCharacterCopied(re: Engine, rules: seq<Transcription>, padded: string, i: nat)
    requires i + 1 < |padded|
    requires forall k :: 0 <= k < |rules| ==> rules[k].IsMatch(re, padded, i).None?
    ensures ScanFrom(re, rules, padded, i) == [padded[i]] + ScanFrom(re, rules, padded, i + 1)
  {
    NoMatchIffNoRuleMatches(re, rules, padded, i);
  }

  lemma {:induction false} ScanFromWithoutRules(re: Engine, padded: string, i: nat)
    requires 1 <= i < |padded|
    ensures ScanFrom(re, [], padded, i) == padded[i..|padded| - 1]
    decreases |padded| - i
  {
    if i + 1 < |padded| {
      ScanFromWithoutRules(re, padded, i + 1);
    }
  }

  /** With no rules the scanner returns its input exactly: neither pad is copied and nothing is trimmed. */
  lemma ScanWithoutRules(re: Engine, text: string)
    ensures Scan(re, [], text) == text
  {
    var padded := " " + text + " ";
    ScanFromWithoutRules(re, padded, 1);
    assert padded[1..|padded| - 1] == text;
  }
}
