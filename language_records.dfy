/**
 * The rule data of one language as it comes out of the XML document, already
 * parsed: every attribute is a string ("" when absent) or an integer. The
 * builders turn one record into the rule object the loader appends.
 */
module LanguageRecords {
  import opened Wrappers
  import opened Patterns
  import opened TranscriptionExceptions
  import opened Transcriptions
  import opened Decompositions
  import opened Romanizations

  datatype ExceptionRecord = ExceptionRecord(original: string, replacement: string, prefix: string, suffix: string)

  datatype RuleRecord = RuleRecord(original: string, replacement: string, prefix: string, suffix: string,
                                   exceptions: seq<ExceptionRecord>)

  datatype ProfileRecord = ProfileRecord(name: string, rules: seq<RuleRecord>)

  datatype FactorRecord = FactorRecord(index: int, multiplyBy: int)

  datatype DecompositionRecord = DecompositionRecord(offset: int, modulus: int, divisor: int, intercept: int,
                                                     order: int, rangeMin: int, rangeMax: int,
                                                     prevFactors: seq<FactorRecord>)

  datatype LanguageRecord = LanguageRecord(transcriptions: seq<RuleRecord>, romanizations: seq<ProfileRecord>,
                                           decompositions: seq<DecompositionRecord>)

  /** The exceptions a rule record yields, in record order. */
  function ExceptionsOf(recs: seq<ExceptionRecord>): seq<TranscriptionException>
  {
    if recs == [] then []
    else
      var e := recs[|recs| - 1];
      ExceptionsOf(recs[..|recs| - 1]) + [NewException(e.original, e.replacement, e.prefix, e.suffix)]
  }

  /** Transcription t is what the four-argument constructor and AddException make of rec. */
  predicate RuleModels(t: Transcription, rec: RuleRecord)
    reads t
  {
    t.original == rec.original && t.replacement == rec.replacement
    && t.prefix == Optional(rec.prefix) && t.suffix == Optional(rec.suffix)
    && t.exceptions == ExceptionsOf(rec.exceptions)
  }

  /** Each rule object models the record at the same position. */
  predicate RulesModel(ts: seq<Transcription>, recs: seq<RuleRecord>)
    reads ts
  {
    |ts| == |recs| && forall k :: 0 <= k < |ts| ==> RuleModels(ts[k], recs[k])
  }

  /** The factor map PrevFactors.Add builds when every index is new: later entries go on top. */
  function FactorMap(fs: seq<FactorRecord>): map<int, int>
  {
    if fs == [] then map[]
    else FactorMap(fs[..|fs| - 1])[fs[|fs| - 1].index := fs[|fs| - 1].multiplyBy]
  }

  /** The first index, in record order, that repeats an earlier one: where Dictionary.Add throws. */
  function FirstDuplicate(fs: seq<FactorRecord>): Option<int>
  {
    if fs == [] then None
    else
      match FirstDuplicate(fs[..|fs| - 1])
      case Some(i) => Some(i)
      case None => if fs[|fs| - 1].index in FactorMap(fs[..|fs| - 1]) then Some(fs[|fs| - 1].index) else None
  }

  predicate DistinctIndices(fs: seq<FactorRecord>)
  {
    forall i, j :: 0 <= i < j < |fs| ==> fs[i].index != fs[j].index
  }

  /** The keys of the factor map are exactly the indices in the records. */
  lemma {:induction false} FactorMapKeys(fs: seq<FactorRecord>)
    ensures forall x :: x in FactorMap(fs) <==> exists k :: 0 <= k < |fs| && fs[k].index == x
  {
    if fs != [] {
      var init := fs[..|fs| - 1];
      FactorMapKeys(init);
      forall x | x in FactorMap(fs)
        ensures exists k :: 0 <= k < |fs| && fs[k].index == x
      {
        if x != fs[|fs| - 1].index {
          assert x in FactorMap(init);
          var k :| 0 <= k < |init| && init[k].index == x;
          assert fs[k].index == x;
        }
      }
      forall x | exists k :: 0 <= k < |fs| && fs[k].index == x
        ensures x in FactorMap(fs)
      {
        var k :| 0 <= k < |fs| && fs[k].index == x;
        if k < |init| {
          assert init[k].index == x;
        }
      }
    }
  }

  /** Dictionary.Add throws for some factor exactly when two factors share an index. */
  lemma {:induction false} NoDuplicateIffDistinct(fs: seq<FactorRecord>)
    ensures FirstDuplicate(fs).None? <==> DistinctIndices(fs)
  {
    if fs != [] {
      var init := fs[..|fs| - 1];
      var last := fs[|fs| - 1];
      NoDuplicateIffDistinct(init);
      FactorMapKeys(init);
      if DistinctIndices(fs) {
        assert DistinctIndices(init) by {
          forall i, j | 0 <= i < j < |init|
            ensures init[i].index != init[j].index
          {
            assert fs[i] == init[i] && fs[j] == init[j];
          }
        }
        if last.index in FactorMap(init) {
          assert false;
        }
      }
      if FirstDuplicate(fs).None? {
        forall i, j | 0 <= i < j < |fs|
          ensures fs[i].index != fs[j].index
        {
          if j < |fs| - 1 {
            assert fs[i] == init[i] && fs[j] == init[j];
          } else {
            assert fs[i] == init[i];
          }
        }
      }
    }
  }

  /** With distinct indices, every factor is stored under its own index. */
  lemma {:induction false} FactorMapStoresEachFactor(fs: seq<FactorRecord>)
    requires DistinctIndices(fs)
    ensures forall k :: 0 <= k < |fs| ==> fs[k].index in FactorMap(fs) && FactorMap(fs)[fs[k].index] == fs[k].multiplyBy
  {
    if fs != [] {
      var init := fs[..|fs| - 1];
      assert DistinctIndices(init) by {
        forall i, j | 0 <= i < j < |init|
          ensures init[i].index != init[j].index
        {
          assert fs[i] == init[i] && fs[j] == init[j];
        }
      }
      FactorMapStoresEachFactor(init);
      forall k | 0 <= k < |fs| - 1
        ensures fs[k].index in FactorMap(fs) && FactorMap(fs)[fs[k].index] == fs[k].multiplyBy
      {
        assert fs[k] == init[k];
      }
    }
  }

  /** Once a prefix of the factors holds a duplicate, the whole list fails at that same index. */
  lemma {:induction false} DuplicateInPrefixDecides(fs: seq<FactorRecord>, n: nat)
    requires n <= |fs| && FirstDuplicate(fs[..n]).Some?
    ensures FirstDuplicate(fs) == FirstDuplicate(fs[..n])
    decreases |fs|
  {
    if n < |fs| {
      var init := fs[..|fs| - 1];
      assert init[..n] == fs[..n];
      DuplicateInPrefixDecides(init, n);
    } else {
      assert fs[..n] == fs;
    }
  }

  /** Decomposition d is what the constructor and PrevFactors.Add make of rec. */
  predicate DecompositionModels(d: Decomposition, rec: DecompositionRecord)
    reads d
  {
    d.offset == rec.offset && d.modulus == rec.modulus && d.divisor == rec.divisor
    && d.intercept == rec.intercept && d.order == rec.order
    && d.rangeMin == rec.rangeMin && d.rangeMax == rec.rangeMax
    && d.prevFactors == FactorMap(rec.prevFactors)
  }

  /** The number of leading decomposition records the loader gets through before one throws. */
  function LoadableCount(recs: seq<DecompositionRecord>): (n: nat)
    ensures n <= |recs|
    ensures forall j :: 0 <= j < n ==> FirstDuplicate(recs[j].prevFactors).None?
    ensures n < |recs| ==> FirstDuplicate(recs[n].prevFactors).Some?
  {
    if recs == [] || FirstDuplicate(recs[0].prevFactors).Some? then 0
    else 1 + LoadableCount(recs[1..])
  }

  /** The loader stops exactly at the first decomposition record holding a duplicate index. */
  lemma {:induction false} LoadableCountExact(recs: seq<DecompositionRecord>, k: nat)
    requires k <= |recs|
    requires forall j :: 0 <= j < k ==> FirstDuplicate(recs[j].prevFactors).None?
    requires k == |recs| || FirstDuplicate(recs[k].prevFactors).Some?
    ensures LoadableCount(recs) == k
  {
    if k > 0 {
      LoadableCountExact(recs[1..], k - 1);
    }
  }

  /** One transcription or transliteration element: the rule, then its exceptions in document order. */
  method NewRule(rec: RuleRecord) returns (t: Transcription)
    ensures fresh(t) && RuleModels(t, rec)
  {
    t := new Transcription(rec.original, rec.replacement, rec.prefix, rec.suffix);
    for k := 0 to |rec.exceptions|
      invariant t.exceptions == ExceptionsOf(rec.exceptions[..k])
    {
      var e := rec.exceptions[k];
      assert rec.exceptions[..k + 1][..k] == rec.exceptions[..k];
      t.AddException(e.original, e.replacement, e.prefix, e.suffix);
    }
    assert rec.exceptions[..|rec.exceptions|] == rec.exceptions;
  }

  /** One romanization element: the profile, then its transliterations in document order. */
  method NewProfile(rec: ProfileRecord) returns (r: Romanization)
    ensures fresh(r) && r.name == rec.name && RulesModel(r.transliterations, rec.rules)
  {
    r := new Romanization(rec.name);
    for k := 0 to |rec.rules|
      invariant |r.transliterations| == k
      invariant forall j :: 0 <= j < k ==> RuleModels(r.transliterations[j], rec.rules[j])
    {
      var t := NewRule(rec.rules[k]);
      r.AddTransliteration(t);
    }
  }

  /**
   * One decomposition element: the formula, then its factors in document
   * order; a repeated index makes PrevFactors.Add throw.
   */
  method NewDecomposition(rec: DecompositionRecord) returns (d: Decomposition, r: Result<()>)
    ensures fresh(d)
    ensures r.Ok? <==> FirstDuplicate(rec.prevFactors).None?
    ensures r.Err? ==> r.error == DuplicateKey(FirstDuplicate(rec.prevFactors).value)
    ensures r.Ok? ==> DecompositionModels(d, rec)
  {
    d := new Decomposition(rec.offset, rec.modulus, rec.divisor, rec.intercept, rec.order, rec.rangeMin, rec.rangeMax);
    var k := 0;
    while k < |rec.prevFactors|
      invariant 0 <= k <= |rec.prevFactors|
      invariant FirstDuplicate(rec.prevFactors[..k]).None?
      invariant d.prevFactors == FactorMap(rec.prevFactors[..k])
    {
      var f := rec.prevFactors[k];
      assert rec.prevFactors[..k + 1][..k] == rec.prevFactors[..k];
      r := d.AddPrevFactor(f.index, f.multiplyBy);
      if r.Err? {
        DuplicateInPrefixDecides(rec.prevFactors, k + 1);
        return;
      }
      k := k + 1;
    }
    assert rec.prevFactors[..k] == rec.prevFactors;
    r := Ok(());
  }
}
