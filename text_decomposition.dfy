/**
 * What Language.Decompose computes, as functions over the language's list of
 * decomposition formulas: every character is decomposed on its own, by the
 * formulas whose range holds its codepoint, each fed the results before it.
 */
module TextDecomposition {
  import opened Wrappers
  import opened Decompositions
  import opened Sorting
  import opened Texts

  /** The results the formulas in list order yield for codepoint cp; the first failure stops the list. */
  function ResultsFor(decs: seq<Decomposition>, cp: int): (r: Result<seq<int>>)
    reads decs
    ensures r.Ok? ==> (r.value == [] <==> forall k :: 0 <= k < |decs| ==> !decs[k].Covers(cp))
  {
    if decs == [] then Ok([])
    else
      var d := decs[|decs| - 1];
      match ResultsFor(decs[..|decs| - 1], cp)
      case Err(e) => Err(e)
      case Ok(rs) =>
        if d.Covers(cp) then
          match d.Value(cp, rs)
          case Ok(v) => Ok(rs + [v])
          case Err(e) => Err(e)
        else Ok(rs)
  }

  /** The characters with the given codepoints, in order; the first non-scalar fails. */
  function EncodeAll(vs: seq<int>): (r: Result<string>)
    ensures r.Ok? <==> forall k :: 0 <= k < |vs| ==> IsScalar(vs[k])
    ensures r.Ok? ==> |r.value| == |vs| && forall k :: 0 <= k < |vs| ==> r.value[k] as int == vs[k]
  {
    if vs == [] then Ok([])
    else
      match EncodeAll(vs[..|vs| - 1])
      case Err(e) => Err(e)
      case Ok(s) => Prepend(s, ConvertFromUtf32(vs[|vs| - 1]))
  }

  /** One character: itself when no formula applies, else its results in ascending order. */
  function DecomposeChar(decs: seq<Decomposition>, c: char): Result<string>
    reads decs
  {
    match ResultsFor(decs, c as int)
    case Err(e) => Err(e)
    case Ok(rs) => if rs == [] then Ok([c]) else EncodeAll(SortAscending(rs))
  }

  /** Every character of s in turn; the first failure stops the text. */
  function DecomposeText(decs: seq<Decomposition>, s: string): Result<string>
    reads decs
  {
    if s == [] then Ok([])
    else
      match DecomposeText(decs, s[..|s| - 1])
      case Err(e) => Err(e)
      case Ok(done) => Prepend(done, DecomposeChar(decs, s[|s| - 1]))
  }

  /** Language.Decompose: the input itself when the language has no formulas. */
  function Decomposed(decs: seq<Decomposition>, s: string): Result<string>
    reads decs
  {
    if decs == [] then Ok(s) else DecomposeText(decs, s)
  }

  /** The codepoints of a text. */
  function Codes(s: string): seq<int>
  {
    seq(|s|, k requires 0 <= k < |s| => s[k] as int)
  }

  /** A failure among the first formulas is the failure of the whole list. */
  lemma {:induction false} ResultsFailureDecides(decs: seq<Decomposition>, cp: int, n: nat)
    requires n <= |decs| && ResultsFor(decs[..n], cp).Err?
    ensures ResultsFor(decs, cp) == ResultsFor(decs[..n], cp)
    decreases |decs|
  {
    if n < |decs| {
      assert decs[..|decs| - 1][..n] == decs[..n];
      ResultsFailureDecides(decs[..|decs| - 1], cp, n);
    } else {
      assert decs[..n] == decs;
    }
  }

  /** A failure on an earlier codepoint is the failure of the whole encoding. */
  lemma {:induction false} EncodeFailureDecides(vs: seq<int>, n: nat)
    requires n <= |vs| && EncodeAll(vs[..n]).Err?
    ensures EncodeAll(vs) == EncodeAll(vs[..n])
    decreases |vs|
  {
    if n < |vs| {
      assert vs[..|vs| - 1][..n] == vs[..n];
      EncodeFailureDecides(vs[..|vs| - 1], n);
    } else {
      assert vs[..n] == vs;
    }
  }

  /** A failure on an earlier character is the failure of the whole text. */
  lemma {:induction false} TextFailureDecides(decs: seq<Decomposition>, s: string, n: nat)
    requires n <= |s| && DecomposeText(decs, s[..n]).Err?
    ensures DecomposeText(decs, s) == DecomposeText(decs, s[..n])
    decreases |s|
  {
    if n < |s| {
      assert s[..|s| - 1][..n] == s[..n];
      TextFailureDecides(decs, s[..|s| - 1], n);
    } else {
      assert s[..n] == s;
    }
  }

  /**
   * Characters are decomposed independently: the results list starts empty
   * for every character, so decomposing s + t is decomposing s, then t.
   */
  lemma DecomposeConcatenation(decs: seq<Decomposition>, s: string, t: string)
    ensures DecomposeText(decs, s + t) ==
      match DecomposeText(decs, s)
      case Err(e) => Err(e)
      case Ok(x) => Prepend(x, DecomposeText(decs, t))
  {
    match DecomposeText(decs, s)
    case Err(_) =>
      assert (s + t)[..|s|] == s;
      TextFailureDecides(decs, s + t, |s|);
    case Ok(x) =>
      ConcatenationAfterSuccess(decs, s, x, t);
  }

  lemma {:induction false} ConcatenationAfterSuccess(decs: seq<Decomposition>, s: string, x: string, t: string)
    requires DecomposeText(decs, s) == Ok(x)
    ensures DecomposeText(decs, s + t) == Prepend(x, DecomposeText(decs, t))
    decreases |t|
  {
    if t == [] {
      assert s + t == s;
      assert x + [] == x;
    } else {
      var t', c := t[..|t| - 1], t[|t| - 1];
      SplitLast(s, t);
      ConcatenationAfterSuccess(decs, s, x, t');
      if DecomposeText(decs, t').Ok? {
        PrependTwice(x, DecomposeText(decs, t').value, DecomposeChar(decs, c));
      }
    }
  }

  lemma PrependTwice(x: string, y: string, r: Result<string>)
    ensures Prepend(x + y, r) == Prepend(x, Prepend(y, r))
  {
    if r.Ok? {
      assert (x + y) + r.value == x + (y + r.value);
    }
  }

  lemma SplitLast(s: string, t: string)
    requires t != []
    ensures (s + t)[..|s + t| - 1] == s + t[..|t| - 1]
    ensures (s + t)[|s + t| - 1] == t[|t| - 1]
  {
  }

  /** A single character decomposes as DecomposeChar says. */
  lemma SingleCharacter(decs: seq<Decomposition>, c: char)
    ensures DecomposeText(decs, [c]) == DecomposeChar(decs, c)
  {
    assert [c][..0] == [];
    match DecomposeChar(decs, c)
    case Err(_) =>
    case Ok(x) => assert [] + x == x;
  }

  /** A character no formula covers is emitted unchanged, and only such a character is emitted with no results. */
  lemma UncoveredCharacterUnchanged(decs: seq<Decomposition>, c: char)
    ensures (forall k :: 0 <= k < |decs| ==> !decs[k].Covers(c as int)) <==> ResultsFor(decs, c as int) == Ok([])
    ensures (forall k :: 0 <= k < |decs| ==> !decs[k].Covers(c as int)) ==> DecomposeChar(decs, c) == Ok([c])
  {
    if forall k :: 0 <= k < |decs| ==> !decs[k].Covers(c as int) {
      NothingCoveredNoResults(decs, c as int);
    }
  }

  lemma {:induction false} NothingCoveredNoResults(decs: seq<Decomposition>, cp: int)
    requires forall k :: 0 <= k < |decs| ==> !decs[k].Covers(cp)
    ensures ResultsFor(decs, cp) == Ok([])
  {
    if decs != [] {
      NothingCoveredNoResults(decs[..|decs| - 1], cp);
    }
  }

  /**
   * A character some formula covers is replaced by one character per result,
   * in ascending codepoint order: a sorted permutation of the results.
   */
  lemma AppliedResultsAscending(decs: seq<Decomposition>, c: char, rs: seq<int>)
    requires ResultsFor(decs, c as int) == Ok(rs) && rs != []
    requires forall k :: 0 <= k < |rs| ==> IsScalar(rs[k])
    ensures DecomposeChar(decs, c).Ok?
    ensures var out := Codes(DecomposeChar(decs, c).value);
      Ascending(out) && multiset(out) == multiset(rs)
  {
    var sorted := SortAscending(rs);
    forall k | 0 <= k < |sorted|
      ensures IsScalar(sorted[k])
    {
      assert sorted[k] in multiset(rs);
    }
    var out := Codes(DecomposeChar(decs, c).value);
    assert out == sorted;
  }

  /** Two formulas that agree in everything but order. */
  predicate SameFormula(a: Decomposition, b: Decomposition)
    reads a, b
  {
    a.offset == b.offset && a.modulus == b.modulus && a.divisor == b.divisor && a.intercept == b.intercept
    && a.rangeMin == b.rangeMin && a.rangeMax == b.rangeMax && a.prevFactors == b.prevFactors
  }

  predicate SameFormulas(ds: seq<Decomposition>, es: seq<Decomposition>)
    reads ds, es
  {
    |ds| == |es| && forall k :: 0 <= k < |ds| ==> SameFormula(ds[k], es[k])
  }

  lemma {:induction false} OrderUnusedForResults(ds: seq<Decomposition>, es: seq<Decomposition>, cp: int)
    requires SameFormulas(ds, es)
    ensures ResultsFor(ds, cp) == ResultsFor(es, cp)
  {
    if ds != [] {
      OrderUnusedForResults(ds[..|ds| - 1], es[..|es| - 1], cp);
      var d, e := ds[|ds| - 1], es[|es| - 1];
      match ResultsFor(ds[..|ds| - 1], cp)
      case Err(_) =>
      case Ok(rs) =>
        assert d.WeightedSum(rs, |rs|) == e.WeightedSum(rs, |rs|) by {
          SameFactorsSameSum(d, e, rs, |rs|);
        }
    }
  }

  lemma {:induction false} SameFactorsSameSum(d: Decomposition, e: Decomposition, rs: seq<int>, n: nat)
    requires n <= |rs| && d.prevFactors == e.prevFactors
    ensures d.WeightedSum(rs, n) == e.WeightedSum(rs, n)
  {
    if n > 0 {
      SameFactorsSameSum(d, e, rs, n - 1);
    }
  }

  /**
   * Order plays no part in decomposition: formulas listed in the same
   * sequence that differ only in their order decompose every text alike.
   */
  lemma {:induction false} OrderUnusedInDecomposition(ds: seq<Decomposition>, es: seq<Decomposition>, s: string)
    requires SameFormulas(ds, es)
    ensures Decomposed(ds, s) == Decomposed(es, s)
  {
    if ds != [] {
      OrderUnusedForText(ds, es, s);
    }
  }

  lemma {:induction false} OrderUnusedForText(ds: seq<Decomposition>, es: seq<Decomposition>, s: string)
    requires SameFormulas(ds, es)
    ensures DecomposeText(ds, s) == DecomposeText(es, s)
  {
    if s != [] {
      OrderUnusedForText(ds, es, s[..|s| - 1]);
      OrderUnusedForResults(ds, es, s[|s| - 1] as int);
    }
  }
}
