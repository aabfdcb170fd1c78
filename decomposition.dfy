/**
 * One character-decomposition formula:
 *   ((cp + SUMPRODUCT(previous * prevFactors) + offset) % modulus) / divisor + intercept
 * where the modulo step is skipped when the modulus is 1, and `/` and `%`
 * are C#'s truncating integer operators.
 */
module Decompositions {
  import opened Wrappers

  function Abs(x: int): nat
  {
    if x < 0 then -x else x
  }

  function Sign(x: int): int
  {
    if x < 0 then -1 else if x > 0 then 1 else 0
  }

  lemma {:induction false} AtLeastOneMultiple(d: int, k: int)
    requires 0 < d && 1 <= k
    ensures d * k >= d
    decreases k
  {
    if k > 1 {
      AtLeastOneMultiple(d, k - 1);
      assert d * k == d * (k - 1) + d;
    }
  }

  /** Division with remainder by a positive divisor has one answer, Dafny's `/` and `%`. */
  lemma EuclideanUnique(n: int, d: int, q: int, r: int)
    requires 0 < d && n == d * q + r && 0 <= r < d
    ensures q == n / d && r == n % d
  {
    var q0, r0 := n / d, n % d;
    assert n == d * q0 + r0;
    if q > q0 {
      AtLeastOneMultiple(d, q - q0);
    } else if q < q0 {
      AtLeastOneMultiple(d, q0 - q);
    }
  }

  /** The quotient of two magnitudes is a magnitude. */
  lemma NonNegativeQuotient(n: int, d: int)
    requires 0 <= n && 0 < d
    ensures n / d >= 0
  {
  }

  /**
   * C#'s integer `/`: the quotient of the magnitudes, negated when the signs
   * differ, so it rounds toward zero. It agrees with Dafny's Euclidean quotient
   * for a non-negative dividend.
   */
  function TDiv(a: int, b: int): (q: int)
    requires b != 0
    ensures a >= 0 ==> q == a / b
    ensures Abs(q) == Abs(a) / Abs(b)
    ensures q == 0 || (q < 0 <==> (a < 0) != (b < 0))
  {
    var m := Abs(a) / Abs(b);
    NonNegativeQuotient(Abs(a), Abs(b));
    if a >= 0 && b < 0 then
      EuclideanUnique(a, -b, -(a / b), a % b);
      -m
    else if (a < 0) != (b < 0) then -m
    else m
  }

  /** The divisor times the truncated quotient: the dividend's sign on the product of the magnitudes. */
  lemma TruncatedProduct(a: int, b: int)
    requires b != 0
    ensures b * TDiv(a, b) == if a < 0 then -(Abs(b) * (Abs(a) / Abs(b))) else Abs(b) * (Abs(a) / Abs(b))
  {
    var m := Abs(a) / Abs(b);
    if a >= 0 && b < 0 {
      assert b * -m == -b * m;
    } else if a < 0 && b > 0 {
      assert b * -m == -(b * m);
    } else if a < 0 && b < 0 {
      assert b * m == -(-b * m);
    }
  }

  /**
   * C#'s integer `%`, defined as `a - (a / b) * b`. The remainder is smaller
   * than the divisor and signed like the dividend, which with the
   * recomposition of the dividend determines both results uniquely.
   */
  function TMod(a: int, b: int): (r: int)
    requires b != 0
    ensures a == b * TDiv(a, b) + r
    ensures Abs(r) < Abs(b)
    ensures r == 0 || (r < 0 <==> a < 0)
  {
    TruncatedProduct(a, b);
    a - b * TDiv(a, b)
  }

  class Decomposition {
    const offset: int
    const modulus: int
    const divisor: int
    const intercept: int
    /** Read from the rule data and used by CompareTo, but never by decomposition. */
    const order: int
    const rangeMin: int
    const rangeMax: int
    /** Multiplier of each earlier result of the same character, keyed by that result's index. */
    var prevFactors: map<int, int>

    constructor (offset: int, modulus: int, divisor: int, intercept: int, order: int, rangeMin: int, rangeMax: int)
      ensures this.offset == offset && this.modulus == modulus && this.divisor == divisor
      ensures this.intercept == intercept && this.order == order
      ensures this.rangeMin == rangeMin && this.rangeMax == rangeMax
      ensures prevFactors == map[]
    {
      this.offset := offset;
      this.modulus := modulus;
      this.divisor := divisor;
      this.intercept := intercept;
      this.order := order;
      this.rangeMin := rangeMin;
      this.rangeMax := rangeMax;
      prevFactors := map[];
    }

    /** PrevFactors.Add: a second factor for an index already present throws. */
    method AddPrevFactor(index: int, multiplyBy: int) returns (r: Result<()>)
      modifies this`prevFactors
      ensures index in old(prevFactors) ==> r == Err(DuplicateKey(index)) && prevFactors == old(prevFactors)
      ensures index !in old(prevFactors) ==> r == Ok(()) && prevFactors == old(prevFactors)[index := multiplyBy]
    {
      if index in prevFactors {
        return Err(DuplicateKey(index));
      }
      prevFactors := prevFactors[index := multiplyBy];
      return Ok(());
    }

    /** Whether the formula applies to a codepoint. */
    predicate Covers(cp: int)
    {
      rangeMin <= cp <= rangeMax
    }

    /** The sum of previous[i] * prevFactors[i] over the indices i < n that have a factor. */
    function WeightedSum(previous: seq<int>, n: nat): int
      reads this
      requires n <= |previous|
    {
      if n == 0 then 0
      else WeightedSum(previous, n - 1) + (if n - 1 in prevFactors then previous[n - 1] * prevFactors[n - 1] else 0)
    }

    /** The modulo, division and intercept steps, applied to the accumulated value. */
    function Reduce(x: int): Result<int>
    {
      if modulus == 1 then
        if divisor == 0 then Err(DivideByZero) else Ok(TDiv(x, divisor) + intercept)
      else if modulus == 0 || divisor == 0 then Err(DivideByZero)
      else Ok(TDiv(TMod(x, modulus), divisor) + intercept)
    }

    /** What Decompose yields for codepoint cp, given the results computed before it. */
    function Value(cp: int, previous: seq<int>): Result<int>
      reads this
    {
      if Covers(cp) then Reduce(cp + WeightedSum(previous, |previous|) + offset) else Ok(cp)
    }

    /** Decomposes one character; changes neither `previous` nor any field. */
    method Decompose(input: char, previous: seq<int>) returns (r: Result<int>)
      ensures r == Value(input as int, previous)
    {
      var codepoint := input as int;
      if rangeMin <= codepoint && codepoint <= rangeMax {
        var previousLength := |previous|;
        for i := 0 to previousLength
          invariant codepoint == input as int + WeightedSum(previous, i)
        {
          if i in prevFactors {
            codepoint := codepoint + previous[i] * prevFactors[i];
          }
        }
        codepoint := codepoint + offset;
        if modulus != 1 && modulus == 0 {
          return Err(DivideByZero);
        }
        var reduced := if modulus == 1 then codepoint else TMod(codepoint, modulus);
        if divisor == 0 {
          return Err(DivideByZero);
        }
        return Ok(TDiv(reduced, divisor) + intercept);
      }
      return Ok(codepoint);
    }

    /** Int32.CompareTo of the other rule's order with this one's: rules sort by descending order. */
    function CompareTo(other: Decomposition): (c: int)
      ensures c == Sign(order - other.order) * -1
    {
      if other.order < order then -1 else if other.order > order then 1 else 0
    }
  }

  /** The formula of a codepoint outside the range is the identity. */
  lemma OutsideRangeUnchanged(d: Decomposition, cp: int, previous: seq<int>)
    requires !d.Covers(cp)
    ensures d.Value(cp, previous) == Ok(cp)
  {
  }

  /** Only earlier results whose index has a factor contribute to the weighted sum. */
  lemma {:induction false} OnlyFactoredResultsCount(d: Decomposition, p: seq<int>, q: seq<int>, n: nat)
    requires n <= |p| && n <= |q|
    requires forall i :: 0 <= i < n && i in d.prevFactors ==> p[i] == q[i]
    ensures d.WeightedSum(p, n) == d.WeightedSum(q, n)
  {
    if n > 0 {
      OnlyFactoredResultsCount(d, p, q, n - 1);
    }
  }

  /** Two lists of earlier results that agree on the factored indices give the same value. */
  lemma SameFactoredResultsSameValue(d: Decomposition, cp: int, p: seq<int>, q: seq<int>)
    requires |p| == |q|
    requires forall i :: 0 <= i < |p| && i in d.prevFactors ==> p[i] == q[i]
    ensures d.Value(cp, p) == d.Value(cp, q)
  {
    OnlyFactoredResultsCount(d, p, q, |p|);
  }

  /** Earlier results with no factor, and factors for indices not yet computed, are ignored. */
  lemma {:induction false} UnfactoredResultsIgnored(d: Decomposition, cp: int, previous: seq<int>)
    requires forall i :: 0 <= i < |previous| ==> i !in d.prevFactors
    ensures d.Value(cp, previous) == d.Value(cp, [])
  {
    var zeros := seq(|previous|, i => 0);
    OnlyFactoredResultsCount(d, previous, zeros, |previous|);
    ZeroResultsSumToZero(d, zeros, |previous|);
  }

  lemma {:induction false} ZeroResultsSumToZero(d: Decomposition, zeros: seq<int>, n: nat)
    requires n <= |zeros|
    requires forall i :: 0 <= i < |zeros| ==> zeros[i] == 0
    ensures d.WeightedSum(zeros, n) == 0
  {
    if n > 0 {
      ZeroResultsSumToZero(d, zeros, n - 1);
    }
  }

  /** With no earlier results: ((cp + offset) % modulus) / divisor + intercept, modulo skipped for modulus 1. */
  lemma FirstResultFormula(d: Decomposition, cp: int)
    requires d.Covers(cp) && d.modulus != 0 && d.divisor != 0
    ensures d.modulus != 1 ==> d.Value(cp, []) == Ok(TDiv(TMod(cp + d.offset, d.modulus), d.divisor) + d.intercept)
    ensures d.modulus == 1 ==> d.Value(cp, []) == Ok(TDiv(cp + d.offset, d.divisor) + d.intercept)
  {
  }

  /** A modulus of 1 switches the modulo step off rather than reducing everything to 0. */
  lemma ModulusOneSkipsModulo(d: Decomposition, cp: int, previous: seq<int>)
    requires d.Covers(cp) && d.modulus == 1 && d.divisor != 0
    ensures d.Value(cp, previous) == Ok(TDiv(cp + d.WeightedSum(previous, |previous|) + d.offset, d.divisor) + d.intercept)
    ensures cp + d.WeightedSum(previous, |previous|) + d.offset >= Abs(d.divisor) ==> d.Value(cp, previous) != Ok(TDiv(0, d.divisor) + d.intercept)
  {
    var x := cp + d.WeightedSum(previous, |previous|) + d.offset;
    if x >= Abs(d.divisor) {
      assert Abs(TDiv(x, d.divisor)) == Abs(x) / Abs(d.divisor) >= 1;
    }
  }

  /** A zero modulus (other than the skipped case) or a zero divisor raises DivideByZeroException. */
  lemma ZeroDivisorFails(d: Decomposition, cp: int, previous: seq<int>)
    requires d.Covers(cp) && (d.divisor == 0 || d.modulus == 0)
    ensures d.Value(cp, previous) == Err(DivideByZero)
  {
  }

  /** CompareTo orders by descending order and is antisymmetric. */
  lemma CompareToDescending(a: Decomposition, b: Decomposition)
    ensures a.CompareTo(b) < 0 <==> a.order > b.order
    ensures a.CompareTo(b) == 0 <==> a.order == b.order
    ensures a.CompareTo(b) == -b.CompareTo(a)
  {
  }
}
