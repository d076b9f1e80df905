/**
 * `MultivariatePolynomialFunction<NUM_INPUTS, NUM_OUTPUTS>`: a quadratic
 * map over GF(2) kept as an explicit list of monomials (each a bit vector
 * with the bits of its variables set) and one contribution vector per
 * monomial.  The object owns both lists; `xorContributions` and `^=`
 * change the contributions in place.
 *
 * Evaluation as written selects monomial k when `(monomial_k & input) ==
 * input`, i.e. when the input's set bits lie inside the monomial.  A
 * polynomial is 1 on a monomial exactly when the monomial's variables lie
 * inside the input's set bits (the commented-out test beside it).
 * `EvalAsWritten` and `Evaluate` model the code; `Eval` and
 * `EvaluateCorrected` the intended test, which agrees with
 * `MultiQuad.Eval` on the standard monomial list.
 */
module PolynomialFunctions {
  import opened GF2
  import opened Matrices
  import opened QuadLayout

  // ---------------------------------------------------------------------
  // Counts

  /** `maxMonomialCount` = n + n(n − 1)/2: one monomial per pair i ≤ j. */
  function MaxMonomialCount(n: nat): (k: nat)
    ensures k == NumMonomials(n)
  {
    NumMonomialsClosedForm(n);
    assert n * (n + 1) == n * (n - 1) + 2 * n;
    n + n * (n - 1) / 2
  }

  /** `maxQuadraticCount` = n(n − 1)/2: the monomials x_i·x_j with i < j. */
  function MaxQuadraticCount(n: nat): (k: nat)
    ensures k + n == NumMonomials(n)
  {
    NumMonomialsClosedForm(n);
    assert n * (n + 1) == n * (n - 1) + 2 * n;
    n * (n - 1) / 2
  }

  // ---------------------------------------------------------------------
  // The standard monomial list

  /** `BitVector v; v.set(i).set(j)`: exactly bits i and j set. */
  function PairVector(n: nat, i: nat, j: nat): (v: seq<bool>)
    requires i <= j < n
    ensures |v| == n && forall t | 0 <= t < n :: v[t] == (t == i || t == j)
  {
    Zeros(n)[i := true][j := true]
  }

  /** The monomials x_i·x_j for j = i … n − 1. */
  function PairBlock(n: nat, i: nat): (b: seq<seq<bool>>)
    requires i < n
    ensures |b| == n - i && forall t | 0 <= t < n - i :: b[t] == PairVector(n, i, i + t)
    ensures IsMatrix(b, n)
  {
    seq(n - i, t requires 0 <= t < n - i => PairVector(n, i, i + t))
  }

  /** The blocks 0 … i − 1 in order: what `getMonomials` has written before row i. */
  function PairsBefore(n: nat, i: nat): (r: seq<seq<bool>>)
    requires i <= n
    ensures |r| == RowStart(n, i) && IsMatrix(r, n)
  {
    if i == 0 then [] else PairsBefore(n, i - 1) + PairBlock(n, i - 1)
  }

  /** The whole list: every pair i ≤ j in lexicographic order. */
  function StandardMonomials(n: nat): (r: seq<seq<bool>>)
    ensures |r| == MaxMonomialCount(n) && IsMatrix(r, n)
  {
    RowStartClosedForm(n, n);
    PairsBefore(n, n)
  }

  lemma {:induction false} PairsBeforeAt(n: nat, i: nat, k: nat, t: nat)
    requires k < i <= n && t < n - k
    ensures RowStart(n, k) + t < RowStart(n, i)
    ensures PairsBefore(n, i)[RowStart(n, k) + t] == PairVector(n, k, k + t)
  {
    if k < i - 1 {
      PairsBeforeAt(n, i - 1, k, t);
      RowStartBelow(n, k + 1, i - 1);
    }
  }

  /** Entry GetIndex(i, j) of the list is the monomial x_i·x_j, in the layout of `QuadLayout`. */
  lemma StandardMonomialAt(n: nat, i: nat, j: nat)
    requires i <= j < n
    ensures GetIndex(n, i, j) < |StandardMonomials(n)|
    ensures StandardMonomials(n)[GetIndex(n, i, j)] == PairVector(n, i, j)
  {
    PairsBeforeAt(n, n, i, j - i);
  }

  /**
   * `getMonomials()`: nested loops over i ≤ j writing `v.set(i).set(j)` at
   * a running index into a vector of maxMonomialCount entries.
   */
  method GetMonomials(n: nat) returns (monomials: seq<seq<bool>>)
    ensures monomials == StandardMonomials(n)
  {
    RowStartClosedForm(n, n);
    var a := new seq<bool>[MaxMonomialCount(n)](_ => Zeros(n));
    var index := 0;
    var i := 0;
    while i < n
      invariant i <= n && index == RowStart(n, i) <= a.Length && a[..index] == PairsBefore(n, i)
    {
      CounterLayout(n, i);
      RowStartBelow(n, i + 1, n);
      index := WriteBlock(a, n, i, index);
      i := i + 1;
    }
    assert a[..] == a[..index];
    monomials := a[..];
  }

  /** The inner loop of `getMonomials`: writes block i from `start` on and returns the next index. */
  method WriteBlock(a: array<seq<bool>>, n: nat, i: nat, start: nat) returns (index: nat)
    requires i < n && start + (n - i) <= a.Length
    modifies a
    ensures index == start + (n - i)
    ensures a[..index] == old(a[..start]) + PairBlock(n, i)
  {
    index := start;
    var j := i;
    while j < n
      invariant i <= j <= n && index == start + (j - i)
      invariant a[..index] == old(a[..start]) + PairBlock(n, i)[..j - i]
    {
      var v := Zeros(n);
      v := v[i := true];
      v := v[j := true];
      assert PairBlock(n, i)[..j - i + 1] == PairBlock(n, i)[..j - i] + [v];
      a[index] := v;
      assert a[..index + 1] == a[..index] + [v];
      index := index + 1;
      j := j + 1;
    }
    assert PairBlock(n, i)[..n - i] == PairBlock(n, i);
  }

  // ---------------------------------------------------------------------
  // Evaluation

  /** As written: monomial k is selected when `(monomial_k & input) == input`. */
  function AsWrittenSelector(ms: Mat, x: seq<bool>): (s: seq<bool>)
    requires IsMatrix(ms, |x|)
    ensures |s| == |ms| && forall k | 0 <= k < |ms| :: s[k] == (And(ms[k], x) == x)
  {
    seq(|ms|, k requires 0 <= k < |ms| => And(ms[k], x) == x)
  }

  /** Intended: monomial k is selected when `(monomial_k & input) == monomial_k`. */
  function Selector(ms: Mat, x: seq<bool>): (s: seq<bool>)
    requires IsMatrix(ms, |x|)
    ensures |s| == |ms| && forall k | 0 <= k < |ms| :: s[k] == (And(ms[k], x) == ms[k])
  {
    seq(|ms|, k requires 0 <= k < |ms| => And(ms[k], x) == ms[k])
  }

  function EvalAsWritten(ms: Mat, cs: Mat, x: seq<bool>, w: nat): (y: seq<bool>)
    requires IsMatrix(ms, |x|) && |cs| == |ms| && IsMatrix(cs, w)
    ensures |y| == w
  {
    LinComb(cs, AsWrittenSelector(ms, x), w)
  }

  function Eval(ms: Mat, cs: Mat, x: seq<bool>, w: nat): (y: seq<bool>)
    requires IsMatrix(ms, |x|) && |cs| == |ms| && IsMatrix(cs, w)
    ensures |y| == w
  {
    LinComb(cs, Selector(ms, x), w)
  }

  /** x_i·x_j is 1 at x exactly when bits i and j of x are set. */
  lemma PairVectorSelected(n: nat, i: nat, j: nat, x: seq<bool>)
    requires i <= j < n && |x| == n
    ensures (And(PairVector(n, i, j), x) == PairVector(n, i, j)) == (x[i] && x[j])
  {
    var v := PairVector(n, i, j);
    if !(x[i] && x[j]) {
      var t := if !x[i] then i else j;
      assert And(v, x)[t] != v[t];
    }
  }

  /** On the standard list the intended selector is the monomial vector of `QuadLayout`. */
  lemma StandardSelector(x: seq<bool>)
    ensures Selector(StandardMonomials(|x|), x) == Monomials(x)
  {
    var n := |x|;
    var ms := StandardMonomials(n);
    forall r | 0 <= r < |ms| ensures Selector(ms, x)[r] == Monomials(x)[r] {
      var i, t := MonomialPosition(n, r);
      PairsBeforeAt(n, n, i, t);
      PairVectorSelected(n, i, i + t, x);
      MonomialsFromAt(x, 0, i, t);
    }
  }

  /** The intended evaluation of the standard list is the quadratic tuple's evaluation. */
  lemma EvalIsQuadraticEval(cs: Mat, x: seq<bool>, w: nat)
    requires |cs| == MaxMonomialCount(|x|) && IsMatrix(cs, w)
    ensures Eval(StandardMonomials(|x|), cs, x, w) == LinComb(cs, Monomials(x), w)
  {
    StandardSelector(x);
  }

  /** As written, the zero input selects every monomial, so the value is the XOR of all contributions. */
  lemma AsWrittenZeroInput(ms: Mat, n: nat)
    requires IsMatrix(ms, n)
    ensures AsWrittenSelector(ms, Zeros(n)) == Ones(|ms|)
  {
    forall k | 0 <= k < |ms| ensures And(ms[k], Zeros(n)) == Zeros(n) {
      ZeroLaws(ms[k]);
    }
  }

  /** A contribution list with only its first row nonzero has that row's value where row 0 is selected. */
  lemma FirstRowOnly(r: seq<bool>, k: nat, s: seq<bool>, w: nat)
    requires |r| == w && k + 1 <= |s|
    ensures LinComb([r] + ZeroMat(k, w), s, w) == if s[0] then r else Zeros(w)
  {
    var cs := [r] + ZeroMat(k, w);
    LinCombSplit(cs, s, 1, k + 1, w);
    assert cs[..k + 1] == cs && cs[1..k + 1] == ZeroMat(k, w);
    LinCombZeroRows(k, s[1..k + 1], w);
    assert cs[..1][..0] == [];
    ZeroLaws(r);
    ZeroLaws(Zeros(w));
  }

  /**
   * With contribution 0 (the monomial x_0) all ones and every other
   * contribution zero, the code returns all ones at the zero input, where
   * every monomial, hence the polynomial, is 0 (for instance with
   * NUM_INPUTS = NUM_OUTPUTS = 1, that is n = w = 64).
   */
  lemma AsWrittenCounterexample(n: nat, w: nat)
    requires 0 < n
    ensures MaxMonomialCount(n) >= 1
    ensures EvalAsWritten(StandardMonomials(n), [Ones(w)] + ZeroMat(MaxMonomialCount(n) - 1, w), Zeros(n), w) == Ones(w)
    ensures Eval(StandardMonomials(n), [Ones(w)] + ZeroMat(MaxMonomialCount(n) - 1, w), Zeros(n), w) == Zeros(w)
  {
    RowStartClosedForm(n, n);
    RowStartBelow(n, 1, n);
    var k := MaxMonomialCount(n) - 1;
    var cs := [Ones(w)] + ZeroMat(k, w);
    AsWrittenZeroInput(StandardMonomials(n), n);
    FirstRowOnly(Ones(w), k, Ones(k + 1), w);
    EvalIsQuadraticEval(cs, Zeros(n), w);
    MonomialsOfZero(n);
    FirstRowOnly(Ones(w), k, Zeros(k + 1), w);
  }

  /** XOR-ing contribution lists XORs the values, whichever selector is used. */
  lemma EvalXor(ms: Mat, a: Mat, b: Mat, x: seq<bool>, w: nat)
    requires IsMatrix(ms, |x|) && |a| == |ms| == |b| && IsMatrix(a, w) && IsMatrix(b, w)
    ensures Eval(ms, XorMat(a, b), x, w) == Xor(Eval(ms, a, x, w), Eval(ms, b, x, w))
    ensures EvalAsWritten(ms, XorMat(a, b), x, w) == Xor(EvalAsWritten(ms, a, x, w), EvalAsWritten(ms, b, x, w))
  {
    LinCombXorMat(a, b, Selector(ms, x), w);
    LinCombXorMat(a, b, AsWrittenSelector(ms, x), w);
  }

  // ---------------------------------------------------------------------
  // The object

  class PolynomialFunction {
    const numInputs: nat
    const numOutputs: nat
    var monomials: Mat
    var contributions: Mat

    function InputCount(): nat
    {
      WordSize * numInputs
    }

    function OutputCount(): nat
    {
      WordSize * numOutputs
    }

    /** maxMonomialCount monomials over the inputs and as many contributions over the outputs. */
    ghost predicate Valid()
      reads this
    {
      |monomials| == MaxMonomialCount(InputCount()) == |contributions|
      && IsMatrix(monomials, InputCount()) && IsMatrix(contributions, OutputCount())
    }

    /** The constructor from contributions alone uses the standard monomial list. */
    constructor (numInputs: nat, numOutputs: nat, contributions: Mat)
      requires |contributions| == MaxMonomialCount(WordSize * numInputs)
      requires IsMatrix(contributions, WordSize * numOutputs)
      ensures Valid() && this.numInputs == numInputs && this.numOutputs == numOutputs
      ensures monomials == StandardMonomials(WordSize * numInputs) && this.contributions == contributions
    {
      this.numInputs := numInputs;
      this.numOutputs := numOutputs;
      var ms := GetMonomials(WordSize * numInputs);
      monomials := ms;
      this.contributions := contributions;
    }

    /** The constructor taking both lists. */
    constructor WithMonomials(numInputs: nat, numOutputs: nat, monomials: Mat, contributions: Mat)
      requires |monomials| == MaxMonomialCount(WordSize * numInputs) == |contributions|
      requires IsMatrix(monomials, WordSize * numInputs) && IsMatrix(contributions, WordSize * numOutputs)
      ensures Valid() && this.numInputs == numInputs && this.numOutputs == numOutputs
      ensures this.monomials == monomials && this.contributions == contributions
    {
      this.numInputs := numInputs;
      this.numOutputs := numOutputs;
      this.monomials := monomials;
      this.contributions := contributions;
    }

    /** `operator()(input)` as written. */
    method Evaluate(input: seq<bool>) returns (result: seq<bool>)
      requires Valid() && |input| == InputCount()
      ensures result == EvalAsWritten(monomials, contributions, input, OutputCount())
    {
      var w := OutputCount();
      var s := AsWrittenSelector(monomials, input);
      result := Zeros(w);
      var i := 0;
      while i < |monomials|
        invariant i <= |monomials| && result == LinComb(contributions[..i], s, w)
      {
        LinCombStep(contributions, s, i, w);
        var inputMask := And(monomials[i], input);
        if inputMask == input {
          result := Xor(result, contributions[i]);
        }
        i := i + 1;
      }
      assert contributions[..i] == contributions;
    }

    /** `operator()(input)` with the intended test; on the standard list it is the quadratic evaluation. */
    method EvaluateCorrected(input: seq<bool>) returns (result: seq<bool>)
      requires Valid() && |input| == InputCount()
      ensures result == Eval(monomials, contributions, input, OutputCount())
      ensures monomials == StandardMonomials(InputCount()) ==>
        result == LinComb(contributions, Monomials(input), OutputCount())
    {
      var w := OutputCount();
      var s := Selector(monomials, input);
      result := Zeros(w);
      var i := 0;
      while i < |monomials|
        invariant i <= |monomials| && result == LinComb(contributions[..i], s, w)
      {
        LinCombStep(contributions, s, i, w);
        var inputMask := And(monomials[i], input);
        if inputMask == monomials[i] {
          result := Xor(result, contributions[i]);
        }
        i := i + 1;
      }
      assert contributions[..i] == contributions;
      if monomials == StandardMonomials(InputCount()) {
        EvalIsQuadraticEval(contributions, input, w);
      }
    }

    /** `getContribution(i)`. */
    function GetContribution(i: nat): (c: seq<bool>)
      requires Valid() && i < |contributions|
      reads this
      ensures |c| == OutputCount()
    {
      contributions[i]
    }

    /** `xorContributions(c)`: contribution i becomes contribution i XOR c[i]; monomials are untouched. */
    method XorContributions(c: Mat)
      requires Valid() && |c| >= |contributions| && IsMatrix(c, OutputCount())
      modifies this
      ensures Valid() && monomials == old(monomials)
      ensures contributions == XorMat(old(contributions), c[..|old(contributions)|])
    {
      ghost var before := contributions;
      var i := 0;
      while i < |contributions|
        invariant i <= |contributions| == |before| && Valid() && monomials == old(monomials)
        invariant forall k | 0 <= k < |before| :: contributions[k] == if k < i then Xor(before[k], c[k]) else before[k]
      {
        contributions := contributions[i := Xor(contributions[i], c[i])];
        i := i + 1;
      }
    }

    /** `operator^=(rhs)`: rhs is taken by value, so XOR-ing a function into itself clears it. */
    method XorAssign(rhs: PolynomialFunction)
      requires Valid() && rhs.Valid() && rhs.numInputs == numInputs && rhs.numOutputs == numOutputs
      modifies this
      ensures Valid() && monomials == old(monomials)
      ensures contributions == XorMat(old(contributions), old(rhs.contributions))
    {
      var other := rhs.contributions;
      ghost var before := contributions;
      var i := 0;
      while i < |contributions|
        invariant i <= |contributions| == |before| && Valid() && monomials == old(monomials)
        invariant forall k | 0 <= k < |before| :: contributions[k] == if k < i then Xor(before[k], other[k]) else before[k]
      {
        contributions := contributions[i := Xor(contributions[i], other[i])];
        i := i + 1;
      }
    }

    /** `operator^(rhs)`: a copy of rhs with this function's contributions XORed in. */
    method XorWith(rhs: PolynomialFunction) returns (result: PolynomialFunction)
      requires Valid() && rhs.Valid() && rhs.numInputs == numInputs && rhs.numOutputs == numOutputs
      ensures fresh(result) && result.Valid() && result.numInputs == numInputs
      ensures result.monomials == rhs.monomials
      ensures result.contributions == XorMat(rhs.contributions, contributions)
    {
      result := new PolynomialFunction.WithMonomials(numInputs, numOutputs, rhs.monomials, rhs.contributions);
      result.XorContributions(contributions);
      assert contributions[..|contributions|] == contributions;
    }
  }
}
