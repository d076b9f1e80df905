/**
 * The later `MultiQuadTuple<NUM_INPUTS, NUM_OUTPUTS>`, which adds a vector of
 * constant terms to the quadratic part.  Its value at x is the quadratic
 * part's value XOR the constants.  It is assembled from whole-matrix
 * helpers (`augH`, `vCat`, `T`, `*`) and never changes a field, so it is
 * modelled on values.
 */
module AffineQuad {
  import opened GF2
  import opened Matrices
  import opened QuadLayout
  import opened Elimination
  import MQ = MultiQuad

  datatype MultiQuadTuple = MultiQuadTuple(numInputs: nat, numOutputs: nat, contributionsT: Mat, constants: seq<bool>)
  {
    function InputCount(): nat
    {
      WordSize * numInputs
    }

    function OutputCount(): nat
    {
      WordSize * numOutputs
    }

    /** n(n+1)/2 contribution rows of output width, and one constant per output. */
    ghost predicate Valid()
    {
      |contributionsT| == NumMonomials(InputCount()) && IsMatrix(contributionsT, OutputCount())
      && |constants| == OutputCount()
    }

    /** The homogeneous quadratic part, without the constants. */
    function Quadratic(): (f: MQ.MultiQuadTuple)
      requires Valid()
      ensures f.Valid() && f.numInputs == numInputs && f.numOutputs == numOutputs
    {
      MQ.MultiQuadTuple(numInputs, numOutputs, contributionsT)
    }
  }

  /** The value at x: the quadratic part's value XOR the constant terms. */
  function Eval(f: MultiQuadTuple, x: seq<bool>): (y: seq<bool>)
    requires f.Valid() && |x| == f.InputCount()
    ensures |y| == f.OutputCount()
  {
    Xor(MQ.Eval(f.Quadratic(), x), f.constants)
  }

  /** `zeroMultiQuadTuple()`: zero contribution rows and zero constants. */
  function ZeroMultiQuadTuple(numInputs: nat, numOutputs: nat): (f: MultiQuadTuple)
    ensures f.Valid() && f.numInputs == numInputs && f.numOutputs == numOutputs
  {
    MultiQuadTuple(numInputs, numOutputs,
      ZeroMat(NumMonomials(WordSize * numInputs), WordSize * numOutputs), Zeros(WordSize * numOutputs))
  }

  /** The zero tuple is the zero function. */
  lemma ZeroTupleIsZero(numInputs: nat, numOutputs: nat, x: seq<bool>)
    requires |x| == WordSize * numInputs
    ensures Eval(ZeroMultiQuadTuple(numInputs, numOutputs), x) == Zeros(WordSize * numOutputs)
  {
    MQ.ZeroTupleIsZero(numInputs, numOutputs, x);
    ZeroLaws(Zeros(WordSize * numOutputs));
  }

  /** The value at the zero input is the constant vector. */
  lemma ZeroInputGivesConstants(f: MultiQuadTuple)
    requires f.Valid()
    ensures Eval(f, Zeros(f.InputCount())) == f.constants
  {
    MQ.ZeroInputIsZero(f.Quadratic());
    ZeroLaws(f.constants);
  }

  /**
   * `rMult(C)`: C has 64·NUM_OUTEROUTPUTS rows; the contributions are
   * multiplied by Cᵀ and the constants replaced by C·constants.
   */
  function RMult(f: MultiQuadTuple, numOuterOutputs: nat, c: Mat): (g: MultiQuadTuple)
    requires f.Valid() && |c| == WordSize * numOuterOutputs && IsMatrix(c, f.OutputCount())
    ensures g.Valid() && g.numInputs == f.numInputs && g.numOutputs == numOuterOutputs
  {
    MultiQuadTuple(f.numInputs, numOuterOutputs,
      MatMul(f.contributionsT, Transpose(c, f.OutputCount(), |c|), |c|), MatVec(c, f.constants))
  }

  /** rMult(C)(x) = C·f(x): the linear map applies to the constants as well. */
  lemma RMultEval(f: MultiQuadTuple, numOuterOutputs: nat, c: Mat, x: seq<bool>)
    requires f.Valid() && |c| == WordSize * numOuterOutputs && IsMatrix(c, f.OutputCount())
    requires |x| == f.InputCount()
    ensures Eval(RMult(f, numOuterOutputs, c), x) == MatVec(c, Eval(f, x))
  {
    var g := RMult(f, numOuterOutputs, c);
    assert g.Quadratic() == MQ.RMult(f.Quadratic(), numOuterOutputs, c);
    MQ.RMultEval(f.Quadratic(), numOuterOutputs, c, x);
    MatVecXor(c, MQ.Eval(f.Quadratic(), x), f.constants);
  }

  /**
   * `augV(f1, f2)`: the contribution matrices side by side (`augH`) and
   * the constants concatenated (`vCat`); f1's outputs come first.
   */
  function AugV(f1: MultiQuadTuple, f2: MultiQuadTuple): (g: MultiQuadTuple)
    requires f1.Valid() && f2.Valid() && f1.numInputs == f2.numInputs
    ensures g.Valid() && g.numInputs == f1.numInputs && g.numOutputs == f1.numOutputs + f2.numOutputs
  {
    MultiQuadTuple(f1.numInputs, f1.numOutputs + f2.numOutputs,
      ConcatCols(f1.contributionsT, f2.contributionsT), f1.constants + f2.constants)
  }

  /** augV(f1, f2)(x) = f1(x) ‖ f2(x). */
  lemma AugVEval(f1: MultiQuadTuple, f2: MultiQuadTuple, x: seq<bool>)
    requires f1.Valid() && f2.Valid() && f1.numInputs == f2.numInputs && |x| == f1.InputCount()
    ensures Eval(AugV(f1, f2), x) == Eval(f1, x) + Eval(f2, x)
  {
    LinCombConcatCols(f1.contributionsT, f2.contributionsT, Monomials(x), f1.OutputCount(), f2.OutputCount());
    XorConcat(MQ.Eval(f1.Quadratic(), x), MQ.Eval(f2.Quadratic(), x), f1.constants, f2.constants);
  }

  /**
   * `augV(f1, f2, f3)`: three tuples side by side.  The source declares the
   * third matrix and vector with f2's width, so it only compiles when f2
   * and f3 have the same number of outputs.
   */
  function AugV3(f1: MultiQuadTuple, f2: MultiQuadTuple, f3: MultiQuadTuple): (g: MultiQuadTuple)
    requires f1.Valid() && f2.Valid() && f3.Valid()
    requires f1.numInputs == f2.numInputs == f3.numInputs && f3.numOutputs == f2.numOutputs
    ensures g.Valid() && g.numInputs == f1.numInputs
    ensures g.numOutputs == f1.numOutputs + f2.numOutputs + f3.numOutputs
  {
    MultiQuadTuple(f1.numInputs, f1.numOutputs + f2.numOutputs + f3.numOutputs,
      ConcatCols(ConcatCols(f1.contributionsT, f2.contributionsT), f3.contributionsT),
      f1.constants + f2.constants + f3.constants)
  }

  /** augV(f1, f2, f3)(x) = f1(x) ‖ f2(x) ‖ f3(x). */
  lemma AugV3Eval(f1: MultiQuadTuple, f2: MultiQuadTuple, f3: MultiQuadTuple, x: seq<bool>)
    requires f1.Valid() && f2.Valid() && f3.Valid()
    requires f1.numInputs == f2.numInputs == f3.numInputs && f3.numOutputs == f2.numOutputs
    requires |x| == f1.InputCount()
    ensures Eval(AugV3(f1, f2, f3), x) == Eval(f1, x) + Eval(f2, x) + Eval(f3, x)
  {
    var s := Monomials(x);
    var c12 := ConcatCols(f1.contributionsT, f2.contributionsT);
    LinCombConcatCols(f1.contributionsT, f2.contributionsT, s, f1.OutputCount(), f2.OutputCount());
    LinCombConcatCols(c12, f3.contributionsT, s, f1.OutputCount() + f2.OutputCount(), f3.OutputCount());
    var q1, q2, q3 := MQ.Eval(f1.Quadratic(), x), MQ.Eval(f2.Quadratic(), x), MQ.Eval(f3.Quadratic(), x);
    XorConcat(q1, q2, f1.constants, f2.constants);
    XorConcat(q1 + q2, q3, f1.constants + f2.constants, f3.constants);
  }
}
