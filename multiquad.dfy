/**
 * `MultiQuadTuple<NUM_INPUTS, NUM_OUTPUTS>` (and the experimental `MQT`,
 * which evaluates and composes the same way): a tuple of 64·NUM_OUTPUTS
 * quadratic polynomials in n = 64·NUM_INPUTS variables over GF(2), stored
 * as the transposed contribution matrix, one row of output bits per
 * monomial x_i·x_j (i ≤ j) in the layout of `QuadLayout`.
 */
module MultiQuad {
  import opened GF2
  import opened Matrices
  import opened QuadLayout
  import opened Elimination

  datatype MultiQuadTuple = MultiQuadTuple(numInputs: nat, numOutputs: nat, contributionsT: Mat)
  {
    /** `getInputCount()`: numInputBits = NUM_INPUTS << 6. */
    function InputCount(): (n: nat)
      ensures n % WordSize == 0 && n / WordSize == numInputs
    {
      WordSize * numInputs
    }

    function OutputCount(): nat
    {
      WordSize * numOutputs
    }

    /** `getInputMonomialCount()`: numInputMonomials = n(n+1)/2 for n input bits. */
    function InputMonomialCount(): (k: nat)
      ensures k == InputCount() * (InputCount() + 1) / 2
    {
      NumMonomialsClosedForm(InputCount());
      NumMonomials(InputCount())
    }

    /** numOutputMonomials = m(m+1)/2 for m output bits. */
    function OutputMonomialCount(): (k: nat)
      ensures k == OutputCount() * (OutputCount() + 1) / 2
    {
      NumMonomialsClosedForm(OutputCount());
      NumMonomials(OutputCount())
    }

    /** One row of output bits for each of the n(n+1)/2 monomials. */
    ghost predicate Valid()
    {
      |contributionsT| == NumMonomials(InputCount()) && IsMatrix(contributionsT, OutputCount())
    }
  }

  /**
   * The polynomial value at x: the XOR of the contribution rows of the
   * monomials x_i·x_j that are 1 at x.
   */
  function Eval(f: MultiQuadTuple, x: seq<bool>): (y: seq<bool>)
    requires f.Valid() && |x| == f.InputCount()
    ensures |y| == f.OutputCount()
  {
    LinComb(f.contributionsT, Monomials(x), f.OutputCount())
  }

  /**
   * `operator()(input)`: a running counter walks the contribution rows in
   * layout order; a set input bit i XORs in row x_i·x_i and then the rows
   * x_i·x_j for set bits j > i, a clear bit skips the n − i rows of its block.
   */
  method Evaluate(f: MultiQuadTuple, input: seq<bool>) returns (result: seq<bool>)
    requires f.Valid() && |input| == f.InputCount()
    ensures result == Eval(f, input)
  {
    var n := f.InputCount();
    var w := f.OutputCount();
    var c := f.contributionsT;
    result := Zeros(w);
    var count := 0;
    var i := 0;
    while i < n
      invariant 0 <= i <= n && count == RowStart(n, i) && count <= |c|
      invariant result == LinComb(c[..count], Monomials(input), w)
    {
      if input[i] {
        result, count := AddSelectedRows(c, input, i, w, result, count);
      } else {
        MonomialBlockEval(c, n, w, input, i);
        count := count + (n - i);
      }
      i := i + 1;
    }
    assert c[..count] == c;
  }

  /**
   * The block of a set input bit i in `operator()`: row x_i·x_i, then the
   * rows x_i·x_j for the set bits j > i.
   */
  method AddSelectedRows(c: Mat, input: seq<bool>, i: nat, w: nat, acc: seq<bool>, start: nat)
    returns (result: seq<bool>, count: nat)
    requires IsMatrix(c, w) && |c| == NumMonomials(|input|) && i < |input| && input[i]
    requires start == RowStart(|input|, i) <= |c| && acc == LinComb(c[..start], Monomials(input), w)
    ensures count == RowStart(|input|, i + 1) && count <= |c|
    ensures result == LinComb(c[..count], Monomials(input), w)
  {
    var n := |input|;
    count := start;
    EvalRowStep(c, input, i, i, count, w);
    result := Xor(acc, c[count]);
    count := count + 1;
    var j := i + 1;
    while j < n
      invariant i < j <= n && count == RowStart(n, i) + (j - i) && count <= |c|
      invariant result == LinComb(c[..count], Monomials(input), w)
    {
      EvalRowStep(c, input, i, j, count, w);
      if input[j] {
        result := Xor(result, c[count]);
      }
      count := count + 1;
      j := j + 1;
    }
    CounterLayout(n, i);
    RowStartBelow(n, i + 1, n);
    RowStartClosedForm(n, n);
  }

  /** With x_i set, row k (the row of x_i·x_j) is selected exactly when x_j is set. */
  lemma EvalRowStep(c: Mat, x: seq<bool>, i: nat, j: nat, k: nat, w: nat)
    requires IsMatrix(c, w) && |c| == NumMonomials(|x|) && i <= j < |x| && x[i]
    requires k == RowStart(|x|, i) + (j - i)
    ensures k < |c|
    ensures LinComb(c[..k + 1], Monomials(x), w) ==
      if x[j] then Xor(LinComb(c[..k], Monomials(x), w), c[k]) else LinComb(c[..k], Monomials(x), w)
  {
    MonomialAt(x, i, j);
    LinCombStep(c, Monomials(x), k, w);
  }

  /** `zeroMultiQuadTuple()`: n(n+1)/2 zero contribution rows. */
  function ZeroMultiQuadTuple(numInputs: nat, numOutputs: nat): (f: MultiQuadTuple)
    ensures f.Valid() && f.numInputs == numInputs && f.numOutputs == numOutputs
  {
    MultiQuadTuple(numInputs, numOutputs, ZeroMat(NumMonomials(WordSize * numInputs), WordSize * numOutputs))
  }

  /** The zero tuple evaluates to zero everywhere. */
  lemma ZeroTupleIsZero(numInputs: nat, numOutputs: nat, x: seq<bool>)
    requires |x| == WordSize * numInputs
    ensures Eval(ZeroMultiQuadTuple(numInputs, numOutputs), x) == Zeros(WordSize * numOutputs)
  {
    LinCombZeroRows(NumMonomials(WordSize * numInputs), Monomials(x), WordSize * numOutputs);
  }

  /** Every tuple maps the zero input to zero: no monomial is 1 there. */
  lemma ZeroInputIsZero(f: MultiQuadTuple)
    requires f.Valid()
    ensures Eval(f, Zeros(f.InputCount())) == Zeros(f.OutputCount())
  {
    MonomialsOfZero(f.InputCount());
    LinCombZeroSelector(f.contributionsT, Zeros(NumMonomials(f.InputCount())), f.OutputCount());
  }

  /** `operator^`: the contribution matrices XORed row by row. */
  function XorTuples(f: MultiQuadTuple, g: MultiQuadTuple): (h: MultiQuadTuple)
    requires f.Valid() && g.Valid() && f.numInputs == g.numInputs && f.numOutputs == g.numOutputs
    ensures h.Valid() && h.numInputs == f.numInputs && h.numOutputs == f.numOutputs
  {
    MultiQuadTuple(f.numInputs, f.numOutputs, XorMat(f.contributionsT, g.contributionsT))
  }

  /** (f ^ g)(x) = f(x) ^ g(x). */
  lemma XorTuplesEval(f: MultiQuadTuple, g: MultiQuadTuple, x: seq<bool>)
    requires f.Valid() && g.Valid() && f.numInputs == g.numInputs && f.numOutputs == g.numOutputs
    requires |x| == f.InputCount()
    ensures Eval(XorTuples(f, g), x) == Xor(Eval(f, x), Eval(g, x))
  {
    LinCombXorMat(f.contributionsT, g.contributionsT, Monomials(x), f.OutputCount());
  }

  /**
   * The contribution rows of a linear map: row k of `rows` (a row of Mᵀ) at
   * the row of the monomial x_k·x_k = x_k, every other row zero.
   */
  function DiagEmbed(rows: Mat, n: nat, w: nat): (c: Mat)
    requires |rows| <= n && IsMatrix(rows, w)
    ensures |c| == NumMonomials(n) && IsMatrix(c, w)
    decreases |rows|
  {
    if rows == [] then ZeroMat(NumMonomials(n), w)
    else
      var k := |rows| - 1;
      RowStartBelow(n, k + 1, n);
      CounterLayout(n, k);
      DiagEmbed(rows[..k], n, w)[RowStart(n, k) := rows[k]]
  }

  /** Embedding one more row writes it at the start of its block. */
  lemma DiagEmbedStep(rows: Mat, n: nat, w: nat, i: nat)
    requires |rows| <= n && IsMatrix(rows, w) && i < |rows|
    ensures RowStart(n, i) < NumMonomials(n)
    ensures DiagEmbed(rows[..i + 1], n, w) == DiagEmbed(rows[..i], n, w)[RowStart(n, i) := rows[i]]
  {
    RowStartBelow(n, i + 1, n);
    CounterLayout(n, i);
    assert rows[..i + 1][..i] == rows[..i];
  }

  /** The rows from the end of the last embedded block on are still zero. */
  lemma {:induction false} DiagEmbedTail(rows: Mat, n: nat, w: nat, r: nat)
    requires |rows| <= n && IsMatrix(rows, w)
    requires RowStart(n, |rows|) <= r < NumMonomials(n)
    ensures DiagEmbed(rows, n, w)[r] == Zeros(w)
    decreases |rows|
  {
    if rows != [] {
      var k := |rows| - 1;
      CounterLayout(n, k);
      DiagEmbedTail(rows[..k], n, w, r);
    }
  }

  /** Row k of `rows` sits at the row of x_k·x_k. */
  lemma {:induction false} DiagEmbedAt(rows: Mat, n: nat, w: nat, k: nat)
    requires |rows| <= n && IsMatrix(rows, w) && k < |rows|
    ensures RowStart(n, k) < NumMonomials(n)
    ensures DiagEmbed(rows, n, w)[RowStart(n, k)] == rows[k]
    decreases |rows|
  {
    var last := |rows| - 1;
    RowStartBelow(n, k + 1, n);
    CounterLayout(n, k);
    if k < last {
      DiagEmbedAt(rows[..last], n, w, k);
      RowStartBelow(n, k + 1, last);
    }
  }

  /** The embedded tuple is the linear map x ↦ Σ_k x_k·rows[k]. */
  lemma {:induction false} DiagEmbedEval(rows: Mat, n: nat, w: nat, x: seq<bool>)
    requires |rows| <= n && IsMatrix(rows, w) && |x| == n
    ensures LinComb(DiagEmbed(rows, n, w), Monomials(x), w) == LinComb(rows, x, w)
    decreases |rows|
  {
    if rows == [] {
      LinCombZeroRows(NumMonomials(n), Monomials(x), w);
    } else {
      var k := |rows| - 1;
      CounterLayout(n, k);
      RowStartBelow(n, k + 1, n);
      DiagEmbedEval(rows[..k], n, w, x);
      DiagEmbedTail(rows[..k], n, w, RowStart(n, k));
      MonomialAt(x, k, k);
      LinCombSetZeroRow(DiagEmbed(rows[..k], n, w), Monomials(x), RowStart(n, k), rows[k], w);
    }
  }

  /**
   * `getMultiQuadTuple(M)`: M has 64·NUM_OUTPUTS rows; row i of Mᵀ goes to
   * the row of the monomial x_i·x_i = x_i and every other row stays zero.
   */
  method GetMultiQuadTuple(numInputs: nat, numOutputs: nat, m: Mat) returns (f: MultiQuadTuple)
    requires |m| == WordSize * numOutputs && IsMatrix(m, WordSize * numInputs)
    ensures f.Valid() && f.numInputs == numInputs && f.numOutputs == numOutputs
    ensures f.contributionsT == DiagEmbed(Transpose(m, f.InputCount(), |m|), f.InputCount(), |m|)
  {
    var n := WordSize * numInputs;
    var w := WordSize * numOutputs;
    var mt := Transpose(m, n, w);
    var result := ZeroMat(NumMonomials(n), w);
    var count := 0;
    var i := 0;
    assert mt[..0] == [];
    while i < n
      invariant 0 <= i <= n && count == RowStart(n, i)
      invariant result == DiagEmbed(mt[..i], n, w)
    {
      CounterLayout(n, i);
      DiagEmbedStep(mt, n, w, i);
      result := result[count := mt[i]];
      count := count + (n - i);
      i := i + 1;
    }
    assert mt[..n] == mt;
    f := MultiQuadTuple(numInputs, numOutputs, result);
  }

  /**
   * The tuple built from M is the linear map x ↦ M·x, with column i of M at
   * the row of x_i·x_i.
   */
  lemma GetMultiQuadTupleEval(m: Mat, n: nat, x: seq<bool>, i: nat)
    requires IsMatrix(m, n) && |x| == n && i < n
    ensures DiagEmbed(Transpose(m, n, |m|), n, |m|)[GetIndex(n, i, i)] == Column(m, i, |m|)
    ensures LinComb(DiagEmbed(Transpose(m, n, |m|), n, |m|), Monomials(x), |m|) == MatVec(m, x)
  {
    DiagEmbedAt(Transpose(m, n, |m|), n, |m|, i);
    DiagEmbedEval(Transpose(m, n, |m|), n, |m|, x);
    LinCombOfTranspose(m, x);
  }

  // ---------------------------------------------------------------------
  // Composition with a linear map: `operator*(C)`, (f*C)(v) = f(C·v)

  /**
   * A_i, the `pMult` of Cᵀ with the contribution block of x_i: row k is
   * Σ_t C[i + t][k]·c[RowStart(i) + t], the part of the block reached by v_k.
   */
  function BlockOf(c: Mat, ct: Mat, n: nat, i: nat, w: nat): (a: Mat)
    requires IsMatrix(c, w) && |c| == NumMonomials(n) && IsMatrix(ct, n) && i < n
    ensures |a| == |ct| && IsMatrix(a, w)
  {
    CounterLayout(n, i);
    RowStartBelow(n, i + 1, n);
    BlockMul(ct, c, i, RowStart(n, i), n - i, w)
  }

  /** The innermost loop after k steps: a[k'] XORed into the row of v_j·v_k' for k' < k. */
  function AddProducts(res: Mat, a: Mat, m: nat, j: nat, k: nat, w: nat): (r: Mat)
    requires |res| == NumMonomials(m) && IsMatrix(res, w) && |a| == m && IsMatrix(a, w)
    requires j < m && k <= m
    ensures |r| == NumMonomials(m) && IsMatrix(r, w)
    decreases k
  {
    if k == 0 then res
    else
      var prev := AddProducts(res, a, m, j, k - 1, w);
      var p := GetIndex(m, j, k - 1);
      prev[p := Xor(prev[p], a[k - 1])]
  }

  /** The middle loop after j steps: the products of a with every v_j' where row[j'] is set, j' < j. */
  function AddBlock(res: Mat, a: Mat, row: seq<bool>, m: nat, j: nat, w: nat): (r: Mat)
    requires |res| == NumMonomials(m) && IsMatrix(res, w) && |a| == m && IsMatrix(a, w)
    requires |row| == m && j <= m
    ensures |r| == NumMonomials(m) && IsMatrix(r, w)
    decreases j
  {
    if j == 0 then res
    else
      var prev := AddBlock(res, a, row, m, j - 1, w);
      if row[j - 1] then AddProducts(prev, a, m, j - 1, m, w) else prev
  }

  /** The outer loop after i steps, starting from the zero contribution matrix. */
  function ComposePrefix(c: Mat, cm: Mat, n: nat, m: nat, w: nat, i: nat): (r: Mat)
    requires IsMatrix(c, w) && |c| == NumMonomials(n) && |cm| == n && IsMatrix(cm, m) && i <= n
    ensures |r| == NumMonomials(m) && IsMatrix(r, w)
    decreases i
  {
    if i == 0 then ZeroMat(NumMonomials(m), w)
    else
      AddBlock(ComposePrefix(c, cm, n, m, w, i - 1), BlockOf(c, Transpose(cm, m, n), n, i - 1, w),
               cm[i - 1], m, m, w)
  }

  /** The innermost loop adds v_j·Σ_{k'<k} v_k'·a[k'] to the value at v. */
  lemma {:induction false} AddProductsEval(res: Mat, a: Mat, m: nat, j: nat, k: nat, w: nat, v: seq<bool>)
    requires |res| == NumMonomials(m) && IsMatrix(res, w) && |a| == m && IsMatrix(a, w)
    requires j < m && k <= m && |v| == m
    ensures LinComb(AddProducts(res, a, m, j, k, w), Monomials(v), w) ==
      if v[j] then Xor(LinComb(res, Monomials(v), w), LinComb(a[..k], v, w))
      else LinComb(res, Monomials(v), w)
    decreases k
  {
    if k == 0 {
      assert a[..0] == [];
      ZeroLaws(LinComb(res, Monomials(v), w));
    } else {
      AddProductsEval(res, a, m, j, k - 1, w, v);
      AddProductStep(res, a, m, j, k, w, v);
    }
  }

  /** One step of the inner loop XORs a[k − 1] into the value at v exactly when v_j·v_(k−1) = 1. */
  lemma AddProductRow(res: Mat, a: Mat, m: nat, j: nat, k: nat, w: nat, v: seq<bool>)
    requires |res| == NumMonomials(m) && IsMatrix(res, w) && |a| == m && IsMatrix(a, w)
    requires j < m && 0 < k <= m && |v| == m
    ensures LinComb(AddProducts(res, a, m, j, k, w), Monomials(v), w) ==
      if v[j] && v[k - 1] then Xor(LinComb(AddProducts(res, a, m, j, k - 1, w), Monomials(v), w), a[k - 1])
      else LinComb(AddProducts(res, a, m, j, k - 1, w), Monomials(v), w)
  {
    var s := Monomials(v);
    var prev := AddProducts(res, a, m, j, k - 1, w);
    var p := GetIndex(m, j, k - 1);
    assert AddProducts(res, a, m, j, k, w) == prev[p := Xor(prev[p], a[k - 1])];
    LinCombXorRow(prev, s, p, a[k - 1], w);
    MonomialAt(v, j, k - 1);
  }

  /** XOR-ing a[k − 1] into the row of x_j·x_(k−1) toggles the value at v by a[k − 1] when v_j·v_(k−1) = 1. */
  lemma AddProductStep(res: Mat, a: Mat, m: nat, j: nat, k: nat, w: nat, v: seq<bool>)
    requires |res| == NumMonomials(m) && IsMatrix(res, w) && |a| == m && IsMatrix(a, w)
    requires j < m && 0 < k <= m && |v| == m
    requires LinComb(AddProducts(res, a, m, j, k - 1, w), Monomials(v), w) ==
      if v[j] then Xor(LinComb(res, Monomials(v), w), LinComb(a[..k - 1], v, w))
      else LinComb(res, Monomials(v), w)
    ensures LinComb(AddProducts(res, a, m, j, k, w), Monomials(v), w) ==
      if v[j] then Xor(LinComb(res, Monomials(v), w), LinComb(a[..k], v, w))
      else LinComb(res, Monomials(v), w)
  {
    AddProductRow(res, a, m, j, k, w, v);
    LinCombStep(a, v, k - 1, w);
    ToggleStep(LinComb(res, Monomials(v), w), LinComb(a[..k - 1], v, w), a[k - 1],
      LinComb(AddProducts(res, a, m, j, k - 1, w), Monomials(v), w),
      LinComb(AddProducts(res, a, m, j, k, w), Monomials(v), w), LinComb(a[..k], v, w), v[j], v[k - 1]);
  }

  /**
   * The bookkeeping of one inner step: a value that is base ⊕ before when
   * b1 holds, toggled by row when b1 and b2 hold, is base ⊕ upTo when b1
   * holds, upTo being before toggled by row when b2 holds.
   */
  lemma ToggleStep(base: seq<bool>, before: seq<bool>, row: seq<bool>, mid: seq<bool>, after: seq<bool>,
                   upTo: seq<bool>, b1: bool, b2: bool)
    requires |base| == |before| == |row|
    requires mid == if b1 then Xor(base, before) else base
    requires after == if b1 && b2 then Xor(mid, row) else mid
    requires upTo == if b2 then Xor(before, row) else before
    ensures after == if b1 then Xor(base, upTo) else base
  {
    if b1 && b2 {
      XorAssociates(base, before, row);
    }
  }

  /** The middle loop adds (row·v)·Σ_k v_k·a[k] to the value at v. */
  lemma {:induction false} AddBlockEval(res: Mat, a: Mat, row: seq<bool>, m: nat, j: nat, w: nat, v: seq<bool>)
    requires |res| == NumMonomials(m) && IsMatrix(res, w) && |a| == m && IsMatrix(a, w)
    requires |row| == m && j <= m && |v| == m
    ensures LinComb(AddBlock(res, a, row, m, j, w), Monomials(v), w) ==
      if Dot(row[..j], v[..j]) then Xor(LinComb(res, Monomials(v), w), LinComb(a, v, w))
      else LinComb(res, Monomials(v), w)
    decreases j
  {
    var base := LinComb(res, Monomials(v), w);
    var la := LinComb(a, v, w);
    if j == 0 {
      assert And(row[..0], v[..0]) == [];
    } else {
      var prev := AddBlock(res, a, row, m, j - 1, w);
      AddBlockEval(res, a, row, m, j - 1, w, v);
      DotPrefix(row, v, j - 1);
      if row[j - 1] {
        AddProductsEval(prev, a, m, j - 1, m, w, v);
        assert a[..m] == a;
        if v[j - 1] && Dot(row[..j - 1], v[..j - 1]) {
          XorAssociates(base, la, la);
          XorSelf(la);
          ZeroLaws(base);
        }
      }
    }
  }

  /** A_i applied to v is the block of x_i applied to the tail y[i..] of y = C·v. */
  lemma BlockOfEval(c: Mat, cm: Mat, n: nat, m: nat, w: nat, i: nat, v: seq<bool>)
    requires IsMatrix(c, w) && |c| == NumMonomials(n) && |cm| == n && IsMatrix(cm, m) && i < n && |v| == m
    ensures RowStart(n, i + 1) == RowStart(n, i) + (n - i) && RowStart(n, i + 1) <= |c|
    ensures LinComb(BlockOf(c, Transpose(cm, m, n), n, i, w), v, w) ==
      LinComb(c[RowStart(n, i)..RowStart(n, i + 1)], MatVec(cm, v)[i..], w)
  {
    CounterLayout(n, i);
    RowStartBelow(n, i + 1, n);
    var ct := Transpose(cm, m, n);
    var blk := c[RowStart(n, i)..RowStart(n, i + 1)];
    var sl := SliceCols(ct, i, n);
    assert BlockOf(c, ct, n, i, w) == MatMul(sl, blk, w);
    LinCombCompose(sl, blk, v, w);
    LinCombSliceCols(ct, v, n, i, n);
    LinCombOfTranspose(cm, v);
    assert LinComb(sl, v, n - i) == MatVec(cm, v)[i..];
  }

  /** Block i of f(y) contributes y_i·Σ_t y_{i+t}·c[RowStart(i) + t]. */
  lemma MonomialBlockEval(c: Mat, n: nat, w: nat, y: seq<bool>, i: nat)
    requires IsMatrix(c, w) && |c| == NumMonomials(n) && |y| == n && i < n
    ensures RowStart(n, i + 1) == RowStart(n, i) + (n - i) && RowStart(n, i + 1) <= |c|
    ensures LinComb(c[..RowStart(n, i + 1)], Monomials(y), w) ==
      if y[i] then
        Xor(LinComb(c[..RowStart(n, i)], Monomials(y), w), LinComb(c[RowStart(n, i)..RowStart(n, i + 1)], y[i..], w))
      else LinComb(c[..RowStart(n, i)], Monomials(y), w)
  {
    CounterLayout(n, i);
    RowStartBelow(n, i + 1, n);
    var blk := c[RowStart(n, i)..RowStart(n, i + 1)];
    LinCombSplit(c, Monomials(y), RowStart(n, i), RowStart(n, i + 1), w);
    MonomialsBlockSlice(y, i);
    if y[i] {
      assert MonomialBlock(y, i) == y[i..];
    } else {
      LinCombZeroSelector(blk, MonomialBlock(y, i), w);
      ZeroLaws(LinComb(c[..RowStart(n, i)], Monomials(y), w));
    }
  }

  /** After i outer steps the value at v is the part of f(C·v) from the blocks of x_0 … x_{i−1}. */
  lemma {:induction false} ComposePrefixEval(c: Mat, cm: Mat, n: nat, m: nat, w: nat, i: nat, v: seq<bool>)
    requires IsMatrix(c, w) && |c| == NumMonomials(n) && |cm| == n && IsMatrix(cm, m) && i <= n && |v| == m
    ensures RowStart(n, i) <= |c|
    ensures LinComb(ComposePrefix(c, cm, n, m, w, i), Monomials(v), w) ==
      LinComb(c[..RowStart(n, i)], Monomials(MatVec(cm, v)), w)
    decreases i
  {
    RowStartBelow(n, i, n);
    RowStartClosedForm(n, n);
    if i == 0 {
      LinCombZeroRows(NumMonomials(m), Monomials(v), w);
      assert c[..0] == [];
    } else {
      var k := i - 1;
      var y := MatVec(cm, v);
      var prev := ComposePrefix(c, cm, n, m, w, k);
      var a := BlockOf(c, Transpose(cm, m, n), n, k, w);
      ComposePrefixEval(c, cm, n, m, w, k, v);
      AddBlockEval(prev, a, cm[k], m, m, w, v);
      assert cm[k][..m] == cm[k] && v[..m] == v;
      BlockOfEval(c, cm, n, m, w, k, v);
      MonomialBlockEval(c, n, w, y, k);
    }
  }

  /** f * C: the tuple over the inner inputs that `operator*` builds. */
  function ComposeTuple(f: MultiQuadTuple, numInnerInputs: nat, cm: Mat): (g: MultiQuadTuple)
    requires f.Valid() && |cm| == f.InputCount() && IsMatrix(cm, WordSize * numInnerInputs)
    ensures g.Valid() && g.numInputs == numInnerInputs && g.numOutputs == f.numOutputs
  {
    MultiQuadTuple(numInnerInputs, f.numOutputs,
      ComposePrefix(f.contributionsT, cm, f.InputCount(), WordSize * numInnerInputs, f.OutputCount(), f.InputCount()))
  }

  /** (f * C)(v) = f(C·v). */
  lemma ComposeEval(f: MultiQuadTuple, numInnerInputs: nat, cm: Mat, v: seq<bool>)
    requires f.Valid() && |cm| == f.InputCount() && IsMatrix(cm, WordSize * numInnerInputs)
    requires |v| == WordSize * numInnerInputs
    ensures Eval(ComposeTuple(f, numInnerInputs, cm), v) == Eval(f, MatVec(cm, v))
  {
    var n := f.InputCount();
    RowStartClosedForm(n, n);
    assert f.contributionsT[..RowStart(n, n)] == f.contributionsT;
    ComposePrefixEval(f.contributionsT, cm, n, |v|, f.OutputCount(), n, v);
  }

  /** The middle and inner loops of `operator*` for one input bit. */
  method AddBlockInto(res: Mat, a: Mat, row: seq<bool>, m: nat, w: nat) returns (result: Mat)
    requires |res| == NumMonomials(m) && IsMatrix(res, w) && |a| == m && IsMatrix(a, w) && |row| == m
    ensures result == AddBlock(res, a, row, m, m, w)
  {
    result := res;
    var j := 0;
    while j < m
      invariant 0 <= j <= m
      invariant result == AddBlock(res, a, row, m, j, w)
    {
      if row[j] {
        ghost var mid := result;
        var k := 0;
        while k < m
          invariant 0 <= k <= m
          invariant result == AddProducts(mid, a, m, j, k, w)
        {
          var p := GetIndex(m, j, k);
          result := result[p := Xor(result[p], a[k])];
          k := k + 1;
        }
      }
      j := j + 1;
    }
  }

  /**
   * `operator*(C)`: C has numInputBits rows and 64·NUM_INNERINPUTS columns.
   * For each input bit i, A_i = Cᵀ·(block of x_i); for every j with
   * C[i][j] set, row k of A_i is XORed into the row of x_j·x_k.
   */
  method Compose(f: MultiQuadTuple, numInnerInputs: nat, cm: Mat) returns (g: MultiQuadTuple)
    requires f.Valid() && |cm| == f.InputCount() && IsMatrix(cm, WordSize * numInnerInputs)
    ensures g == ComposeTuple(f, numInnerInputs, cm)
  {
    var n := f.InputCount();
    var m := WordSize * numInnerInputs;
    var w := f.OutputCount();
    var c := f.contributionsT;
    var ct := Transpose(cm, m, n);
    var result := ZeroMat(NumMonomials(m), w);
    var inputCount := 0;
    var subLength := n;
    var i := 0;
    while i < n
      invariant 0 <= i <= n && inputCount == RowStart(n, i) && subLength == n - i
      invariant result == ComposePrefix(c, cm, n, m, w, i)
    {
      result := ComposeRound(c, cm, ct, n, m, w, i, inputCount, result);
      CounterLayout(n, i);
      inputCount := inputCount + subLength;
      subLength := subLength - 1;
      i := i + 1;
    }
    g := MultiQuadTuple(numInnerInputs, f.numOutputs, result);

  }

  /**
   * The body of the outer loop of `operator*` for input bit i:
   * A_i = Ct.pMult(contributions, i, n − 1, inputCount, inputCount + (n − i) − 1),
   * then the products of A_i with every j where C[i][j] is set.
   */
  method ComposeRound(c: Mat, cm: Mat, ct: Mat, n: nat, m: nat, w: nat, i: nat, inputCount: nat, acc: Mat)
    returns (result: Mat)
    requires IsMatrix(c, w) && |c| == NumMonomials(n) && |cm| == n && IsMatrix(cm, m) && i < n
    requires ct == Transpose(cm, m, n) && inputCount == RowStart(n, i)
    requires acc == ComposePrefix(c, cm, n, m, w, i)
    ensures result == ComposePrefix(c, cm, n, m, w, i + 1)
  {
    CounterLayout(n, i);
    RowStartBelow(n, i + 1, n);
    var a := BlockMul(ct, c, i, inputCount, n - i, w);
    ComposeStep(c, cm, n, m, w, i, a);
    result := AddBlockInto(acc, a, cm[i], m, w);
  }

  /** One outer step of `operator*`: A_i is the `pMult` block and its products are added. */
  lemma ComposeStep(c: Mat, cm: Mat, n: nat, m: nat, w: nat, i: nat, a: Mat)
    requires IsMatrix(c, w) && |c| == NumMonomials(n) && |cm| == n && IsMatrix(cm, m) && i < n
    requires RowStart(n, i) + (n - i) <= |c|
    requires a == BlockMul(Transpose(cm, m, n), c, i, RowStart(n, i), n - i, w)
    ensures |a| == m && IsMatrix(a, w)
    ensures ComposePrefix(c, cm, n, m, w, i + 1) ==
      AddBlock(ComposePrefix(c, cm, n, m, w, i), a, cm[i], m, m, w)
  {
  }

  /**
   * `rMult(C)`: C has 64·NUM_OUTEROUTPUTS rows; the contributions are
   * multiplied by Cᵀ.
   */
  function RMult(f: MultiQuadTuple, numOuterOutputs: nat, c: Mat): (g: MultiQuadTuple)
    requires f.Valid() && |c| == WordSize * numOuterOutputs && IsMatrix(c, f.OutputCount())
    ensures g.Valid() && g.numInputs == f.numInputs && g.numOutputs == numOuterOutputs
  {
    MultiQuadTuple(f.numInputs, numOuterOutputs,
      MatMul(f.contributionsT, Transpose(c, f.OutputCount(), |c|), |c|))
  }

  /** rMult(C)(v) = C·f(v). */
  lemma RMultEval(f: MultiQuadTuple, numOuterOutputs: nat, c: Mat, x: seq<bool>)
    requires f.Valid() && |c| == WordSize * numOuterOutputs && IsMatrix(c, f.OutputCount())
    requires |x| == f.InputCount()
    ensures Eval(RMult(f, numOuterOutputs, c), x) == MatVec(c, Eval(f, x))
  {
    var ct := Transpose(c, f.OutputCount(), |c|);
    LinCombCompose(f.contributionsT, ct, Monomials(x), |c|);
    LinCombIsTransposeProduct(ct, Eval(f, x), |c|);
    TransposeTwice(c, f.OutputCount());
  }
}
