/**
 * The linear algebra behind `BitMatrix::inv`: Gaussian elimination
 * over GF(2) with a companion matrix that receives every row operation.
 *
 * `Reduced(a, n, k)` is the state of the working copy after k pivot steps;
 * `ElimState` ties the working copy, the companion and a ghost inverse of
 * the companion to the matrix being inverted.  The final lemmas show that
 * a completed elimination followed by back substitution yields a two-sided
 * inverse, and that a missing pivot exhibits a non-zero kernel vector, so
 * that no inverse can exist.
 */
module Elimination {
  import opened GF2
  import opened Matrices

  /** Columns 0 … k−1 are reduced: a one on the diagonal and zeros below it. */
  ghost predicate Reduced(a: Mat, n: nat, k: nat)
  {
    |a| == n && IsMatrix(a, n) && k <= n &&
    (forall c | 0 <= c < k :: a[c][c]) &&
    (forall r, c | 0 <= c < k && c < r < n :: !a[r][c])
  }

  /** Some non-zero vector z has m·z = 0. */
  ghost predicate HasKernel(m: Mat, n: nat)
    requires IsMatrix(m, n)
  {
    exists z: seq<bool> :: |z| == n && z != Zeros(n) && MatVec(m, z) == Zeros(|m|)
  }

  /**
   * The elimination state: the companion e records the row operations
   * applied to m (e·m = a) and einv undoes them (einv·e = I).
   */
  ghost predicate ElimState(m: Mat, e: Mat, einv: Mat, a: Mat, n: nat)
  {
    |m| == n && IsMatrix(m, n) && |e| == n && IsMatrix(e, n) &&
    |einv| == n && IsMatrix(einv, n) && |a| == n && IsMatrix(a, n) &&
    MatMul(e, m, n) == a && MatMul(einv, e, n) == Identity(n)
  }

  // ---------------------------------------------------------------------
  // Single-bit facts about parity and dot products

  lemma ParityUnit(n: nat, i: nat)
    requires i < n
    ensures Parity(Unit(n, i))
  {
    DotUnit(i, Ones(n));
    assert And(Unit(n, i), Ones(n)) == Unit(n, i);
  }

  /** A dot product whose terms vanish everywhere except at t is the term at t. */
  lemma SingleTermDot(a: seq<bool>, x: seq<bool>, t: nat)
    requires |a| == |x| && t < |a|
    requires forall s | 0 <= s < |a| && s != t :: !(a[s] && x[s])
    ensures Dot(a, x) == (a[t] && x[t])
  {
    if a[t] && x[t] {
      assert And(a, x) == Unit(|a|, t);
      ParityUnit(|a|, t);
    } else {
      assert And(a, x) == Zeros(|a|);
      ParityZeros(|a|);
    }
  }

  /** Writing b into a clear position i of x toggles the dot product with a by a[i] && b. */
  lemma DotSetBit(a: seq<bool>, x: seq<bool>, i: nat, b: bool)
    requires |a| == |x| && i < |x| && !x[i]
    ensures Dot(a, x[i := b]) == (Dot(a, x) != (a[i] && b))
  {
    if a[i] && b {
      var d := Unit(|x|, i);
      assert And(a, x[i := b]) == Xor(And(a, x), d);
      ParityXor(And(a, x), d);
      ParityUnit(|x|, i);
    } else {
      assert And(a, x[i := b]) == And(a, x);
    }
  }

  /**
   * One step of back substitution: with a one on the diagonal of row i,
   * setting x[i] to (x·a_i) ⊕ b makes a_i·x = b, and leaves a_r·x alone
   * for every row r that is zero in column i.
   */
  lemma BackSubstStep(a: Mat, n: nat, x: seq<bool>, i: nat, b: bool)
    requires |a| == n && IsMatrix(a, n) && |x| == n && i < n && !x[i] && a[i][i]
    ensures Dot(a[i], x[i := Dot(x, a[i]) != b]) == b
    ensures forall r | 0 <= r < n && !a[r][i] :: Dot(a[r], x[i := Dot(x, a[i]) != b]) == Dot(a[r], x)
  {
    var v := Dot(x, a[i]) != b;
    DotSymmetric(x, a[i]);
    DotSetBit(a[i], x, i, v);
    forall r | 0 <= r < n && !a[r][i] ensures Dot(a[r], x[i := v]) == Dot(a[r], x) {
      DotSetBit(a[r], x, i, v);
    }
  }

  // ---------------------------------------------------------------------
  // Products

  /** Combining the rows of c by a combination of the rows of b is combining the rows of b·c. */
  lemma {:induction false} LinCombCompose(b: Mat, c: Mat, v: seq<bool>, w: nat)
    requires IsMatrix(b, |c|) && IsMatrix(c, w) && |b| <= |v|
    ensures LinComb(c, LinComb(b, v, |c|), w) == LinComb(MatMul(b, c, w), v, w)
  {
    if b == [] {
      LinCombZeroSelector(c, Zeros(|c|), w);
    } else {
      var n := |b| - 1;
      var bc := MatMul(b, c, w);
      assert bc[..n] == MatMul(b[..n], c, w);
      LinCombCompose(b[..n], c, v, w);
      if v[n] {
        LinCombXorSelector(c, LinComb(b[..n], v, |c|), b[n], w);
      }
    }
  }

  lemma MatMulAssoc(a: Mat, b: Mat, c: Mat, w: nat)
    requires IsMatrix(a, |b|) && IsMatrix(b, |c|) && IsMatrix(c, w)
    ensures MatMul(MatMul(a, b, |c|), c, w) == MatMul(a, MatMul(b, c, w), w)
  {
    forall i | 0 <= i < |a|
      ensures LinComb(c, LinComb(b, a[i], |c|), w) == LinComb(MatMul(b, c, w), a[i], w)
    {
      LinCombCompose(b, c, a[i], w);
    }
  }

  /** Entry (i, j) of a·b is row i of a dotted with column j of b. */
  lemma MatMulEntry(a: Mat, b: Mat, w: nat, i: nat, j: nat)
    requires IsMatrix(a, |b|) && IsMatrix(b, w) && i < |a| && j < w
    ensures MatMul(a, b, w)[i][j] == Dot(a[i], Column(b, j, |b|))
  {
    LinCombIsTransposeProduct(b, a[i], w);
    assert Transpose(b, w, |b|)[j] == Column(b, j, |b|);
    DotSymmetric(Column(b, j, |b|), a[i]);
  }

  lemma MatVecXor(a: Mat, u: seq<bool>, v: seq<bool>)
    requires |u| == |v| && IsMatrix(a, |u|)
    ensures MatVec(a, Xor(u, v)) == Xor(MatVec(a, u), MatVec(a, v))
  {
    forall i | 0 <= i < |a| ensures Dot(a[i], Xor(u, v)) == (Dot(a[i], u) != Dot(a[i], v)) {
      DotSymmetric(a[i], Xor(u, v));
      DotXor(u, v, a[i]);
      DotSymmetric(a[i], u);
      DotSymmetric(a[i], v);
    }
  }

  lemma MatVecZeros(a: Mat, n: nat)
    requires IsMatrix(a, n)
    ensures MatVec(a, Zeros(n)) == Zeros(|a|)
  {
    forall i | 0 <= i < |a| ensures !Dot(a[i], Zeros(n)) {
      DotSymmetric(a[i], Zeros(n));
      DotZeros(a[i]);
    }
  }

  lemma IdentityMulRight(a: Mat, n: nat)
    requires IsMatrix(a, n)
    ensures MatMul(a, Identity(n), n) == a
  {
    forall j | 0 <= j < n ensures Transpose(Identity(n), n, n)[j] == Identity(n)[j] {
      assert forall i | 0 <= i < n :: Transpose(Identity(n), n, n)[j][i] == Identity(n)[j][i];
    }
    forall i | 0 <= i < |a| ensures LinComb(Identity(n), a[i], n) == a[i] {
      LinCombIsTransposeProduct(Identity(n), a[i], n);
      IdentityMatVec(a[i]);
    }
  }

  /** A product whose columns are solutions of a·x = e's columns is e. */
  lemma ProductFromColumns(a: Mat, x: Mat, e: Mat, n: nat)
    requires |a| == n && IsMatrix(a, n) && |x| == n && IsMatrix(x, n) && |e| == n && IsMatrix(e, n)
    requires forall c | 0 <= c < n :: MatVec(a, Column(x, c, n)) == Column(e, c, n)
    ensures MatMul(a, x, n) == e
  {
    forall i | 0 <= i < n ensures MatMul(a, x, n)[i] == e[i] {
      forall j | 0 <= j < n ensures MatMul(a, x, n)[i][j] == e[i][j] {
        MatMulEntry(a, x, n, i, j);
        assert MatVec(a, Column(x, j, n))[i] == Column(e, j, n)[i];
      }
    }
  }

  // ---------------------------------------------------------------------
  // Unit upper-triangular matrices

  /** A fully reduced matrix has a trivial kernel. */
  lemma ReducedKernel(a: Mat, n: nat, z: seq<bool>)
    requires Reduced(a, n, n) && |z| == n && MatVec(a, z) == Zeros(n)
    ensures z == Zeros(n)
  {
    var k := n;
    while k > 0
      invariant 0 <= k <= n
      invariant forall s | k <= s < n :: !z[s]
    {
      k := k - 1;
      SingleTermDot(a[k], z, k);
      assert MatVec(a, z)[k] == Dot(a[k], z);
    }
    assert forall s | 0 <= s < n :: z[s] == Zeros(n)[s];
  }

  /** A fully reduced matrix can be cancelled on the left. */
  lemma ReducedCancel(a: Mat, p: Mat, q: Mat, n: nat, w: nat)
    requires Reduced(a, n, n) && |p| == n && |q| == n && IsMatrix(p, w) && IsMatrix(q, w)
    requires MatMul(a, p, w) == MatMul(a, q, w)
    ensures p == q
  {
    forall j | 0 <= j < w ensures Column(p, j, n) == Column(q, j, n) {
      var cp := Column(p, j, n);
      var cq := Column(q, j, n);
      forall i | 0 <= i < n ensures MatVec(a, cp)[i] == MatVec(a, cq)[i] {
        MatMulEntry(a, p, w, i, j);
        MatMulEntry(a, q, w, i, j);
      }
      MatVecXor(a, cp, cq);
      XorSelf(MatVec(a, cp));
      ReducedKernel(a, n, Xor(cp, cq));
      assert forall i | 0 <= i < n :: cp[i] == cq[i] by {
        assert forall i | 0 <= i < n :: !Xor(cp, cq)[i];
      }
    }
    forall i | 0 <= i < n ensures p[i] == q[i] {
      forall j | 0 <= j < w ensures p[i][j] == q[i][j] {
        assert Column(p, j, n)[i] == Column(q, j, n)[i];
      }
    }
  }

  // ---------------------------------------------------------------------
  // Row operations on the elimination state

  /** An involutive left factor g keeps the elimination state, with einv·g the new ghost inverse. */
  lemma InvolutionKeepsState(m: Mat, e: Mat, einv: Mat, a: Mat, n: nat, g: Mat)
    requires ElimState(m, e, einv, a, n)
    requires |g| == n && IsMatrix(g, n) && MatMul(g, g, n) == Identity(n)
    ensures ElimState(m, MatMul(g, e, n), MatMul(einv, g, n), MatMul(g, a, n), n)
  {
    MatMulAssoc(g, e, m, n);
    MatMulAssoc(einv, g, MatMul(g, e, n), n);
    MatMulAssoc(g, g, e, n);
    IdentityMulLeft(e, n);
  }

  lemma SwapKeepsState(m: Mat, e: Mat, einv: Mat, a: Mat, n: nat, p: nat, k: nat)
    requires ElimState(m, e, einv, a, n) && p < n && k < n
    ensures ElimState(m, SwapRowsMat(e, p, k), MatMul(einv, SwapRowsMat(Identity(n), p, k), n),
                      SwapRowsMat(a, p, k), n)
  {
    var g := SwapRowsMat(Identity(n), p, k);
    SwapRowsIsProduct(g, p, k, n);
    SwapRowsTwice(Identity(n), p, k);
    SwapRowsIsProduct(e, p, k, n);
    SwapRowsIsProduct(a, p, k, n);
    InvolutionKeepsState(m, e, einv, a, n, g);
  }

  lemma AddKeepsState(m: Mat, e: Mat, einv: Mat, a: Mat, n: nat, dst: nat, src: nat)
    requires ElimState(m, e, einv, a, n) && dst < n && src < n && dst != src
    ensures ElimState(m, AddRowMat(e, dst, src), MatMul(einv, AddRowMat(Identity(n), dst, src), n),
                      AddRowMat(a, dst, src), n)
  {
    var g := AddRowMat(Identity(n), dst, src);
    AddRowIsProduct(g, dst, src, n);
    AddRowTwice(Identity(n), dst, src);
    AddRowIsProduct(e, dst, src, n);
    AddRowIsProduct(a, dst, src, n);
    InvolutionKeepsState(m, e, einv, a, n, g);
  }

  /** Swapping the pivot row p ≥ k into place keeps columns below k reduced. */
  lemma SwapKeepsReduced(a: Mat, n: nat, k: nat, p: nat)
    requires Reduced(a, n, k) && k <= p < n
    ensures Reduced(SwapRowsMat(a, p, k), n, k)
  {
  }

  /** Clearing column k of row i > k with the pivot row k keeps columns below k reduced. */
  lemma AddKeepsReduced(a: Mat, n: nat, k: nat, i: nat)
    requires Reduced(a, n, k) && k < i < n
    ensures Reduced(AddRowMat(a, i, k), n, k)
    ensures AddRowMat(a, i, k)[i][k] == (a[i][k] != a[k][k])
  {
    var r := AddRowMat(a, i, k);
    assert forall c | 0 <= c < k :: r[i][c] == (a[i][c] != a[k][c]);
  }

  // ---------------------------------------------------------------------
  // Outcomes

  /** Forward elimination and back substitution yield a two-sided inverse. */
  lemma InverseFromElimination(m: Mat, e: Mat, einv: Mat, a: Mat, x: Mat, n: nat)
    requires ElimState(m, e, einv, a, n) && Reduced(a, n, n)
    requires |x| == n && IsMatrix(x, n) && MatMul(a, x, n) == e
    ensures MatMul(x, m, n) == Identity(n)
    ensures MatMul(m, x, n) == Identity(n)
  {
    var p := MatMul(x, m, n);
    MatMulAssoc(a, x, m, n);
    IdentityMulRight(a, n);
    ReducedCancel(a, p, Identity(n), n, n);

    var q := MatMul(m, x, n);
    IdentityMulLeft(q, n);
    MatMulAssoc(einv, e, q, n);
    MatMulAssoc(e, m, x, n);
  }

  /**
   * A column k with no pivot at or below row k gives a kernel vector:
   * z[k] = 1, zeros after k, and rows k−1 … 0 solved by back substitution.
   */
  lemma KernelFromMissingPivot(a: Mat, n: nat, k: nat) returns (z: seq<bool>)
    requires Reduced(a, n, k) && k < n
    requires forall r | k <= r < n :: !a[r][k]
    ensures |z| == n && z[k] && MatVec(a, z) == Zeros(n)
  {
    z := Unit(n, k);
    var t := k;
    while t > 0
      invariant 0 <= t <= k && |z| == n && z[k]
      invariant forall s | 0 <= s < t :: !z[s]
      invariant forall s | k < s < n :: !z[s]
      invariant forall r | t <= r < k :: !Dot(a[r], z)
    {
      t := t - 1;
      BackSubstStep(a, n, z, t, false);
      z := z[t := Dot(z, a[t]) != false];
    }
    forall r | 0 <= r < n ensures !Dot(a[r], z) {
      if k <= r {
        SingleTermDot(a[r], z, k);
      }
    }
  }

  /** When m has a kernel vector, no matrix is a left inverse of m. */
  lemma KernelMeansNoInverse(m: Mat, n: nat, y: Mat)
    requires |m| == n && IsMatrix(m, n) && IsMatrix(y, n) && |y| == n && HasKernel(m, n)
    ensures MatMul(y, m, n) != Identity(n)
  {
    var z: seq<bool> :| |z| == n && z != Zeros(n) && MatVec(m, z) == Zeros(|m|);
    if MatMul(y, m, n) == Identity(n) {
      MatMulVec(y, m, z);
      IdentityMatVec(z);
      MatVecZeros(y, n);
      assert false;
    }
  }

  /** A missing pivot makes the original matrix singular. */
  lemma SingularFromMissingPivot(m: Mat, e: Mat, einv: Mat, a: Mat, n: nat, k: nat)
    requires ElimState(m, e, einv, a, n) && Reduced(a, n, k) && k < n
    requires forall r | k <= r < n :: !a[r][k]
    ensures HasKernel(m, n)
  {
    var z := KernelFromMissingPivot(a, n, k);
    var mz := MatVec(m, z);
    MatMulVec(e, m, z);
    MatMulVec(einv, e, mz);
    IdentityMatVec(mz);
    MatVecZeros(einv, n);
    assert z != Zeros(n) by {
      assert z[k];
    }
  }
}
