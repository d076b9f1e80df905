/**
 * Matrices over GF(2) as sequences of rows, each row a sequence of bits.
 *
 * These are the reference definitions the `BitMatrix` operations are
 * proved against: the matrix–vector product (a parity of AND-ed rows), the
 * linear combination of rows selected by a vector (`tMult`), the
 * matrix–matrix product built from it, the transpose and the identity.
 */
module Matrices {
  import opened GF2

  type Mat = seq<seq<bool>>

  /** Every row has the given number of columns. */
  predicate IsMatrix(m: Mat, width: nat)
  {
    forall i | 0 <= i < |m| :: |m[i]| == width
  }

  /** n rows of `width` zero bits. */
  function ZeroMat(n: nat, width: nat): (m: Mat)
    ensures |m| == n && IsMatrix(m, width)
    ensures forall i, j | 0 <= i < n && 0 <= j < width :: !m[i][j]
  {
    seq(n, i => Zeros(width))
  }

  /** The unit vector e_i of length n. */
  function Unit(n: nat, i: nat): (e: seq<bool>)
    ensures |e| == n
    ensures forall j | 0 <= j < n :: e[j] == (j == i)
  {
    seq(n, j => j == i)
  }

  /** The n × n identity: row i is e_i. */
  function Identity(n: nat): (m: Mat)
    ensures |m| == n && IsMatrix(m, n)
    ensures forall i, j | 0 <= i < n && 0 <= j < n :: m[i][j] == (i == j)
  {
    seq(n, i requires 0 <= i < n => Unit(n, i))
  }

  /** Bit i of M·v is the inner product of row i with v. */
  function MatVec(m: Mat, v: seq<bool>): (r: seq<bool>)
    requires IsMatrix(m, |v|)
    ensures |r| == |m|
    ensures forall i | 0 <= i < |m| :: r[i] == Dot(m[i], v)
  {
    seq(|m|, i requires 0 <= i < |m| => Dot(m[i], v))
  }

  /**
   * The XOR of the rows m[i] whose selector bit v[i] is set; only the first
   * |m| bits of v are read.  This is Mᵀ·v.
   */
  function LinComb(m: Mat, v: seq<bool>, width: nat): (r: seq<bool>)
    requires IsMatrix(m, width) && |m| <= |v|
    ensures |r| == width
  {
    if m == [] then Zeros(width)
    else if v[|m| - 1] then Xor(LinComb(m[..|m| - 1], v, width), m[|m| - 1])
    else LinComb(m[..|m| - 1], v, width)
  }

  /** Row i of A·B is the combination of B's rows selected by row i of A. */
  function MatMul(a: Mat, b: Mat, width: nat): (c: Mat)
    requires IsMatrix(a, |b|) && IsMatrix(b, width)
    ensures |c| == |a| && IsMatrix(c, width)
    ensures forall i | 0 <= i < |a| :: c[i] == LinComb(b, a[i], width)
  {
    seq(|a|, i requires 0 <= i < |a| => LinComb(b, a[i], width))
  }

  /** Entry-wise XOR. */
  function XorMat(a: Mat, b: Mat): (c: Mat)
    requires |a| == |b| && forall i | 0 <= i < |a| :: |a[i]| == |b[i]|
    ensures |c| == |a|
    ensures forall i | 0 <= i < |a| :: c[i] == Xor(a[i], b[i])
  {
    seq(|a|, i requires 0 <= i < |a| => Xor(a[i], b[i]))
  }

  /** Column j of m, padded with zero bits to `height` entries. */
  function Column(m: Mat, j: nat, height: nat): (c: seq<bool>)
    requires |m| <= height && forall i | 0 <= i < |m| :: j < |m[i]|
    ensures |c| == height
    ensures forall i | 0 <= i < height :: c[i] == (i < |m| && m[i][j])
  {
    seq(height, i requires 0 <= i < height => i < |m| && m[i][j])
  }

  /**
   * The transpose of an n × width matrix, as a width × height matrix whose
   * columns beyond n are zero (height >= n is the transposed row length).
   */
  function Transpose(m: Mat, width: nat, height: nat): (t: Mat)
    requires IsMatrix(m, width) && |m| <= height
    ensures |t| == width && IsMatrix(t, height)
    ensures forall j, i | 0 <= j < width && 0 <= i < height :: t[j][i] == (i < |m| && m[i][j])
  {
    seq(width, j requires 0 <= j < width => Column(m, j, height))
  }

  /** The block product A[·, c0..c0+k) · B[r0..r0+k): `pMult`. */
  function BlockMul(a: Mat, b: Mat, c0: nat, r0: nat, k: nat, width: nat): (c: Mat)
    requires forall i | 0 <= i < |a| :: c0 + k <= |a[i]|
    requires r0 + k <= |b| && IsMatrix(b, width)
    ensures |c| == |a| && IsMatrix(c, width)
  {
    seq(|a|, i requires 0 <= i < |a| => LinComb(b[r0..r0 + k], a[i][c0..c0 + k], width))
  }

  /** Rows k < i whose bit j is set have r XORed in; the others are unchanged. */
  function XorSelectedRows(m: Mat, a: Mat, j: nat, r: seq<bool>, i: nat): (t: Mat)
    requires |m| == |a| && i <= |a| && forall k | 0 <= k < |a| :: j < |a[k]| && |m[k]| == |r|
    ensures |t| == |m|
  {
    seq(|m|, k requires 0 <= k < |m| => if k < i && a[k][j] then Xor(m[k], r) else m[k])
  }

  /** One more column of the block: each row whose bit j is set picks up row r0 + (j − c0) of b. */
  lemma BlockMulColumnStep(a: Mat, b: Mat, c0: nat, r0: nat, j: nat, w: nat)
    requires c0 <= j && r0 + (j - c0) < |b| && IsMatrix(b, w)
    requires forall k | 0 <= k < |a| :: j < |a[k]|
    ensures XorSelectedRows(BlockMul(a, b, c0, r0, j - c0, w), a, j, b[r0 + (j - c0)], |a|) ==
      BlockMul(a, b, c0, r0, j - c0 + 1, w)
  {
    var sub := b[r0..r0 + (j - c0) + 1];
    assert sub[..|sub| - 1] == b[r0..r0 + (j - c0)];
    forall k | 0 <= k < |a|
      ensures BlockMul(a, b, c0, r0, j - c0 + 1, w)[k] ==
        if a[k][j] then Xor(BlockMul(a, b, c0, r0, j - c0, w)[k], b[r0 + (j - c0)])
        else BlockMul(a, b, c0, r0, j - c0, w)[k]
    {
      var sel := a[k][c0..j + 1];
      assert sel[..j - c0] == a[k][c0..j];
      LinCombPrefix(sub[..|sub| - 1], sel, a[k][c0..j], w);
    }
  }

  /** The matrix is square, with ones exactly on its diagonal. */
  predicate IsIdentityMat(m: Mat, width: nat)
    requires IsMatrix(m, width)
  {
    |m| == width && forall i, j | 0 <= i < |m| && 0 <= j < width :: m[i][j] == (i == j)
  }

  // ---------------------------------------------------------------------
  // Linear combinations

  /** Selectors agreeing on the first |m| bits select the same combination. */
  lemma {:induction false} LinCombPrefix(m: Mat, v: seq<bool>, u: seq<bool>, width: nat)
    requires IsMatrix(m, width) && |m| <= |v| && |m| <= |u|
    requires v[..|m|] == u[..|m|]
    ensures LinComb(m, v, width) == LinComb(m, u, width)
  {
    if m != [] {
      var n := |m| - 1;
      assert v[n] == v[..|m|][n] && u[n] == u[..|m|][n];
      assert v[..n] == v[..|m|][..n] && u[..n] == u[..|m|][..n];
      LinCombPrefix(m[..n], v, u, width);
    }
  }

  /** Bit j of a combination is the parity of the selected bits of column j. */
  lemma {:induction false} LinCombBit(m: Mat, v: seq<bool>, width: nat, j: nat)
    requires IsMatrix(m, width) && |m| <= |v| && j < width
    ensures LinComb(m, v, width)[j] == Parity(seq(|m|, i requires 0 <= i < |m| => v[i] && m[i][j]))
  {
    var s := seq(|m|, i requires 0 <= i < |m| => v[i] && m[i][j]);
    if m != [] {
      var n := |m| - 1;
      LinCombBit(m[..n], v, width, j);
      assert s[..n] == seq(n, i requires 0 <= i < n => v[i] && m[..n][i][j]);
    }
  }

  /** `tMult`: the combination of rows selected by v is Mᵀ·v. */
  lemma LinCombIsTransposeProduct(m: Mat, v: seq<bool>, width: nat)
    requires IsMatrix(m, width) && |m| <= |v|
    ensures LinComb(m, v, width) == MatVec(Transpose(m, width, |v|), v)
  {
    var t := Transpose(m, width, |v|);
    forall j | 0 <= j < width
      ensures LinComb(m, v, width)[j] == Dot(t[j], v)
    {
      LinCombBit(m, v, width, j);
      var s := seq(|m|, i requires 0 <= i < |m| => v[i] && m[i][j]);
      assert And(t[j], v) == s + Zeros(|v| - |m|);
      ParityAppend(s, Zeros(|v| - |m|));
      ParityZeros(|v| - |m|);
    }
  }

  /** Combining with the XOR of two selectors is the XOR of the combinations. */
  lemma {:induction false} LinCombXorSelector(m: Mat, u: seq<bool>, v: seq<bool>, width: nat)
    requires IsMatrix(m, width) && |m| <= |u| == |v|
    ensures LinComb(m, Xor(u, v), width) == Xor(LinComb(m, u, width), LinComb(m, v, width))
  {
    if m == [] {
      ZeroLaws(Zeros(width));
    } else {
      LinCombXorSelector(m[..|m| - 1], u, v, width);
    }
  }

  /** The inner product of a combination with v is the selector's inner product with M·v. */
  lemma {:induction false} DotLinComb(b: Mat, a: seq<bool>, v: seq<bool>)
    requires IsMatrix(b, |v|) && |a| == |b|
    ensures Dot(LinComb(b, a, |v|), v) == Dot(a, MatVec(b, v))
  {
    if b == [] {
      DotZeros(v);
    } else {
      var n := |b| - 1;
      var bi := b[..n];
      assert a[..n][..|bi|] == a[..|bi|];
      LinCombPrefix(bi, a[..n], a, |v|);
      DotLinComb(bi, a[..n], v);
      assert MatVec(b, v)[..n] == MatVec(bi, v);
      DotPrefix(a, MatVec(b, v), n);
      assert a[..n + 1] == a && MatVec(b, v)[..n + 1] == MatVec(b, v);
      if a[n] {
        DotXor(LinComb(bi, a, |v|), b[n], v);
      }
    }
  }

  /** (A·B)·v = A·(B·v). */
  lemma MatMulVec(a: Mat, b: Mat, v: seq<bool>)
    requires IsMatrix(a, |b|) && IsMatrix(b, |v|)
    ensures MatVec(MatMul(a, b, |v|), v) == MatVec(a, MatVec(b, v))
  {
    forall i | 0 <= i < |a|
      ensures Dot(MatMul(a, b, |v|)[i], v) == Dot(a[i], MatVec(b, v))
    {
      DotLinComb(b, a[i], v);
    }
  }

  // ---------------------------------------------------------------------
  // The identity

  /** The unit vector e_i selects row i. */
  lemma {:induction false} LinCombUnit(m: Mat, i: nat, width: nat)
    requires IsMatrix(m, width) && i < |m|
    ensures LinComb(m, Unit(|m|, i), width) == m[i]
  {
    var n := |m| - 1;
    var e := Unit(|m|, i);
    if i < n {
      LinCombUnit(m[..n], i, width);
      assert e[..n] == Unit(n, i);
      LinCombPrefix(m[..n], e, Unit(n, i), width);
    } else {
      LinCombZeroSelector(m[..n], e, width);
      ZeroLaws(m[n]);
    }
  }

  /** A selector with no bit set among the first |m| selects nothing. */
  lemma {:induction false} LinCombZeroSelector(m: Mat, v: seq<bool>, width: nat)
    requires IsMatrix(m, width) && |m| <= |v|
    requires forall i | 0 <= i < |m| :: !v[i]
    ensures LinComb(m, v, width) == Zeros(width)
  {
    if m != [] {
      LinCombZeroSelector(m[..|m| - 1], v, width);
    }
  }

  /** Row selection by the identity: I·B = B. */
  lemma IdentityMulLeft(b: Mat, width: nat)
    requires IsMatrix(b, width)
    ensures MatMul(Identity(|b|), b, width) == b
  {
    forall i | 0 <= i < |b| ensures LinComb(b, Unit(|b|, i), width) == b[i] {
      LinCombUnit(b, i, width);
    }
  }

  /** The inner product with e_i reads bit i. */
  lemma DotUnit(i: nat, v: seq<bool>)
    requires i < |v|
    ensures Dot(Unit(|v|, i), v) == v[i]
  {
    var s := And(Unit(|v|, i), v);
    assert s == Zeros(i) + [v[i]] + Zeros(|v| - i - 1);
    ParityAppend(Zeros(i) + [v[i]], Zeros(|v| - i - 1));
    ParityAppend(Zeros(i), [v[i]]);
    ParityZeros(i);
    ParityZeros(|v| - i - 1);
    assert [v[i]][..0] == [];
  }

  /** I·v = v. */
  lemma IdentityMatVec(v: seq<bool>)
    ensures MatVec(Identity(|v|), v) == v
  {
    forall i | 0 <= i < |v| ensures Dot(Unit(|v|, i), v) == v[i] {
      DotUnit(i, v);
    }
  }

  /** The identity passes the identity test, and only a square matrix can. */
  lemma IdentityIsIdentity(n: nat)
    ensures IsIdentityMat(Identity(n), n)
  {
  }

  // ---------------------------------------------------------------------
  // Transpose

  /** Transposing twice gives back a matrix whose row count is the padded height. */
  lemma TransposeTwice(m: Mat, width: nat)
    requires IsMatrix(m, width)
    ensures Transpose(Transpose(m, width, |m|), |m|, width) == m
  {
    var t := Transpose(Transpose(m, width, |m|), |m|, width);
    forall i | 0 <= i < |m| ensures t[i] == m[i] {
      assert forall j | 0 <= j < width :: t[i][j] == m[i][j];
    }
  }

  /** Combining the rows of Mᵀ selected by x is M·x. */
  lemma LinCombOfTranspose(m: Mat, x: seq<bool>)
    requires IsMatrix(m, |x|)
    ensures LinComb(Transpose(m, |x|, |m|), x, |m|) == MatVec(m, x)
  {
    LinCombIsTransposeProduct(Transpose(m, |x|, |m|), x, |m|);
    TransposeTwice(m, |x|);
  }

  // ---------------------------------------------------------------------
  // Block structure and elementary row operations

  /** Row-wise concatenation: row i is a's row i followed by b's row i (`augH`). */
  function ConcatCols(a: Mat, b: Mat): (c: Mat)
    requires |a| <= |b|
    ensures |c| == |a|
    ensures forall i | 0 <= i < |a| :: c[i] == a[i] + b[i]
  {
    seq(|a|, i requires 0 <= i < |a| => a[i] + b[i])
  }

  /** Columns [lo, hi) of every row. */
  function SliceCols(m: Mat, lo: nat, hi: nat): (c: Mat)
    requires lo <= hi && forall i | 0 <= i < |m| :: hi <= |m[i]|
    ensures |c| == |m| && IsMatrix(c, hi - lo)
    ensures forall i | 0 <= i < |m| :: c[i] == m[i][lo..hi]
  {
    seq(|m|, i requires 0 <= i < |m| => m[i][lo..hi])
  }

  /** `addRow(dst, src)`: row dst becomes row dst XOR row src. */
  function AddRowMat(m: Mat, dst: nat, src: nat): (r: Mat)
    requires dst < |m| && src < |m| && |m[dst]| == |m[src]|
    ensures |r| == |m|
  {
    m[dst := Xor(m[dst], m[src])]
  }

  /** `swapRows(a, b)`: rows a and b exchanged. */
  function SwapRowsMat(m: Mat, a: nat, b: nat): (r: Mat)
    requires a < |m| && b < |m|
    ensures |r| == |m|
  {
    m[a := m[b]][b := m[a]]
  }

  /** Splitting a vertical augmentation of two equal-height blocks gives them back. */
  lemma SplitAugV(a: Mat, b: Mat)
    requires |a| == |b|
    ensures (a + b)[0 * (|a + b| / 2)..1 * (|a + b| / 2)] == a
    ensures (a + b)[1 * (|a + b| / 2)..2 * (|a + b| / 2)] == b
  {
    assert |a + b| / 2 == |a|;
  }

  /** Splitting a horizontal augmentation of two equal-width blocks gives them back. */
  lemma SplitAugH(a: Mat, b: Mat, width: nat)
    requires IsMatrix(a, width) && IsMatrix(b, width) && |a| == |b|
    ensures SliceCols(ConcatCols(a, b), 0, width) == a
    ensures SliceCols(ConcatCols(a, b), width, 2 * width) == b
  {
    var c := ConcatCols(a, b);
    assert forall i | 0 <= i < |a| :: c[i][0..width] == a[i] && c[i][width..2 * width] == b[i];
  }

  /** Adding the same row twice restores the matrix. */
  lemma AddRowTwice(m: Mat, dst: nat, src: nat)
    requires dst < |m| && src < |m| && dst != src && |m[dst]| == |m[src]|
    ensures AddRowMat(AddRowMat(m, dst, src), dst, src) == m
  {
    var r := AddRowMat(m, dst, src);
    assert Xor(r[dst], r[src]) == m[dst];
  }

  /** Swapping the same rows twice restores the matrix. */
  lemma SwapRowsTwice(m: Mat, a: nat, b: nat)
    requires a < |m| && b < |m|
    ensures SwapRowsMat(SwapRowsMat(m, a, b), a, b) == m
  {
  }

  /** A row addition is the left product with the same operation applied to the identity. */
  lemma AddRowIsProduct(m: Mat, dst: nat, src: nat, width: nat)
    requires IsMatrix(m, width) && dst < |m| && src < |m|
    ensures AddRowMat(m, dst, src) == MatMul(AddRowMat(Identity(|m|), dst, src), m, width)
  {
    var e := AddRowMat(Identity(|m|), dst, src);
    forall i | 0 <= i < |m| ensures AddRowMat(m, dst, src)[i] == LinComb(m, e[i], width) {
      LinCombUnit(m, i, width);
      if i == dst {
        LinCombUnit(m, src, width);
        LinCombXorSelector(m, Unit(|m|, dst), Unit(|m|, src), width);
      }
    }
  }

  /** A row swap is the left product with the swapped identity. */
  lemma SwapRowsIsProduct(m: Mat, a: nat, b: nat, width: nat)
    requires IsMatrix(m, width) && a < |m| && b < |m|
    ensures SwapRowsMat(m, a, b) == MatMul(SwapRowsMat(Identity(|m|), a, b), m, width)
  {
    var e := SwapRowsMat(Identity(|m|), a, b);
    forall i | 0 <= i < |m| ensures SwapRowsMat(m, a, b)[i] == LinComb(m, e[i], width) {
      LinCombUnit(m, i, width);
      LinCombUnit(m, a, width);
      LinCombUnit(m, b, width);
    }
  }

  /** Column c replaced by v in the first |v| rows. */
  function SetColumn(m: Mat, c: nat, v: seq<bool>): (r: Mat)
    requires |v| <= |m| && forall i | 0 <= i < |m| :: c < |m[i]|
    ensures |r| == |m|
    ensures forall i | 0 <= i < |m| :: |r[i]| == |m[i]|
  {
    seq(|m|, i requires 0 <= i < |m| => if i < |v| then m[i][c := v[i]] else m[i])
  }

  /** Reading column c back after writing v there gives v; every other column is unchanged. */
  lemma ColumnOfSetColumn(m: Mat, c: nat, v: seq<bool>, width: nat)
    requires IsMatrix(m, width) && |v| == |m| && c < width
    ensures Column(SetColumn(m, c, v), c, |m|) == v
    ensures forall d | 0 <= d < width && d != c ::
      Column(SetColumn(m, c, v), d, |m|) == Column(m, d, |m|)
  {
    var r := SetColumn(m, c, v);
    assert forall i | 0 <= i < |m| :: r[i] == m[i][c := v[i]];
  }
}
