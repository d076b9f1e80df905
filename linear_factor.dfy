/**
 * The client-side V2 polynomials: `LinearFactorPoly<ROWS, COLS, MON>`, a
 * product of MON linear factors, and `SecretPolynomial<ROWS, COLS, MON>`,
 * a constant plus such a product.
 *
 * Each factor is a ROWS × COLS matrix F, and its value at v is `F.tMult(v)`,
 * the XOR of the rows v selects.  Output bit j of the product is the AND,
 * over the factors, of bit j of those values.  The factors live in a
 * fixed-size array; `tMult`, `transpose`, `augH` and `augV` of the V2
 * `BitMatrix<R, C>` are the row-sequence operations of module Matrices.
 */
module LinearFactors {
  import opened GF2
  import opened Matrices
  import opened QuadLayout
  import opened Elimination

  /** Every factor is a rows × cols matrix. */
  predicate FactorsShape(fs: seq<Mat>, rows: nat, cols: nat)
  {
    forall k | 0 <= k < |fs| :: |fs[k]| == rows && IsMatrix(fs[k], cols)
  }

  /**
   * The value of the factors at v: all ones ANDed with each factor's
   * `tMult(v)` in turn.  Bit j is set iff every factor's linear form j is 1
   * at v.
   */
  function FactorsValue(fs: seq<Mat>, v: seq<bool>, cols: nat): (r: seq<bool>)
    requires FactorsShape(fs, |v|, cols)
    ensures |r| == cols
    ensures forall j | 0 <= j < cols :: r[j] == (forall k | 0 <= k < |fs| :: LinComb(fs[k], v, cols)[j])
  {
    if fs == [] then Ones(cols)
    else And(FactorsValue(fs[..|fs| - 1], v, cols), LinComb(fs[|fs| - 1], v, cols))
  }

  /** The value of a secret polynomial: the constant XOR the product of its factors. */
  function SecretValue(c: seq<bool>, fs: seq<Mat>, v: seq<bool>): (r: seq<bool>)
    requires FactorsShape(fs, |v|, |c|)
    ensures |r| == |c|
  {
    Xor(c, FactorsValue(fs, v, |c|))
  }

  /** MON zero factors. */
  function ZeroFactors(mon: nat, rows: nat, cols: nat): (fs: seq<Mat>)
    ensures |fs| == mon && FactorsShape(fs, rows, cols)
  {
    seq(mon, k => ZeroMat(rows, cols))
  }

  /** `zero()` is the zero polynomial when there is at least one factor. */
  lemma ZeroFactorsValue(mon: nat, cols: nat, v: seq<bool>)
    requires 0 < mon
    ensures FactorsValue(ZeroFactors(mon, |v|, cols), v, cols) == Zeros(cols)
    ensures SecretValue(Zeros(cols), ZeroFactors(mon, |v|, cols), v) == Zeros(cols)
  {
    var z := ZeroMat(|v|, cols);
    LinCombZeroRows(|v|, v, cols);
    assert LinComb(ZeroFactors(mon, |v|, cols)[0], v, cols) == Zeros(cols);
    ZeroLaws(Zeros(cols));
  }

  /** `operator*(K)`: factor i becomes Kᵀ · F_i. */
  function MulFactors(fs: seq<Mat>, k: Mat, rows2: nat, cols: nat): (r: seq<Mat>)
    requires FactorsShape(fs, |k|, cols) && IsMatrix(k, rows2)
    ensures |r| == |fs| && FactorsShape(r, rows2, cols)
    ensures forall i | 0 <= i < |fs| :: r[i] == MatMul(Transpose(k, rows2, |k|), fs[i], cols)
  {
    seq(|fs|, i requires 0 <= i < |fs| => MatMul(Transpose(k, rows2, |k|), fs[i], cols))
  }

  /** One factor of f·K at v is that factor of f at K·v. */
  lemma FactorMulValue(f: Mat, k: Mat, v: seq<bool>, cols: nat)
    requires |f| == |k| && IsMatrix(f, cols) && IsMatrix(k, |v|)
    ensures LinComb(MatMul(Transpose(k, |v|, |k|), f, cols), v, cols) == LinComb(f, MatVec(k, v), cols)
  {
    var kt := Transpose(k, |v|, |k|);
    LinCombCompose(kt, f, v, cols);
    LinCombOfTranspose(k, v);
  }

  /** (f·K)(v) = f(K·v): composing with a linear map on the inputs. */
  lemma MulFactorsValue(c: seq<bool>, fs: seq<Mat>, k: Mat, v: seq<bool>)
    requires FactorsShape(fs, |k|, |c|) && IsMatrix(k, |v|)
    ensures FactorsValue(MulFactors(fs, k, |v|, |c|), v, |c|) == FactorsValue(fs, MatVec(k, v), |c|)
    ensures SecretValue(c, MulFactors(fs, k, |v|, |c|), v) == SecretValue(c, fs, MatVec(k, v))
  {
    var g := MulFactors(fs, k, |v|, |c|);
    forall i | 0 <= i < |fs| ensures LinComb(g[i], v, |c|) == LinComb(fs[i], MatVec(k, v), |c|) {
      FactorMulValue(fs[i], k, v, |c|);
    }
  }

  /** `stackCols(Gtop, Gbot)`: factor i is `augH` of the two factors i. */
  function ConcatFactors(a: seq<Mat>, b: seq<Mat>): (r: seq<Mat>)
    requires |a| == |b| && forall i | 0 <= i < |a| :: |a[i]| == |b[i]|
    ensures |r| == |a|
    ensures forall i | 0 <= i < |a| :: r[i] == ConcatCols(a[i], b[i])
  {
    seq(|a|, i requires 0 <= i < |a| => ConcatCols(a[i], b[i]))
  }

  /** AND of three concatenations, block by block. */
  lemma AndConcat3(p1: seq<bool>, p2: seq<bool>, p3: seq<bool>, l1: seq<bool>, l2: seq<bool>, l3: seq<bool>)
    requires |p1| == |l1| && |p2| == |l2| && |p3| == |l3|
    ensures And(p1 + p2 + p3, l1 + l2 + l3) == And(p1, l1) + And(p2, l2) + And(p3, l3)
  {
  }

  /**
   * When factor k of g takes, at v, the value of a's factor k at u1 beside
   * b's factor k at u2, the product of g is the two products side by side.
   */
  lemma {:induction false} ProductSideBySide(g: seq<Mat>, a: seq<Mat>, b: seq<Mat>, v: seq<bool>,
                                             u1: seq<bool>, u2: seq<bool>, wa: nat, wb: nat)
    requires FactorsShape(g, |v|, wa + wb) && FactorsShape(a, |u1|, wa) && FactorsShape(b, |u2|, wb)
    requires |g| == |a| == |b|
    requires forall k | 0 <= k < |g| :: LinComb(g[k], v, wa + wb) == LinComb(a[k], u1, wa) + LinComb(b[k], u2, wb)
    ensures FactorsValue(g, v, wa + wb) == FactorsValue(a, u1, wa) + FactorsValue(b, u2, wb)
  {
    if g == [] {
      assert Ones(wa + wb) == Ones(wa) + Ones(wb);
    } else {
      var n := |g| - 1;
      ProductSideBySide(g[..n], a[..n], b[..n], v, u1, u2, wa, wb);
      var pa, pb := FactorsValue(a[..n], u1, wa), FactorsValue(b[..n], u2, wb);
      var la, lb := LinComb(a[n], u1, wa), LinComb(b[n], u2, wb);
      assert And(pa + pb, la + lb) == And(pa, la) + And(pb, lb);
    }
  }

  /** The three-block form of ProductSideBySide. */
  lemma {:induction false} ProductSideBySide3(g: seq<Mat>, a: seq<Mat>, b: seq<Mat>, c: seq<Mat>, v: seq<bool>,
                                              u1: seq<bool>, u2: seq<bool>, u3: seq<bool>, wa: nat, wb: nat, wc: nat)
    requires FactorsShape(g, |v|, wa + wb + wc)
    requires FactorsShape(a, |u1|, wa) && FactorsShape(b, |u2|, wb) && FactorsShape(c, |u3|, wc)
    requires |g| == |a| == |b| == |c|
    requires forall k | 0 <= k < |g| ::
      LinComb(g[k], v, wa + wb + wc) == LinComb(a[k], u1, wa) + LinComb(b[k], u2, wb) + LinComb(c[k], u3, wc)
    ensures FactorsValue(g, v, wa + wb + wc) == FactorsValue(a, u1, wa) + FactorsValue(b, u2, wb) + FactorsValue(c, u3, wc)
  {
    if g == [] {
      assert Ones(wa + wb + wc) == Ones(wa) + Ones(wb) + Ones(wc);
    } else {
      var n := |g| - 1;
      ProductSideBySide3(g[..n], a[..n], b[..n], c[..n], v, u1, u2, u3, wa, wb, wc);
      AndConcat3(FactorsValue(a[..n], u1, wa), FactorsValue(b[..n], u2, wb), FactorsValue(c[..n], u3, wc),
                 LinComb(a[n], u1, wa), LinComb(b[n], u2, wb), LinComb(c[n], u3, wc));
    }
  }

  /** stackCols(f, g)(v) = f(v) ‖ g(v) for the products of the factors. */
  lemma ConcatFactorsValue(a: seq<Mat>, b: seq<Mat>, v: seq<bool>, wa: nat, wb: nat)
    requires FactorsShape(a, |v|, wa) && FactorsShape(b, |v|, wb) && |a| == |b|
    ensures FactorsShape(ConcatFactors(a, b), |v|, wa + wb)
    ensures FactorsValue(ConcatFactors(a, b), v, wa + wb) == FactorsValue(a, v, wa) + FactorsValue(b, v, wb)
  {
    var g := ConcatFactors(a, b);
    forall i | 0 <= i < |a|
      ensures IsMatrix(g[i], wa + wb) && LinComb(g[i], v, wa + wb) == LinComb(a[i], v, wa) + LinComb(b[i], v, wb)
    {
      LinCombConcatCols(a[i], b[i], v, wa, wb);
    }
    ProductSideBySide(g, a, b, v, v, v, wa, wb);
  }

  /** stackCols(f, g)(v) = f(v) ‖ g(v), constants included. */
  lemma SecretConcatValue(c1: seq<bool>, c2: seq<bool>, a: seq<Mat>, b: seq<Mat>, v: seq<bool>)
    requires FactorsShape(a, |v|, |c1|) && FactorsShape(b, |v|, |c2|) && |a| == |b|
    ensures FactorsShape(ConcatFactors(a, b), |v|, |c1| + |c2|)
    ensures SecretValue(c1 + c2, ConcatFactors(a, b), v) == SecretValue(c1, a, v) + SecretValue(c2, b, v)
  {
    var g := ConcatFactors(a, b);
    ConcatFactorsValue(a, b, v, |c1|, |c2|);
    assert FactorsValue(g, v, |c1 + c2|) == FactorsValue(g, v, |c1| + |c2|);
    XorConcat(c1, c2, FactorsValue(a, v, |c1|), FactorsValue(b, v, |c2|));
  }

  /** `stackRows(Gtop, Gbot)`: factor i is `augV` of the two factors i. */
  function StackFactors(a: seq<Mat>, b: seq<Mat>): (r: seq<Mat>)
    requires |a| == |b|
    ensures |r| == |a|
    ensures forall i | 0 <= i < |a| :: r[i] == a[i] + b[i]
  {
    seq(|a|, i requires 0 <= i < |a| => a[i] + b[i])
  }

  /** A stacked factor at u ‖ v is the XOR of the two factors at u and at v. */
  lemma StackedFactorValue(a: Mat, b: Mat, u: seq<bool>, v: seq<bool>, cols: nat)
    requires |a| == |u| && |b| == |v| && IsMatrix(a, cols) && IsMatrix(b, cols)
    ensures LinComb(a + b, u + v, cols) == Xor(LinComb(a, u, cols), LinComb(b, v, cols))
  {
    var c, s := a + b, u + v;
    LinCombSplit(c, s, |a|, |c|, cols);
    assert c[..|c|] == c && c[..|a|] == a && c[|a|..|c|] == b && s[|a|..|c|] == v;
    assert s[..|a|] == u;
    LinCombPrefix(a, s, u, cols);
  }

  /**
   * stackRows(f, g) at u ‖ v: bit j is the AND over the factors k of
   * (f_k's form j at u) XOR (g_k's form j at v), a product of sums.
   */
  lemma StackFactorsValue(a: seq<Mat>, b: seq<Mat>, u: seq<bool>, v: seq<bool>, cols: nat)
    requires FactorsShape(a, |u|, cols) && FactorsShape(b, |v|, cols) && |a| == |b|
    ensures FactorsShape(StackFactors(a, b), |u| + |v|, cols)
    ensures forall j | 0 <= j < cols ::
      FactorsValue(StackFactors(a, b), u + v, cols)[j] ==
      (forall k | 0 <= k < |a| :: LinComb(a[k], u, cols)[j] != LinComb(b[k], v, cols)[j])
  {
    forall k | 0 <= k < |a|
      ensures LinComb(StackFactors(a, b)[k], u + v, cols) == Xor(LinComb(a[k], u, cols), LinComb(b[k], v, cols))
    {
      StackedFactorValue(a[k], b[k], u, v, cols);
    }
  }

  /** With a single factor, stackRows(f, g)(u ‖ v) = f(u) XOR g(v). */
  lemma StackRowsOneFactor(c1: seq<bool>, c2: seq<bool>, a: Mat, b: Mat, u: seq<bool>, v: seq<bool>)
    requires |c1| == |c2| && |a| == |u| && |b| == |v| && IsMatrix(a, |c1|) && IsMatrix(b, |c1|)
    ensures FactorsShape(StackFactors([a], [b]), |u| + |v|, |c1|)
    ensures SecretValue(Xor(c1, c2), StackFactors([a], [b]), u + v) ==
      Xor(SecretValue(c1, [a], u), SecretValue(c2, [b], v))
  {
    var w := |c1|;
    StackFactorsValue([a], [b], u, v, w);
    var p, q := LinComb(a, u, w), LinComb(b, v, w);
    assert FactorsValue([a], u, w) == p;
    assert FactorsValue([b], v, w) == q;
    assert FactorsValue(StackFactors([a], [b]), u + v, w) == Xor(p, q);
  }

  /**
   * With two factors the sum does not split: for f = x·x and g = y·0 (one
   * input and one output each, zero constants) stackRows(f, g) at
   * (1, 1) is (1 + 1)·(1 + 0) = 0, while f(1) XOR g(1) is 1.
   */
  lemma StackRowsTwoFactors(one: Mat, zero: Mat, x: seq<bool>)
    requires one == [[true]] && zero == [[false]] && x == [true]
    ensures FactorsShape([one, one], 1, 1) && FactorsShape([one, zero], 1, 1)
    ensures SecretValue([false], StackFactors([one, one], [one, zero]), x + x) == [false]
    ensures Xor(SecretValue([false], [one, one], x), SecretValue([false], [one, zero], x)) == [true]
  {
    assert LinComb(one, x, 1) == [true] by {
      assert one[..0] == [];
    }
    assert LinComb(zero, x, 1) == [false] by {
      assert zero[..0] == [];
    }
    StackFactorsValue([one, one], [one, zero], x, x, 1);
    var st := FactorsValue(StackFactors([one, one], [one, zero]), x + x, 1);
    assert LinComb([one, one][0], x, 1)[0] == LinComb([one, zero][0], x, 1)[0];
    assert !st[0];
    var p, q := FactorsValue([one, one], x, 1), FactorsValue([one, zero], x, 1);
    assert p[0] && !q[0];
  }

  /** Three-argument `stackCols`: factor i is `augH` of the three factors i. */
  function Concat3Factors(a: seq<Mat>, b: seq<Mat>, c: seq<Mat>): (r: seq<Mat>)
    requires |a| == |b| == |c| && forall i | 0 <= i < |a| :: |a[i]| == |b[i]| == |c[i]|
    ensures |r| == |a|
    ensures forall i | 0 <= i < |a| :: r[i] == ConcatCols(ConcatCols(a[i], b[i]), c[i])
  {
    seq(|a|, i requires 0 <= i < |a| => ConcatCols(ConcatCols(a[i], b[i]), c[i]))
  }

  /** Three-argument `stackRows`: factor i is `augV` of the three factors i. */
  function Stack3Factors(a: seq<Mat>, b: seq<Mat>, c: seq<Mat>): (r: seq<Mat>)
    requires |a| == |b| == |c|
    ensures |r| == |a|
    ensures forall i | 0 <= i < |a| :: r[i] == a[i] + b[i] + c[i]
  {
    seq(|a|, i requires 0 <= i < |a| => a[i] + b[i] + c[i])
  }

  /**
   * `expand2(f, index)`: every factor gets a zero block of its own width,
   * on the right when index is 0 and on the left otherwise.
   */
  function Expand2Factors(fs: seq<Mat>, rows: nat, cols1: nat, index: nat): (r: seq<Mat>)
    requires FactorsShape(fs, rows, cols1)
    ensures |r| == |fs| && FactorsShape(r, rows, 2 * cols1)
  {
    var z := ZeroFactors(|fs|, rows, cols1);
    if index == 0 then ConcatFactors(fs, z) else ConcatFactors(z, fs)
  }

  /**
   * `expand3(f, index)`: every factor in block `index` (0, 1, or 2 for any
   * other value) of three, the other two blocks zero.
   */
  function Expand3Factors(fs: seq<Mat>, rows: nat, cols1: nat, index: nat): (r: seq<Mat>)
    requires FactorsShape(fs, rows, cols1)
    ensures |r| == |fs| && FactorsShape(r, rows, 3 * cols1)
  {
    var z := ZeroFactors(|fs|, rows, cols1);
    var z2 := ZeroFactors(|fs|, rows, cols1 + cols1);
    if index == 0 then ConcatFactors(fs, z2)
    else if index == 1 then Concat3Factors(z, fs, z)
    else ConcatFactors(z2, fs)
  }

  /** `getUnaryF(f)`: expand2(f, 0) stacked on expand2(f, 1), [f | 0] over [0 | f]. */
  function UnaryFactors(fs: seq<Mat>, rows1: nat, cols1: nat): (r: seq<Mat>)
    requires FactorsShape(fs, rows1, cols1)
    ensures |r| == |fs| && FactorsShape(r, 2 * rows1, 2 * cols1)
  {
    StackFactors(Expand2Factors(fs, rows1, cols1, 0), Expand2Factors(fs, rows1, cols1, 1))
  }

  /** `getBinaryF(f)`: expand3(f, 0), expand3(f, 1) and expand3(f, 2) stacked. */
  function BinaryFactors(fs: seq<Mat>, rows1: nat, cols1: nat): (r: seq<Mat>)
    requires FactorsShape(fs, rows1, cols1)
    ensures |r| == |fs| && FactorsShape(r, 3 * rows1, 3 * cols1)
  {
    Stack3Factors(Expand3Factors(fs, rows1, cols1, 0), Expand3Factors(fs, rows1, cols1, 1),
                  Expand3Factors(fs, rows1, cols1, 2))
  }

  /** A factor beside a zero block: its value beside zeros. */
  lemma PaddedFactorValue(f: Mat, u: seq<bool>, cols1: nat, pad: nat)
    requires |f| == |u| && IsMatrix(f, cols1)
    ensures LinComb(ConcatCols(f, ZeroMat(|f|, pad)), u, cols1 + pad) == LinComb(f, u, cols1) + Zeros(pad)
    ensures LinComb(ConcatCols(ZeroMat(|f|, pad), f), u, pad + cols1) == Zeros(pad) + LinComb(f, u, cols1)
  {
    LinCombConcatCols(f, ZeroMat(|f|, pad), u, cols1, pad);
    LinCombConcatCols(ZeroMat(|f|, pad), f, u, pad, cols1);
    LinCombZeroRows(|f|, u, pad);
  }

  /** One factor of getUnaryF(f) at u1 ‖ u2 is that factor of f at u1 beside the same at u2. */
  lemma UnaryFactorValue(f: Mat, u1: seq<bool>, u2: seq<bool>, cols1: nat)
    requires |f| == |u1| == |u2| && IsMatrix(f, cols1)
    ensures LinComb(ConcatCols(f, ZeroMat(|f|, cols1)) + ConcatCols(ZeroMat(|f|, cols1), f), u1 + u2, cols1 + cols1) ==
      LinComb(f, u1, cols1) + LinComb(f, u2, cols1)
  {
    var z := ZeroMat(|f|, cols1);
    PaddedFactorValue(f, u1, cols1, cols1);
    PaddedFactorValue(f, u2, cols1, cols1);
    StackedFactorValue(ConcatCols(f, z), ConcatCols(z, f), u1, u2, cols1 + cols1);
    var p, q := LinComb(f, u1, cols1), LinComb(f, u2, cols1);
    XorConcat(p, Zeros(cols1), Zeros(cols1), q);
    ZeroLaws(p);
    ZeroLaws(q);
  }

  /** getUnaryF(f)(u1 ‖ u2) = f(u1) ‖ f(u2), for the products of the factors. */
  lemma UnaryFactorsValue(fs: seq<Mat>, u1: seq<bool>, u2: seq<bool>, cols1: nat)
    requires FactorsShape(fs, |u1|, cols1) && |u1| == |u2|
    ensures FactorsValue(UnaryFactors(fs, |u1|, cols1), u1 + u2, cols1 + cols1) ==
      FactorsValue(fs, u1, cols1) + FactorsValue(fs, u2, cols1)
  {
    var g := UnaryFactors(fs, |u1|, cols1);
    var z := ZeroMat(|u1|, cols1);
    forall k | 0 <= k < |fs|
      ensures LinComb(g[k], u1 + u2, cols1 + cols1) == LinComb(fs[k], u1, cols1) + LinComb(fs[k], u2, cols1)
    {
      assert g[k] == ConcatCols(fs[k], z) + ConcatCols(z, fs[k]);
      UnaryFactorValue(fs[k], u1, u2, cols1);
    }
    ProductSideBySide(g, fs, fs, u1 + u2, u1, u2, cols1, cols1);
  }

  /** The constant of getUnaryF(f): c ‖ 0 XOR 0 ‖ c. */
  function UnaryConstant(c: seq<bool>): (r: seq<bool>)
    ensures r == c + c
  {
    Xor(c + Zeros(|c|), Zeros(|c|) + c)
  }

  /** getUnaryF(f)(u1 ‖ u2) = f(u1) ‖ f(u2): two copies of f on the two halves of the input. */
  lemma SecretUnaryValue(c: seq<bool>, fs: seq<Mat>, u1: seq<bool>, u2: seq<bool>)
    requires FactorsShape(fs, |u1|, |c|) && |u1| == |u2|
    ensures SecretValue(UnaryConstant(c), UnaryFactors(fs, |u1|, |c|), u1 + u2) ==
      SecretValue(c, fs, u1) + SecretValue(c, fs, u2)
  {
    var uc, g := UnaryConstant(c), UnaryFactors(fs, |u1|, |c|);
    UnaryFactorsValue(fs, u1, u2, |c|);
    assert |uc| == |c| + |c|;
    assert FactorsValue(g, u1 + u2, |uc|) == FactorsValue(g, u1 + u2, |c| + |c|);
    var p, q := FactorsValue(fs, u1, |c|), FactorsValue(fs, u2, |c|);
    XorConcat(c, c, p, q);
  }

  /** A factor between two zero blocks: its value between zeros. */
  lemma MiddleFactorValue(f: Mat, u: seq<bool>, cols1: nat)
    requires |f| == |u| && IsMatrix(f, cols1)
    ensures LinComb(ConcatCols(ConcatCols(ZeroMat(|f|, cols1), f), ZeroMat(|f|, cols1)), u, cols1 + cols1 + cols1) ==
      Zeros(cols1) + LinComb(f, u, cols1) + Zeros(cols1)
  {
    var left := ConcatCols(ZeroMat(|f|, cols1), f);
    PaddedFactorValue(f, u, cols1, cols1);
    PaddedFactorValue(left, u, cols1 + cols1, cols1);
  }

  /** The three padded blocks XOR to the three values side by side. */
  lemma ThreeBlocksXor(p1: seq<bool>, p2: seq<bool>, p3: seq<bool>, zs: seq<bool>)
    requires |p1| == |p2| == |p3| && zs == Zeros(|p1|)
    ensures Xor(Xor(p1 + (zs + zs), zs + p2 + zs), (zs + zs) + p3) == p1 + p2 + p3
  {
    assert p1 + (zs + zs) == p1 + zs + zs;
    assert (zs + zs) + p3 == zs + zs + p3;
    XorConcat3(p1, zs, zs, zs, p2, zs);
    ZeroLaws(p1);
    ZeroLaws(p2);
    ZeroLaws(zs);
    XorConcat3(p1, p2, zs, zs, zs, p3);
    ZeroLaws(p3);
  }

  /** One factor of getBinaryF(f) at u1 ‖ u2 ‖ u3 is that factor of f at each part, side by side. */
  lemma BinaryFactorValue(f: Mat, u1: seq<bool>, u2: seq<bool>, u3: seq<bool>, cols1: nat)
    requires |f| == |u1| == |u2| == |u3| && IsMatrix(f, cols1)
    ensures LinComb(ConcatCols(f, ZeroMat(|f|, cols1 + cols1))
                    + ConcatCols(ConcatCols(ZeroMat(|f|, cols1), f), ZeroMat(|f|, cols1))
                    + ConcatCols(ZeroMat(|f|, cols1 + cols1), f), u1 + u2 + u3, cols1 + cols1 + cols1) ==
      LinComb(f, u1, cols1) + LinComb(f, u2, cols1) + LinComb(f, u3, cols1)
  {
    var z, z2 := ZeroMat(|f|, cols1), ZeroMat(|f|, cols1 + cols1);
    var top, mid, bot := ConcatCols(f, z2), ConcatCols(ConcatCols(z, f), z), ConcatCols(z2, f);
    var w := cols1 + cols1 + cols1;
    var p1, p2, p3 := LinComb(f, u1, cols1), LinComb(f, u2, cols1), LinComb(f, u3, cols1);
    var zs := Zeros(cols1);
    ZerosConcat(cols1, cols1);
    PaddedFactorValue(f, u1, cols1, cols1 + cols1);
    assert LinComb(top, u1, w) == p1 + (zs + zs);
    PaddedFactorValue(f, u3, cols1, cols1 + cols1);
    assert LinComb(bot, u3, w) == (zs + zs) + p3;
    MiddleFactorValue(f, u2, cols1);
    StackedFactorValue(top, mid, u1, u2, w);
    StackedFactorValue(top + mid, bot, u1 + u2, u3, w);
    ThreeBlocksXor(p1, p2, p3, zs);
  }

  /** getBinaryF(f)(u1 ‖ u2 ‖ u3) = f(u1) ‖ f(u2) ‖ f(u3), for the products of the factors. */
  lemma BinaryFactorsValue(fs: seq<Mat>, u1: seq<bool>, u2: seq<bool>, u3: seq<bool>, cols1: nat)
    requires FactorsShape(fs, |u1|, cols1) && |u1| == |u2| == |u3|
    ensures FactorsValue(BinaryFactors(fs, |u1|, cols1), u1 + u2 + u3, cols1 + cols1 + cols1) ==
      FactorsValue(fs, u1, cols1) + FactorsValue(fs, u2, cols1) + FactorsValue(fs, u3, cols1)
  {
    var g := BinaryFactors(fs, |u1|, cols1);
    var z, z2 := ZeroMat(|u1|, cols1), ZeroMat(|u1|, cols1 + cols1);
    forall k | 0 <= k < |fs|
      ensures LinComb(g[k], u1 + u2 + u3, cols1 + cols1 + cols1) ==
        LinComb(fs[k], u1, cols1) + LinComb(fs[k], u2, cols1) + LinComb(fs[k], u3, cols1)
    {
      assert g[k] == ConcatCols(fs[k], z2) + ConcatCols(ConcatCols(z, fs[k]), z) + ConcatCols(z2, fs[k]);
      BinaryFactorValue(fs[k], u1, u2, u3, cols1);
    }
    ProductSideBySide3(g, fs, fs, fs, u1 + u2 + u3, u1, u2, u3, cols1, cols1, cols1);
  }

  /** The constant of getBinaryF(f): c ‖ 0 ‖ 0 XOR 0 ‖ c ‖ 0 XOR 0 ‖ 0 ‖ c. */
  function BinaryConstant(c: seq<bool>): (r: seq<bool>)
    ensures r == c + c + c
  {
    var z, z2 := Zeros(|c|), Zeros(|c| + |c|);
    Xor(Xor(c + z2, z + c + z), z2 + c)
  }

  /** getBinaryF(f)(u1 ‖ u2 ‖ u3) = f(u1) ‖ f(u2) ‖ f(u3): three copies of f on the three parts. */
  lemma SecretBinaryValue(c: seq<bool>, fs: seq<Mat>, u1: seq<bool>, u2: seq<bool>, u3: seq<bool>)
    requires FactorsShape(fs, |u1|, |c|) && |u1| == |u2| == |u3|
    ensures SecretValue(BinaryConstant(c), BinaryFactors(fs, |u1|, |c|), u1 + u2 + u3) ==
      SecretValue(c, fs, u1) + SecretValue(c, fs, u2) + SecretValue(c, fs, u3)
  {
    var bc, g := BinaryConstant(c), BinaryFactors(fs, |u1|, |c|);
    BinaryFactorsValue(fs, u1, u2, u3, |c|);
    assert |bc| == |c| + |c| + |c|;
    assert FactorsValue(g, u1 + u2 + u3, |bc|) == FactorsValue(g, u1 + u2 + u3, |c| + |c| + |c|);
    var p, q, r := FactorsValue(fs, u1, |c|), FactorsValue(fs, u2, |c|), FactorsValue(fs, u3, |c|);
    XorConcat3(c, c, c, p, q, r);
  }

  // ---------------------------------------------------------------------
  // The classes

  class LinearFactorPoly {
    /** ROWS: the input bits. */
    const rows: nat
    /** COLS: the output bits. */
    const cols: nat
    /** `_poly`: the MON factor matrices. */
    const poly: array<Mat>

    ghost predicate Valid()
      reads this, poly
    {
      FactorsShape(poly[..], rows, cols)
    }

    /** `zero()`: MON zero matrices. */
    constructor Zero(rows: nat, cols: nat, mon: nat)
      ensures Valid() && fresh(poly) && this.rows == rows && this.cols == cols
      ensures poly[..] == ZeroFactors(mon, rows, cols)
    {
      this.rows := rows;
      this.cols := cols;
      poly := new Mat[mon](k => ZeroMat(rows, cols));
    }

    /** `operator()(input)`: all ones ANDed with every factor's `tMult(input)`. */
    method Evaluate(input: seq<bool>) returns (result: seq<bool>)
      requires Valid() && |input| == rows
      ensures result == FactorsValue(poly[..], input, cols)
    {
      result := Ones(cols);
      for i := 0 to poly.Length
        invariant result == FactorsValue(poly[..i], input, cols)
      {
        assert poly[..i + 1][..i] == poly[..i];
        result := And(result, LinComb(poly[i], input, cols));
      }
      assert poly[..poly.Length] == poly[..];
    }

    /** `set(n, M)`: factor n becomes M; the others are unchanged. */
    method Set(n: nat, m: Mat)
      requires Valid() && n < poly.Length && |m| == rows && IsMatrix(m, cols)
      modifies poly
      ensures Valid() && poly[..] == old(poly[..])[n := m]
    {
      poly[n] := m;
    }

    /** `get(n)`. */
    function Get(n: nat): Mat
      requires n < poly.Length
      reads poly
    {
      poly[n]
    }

    /** `operator*(K)`: factor i becomes Kᵀ · factor i; K has ROWS rows. */
    method Mul(k: Mat, rows2: nat) returns (result: LinearFactorPoly)
      requires Valid() && |k| == rows && IsMatrix(k, rows2)
      ensures fresh(result) && fresh(result.poly) && result.Valid()
      ensures result.rows == rows2 && result.cols == cols
      ensures result.poly[..] == MulFactors(poly[..], k, rows2, cols)
    {
      result := new LinearFactorPoly.Zero(rows2, cols, poly.Length);
      var kt := Transpose(k, rows2, rows);
      for i := 0 to poly.Length
        invariant fresh(result) && fresh(result.poly) && result.Valid() && result.poly.Length == poly.Length
        invariant result.rows == rows2 && result.cols == cols
        invariant result.poly[..i] == MulFactors(poly[..], k, rows2, cols)[..i]
      {
        result.Set(i, MatMul(kt, poly[i], cols));
      }
    }

    /** `stackCols(Gtop, Gbot)`: the factors side by side. */
    static method StackCols(top: LinearFactorPoly, bot: LinearFactorPoly) returns (result: LinearFactorPoly)
      requires top.Valid() && bot.Valid() && top.rows == bot.rows && top.poly.Length == bot.poly.Length
      ensures fresh(result) && fresh(result.poly) && result.Valid()
      ensures result.rows == top.rows && result.cols == top.cols + bot.cols
      ensures result.poly[..] == ConcatFactors(top.poly[..], bot.poly[..])
    {
      result := new LinearFactorPoly.Zero(top.rows, top.cols + bot.cols, top.poly.Length);
      for i := 0 to top.poly.Length
        invariant fresh(result) && fresh(result.poly) && result.Valid() && result.poly.Length == top.poly.Length
        invariant result.rows == top.rows && result.cols == top.cols + bot.cols
        invariant result.poly[..i] == ConcatFactors(top.poly[..], bot.poly[..])[..i]
      {
        result.Set(i, ConcatCols(top.poly[i], bot.poly[i]));
      }
    }

    /** `stackRows(Gtop, Gbot)`: the factors stacked, Gtop's rows first. */
    static method StackRows(top: LinearFactorPoly, bot: LinearFactorPoly) returns (result: LinearFactorPoly)
      requires top.Valid() && bot.Valid() && top.cols == bot.cols && top.poly.Length == bot.poly.Length
      ensures fresh(result) && fresh(result.poly) && result.Valid()
      ensures result.rows == top.rows + bot.rows && result.cols == top.cols
      ensures result.poly[..] == StackFactors(top.poly[..], bot.poly[..])
    {
      result := new LinearFactorPoly.Zero(top.rows + bot.rows, top.cols, top.poly.Length);
      for i := 0 to top.poly.Length
        invariant fresh(result) && fresh(result.poly) && result.Valid() && result.poly.Length == top.poly.Length
        invariant result.rows == top.rows + bot.rows && result.cols == top.cols
        invariant result.poly[..i] == StackFactors(top.poly[..], bot.poly[..])[..i]
      {
        result.Set(i, top.poly[i] + bot.poly[i]);
      }
    }

    /** Three-argument `stackCols(Gtop, Gmid, Gbot)`. */
    static method StackCols3(top: LinearFactorPoly, mid: LinearFactorPoly, bot: LinearFactorPoly)
      returns (result: LinearFactorPoly)
      requires top.Valid() && mid.Valid() && bot.Valid() && top.rows == mid.rows == bot.rows
      requires top.poly.Length == mid.poly.Length == bot.poly.Length
      ensures fresh(result) && fresh(result.poly) && result.Valid()
      ensures result.rows == top.rows && result.cols == top.cols + mid.cols + bot.cols
      ensures result.poly[..] == Concat3Factors(top.poly[..], mid.poly[..], bot.poly[..])
    {
      result := new LinearFactorPoly.Zero(top.rows, top.cols + mid.cols + bot.cols, top.poly.Length);
      for i := 0 to top.poly.Length
        invariant fresh(result) && fresh(result.poly) && result.Valid() && result.poly.Length == top.poly.Length
        invariant result.rows == top.rows && result.cols == top.cols + mid.cols + bot.cols
        invariant result.poly[..i] == Concat3Factors(top.poly[..], mid.poly[..], bot.poly[..])[..i]
      {
        result.Set(i, ConcatCols(ConcatCols(top.poly[i], mid.poly[i]), bot.poly[i]));
      }
    }

    /** Three-argument `stackRows(Gtop, Gmid, Gbot)`. */
    static method StackRows3(top: LinearFactorPoly, mid: LinearFactorPoly, bot: LinearFactorPoly)
      returns (result: LinearFactorPoly)
      requires top.Valid() && mid.Valid() && bot.Valid() && top.cols == mid.cols == bot.cols
      requires top.poly.Length == mid.poly.Length == bot.poly.Length
      ensures fresh(result) && fresh(result.poly) && result.Valid()
      ensures result.rows == top.rows + mid.rows + bot.rows && result.cols == top.cols
      ensures result.poly[..] == Stack3Factors(top.poly[..], mid.poly[..], bot.poly[..])
    {
      result := new LinearFactorPoly.Zero(top.rows + mid.rows + bot.rows, top.cols, top.poly.Length);
      for i := 0 to top.poly.Length
        invariant fresh(result) && fresh(result.poly) && result.Valid() && result.poly.Length == top.poly.Length
        invariant result.rows == top.rows + mid.rows + bot.rows && result.cols == top.cols
        invariant result.poly[..i] == Stack3Factors(top.poly[..], mid.poly[..], bot.poly[..])[..i]
      {
        result.Set(i, top.poly[i] + mid.poly[i] + bot.poly[i]);
      }
    }

    /** `expand2(f, index)`. */
    static method Expand2(f: LinearFactorPoly, index: nat) returns (result: LinearFactorPoly)
      requires f.Valid()
      ensures fresh(result) && fresh(result.poly) && result.Valid()
      ensures result.rows == f.rows && result.cols == f.cols + f.cols
      ensures result.poly[..] == Expand2Factors(f.poly[..], f.rows, f.cols, index)
    {
      var zero := new LinearFactorPoly.Zero(f.rows, f.cols, f.poly.Length);
      if index == 0 {
        result := StackCols(f, zero);
      } else {
        result := StackCols(zero, f);
      }
    }

    /** `expand3(f, index)`. */
    static method Expand3(f: LinearFactorPoly, index: nat) returns (result: LinearFactorPoly)
      requires f.Valid()
      ensures fresh(result) && fresh(result.poly) && result.Valid()
      ensures result.rows == f.rows && result.cols == f.cols + f.cols + f.cols
      ensures result.poly[..] == Expand3Factors(f.poly[..], f.rows, f.cols, index)
    {
      if index == 0 {
        var zero2 := new LinearFactorPoly.Zero(f.rows, f.cols + f.cols, f.poly.Length);
        result := StackCols(f, zero2);
      } else if index == 1 {
        var zero := new LinearFactorPoly.Zero(f.rows, f.cols, f.poly.Length);
        result := StackCols3(zero, f, zero);
      } else {
        var zero2 := new LinearFactorPoly.Zero(f.rows, f.cols + f.cols, f.poly.Length);
        result := StackCols(zero2, f);
      }
    }

    /** `getUnaryF(f)`: [f | 0] stacked on [0 | f]. */
    static method GetUnaryF(f: LinearFactorPoly) returns (result: LinearFactorPoly)
      requires f.Valid()
      ensures fresh(result) && fresh(result.poly) && result.Valid()
      ensures result.rows == f.rows + f.rows && result.cols == f.cols + f.cols
      ensures result.poly[..] == UnaryFactors(f.poly[..], f.rows, f.cols)
    {
      var top := Expand2(f, 0);
      var bot := Expand2(f, 1);
      result := StackRows(top, bot);
    }

    /** `getBinaryF(f)`: expand3(f, 0), expand3(f, 1) and expand3(f, 2) stacked. */
    static method GetBinaryF(f: LinearFactorPoly) returns (result: LinearFactorPoly)
      requires f.Valid()
      ensures fresh(result) && fresh(result.poly) && result.Valid()
      ensures result.rows == f.rows + f.rows + f.rows && result.cols == f.cols + f.cols + f.cols
      ensures result.poly[..] == BinaryFactors(f.poly[..], f.rows, f.cols)
    {
      var top := Expand3(f, 0);
      var mid := Expand3(f, 1);
      var bot := Expand3(f, 2);
      result := StackRows3(top, mid, bot);
    }
  }

  class SecretPolynomial {
    /** ROWS: the input bits. */
    const rows: nat
    /** COLS: the output bits. */
    const cols: nat
    var constant: seq<bool>
    var linearFactors: LinearFactorPoly

    ghost predicate Valid()
      reads this, linearFactors, linearFactors.poly
    {
      |constant| == cols && linearFactors.Valid() && linearFactors.rows == rows && linearFactors.cols == cols
    }

    /** A polynomial with the given constant and linear factors (`setConstant`, `setLinearFactors`). */
    constructor FromParts(constant: seq<bool>, lf: LinearFactorPoly)
      requires lf.Valid() && |constant| == lf.cols
      ensures Valid() && rows == lf.rows && cols == lf.cols
      ensures this.constant == constant && linearFactors == lf
    {
      rows := lf.rows;
      cols := lf.cols;
      this.constant := constant;
      linearFactors := lf;
    }

    /** `zero()`: a zero constant and MON zero factors. */
    constructor Zero(rows: nat, cols: nat, mon: nat)
      ensures Valid() && this.rows == rows && this.cols == cols
      ensures constant == Zeros(cols) && linearFactors.poly[..] == ZeroFactors(mon, rows, cols)
      ensures fresh(linearFactors) && fresh(linearFactors.poly)
    {
      this.rows := rows;
      this.cols := cols;
      constant := Zeros(cols);
      linearFactors := new LinearFactorPoly.Zero(rows, cols, mon);
    }

    /** `operator()(input)`: the constant XOR the linear factors' value. */
    method Evaluate(input: seq<bool>) returns (result: seq<bool>)
      requires Valid() && |input| == rows
      ensures result == SecretValue(constant, linearFactors.poly[..], input)
    {
      var value := linearFactors.Evaluate(input);
      result := Xor(constant, value);
    }

    /** `setConstant(c)`. */
    method SetConstant(c: seq<bool>)
      requires Valid() && |c| == cols
      modifies this
      ensures Valid() && constant == c && linearFactors == old(linearFactors)
    {
      constant := c;
    }

    /** `setLinearFactors(newLF)`. */
    method SetLinearFactors(lf: LinearFactorPoly)
      requires Valid() && lf.Valid() && lf.rows == rows && lf.cols == cols
      modifies this
      ensures Valid() && linearFactors == lf && constant == old(constant)
    {
      linearFactors := lf;
    }

    /** `setLinearFactors(n, M)`: factor n becomes M. */
    method SetLinearFactor(n: nat, m: Mat)
      requires Valid() && n < linearFactors.poly.Length && |m| == rows && IsMatrix(m, cols)
      modifies linearFactors.poly
      ensures Valid() && linearFactors.poly[..] == old(linearFactors.poly[..])[n := m]
    {
      linearFactors.Set(n, m);
    }

    /** `operator*(K)`: the same constant, and the factors times K. */
    method Mul(k: Mat, rows2: nat) returns (result: SecretPolynomial)
      requires Valid() && |k| == rows && IsMatrix(k, rows2)
      ensures fresh(result) && fresh(result.linearFactors) && fresh(result.linearFactors.poly) && result.Valid()
      ensures result.rows == rows2 && result.cols == cols && result.constant == constant
      ensures result.linearFactors.poly[..] == MulFactors(linearFactors.poly[..], k, rows2, cols)
    {
      var lf := linearFactors.Mul(k, rows2);
      result := new SecretPolynomial.FromParts(constant, lf);
    }

    /** `stackCols(Gtop, Gbot)`: constants concatenated (`vCat`), factors side by side. */
    static method StackCols(top: SecretPolynomial, bot: SecretPolynomial) returns (result: SecretPolynomial)
      requires top.Valid() && bot.Valid() && top.rows == bot.rows
      requires top.linearFactors.poly.Length == bot.linearFactors.poly.Length
      ensures fresh(result) && fresh(result.linearFactors) && fresh(result.linearFactors.poly) && result.Valid()
      ensures result.rows == top.rows && result.cols == top.cols + bot.cols
      ensures result.constant == top.constant + bot.constant
      ensures result.linearFactors.poly[..] == ConcatFactors(top.linearFactors.poly[..], bot.linearFactors.poly[..])
    {
      var lf := LinearFactorPoly.StackCols(top.linearFactors, bot.linearFactors);
      result := new SecretPolynomial.FromParts(top.constant + bot.constant, lf);
    }

    /** `stackRows(Gtop, Gbot)`: constants XORed, factors stacked. */
    static method StackRows(top: SecretPolynomial, bot: SecretPolynomial) returns (result: SecretPolynomial)
      requires top.Valid() && bot.Valid() && top.cols == bot.cols
      requires top.linearFactors.poly.Length == bot.linearFactors.poly.Length
      ensures fresh(result) && fresh(result.linearFactors) && fresh(result.linearFactors.poly) && result.Valid()
      ensures result.rows == top.rows + bot.rows && result.cols == top.cols
      ensures result.constant == Xor(top.constant, bot.constant)
      ensures result.linearFactors.poly[..] == StackFactors(top.linearFactors.poly[..], bot.linearFactors.poly[..])
    {
      var lf := LinearFactorPoly.StackRows(top.linearFactors, bot.linearFactors);
      result := new SecretPolynomial.FromParts(Xor(top.constant, bot.constant), lf);
    }

    /** Three-argument `stackCols`: constants concatenated (`vCat`), factors side by side. */
    static method StackCols3(top: SecretPolynomial, mid: SecretPolynomial, bot: SecretPolynomial)
      returns (result: SecretPolynomial)
      requires top.Valid() && mid.Valid() && bot.Valid() && top.rows == mid.rows == bot.rows
      requires top.linearFactors.poly.Length == mid.linearFactors.poly.Length == bot.linearFactors.poly.Length
      ensures fresh(result) && fresh(result.linearFactors) && fresh(result.linearFactors.poly) && result.Valid()
      ensures result.rows == top.rows && result.cols == top.cols + mid.cols + bot.cols
      ensures result.constant == top.constant + mid.constant + bot.constant
      ensures result.linearFactors.poly[..] ==
        Concat3Factors(top.linearFactors.poly[..], mid.linearFactors.poly[..], bot.linearFactors.poly[..])
    {
      var lf := LinearFactorPoly.StackCols3(top.linearFactors, mid.linearFactors, bot.linearFactors);
      result := new SecretPolynomial.FromParts(top.constant + mid.constant + bot.constant, lf);
    }

    /** Three-argument `stackRows`: constants XORed, factors stacked. */
    static method StackRows3(top: SecretPolynomial, mid: SecretPolynomial, bot: SecretPolynomial)
      returns (result: SecretPolynomial)
      requires top.Valid() && mid.Valid() && bot.Valid() && top.cols == mid.cols == bot.cols
      requires top.linearFactors.poly.Length == mid.linearFactors.poly.Length == bot.linearFactors.poly.Length
      ensures fresh(result) && fresh(result.linearFactors) && fresh(result.linearFactors.poly) && result.Valid()
      ensures result.rows == top.rows + mid.rows + bot.rows && result.cols == top.cols
      ensures result.constant == Xor(Xor(top.constant, mid.constant), bot.constant)
      ensures result.linearFactors.poly[..] ==
        Stack3Factors(top.linearFactors.poly[..], mid.linearFactors.poly[..], bot.linearFactors.poly[..])
    {
      var lf := LinearFactorPoly.StackRows3(top.linearFactors, mid.linearFactors, bot.linearFactors);
      result := new SecretPolynomial.FromParts(Xor(Xor(top.constant, mid.constant), bot.constant), lf);
    }

    /** `expand2(f, index)`: f beside a zero polynomial, on its left when index is 0. */
    static method Expand2(f: SecretPolynomial, index: nat) returns (result: SecretPolynomial)
      requires f.Valid()
      ensures fresh(result) && fresh(result.linearFactors) && fresh(result.linearFactors.poly) && result.Valid()
      ensures result.rows == f.rows && result.cols == f.cols + f.cols
      ensures result.constant == if index == 0 then f.constant + Zeros(f.cols) else Zeros(f.cols) + f.constant
      ensures result.linearFactors.poly[..] == Expand2Factors(f.linearFactors.poly[..], f.rows, f.cols, index)
    {
      var zero := new SecretPolynomial.Zero(f.rows, f.cols, f.linearFactors.poly.Length);
      if index == 0 {
        result := StackCols(f, zero);
      } else {
        result := StackCols(zero, f);
      }
    }

    /** `expand3(f, index)`: f in block `index` of three, zero polynomials in the others. */
    static method Expand3(f: SecretPolynomial, index: nat) returns (result: SecretPolynomial)
      requires f.Valid()
      ensures fresh(result) && fresh(result.linearFactors) && fresh(result.linearFactors.poly) && result.Valid()
      ensures result.rows == f.rows && result.cols == f.cols + f.cols + f.cols
      ensures result.constant ==
        if index == 0 then f.constant + Zeros(f.cols + f.cols)
        else if index == 1 then Zeros(f.cols) + f.constant + Zeros(f.cols)
        else Zeros(f.cols + f.cols) + f.constant
      ensures result.linearFactors.poly[..] == Expand3Factors(f.linearFactors.poly[..], f.rows, f.cols, index)
    {
      var mon := f.linearFactors.poly.Length;
      if index == 0 {
        var zero2 := new SecretPolynomial.Zero(f.rows, f.cols + f.cols, mon);
        result := StackCols(f, zero2);
      } else if index == 1 {
        var zero := new SecretPolynomial.Zero(f.rows, f.cols, mon);
        result := StackCols3(zero, f, zero);
      } else {
        var zero2 := new SecretPolynomial.Zero(f.rows, f.cols + f.cols, mon);
        result := StackCols(zero2, f);
      }
    }

    /** `getUnaryF(f)`: expand2(f, 0) stacked on expand2(f, 1). */
    static method GetUnaryF(f: SecretPolynomial) returns (result: SecretPolynomial)
      requires f.Valid()
      ensures fresh(result) && fresh(result.linearFactors) && fresh(result.linearFactors.poly) && result.Valid()
      ensures result.rows == f.rows + f.rows && result.cols == f.cols + f.cols
      ensures result.constant == UnaryConstant(f.constant)
      ensures result.linearFactors.poly[..] == UnaryFactors(f.linearFactors.poly[..], f.rows, f.cols)
    {
      var top := Expand2(f, 0);
      var bot := Expand2(f, 1);
      result := StackRows(top, bot);
    }

    /** `getBinaryF(f)`: expand3(f, 0), expand3(f, 1) and expand3(f, 2) stacked. */
    static method GetBinaryF(f: SecretPolynomial) returns (result: SecretPolynomial)
      requires f.Valid()
      ensures fresh(result) && fresh(result.linearFactors) && fresh(result.linearFactors.poly) && result.Valid()
      ensures result.rows == f.rows + f.rows + f.rows && result.cols == f.cols + f.cols + f.cols
      ensures result.constant == BinaryConstant(f.constant)
      ensures result.linearFactors.poly[..] == BinaryFactors(f.linearFactors.poly[..], f.rows, f.cols)
    {
      var top := Expand3(f, 0);
      var mid := Expand3(f, 1);
      var bot := Expand3(f, 2);
      result := StackRows3(top, mid, bot);
    }
  }
}
