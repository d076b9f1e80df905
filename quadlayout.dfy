/**
 * The monomial layout shared by `MultiQuadTuple` and `MQT`.
 *
 * A quadratic tuple over n input bits stores one contribution row per
 * monomial x_i·x_j with i ≤ j < n (x_i·x_i = x_i covers the linear terms),
 * in row-major upper-triangular order: the block for i = 0 (n rows), then
 * the block for i = 1 (n − 1 rows), and so on.  `RowStart(n, i)` is where
 * block i starts, `GetIndex` is the closed form the code computes, and
 * `Monomials(x)` lists the monomial values of an input in the same order,
 * so that evaluating a tuple is `LinComb(contributions, Monomials(x))`.
 */
module QuadLayout {
  import opened GF2
  import opened Matrices

  /**
   * 1 + 2 + … + n: the number of monomials x_i·x_j with i ≤ j < n.  The code
   * computes it as (n·(n + 1)) >> 1; `NumMonomialsClosedForm` shows the two agree.
   */
  function NumMonomials(n: nat): nat
  {
    if n == 0 then 0 else NumMonomials(n - 1) + n
  }

  /** numInputMonomials = (numInputBits·(numInputBits + 1)) >> 1. */
  lemma {:induction false} NumMonomialsClosedForm(n: nat)
    ensures NumMonomials(n) == n * (n + 1) / 2
  {
    if n > 0 {
      NumMonomialsClosedForm(n - 1);
      assert n * (n + 1) == (n - 1) * n + 2 * n;
    }
  }

  /** Σ_{k<i} (n − k): the first row of the block of monomials x_i·x_j, j ≥ i. */
  function RowStart(n: nat, i: nat): nat
    requires i <= n
  {
    if i == 0 then 0 else RowStart(n, i - 1) + (n - (i - 1))
  }

  /** The running sum of block lengths is n(n+1)/2 − (n−i)(n−i+1)/2. */
  lemma {:induction false} RowStartClosedForm(n: nat, i: nat)
    requires i <= n
    ensures RowStart(n, i) + NumMonomials(n - i) == NumMonomials(n)
  {
    if i > 0 {
      RowStartClosedForm(n, i - 1);
    }
  }

  /**
   * `getIndex(main, aux)`: with i1 = min and i2 = max of the two indices,
   * numInputMonomials − ((n − i1)(n − i1 + 1) >> 1) + (i2 − i1); the
   * subtracted term is the monomial count of the last n − i1 inputs.
   */
  function GetIndex(n: nat, main: nat, aux: nat): (r: nat)
    requires main < n && aux < n
    ensures var i1 := if main <= aux then main else aux;
            var i2 := if main <= aux then aux else main;
            r == RowStart(n, i1) + (i2 - i1)
    ensures r < NumMonomials(n)
  {
    var i1 := if main <= aux then main else aux;
    var i2 := if main <= aux then aux else main;
    RowStartClosedForm(n, i1);
    RowStartClosedForm(n, n);
    RowStartBelow(n, i1 + 1, n);
    NumMonomials(n) - NumMonomials(n - i1) + (i2 - i1)
  }

  lemma {:induction false} RowStartBelow(n: nat, i: nat, k: nat)
    requires i <= k <= n
    ensures RowStart(n, i) <= RowStart(n, k)
    decreases k - i
  {
    if i < k {
      RowStartBelow(n, i, k - 1);
    }
  }

  /** The counter skips n − i rows past block i, and ends at numInputMonomials. */
  lemma CounterLayout(n: nat, i: nat)
    requires i < n
    ensures RowStart(n, i + 1) == RowStart(n, i) + (n - i)
    ensures RowStart(n, n) == NumMonomials(n)
  {
    RowStartClosedForm(n, n);
  }

  lemma GetIndexSymmetric(n: nat, a: nat, b: nat)
    requires a < n && b < n
    ensures GetIndex(n, a, b) == GetIndex(n, b, a)
  {
  }

  /** The first block is the identity map: x_0·x_j sits at row j. */
  lemma GetIndexFirstRow(n: nat, j: nat)
    requires j < n
    ensures GetIndex(n, 0, j) == j && GetIndex(n, j, 0) == j
  {
  }

  /** Distinct monomials get distinct rows. */
  lemma GetIndexInjective(n: nat, i: nat, j: nat, i': nat, j': nat)
    requires i <= j < n && i' <= j' < n
    ensures GetIndex(n, i, j) == GetIndex(n, i', j') <==> i == i' && j == j'
  {
    if i < i' {
      RowStartBelow(n, i + 1, i');
    } else if i' < i {
      RowStartBelow(n, i' + 1, i);
    }
  }

  // ---------------------------------------------------------------------
  // The monomial vector

  /** The values x_i·x_j for j = i … n − 1. */
  function MonomialBlock(x: seq<bool>, i: nat): (r: seq<bool>)
    requires i < |x|
    ensures |r| == |x| - i
    ensures forall t | 0 <= t < |r| :: r[t] == (x[i] && x[i + t])
  {
    seq(|x| - i, t requires 0 <= t < |x| - i => x[i] && x[i + t])
  }

  /** The blocks i, i + 1, …, n − 1 in order. */
  function MonomialsFrom(x: seq<bool>, i: nat): (r: seq<bool>)
    requires i <= |x|
    ensures RowStart(|x|, i) <= RowStart(|x|, |x|)
    ensures |r| == RowStart(|x|, |x|) - RowStart(|x|, i)
    decreases |x| - i
  {
    RowStartBelow(|x|, i, |x|);
    if i == |x| then [] else MonomialBlock(x, i) + MonomialsFrom(x, i + 1)
  }

  /** Every monomial value x_i·x_j, i ≤ j, in the order of the contribution rows. */
  function Monomials(x: seq<bool>): (r: seq<bool>)
    ensures |r| == NumMonomials(|x|)
  {
    RowStartClosedForm(|x|, |x|);
    MonomialsFrom(x, 0)
  }

  lemma {:induction false} MonomialsFromAt(x: seq<bool>, i: nat, k: nat, t: nat)
    requires i <= k < |x| && t < |x| - k
    ensures RowStart(|x|, i) <= RowStart(|x|, k)
    ensures RowStart(|x|, k) - RowStart(|x|, i) + t < |MonomialsFrom(x, i)|
    ensures MonomialsFrom(x, i)[RowStart(|x|, k) - RowStart(|x|, i) + t] == (x[k] && x[k + t])
    decreases k - i
  {
    var n := |x|;
    RowStartBelow(n, i, k);
    RowStartBelow(n, k + 1, n);
    if i < k {
      MonomialsFromAt(x, i + 1, k, t);
    }
  }

  /** Row GetIndex(i, j) of the layout holds the monomial x_i·x_j. */
  lemma MonomialAt(x: seq<bool>, i: nat, j: nat)
    requires i < |x| && j < |x|
    ensures Monomials(x)[GetIndex(|x|, i, j)] == (x[i] && x[j])
  {
    if i <= j {
      MonomialsFromAt(x, 0, i, j - i);
    } else {
      MonomialsFromAt(x, 0, j, i - j);
    }
  }

  /** Block i of the monomial vector, as a slice. */
  lemma MonomialsBlockSlice(x: seq<bool>, i: nat)
    requires i < |x|
    ensures RowStart(|x|, i + 1) <= NumMonomials(|x|)
    ensures Monomials(x)[RowStart(|x|, i)..RowStart(|x|, i + 1)] == MonomialBlock(x, i)
  {
    var n := |x|;
    RowStartBelow(n, i + 1, n);
    RowStartClosedForm(n, n);
    forall t | 0 <= t < n - i
      ensures Monomials(x)[RowStart(n, i) + t] == MonomialBlock(x, i)[t]
    {
      MonomialsFromAt(x, 0, i, t);
    }
  }

  lemma MonomialsOfZero(n: nat)
    ensures Monomials(Zeros(n)) == Zeros(NumMonomials(n))
  {
    var z := Zeros(n);
    forall r | 0 <= r < NumMonomials(n) ensures !Monomials(z)[r] {
      var i, t := MonomialPosition(n, r);
      MonomialsFromAt(z, 0, i, t);
    }
  }

  /** Every row of the layout belongs to some block i at some offset t. */
  lemma MonomialPosition(n: nat, r: nat) returns (i: nat, t: nat)
    requires r < NumMonomials(n)
    ensures i < n && t < n - i && r == RowStart(n, i) + t
  {
    RowStartClosedForm(n, n);
    i := 0;
    while RowStart(n, i + 1) <= r
      invariant i < n && RowStart(n, i) <= r
      decreases n - i
    {
      RowStartClosedForm(n, i + 1);
      if i + 1 == n {
        assert false;
      }
      i := i + 1;
    }
    t := r - RowStart(n, i);
  }

  // ---------------------------------------------------------------------
  // Linear combinations of contribution rows

  /** Extending a prefix by one row adds that row when it is selected. */
  lemma LinCombStep(c: Mat, s: seq<bool>, k: nat, w: nat)
    requires IsMatrix(c, w) && k < |c| && |c| <= |s|
    ensures LinComb(c[..k + 1], s, w) ==
      if s[k] then Xor(LinComb(c[..k], s, w), c[k]) else LinComb(c[..k], s, w)
  {
    assert c[..k + 1][..k] == c[..k];
  }

  /** Rows whose selector bit is clear do not contribute. */
  lemma {:induction false} LinCombSkip(c: Mat, s: seq<bool>, a: nat, b: nat, w: nat)
    requires IsMatrix(c, w) && a <= b <= |c| && |c| <= |s|
    requires forall k | a <= k < b :: !s[k]
    ensures LinComb(c[..b], s, w) == LinComb(c[..a], s, w)
    decreases b - a
  {
    if a < b {
      LinCombSkip(c, s, a, b - 1, w);
      LinCombStep(c, s, b - 1, w);
    }
  }

  /** Combining rows of a row-wise XOR of two matrices is the XOR of the two combinations. */
  lemma {:induction false} LinCombXorMat(a: Mat, b: Mat, s: seq<bool>, w: nat)
    requires IsMatrix(a, w) && IsMatrix(b, w) && |a| == |b| && |a| <= |s|
    ensures LinComb(XorMat(a, b), s, w) == Xor(LinComb(a, s, w), LinComb(b, s, w))
  {
    if a == [] {
      XorSelf(Zeros(w));
    } else {
      var n := |a| - 1;
      assert XorMat(a, b)[..n] == XorMat(a[..n], b[..n]);
      LinCombXorMat(a[..n], b[..n], s, w);
      var la, lb := LinComb(a[..n], s, w), LinComb(b[..n], s, w);
      if s[n] {
        assert Xor(Xor(la, lb), Xor(a[n], b[n])) == Xor(Xor(la, a[n]), Xor(lb, b[n]));
      }
    }
  }

  /** Combining rows of side-by-side matrices gives the two combinations side by side. */
  lemma {:induction false} LinCombConcatCols(a: Mat, b: Mat, s: seq<bool>, wa: nat, wb: nat)
    requires IsMatrix(a, wa) && IsMatrix(b, wb) && |a| == |b| && |a| <= |s|
    ensures IsMatrix(ConcatCols(a, b), wa + wb)
    ensures LinComb(ConcatCols(a, b), s, wa + wb) == LinComb(a, s, wa) + LinComb(b, s, wb)
  {
    if a != [] {
      var n := |a| - 1;
      assert ConcatCols(a, b)[..n] == ConcatCols(a[..n], b[..n]);
      LinCombConcatCols(a[..n], b[..n], s, wa, wb);
    }
  }

  /** A combination splits over consecutive row blocks, each with its own slice of the selector. */
  lemma {:induction false} LinCombSplit(c: Mat, s: seq<bool>, a: nat, b: nat, w: nat)
    requires IsMatrix(c, w) && a <= b <= |c| <= |s|
    ensures LinComb(c[..b], s, w) == Xor(LinComb(c[..a], s, w), LinComb(c[a..b], s[a..b], w))
    decreases b - a
  {
    if a == b {
      assert c[a..b] == [];
      ZeroLaws(LinComb(c[..a], s, w));
    } else {
      LinCombSplit(c, s, a, b - 1, w);
      LinCombStep(c, s, b - 1, w);
      var blk := c[a..b];
      assert blk[..|blk| - 1] == c[a..b - 1];
      LinCombPrefix(c[a..b - 1], s[a..b], s[a..b - 1], w);
      if s[b - 1] {
        XorAssociates(LinComb(c[..a], s, w), LinComb(c[a..b - 1], s[a..b - 1], w), c[b - 1]);
      }
    }
  }

  /** Slicing columns commutes with combining rows. */
  lemma {:induction false} LinCombSliceCols(c: Mat, s: seq<bool>, w: nat, lo: nat, hi: nat)
    requires IsMatrix(c, w) && |c| <= |s| && lo <= hi <= w
    ensures LinComb(SliceCols(c, lo, hi), s, hi - lo) == LinComb(c, s, w)[lo..hi]
  {
    if c != [] {
      var n := |c| - 1;
      assert SliceCols(c, lo, hi)[..n] == SliceCols(c[..n], lo, hi);
      LinCombSliceCols(c[..n], s, w, lo, hi);
    }
  }

  /** Zero rows combine to zero whatever the selector. */
  lemma {:induction false} LinCombZeroRows(k: nat, s: seq<bool>, w: nat)
    requires k <= |s|
    ensures LinComb(ZeroMat(k, w), s, w) == Zeros(w)
  {
    if k > 0 {
      assert ZeroMat(k, w)[..k - 1] == ZeroMat(k - 1, w);
      LinCombZeroRows(k - 1, s, w);
      ZeroLaws(Zeros(w));
    }
  }

  /** Overwriting a zero row p with r adds r exactly when p is selected. */
  lemma {:induction false} LinCombSetZeroRow(c: Mat, s: seq<bool>, p: nat, r: seq<bool>, w: nat)
    requires IsMatrix(c, w) && |c| <= |s| && p < |c| && c[p] == Zeros(w) && |r| == w
    ensures LinComb(c[p := r], s, w) == if s[p] then Xor(LinComb(c, s, w), r) else LinComb(c, s, w)
  {
    var n := |c| - 1;
    var d := c[p := r];
    if p == n {
      assert d[..n] == c[..n];
      if s[n] {
        ZeroLaws(LinComb(c[..n], s, w));
      }
    } else {
      assert d[..n] == c[..n][p := r];
      LinCombSetZeroRow(c[..n], s, p, r, w);
      if s[n] && s[p] {
        XorCommutes(LinComb(c[..n], s, w), r);
        XorAssociates(LinComb(c[..n], s, w), r, c[n]);
        XorCommutes(r, c[n]);
        XorAssociates(LinComb(c[..n], s, w), c[n], r);
      }
    }
  }

  /** XOR-ing r into row p toggles the combination by r exactly when p is selected. */
  lemma {:induction false} LinCombXorRow(c: Mat, s: seq<bool>, p: nat, r: seq<bool>, w: nat)
    requires IsMatrix(c, w) && |c| <= |s| && p < |c| && |r| == w
    ensures LinComb(c[p := Xor(c[p], r)], s, w) ==
      if s[p] then Xor(LinComb(c, s, w), r) else LinComb(c, s, w)
  {
    var n := |c| - 1;
    var d := c[p := Xor(c[p], r)];
    if p == n {
      assert d[..n] == c[..n];
      if s[n] {
        XorAssociates(LinComb(c[..n], s, w), c[n], r);
      }
    } else {
      assert d[..n] == c[..n][p := Xor(c[p], r)];
      LinCombXorRow(c[..n], s, p, r, w);
      if s[n] && s[p] {
        XorAssociates(LinComb(c[..n], s, w), r, c[n]);
        XorCommutes(r, c[n]);
        XorAssociates(LinComb(c[..n], s, w), c[n], r);
      }
    }
  }
}
