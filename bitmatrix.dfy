/**
 * `BitMatrix<COLS>`: a row-major binary matrix whose rows are
 * `BitVector<COLS>` values, so every row has 64·COLS columns.
 *
 * The class holds the row vector `_rows` as a sequence that the methods
 * reassign; each row is represented by its bits (the packing of a row into
 * words is the subject of `BitVectors`).  The bounds the earlier version of
 * the class asserts in `get`, `set`, `clear`, `addRow`, `swapRow` and
 * `setRow` are preconditions here.
 */
module BitMatrices {
  import opened GF2
  import opened Matrices
  import opened Elimination

  class BitMatrix {
    /** COLS: the number of 64-bit words in each row. */
    const cols: nat

    /** `_rows`: row i holds the 64·COLS bits of one `BitVector<COLS>`. */
    var rows: Mat

    /** Every row has `colCount()` bits. */
    ghost predicate Valid()
      reads this
    {
      IsMatrix(rows, WordSize * cols)
    }

    /** `BitMatrix(numRows)`: numRows zero rows. */
    constructor (cols: nat, numRows: nat)
      ensures this.cols == cols && rows == ZeroMat(numRows, WordSize * cols)
      ensures Valid()
    {
      this.cols := cols;
      rows := ZeroMat(numRows, WordSize * cols);
    }

    /** `BitMatrix(rows)`: the given rows. */
    constructor FromRows(cols: nat, rows: Mat)
      requires IsMatrix(rows, WordSize * cols)
      ensures this.cols == cols && this.rows == rows
      ensures Valid()
    {
      this.cols := cols;
      this.rows := rows;
    }

    /** The copy constructor: the same rows. */
    constructor Copy(m: BitMatrix)
      requires m.Valid()
      ensures cols == m.cols && rows == m.rows && Valid()
    {
      cols := m.cols;
      rows := m.rows;
    }

    /** `rowCount()`: the number of rows. */
    function RowCount(): (n: nat)
      reads this
      ensures n == |rows|
    {
      |rows|
    }

    /** `colCount()`: 64·COLS, the length of every row. */
    function ColCount(): (n: nat)
      reads this
      ensures Valid() ==> forall i | 0 <= i < |rows| :: |rows[i]| == n
    {
      WordSize * cols
    }

    /** `get(row, col)`: entry (row, col). */
    function Get(row: nat, col: nat): (b: bool)
      reads this
      requires Valid() && row < |rows| && col < ColCount()
      ensures b == MatVec(rows, Unit(ColCount(), col))[row]
    {
      DotUnit(col, rows[row]);
      DotSymmetric(rows[row], Unit(ColCount(), col));
      rows[row][col]
    }

    /** `getRow(row)`. */
    function GetRow(row: nat): (v: seq<bool>)
      reads this
      requires Valid() && row < |rows|
      ensures |v| == ColCount()
      ensures forall c | 0 <= c < ColCount() :: v[c] == Get(row, c)
    {
      rows[row]
    }

    /** `set(row, col)`: entry (row, col) becomes 1, nothing else changes. */
    method Set(row: nat, col: nat)
      requires Valid() && row < |rows| && col < ColCount()
      modifies this
      ensures Valid() && rows == old(rows)[row := old(rows)[row][col := true]]
    {
      rows := rows[row := rows[row][col := true]];
    }

    /** `clear(row, col)`: entry (row, col) becomes 0, nothing else changes. */
    method Clear(row: nat, col: nat)
      requires Valid() && row < |rows| && col < ColCount()
      modifies this
      ensures Valid() && rows == old(rows)[row := old(rows)[row][col := false]]
    {
      rows := rows[row := rows[row][col := false]];
    }

    /** `set(row, col, value)`: entry (row, col) becomes value. */
    method SetValue(row: nat, col: nat, value: bool)
      requires Valid() && row < |rows| && col < ColCount()
      modifies this
      ensures Valid() && rows == old(rows)[row := old(rows)[row][col := value]]
    {
      if value {
        Set(row, col);
      } else {
        Clear(row, col);
      }
    }

    /** `setRow(row, v)`: replaces exactly one row. */
    method SetRow(row: nat, v: seq<bool>)
      requires Valid() && row < |rows| && |v| == ColCount()
      modifies this
      ensures Valid() && rows == old(rows)[row := v]
    {
      rows := rows[row := v];
    }

    /** `zero()`: every row becomes the zero vector. */
    method Zero()
      requires Valid()
      modifies this
      ensures Valid() && rows == ZeroMat(old(|rows|), ColCount())
    {
      var i := 0;
      while i < |rows|
        invariant 0 <= i <= |rows| && Valid()
        invariant |rows| == old(|rows|)
        invariant forall k | 0 <= k < i :: rows[k] == Zeros(ColCount())
      {
        rows := rows[i := Zeros(ColCount())];
        i := i + 1;
      }
    }

    /** `setCol(colIndex, v)`: entry (i, colIndex) becomes v[i] for each of the 64·ROWS rows v covers. */
    method SetCol(colIndex: nat, v: seq<bool>)
      requires Valid() && colIndex < ColCount() && |v| <= |rows|
      modifies this
      ensures Valid() && rows == SetColumn(old(rows), colIndex, v)
    {
      ghost var before := rows;
      var i := 0;
      while i < |v|
        invariant 0 <= i <= |v| && Valid() && |rows| == |before|
        invariant forall r | 0 <= r < |rows| :: rows[r] == if r < i then before[r][colIndex := v[r]] else before[r]
      {
        SetValue(i, colIndex, v[i]);
        i := i + 1;
      }
    }

    /** `setSubMatrix(start, M)`: overwrites rows start … start + m − 1 with M's rows. */
    method SetSubMatrix(start: nat, m: BitMatrix)
      requires Valid() && m.Valid() && m.cols == cols && start + |m.rows| <= |rows|
      modifies this
      ensures Valid()
      ensures rows == old(rows)[..start] + old(m.rows) + old(rows)[start + old(|m.rows|)..]
    {
      ghost var before := rows;
      var sub := m.rows;
      var i := 0;
      while i < |sub|
        invariant 0 <= i <= |sub| && Valid() && |rows| == |before| && start + |sub| <= |before|
        invariant rows == before[..start] + sub[..i] + before[start + i..]
      {
        rows := rows[start + i := sub[i]];
        i := i + 1;
      }
    }

    /** `addRow(dst, src)`: row dst is XORed with row src. */
    method AddRow(dst: nat, src: nat)
      requires Valid() && dst < |rows| && src < |rows|
      modifies this
      ensures Valid() && rows == AddRowMat(old(rows), dst, src)
    {
      rows := rows[dst := Xor(rows[dst], rows[src])];
    }

    /** `swapRows(a, b)`: exchanges two rows through a temporary. */
    method SwapRows(a: nat, b: nat)
      requires Valid() && a < |rows| && b < |rows|
      modifies this
      ensures Valid() && rows == SwapRowsMat(old(rows), a, b)
    {
      var tmp := rows[a];
      rows := rows[a := rows[b]];
      rows := rows[b := tmp];
    }

    /** `isIdentity()`: false for a non-square matrix, else checks every entry. */
    method IsIdentity() returns (result: bool)
      requires Valid()
      ensures result == IsIdentityMat(rows, ColCount())
    {
      var numRows := |rows|;
      var numCols := ColCount();
      if numRows != numCols {
        return false;
      }
      var i := 0;
      while i < numRows
        invariant 0 <= i <= numRows
        invariant forall r, c | 0 <= r < i && 0 <= c < numCols :: rows[r][c] == (r == c)
      {
        var j := 0;
        while j < numCols
          invariant 0 <= j <= numCols
          invariant forall c | 0 <= c < j :: rows[i][c] == (i == c)
        {
          if rows[i][j] && i != j {
            return false;
          } else if i == j && !rows[i][j] {
            return false;
          }
          j := j + 1;
        }
        i := i + 1;
      }
      return true;
    }

    /**
     * `inv(invertible)`: Gaussian elimination on a copy A of the matrix
     * with the identity I receiving the same row operations, then back
     * substitution column by column.  A column without a pivot reports a
     * singular matrix and returns the square zero matrix.
     */
    method Inv() returns (x: BitMatrix, invertible: bool)
      requires Valid() && |rows| == ColCount()
      ensures fresh(x) && x.Valid() && x.cols == cols
      ensures invertible ==> MatMul(x.rows, rows, |rows|) == Identity(|rows|)
      ensures invertible ==> MatMul(rows, x.rows, |rows|) == Identity(|rows|)
      ensures !invertible ==> x.rows == ZeroMat(|rows|, |rows|) && HasKernel(rows, |rows|)
    {
      var n := |rows|;
      var a := new BitMatrix.FromRows(cols, rows);
      var id := SquareIdentityMatrix(cols);
      ghost var einv := Identity(n);
      IdentityMulLeft(rows, n);
      IdentityMulLeft(Identity(n), n);
      var k := 0;
      while k < n
        invariant 0 <= k <= n
        invariant a.Valid() && id.Valid() && a.cols == cols && id.cols == cols
        invariant ElimState(rows, id.rows, einv, a.rows, n) && Reduced(a.rows, n, k)
      {
        var pos := FindPivot(a, k);
        if pos != -1 {
          if pos != k {
            SwapKeepsState(rows, id.rows, einv, a.rows, n, pos, k);
            SwapKeepsReduced(a.rows, n, k, pos);
            einv := MatMul(einv, SwapRowsMat(Identity(n), pos, k), n);
            a.SwapRows(pos, k);
            id.SwapRows(pos, k);
          }
          einv := ClearBelowPivot(rows, a, id, k, einv);
        } else {
          SingularFromMissingPivot(rows, id.rows, einv, a.rows, n, k);
          invertible := false;
          x := SquareZeroMatrix(cols);
          return;
        }
        k := k + 1;
      }

      x := SolveColumns(a, id);
      InverseFromElimination(rows, id.rows, einv, a.rows, x.rows, n);
      invertible := true;
    }

    /** `operator*(v)`: bit i of the result is the parity of `row_i & v`. */
    method MulVec(v: seq<bool>, newCols: nat) returns (result: seq<bool>)
      requires Valid() && |v| == ColCount() && |rows| <= WordSize * newCols
      ensures result == MatVec(rows, v) + Zeros(WordSize * newCols - |rows|)
    {
      result := Zeros(WordSize * newCols);
      var i := 0;
      while i < |rows|
        invariant 0 <= i <= |rows| && |result| == WordSize * newCols
        invariant result[..i] == MatVec(rows, v)[..i]
        invariant result[i..] == Zeros(WordSize * newCols - i)
      {
        var prod := And(rows[i], v);
        if Parity(prod) {
          result := result[i := true];
        }
        i := i + 1;
      }
    }

    /** `operator*(rhs)`: row i of the product XORs the rows j of rhs with (i, j) set. */
    method Mul(rhs: BitMatrix) returns (result: BitMatrix)
      requires Valid() && rhs.Valid() && |rhs.rows| == ColCount()
      ensures fresh(result) && result.Valid() && result.cols == rhs.cols
      ensures result.rows == MatMul(rows, rhs.rows, rhs.ColCount())
    {
      var numCols := ColCount();
      var numRows := |rows|;
      var w := rhs.ColCount();
      result := new BitMatrix(rhs.cols, numRows);
      var i := 0;
      while i < numRows
        invariant 0 <= i <= numRows
        invariant result.Valid() && |result.rows| == numRows && result.cols == rhs.cols
        invariant forall k | 0 <= k < i :: result.rows[k] == LinComb(rhs.rows, rows[k], w)
        invariant forall k | i <= k < numRows :: result.rows[k] == Zeros(w)
      {
        var j := 0;
        while j < numCols
          invariant 0 <= j <= numCols
          invariant result.Valid() && |result.rows| == numRows && result.cols == rhs.cols
          invariant forall k | 0 <= k < i :: result.rows[k] == LinComb(rhs.rows, rows[k], w)
          invariant forall k | i < k < numRows :: result.rows[k] == Zeros(w)
          invariant result.rows[i] == LinComb(rhs.rows[..j], rows[i], w)
        {
          assert rhs.rows[..j + 1][..j] == rhs.rows[..j];
          if rows[i][j] {
            result.SetRow(i, Xor(result.rows[i], rhs.rows[j]));
          }
          j := j + 1;
        }
        assert rhs.rows[..j] == rhs.rows;
        i := i + 1;
      }
    }

    /** `operator^(rhs)`: a copy of this matrix with rhs's rows XORed in. */
    method XorMatrix(rhs: BitMatrix) returns (result: BitMatrix)
      requires Valid() && rhs.Valid() && rhs.cols == cols && |rows| <= |rhs.rows|
      ensures fresh(result) && result.Valid() && result.cols == cols
      ensures result.rows == XorMat(rows, rhs.rows[..|rows|])
    {
      result := new BitMatrix.FromRows(cols, rows);
      var i := 0;
      while i < |rows|
        invariant 0 <= i <= |rows|
        invariant result.Valid() && |result.rows| == |rows| && result.cols == cols
        invariant forall k | 0 <= k < i :: result.rows[k] == Xor(rows[k], rhs.rows[k])
        invariant forall k | i <= k < |rows| :: result.rows[k] == rows[k]
      {
        result.SetRow(i, Xor(result.rows[i], rhs.rows[i]));
        i := i + 1;
      }
    }

    /** `equals(rhs)`: compares this matrix's rows with the first rows of rhs. */
    method Equals(rhs: BitMatrix) returns (result: bool)
      requires Valid() && rhs.Valid() && rhs.cols == cols && |rows| <= |rhs.rows|
      ensures result == (rows == rhs.rows[..|rows|])
    {
      var i := 0;
      while i < |rows|
        invariant 0 <= i <= |rows|
        invariant rows[..i] == rhs.rows[..i]
      {
        if rows[i] != rhs.rows[i] {
          assert rows[i] != rhs.rows[..|rows|][i];
          return false;
        }
        assert rows[..i + 1] == rows[..i] + [rows[i]];
        assert rhs.rows[..i + 1] == rhs.rows[..i] + [rhs.rows[i]];
        i := i + 1;
      }
      assert rows == rows[..i];
      return true;
    }

    /** `tMult(v)`: the XOR of the rows i with v[i] set, i.e. Mᵀ·v. */
    method TMult(v: seq<bool>) returns (result: seq<bool>)
      requires Valid() && |rows| <= |v|
      ensures result == LinComb(rows, v, ColCount())
      ensures result == MatVec(Transpose(rows, ColCount(), |v|), v)
    {
      result := Zeros(ColCount());
      var i := 0;
      while i < |rows|
        invariant 0 <= i <= |rows|
        invariant result == LinComb(rows[..i], v, ColCount())
      {
        assert rows[..i + 1][..i] == rows[..i];
        if v[i] {
          result := Xor(result, rows[i]);
        }
        i := i + 1;
      }
      assert rows[..i] == rows;
      LinCombIsTransposeProduct(rows, v, ColCount());
    }

    /** `T<ROWS>()`: a 64·COLS × 64·ROWS matrix with (j, i) set iff (i, j) is set. */
    method T(newCols: nat) returns (mt: BitMatrix)
      requires Valid() && |rows| <= WordSize * newCols
      ensures fresh(mt) && mt.Valid() && mt.cols == newCols
      ensures mt.rows == Transpose(rows, ColCount(), WordSize * newCols)
    {
      var numRows := |rows|;
      var numCols := ColCount();
      var h := WordSize * newCols;
      mt := new BitMatrix(newCols, numCols);
      var i := 0;
      while i < numRows
        invariant 0 <= i <= numRows
        invariant mt.Valid() && |mt.rows| == numCols && mt.cols == newCols
        invariant forall c, r {:trigger mt.rows[c][r]} | 0 <= c < numCols && 0 <= r < h :: mt.rows[c][r] == (r < i && rows[r][c])
      {
        var j := 0;
        while j < numCols
          invariant 0 <= j <= numCols
          invariant mt.Valid() && |mt.rows| == numCols && mt.cols == newCols
          invariant forall c, r {:trigger mt.rows[c][r]} | 0 <= c < numCols && 0 <= r < h ::
            mt.rows[c][r] == ((r < i && rows[r][c]) || (r == i && c < j && rows[r][c]))
        {
          ghost var prev := mt.rows;
          if rows[i][j] {
            mt.Set(j, i);
          }
          assert forall c, r | 0 <= c < numCols && 0 <= r < h ::
            mt.rows[c][r] == (if c == j && r == i then rows[i][j] else prev[c][r]);
          j := j + 1;
        }
        i := i + 1;
      }
      forall c | 0 <= c < numCols ensures mt.rows[c] == Column(rows, c, h) {
        assert forall r | 0 <= r < h :: mt.rows[c][r] == Column(rows, c, h)[r];
      }
    }

    /** `pMult(rhs, startCol, endCol, startRow, endRow)`: the block product of columns startCol … endCol with rhs's rows from startRow. */
    method PMult(rhs: BitMatrix, startCol: nat, endCol: nat, startRow: nat, endRow: nat) returns (result: BitMatrix)
      requires Valid() && rhs.Valid()
      requires startCol <= endCol ==> endCol < ColCount() && startRow + (endCol - startCol) < |rhs.rows|
      ensures fresh(result) && result.Valid() && result.cols == rhs.cols
      ensures startCol <= endCol ==>
        result.rows == BlockMul(rows, rhs.rows, startCol, startRow, endCol - startCol + 1, rhs.ColCount())
      ensures endCol < startCol ==> result.rows == ZeroMat(|rows|, rhs.ColCount())
    {
      var numRows := |rows|;
      var w := rhs.ColCount();
      result := new BitMatrix(rhs.cols, numRows);
      var j := startCol;
      while j <= endCol
        invariant startCol <= j && (startCol <= endCol ==> j <= endCol + 1)
        invariant result.Valid() && result.cols == rhs.cols
        invariant endCol < startCol ==> result.rows == ZeroMat(numRows, w)
        invariant startCol <= endCol ==> result.rows == BlockMul(rows, rhs.rows, startCol, startRow, j - startCol, w)
      {
        XorRowsWithBitSet(result, rows, j, rhs.rows[startRow + (j - startCol)]);
        BlockMulColumnStep(rows, rhs.rows, startCol, startRow, j, w);
        j := j + 1;
      }
    }

    /** `pMult(rhs, startRow, endRow)`: `pMult` over all columns. */
    method PMultAll(rhs: BitMatrix, startRow: nat, endRow: nat) returns (result: BitMatrix)
      requires Valid() && rhs.Valid() && cols > 0
      requires startRow + (ColCount() - 1) < |rhs.rows|
      ensures fresh(result) && result.Valid() && result.cols == rhs.cols
      ensures result.rows == BlockMul(rows, rhs.rows, 0, startRow, ColCount(), rhs.ColCount())
    {
      result := PMult(rhs, 0, ColCount() - 1, startRow, endRow);
    }

    /** `splitH2(index)`: the left (0) or right (1) COLS/2 words of every row. */
    method SplitH2(index: nat) returns (result: BitMatrix)
      requires Valid() && (index == 0 || index == 1)
      ensures fresh(result) && result.Valid() && result.cols == cols / 2
      ensures result.rows == SliceCols(rows, index * (WordSize * (cols / 2)), (index + 1) * (WordSize * (cols / 2)))
    {
      var half := WordSize * (cols / 2);
      result := new BitMatrix(cols / 2, |rows|);
      var i := 0;
      while i < |rows|
        invariant 0 <= i <= |rows|
        invariant result.Valid() && |result.rows| == |rows| && result.cols == cols / 2
        invariant forall k | 0 <= k < i :: result.rows[k] == rows[k][index * half..(index + 1) * half]
      {
        result.SetRow(i, rows[i][index * half..(index + 1) * half]);
        i := i + 1;
      }
    }

    /** `splitV2(index)`: rows [index·n/2, index·n/2 + n/2) for index 0 or 1. */
    method SplitV2(index: nat) returns (result: BitMatrix)
      requires Valid() && (index == 0 || index == 1)
      ensures fresh(result) && result.Valid() && result.cols == cols
      ensures result.rows == rows[index * (|rows| / 2)..index * (|rows| / 2) + |rows| / 2]
    {
      var sub := |rows| / 2;
      var start := index * sub;
      result := new BitMatrix.FromRows(cols, rows[start..start + sub]);
    }

    /** `splitV3(index)`: rows [index·n/3, index·n/3 + n/3) for index 0, 1 or 2. */
    method SplitV3(index: nat) returns (result: BitMatrix)
      requires Valid() && index < 3
      ensures fresh(result) && result.Valid() && result.cols == cols
      ensures result.rows == rows[index * (|rows| / 3)..index * (|rows| / 3) + |rows| / 3]
    {
      var sub := |rows| / 3;
      var start := index * sub;
      result := new BitMatrix.FromRows(cols, rows[start..start + sub]);
    }
  }

  /** The pivot search of `inv`: the first row at or below k with a one in column k, or −1. */
  method FindPivot(a: BitMatrix, k: nat) returns (pos: int)
    requires a.Valid() && k < a.ColCount()
    ensures pos == -1 ==> forall r | k <= r < |a.rows| :: !a.rows[r][k]
    ensures pos != -1 ==> k <= pos < |a.rows| && a.rows[pos][k]
    ensures pos != -1 ==> forall r | k <= r < pos :: !a.rows[r][k]
  {
    pos := -1;
    var i := k;
    while i < |a.rows|
      invariant k <= i <= |a.rows| || i == k
      invariant forall r | k <= r < i :: !a.rows[r][k]
    {
      if a.Get(i, k) {
        pos := i;
        break;
      }
      i := i + 1;
    }
  }

  /**
   * The elimination loop of `inv` below pivot k: every later row with a one
   * in column k is XORed with row k, in A and in I alike.
   */
  method ClearBelowPivot(m: Mat, a: BitMatrix, id: BitMatrix, k: nat, ghost einv: Mat) returns (ghost einv': Mat)
    requires a != id && a.Valid() && id.Valid() && a.cols == id.cols
    requires ElimState(m, id.rows, einv, a.rows, |m|) && Reduced(a.rows, |m|, k) && k < |m|
    requires a.rows[k][k]
    modifies a, id
    ensures a.Valid() && id.Valid()
    ensures ElimState(m, id.rows, einv', a.rows, |m|) && Reduced(a.rows, |m|, k + 1)
  {
    var n := |m|;
    einv' := einv;
    var i := k + 1;
    while i < n
      invariant k + 1 <= i <= n
      invariant a.Valid() && id.Valid() && a.cols == id.cols
      invariant ElimState(m, id.rows, einv', a.rows, n) && Reduced(a.rows, n, k)
      invariant a.rows[k][k] && forall r | k < r < i :: !a.rows[r][k]
    {
      if a.Get(i, k) {
        AddKeepsState(m, id.rows, einv', a.rows, n, i, k);
        AddKeepsReduced(a.rows, n, k, i);
        einv' := MatMul(einv', AddRowMat(Identity(n), i, k), n);
        a.SetRow(i, Xor(a.rows[i], a.rows[k]));
        id.SetRow(i, Xor(id.rows[i], id.rows[k]));
      }
      i := i + 1;
    }
  }

  /** The inner loop of `pMult`: every row i of m with a[i][j] set has r XORed in. */
  method XorRowsWithBitSet(m: BitMatrix, a: Mat, j: nat, r: seq<bool>)
    requires m.Valid() && |m.rows| == |a| && |r| == m.ColCount() && forall k | 0 <= k < |a| :: j < |a[k]|
    modifies m
    ensures m.Valid() && m.rows == XorSelectedRows(old(m.rows), a, j, r, |a|)
  {
    ghost var before := m.rows;
    var i := 0;
    while i < |a|
      invariant 0 <= i <= |a|
      invariant m.Valid() && m.rows == XorSelectedRows(before, a, j, r, i)
    {
      if a[i][j] {
        m.SetRow(i, Xor(m.rows[i], r));
      }
      i := i + 1;
    }
  }

  /** Solves a·x = id column by column on a fully reduced `a`; `x` is the inverse's candidate. */
  method SolveColumns(a: BitMatrix, id: BitMatrix) returns (x: BitMatrix)
    requires a.Valid() && id.Valid() && a.cols == id.cols && |a.rows| == a.ColCount() && |id.rows| == |a.rows|
    requires Reduced(a.rows, |a.rows|, |a.rows|)
    ensures fresh(x) && x.Valid() && x.cols == a.cols && |x.rows| == |a.rows|
    ensures MatMul(a.rows, x.rows, |a.rows|) == id.rows
  {
    var n := |a.rows|;
    x := SquareZeroMatrix(a.cols);
    var j := 0;
    while j < n
      invariant 0 <= j <= n && fresh(x) && x.Valid() && x.cols == a.cols && |x.rows| == n
      invariant forall c | 0 <= c < j :: MatVec(a.rows, Column(x.rows, c, n)) == Column(id.rows, c, n)
    {
      var v := BackSubstitute(a, id, j);
      ColumnOfSetColumn(x.rows, j, v, n);
      x.SetCol(j, v);
      j := j + 1;
    }
    ProductFromColumns(a.rows, x.rows, id.rows, n);
  }

  /**
   * The back substitution of `inv` for column j: from the last row up,
   * x[i] becomes (x · A_i) ⊕ I(i, j), which solves A·x = column j of I.
   */
  method BackSubstitute(a: BitMatrix, id: BitMatrix, j: nat) returns (v: seq<bool>)
    requires Reduced(a.rows, |a.rows|, |a.rows|) && |id.rows| == |a.rows|
    requires IsMatrix(id.rows, |a.rows|) && j < |a.rows|
    ensures |v| == |a.rows|
    ensures MatVec(a.rows, v) == Column(id.rows, j, |a.rows|)
  {
    var n := |a.rows|;
    v := Zeros(n);
    var i: int := n - 1;
    while i >= 0
      invariant -1 <= i < n && |v| == n
      invariant forall t | 0 <= t <= i :: !v[t]
      invariant forall t | i < t < n :: Dot(a.rows[t], v) == id.rows[t][j]
    {
      BackSubstStep(a.rows, n, v, i, id.rows[i][j]);
      v := v[i := Dot(v, a.rows[i]) != id.rows[i][j]];
      i := i - 1;
    }
  }

  /** `zeroMatrix(numRows)`: numRows zero vectors. */
  method ZeroMatrix(cols: nat, numRows: nat) returns (m: BitMatrix)
    ensures fresh(m) && m.Valid() && m.cols == cols
    ensures m.rows == ZeroMat(numRows, WordSize * cols)
  {
    var rows: Mat := [];
    var i := 0;
    while i < numRows
      invariant 0 <= i <= numRows
      invariant rows == ZeroMat(i, WordSize * cols)
    {
      rows := rows + [Zeros(WordSize * cols)];
      i := i + 1;
    }
    m := new BitMatrix.FromRows(cols, rows);
  }

  /** `squareZeroMatrix()`: 64·COLS zero rows. */
  method SquareZeroMatrix(cols: nat) returns (m: BitMatrix)
    ensures fresh(m) && m.Valid() && m.cols == cols
    ensures m.rows == ZeroMat(WordSize * cols, WordSize * cols)
  {
    m := ZeroMatrix(cols, WordSize * cols);
  }

  /** `squareIdentityMatrix()`: 64·COLS rows, row i the unit vector e_i. */
  method SquareIdentityMatrix(cols: nat) returns (m: BitMatrix)
    ensures fresh(m) && m.Valid() && m.cols == cols
    ensures m.rows == Identity(WordSize * cols)
    ensures IsIdentityMat(m.rows, m.ColCount())
  {
    var n := WordSize * cols;
    var rows: Mat := [];
    var i := 0;
    while i < n
      invariant 0 <= i <= n
      invariant rows == Identity(n)[..i]
    {
      var e := Zeros(n);
      e := e[i := true];
      assert e == Unit(n, i);
      rows := rows + [e];
      i := i + 1;
    }
    m := new BitMatrix.FromRows(cols, rows);
  }

  /** `augH(lhs, rhs)`: row i is lhs's row i followed by rhs's row i. */
  method AugH(lhs: BitMatrix, rhs: BitMatrix) returns (m: BitMatrix)
    requires lhs.Valid() && rhs.Valid() && |lhs.rows| <= |rhs.rows|
    ensures fresh(m) && m.Valid() && m.cols == lhs.cols + rhs.cols
    ensures m.rows == ConcatCols(lhs.rows, rhs.rows)
  {
    var rows: Mat := [];
    var i := 0;
    while i < |lhs.rows|
      invariant 0 <= i <= |lhs.rows|
      invariant rows == ConcatCols(lhs.rows[..i], rhs.rows)
    {
      rows := rows + [lhs.rows[i] + rhs.rows[i]];
      i := i + 1;
    }
    assert lhs.rows[..i] == lhs.rows;
    m := new BitMatrix.FromRows(lhs.cols + rhs.cols, rows);
  }

  /** `augH(lhs, mid, rhs)`: row i is the three rows i side by side. */
  method AugH3(lhs: BitMatrix, mid: BitMatrix, rhs: BitMatrix) returns (m: BitMatrix)
    requires lhs.Valid() && mid.Valid() && rhs.Valid()
    requires |lhs.rows| <= |mid.rows| && |lhs.rows| <= |rhs.rows|
    ensures fresh(m) && m.Valid() && m.cols == lhs.cols + mid.cols + rhs.cols
    ensures m.rows == ConcatCols(ConcatCols(lhs.rows, mid.rows), rhs.rows)
  {
    var rows: Mat := [];
    var i := 0;
    while i < |lhs.rows|
      invariant 0 <= i <= |lhs.rows|
      invariant rows == ConcatCols(ConcatCols(lhs.rows[..i], mid.rows), rhs.rows)
    {
      rows := rows + [lhs.rows[i] + mid.rows[i] + rhs.rows[i]];
      i := i + 1;
    }
    assert lhs.rows[..i] == lhs.rows;
    m := new BitMatrix.FromRows(lhs.cols + mid.cols + rhs.cols, rows);
  }

  /** `augV(top, bot)`: top's rows followed by bot's rows. */
  method AugV(top: BitMatrix, bot: BitMatrix) returns (m: BitMatrix)
    requires top.Valid() && bot.Valid() && top.cols == bot.cols
    ensures fresh(m) && m.Valid() && m.cols == top.cols
    ensures m.rows == top.rows + bot.rows
  {
    m := new BitMatrix.FromRows(top.cols, top.rows + bot.rows);
  }

  /** `augV(top, mid, bot)`: top's, mid's and bot's rows in order. */
  method AugV3(top: BitMatrix, mid: BitMatrix, bot: BitMatrix) returns (m: BitMatrix)
    requires top.Valid() && mid.Valid() && bot.Valid() && top.cols == mid.cols == bot.cols
    ensures fresh(m) && m.Valid() && m.cols == top.cols
    ensures m.rows == top.rows + mid.rows + bot.rows
  {
    m := new BitMatrix.FromRows(top.cols, top.rows + mid.rows + bot.rows);
  }

  /** `projMatrix(start, end)`: the square matrix with ones on the diagonal from start to end inclusive. */
  method ProjMatrix(cols: nat, start: nat, end: nat) returns (m: BitMatrix)
    requires start <= end ==> end < WordSize * cols
    ensures fresh(m) && m.Valid() && m.cols == cols
    ensures |m.rows| == WordSize * cols
    ensures forall i, j | 0 <= i < WordSize * cols && 0 <= j < WordSize * cols ::
      m.rows[i][j] == (i == j && start <= i <= end)
  {
    m := SquareZeroMatrix(cols);
    var i := start;
    while i <= end
      invariant start <= i && (start <= end ==> i <= end + 1) && (end < start ==> i == start)
      invariant m.Valid() && m.cols == cols && |m.rows| == WordSize * cols
      invariant forall r, c | 0 <= r < WordSize * cols && 0 <= c < WordSize * cols ::
        m.rows[r][c] == (r == c && start <= r < i)
      modifies m
    {
      ghost var prev := m.rows;
      m.Set(i, i);
      assert forall r, c | 0 <= r < WordSize * cols && 0 <= c < WordSize * cols ::
        m.rows[r][c] == (if r == i && c == i then true else prev[r][c]);
      i := i + 1;
    }
  }
}
