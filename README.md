# GF(2) algebra kernel of krypto

This project models the algebra at the heart of the krypto library, a
homomorphic-encryption and encrypted-search library written in C++. Everything
happens over GF(2), where addition is XOR and multiplication is AND. The
library builds on these pieces:

- **`BitVector<N>`**: N 64-bit words.
- **`BitMatrix<COLS>`**: a vector of row `BitVector`s. It provides products,
  transposition, augmentation, splitting and inversion by Gaussian elimination with back
  substitution.
- **Quadratic function tuples**: maps from 64·N input bits to 64·M output bits.
  - `MultiQuadTuple` (and its experimental twin `MQT`) stores one contribution
    row per monomial x_i·x_j, i ≤ j.
  - The newer `MultiQuadTuple` in the local tests adds constant terms.
  - `MultivariatePolynomialFunction` pairs an explicit monomial list with its
    contributions.
  - `MultiQuadTupleChain` applies such tuples one after the other.
- **The V2 polynomials**:
  - `MonomialMatrixChain` and `ConstantChainHeader`: linked lists of monomial
    matrices, with a constant.
  - `LinearFactorPoly` and `SecretPolynomial`: products of linear forms, with a
    constant.

The modules follow the library's layering:

| module | file | models |
|---|---|---|
| `GF2` | gf2.dfy | Bits, words, XOR/AND/OR, parity and the inner product. A 64-bit word is modelled as its 64 bits; `Unpack` relates word-packed data to the bit sequence it holds. |
| `BitVectors` | bitvector.dfy | `BitVector<N>`: a class over an array of words, specified by the bits it holds. |
| `Matrices` | matrices.dfy | Bit matrices as row sequences: M·v, the row combination Mᵀ·v (`tMult`), products, transposes, augmentation and row operations. |
| `Elimination` | elimination.dfy | The algebra behind `inv`: elimination invariants, back substitution, and the kernel argument for singular matrices. |
| `BitMatrices` | bitmatrix.dfy | `BitMatrix<COLS>` (the version in the local tests): a class whose rows field the methods update. |
| `QuadLayout` | quadlayout.dfy | The row layout of the n(n+1)/2 monomials and `getIndex`. |
| `MultiQuad` | multiquad.dfy | `MultiQuadTuple` and `MQT`: evaluation, composition with a linear map (`operator*`), `rMult`, `^`, and `getMultiQuadTuple`. |
| `AffineQuad` | affinequad.dfy | The tuple with constant terms: `zeroMultiQuadTuple`, `rMult` and `augV`. |
| `PolynomialFunctions` | mpf.dfy | `MultivariatePolynomialFunction`. |
| `Chains` | chain.dfy | `MultiQuadTupleChain`. |
| `MonomialChains` | monomial_chain.dfy | The V2 `MonomialMatrixChain` (a linked list of nodes with a footprint) and `ConstantChainHeader`. |
| `LinearFactors` | linear_factor.dfy | The V2 `LinearFactorPoly` (an array of factor matrices) and `SecretPolynomial`. |

Each polynomial type has a value function, written the way the C++ computes it:

- `MultiQuad.Eval`: the XOR of the contribution rows of the monomials that are 1.
- `MonomialChains.NodeValue`: all ones, ANDed with a row for each clear input bit.
- `LinearFactors.FactorsValue`: the AND of the factors' `tMult`.

The methods that model the C++ loops are proved equal to these value functions. The
algebraic laws are then proved about the value functions:

- composition: (f·C)(v) = f(C·v);
- output maps: rMult(C)(x) = C·f(x);
- XOR of tuples, stacking and splitting of outputs, and partial evaluation.

The value of `stackRows(f, g)` at u ‖ v is a product of sums, one sum per
factor. It equals f(u) ⊕ g(v) only when there is a single factor; see "## Findings".

## Model

| member | source | states |
|---|---|---|
| GF2.UnpackSet | krypto-lib/src/main/cpp/BitVector.h:55-58 | Setting bit n of the packed words sets bit n of the vector and no other bit. |
| GF2.UnpackClear | krypto-lib/src/main/cpp/BitVector.h:60-63 | Clearing bit n of the packed words clears bit n and no other bit. |
| GF2.UnpackAnd | krypto-lib/src/main/cpp/BitVector.h:65-71 | The word-wise AND of two packed vectors holds the bitwise AND of their bits. |
| GF2.UnpackOr | krypto-lib/src/main/cpp/BitVector.h:73-79 | The word-wise OR holds the bitwise OR. |
| GF2.UnpackXor | krypto-lib/src/main/cpp/BitVector.h:81-87 | The word-wise XOR holds the bitwise XOR. |
| GF2.UnpackZero | krypto-lib/src/main/cpp/BitVector.h:196-200 | N zero words hold 64·N clear bits. |
| GF2.UnpackInjective | krypto-lib/src/main/cpp/BitVector.h:202-213 | Two word sequences hold the same bits exactly when the words are equal, so comparing words decides bit equality. |
| GF2.UnpackIsZero | krypto-lib/src/main/cpp/BitVector.h:175-182 | A packed vector has no bit set exactly when every word is zero. |
| GF2.ParityIsOddCount | krypto-lib/src/main/cpp/BitVector.h:184-194 | The parity of a bit sequence is true exactly when an odd number of its bits are set. |
| GF2.ParityFoldXor | krypto-lib/src/main/cpp/BitVector.h:188-194 | The parity of all bits of a packed vector equals the parity of the XOR of its words. |
| GF2.DotXor | krypto-lib/src/main/cpp/BitVector.h:110-118 | The inner product is linear: (a ⊕ b)·v = a·v ⊕ b·v. |
| BitVectors.BitVector.constructor | krypto-lib/src/main/cpp/BitVector.h:23-25 | A new vector of N words has all 64·N bits clear. |
| BitVectors.BitVector.Copy | krypto-lib/src/main/cpp/BitVector.h:27-31 | The copy is a fresh array holding the same bits. |
| BitVectors.BitVector.Get | krypto-lib/src/main/cpp/BitVector.h:47-49 | Reading bit n & 63 of word n >> 6 returns bit n of the vector. |
| BitVectors.BitVector.Set | krypto-lib/src/main/cpp/BitVector.h:55-58 | Bit n becomes 1; every other bit keeps its value. |
| BitVectors.BitVector.Clear | krypto-lib/src/main/cpp/BitVector.h:60-63 | Bit n becomes 0; every other bit keeps its value. |
| BitVectors.BitVector.AndOp | krypto-lib/src/main/cpp/BitVector.h:65-71 | The result is a fresh vector holding the bitwise AND of the operands. |
| BitVectors.BitVector.OrOp | krypto-lib/src/main/cpp/BitVector.h:73-79 | The result is a fresh vector holding the bitwise OR. |
| BitVectors.BitVector.XorOp | krypto-lib/src/main/cpp/BitVector.h:81-87 | The result is a fresh vector holding the bitwise XOR. |
| BitVectors.BitVector.Assign | krypto-lib/src/main/cpp/BitVector.h:89-94 | After assignment the vector holds rhs's former bits, including when rhs is the vector itself. |
| BitVectors.BitVector.XorAssign | krypto-lib/src/main/cpp/BitVector.h:96-101 | The vector becomes its old bits XOR rhs's old bits; x ^= x clears x. |
| BitVectors.BitVector.AndAssign | krypto-lib/src/main/cpp/BitVector.h:103-108 | The vector becomes its old bits AND rhs's old bits. |
| BitVectors.BitVector.Dot | krypto-lib/src/main/cpp/BitVector.h:110-118 | The result is the GF(2) inner product of the two bit sequences. |
| BitVectors.BitVector.Equals | krypto-lib/src/main/cpp/BitVector.h:120-127 | True exactly when the two vectors hold the same bits. |
| BitVectors.BitVector.Swap | krypto-lib/src/main/cpp/BitVector.h:129-134 | Bits i and j exchange their values; all other bits are unchanged. |
| BitVectors.BitVector.Proj2Into | krypto-lib/src/main/cpp/BitVector.h:154-158 | v1 receives the first half of the bits and v2 the second half. |
| BitVectors.BitVector.Proj2 | krypto-lib/src/main/cpp/BitVector.h:160-165 | The result holds half `part` of the bits. |
| BitVectors.Proj | krypto-lib/src/main/cpp/BitVector.h:167-173 | The result holds bits 64·part·N up to 64·(part+1)·N of a 2N-word vector. |
| BitVectors.BitVector.IsZero | krypto-lib/src/main/cpp/BitVector.h:175-182 | True exactly when no bit is set. |
| BitVectors.BitVector.Parity | krypto-lib/src/main/cpp/BitVector.h:184-194 | The result is the XOR of all bits, which is true exactly when an odd number of bits are set. |
| BitVectors.BitVector.Zero | krypto-lib/src/main/cpp/BitVector.h:196-200 | Every bit becomes 0. |
| BitVectors.BitVector.Eq | krypto-lib/src/main/cpp/BitVector.h:202-213 | True exactly when both vectors have the same length and the same bits. |
| BitVectors.BitVector.Neq | krypto-lib/src/main/cpp/BitVector.h:215-226 | The exact negation of `Eq`. |
| BitVectors.ZeroVector | krypto-lib/src/main/cpp/BitVector.h:237-240 | The result has N words and no bit set. |
| Matrices.LinCombIsTransposeProduct | krypto-lib/src/localTests/test_BitMatrix.h:373-385 | XOR-ing the rows selected by v is the product of the transpose with v, Mᵀ·v. |
| Matrices.MatMulVec | krypto-lib/src/localTests/test_BitMatrix.h:105-118 | The matrix product composes the linear maps: (A·B)·v = A·(B·v). |
| Matrices.IdentityMatVec | krypto-lib/src/localTests/test_BitMatrix.h:79-89 | The identity matrix maps every vector to itself. |
| Matrices.IdentityMulLeft | krypto-lib/src/localTests/test_BitMatrix.h:79-89 | I·B = B for every B. |
| Matrices.IdentityIsIdentity | krypto-lib/src/localTests/test_BitMatrix.h:262-280 | The identity passes `isIdentity`: it is square with ones exactly on the diagonal. |
| Matrices.TransposeTwice | krypto-lib/src/localTests/test_BitMatrix.h:303-314 | Transposing twice gives back the original matrix. |
| Matrices.LinCombOfTranspose | krypto-lib/src/localTests/test_BitMatrix.h:303-314 | Combining the rows of Mᵀ by the bits of x gives M·x. |
| Matrices.SplitAugV | krypto-lib/src/localTests/test_BitMatrix.h:532-537 | `splitV2(0)` and `splitV2(1)` of the vertical augmentation of two equal-height blocks give back the two blocks. |
| Matrices.SplitAugH | krypto-lib/src/localTests/test_BitMatrix.h:516-525 | `splitH2(0)` and `splitH2(1)` of the horizontal augmentation of two equal-width blocks give back the two blocks. |
| Matrices.AddRowTwice | krypto-lib/src/localTests/test_BitMatrix.h:611-613 | Adding the same row twice restores the matrix, so the row addition is its own inverse. |
| Matrices.AddRowIsProduct | krypto-lib/src/localTests/test_BitMatrix.h:611-613 | A row addition equals a left product with the identity after the same addition. |
| Matrices.SwapRowsTwice | krypto-lib/src/localTests/test_BitMatrix.h:619-623 | Swapping the same two rows twice restores the matrix. |
| Matrices.SwapRowsIsProduct | krypto-lib/src/localTests/test_BitMatrix.h:619-623 | A row swap equals a left product with a swapped identity. |
| Matrices.ColumnOfSetColumn | krypto-lib/src/localTests/test_BitMatrix.h:232-236 | After `setCol(c, v)`, reading column c gives v and every other column is unchanged. |
| Elimination.BackSubstStep | krypto-lib/src/localTests/test_BitMatrix.h:359-365 | One back-substitution step solves row i for the right-hand bit and leaves every row with a zero in column i unaffected. |
| Elimination.AddKeepsState | krypto-lib/src/localTests/test_BitMatrix.h:344-352 | Applying a row addition to both the working matrix and its companion keeps companion·original = working matrix, with the companion still invertible. |
| Elimination.SwapKeepsState | krypto-lib/src/localTests/test_BitMatrix.h:336-343 | The same invariant holds for a row swap. |
| Elimination.InverseFromElimination | krypto-lib/src/localTests/test_BitMatrix.h:331-368 | When every column has a pivot, the back-substituted matrix is a two-sided inverse of the original. |
| Elimination.SingularFromMissingPivot | krypto-lib/src/localTests/test_BitMatrix.h:336-357 | A column with no pivot means the original matrix has a non-zero kernel vector. |
| Elimination.KernelFromMissingPivot | krypto-lib/src/localTests/test_BitMatrix.h:344-357 | A column k with no pivot yields a vector z with z[k] = 1 and A·z = 0. |
| Elimination.KernelMeansNoInverse | krypto-lib/src/localTests/test_BitMatrix.h:353-357 | A matrix with a non-zero kernel vector has no left inverse, so reporting "not invertible" is correct. |
| BitMatrices.BitMatrix.constructor | krypto-lib/src/localTests/test_BitMatrix.h:35-37 | The matrix holds numRows zero rows of 64·COLS bits. |
| BitMatrices.BitMatrix.FromRows | krypto-lib/src/localTests/test_BitMatrix.h:43-45 | The matrix holds exactly the given rows. |
| BitMatrices.BitMatrix.Copy | krypto-lib/src/localTests/test_BitMatrix.h:49-51 | The copy holds the same rows. |
| BitMatrices.ZeroMatrix | krypto-lib/src/localTests/test_BitMatrix.h:59-65 | numRows rows with every entry 0. |
| BitMatrices.SquareZeroMatrix | krypto-lib/src/localTests/test_BitMatrix.h:71-73 | A 64·COLS-square matrix with every entry 0. |
| BitMatrices.SquareIdentityMatrix | krypto-lib/src/localTests/test_BitMatrix.h:79-89 | The 64·COLS identity, which also passes `isIdentity`. |
| BitMatrices.BitMatrix.Mul | krypto-lib/src/localTests/test_BitMatrix.h:105-118 | The result is the matrix product, with row i the combination of rhs's rows selected by row i. |
| BitMatrices.BitMatrix.MulVec | krypto-lib/src/localTests/test_BitMatrix.h:124-135 | Bit i of the result is row i's inner product with v, padded with zeros to 64·NEWCOLS bits. |
| BitMatrices.BitMatrix.XorMatrix | krypto-lib/src/localTests/test_BitMatrix.h:141-148 | The result is the entry-wise XOR of the two matrices. |
| BitMatrices.BitMatrix.Equals | krypto-lib/src/localTests/test_BitMatrix.h:155-161 | True exactly when every row equals rhs's row of the same index. |
| BitMatrices.BitMatrix.Get | krypto-lib/src/localTests/test_BitMatrix.h:169-171 | Entry (row, col) is bit row of M·e_col, so the entry is the matrix's action on a unit vector. |
| BitMatrices.BitMatrix.GetRow | krypto-lib/src/localTests/test_BitMatrix.h:178-180 | The row's bits are the entries `get(row, c)`. |
| BitMatrices.BitMatrix.Set | krypto-lib/src/localTests/test_BitMatrix.h:199-201 | Entry (row, col) becomes 1 and nothing else changes. |
| BitMatrices.BitMatrix.Clear | krypto-lib/src/localTests/test_BitMatrix.h:207-209 | Entry (row, col) becomes 0 and nothing else changes. |
| BitMatrices.BitMatrix.SetValue | krypto-lib/src/localTests/test_BitMatrix.h:215-218 | Entry (row, col) becomes value and nothing else changes. |
| BitMatrices.BitMatrix.SetRow | krypto-lib/src/localTests/test_BitMatrix.h:224-226 | Exactly one row is replaced. |
| BitMatrices.BitMatrix.SetCol | krypto-lib/src/localTests/test_BitMatrix.h:232-236 | Column colIndex takes v's bits in the rows v covers; other entries are unchanged (see ColumnOfSetColumn). |
| BitMatrices.BitMatrix.Zero | krypto-lib/src/localTests/test_BitMatrix.h:242-245 | Every entry becomes 0 and the shape is kept. |
| BitMatrices.BitMatrix.SetSubMatrix | krypto-lib/src/localTests/test_BitMatrix.h:251-256 | Rows start up to start + m − 1 are replaced by M's rows; the rows before and after are unchanged. |
| BitMatrices.BitMatrix.IsIdentity | krypto-lib/src/localTests/test_BitMatrix.h:262-280 | True exactly when the matrix is square with ones on the diagonal and zeros elsewhere. |
| BitMatrices.BitMatrix.T | krypto-lib/src/localTests/test_BitMatrix.h:303-314 | Entry (j, i) of the result is entry (i, j) of the matrix; columns beyond the row count are zero. |
| BitMatrices.BitMatrix.Inv | krypto-lib/src/localTests/test_BitMatrix.h:331-368 | When `invertible` is set, the result is a two-sided inverse. Otherwise the result is the square zero matrix and the input has a non-zero kernel vector, so no inverse exists. |
| BitMatrices.FindPivot | krypto-lib/src/localTests/test_BitMatrix.h:336-343 | Returns the first row at or below k with a one in column k, or −1 when no such row exists. |
| BitMatrices.ClearBelowPivot | krypto-lib/src/localTests/test_BitMatrix.h:344-352 | After clearing, column k is reduced, and the companion still records the row operations applied. |
| BitMatrices.SolveColumns | krypto-lib/src/localTests/test_BitMatrix.h:359-365 | On a fully reduced matrix A, column-by-column back substitution yields X with A·X equal to the companion. |
| BitMatrices.BackSubstitute | krypto-lib/src/localTests/test_BitMatrix.h:359-365 | The computed x solves A·x = column j of the companion. |
| BitMatrices.BitMatrix.TMult | krypto-lib/src/localTests/test_BitMatrix.h:377-385 | The result is the XOR of the rows selected by v, and equals Mᵀ·v. |
| BitMatrices.BitMatrix.PMult | krypto-lib/src/localTests/test_BitMatrix.h:395-409 | The result is the block product of columns startCol through endCol with rhs's rows from startRow; it is zero when the column range is empty. |
| BitMatrices.XorRowsWithBitSet | krypto-lib/src/localTests/test_BitMatrix.h:400-407 | Exactly the rows whose bit j is set get r XORed in. |
| BitMatrices.BitMatrix.PMultAll | krypto-lib/src/localTests/test_BitMatrix.h:411-415 | The block product over all columns. |
| BitMatrices.AugH | krypto-lib/src/localTests/test_BitMatrix.h:446-457 | Row i of the result is lhs's row i followed by rhs's row i. |
| BitMatrices.AugH3 | krypto-lib/src/localTests/test_BitMatrix.h:465-476 | Row i of the result is the three rows i side by side. |
| BitMatrices.AugV | krypto-lib/src/localTests/test_BitMatrix.h:484-491 | top's rows, then bot's rows. |
| BitMatrices.AugV3 | krypto-lib/src/localTests/test_BitMatrix.h:499-508 | top's rows, then mid's, then bot's. |
| BitMatrices.BitMatrix.SplitH2 | krypto-lib/src/localTests/test_BitMatrix.h:516-525 | The left or right half of every row; SplitAugH shows this undoes `augH`. |
| BitMatrices.BitMatrix.SplitV2 | krypto-lib/src/localTests/test_BitMatrix.h:532-537 | The top or bottom half of the rows; SplitAugV shows this undoes `augV`. |
| BitMatrices.BitMatrix.SplitV3 | krypto-lib/src/localTests/test_BitMatrix.h:544-549 | One of three equal row blocks. |
| BitMatrices.ProjMatrix | krypto-lib/src/localTests/test_BitMatrix.h:556-563 | Square, with (i, j) set exactly when i = j and start ≤ i ≤ end. |
| BitMatrices.BitMatrix.AddRow | krypto-lib/src/localTests/test_BitMatrix.h:611-613 | Row dst becomes row dst XOR row src; this is invertible and equals a left product (AddRowTwice, AddRowIsProduct). |
| BitMatrices.BitMatrix.SwapRows | krypto-lib/src/localTests/test_BitMatrix.h:619-623 | Rows a and b are exchanged; this is an involution and equals a left product. |
| QuadLayout.NumMonomialsClosedForm | krypto-lib/src/main/cpp/MultiQuadTuple.h:112 | (n(n+1)) >> 1 counts the monomials x_i·x_j with i ≤ j < n. |
| QuadLayout.RowStartClosedForm | krypto-lib/src/main/cpp/MultiQuadTuple.h:98-104 | The block of x_i starts (n−i)(n−i+1)/2 rows before the end, which is the `toSubtract` term of `getIndex`. |
| QuadLayout.GetIndex | krypto-lib/src/main/cpp/MultiQuadTuple.h:98-104 | The closed form gives the row where the evaluation counter meets x_i·x_j, which is below n(n+1)/2. |
| QuadLayout.CounterLayout | krypto-lib/src/main/cpp/MultiQuadTuple.h:31-45 | Skipping n − i rows past block i lands on the next block, and the counter ends at numInputMonomials. |
| QuadLayout.GetIndexSymmetric | krypto-lib/src/main/cpp/MultiQuadTuple.h:98-104 | getIndex(main, aux) = getIndex(aux, main). |
| QuadLayout.GetIndexFirstRow | krypto-lib/src/main/cpp/MultiQuadTuple.h:98-104 | x_0·x_j sits at row j. |
| QuadLayout.GetIndexInjective | krypto-lib/src/main/cpp/MultiQuadTuple.h:98-104 | Distinct monomials (i ≤ j) get distinct rows. |
| QuadLayout.MonomialAt | krypto-lib/src/main/cpp/MultiQuadTuple.h:31-45 | Row getIndex(i, j) of the monomial vector at x is x_i·x_j. |
| QuadLayout.MonomialsOfZero | krypto-lib/src/main/cpp/MultiQuadTuple.h:31-45 | No monomial is 1 at the zero input. |
| MultiQuad.MultiQuadTuple.InputCount | krypto-lib/src/main/cpp/MultiQuadTuple.h:90-92 | The input count is a multiple of 64, namely 64·NUM_INPUTS. |
| MultiQuad.MultiQuadTuple.InputMonomialCount | krypto-lib/src/main/cpp/MultiQuadTuple.h:94-96 | n(n+1)/2 for n input bits. |
| MultiQuad.MultiQuadTuple.OutputMonomialCount | krypto-lib/src/main/cpp/MQT.h:83 | m(m+1)/2 for m output bits. |
| MultiQuad.Evaluate | krypto-lib/src/main/cpp/MultiQuadTuple.h:31-45 | The counter-driven loop returns exactly the XOR of the contribution rows of the monomials that are 1 at the input. |
| MultiQuad.AddSelectedRows | krypto-lib/src/main/cpp/MultiQuadTuple.h:35-41 | After the block of a set bit i, the counter is at the start of block i + 1 and the accumulator holds the value over all rows so far. |
| MultiQuad.EvalRowStep | krypto-lib/src/main/cpp/MultiQuadTuple.h:38-40 | With x_i set, the row of x_i·x_j contributes exactly when x_j is set. |
| MultiQuad.ZeroMultiQuadTuple | krypto-lib/src/main/cpp/MultiQuadTuple.h:15-17 | A well-formed tuple with the requested input and output counts; ZeroTupleIsZero shows it is the zero function. |
| MultiQuad.ZeroTupleIsZero | krypto-lib/src/main/cpp/MultiQuadTuple.h:15-17 | The zero tuple is the zero function. |
| MultiQuad.ZeroInputIsZero | krypto-lib/src/main/cpp/MultiQuadTuple.h:31-45 | Every tuple maps the zero input to zero, because it has no constant term. |
| MultiQuad.XorTuples | krypto-lib/src/main/cpp/MultiQuadTuple.h:78-80 | A well-formed tuple with the operands' shape; XorTuplesEval gives its value. |
| MultiQuad.XorTuplesEval | krypto-lib/src/main/cpp/MultiQuadTuple.h:78-80 | (f ^ g)(x) = f(x) ^ g(x). |
| MultiQuad.DiagEmbedEval | krypto-lib/src/main/cpp/MultiQuadTuple.h:19-29 | Writing rows only at the x_k·x_k positions gives the linear map x ↦ Σ x_k·row_k. |
| MultiQuad.GetMultiQuadTuple | krypto-lib/src/main/cpp/MultiQuadTuple.h:19-29 | The tuple holds row i of Mᵀ at the row of x_i·x_i and zero everywhere else. |
| MultiQuad.GetMultiQuadTupleEval | krypto-lib/src/main/cpp/MultiQuadTuple.h:19-29 | The tuple built from M evaluates to M·x at every x. |
| MultiQuad.AddProductsEval | krypto-lib/src/main/cpp/MultiQuadTuple.h:62-65 | The innermost loop adds v_j·Σ_k v_k·A_i[k] to the value at every v. |
| MultiQuad.AddBlockEval | krypto-lib/src/main/cpp/MultiQuadTuple.h:60-67 | The middle loop adds (C_i·v)·Σ_k v_k·A_i[k] to the value at every v. |
| MultiQuad.BlockOfEval | krypto-lib/src/main/cpp/MultiQuadTuple.h:57-58 | A_i, the `pMult` block, applied to v is the block of x_i applied to the tail of y = C·v. |
| MultiQuad.ComposePrefixEval | krypto-lib/src/main/cpp/MultiQuadTuple.h:53-68 | After i outer steps, the value at v is the part of f(C·v) contributed by the blocks of y_0 … y_{i−1}. |
| MultiQuad.ComposeTuple | krypto-lib/src/main/cpp/MultiQuadTuple.h:47-70 | A well-formed tuple over the inner inputs with f's outputs; ComposeEval gives its value. |
| MultiQuad.ComposeEval | krypto-lib/src/main/cpp/MultiQuadTuple.h:47-70 | (f * C)(v) = f(C·v): composing with a linear map on the inputs. |
| MultiQuad.Compose | krypto-lib/src/main/cpp/MultiQuadTuple.h:47-70 | The three nested loops of `operator*` build f * C, whose value is f(C·v). |
| MultiQuad.ComposeRound | krypto-lib/src/main/cpp/MultiQuadTuple.h:56-67 | One pass of the outer loop extends the composed prefix by the block of input bit i. |
| MultiQuad.ComposeStep | krypto-lib/src/main/cpp/MultiQuadTuple.h:56-67 | The `pMult` block has one row per inner input bit, and adding its products is one outer step. |
| MultiQuad.AddBlockInto | krypto-lib/src/main/cpp/MultiQuadTuple.h:60-67 | The middle and inner loops add A_i's products for every j with C[i][j] set. |
| MultiQuad.RMult | krypto-lib/src/main/cpp/MultiQuadTuple.h:72-76 | A well-formed tuple over the same inputs with 64·NUM_OUTEROUTPUTS outputs; RMultEval gives its value. |
| MultiQuad.RMultEval | krypto-lib/src/main/cpp/MultiQuadTuple.h:72-76 | rMult(C)(x) = C·f(x): applying a linear map to the outputs. |
| AffineQuad.ZeroMultiQuadTuple | krypto-lib/src/localTests/test_MultiQuadTuple.h:34-36 | A well-formed tuple with the requested input and output counts. |
| AffineQuad.ZeroTupleIsZero | krypto-lib/src/localTests/test_MultiQuadTuple.h:34-36 | The zero tuple (zero contributions and constants) is the zero function. |
| AffineQuad.ZeroInputGivesConstants | krypto-lib/src/localTests/test_MultiQuadTuple.h:87-99 | The value at the zero input is the vector of constant terms. |
| AffineQuad.RMult | krypto-lib/src/localTests/test_MultiQuadTuple.h:44-47 | A well-formed tuple over the same inputs with 64·NUM_OUTEROUTPUTS outputs. |
| AffineQuad.RMultEval | krypto-lib/src/localTests/test_MultiQuadTuple.h:44-47 | rMult(C)(x) = C·f(x), constants included. |
| AffineQuad.AugV | krypto-lib/src/localTests/test_MultiQuadTuple.h:55-63 | A well-formed tuple whose output count is the sum of the two. |
| AffineQuad.AugVEval | krypto-lib/src/localTests/test_MultiQuadTuple.h:55-63 | augV(f1, f2)(x) = f1(x) ‖ f2(x). |
| AffineQuad.AugV3 | krypto-lib/src/localTests/test_MultiQuadTuple.h:69-79 | A well-formed tuple whose output count is the sum of the three. |
| AffineQuad.AugV3Eval | krypto-lib/src/localTests/test_MultiQuadTuple.h:69-79 | augV(f1, f2, f3)(x) = f1(x) ‖ f2(x) ‖ f3(x). |
| PolynomialFunctions.MaxMonomialCount | krypto-lib/src/main/cpp/MultivariatePolynomialFunction.h:165 | n + n(n−1)/2 is the number of monomials x_i·x_j with i ≤ j, the same count as the tuple layout. |
| PolynomialFunctions.MaxQuadraticCount | krypto-lib/src/main/cpp/MultivariatePolynomialFunction.h:166 | n(n−1)/2 counts the monomials with i < j; adding the n squares gives all of them. |
| PolynomialFunctions.PairVector | krypto-lib/src/main/cpp/MultivariatePolynomialFunction.h:42-43 | `v.set(i).set(j)` has exactly bits i and j set. |
| PolynomialFunctions.StandardMonomialAt | krypto-lib/src/main/cpp/MultivariatePolynomialFunction.h:25-48 | Entry getIndex(i, j) of the monomial list is x_i·x_j, so the list uses the tuple's row layout. |
| PolynomialFunctions.GetMonomials | krypto-lib/src/main/cpp/MultivariatePolynomialFunction.h:37-48 | The nested loops produce the standard list: every pair i ≤ j, in order. |
| PolynomialFunctions.WriteBlock | krypto-lib/src/main/cpp/MultivariatePolynomialFunction.h:40-45 | The inner loop appends block i and leaves the running index n − i further on. |
| PolynomialFunctions.PairVectorSelected | krypto-lib/src/main/cpp/MultivariatePolynomialFunction.h:106-108 | With the intended test, x_i·x_j is selected exactly when bits i and j of the input are set. |
| PolynomialFunctions.StandardSelector | krypto-lib/src/main/cpp/MultivariatePolynomialFunction.h:102-113 | On the standard list, the intended test selects exactly the monomials that are 1 at the input. |
| PolynomialFunctions.EvalIsQuadraticEval | krypto-lib/src/main/cpp/MultivariatePolynomialFunction.h:102-113 | The intended evaluation on the standard list equals the quadratic tuple's evaluation. |
| PolynomialFunctions.AsWrittenZeroInput | krypto-lib/src/main/cpp/MultivariatePolynomialFunction.h:105-107 | As written, the zero input passes the test for every monomial. |
| PolynomialFunctions.AsWrittenCounterexample | krypto-lib/src/main/cpp/MultivariatePolynomialFunction.h:102-113 | As written, one all-ones contribution yields all ones at the zero input, where the polynomial is 0. |
| PolynomialFunctions.EvalXor | krypto-lib/src/main/cpp/MultivariatePolynomialFunction.h:87-100 | XOR-ing contribution lists XORs the values, under either test. |
| PolynomialFunctions.PolynomialFunction.constructor | krypto-lib/src/main/cpp/MultivariatePolynomialFunction.h:20-24 | A function built from contributions alone uses the standard monomial list. |
| PolynomialFunctions.PolynomialFunction.WithMonomials | krypto-lib/src/main/cpp/MultivariatePolynomialFunction.h:50-55 | The function holds the given monomials and contributions. |
| PolynomialFunctions.PolynomialFunction.Evaluate | krypto-lib/src/main/cpp/MultivariatePolynomialFunction.h:102-113 | `operator()` as written: XOR of the contributions whose monomial passes `(monomial & input) == input`. |
| PolynomialFunctions.PolynomialFunction.EvaluateCorrected | krypto-lib/src/main/cpp/MultivariatePolynomialFunction.h:102-113 | With the commented-out test `inputMask == monomial`, the standard list's value is the quadratic tuple's value at the input. |
| PolynomialFunctions.PolynomialFunction.XorContributions | krypto-lib/src/main/cpp/MultivariatePolynomialFunction.h:153-157 | Contribution i becomes contribution i XOR c[i]; the monomials are untouched. |
| PolynomialFunctions.PolynomialFunction.XorAssign | krypto-lib/src/main/cpp/MultivariatePolynomialFunction.h:94-100 | The contributions become their XOR with rhs's; by EvalXor the value becomes f(x) ⊕ rhs(x). |
| PolynomialFunctions.PolynomialFunction.XorWith | krypto-lib/src/main/cpp/MultivariatePolynomialFunction.h:87-92 | A new function with rhs's monomials and the XOR of the contributions. |
| Chains.ChainEvalAppend | krypto-lib/src/main/cpp/MultiQuadTupleChain.h:40-46 | Running a chain fs + gs is running gs on the output of fs. |
| Chains.ChainEvalFirst | krypto-lib/src/main/cpp/MultiQuadTupleChain.h:40-46 | The first tuple sees the message itself, and the rest of the chain sees its output. |
| Chains.MultiQuadTupleChain.constructor | krypto-lib/src/main/cpp/MultiQuadTupleChain.h:23-24 | A new chain has no tuples. |
| Chains.MultiQuadTupleChain.AddFunctionTuple | krypto-lib/src/main/cpp/MultiQuadTupleChain.h:48-50 | The tuple is appended at the end; the earlier tuples are unchanged. |
| Chains.MultiQuadTupleChain.Get | krypto-lib/src/main/cpp/MultiQuadTupleChain.h:52-54 | Returns the tuple added as the index-th; with AddFunctionTuple, get(k) is the k-th tuple added, and it maps 64·N bits to 64·N bits. |
| Chains.MultiQuadTupleChain.Apply | krypto-lib/src/main/cpp/MultiQuadTupleChain.h:40-46 | The result is f_{L−1}(… f_0(m)), the first L tuples applied in order. |
| MonomialChains.NodeValue | krypto-lib/src/main/V2/MonomialMatrix.h:68-90 | Output bit j of a node is 1 exactly when every input bit i with entry (i, j) clear is set, i.e. the product of those x_i. |
| MonomialChains.ChainValueAppend | krypto-lib/src/main/V2/MonomialMatrix.h:159-170 | The value of a concatenation of chains is the XOR of their values. |
| MonomialChains.AppendValue | krypto-lib/src/main/V2/MonomialMatrix.h:159-170 | Appending a node XORs that node's value into the chain's value. |
| MonomialChains.ZeroNodeValue | krypto-lib/src/main/V2/MonomialMatrix.h:35-40 | A zero node is the product of all inputs: 0 unless every input bit is set, and all ones then. |
| MonomialChains.NodeProduct | krypto-lib/src/main/V2/MonomialMatrix.h:80-85 | The running AND over the rows of clear input bits is the node's value. |
| MonomialChains.CutAtZero | krypto-lib/src/main/V2/MonomialMatrix.h:301-311 | What `deleteAllEmpty` keeps is a prefix: the head, then the nodes before the first later zero node. |
| MonomialChains.CutAtZeroLosesNodes | krypto-lib/src/main/V2/MonomialMatrix.h:301-311 | A concrete chain [1], [0], [1] whose value at input 0 is 0, while the kept prefix is worth 1. |
| MonomialChains.NonZeroNodes | krypto-lib/src/main/V2/MonomialMatrix.h:297-311 | Exactly the non-zero nodes are kept, and none is lost. |
| MonomialChains.NonZeroNodesValue | krypto-lib/src/main/V2/MonomialMatrix.h:297-311 | Dropping the zero nodes keeps the chain's value at every input with a clear bit. |
| MonomialChains.SubNodeValue | krypto-lib/src/main/V2/MonomialMatrix.h:216-225 | The node `subMMC` builds, evaluated at y with a clear bit, equals the original node at x ‖ y. |
| MonomialChains.Killed | krypto-lib/src/main/V2/MonomialMatrix.h:216-225 | Bit j is set exactly when the upper half's product at x is 0 in column j, i.e. the partial input kills column j. |
| MonomialChains.FixedSubNodeValue | krypto-lib/src/main/V2/MonomialMatrix.h:216-225 | The corrected node XOR its killed columns equals the original node at x ‖ y for every y. |
| MonomialChains.SubNodesValue | krypto-lib/src/main/V2/MonomialMatrix.h:216-234 | The sub-chain at y with a clear bit equals the original chain at x ‖ y. |
| MonomialChains.FixedSubNodesValue | krypto-lib/src/main/V2/MonomialMatrix.h:216-234 | The corrected sub-chain, XOR its toggle vector, equals the original chain at x ‖ y for every y. |
| MonomialChains.PartialEvalValue | krypto-lib/src/main/V2/MonomialMatrix.h:369-376 | As written, the partially evaluated header at y with a clear bit equals the original header at x ‖ y. |
| MonomialChains.PartialEvalCounterexample | krypto-lib/src/main/V2/MonomialMatrix.h:369-376 | As written, the result is wrong at the all-ones y on a two-row zero node. |
| MonomialChains.FixedPartialEvalValue | krypto-lib/src/main/V2/MonomialMatrix.h:369-376 | The corrected partial evaluation equals the original header at x ‖ y for every y. |
| MonomialChains.ZeroHeaderValue | krypto-lib/src/main/V2/MonomialMatrix.h:344-349 | The header `zero()` builds is 0 except at the all-ones input, where it is all ones. |
| MonomialChains.ZeroHeaderCorrectedValue | krypto-lib/src/main/V2/MonomialMatrix.h:344-349 | An all-ones constant with one all-ones node is 0 at every input. |
| MonomialChains.XorConstantValue | krypto-lib/src/main/V2/MonomialMatrix.h:442-444 | `xorConstant(c)` XORs c into the header's value at every input. |
| MonomialChains.MonomialMatrixChain.Zero | krypto-lib/src/main/V2/MonomialMatrix.h:35-40 | A one-node chain holding the zero matrix. |
| MonomialChains.MonomialMatrixChain.Evaluate | krypto-lib/src/main/V2/MonomialMatrix.h:68-90 | The recursion over the linked nodes returns the XOR of all node values. |
| MonomialChains.MonomialMatrixChain.SetMonomialMatrix | krypto-lib/src/main/V2/MonomialMatrix.h:98-100 | Only the head's matrix changes; the tail is the same. |
| MonomialChains.MonomialMatrixChain.SetNext | krypto-lib/src/main/V2/MonomialMatrix.h:106-108 | The chain becomes the head followed by aNext's nodes, or the head alone when aNext is null. |
| MonomialChains.MonomialMatrixChain.SetNextMatrix | krypto-lib/src/main/V2/MonomialMatrix.h:114-118 | The chain becomes the head followed by one new node holding M. |
| MonomialChains.MonomialMatrixChain.GetNextNode | krypto-lib/src/main/V2/MonomialMatrix.h:140-142 | Returns the second node's matrix. |
| MonomialChains.MonomialMatrixChain.Append | krypto-lib/src/main/V2/MonomialMatrix.h:159-170 | M becomes the last node; the earlier nodes are unchanged. |
| MonomialChains.MonomialMatrixChain.Length | krypto-lib/src/main/V2/MonomialMatrix.h:240-244 | The number of nodes reachable from the head. |
| MonomialChains.MonomialMatrixChain.DeleteAllEmpty | krypto-lib/src/main/V2/MonomialMatrix.h:301-311 | As written: the chain is cut at its first zero node after the head. |
| MonomialChains.MonomialMatrixChain.DeleteZeroNodes | krypto-lib/src/main/V2/MonomialMatrix.h:297-311 | Corrected: every zero node after the head is unlinked and the rest stay in order. |
| MonomialChains.MonomialMatrixChain.SubMMC | krypto-lib/src/main/V2/MonomialMatrix.h:216-234 | As written: each node becomes its lower half ANDed with the upper half's product at the partial input; when super has one node, the old tail is kept. |
| MonomialChains.MonomialMatrixChain.SubMMCCorrected | krypto-lib/src/main/V2/MonomialMatrix.h:216-234 | Corrected: killed columns are filled with ones, the chain ends where super's does, and the toggle vector is returned. |
| MonomialChains.ConstantChainHeader.ConstructChain | krypto-lib/src/main/V2/MonomialMatrix.h:333-338 | The header holds the given constant and chain. |
| MonomialChains.ConstantChainHeader.Zero | krypto-lib/src/main/V2/MonomialMatrix.h:344-349 | As written: a zero constant and a single zero node. |
| MonomialChains.ConstantChainHeader.ZeroCorrected | krypto-lib/src/main/V2/MonomialMatrix.h:344-349 | Corrected: an all-ones constant and one all-ones node, which is the zero polynomial. |
| MonomialChains.ConstantChainHeader.Evaluate | krypto-lib/src/main/V2/MonomialMatrix.h:382-384 | The constant XOR the chain's value. |
| MonomialChains.ConstantChainHeader.SetConstant | krypto-lib/src/main/V2/MonomialMatrix.h:392-394 | Only the constant changes. |
| MonomialChains.ConstantChainHeader.SetMMC | krypto-lib/src/main/V2/MonomialMatrix.h:400-402 | Only the chain changes. |
| MonomialChains.ConstantChainHeader.Length | krypto-lib/src/main/V2/MonomialMatrix.h:434-436 | The chain's node count. |
| MonomialChains.ConstantChainHeader.XorConstant | krypto-lib/src/main/V2/MonomialMatrix.h:442-444 | Only the constant changes, by XOR with c. |
| MonomialChains.ConstantChainHeader.PartialEval | krypto-lib/src/main/V2/MonomialMatrix.h:369-376 | As written: the same constant and the chain `subMMC` builds from the first half of the variables. |
| MonomialChains.ConstantChainHeader.PartialEvalCorrected | krypto-lib/src/main/V2/MonomialMatrix.h:369-376 | Corrected: the constant absorbs the toggles, so the result equals the original at x ‖ y for all y (FixedPartialEvalValue). |
| LinearFactors.FactorsValue | krypto-lib/src/main/V2/MonomialMatrix.h:572-579 | Output bit j is the AND over the factors of linear form j at the input: a product of MON linear forms. |
| LinearFactors.ZeroFactorsValue | krypto-lib/src/main/V2/MonomialMatrix.h:527-534 | With at least one factor, `zero()` is the zero polynomial. |
| LinearFactors.FactorMulValue | krypto-lib/src/main/V2/MonomialMatrix.h:558-566 | One factor of f·K at v is that factor of f at K·v. |
| LinearFactors.MulFactorsValue | krypto-lib/src/main/V2/MonomialMatrix.h:558-566 | (f·K)(v) = f(K·v), for the product and for the secret polynomial. |
| LinearFactors.ConcatFactorsValue | krypto-lib/src/main/V2/MonomialMatrix.h:639-648 | stackCols(f, g)(v) = f(v) ‖ g(v). |
| LinearFactors.SecretConcatValue | krypto-lib/src/main/V2/MonomialMatrix.h:985-992 | stackCols(f, g)(v) = f(v) ‖ g(v), constants included. |
| LinearFactors.StackedFactorValue | krypto-lib/src/main/V2/MonomialMatrix.h:670-679 | A stacked factor at u ‖ v is the XOR of the two factors at u and at v. |
| LinearFactors.StackFactorsValue | krypto-lib/src/main/V2/MonomialMatrix.h:670-679 | stackRows(f, g) at u ‖ v is the product over k of (f_k(u) ⊕ g_k(v)). |
| LinearFactors.StackRowsOneFactor | krypto-lib/src/main/V2/MonomialMatrix.h:1012-1019 | With one factor, stackRows(f, g)(u ‖ v) = f(u) ⊕ g(v). |
| LinearFactors.StackRowsTwoFactors | krypto-lib/src/mainTest/V2Tests/test_mmc.cpp:96-107 | With two factors there are f, g and x where stackRows(f, g)(x ‖ x) ≠ f(x) ⊕ g(x). |
| LinearFactors.PaddedFactorValue | krypto-lib/src/main/V2/MonomialMatrix.h:702-709 | A factor beside a zero block (`expand2`) has its value beside zeros. |
| LinearFactors.MiddleFactorValue | krypto-lib/src/main/V2/MonomialMatrix.h:716-724 | A factor between two zero blocks (`expand3` with index 1) has its value between zeros. |
| LinearFactors.UnaryFactorsValue | krypto-lib/src/main/V2/MonomialMatrix.h:745-753 | getUnaryF(f)(u1 ‖ u2) = f(u1) ‖ f(u2) for the product of factors. |
| LinearFactors.UnaryConstant | krypto-lib/src/main/V2/MonomialMatrix.h:1064-1072 | The constant of getUnaryF(f) is two copies of f's constant. |
| LinearFactors.SecretUnaryValue | krypto-lib/src/main/V2/MonomialMatrix.h:1064-1072 | getUnaryF(f) is two copies of f on the two halves of the input. |
| LinearFactors.BinaryFactorsValue | krypto-lib/src/main/V2/MonomialMatrix.h:730-739 | getBinaryF(f)(u1 ‖ u2 ‖ u3) = f(u1) ‖ f(u2) ‖ f(u3) for the product of factors. |
| LinearFactors.BinaryConstant | krypto-lib/src/main/V2/MonomialMatrix.h:1078-1087 | The constant of getBinaryF(f) is three copies of f's constant. |
| LinearFactors.SecretBinaryValue | krypto-lib/src/main/V2/MonomialMatrix.h:1078-1087 | getBinaryF(f) is three copies of f on the three parts of the input. |
| LinearFactors.LinearFactorPoly.Zero | krypto-lib/src/main/V2/MonomialMatrix.h:527-534 | MON zero factors. |
| LinearFactors.LinearFactorPoly.Evaluate | krypto-lib/src/main/V2/MonomialMatrix.h:572-579 | The loop ANDing each factor's `tMult` returns the product of the factors' linear forms. |
| LinearFactors.LinearFactorPoly.Set | krypto-lib/src/main/V2/MonomialMatrix.h:587-589 | Factor n becomes M; the others are unchanged. |
| LinearFactors.LinearFactorPoly.Mul | krypto-lib/src/main/V2/MonomialMatrix.h:558-566 | Every factor becomes Kᵀ·F_i, which composes the polynomial with K (MulFactorsValue). |
| LinearFactors.LinearFactorPoly.StackCols | krypto-lib/src/main/V2/MonomialMatrix.h:639-648 | Each factor is the two factors side by side. |
| LinearFactors.LinearFactorPoly.StackCols3 | krypto-lib/src/main/V2/MonomialMatrix.h:654-663 | Each factor is the three factors side by side. |
| LinearFactors.LinearFactorPoly.StackRows | krypto-lib/src/main/V2/MonomialMatrix.h:670-679 | Each factor is the two factors stacked, Gtop's rows first. |
| LinearFactors.LinearFactorPoly.StackRows3 | krypto-lib/src/main/V2/MonomialMatrix.h:686-695 | Each factor is the three factors stacked. |
| LinearFactors.LinearFactorPoly.Expand2 | krypto-lib/src/main/V2/MonomialMatrix.h:702-709 | Every factor gets a zero block of its own width: on the right for index 0, on the left otherwise. |
| LinearFactors.LinearFactorPoly.Expand3 | krypto-lib/src/main/V2/MonomialMatrix.h:716-724 | Every factor sits in block `index` of three; the other blocks are zero. |
| LinearFactors.LinearFactorPoly.GetUnaryF | krypto-lib/src/main/V2/MonomialMatrix.h:745-753 | [F | 0] stacked on [0 | F] for every factor. |
| LinearFactors.LinearFactorPoly.GetBinaryF | krypto-lib/src/main/V2/MonomialMatrix.h:730-739 | The three `expand3` blocks stacked for every factor. |
| LinearFactors.SecretPolynomial.Zero | krypto-lib/src/main/V2/MonomialMatrix.h:888-893 | A zero constant and MON zero factors: the zero polynomial by ZeroFactorsValue. |
| LinearFactors.SecretPolynomial.Evaluate | krypto-lib/src/main/V2/MonomialMatrix.h:913-915 | The constant XOR the product of the factors. |
| LinearFactors.SecretPolynomial.SetConstant | krypto-lib/src/main/V2/MonomialMatrix.h:947-949 | Only the constant changes. |
| LinearFactors.SecretPolynomial.SetLinearFactors | krypto-lib/src/main/V2/MonomialMatrix.h:955-957 | Only the factors change. |
| LinearFactors.SecretPolynomial.SetLinearFactor | krypto-lib/src/main/V2/MonomialMatrix.h:963-965 | Factor n becomes M; the others are unchanged. |
| LinearFactors.SecretPolynomial.Mul | krypto-lib/src/main/V2/MonomialMatrix.h:901-907 | The same constant and the factors times K, so that (f·K)(v) = f(K·v). |
| LinearFactors.SecretPolynomial.StackCols | krypto-lib/src/main/V2/MonomialMatrix.h:985-992 | Constants concatenated and factors side by side, so the value is f(v) ‖ g(v). |
| LinearFactors.SecretPolynomial.StackCols3 | krypto-lib/src/main/V2/MonomialMatrix.h:998-1005 | Three constants concatenated and factors side by side. |
| LinearFactors.SecretPolynomial.StackRows | krypto-lib/src/main/V2/MonomialMatrix.h:1012-1019 | Constants XORed and factors stacked. |
| LinearFactors.SecretPolynomial.StackRows3 | krypto-lib/src/main/V2/MonomialMatrix.h:1026-1033 | Three constants XORed and factors stacked. |
| LinearFactors.SecretPolynomial.Expand2 | krypto-lib/src/main/V2/MonomialMatrix.h:1040-1045 | The constant is padded with zeros on the same side as the factors. |
| LinearFactors.SecretPolynomial.Expand3 | krypto-lib/src/main/V2/MonomialMatrix.h:1052-1058 | The constant sits in block `index` of three, the other blocks zero. |
| LinearFactors.SecretPolynomial.GetUnaryF | krypto-lib/src/main/V2/MonomialMatrix.h:1064-1072 | Two copies of f's constant and the unary factors; SecretUnaryValue gives the value. |
| LinearFactors.SecretPolynomial.GetBinaryF | krypto-lib/src/main/V2/MonomialMatrix.h:1078-1087 | Three copies of f's constant and the binary factors; SecretBinaryValue gives the value. |

## Left out

- A 64-bit word is modelled as a sequence of 64 booleans, not as a machine integer. Shifts and masks become indexing at n / 64 and n % 64.
- BitVectors.BitVector.Get, Set and Clear assume that `unsigned long` has 64 bits (an LP64 target). `get`, `set` and `clear` (BitVector.h:47-63) build their mask as `1ul << (n & 63ul)`. Where `unsigned long` has 32 bits, as in a WebAssembly build, that shift is undefined for n & 63 ≥ 32, so the model says nothing about that behaviour.
- All counters and sizes are unbounded integers:
  - the `unsigned int` results of `getIndex`, `getInputCount` and `length`;
  - the monomial counts, and the `int` loop indices of `getMonomials` and `operator()`.

  32-bit wrap-around (past 65535 input bits for the counts) is not modelled.
- Randomness is not modelled. The random generators are left out because their values come from a random source:
  - `randomVector`, `randomMatrix`;
  - `randomMultiQuadTuple`, `rMQT`, `denseRandomMultivariateFunctions`, `getRandomContributions`;
  - `randomMultiQuadTupleChain` (which also calls a default constructor and a `randomize` that `MultiQuadTuple` does not declare);
  - the V2 `random`, `randomInvertible` and `generateSpecialInvertible`.
- Printing is not modelled (`print`, `printRow`, `printLastRow`, `printLast`).
- BitVector members that expose raw memory are not modelled: `elements`, `elements_C`, `setBits` and the move constructor. `operator[]` is the same as `get`.
- `BitVector::vcat` (BitVector.h:136-143) is not modelled. It copies rhs's words to word offset 1 instead of offset N.
- `BitMatrix::operator[]` hands out a reference to a row. It is modelled as `GetRow`/`SetRow`; the aliasing is not.
- getCol (test_BitMatrix.h:186-193) is not modelled. It returns a reference to a local vector.
- The vector overload of `pMult` (test_BitMatrix.h:417-438) is not modelled. It has no return statement.
- Only the local-test `BitMatrix` is modelled, not the older main/cpp/BitMatrix.h. The older file does not compile as written:
  - `operator*(BitMatrix)` (BitMatrix.h:130-147) calls `getBit`, which `BitVector` does not declare;
  - `rref`, `inv` and `solve` (BitMatrix.h:183-274) refer to an undeclared `b`;
  - `inv` and `solve` assert that the matrix is *not* square;
  - `inv` back-substitutes in a loop that decrements `n` instead of `i`;
  - `setCol` (BitMatrix.h:303-309) writes into its argument instead of the matrix;
  - the private `rrefFastGauss` reads row −1.
- The older file's remaining members are covered by the local-test members of the same meaning:
  - bounds-checked `get`, `set`, `clear` (BitMatrix.h:84-100) by BitMatrices.BitMatrix.Get, Set and Clear;
  - `squareIdentityMatrix` (63-72) by BitMatrices.SquareIdentityMatrix;
  - `zeroMatrix` (39-45) by BitMatrices.ZeroMatrix, and `squareZeroMatrix` (30-37) by BitMatrices.SquareZeroMatrix;
  - `operator*(BitVector)` (116-128) by BitMatrices.BitMatrix.MulVec;
  - `operator*(BitMatrix)` (130-147) by BitMatrices.BitMatrix.Mul;
  - `isIdentity` (149-167) by BitMatrices.BitMatrix.IsIdentity;
  - `zero` (169-172) by BitMatrices.BitMatrix.Zero;
  - `addRow` (282-286) by BitMatrices.BitMatrix.AddRow;
  - `swapRow` (288-294) by BitMatrices.BitMatrix.SwapRows;
  - `setRow` (298-301) by BitMatrices.BitMatrix.SetRow.
- `det` (BitMatrix.h:79-82) reads the corner of `rref`, which does not compile, so it is not modelled either. Printing and `writeMatrix` are I/O.
- `MultiQuadTuple::aug_v` in the main sources (MultiQuadTuple.h:82-88) is not modelled. It calls an `aug_h` that `BitMatrix` does not declare; the local-test `augV` is modelled instead, as `AffineQuad.AugV`.
- MQT (MQT.h) repeats `operator()`, `getIndex` and `operator*` of `MultiQuadTuple` line for line. The one model covers both.
- `MultivariatePolynomialFunction::operator()` taking another function as input (lines 115-127) is not modelled. It ANDs a `BitVector` with a function object and returns a vector where a function is declared.
- Getters that only return a field are field reads, with no model member:
  - `getTransposedContributionMatrix`, `getConstantTerms`, `getContributions`;
  - `getMonomialMatrix`, `getNext`, `getNextMMC`, `getConstant`, `getMMC`, `getLinearFactors`.
- Memory management is not modelled: `freeAllNext`, and the `delete` in `deleteAllEmpty` (which releases nodes that are unlinked anyway).
- The V2 `compactify`, `convertToMMChain` and `convertToPublicPolynomial` are not modelled. They rely on V2 `BitMatrix` operations (`getCol`, `setCol`, `inv`) whose definitions are not part of this model.
- The V2 `LinearFactorPoly::inv` and both `permute` functions are not modelled, for the same reason.
- The V2 `BitMatrix.h` and `BitVector.h` are not part of this model. The V2 code's `tMult`, `augH`, `augV`, `vCat`, `splitV2`, `andEachRow` and zero tests are taken as the row-sequence operations of `Matrices`.
- Copy semantics differ from C++. `ConstantChainHeader` and `SecretPolynomial` hold their chain and factors by reference, whereas C++ copies them. The C++ copy of a chain is shallow: it shares the `_next` nodes.
- The size preconditions of the model come from these places in the source:
  - BitMatrices.BitMatrix.Mul requires rhs to have exactly 64·COLS rows. The local-test `operator*` (test_BitMatrix.h:105-118) reads rhs's rows 0 … 64·COLS − 1, and the older `operator*` asserts the equality (main/cpp/BitMatrix.h:134).
  - BitMatrices.BitMatrix.Inv requires a square matrix. The doc comments of both `inv` overloads (test_BitMatrix.h:316-330) say the function inverts a square matrix; the code has no check.
  - MonomialChains.ConstantChainHeader.PartialEval and PartialEvalCorrected require twice as many inputs as partial inputs. The comment at MonomialMatrix.h:362-364 states this expectation, and the parameter type of `subMMC` (MonomialMatrix.h:216) enforces it at compile time.
- AffineQuad.AugV3 requires f3 to have f2's output count. The source declares the third matrix and constant vector with f2's width, so the three-way `augV` only compiles then.
- Chains.MultiQuadTupleChain.Apply requires at least L tuples. The C++ indexes past the vector otherwise.
- Chains.MultiQuadTupleChain.Length has no contract: it returns the template constant L.
- LinearFactors.LinearFactorPoly.Get has no contract: it returns factor n.
- BitMatrices.BitMatrix.XorMatrix requires rhs to have at least as many rows. The C++ loops over this matrix's rows and reads rhs's row of the same index.
- BitMatrices.BitMatrix.Equals requires rhs to have at least as many rows, for the same reason. Like the C++, it compares only this matrix's rows.
- MonomialChains.NonZeroNodesValue holds only at inputs with a clear bit. At the all-ones input every zero node is worth all ones, so no reordering of zero nodes keeps that value.

## Findings

| source | as written | input that shows it | evidently intended | confidence | as-written member | corrected member |
|---|---|---|---|---|---|---|
| krypto-lib/src/main/cpp/MultivariatePolynomialFunction.h:102-113 | A monomial is selected when `(monomial & input) == input`, i.e. when the input's bits are a subset of the monomial's. | Contribution 0 (the monomial x_0) all ones, the other contributions zero, input 0: every monomial is selected and the result is all ones. | Select the monomials whose bits are all set in the input (`inputMask == monomial`, the commented-out line), giving 0 at input 0. | not executed | PolynomialFunctions.AsWrittenCounterexample | PolynomialFunctions.PolynomialFunction.EvaluateCorrected |
| krypto-lib/src/main/V2/MonomialMatrix.h:216-234 | `subMMC` ANDs each lower-half row with the upper half's product, so a column the partial input kills becomes a zero column. A zero column is the product of all remaining inputs, not 0. | One partial input x = 0, the node [0; 0], constant 0, y = 1: f(x ‖ y) = 0 but `partialEval(x)` gives 1 at y. | The partially evaluated polynomial equals f(x ‖ ·) at every y: fill killed columns with ones (the constant 1) and fold them into the constant. | not executed | MonomialChains.PartialEvalCounterexample | MonomialChains.ConstantChainHeader.PartialEvalCorrected |
| krypto-lib/src/main/V2/MonomialMatrix.h:301-311 | `deleteAllEmpty` unlinks the first zero node after the head together with everything behind it. | Nodes [1], [0], [1] with one input and one output, input 0: the chain is worth 0, while the kept prefix [1] is worth 1. | Unlink only the zero nodes and keep the others in order, which keeps the value at every input with a clear bit. | not executed | MonomialChains.CutAtZeroLosesNodes | MonomialChains.MonomialMatrixChain.DeleteZeroNodes |
| krypto-lib/src/main/V2/MonomialMatrix.h:344-349 | `zero()` is a zero constant with one zero node; a zero node is the product of all inputs. | Any size, the all-ones input: the value is all ones. | The zero polynomial at every input, e.g. an all-ones constant with one all-ones node. | not executed | MonomialChains.ZeroHeaderValue | MonomialChains.ConstantChainHeader.ZeroCorrected |
| krypto-lib/src/mainTest/V2Tests/test_mmc.cpp:96-107 | The test expects `stackRows(f, g, h)` at u ‖ v ‖ w to be f(u) ⊕ g(v) ⊕ h(w). `stackRows` (MonomialMatrix.h:1012-1033) stacks each factor, so its value is the product over the factors of (f_k(u) ⊕ g_k(v) ⊕ h_k(w)). | Two factors, one input and one output, zero constants: f has factors [1], [1] and g has factors [1], [0]. At u = v = 1 the stacked value is (1 ⊕ 1)·(1 ⊕ 0) = 0, while f(1) ⊕ g(1) = 1. | Additivity holds when each polynomial has a single linear factor; with more factors a product of sums does not split. | not executed | LinearFactors.StackRowsTwoFactors | LinearFactors.StackRowsOneFactor |
