# Dense integer matrix multiplication, verified in Dafny

This project models the reference matrix multiplication routine
`multiplyMatricesWithoutErrors` of the SE4HPC matrix-multiplication test
suite. The routine takes two read-only matrices, `A` (rowsA x colsA) and `B`
(colsA x colsB), and a caller-owned output buffer `C`. For every output
cell it resets `C[i][j]` to 0 and then adds up `A[i][k] * B[k][j]` over the
shared dimension, in three nested counting loops. The test suite around the
routine checks algebraic facts (zero and identity matrices, the 1 x 1 case,
non-commutativity) and concrete input/output pairs.

The project has three modules:

- `MatrixSpec` (`matrix_spec.dfy`) is the mathematics. Matrices are values
  (`seq<seq<int>>`). `Dot` is the finite sum that defines one cell, and
  `Product` is the whole product matrix. The module proves the zero, identity
  and scalar laws, and a bound showing when the 32-bit accumulator of the C++
  code cannot overflow.
- `MatrixMultiplication` (`matrix_multiplication.dfy`) is the routine itself.
  It is an imperative method over an `array2<int>` buffer with the same
  three loops, the same reset to 0 and the same `+=` accumulation. Its
  postcondition fixes every cell of `C`: a computed cell equals `Dot`, any
  other cell keeps its old value, and the computed block equals `Product`.
- `MatrixTestCases` (`test_cases.dfy`) holds the test suite's input/output
  pairs, proved as facts about `Product`. Two callers run the method the
  way a test does. `ProfessorTestCase` allocates a zero buffer, multiplies
  and compares. `IdentityTestCase` multiplies into a buffer with arbitrary
  prior contents, as the identity test reuses its buffer, and compares.

The loop bounds are kept as C++ `int`. A dimension that is zero or negative
runs no iterations, and `Count` gives the number of iterations. The
preconditions are exactly the in-bounds conditions of the C++ indexing:

- `A` is read only when `colsB > 0`, and then needs `rowsA` rows of at least
  `colsA` entries.
- `B` is read only when `rowsA > 0`, and then needs `colsA` rows of at least
  `colsB` entries.
- `C` is written only when both `rowsA` and `colsB` are positive.

The routine itself does not check shapes. Shape agreement is therefore a
precondition, not an error result.

## Model

| member | source | states |
|---|---|---|
| `MatrixMultiplication.MultiplyMatricesWithoutErrors` | test/test_matrix_multiplication.cpp:7-21 | After the call, every cell (r, c) of C with r < rowsA and c < colsB holds the sum over k < colsA of A[r][k] * B[k][c]. Every other cell of C keeps its old value. The rowsA x colsB block of C equals `Product(A, B)`. A zero or negative colsA leaves the computed cells at 0. All indexing is in bounds under the stated shape preconditions. A and B are values and cannot change. |
| `MatrixMultiplication.CellsDefined` | test/test_matrix_multiplication.cpp:13-17 | Under the routine's shape preconditions, every cell it computes reads only cells of A and B that exist. |
| `MatrixMultiplication.ResultIgnoresPriorContents` | test/test_matrix_multiplication.cpp:15 | Two buffers with arbitrary prior contents receive the same rowsA x colsB block, because each cell is reset to 0 before accumulation. |
| `MatrixSpec.Count` | test/test_matrix_multiplication.cpp:13-16 | Defines the trip count of the loops `for (int x = 0; x < n; ++x)`: n when n is positive, 0 otherwise. |
| `MatrixSpec.Dot` | test/test_matrix_multiplication.cpp:15-17 | Defines the value of one cell: 0 after the reset at line 15, then A[i][k] * B[k][j] added for k = 0, 1, ..., n - 1 in increasing order, as the `+=` of line 17 does. |
| `MatrixSpec.Product` | test/test_matrix_multiplication.cpp:13-18 | The product of an m x n and an n x p operand is an m x p matrix. |
| `MatrixSpec.DotZeroRow` | test/test_matrix_multiplication.cpp:16-17 | A row of zeros in A makes its dot product with any column zero. |
| `MatrixSpec.DotZeroColumn` | test/test_matrix_multiplication.cpp:16-17 | A column of zeros in B makes its dot product with any row zero. |
| `MatrixSpec.ProductZeroLeft` | test/test_matrix_multiplication.cpp:203-242 | The zero matrix times any compatible B is the zero matrix of the output shape. |
| `MatrixSpec.ProductZeroRight` | test/test_matrix_multiplication.cpp:245-285 | Any compatible A times the zero matrix is the zero matrix of the output shape. |
| `MatrixSpec.DotIdentityLeft` | test/test_matrix_multiplication.cpp:16-17 | Over the first t terms, row i of the identity times column j of B is B[i][j] once i < t, and 0 before. |
| `MatrixSpec.DotIdentityRight` | test/test_matrix_multiplication.cpp:16-17 | Over the first t terms, row i of A times column j of the identity is A[i][j] once j < t, and 0 before. |
| `MatrixSpec.ProductIdentityLeft` | test/test_matrix_multiplication.cpp:293-334 | The n x n identity times any n x p matrix B is B. |
| `MatrixSpec.ProductIdentityRight` | test/test_matrix_multiplication.cpp:384-424 | Any m x n matrix A times the n x n identity is A, negative entries included. |
| `MatrixSpec.ProductScalar` | test/test_matrix_multiplication.cpp:1330-1336 | A 1 x 1 times 1 x 1 product is [[a * b]], ordinary integer multiplication. |
| `MatrixSpec.TermBounded` | test/test_matrix_multiplication.cpp:17 | A product of two entries in [-bound, bound] lies in [-bound^2, bound^2]. |
| `MatrixSpec.DotBounded` | test/test_matrix_multiplication.cpp:16-17 | With every entry read in [-bound, bound], the sum of t terms lies in [-t * bound^2, t * bound^2]. |
| `MatrixSpec.AccumulatorFitsInt32` | test/test_matrix_multiplication.cpp:15-17 | If n * bound^2 <= INT_MAX, every partial sum the accumulator holds fits a C++ `int`, and so does every product term, so no step of the native accumulation overflows. |
| `MatrixTestCases.ProfessorCase` | test/test_matrix_multiplication.cpp:42-61 | [[1,2,3],[4,5,6]] times [[7,8],[9,10],[11,12]] is [[58,64],[139,154]]. |
| `MatrixTestCases.NonCommutativity` | test/test_matrix_multiplication.cpp:1539-1568 | For the 3 x 3 witness, A * B is [[15,15,15],[30,30,30],[45,45,45]] and B * A is [[24,24,24],[30,30,30],[36,36,36]], so the two differ. |
| `MatrixTestCases.SquareCases2x2` | test/test_matrix_multiplication.cpp:706-787 | [[1,2],[3,4]] times [[5,6],[7,8]] is [[19,22],[43,50]]. The reversed product is [[23,34],[31,46]]. |
| `MatrixTestCases.SquareCases3x3` | test/test_matrix_multiplication.cpp:790-878 | The 3 x 3 square product and its reversal give the suite's expected matrices. |
| `MatrixTestCases.VectorCases` | test/test_matrix_multiplication.cpp:1059-1216 | Row times column gives [[11]] and [[14]]. Column times row gives the expected outer products. |
| `MatrixTestCases.VectorAndMatrixCases` | test/test_matrix_multiplication.cpp:1219-1292 | A row vector times a matrix gives [[17,20,23,26]] and [[50,56,62,68]]. |
| `MatrixTestCases.SingleElementAndVectors` | test/test_matrix_multiplication.cpp:1382-1462 | [[5]] and [[-5]] times the rows [1..10] and [-1..-10] both give [[5,10,...,50]]. |
| `MatrixTestCases.SingleElementOneAndZero` | test/test_matrix_multiplication.cpp:1300-1379 | For every integer i, [[1]] * [[i]] is [[i]] and [[0]] * [[i]] is [[0]]. |
| `MatrixTestCases.DotRamp` | test/test_matrix_multiplication.cpp:1603-1627 | When row i of A is [1, 2, ..., t] and column j of B is constantly b, their dot product over t terms is b * (1 + 2 + ... + t). |
| `MatrixTestCases.TenByTen` | test/test_matrix_multiplication.cpp:1585-1653 | The 10 x 10 high-values product has every row equal to [55, 110, ..., 550]. |
| `MatrixTestCases.ProfessorTestCase` | test/test_matrix_multiplication.cpp:28-68 | Running the routine on a zero-initialised 2 x 2 buffer leaves [[58,64],[139,154]] in it. |
| `MatrixTestCases.IdentityTestCase` | test/test_matrix_multiplication.cpp:473-523 | Running the routine with the 2 x 2 identity on the left of any 2 x p operand, into a 2 x p buffer with arbitrary prior contents, leaves that operand in the buffer. |

## Left out

- `multiplyMatrices`, the deliberately faulty routine declared in `matrix_multiplication.h`: its source is not part of this model. Its value- and shape-dependent "error N" outputs are defects, not a contract.
- The GoogleTest harness is not modelled: the `TEST` macros, `ASSERT_EQ` reporting and `main`. The test data appears only as lemmas and as the two example callers.
- MatrixMultiplication.MultiplyMatricesWithoutErrors: entries and the accumulator are mathematical integers, so 32-bit `int` overflow is not modelled. Overflow is undefined behaviour in C++ and the code does not guard against it. `AccumulatorFitsInt32` states a sufficient condition under which no overflow happens.
- MatrixMultiplication.MultiplyMatricesWithoutErrors: `C` is a rectangular `array2<int>`, whereas a `std::vector<std::vector<int>>` may have rows of different lengths. The precondition asks for at least rowsA x colsB cells. Ragged input matrices `A` and `B` are modelled, as `seq<seq<int>>`.
- MatrixMultiplication.MultiplyMatricesWithoutErrors: `A` and `B` are passed as values. Aliasing between `C` and `A` or `B` is therefore not modelled. The C++ signature allows a caller to pass the same vector as `A` and `C`, and then the result would differ. No test does this.
- No shape validation or error path: the routine does none, so shape agreement is a precondition.
