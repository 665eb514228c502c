/** The reference triple-loop multiplication, which writes the product of
    A and B into a caller-owned, pre-sized buffer C. */
module MatrixMultiplication {
  import opened MatrixSpec

  /** The top-left m x p block of C, read as a matrix. */
  ghost function Block(C: array2<int>, m: nat, p: nat): (r: Matrix)
    requires m == 0 || p == 0 || (m <= C.Length0 && p <= C.Length1)
    reads C
    ensures IsMatrix(r, m, p)
  {
    seq(m, i requires 0 <= i < m reads C => seq(p, j requires 0 <= j < p reads C => C[i, j]))
  }

  /** Under the method's preconditions every cell it computes is defined. */
  lemma CellsDefined(A: Matrix, B: Matrix, rowsA: int, colsA: int, colsB: int)
    requires colsB <= 0 || Covers(A, rowsA, colsA)
    requires rowsA <= 0 || Covers(B, colsA, colsB)
    ensures forall r: nat, c: nat :: r < rowsA && c < colsB ==> DotDefined(A, B, r, c, Count(colsA))
  {
  }

  /** Sets C[i][j], for every 0 <= i < rowsA and 0 <= j < colsB, to the dot
      product of row i of A with column j of B over colsA terms, resetting
      the cell to 0 before accumulating. A and B are read-only values; no
      other cell of C is written. Non-positive dimensions run no iterations. */
  method MultiplyMatricesWithoutErrors(A: Matrix, B: Matrix, C: array2<int>,
                                       rowsA: int, colsA: int, colsB: int)
    requires colsB <= 0 || Covers(A, rowsA, colsA)
    requires rowsA <= 0 || Covers(B, colsA, colsB)
    requires rowsA <= 0 || colsB <= 0 || (rowsA <= C.Length0 && colsB <= C.Length1)
    modifies C
    ensures forall r, c :: 0 <= r < C.Length0 && 0 <= c < C.Length1 ==>
      C[r, c] == if r < rowsA && c < colsB then Dot(A, B, r, c, Count(colsA)) else old(C[r, c])
    ensures Block(C, Count(rowsA), Count(colsB)) == Product(A, B, Count(rowsA), Count(colsA), Count(colsB))
    ensures colsA <= 0 ==> forall r, c :: 0 <= r < rowsA && 0 <= c < colsB ==> C[r, c] == 0
  {
    CellsDefined(A, B, rowsA, colsA, colsB);
    var i := 0;
    while i < rowsA
      invariant 0 <= i <= Count(rowsA)
      invariant forall r, c :: 0 <= r < C.Length0 && 0 <= c < C.Length1 ==>
        C[r, c] == if r < i && c < colsB then Dot(A, B, r, c, Count(colsA)) else old(C[r, c])
    {
      var j := 0;
      while j < colsB
        invariant 0 <= j <= Count(colsB)
        invariant forall r, c :: 0 <= r < C.Length0 && 0 <= c < C.Length1 ==>
          C[r, c] == if (r < i && c < colsB) || (r == i && c < j)
                     then Dot(A, B, r, c, Count(colsA)) else old(C[r, c])
      {
        C[i, j] := 0;
        var k := 0;
        while k < colsA
          invariant 0 <= k <= Count(colsA)
          invariant C[i, j] == Dot(A, B, i, j, k)
          invariant forall r, c :: 0 <= r < C.Length0 && 0 <= c < C.Length1 && (r != i || c != j) ==>
            C[r, c] == if (r < i && c < colsB) || (r == i && c < j)
                       then Dot(A, B, r, c, Count(colsA)) else old(C[r, c])
        {
          C[i, j] := C[i, j] + A[i][k] * B[k][j];
          k := k + 1;
        }
        j := j + 1;
      }
      i := i + 1;
    }
    CellwiseEqual(Block(C, Count(rowsA), Count(colsB)), Product(A, B, Count(rowsA), Count(colsA), Count(colsB)),
                  Count(rowsA), Count(colsB));
  }

  /** The product written into C does not depend on what C held before:
      two buffers, whatever their prior contents, receive the same block.
      The two may be one and the same buffer, used twice. */
  method ResultIgnoresPriorContents(A: Matrix, B: Matrix, C1: array2<int>, C2: array2<int>,
                                    rowsA: int, colsA: int, colsB: int)
    requires colsB <= 0 || Covers(A, rowsA, colsA)
    requires rowsA <= 0 || Covers(B, colsA, colsB)
    requires rowsA <= 0 || colsB <= 0 || (rowsA <= C1.Length0 && colsB <= C1.Length1)
    requires rowsA <= 0 || colsB <= 0 || (rowsA <= C2.Length0 && colsB <= C2.Length1)
    modifies C1, C2
    ensures Block(C1, Count(rowsA), Count(colsB)) == Block(C2, Count(rowsA), Count(colsB))
  {
    MultiplyMatricesWithoutErrors(A, B, C1, rowsA, colsA, colsB);
    MultiplyMatricesWithoutErrors(A, B, C2, rowsA, colsA, colsB);
  }
}
