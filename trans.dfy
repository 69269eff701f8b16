/**
 * The matrix-transpose kernels of the cache lab: B = A^T.
 *
 * A is an N-by-M matrix (A[row, col] with row < N, col < M) and B is M-by-N.
 * Every kernel writes only B, so A keeps its contents.  The blocked kernel
 * picks one of three tilings by the value of N; each tiling is written as a
 * driver loop over tiles and a method per tile whose contract confines its
 * writes to that tile of B.
 */
module Trans {

  /** B holds the transpose of A: B[j, i] == A[i, j] for every cell of A. */
  ghost predicate Transposed(A: array2<int>, B: array2<int>)
    reads A, B
  {
    && A.Length0 == B.Length1
    && A.Length1 == B.Length0
    && forall i, j :: 0 <= i < A.Length0 && 0 <= j < A.Length1 ==> B[j, i] == A[i, j]
  }

  /** The shapes every kernel is called with: A is N x M, B is M x N, two different matrices. */
  ghost predicate Shapes(M: int, N: int, A: array2<int>, B: array2<int>)
  {
    A != B && A.Length0 == N && A.Length1 == M && B.Length0 == M && B.Length1 == N
  }

  /** The checker: 1 exactly when B is the transpose of A, 0 otherwise. */
  method IsTranspose(M: int, N: int, A: array2<int>, B: array2<int>) returns (r: int)
    requires A.Length0 == N && A.Length1 == M && B.Length0 == M && B.Length1 == N
    ensures r == 0 || r == 1
    ensures r == 1 <==> forall i, j :: 0 <= i < N && 0 <= j < M ==> A[i, j] == B[j, i]
  {
    var i := 0;
    while i < N
      invariant 0 <= i <= N
      invariant forall y, x :: 0 <= y < i && 0 <= x < M ==> A[y, x] == B[x, y]
    {
      var j := 0;
      while j < M
        invariant 0 <= j <= M
        invariant forall y, x :: 0 <= y < i && 0 <= x < M ==> A[y, x] == B[x, y]
        invariant forall x :: 0 <= x < j ==> A[i, x] == B[x, i]
      {
        if A[i, j] != B[j, i] {
          return 0;
        }
        j := j + 1;
      }
      i := i + 1;
    }
    return 1;
  }

  /** The baseline row-wise transpose. */
  method Trans(M: int, N: int, A: array2<int>, B: array2<int>)
    requires Shapes(M, N, A, B)
    modifies B
    ensures Transposed(A, B)
    ensures forall i, j :: 0 <= i < N && 0 <= j < M ==> A[i, j] == old(A[i, j])
  {
    var i := 0;
    while i < N
      invariant 0 <= i <= N
      invariant forall y, x :: 0 <= y < i && 0 <= x < M ==> B[x, y] == A[y, x]
    {
      var j := 0;
      while j < M
        invariant 0 <= j <= M
        invariant forall y, x :: 0 <= y < i && 0 <= x < M ==> B[x, y] == A[y, x]
        invariant forall x :: 0 <= x < j ==> B[x, i] == A[i, x]
      {
        var tmp := A[i, j];
        B[j, i] := tmp;
        j := j + 1;
      }
      i := i + 1;
    }
  }

  /**
   * The submitted blocked transpose.  The three branches assume what the
   * code needs of its sizes: the 32-row branch reads whole 8-column strips
   * (M a multiple of 8), the 64-row branch walks square 8x8 tiles of a
   * 64x64 matrix, and the general branch clips its 16x16 tiles to the matrix.
   */
  method TransposeSubmit(M: int, N: int, A: array2<int>, B: array2<int>)
    requires Shapes(M, N, A, B)
    requires N == 32 ==> M % 8 == 0
    requires N == 64 ==> M == 64
    modifies B
    ensures Transposed(A, B)
    ensures forall i, j :: 0 <= i < N && 0 <= j < M ==> A[i, j] == old(A[i, j])
  {
    if N == 32 {
      Submit32(M, N, A, B);
    } else if N == 64 {
      Submit64(M, N, A, B);
    } else {
      SubmitGeneral(M, N, A, B);
    }
  }

  // ---------------------------------------------------------------------
  // N == 32: 8x8 tiles, row k of the A tile copied to column k of the B tile.
  // ---------------------------------------------------------------------

  method Submit32(M: int, N: int, A: array2<int>, B: array2<int>)
    requires Shapes(M, N, A, B) && N == 32 && M % 8 == 0
    modifies B
    ensures Transposed(A, B)
  {
    var i := 0;
    while i < N
      invariant 0 <= i <= N && i % 8 == 0
      invariant forall y, x :: 0 <= y < i && 0 <= x < M ==> B[x, y] == A[y, x]
    {
      var j := 0;
      while j < M
        invariant 0 <= j <= M && j % 8 == 0
        invariant forall y, x :: 0 <= y < i && 0 <= x < M ==> B[x, y] == A[y, x]
        invariant forall y, x :: i <= y < i + 8 && 0 <= x < j ==> B[x, y] == A[y, x]
      {
        Tile32(A, B, i, j);
        j := j + 8;
      }
      i := i + 8;
    }
  }

  /** One 8x8 tile: A[i..i+8][j..j+8] transposed into B[j..j+8][i..i+8]; the rest of B untouched. */
  method Tile32(A: array2<int>, B: array2<int>, i: int, j: int)
    requires A != B && A.Length0 == B.Length1 && A.Length1 == B.Length0
    requires 0 <= i && i + 8 <= A.Length0 && 0 <= j && j + 8 <= A.Length1
    modifies B
    ensures forall x, y :: j <= x < j + 8 && i <= y < i + 8 ==> B[x, y] == A[y, x]
    ensures forall x, y :: 0 <= x < B.Length0 && 0 <= y < B.Length1 && !(j <= x < j + 8 && i <= y < i + 8)
              ==> B[x, y] == old(B[x, y])
  {
    var k := i;
    while k < i + 8
      invariant i <= k <= i + 8
      invariant forall x, y :: j <= x < j + 8 && i <= y < k ==> B[x, y] == A[y, x]
      invariant forall x, y :: 0 <= x < B.Length0 && 0 <= y < B.Length1 && !(j <= x < j + 8 && i <= y < i + 8)
                  ==> B[x, y] == old(B[x, y])
    {
      var t0 := A[k, j];
      var t1 := A[k, j + 1];
      var t2 := A[k, j + 2];
      var t3 := A[k, j + 3];
      var t4 := A[k, j + 4];
      var t5 := A[k, j + 5];
      var t6 := A[k, j + 6];
      var t7 := A[k, j + 7];

      B[j, k] := t0;
      B[j + 1, k] := t1;
      B[j + 2, k] := t2;
      B[j + 3, k] := t3;
      B[j + 4, k] := t4;
      B[j + 5, k] := t5;
      B[j + 6, k] := t6;
      B[j + 7, k] := t7;
      k := k + 1;
    }
  }

  // ---------------------------------------------------------------------
  // N == 64: 8x8 tiles split into 4x4 quadrants; the top-right quadrant of
  // the B tile parks values that belong in its bottom-left quadrant.
  // ---------------------------------------------------------------------

  method Submit64(M: int, N: int, A: array2<int>, B: array2<int>)
    requires Shapes(M, N, A, B) && N == 64 && M == 64
    modifies B
    ensures Transposed(A, B)
  {
    var i := 0;
    while i < N
      invariant 0 <= i <= N && i % 8 == 0
      invariant forall x, y :: 0 <= x < i && 0 <= y < N ==> B[x, y] == A[y, x]
    {
      var j := 0;
      while j < M
        invariant 0 <= j <= M && j % 8 == 0
        invariant forall x, y :: 0 <= x < i && 0 <= y < N ==> B[x, y] == A[y, x]
        invariant forall x, y :: i <= x < i + 8 && 0 <= y < j ==> B[x, y] == A[y, x]
      {
        Tile64(A, B, i, j);
        j := j + 8;
      }
      i := i + 8;
    }
  }

  /** The common frame of the 64x64 tile steps: the tile sits inside both matrices. */
  ghost predicate Tile64Fits(A: array2<int>, B: array2<int>, i: int, j: int)
  {
    && A != B && A.Length0 == B.Length1 && A.Length1 == B.Length0
    && 0 <= i && i + 8 <= B.Length0 && 0 <= j && j + 8 <= B.Length1
  }

  /**
   * One tile of the 64x64 branch: B[i..i+8][j..j+8] becomes the transpose of
   * A[j..j+8][i..i+8], and no other cell of B changes.  Its three inner loops
   * are the three methods below.
   */
  method Tile64(A: array2<int>, B: array2<int>, i: int, j: int)
    requires Tile64Fits(A, B, i, j)
    modifies B
    ensures forall x, y :: i <= x < i + 8 && j <= y < j + 8 ==> B[x, y] == A[y, x]
    ensures forall x, y :: 0 <= x < B.Length0 && 0 <= y < B.Length1 && !(i <= x < i + 8 && j <= y < j + 8)
              ==> B[x, y] == old(B[x, y])
  {
    Tile64Park(A, B, i, j);
    Tile64Move(A, B, i, j);
    Tile64Finish(A, B, i, j);
  }

  /**
   * Loop 1: rows j..j+3 of the A tile.  The left half of each row lands in
   * the top-left quadrant of the B tile; the right half is parked in the
   * top-right quadrant, B[x][y] holding A[y-4][x+4].
   */
  method Tile64Park(A: array2<int>, B: array2<int>, i: int, j: int)
    requires Tile64Fits(A, B, i, j)
    modifies B
    ensures forall x, y :: i <= x < i + 4 && j <= y < j + 4 ==> B[x, y] == A[y, x]
    ensures forall x, y :: i <= x < i + 4 && j + 4 <= y < j + 8 ==> B[x, y] == A[y - 4, x + 4]
    ensures forall x, y :: 0 <= x < B.Length0 && 0 <= y < B.Length1 && !(i <= x < i + 4 && j <= y < j + 8)
              ==> B[x, y] == old(B[x, y])
  {
    var k := j;
    while k < j + 4
      invariant j <= k <= j + 4
      invariant forall x, y :: i <= x < i + 4 && j <= y < k ==> B[x, y] == A[y, x]
      invariant forall x, y :: i <= x < i + 4 && j + 4 <= y < k + 4 ==> B[x, y] == A[y - 4, x + 4]
      invariant forall x, y :: 0 <= x < B.Length0 && 0 <= y < B.Length1 && !(i <= x < i + 4 && j <= y < j + 8)
                  ==> B[x, y] == old(B[x, y])
    {
      var t0 := A[k, i];
      var t1 := A[k, i + 1];
      var t2 := A[k, i + 2];
      var t3 := A[k, i + 3];
      var t4 := A[k, i + 4];
      var t5 := A[k, i + 5];
      var t6 := A[k, i + 6];
      var t7 := A[k, i + 7];
      B[i, k] := t0;
      B[i + 1, k] := t1;
      B[i + 2, k] := t2;
      B[i + 3, k] := t3;
      B[i, k + 4] := t4;
      B[i + 1, k + 4] := t5;
      B[i + 2, k + 4] := t6;
      B[i + 3, k + 4] := t7;
      k := k + 1;
    }
  }

  /**
   * Loop 2: each parked row of the top-right quadrant moves to the
   * bottom-left quadrant, and the freed row is filled from A's rows j+4..j+7.
   */
  method Tile64Move(A: array2<int>, B: array2<int>, i: int, j: int)
    requires Tile64Fits(A, B, i, j)
    requires forall x, y :: i <= x < i + 4 && j <= y < j + 4 ==> B[x, y] == A[y, x]
    requires forall x, y :: i <= x < i + 4 && j + 4 <= y < j + 8 ==> B[x, y] == A[y - 4, x + 4]
    modifies B
    ensures forall x, y :: i <= x < i + 8 && j <= y < j + 4 ==> B[x, y] == A[y, x]
    ensures forall x, y :: i <= x < i + 4 && j + 4 <= y < j + 8 ==> B[x, y] == A[y, x]
    ensures forall x, y :: 0 <= x < B.Length0 && 0 <= y < B.Length1 && !(i <= x < i + 8 && j <= y < j + 8)
              ==> B[x, y] == old(B[x, y])
    ensures forall x, y :: i + 4 <= x < i + 8 && j + 4 <= y < j + 8 ==> B[x, y] == old(B[x, y])
  {
    var k := i;
    while k < i + 4
      invariant i <= k <= i + 4
      invariant forall x, y :: i <= x < k && j + 4 <= y < j + 8 ==> B[x, y] == A[y, x]
      invariant forall x, y :: i + 4 <= x < k + 4 && j <= y < j + 4 ==> B[x, y] == A[y, x]
      invariant forall x, y :: 0 <= x < B.Length0 && 0 <= y < B.Length1
                  && !(i <= x < k && j + 4 <= y < j + 8) && !(i + 4 <= x < k + 4 && j <= y < j + 4)
                  ==> B[x, y] == old(B[x, y])
    {
      var t0 := B[k, j + 4];
      var t1 := B[k, j + 5];
      var t2 := B[k, j + 6];
      var t3 := B[k, j + 7];
      var t4 := A[j + 4, k];
      var t5 := A[j + 5, k];
      var t6 := A[j + 6, k];
      var t7 := A[j + 7, k];

      B[k + 4, j] := t0;
      B[k + 4, j + 1] := t1;
      B[k + 4, j + 2] := t2;
      B[k + 4, j + 3] := t3;
      B[k, j + 4] := t4;
      B[k, j + 5] := t5;
      B[k, j + 6] := t6;
      B[k, j + 7] := t7;
      k := k + 1;
    }
  }

  /** Loop 3: the bottom-right quadrant of the B tile straight from A; only that quadrant changes. */
  method Tile64Finish(A: array2<int>, B: array2<int>, i: int, j: int)
    requires Tile64Fits(A, B, i, j)
    modifies B
    ensures forall x, y :: i + 4 <= x < i + 8 && j + 4 <= y < j + 8 ==> B[x, y] == A[y, x]
    ensures forall x, y :: 0 <= x < B.Length0 && 0 <= y < B.Length1 && !(i + 4 <= x < i + 8 && j + 4 <= y < j + 8)
              ==> B[x, y] == old(B[x, y])
  {
    var k := i + 4;
    while k < i + 8
      invariant i + 4 <= k <= i + 8
      invariant forall x, y :: i + 4 <= x < k && j + 4 <= y < j + 8 ==> B[x, y] == A[y, x]
      invariant forall x, y :: 0 <= x < B.Length0 && 0 <= y < B.Length1 && !(i + 4 <= x < i + 8 && j + 4 <= y < j + 8)
                  ==> B[x, y] == old(B[x, y])
    {
      var t0 := A[j + 4, k];
      var t1 := A[j + 5, k];
      var t2 := A[j + 6, k];
      var t3 := A[j + 7, k];
      B[k, j + 4] := t0;
      B[k, j + 5] := t1;
      B[k, j + 6] := t2;
      B[k, j + 7] := t3;
      k := k + 1;
    }
  }

  // ---------------------------------------------------------------------
  // Any other N: 16x16 tiles, clipped at the bottom and right edges of A.
  // ---------------------------------------------------------------------

  method SubmitGeneral(M: int, N: int, A: array2<int>, B: array2<int>)
    requires Shapes(M, N, A, B)
    modifies B
    ensures Transposed(A, B)
  {
    var i := 0;
    while i < N
      invariant 0 <= i && (N <= 0 ==> i == 0) && (N > 0 ==> i < N + 16)
      invariant forall y, x :: 0 <= y < i && y < N && 0 <= x < M ==> B[x, y] == A[y, x]
    {
      var j := 0;
      while j < M
        invariant 0 <= j && (M <= 0 ==> j == 0) && (M > 0 ==> j < M + 16)
        invariant forall y, x :: 0 <= y < i && y < N && 0 <= x < M ==> B[x, y] == A[y, x]
        invariant forall y, x :: i <= y < i + 16 && y < N && 0 <= x < j && x < M ==> B[x, y] == A[y, x]
      {
        Tile16(A, B, i, j);
        j := j + 16;
      }
      i := i + 16;
    }
  }

  /** One clipped 16x16 tile: the A cells with row in [i, i+16) and column in [j, j+16). */
  method Tile16(A: array2<int>, B: array2<int>, i: int, j: int)
    requires A != B && A.Length0 == B.Length1 && A.Length1 == B.Length0
    requires 0 <= i < A.Length0 && 0 <= j < A.Length1
    modifies B
    ensures forall y, x :: i <= y < i + 16 && y < A.Length0 && j <= x < j + 16 && x < A.Length1
              ==> B[x, y] == A[y, x]
    ensures forall x, y :: 0 <= x < B.Length0 && 0 <= y < B.Length1 && !(j <= x < j + 16 && i <= y < i + 16)
              ==> B[x, y] == old(B[x, y])
  {
    var k := i;
    while k < i + 16 && k < A.Length0
      invariant i <= k <= i + 16 && k <= A.Length0
      invariant forall y, x :: i <= y < k && j <= x < j + 16 && x < A.Length1 ==> B[x, y] == A[y, x]
      invariant forall x, y :: 0 <= x < B.Length0 && 0 <= y < B.Length1 && !(j <= x < j + 16 && i <= y < i + 16)
                  ==> B[x, y] == old(B[x, y])
    {
      var l := j;
      while l < j + 16 && l < A.Length1
        invariant j <= l <= j + 16 && l <= A.Length1
        invariant forall y, x :: i <= y < k && j <= x < j + 16 && x < A.Length1 ==> B[x, y] == A[y, x]
        invariant forall x :: j <= x < l ==> B[x, k] == A[k, x]
        invariant forall x, y :: 0 <= x < B.Length0 && 0 <= y < B.Length1 && !(j <= x < j + 16 && i <= y < i + 16)
                    ==> B[x, y] == old(B[x, y])
      {
        B[l, k] := A[k, l];
        l := l + 1;
      }
      k := k + 1;
    }
  }
}
