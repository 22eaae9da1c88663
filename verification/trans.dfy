/**
 * The matrix transposes of Project/CacheLab/trans.c on flat row-major
 * arrays: `int A[N][M]` is a sequence of N * M words whose element
 * (row, col) is word row * M + col, and `B[M][N]` likewise. The blocked
 * variants of `transpose_submit` walk a row pointer of B past the end of
 * its row; in the flat model that is plain index arithmetic, and the
 * lemmas below show each such index lands on the intended element.
 * A is an input value and is never written.
 */
module Transpose {
  import opened Bits

  /** (a + 1) * c bounds a * c + anything below c, and multiplication by c is monotone. */
  lemma MulLe(a: nat, b: nat, c: nat)
    requires a <= b
    ensures a * c <= b * c
  {
  }

  /** An element of a rows x cols array lies inside the array. */
  lemma IndexBound(row: nat, col: nat, rows: nat, cols: nat)
    requires row < rows && col < cols
    ensures row * cols + col < rows * cols
  {
    MulLe(row + 1, rows, cols);
  }

  /** Different elements of a row-major array live at different words. */
  lemma FlatUnique(cols: nat, r1: nat, c1: nat, r2: nat, c2: nat)
    requires c1 < cols && c2 < cols && r1 * cols + c1 == r2 * cols + c2
    ensures r1 == r2 && c1 == c2
  {
    DivModUnique(r1 * cols + c1, cols, r1, c1);
    DivModUnique(r2 * cols + c2, cols, r2, c2);
  }

  /** `a[row][col]` of an `int a[rows][cols]`. */
  function Get(a: seq<int>, rows: nat, cols: nat, row: nat, col: nat): int
    requires |a| == rows * cols && row < rows && col < cols
  {
    IndexBound(row, col, rows, cols);
    a[row * cols + col]
  }

  /** `a[row][col] = v`: that element reads v and every other element is unchanged. */
  function Put(a: seq<int>, rows: nat, cols: nat, row: nat, col: nat, v: int): (r: seq<int>)
    requires |a| == rows * cols && row < rows && col < cols
    ensures |r| == |a| && Get(r, rows, cols, row, col) == v
    ensures forall i, j {:trigger Get(r, rows, cols, i, j)} ::
      0 <= i < rows && 0 <= j < cols && (i != row || j != col) ==> Get(r, rows, cols, i, j) == Get(a, rows, cols, i, j)
  {
    IndexBound(row, col, rows, cols);
    var r := a[row * cols + col := v];
    PutFrame(a, rows, cols, row, col, v, r);
    r
  }

  lemma PutFrame(a: seq<int>, rows: nat, cols: nat, row: nat, col: nat, v: int, r: seq<int>)
    requires |a| == rows * cols && row < rows && col < cols && row * cols + col < |a|
    requires r == a[row * cols + col := v]
    ensures forall i, j {:trigger Get(r, rows, cols, i, j)} ::
      0 <= i < rows && 0 <= j < cols && (i != row || j != col) ==> Get(r, rows, cols, i, j) == Get(a, rows, cols, i, j)
  {
    forall i, j | 0 <= i < rows && 0 <= j < cols && (i != row || j != col)
      ensures Get(r, rows, cols, i, j) == Get(a, rows, cols, i, j)
    {
      PutOther(a, rows, cols, row, col, v, r, i, j);
    }
  }

  lemma PutOther(a: seq<int>, rows: nat, cols: nat, row: nat, col: nat, v: int, r: seq<int>, i: nat, j: nat)
    requires |a| == rows * cols && row < rows && col < cols && row * cols + col < |a|
    requires r == a[row * cols + col := v]
    requires i < rows && j < cols && (i != row || j != col)
    ensures Get(r, rows, cols, i, j) == Get(a, rows, cols, i, j)
  {
    IndexBound(i, j, rows, cols);
    var k, m := i * cols + j, row * cols + col;
    if k == m {
      FlatUnique(cols, i, j, row, col);
    }
    assert r[k] == a[k];
  }

  /** B (M x N) is the transpose of A (N x M): `B[j][i] == A[i][j]` for every i < N, j < M. */
  predicate IsTranspose(M: nat, N: nat, A: seq<int>, B: seq<int>)
    requires |A| == N * M && |B| == M * N
  {
    forall i, j :: 0 <= i < N && 0 <= j < M ==> Get(B, M, N, j, i) == Get(A, N, M, i, j)
  }

  /** The transpose of A as a value: word k of B is row k / N, column k % N of B. */
  function Transposed(M: nat, N: nat, A: seq<int>): (B: seq<int>)
    requires N > 0 && |A| == N * M
    ensures |B| == M * N
  {
    seq(M * N, k requires 0 <= k < M * N =>
      TransposedWord(M, N, k);
      A[(k % N) * M + k / N])
  }

  lemma TransposedWord(M: nat, N: nat, k: nat)
    requires N > 0 && k < M * N
    ensures k / N < M && (k % N) * M + k / N < N * M
  {
    if k / N >= M {
      MulLe(M, k / N, N);
    }
    IndexBound(k % N, k / N, N, M);
  }

  /** A satisfies `is_transpose` against exactly one B: the transposed array. */
  lemma TransposeUnique(M: nat, N: nat, A: seq<int>, B: seq<int>)
    requires N > 0 && |A| == N * M && |B| == M * N
    ensures IsTranspose(M, N, A, B) <==> B == Transposed(M, N, A)
  {
    if IsTranspose(M, N, A, B) {
      TransposeIsTransposed(M, N, A, B);
    }
    if B == Transposed(M, N, A) {
      TransposedIsTranspose(M, N, A);
    }
  }

  /** A B that passes `is_transpose` holds, word by word, the transposed array. */
  lemma TransposeIsTransposed(M: nat, N: nat, A: seq<int>, B: seq<int>)
    requires N > 0 && |A| == N * M && |B| == M * N && IsTranspose(M, N, A, B)
    ensures B == Transposed(M, N, A)
  {
    var T := Transposed(M, N, A);
    forall k | 0 <= k < M * N
      ensures B[k] == T[k]
    {
      TransposedWord(M, N, k);
      assert Get(B, M, N, k / N, k % N) == Get(A, N, M, k % N, k / N);
    }
  }

  /** The transposed array passes `is_transpose`. */
  lemma TransposedIsTranspose(M: nat, N: nat, A: seq<int>)
    requires N > 0 && |A| == N * M
    ensures IsTranspose(M, N, A, Transposed(M, N, A))
  {
    var B := Transposed(M, N, A);
    forall i, j | 0 <= i < N && 0 <= j < M
      ensures Get(B, M, N, j, i) == Get(A, N, M, i, j)
    {
      IndexBound(j, i, M, N);
      var k := j * N + i;
      DivModUnique(k, N, j, i);
    }
  }

  /**
   * `is_transpose`: scans A row by row and answers 0 at the first element
   * that differs from its mirror in B, 1 when none does.
   */
  method IsTransposeCheck(M: nat, N: nat, A: seq<int>, B: seq<int>) returns (ok: int)
    requires |A| == N * M && |B| == M * N
    ensures ok == 0 || ok == 1
    ensures ok == 1 <==> IsTranspose(M, N, A, B)
  {
    var i := 0;
    while i < N
      invariant 0 <= i <= N
      invariant forall r, c :: 0 <= r < i && 0 <= c < M ==> Get(B, M, N, c, r) == Get(A, N, M, r, c)
    {
      var j := 0;
      while j < M
        invariant 0 <= j <= M
        invariant forall c :: 0 <= c < j ==> Get(B, M, N, c, i) == Get(A, N, M, i, c)
      {
        if Get(A, N, M, i, j) != Get(B, M, N, j, i) {
          return 0;
        }
        j := j + 1;
      }
      i := i + 1;
    }
    return 1;
  }

  /** `trans`, the baseline: `B[j][i] = A[i][j]` for every row i and column j of A. */
  method Trans(M: nat, N: nat, A: seq<int>, B: seq<int>) returns (B': seq<int>)
    requires M > 0 && N > 0 && |A| == N * M && |B| == M * N
    ensures |B'| == |B| && IsTranspose(M, N, A, B')
  {
    B' := B;
    var i := 0;
    while i < N
      invariant 0 <= i <= N && |B'| == M * N
      invariant forall r, c :: 0 <= r < i && 0 <= c < M ==> Get(B', M, N, c, r) == Get(A, N, M, r, c)
    {
      var j := 0;
      while j < M
        invariant 0 <= j <= M && |B'| == M * N
        invariant forall r, c :: 0 <= r < i && 0 <= c < M ==> Get(B', M, N, c, r) == Get(A, N, M, r, c)
        invariant forall c :: 0 <= c < j ==> Get(B', M, N, c, i) == Get(A, N, M, i, c)
      {
        var tmp := Get(A, N, M, i, j);
        B' := Put(B', M, N, j, i, tmp);
        j := j + 1;
      }
      i := i + 1;
    }
  }

  /** Inside a block of `size` starting at a multiple of size, only the first index is a multiple of size. */
  lemma BlockStart(q: nat, j: nat, size: nat)
    requires size > 0 && j % size == 0 && j <= q < j + size
    ensures q % size == 0 <==> q == j
  {
    DivModUnique(q, size, j / size, q - j);
  }

  /** An index of one aligned block lies outside any other aligned block. */
  lemma BlocksApart(p: nat, i: nat, j: nat, size: nat)
    requires size > 0 && i % size == 0 && j % size == 0 && i != j && i <= p < i + size
    ensures p < j || j + size <= p
  {
    DivModUnique(p, size, i / size, p - i);
    if j <= p < j + size {
      DivModUnique(p, size, j / size, p - j);
    }
  }

  /** The word `B_buf[r]` reaches: `B_buf = B[j]` and r = p + n * (q - j) give element (q, p) of B. */
  lemma RowPointer(n: nat, j: nat, q: nat, p: nat)
    requires j <= q
    ensures j * n + (p + n * (q - j)) == q * n + p
  {
  }

  /**
   * The write `B_buf[r] = A_buf[q]` with `B_buf = B[j]`, r = p + n * (q - j)
   * and `A_buf = A[p]` stays inside both arrays and sets element (q, p) of
   * B to element (p, q) of A.
   */
  lemma RowWrite(n: nat, A: seq<int>, B: seq<int>, j: nat, q: nat, p: nat, bb: nat, r: nat, ab: nat)
    requires |A| == n * n && |B| == n * n && j <= q < n && p < n
    requires bb == j * n && r == p + n * (q - j) && ab == p * n
    ensures bb + r < |B| && ab + q < |A|
    ensures B[bb + r := A[ab + q]] == Put(B, n, n, q, p, Get(A, n, n, p, q))
  {
    RowPointer(n, j, q, p);
    IndexBound(q, p, n, n);
    IndexBound(p, q, n, n);
  }

  /**
   * The q loop of `BlockRow` for row p of A (`A_buf` = word ab): every
   * element of column p of the block of B but the diagonal one mirrors row
   * p of A, and nothing else changes.
   */
  method RowLoop(n: nat, size: nat, A: seq<int>, B: seq<int>, j: nat, p: nat, ab: nat) returns (B': seq<int>)
    requires 0 < size && j % size == 0 && j + size <= n && p < n && ab == p * n
    requires |A| == n * n && |B| == n * n
    ensures |B'| == n * n
    ensures forall c :: j <= c < j + size && c != p ==> Get(B', n, n, c, p) == Get(A, n, n, p, c)
    ensures forall x, y :: 0 <= x < n && 0 <= y < n && !(j <= x < j + size && y == p) ==>
      Get(B', n, n, x, y) == Get(B, n, n, x, y)
  {
    B' := B;
    var r: nat := 0 + p;
    var bb: nat := 0;
    var q := j;
    while q < j + size
      invariant j <= q <= j + size && r == p + n * (q - j) && |B'| == n * n
      invariant q > j ==> bb == j * n
      invariant forall c :: j <= c < q && c != p ==> Get(B', n, n, c, p) == Get(A, n, n, p, c)
      invariant forall x, y :: 0 <= x < n && 0 <= y < n && !(j <= x < q && y == p) ==>
        Get(B', n, n, x, y) == Get(B, n, n, x, y)
    {
      B', bb := RowStep(n, size, A, B', j, q, p, bb, r, ab);
      NextRow(n, q, j);
      r := r + n;
      q := q + 1;
    }
  }

  /**
   * One step of the q loop of `BlockRow`: at the first q of the block the
   * row pointer is set to row j of B, and unless q is the diagonal the
   * write through it sets element (q, p) of B to element (p, q) of A.
   */
  method RowStep(n: nat, size: nat, A: seq<int>, B: seq<int>, j: nat, q: nat, p: nat, bb: nat, r: nat, ab: nat)
    returns (B': seq<int>, bb': nat)
    requires 0 < size && j % size == 0 && j <= q < j + size && j + size <= n && p < n
    requires |A| == n * n && |B| == n * n
    requires (q > j ==> bb == j * n) && r == p + n * (q - j) && ab == p * n
    ensures bb' == j * n
    ensures p != q ==> B' == Put(B, n, n, q, p, Get(A, n, n, p, q))
    ensures p == q ==> B' == B
  {
    B', bb' := B, bb;
    BlockStart(q, j, size);
    if q % size == 0 {
      NextRow(n, q, j);
      bb' := q * n;
    }
    if p != q {
      RowWrite(n, A, B', j, q, p, bb', r, ab);
      B' := B'[bb' + r := A[ab + q]];
    }
  }

  /** The row offset grows by a row per step, and a row start is a natural number. */
  lemma NextRow(n: nat, q: nat, j: nat)
    requires j <= q
    ensures n * (q + 1 - j) == n * (q - j) + n && q * n >= 0
  {
  }

  /** Element (x, y) of an n x n B lies outside the block of rows j.., columns i.. of the given size. */
  predicate Outside(x: nat, y: nat, i: nat, j: nat, size: nat)
  {
    !(j <= x < j + size && i <= y < i + size)
  }

  /**
   * One row p of a block of the 32 x 32 and 64 x 64 branches: the q loop
   * writes `B_buf[r] = A_buf[q]` for every q of the block but p, through a
   * row pointer of B set when q is a multiple of the block size and an
   * offset r that grows by a row each step; the diagonal element goes
   * through `temp`. Afterwards column p of the block of B mirrors row p of
   * A, and nothing outside that column of the block changes.
   */
  method BlockRow(n: nat, size: nat, A: seq<int>, B: seq<int>, i: nat, j: nat, p: nat) returns (B': seq<int>)
    requires 0 < size && i % size == 0 && j % size == 0 && i + size <= n && j + size <= n
    requires i <= p < i + size && |A| == n * n && |B| == n * n
    ensures |B'| == n * n
    ensures forall c :: j <= c < j + size ==> Get(B', n, n, c, p) == Get(A, n, n, p, c)
    ensures forall x, y :: 0 <= x < n && 0 <= y < n && !(j <= x < j + size && y == p) ==>
      Get(B', n, n, x, y) == Get(B, n, n, x, y)
  {
    if i == j {
      B' := DiagonalBlockRow(n, size, A, B, j, p);
    } else {
      BlocksApart(p, i, j, size);
      B' := OffDiagonalBlockRow(n, size, A, B, j, p);
    }
  }

  /** `BlockRow` on a diagonal block: `temp` holds element (p, p) of A across the q loop. */
  method DiagonalBlockRow(n: nat, size: nat, A: seq<int>, B: seq<int>, j: nat, p: nat) returns (B': seq<int>)
    requires 0 < size && j % size == 0 && j <= p < j + size <= n && |A| == n * n && |B| == n * n
    ensures |B'| == n * n
    ensures forall c :: j <= c < j + size ==> Get(B', n, n, c, p) == Get(A, n, n, p, c)
    ensures forall x, y :: 0 <= x < n && 0 <= y < n && !(j <= x < j + size && y == p) ==>
      Get(B', n, n, x, y) == Get(B, n, n, x, y)
  {
    IndexBound(p, p, n, n);
    var ab := p * n;
    var temp := A[ab + p];
    var B1 := RowLoop(n, size, A, B, j, p, ab);
    B' := Put(B1, n, n, p, p, temp);
    DiagonalPut(n, size, A, B, B1, B', j, p);
  }

  /** `BlockRow` off the diagonal: row p of A misses the block's columns, and the q loop does all the writes. */
  method OffDiagonalBlockRow(n: nat, size: nat, A: seq<int>, B: seq<int>, j: nat, p: nat) returns (B': seq<int>)
    requires 0 < size && j % size == 0 && j + size <= n && (p < j || j + size <= p) && p < n
    requires |A| == n * n && |B| == n * n
    ensures |B'| == n * n
    ensures forall c :: j <= c < j + size ==> Get(B', n, n, c, p) == Get(A, n, n, p, c)
    ensures forall x, y :: 0 <= x < n && 0 <= y < n && !(j <= x < j + size && y == p) ==>
      Get(B', n, n, x, y) == Get(B, n, n, x, y)
  {
    IndexBound(p, 0, n, n);
    var ab := p * n;
    B' := RowLoop(n, size, A, B, j, p, ab);
    OffDiagonalRow(n, size, A, B, B', j, p);
  }

  /** Off the diagonal, p is not a column of the block, and the q loop alone completes column p. */
  lemma OffDiagonalRow(n: nat, size: nat, A: seq<int>, B: seq<int>, B': seq<int>, j: nat, p: nat)
    requires (p < j || j + size <= p) && p < n && j + size <= n && |A| == n * n && |B| == n * n && |B'| == n * n
    requires forall c :: j <= c < j + size && c != p ==> Get(B', n, n, c, p) == Get(A, n, n, p, c)
    ensures forall c :: j <= c < j + size ==> Get(B', n, n, c, p) == Get(A, n, n, p, c)
  {
  }

  /**
   * On a diagonal block the q loop skips element (p, p), and the write of
   * `temp` after it completes column p of the block of B.
   */
  lemma DiagonalPut(n: nat, size: nat, A: seq<int>, B: seq<int>, B1: seq<int>, B': seq<int>, j: nat, p: nat)
    requires j <= p < j + size <= n && |A| == n * n && |B| == n * n && |B1| == n * n
    requires forall c :: j <= c < j + size && c != p ==> Get(B1, n, n, c, p) == Get(A, n, n, p, c)
    requires forall x, y :: 0 <= x < n && 0 <= y < n && !(j <= x < j + size && y == p) ==>
      Get(B1, n, n, x, y) == Get(B, n, n, x, y)
    requires B' == Put(B1, n, n, p, p, Get(A, n, n, p, p))
    ensures |B'| == n * n
    ensures forall c :: j <= c < j + size ==> Get(B', n, n, c, p) == Get(A, n, n, p, c)
    ensures forall x, y :: 0 <= x < n && 0 <= y < n && !(j <= x < j + size && y == p) ==>
      Get(B', n, n, x, y) == Get(B, n, n, x, y)
  {
  }

  /**
   * One size x size block of the 32 x 32 and 64 x 64 branches, rows i.. of
   * A against columns j..: afterwards that block of B mirrors that block
   * of A, and every element of B outside it is unchanged.
   */
  method SquareBlock(n: nat, size: nat, A: seq<int>, B: seq<int>, i: nat, j: nat) returns (B': seq<int>)
    requires 0 < size && i % size == 0 && j % size == 0 && i + size <= n && j + size <= n
    requires |A| == n * n && |B| == n * n
    ensures |B'| == n * n
    ensures forall r, c :: i <= r < i + size && j <= c < j + size ==> Get(B', n, n, c, r) == Get(A, n, n, r, c)
    ensures forall x, y :: 0 <= x < n && 0 <= y < n && Outside(x, y, i, j, size) ==>
      Get(B', n, n, x, y) == Get(B, n, n, x, y)
  {
    B' := B;
    var p := i;
    while p < i + size
      invariant i <= p <= i + size && |B'| == n * n
      invariant forall r, c :: i <= r < p && j <= c < j + size ==> Get(B', n, n, c, r) == Get(A, n, n, r, c)
      invariant forall x, y :: 0 <= x < n && 0 <= y < n && !(j <= x < j + size && i <= y < p) ==>
        Get(B', n, n, x, y) == Get(B, n, n, x, y)
    {
      B' := BlockRow(n, size, A, B', i, j, p);
      p := p + 1;
    }
  }

  /** The 32 x 32 branch: 8 x 8 blocks, A's row blocks outside, column blocks inside. */
  method Submit32(A: seq<int>, B: seq<int>) returns (B': seq<int>)
    requires |A| == 32 * 32 && |B| == 32 * 32
    ensures |B'| == |B| && IsTranspose(32, 32, A, B')
  {
    B' := B;
    var i := 0;
    while i < 32
      invariant 0 <= i <= 32 && i % 8 == 0 && |B'| == 32 * 32
      invariant forall r, c :: 0 <= r < i && 0 <= c < 32 ==> Get(B', 32, 32, c, r) == Get(A, 32, 32, r, c)
    {
      var j := 0;
      while j < 32
        invariant 0 <= j <= 32 && j % 8 == 0 && |B'| == 32 * 32
        invariant forall r, c :: 0 <= r < i && 0 <= c < 32 ==> Get(B', 32, 32, c, r) == Get(A, 32, 32, r, c)
        invariant forall r, c :: i <= r < i + 8 && 0 <= c < j ==> Get(B', 32, 32, c, r) == Get(A, 32, 32, r, c)
      {
        B' := SquareBlock(32, 8, A, B', i, j);
        j := j + 8;
      }
      i := i + 8;
    }
  }

  /** The 64 x 64 branch: 4 x 4 blocks, A's column blocks outside, row blocks inside. */
  method Submit64(A: seq<int>, B: seq<int>) returns (B': seq<int>)
    requires |A| == 64 * 64 && |B| == 64 * 64
    ensures |B'| == |B| && IsTranspose(64, 64, A, B')
  {
    B' := B;
    var j := 0;
    while j < 64
      invariant 0 <= j <= 64 && j % 4 == 0 && |B'| == 64 * 64
      invariant forall r, c :: 0 <= r < 64 && 0 <= c < j ==> Get(B', 64, 64, c, r) == Get(A, 64, 64, r, c)
    {
      var i := 0;
      while i < 64
        invariant 0 <= i <= 64 && i % 4 == 0 && |B'| == 64 * 64
        invariant forall r, c :: 0 <= r < 64 && 0 <= c < j ==> Get(B', 64, 64, c, r) == Get(A, 64, 64, r, c)
        invariant forall r, c :: 0 <= r < i && j <= c < j + 4 ==> Get(B', 64, 64, c, r) == Get(A, 64, 64, r, c)
      {
        B' := SquareBlock(64, 4, A, B', i, j);
        i := i + 4;
      }
      j := j + 4;
    }
  }

  /**
   * One 8 x 8 block of the 61 x 67 branch, rows i.. of A (A is 67 x 61)
   * against columns j..: `B[p][q] = A[q][p]` for every p < 61 and q < 67
   * of the block; afterwards that block of B mirrors A, and every element
   * of B outside it is unchanged.
   */
  method RectBlock(A: seq<int>, B: seq<int>, i: nat, j: nat) returns (B': seq<int>)
    requires |A| == 67 * 61 && |B| == 61 * 67
    ensures |B'| == 61 * 67
    ensures forall q, p :: i <= q < i + 8 && q < 67 && j <= p < j + 8 && p < 61 ==>
      Get(B', 61, 67, p, q) == Get(A, 67, 61, q, p)
    ensures forall x, y :: 0 <= x < 61 && 0 <= y < 67 && Outside(x, y, i, j, 8) ==>
      Get(B', 61, 67, x, y) == Get(B, 61, 67, x, y)
  {
    B' := B;
    var p := j;
    while p < j + 8
      invariant j <= p <= j + 8 && |B'| == 61 * 67
      invariant forall q, p' :: i <= q < i + 8 && q < 67 && j <= p' < p && p' < 61 ==>
        Get(B', 61, 67, p', q) == Get(A, 67, 61, q, p')
      invariant forall x, y :: 0 <= x < 61 && 0 <= y < 67 && !(j <= x < p && i <= y < i + 8) ==>
        Get(B', 61, 67, x, y) == Get(B, 61, 67, x, y)
    {
      if p < 61 {
        var q := i;
        while q < i + 8
          invariant i <= q <= i + 8 && |B'| == 61 * 67
          invariant forall q', p' :: i <= q' < i + 8 && q' < 67 && j <= p' < p && p' < 61 ==>
            Get(B', 61, 67, p', q') == Get(A, 67, 61, q', p')
          invariant forall q' :: i <= q' < q && q' < 67 ==> Get(B', 61, 67, p, q') == Get(A, 67, 61, q', p)
          invariant forall x, y ::
            0 <= x < 61 && 0 <= y < 67 && !(j <= x < p && i <= y < i + 8) && !(x == p && i <= y < q) ==>
            Get(B', 61, 67, x, y) == Get(B, 61, 67, x, y)
        {
          if q < 67 {
            B' := Put(B', 61, 67, p, q, Get(A, 67, 61, q, p));
          }
          q := q + 1;
        }
      }
      p := p + 1;
    }
  }

  /** The 61 x 67 branch: 8 x 8 blocks, bounds-checked at the ragged right and bottom edges. */
  method Submit6167(A: seq<int>, B: seq<int>) returns (B': seq<int>)
    requires |A| == 67 * 61 && |B| == 61 * 67
    ensures |B'| == |B| && IsTranspose(61, 67, A, B')
  {
    B' := B;
    var i := 0;
    while i < 67
      invariant 0 <= i <= 72 && i % 8 == 0 && |B'| == 61 * 67
      invariant forall q, p :: 0 <= q < i && q < 67 && 0 <= p < 61 ==> Get(B', 61, 67, p, q) == Get(A, 67, 61, q, p)
    {
      var j := 0;
      while j < 61
        invariant 0 <= j <= 64 && j % 8 == 0 && |B'| == 61 * 67
        invariant forall q, p :: 0 <= q < i && q < 67 && 0 <= p < 61 ==> Get(B', 61, 67, p, q) == Get(A, 67, 61, q, p)
        invariant forall q, p :: i <= q < i + 8 && q < 67 && 0 <= p < j && p < 61 ==>
          Get(B', 61, 67, p, q) == Get(A, 67, 61, q, p)
      {
        B' := RectBlock(A, B', i, j);
        j := j + 8;
      }
      i := i + 8;
    }
  }

  /** The shapes `transpose_submit` has a branch for; the three are mutually exclusive. */
  predicate Handled(M: nat, N: nat)
  {
    (M == 32 && N == 32) || (M == 64 && N == 64) || (M == 61 && N == 67)
  }

  /**
   * `transpose_submit`: for the three shapes it handles, B becomes the
   * transpose of A; for any other shape no branch runs and B is left as it
   * was.
   */
  method TransposeSubmit(M: nat, N: nat, A: seq<int>, B: seq<int>) returns (B': seq<int>)
    requires M > 0 && N > 0 && |A| == N * M && |B| == M * N
    ensures |B'| == |B|
    ensures Handled(M, N) ==> IsTranspose(M, N, A, B') && B' == Transposed(M, N, A)
    ensures !Handled(M, N) ==> B' == B
  {
    B' := B;
    if M == 32 && N == 32 {
      B' := Submit32(A, B');
    }
    if M == 64 && N == 64 {
      B' := Submit64(A, B');
    }
    if M == 61 && N == 67 {
      B' := Submit6167(A, B');
    }
    if Handled(M, N) {
      TransposeUnique(M, N, A, B');
    }
  }
}
