/** Exact-arithmetic specification shared by every GEMM stage.

    The engines work on single-precision floats; here every value is an `int`, so the
    reference product is exact and "equal to the naive triple loop" is a theorem rather
    than a tolerance check.  Matrices are `array2<int>` (row-major `M[i * n + j]` of the
    source is `M[i, j]`); packed panels are flat `array<int>` buffers. */
module GemmSpec {

  /** The k-range [lo, hi) of the dot product of row i of A and column j of B,
      accumulated in ascending k, as every loop in the source does. */
  function DotMM(A: array2<int>, B: array2<int>, i: int, j: int, lo: int, hi: int): int
    requires 0 <= i < A.Length0 && 0 <= j < B.Length1
    requires 0 <= lo <= hi <= A.Length1 && hi <= B.Length0
    reads A, B
    decreases hi - lo
  {
    if lo == hi then 0 else DotMM(A, B, i, j, lo, hi - 1) + A[i, hi - 1] * B[hi - 1, j]
  }

  /** Splitting the K range anywhere does not change the sum: the reason why K-blocking
      (first_k zeroing, later blocks accumulating) yields the unblocked product. */
  lemma {:induction false} DotMMSplit(A: array2<int>, B: array2<int>, i: int, j: int, lo: int, mid: int, hi: int)
    requires 0 <= i < A.Length0 && 0 <= j < B.Length1
    requires 0 <= lo <= mid <= hi <= A.Length1 && hi <= B.Length0
    ensures DotMM(A, B, i, j, lo, mid) + DotMM(A, B, i, j, mid, hi) == DotMM(A, B, i, j, lo, hi)
    decreases hi - mid
  {
    if mid < hi {
      DotMMSplit(A, B, i, j, lo, mid, hi - 1);
    }
  }

  ghost predicate Square(M: array2<int>, n: int) {
    M.Length0 == n && M.Length1 == n
  }

  /** The smaller of two bounds (the guards `pc + KC <= n ? KC : n - pc` and the like). */
  function Min(a: int, b: int): (m: int)
    ensures m <= a && m <= b && (m == a || m == b)
  {
    if a <= b then a else b
  }

  /** A loop over blocks of `step` that stops at step * m, having run g blocks and not yet
      reached the end, has room for one more block. */
  lemma {:induction false} BlockStep(g: int, m: int, step: int)
    requires 0 < step && 0 <= g && step * g < step * m
    ensures step * (g + 1) <= step * m && step * (g + 1) == step * g + step
  {
    if g >= m {
      MulMono(step, m, g);
      assert false;
    }
    MulMono(step, g + 1, m);
  }

  lemma MulMono(a: int, b: int, c: int)
    requires 0 <= a && b <= c
    ensures a * b <= a * c
  {
    assert a * c - a * b == a * (c - b);
  }

  /** C holds the exact product A * B (what `gemm_naive` leaves in C). */
  ghost predicate IsProduct(C: array2<int>, A: array2<int>, B: array2<int>, n: int)
    requires Square(A, n) && Square(B, n) && Square(C, n)
    reads C, A, B
  {
    forall i, j :: 0 <= i < n && 0 <= j < n ==> C[i, j] == DotMM(A, B, i, j, 0, n)
  }

  /** The accumulator a kernel starts from: zero on the first K-block, the cell otherwise. */
  function Seed(prev: int, firstK: bool): int {
    if firstK then 0 else prev
  }

  /** What one K-block contribution leaves in a cell: the old value when accumulating,
      nothing when first_k, plus the block's partial dot product. */
  function Acc(prev: int, firstK: bool, A: array2<int>, B: array2<int>, i: int, j: int, lo: int, hi: int): int
    requires 0 <= i < A.Length0 && 0 <= j < B.Length1
    requires 0 <= lo <= hi <= A.Length1 && hi <= B.Length0
    reads A, B
  {
    Seed(prev, firstK) + DotMM(A, B, i, j, lo, hi)
  }

  /** Chaining K-blocks: a cell that held the product of [0, lo) and receives the block
      [lo, hi) (zeroed when lo == 0) holds the product of [0, hi). */
  lemma AccChain(A: array2<int>, B: array2<int>, i: int, j: int, prev: int, lo: int, hi: int)
    requires 0 <= i < A.Length0 && 0 <= j < B.Length1
    requires 0 <= lo <= hi <= A.Length1 && hi <= B.Length0
    requires lo > 0 ==> prev == DotMM(A, B, i, j, 0, lo)
    ensures Acc(prev, lo == 0, A, B, i, j, lo, hi) == DotMM(A, B, i, j, 0, hi)
  {
    DotMMSplit(A, B, i, j, 0, lo, hi);
  }

  /** A cell of C after the K-blocks [0, h) have been applied to it: untouched while h == 0,
      the partial product over [0, h) afterwards (the first block overwrites the cell). */
  function Progress(c0: int, A: array2<int>, B: array2<int>, i: int, j: int, h: int): int
    requires 0 <= i < A.Length0 && 0 <= j < B.Length1
    requires 0 <= h <= A.Length1 && h <= B.Length0
    reads A, B
  {
    if h == 0 then c0 else DotMM(A, B, i, j, 0, h)
  }

  /** One more non-empty K-block [h, h + K), zeroing exactly when it is the first, moves a
      cell from Progress h to Progress h + K. */
  lemma ProgressStep(c0: int, prev: int, A: array2<int>, B: array2<int>, i: int, j: int, h: int, K: int)
    requires 0 <= i < A.Length0 && 0 <= j < B.Length1
    requires 0 <= h && 0 < K && h + K <= A.Length1 && h + K <= B.Length0
    requires prev == Progress(c0, A, B, i, j, h)
    ensures Acc(prev, h == 0, A, B, i, j, h, h + K) == Progress(c0, A, B, i, j, h + K)
  {
    AccChain(A, B, i, j, prev, h, h + K);
  }

  // ---------------------------------------------------------------------------
  // Sums as the micro-kernels see them.  A packed slice is a value: the contents of
  // the packed buffer from the slice's first element on, K rows of mr (or nr)
  // entries, entry k * mr + i holding row i of the tile at step k.
  // ---------------------------------------------------------------------------

  /** Row k of a slice of K rows of mr entries lies inside it. */
  lemma RowFits(k: int, K: int, mr: int)
    requires 0 <= k < K && 0 <= mr
    ensures 0 <= k * mr && k * mr + mr <= K * mr
  {
    assert (K - k - 1) * mr >= 0;
    assert K * mr == (K - k - 1) * mr + k * mr + mr;
  }

  /** Rows of a slice come in order: an earlier row ends where a later one may begin. */
  lemma RowsOrdered(k: int, k': int, mr: int)
    requires 0 <= k < k' && 0 <= mr
    ensures k * mr + mr <= k' * mr
  {
    RowFits(k, k', mr);
  }

  /** w consecutive entries of column c of A from row r: the lanes a 4 x 4 transpose
      turns into one packed row. */
  function ColumnSegment(A: array2<int>, r: int, c: int, w: nat): (v: seq<int>)
    requires 0 <= r && r + w <= A.Length0 && 0 <= c < A.Length1
    reads A
    ensures |v| == w && forall a :: 0 <= a < w ==> v[a] == A[r + a, c]
  {
    seq(w, a requires 0 <= a < w reads A => A[r + a, c])
  }

  /** w consecutive entries of row r of B from column c (one vector load). */
  function RowSegment(B: array2<int>, r: int, c: int, w: nat): (v: seq<int>)
    requires 0 <= r < B.Length0 && 0 <= c && c + w <= B.Length1
    reads B
    ensures |v| == w && forall l :: 0 <= l < w ==> v[l] == B[r, c + l]
  {
    seq(w, l requires 0 <= l < w reads B => B[r, c + l])
  }

  /** Entries [i0, i0 + w) of row k of the packed A slice a hold rows row + i0 ..
      of A at column pc + k. */
  ghost predicate ARowPacked(a: seq<int>, mr: int, k: int, i0: int, w: nat, A: array2<int>, row: int, pc: int)
    requires 0 <= i0 && i0 + w <= mr && 0 <= k && k * mr + mr <= |a|
    requires 0 <= row && row + mr <= A.Length0 && 0 <= pc && pc + k < A.Length1
    reads A
  {
    a[k * mr + i0 .. k * mr + i0 + w] == ColumnSegment(A, row + i0, pc + k, w)
  }

  /** The layout equation of a packed A slice: a[k * mr + i] == A[row + i, pc + k]
      for k < K and i < mr. */
  ghost predicate ASlicePacked(a: seq<int>, mr: int, A: array2<int>, row: int, pc: int, K: int)
    requires 0 <= mr && 0 <= K && K * mr <= |a|
    requires 0 <= row && row + mr <= A.Length0 && 0 <= pc && pc + K <= A.Length1
    reads A
  {
    forall k :: 0 <= k < K ==> (RowFits(k, K, mr); ARowPacked(a, mr, k, 0, mr, A, row, pc))
  }

  /** Entries [j0, j0 + w) of row k of the packed B slice b hold row pc + k of B from
      column col + j0. */
  ghost predicate BRowPacked(b: seq<int>, nr: int, k: int, j0: int, w: nat, B: array2<int>, pc: int, col: int)
    requires 0 <= j0 && j0 + w <= nr && 0 <= k && k * nr + nr <= |b|
    requires 0 <= pc && pc + k < B.Length0 && 0 <= col && col + nr <= B.Length1
    reads B
  {
    b[k * nr + j0 .. k * nr + j0 + w] == RowSegment(B, pc + k, col + j0, w)
  }

  /** The layout equation of a packed B slice: b[k * nr + j] == B[pc + k, col + j]. */
  ghost predicate BSlicePacked(b: seq<int>, nr: int, B: array2<int>, pc: int, col: int, K: int)
    requires 0 <= nr && 0 <= K && K * nr <= |b|
    requires 0 <= pc && pc + K <= B.Length0 && 0 <= col && col + nr <= B.Length1
    reads B
  {
    forall k :: 0 <= k < K ==> (RowFits(k, K, nr); BRowPacked(b, nr, k, 0, nr, B, pc, col))
  }

  /** Sum over k < K of a[k*mr + i] * B[br + k, j]: packed A column i, strided B. */
  function DotPM(a: seq<int>, mr: int, i: int, B: array2<int>, br: int, j: int, K: int): int
    requires 0 <= i < mr && 0 <= K && K * mr <= |a|
    requires 0 <= br && br + K <= B.Length0 && 0 <= j < B.Length1
    reads B
  {
    if K == 0 then 0
    else (RowFits(K - 1, K, mr);
          DotPM(a, mr, i, B, br, j, K - 1) + a[(K - 1) * mr + i] * B[br + K - 1, j])
  }

  /** Sum over k < K of a[k*mr + i] * b[k*nr + j]: both operands packed. */
  function DotPP(a: seq<int>, mr: int, i: int, b: seq<int>, nr: int, j: int, K: int): int
    requires 0 <= i < mr && 0 <= K && K * mr <= |a|
    requires 0 <= j < nr && K * nr <= |b|
  {
    if K == 0 then 0
    else (RowFits(K - 1, K, mr); RowFits(K - 1, K, nr);
          DotPP(a, mr, i, b, nr, j, K - 1) + a[(K - 1) * mr + i] * b[(K - 1) * nr + j])
  }

  /** Sum over k < K of A[row, ac + k] * b[k*nr + j]: strided A row, packed B. */
  function DotMP(A: array2<int>, row: int, ac: int, b: seq<int>, nr: int, j: int, K: int): int
    requires 0 <= row < A.Length0 && 0 <= ac && 0 <= K && ac + K <= A.Length1
    requires 0 <= j < nr && K * nr <= |b|
    reads A
  {
    if K == 0 then 0
    else (RowFits(K - 1, K, nr);
          DotMP(A, row, ac, b, nr, j, K - 1) + A[row, ac + K - 1] * b[(K - 1) * nr + j])
  }

  /** Reading one entry of a packed A slice. */
  lemma AEntry(a: seq<int>, mr: int, A: array2<int>, row: int, pc: int, K: int, k: int, i: int)
    requires 0 <= mr && 0 <= K && K * mr <= |a|
    requires 0 <= row && row + mr <= A.Length0 && 0 <= pc && pc + K <= A.Length1
    requires ASlicePacked(a, mr, A, row, pc, K)
    requires 0 <= k < K && 0 <= i < mr
    ensures 0 <= k * mr && k * mr + i < |a| && a[k * mr + i] == A[row + i, pc + k]
  {
    RowFits(k, K, mr);
    assert ARowPacked(a, mr, k, 0, mr, A, row, pc);
    assert a[k * mr + i] == a[k * mr .. k * mr + mr][i];
  }

  /** Reading one entry of a packed B slice. */
  lemma BEntry(b: seq<int>, nr: int, B: array2<int>, pc: int, col: int, K: int, k: int, j: int)
    requires 0 <= nr && 0 <= K && K * nr <= |b|
    requires 0 <= pc && pc + K <= B.Length0 && 0 <= col && col + nr <= B.Length1
    requires BSlicePacked(b, nr, B, pc, col, K)
    requires 0 <= k < K && 0 <= j < nr
    ensures 0 <= k * nr && k * nr + j < |b| && b[k * nr + j] == B[pc + k, col + j]
  {
    RowFits(k, K, nr);
    assert BRowPacked(b, nr, k, 0, nr, B, pc, col);
    assert b[k * nr + j] == b[k * nr .. k * nr + nr][j];
  }

  /** The first K' rows of a packed A slice of K rows form a packed slice. */
  lemma AShorter(a: seq<int>, mr: int, A: array2<int>, row: int, pc: int, K: int, K': int)
    requires 0 <= mr && 0 <= K' <= K && K * mr <= |a|
    requires 0 <= row && row + mr <= A.Length0 && 0 <= pc && pc + K <= A.Length1
    requires ASlicePacked(a, mr, A, row, pc, K)
    ensures K' * mr <= K * mr && ASlicePacked(a, mr, A, row, pc, K')
  {
    if K' < K {
      RowFits(K', K, mr);
    }
    forall k | 0 <= k < K' ensures (RowFits(k, K', mr); ARowPacked(a, mr, k, 0, mr, A, row, pc)) {
      RowFits(k, K, mr);
    }
  }

  /** The first K' rows of a packed B slice of K rows form a packed slice. */
  lemma BShorter(b: seq<int>, nr: int, B: array2<int>, pc: int, col: int, K: int, K': int)
    requires 0 <= nr && 0 <= K' <= K && K * nr <= |b|
    requires 0 <= pc && pc + K <= B.Length0 && 0 <= col && col + nr <= B.Length1
    requires BSlicePacked(b, nr, B, pc, col, K)
    ensures K' * nr <= K * nr && BSlicePacked(b, nr, B, pc, col, K')
  {
    if K' < K {
      RowFits(K', K, nr);
    }
    forall k | 0 <= k < K' ensures (RowFits(k, K', nr); BRowPacked(b, nr, k, 0, nr, B, pc, col)) {
      RowFits(k, K, nr);
    }
  }

  /** A kernel reading a packed A slice computes the plain dot product. */
  lemma {:induction false} DotPMIsDotMM(a: seq<int>, mr: int, i: int, A: array2<int>, row: int,
                                        B: array2<int>, pc: int, j: int, K: int)
    requires 0 <= i < mr && 0 <= K && K * mr <= |a|
    requires 0 <= row && row + mr <= A.Length0 && 0 <= pc && pc + K <= A.Length1 && pc + K <= B.Length0 && 0 <= j < B.Length1
    requires ASlicePacked(a, mr, A, row, pc, K)
    ensures DotPM(a, mr, i, B, pc, j, K) == DotMM(A, B, row + i, j, pc, pc + K)
  {
    if K > 0 {
      AEntry(a, mr, A, row, pc, K, K - 1, i);
      AShorter(a, mr, A, row, pc, K, K - 1);
      DotPMIsDotMM(a, mr, i, A, row, B, pc, j, K - 1);
    }
  }

  /** Reading a packed B slice instead of B itself does not change the sum. */
  lemma {:induction false} DotPPIsDotPM(a: seq<int>, mr: int, i: int, b: seq<int>, nr: int, j: int,
                                        B: array2<int>, pc: int, col: int, K: int)
    requires 0 <= i < mr && 0 <= K && K * mr <= |a|
    requires 0 <= j < nr && K * nr <= |b|
    requires 0 <= pc && pc + K <= B.Length0 && 0 <= col && col + nr <= B.Length1
    requires BSlicePacked(b, nr, B, pc, col, K)
    ensures DotPP(a, mr, i, b, nr, j, K) == DotPM(a, mr, i, B, pc, col + j, K)
  {
    if K > 0 {
      BEntry(b, nr, B, pc, col, K, K - 1, j);
      BShorter(b, nr, B, pc, col, K, K - 1);
      DotPPIsDotPM(a, mr, i, b, nr, j, B, pc, col, K - 1);
    }
  }

  /** The scalar tail of `gemm_kernel`: strided A row times packed B column. */
  lemma {:induction false} DotMPIsDotMM(A: array2<int>, row: int, b: seq<int>, nr: int, j: int,
                                        B: array2<int>, pc: int, col: int, K: int)
    requires 0 <= row < A.Length0 && 0 <= pc && 0 <= K && pc + K <= A.Length1
    requires 0 <= j < nr && K * nr <= |b|
    requires pc + K <= B.Length0 && 0 <= col && col + nr <= B.Length1
    requires BSlicePacked(b, nr, B, pc, col, K)
    ensures DotMP(A, row, pc, b, nr, j, K) == DotMM(A, B, row, col + j, pc, pc + K)
  {
    if K > 0 {
      BEntry(b, nr, B, pc, col, K, K - 1, j);
      BShorter(b, nr, B, pc, col, K, K - 1);
      DotMPIsDotMM(A, row, b, nr, j, B, pc, col, K - 1);
    }
  }

  /** DotPP over K rows reads only the first K rows of the packed B slice. */
  lemma {:induction false} DotPPPrefix(a: seq<int>, mr: int, i: int, b: seq<int>, b': seq<int>, nr: int, j: int, K: int)
    requires 0 <= i < mr && 0 <= K && K * mr <= |a|
    requires 0 <= j < nr && K * nr <= |b| && K * nr <= |b'|
    requires forall x :: 0 <= x < K * nr ==> b[x] == b'[x]
    ensures DotPP(a, mr, i, b, nr, j, K) == DotPP(a, mr, i, b', nr, j, K)
  {
    if K > 0 {
      RowFits(K - 1, K, nr);
      DotPPPrefix(a, mr, i, b, b', nr, j, K - 1);
    }
  }


  /** A packed A slice depends only on its first K rows. */
  lemma AKept(a: seq<int>, a': seq<int>, mr: int, A: array2<int>, row: int, pc: int, K: int)
    requires 0 <= mr && 0 <= K && K * mr <= |a| && K * mr <= |a'|
    requires 0 <= row && row + mr <= A.Length0 && 0 <= pc && pc + K <= A.Length1
    requires ASlicePacked(a, mr, A, row, pc, K)
    requires a'[..K * mr] == a[..K * mr]
    ensures ASlicePacked(a', mr, A, row, pc, K)
  {
    forall k | 0 <= k < K ensures (RowFits(k, K, mr); ARowPacked(a', mr, k, 0, mr, A, row, pc)) {
      RowFits(k, K, mr);
      assert ARowPacked(a, mr, k, 0, mr, A, row, pc);
      assert a'[k * mr .. k * mr + mr] == a'[..K * mr][k * mr .. k * mr + mr];
      assert a[k * mr .. k * mr + mr] == a[..K * mr][k * mr .. k * mr + mr];
    }
  }

  /** A packed B slice depends only on its first K rows. */
  lemma BKept(b: seq<int>, b': seq<int>, nr: int, B: array2<int>, pc: int, col: int, K: int)
    requires 0 <= nr && 0 <= K && K * nr <= |b| && K * nr <= |b'|
    requires 0 <= pc && pc + K <= B.Length0 && 0 <= col && col + nr <= B.Length1
    requires BSlicePacked(b, nr, B, pc, col, K)
    requires b'[..K * nr] == b[..K * nr]
    ensures BSlicePacked(b', nr, B, pc, col, K)
  {
    forall k | 0 <= k < K ensures (RowFits(k, K, nr); BRowPacked(b', nr, k, 0, nr, B, pc, col)) {
      RowFits(k, K, nr);
      assert BRowPacked(b, nr, k, 0, nr, B, pc, col);
      assert b'[k * nr .. k * nr + nr] == b'[..K * nr][k * nr .. k * nr + nr];
      assert b[k * nr .. k * nr + nr] == b[..K * nr][k * nr .. k * nr + nr];
    }
  }

  /** Adding row k to a packed A slice of k rows whose entries are left in place. */
  lemma AGrow(a: seq<int>, a': seq<int>, mr: int, A: array2<int>, row: int, pc: int, k: int)
    requires 0 <= mr && 0 <= k && k * mr + mr <= |a| && k * mr + mr <= |a'|
    requires 0 <= row && row + mr <= A.Length0 && 0 <= pc && pc + k < A.Length1
    requires ASlicePacked(a, mr, A, row, pc, k)
    requires a'[..k * mr] == a[..k * mr]
    requires ARowPacked(a', mr, k, 0, mr, A, row, pc)
    ensures ASlicePacked(a', mr, A, row, pc, k + 1)
  {
    AKept(a, a', mr, A, row, pc, k);
    forall k' | 0 <= k' < k + 1 ensures (RowFits(k', k + 1, mr); ARowPacked(a', mr, k', 0, mr, A, row, pc)) {
      RowFits(k', k + 1, mr);
      if k' < k {
        RowFits(k', k, mr);
      }
    }
  }

  /** Adding row k to a packed B slice of k rows whose entries are left in place. */
  lemma BGrow(b: seq<int>, b': seq<int>, nr: int, B: array2<int>, pc: int, col: int, k: int)
    requires 0 <= nr && 0 <= k && k * nr + nr <= |b| && k * nr + nr <= |b'|
    requires 0 <= pc && pc + k < B.Length0 && 0 <= col && col + nr <= B.Length1
    requires BSlicePacked(b, nr, B, pc, col, k)
    requires b'[..k * nr] == b[..k * nr]
    requires BRowPacked(b', nr, k, 0, nr, B, pc, col)
    ensures BSlicePacked(b', nr, B, pc, col, k + 1)
  {
    BKept(b, b', nr, B, pc, col, k);
    forall k' | 0 <= k' < k + 1 ensures (RowFits(k', k + 1, nr); BRowPacked(b', nr, k', 0, nr, B, pc, col)) {
      RowFits(k', k + 1, nr);
      if k' < k {
        RowFits(k', k, nr);
      }
    }
  }

  /** Two adjacent packed pieces of row k make one. */
  lemma BRowConcat(b: seq<int>, nr: int, k: int, j0: int, w1: nat, w2: nat, B: array2<int>, pc: int, col: int)
    requires 0 <= j0 && j0 + w1 + w2 <= nr && 0 <= k && k * nr + nr <= |b|
    requires 0 <= pc && pc + k < B.Length0 && 0 <= col && col + nr <= B.Length1
    requires BRowPacked(b, nr, k, j0, w1, B, pc, col) && BRowPacked(b, nr, k, j0 + w1, w2, B, pc, col)
    ensures BRowPacked(b, nr, k, j0, w1 + w2, B, pc, col)
  {
    var o := k * nr + j0;
    assert b[o .. o + w1 + w2] == b[o .. o + w1] + b[o + w1 .. o + w1 + w2];
  }

  /** Four more complete rows extend a packed A slice (one k step of a 4 x 4 transposing packer). */
  lemma AGrow4(a: seq<int>, mr: int, A: array2<int>, row: int, pc: int, k: int)
    requires 0 <= mr && 0 <= k && (k + 4) * mr <= |a|
    requires 0 <= row && row + mr <= A.Length0 && 0 <= pc && pc + k + 4 <= A.Length1
    requires ASlicePacked(a, mr, A, row, pc, k)
    requires k * mr + mr <= |a| && ARowPacked(a, mr, k, 0, mr, A, row, pc)
    requires (k + 1) * mr + mr <= |a| && ARowPacked(a, mr, k + 1, 0, mr, A, row, pc)
    requires (k + 2) * mr + mr <= |a| && ARowPacked(a, mr, k + 2, 0, mr, A, row, pc)
    requires (k + 3) * mr + mr <= |a| && ARowPacked(a, mr, k + 3, 0, mr, A, row, pc)
    ensures ASlicePacked(a, mr, A, row, pc, k + 4)
  {
    forall k' | 0 <= k' < k + 4 ensures (RowFits(k', k + 4, mr); ARowPacked(a, mr, k', 0, mr, A, row, pc)) {
      RowFits(k', k + 4, mr);
      if k' < k {
        RowFits(k', k, mr);
      }
    }
  }

  /** Slice t of a packed A panel: the S entries from t * S hold the packed slice of K rows
      (K * mr <= S) for rows row0 + t * mr .. row0 + t * mr + mr - 1 of A. */
  ghost predicate ASliceAt(a: seq<int>, mr: int, K: int, S: int, A: array2<int>, row0: int, pc: int, t: int)
    reads A
  {
    0 <= t && 0 <= mr && 0 <= K && K * mr <= S && 0 <= t * S && t * S + S <= |a| &&
    0 <= row0 + t * mr && row0 + t * mr + mr <= A.Length0 && 0 <= pc && pc + K <= A.Length1 &&
    ASlicePacked(a[t * S .. t * S + S], mr, A, row0 + t * mr, pc, K)
  }

  /** Slice t of a packed B panel: the S entries from t * S hold the packed slice of K rows
      (K * nr <= S) for columns col0 + t * nr .. col0 + t * nr + nr - 1 of B. */
  ghost predicate BSliceAt(b: seq<int>, nr: int, K: int, S: int, B: array2<int>, pc: int, col0: int, t: int)
    reads B
  {
    0 <= t && 0 <= nr && 0 <= K && K * nr <= S && 0 <= t * S && t * S + S <= |b| &&
    0 <= pc && pc + K <= B.Length0 && 0 <= col0 + t * nr && col0 + t * nr + nr <= B.Length1 &&
    BSlicePacked(b[t * S .. t * S + S], nr, B, pc, col0 + t * nr, K)
  }

  /** Slices 0 .. T - 1 of a packed A panel, each of K rows. */
  ghost predicate APanelPacked(a: seq<int>, mr: int, K: int, S: int, A: array2<int>, row0: int, pc: int, T: int)
    reads A
  {
    forall t :: 0 <= t < T ==> ASliceAt(a, mr, K, S, A, row0, pc, t)
  }

  /** Slices 0 .. T - 1 of a packed B panel, each of K rows. */
  ghost predicate BPanelPacked(b: seq<int>, nr: int, K: int, S: int, B: array2<int>, pc: int, col0: int, T: int)
    reads B
  {
    forall t :: 0 <= t < T ==> BSliceAt(b, nr, K, S, B, pc, col0, t)
  }

  /** A panel slice seen from its first entry, as the kernels read it. */
  lemma ASliceFrom(a: seq<int>, mr: int, K: int, S: int, A: array2<int>, row0: int, pc: int, t: int)
    requires ASliceAt(a, mr, K, S, A, row0, pc, t)
    ensures ASlicePacked(a[t * S..], mr, A, row0 + t * mr, pc, K)
  {
    AKept(a[t * S .. t * S + S], a[t * S..], mr, A, row0 + t * mr, pc, K);
  }

  /** A panel slice seen from its first entry, as the kernels read it. */
  lemma BSliceFrom(b: seq<int>, nr: int, K: int, S: int, B: array2<int>, pc: int, col0: int, t: int)
    requires BSliceAt(b, nr, K, S, B, pc, col0, t)
    ensures BSlicePacked(b[t * S..], nr, B, pc, col0 + t * nr, K)
  {
    BKept(b[t * S .. t * S + S], b[t * S..], nr, B, pc, col0 + t * nr, K);
  }
}
