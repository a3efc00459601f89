/** Micro-kernels and packing routines of the AVX2/FMA GEMM engine
    (gemm_exercise_intel/gemm_progressive.c).

    A kernel's pointer arguments always address the tile of C at (row, col), the rows of
    A from column pc on and the rows of B from row pc on, with leading dimension n; the
    model passes those coordinates instead of the three pointers and strides. */
module IntelKernels {
  import opened GemmSpec
  import opened Lanes
  import opened Panels

  const MR8 := 8
  const NR8 := 8
  const MR4 := 4
  const MR6 := 6
  const NR16 := 16

  /** One k step of `microkernel_scalar`'s i / j loops: c[i][j] += A[i][k] * B[k][j]. */
  method ScalarRank1(c0: seq<seq<int>>, A: array2<int>, B: array2<int>, row: int, col: int, kk: int)
    returns (c: seq<seq<int>>)
    requires IsTile(c0, MR8, NR8)
    requires 0 <= row && row + MR8 <= A.Length0 && 0 <= col && col + NR8 <= B.Length1
    requires 0 <= kk < A.Length1 && kk < B.Length0
    ensures IsTile(c, MR8, NR8)
    ensures forall i, j :: 0 <= i < MR8 && 0 <= j < NR8 ==>
      c[i][j] == c0[i][j] + A[row + i, kk] * B[kk, col + j]
  {
    c := c0;
    var i := 0;
    while i < MR8
      invariant 0 <= i <= MR8 && IsTile(c, MR8, NR8)
      invariant forall i', j :: 0 <= i' < MR8 && 0 <= j < NR8 ==>
        c[i'][j] == c0[i'][j] + (if i' < i then A[row + i', kk] * B[kk, col + j] else 0)
    {
      var aik := A[row + i, kk];
      var j := 0;
      while j < NR8
        invariant 0 <= j <= NR8 && IsTile(c, MR8, NR8)
        invariant forall i', j' :: 0 <= i' < MR8 && 0 <= j' < NR8 ==>
          c[i'][j'] == c0[i'][j'] + (if i' < i || (i' == i && j' < j) then A[row + i', kk] * B[kk, col + j'] else 0)
      {
        c := c[i := c[i][j := c[i][j] + aik * B[kk, col + j]]];
        j := j + 1;
      }
      i := i + 1;
    }
  }

  /** `microkernel_scalar` lines that fill the local tile: zero or C, then the k loop. */
  method ScalarTile(A: array2<int>, B: array2<int>, C: array2<int>,
                    row: int, col: int, pc: int, K: int, firstK: bool) returns (c: seq<seq<int>>)
    requires 0 <= row && row + MR8 <= A.Length0 && row + MR8 <= C.Length0
    requires 0 <= col && col + NR8 <= B.Length1 && col + NR8 <= C.Length1
    requires 0 <= pc && 0 <= K && pc + K <= A.Length1 && pc + K <= B.Length0
    ensures IsTile(c, MR8, NR8)
    ensures forall i, j :: 0 <= i < MR8 && 0 <= j < NR8 ==>
      c[i][j] == Seed(C[row + i, col + j], firstK) + DotMM(A, B, row + i, col + j, pc, pc + K)
  {
    if firstK {
      c := seq(MR8, i => seq(NR8, j => 0));
    } else {
      c := LoadTile(C, row, col, MR8, NR8);
    }
    var k := 0;
    while k < K
      invariant 0 <= k <= K && IsTile(c, MR8, NR8)
      invariant forall i, j :: 0 <= i < MR8 && 0 <= j < NR8 ==>
        c[i][j] == Seed(C[row + i, col + j], firstK) + DotMM(A, B, row + i, col + j, pc, pc + k)
    {
      c := ScalarRank1(c, A, B, row, col, pc + k);
      k := k + 1;
    }
  }

  /** `microkernel_scalar`: an 8 x 8 tile accumulated in a local array, one k at a time. */
  method MicrokernelScalar(A: array2<int>, B: array2<int>, C: array2<int>,
                           row: int, col: int, pc: int, K: int, firstK: bool)
    requires C != A && C != B
    requires 0 <= row && row + MR8 <= A.Length0 && row + MR8 <= C.Length0
    requires 0 <= col && col + NR8 <= B.Length1 && col + NR8 <= C.Length1
    requires 0 <= pc && 0 <= K && pc + K <= A.Length1 && pc + K <= B.Length0
    modifies C
    ensures forall i, j :: 0 <= i < C.Length0 && 0 <= j < C.Length1 ==>
      C[i, j] == if row <= i < row + MR8 && col <= j < col + NR8
                 then Acc(old(C[i, j]), firstK, A, B, i, j, pc, pc + K)
                 else old(C[i, j])
  {
    var c := ScalarTile(A, B, C, row, col, pc, K, firstK);
    StoreTile(c, MR8, NR8, C, row, col);
    forall i, j | row <= i < row + MR8 && col <= j < col + NR8
      ensures C[i, j] == Acc(old(C[i, j]), firstK, A, B, i, j, pc, pc + K)
    {
      var r, l := i - row, j - col;
      assert C[i, j] == c[r][l];
    }
  }

  // ---------------------------------------------------------------------------
  // AVX2 kernels.  Register c_r (or the pair c_r0, c_r1 of a 16-wide kernel, lanes
  // 0-7 and 8-15) is row r of the tile; a packed A slice is read as a[k * MR + r].
  // ---------------------------------------------------------------------------

  /** The k loop of `microkernel_8x8`: broadcast a[k*MR8 + r], fmadd with row pc + k of B. */
  method PackedATimesB(a: seq<int>, mr: int, B: array2<int>, pc: int, col: int, nr: nat, K: int, c0: seq<Vec>)
    returns (c: seq<Vec>)
    requires 0 < mr && 0 <= K && K * mr <= |a|
    requires 0 <= pc && pc + K <= B.Length0 && 0 <= col && col + nr <= B.Length1
    requires IsTile(c0, mr, nr)
    ensures IsTile(c, mr, nr)
    ensures forall i, j :: 0 <= i < mr && col <= j < col + nr ==> c[i][j - col] == c0[i][j - col] + DotPM(a, mr, i, B, pc, j, K)
  {
    c := c0;
    var k := 0;
    while k < K
      invariant 0 <= k <= K && IsTile(c, mr, nr)
      invariant forall i, j :: 0 <= i < mr && col <= j < col + nr ==> c[i][j - col] == c0[i][j - col] + DotPM(a, mr, i, B, pc, j, k)
    {
      RowFits(k, K, mr);
      var b := RowSegment(B, pc + k, col, nr);
      c := RankOne(c, a[k * mr .. k * mr + mr], b);
      k := k + 1;
    }
  }

  /** The k loop of `microkernel_6x16` / `microkernel_4x16`: both operands packed. */
  method PackedATimesPackedB(a: seq<int>, mr: int, b: seq<int>, nr: int, K: int, c0: seq<Vec>)
    returns (c: seq<Vec>)
    requires 0 < mr && 0 < nr && 0 <= K && K * mr <= |a| && K * nr <= |b|
    requires IsTile(c0, mr, nr)
    ensures IsTile(c, mr, nr)
    ensures forall i, l :: 0 <= i < mr && 0 <= l < nr ==> c[i][l] == c0[i][l] + DotPP(a, mr, i, b, nr, l, K)
  {
    c := c0;
    var k := 0;
    while k < K
      invariant 0 <= k <= K && IsTile(c, mr, nr) && k * mr <= |a| && k * nr <= |b|
      invariant forall i, l :: 0 <= i < mr && 0 <= l < nr ==> c[i][l] == c0[i][l] + DotPP(a, mr, i, b, nr, l, k)
    {
      MulMono(mr, k + 1, K);
      MulMono(nr, k + 1, K);
      RankOneStep(c, a, mr, b, b, nr, k);
      c := RankOne(c, a[k * mr .. k * mr + mr], b[k * nr .. k * nr + nr]);
      k := k + 1;
    }
  }

  /** `microkernel_8x8`: packed A slice at ao, B read in place. */
  method Microkernel8x8(Ap: array<int>, ao: int, B: array2<int>, C: array2<int>,
                        row: int, col: int, pc: int, KC: int, firstK: bool)
    requires C != B
    requires 0 <= ao <= Ap.Length && 0 <= KC && KC * MR8 <= Ap.Length - ao
    requires 0 <= pc && pc + KC <= B.Length0 && 0 <= col && col + NR8 <= B.Length1
    requires 0 <= row && row + MR8 <= C.Length0 && col + NR8 <= C.Length1
    modifies C
    ensures forall i, j :: 0 <= i < C.Length0 && 0 <= j < C.Length1 ==>
      C[i, j] == if row <= i < row + MR8 && col <= j < col + NR8
                 then Seed(old(C[i, j]), firstK) + DotPM(Ap[ao..], MR8, i - row, B, pc, j, KC)
                 else old(C[i, j])
  {
    var c0 := Accumulators(C, row, col, MR8, NR8, firstK);
    var c := PackedATimesB(Ap[ao..], MR8, B, pc, col, NR8, KC, c0);
    StoreTile(c, MR8, NR8, C, row, col);
  }

  /** One k step of `microkernel_8x8_pack`: with packB, row pc + k of B is loaded and
      stored as row k of the packed slice at bo; without it, row k is loaded back from the
      slice.  Either way the FMAs see row k of the slice. */
  method PackingStep(a: seq<int>, B: array2<int>, pc: int, col: int, Bp: array<int>, bo: int,
                     K: int, k: int, packB: bool, c: seq<Vec>) returns (c': seq<Vec>)
    requires 0 <= k < K && K * MR8 <= |a|
    requires 0 <= pc && pc + K <= B.Length0 && 0 <= col && col + NR8 <= B.Length1
    requires 0 <= bo && K * NR8 <= Bp.Length - bo
    requires IsTile(c, MR8, NR8)
    requires packB ==> BSlicePacked(Bp[bo..], NR8, B, pc, col, k)
    modifies Bp
    ensures IsTile(c', MR8, NR8)
    ensures !packB ==> unchanged(Bp)
    ensures forall t :: 0 <= t < Bp.Length && !(bo <= t < bo + K * NR8) ==> Bp[t] == old(Bp[t])
    ensures packB ==> BSlicePacked(Bp[bo..], NR8, B, pc, col, k + 1)
    ensures forall i, l :: 0 <= i < MR8 && 0 <= l < NR8 ==>
      c'[i][l] - DotPP(a, MR8, i, Bp[bo..], NR8, l, k + 1) == c[i][l] - DotPP(a, MR8, i, old(Bp[bo..]), NR8, l, k)
  {
    RowFits(k, K, MR8);
    RowFits(k, K, NR8);
    ghost var prev := Bp[bo..];
    var b;
    if packB {
      b := RowSegment(B, pc + k, col, NR8);
      StoreVec(b, Bp, bo + k * NR8);
      forall x | 0 <= x < NR8 ensures Bp[bo..][k * NR8 .. k * NR8 + NR8][x] == b[x] {
        assert Bp[bo..][k * NR8 .. k * NR8 + NR8][x] == Bp[bo + k * NR8 + x];
      }
      assert Bp[bo..][k * NR8 .. k * NR8 + NR8] == b;
      assert BRowPacked(Bp[bo..], NR8, k, 0, NR8, B, pc, col);
      BGrow(prev, Bp[bo..], NR8, B, pc, col, k);
    } else {
      b := Bp[bo + k * NR8 .. bo + k * NR8 + NR8];
      forall x | 0 <= x < NR8 ensures Bp[bo..][k * NR8 .. k * NR8 + NR8][x] == b[x] {
        assert b[x] == Bp[bo + k * NR8 + x];
      }
      assert b == Bp[bo..][k * NR8 .. k * NR8 + NR8];
    }
    forall x | 0 <= x < k * NR8 ensures Bp[bo..][x] == prev[x] {
      assert Bp[bo..][x] == Bp[bo + x];
    }
    c' := RankOne(c, a[k * MR8 .. k * MR8 + MR8], b);
    RankOneStep(c, a, MR8, Bp[bo..], prev, NR8, k);
  }

  /** The k loop of `microkernel_8x8_pack`. */
  method PackingATimesB(a: seq<int>, B: array2<int>, pc: int, col: int, Bp: array<int>, bo: int,
                        K: int, packB: bool, c0: seq<Vec>) returns (c: seq<Vec>)
    requires 0 <= K && K * MR8 <= |a|
    requires 0 <= pc && pc + K <= B.Length0 && 0 <= col && col + NR8 <= B.Length1
    requires 0 <= bo && K * NR8 <= Bp.Length - bo
    requires IsTile(c0, MR8, NR8)
    modifies Bp
    ensures IsTile(c, MR8, NR8)
    ensures packB ==> BSlicePacked(Bp[bo..], NR8, B, pc, col, K)
    ensures !packB ==> unchanged(Bp)
    ensures forall t :: 0 <= t < Bp.Length && !(bo <= t < bo + K * NR8) ==> Bp[t] == old(Bp[t])
    ensures forall i, l :: 0 <= i < MR8 && 0 <= l < NR8 ==> c[i][l] == c0[i][l] + DotPP(a, MR8, i, Bp[bo..], NR8, l, K)
  {
    c := c0;
    var k := 0;
    while k < K
      invariant 0 <= k <= K && IsTile(c, MR8, NR8)
      invariant !packB ==> unchanged(Bp)
      invariant forall t :: 0 <= t < Bp.Length && !(bo <= t < bo + K * NR8) ==> Bp[t] == old(Bp[t])
      invariant packB ==> BSlicePacked(Bp[bo..], NR8, B, pc, col, k)
      invariant forall i, l :: 0 <= i < MR8 && 0 <= l < NR8 ==> c[i][l] == c0[i][l] + DotPP(a, MR8, i, Bp[bo..], NR8, l, k)
    {
      c := PackingStep(a, B, pc, col, Bp, bo, K, k, packB, c);
      k := k + 1;
    }
  }

  /** `microkernel_8x8_pack`: packed A slice at ao; with packB (the first ir of a panel) it
      packs the B tile into the slice at bo while using it, otherwise it reads that slice.
      The tile receives the packed-times-packed sum over the slice as it stands afterwards. */
  method Microkernel8x8Pack(Ap: array<int>, ao: int, B: array2<int>, Bp: array<int>, bo: int,
                            C: array2<int>, row: int, col: int, pc: int, KC: int, firstK: bool, packB: bool)
    requires Ap != Bp && C != B
    requires 0 <= ao <= Ap.Length && 0 <= KC && KC * MR8 <= Ap.Length - ao
    requires 0 <= bo && KC * NR8 <= Bp.Length - bo
    requires 0 <= pc && pc + KC <= B.Length0 && 0 <= col && col + NR8 <= B.Length1
    requires 0 <= row && row + MR8 <= C.Length0 && col + NR8 <= C.Length1
    modifies Bp, C
    ensures packB ==> BSlicePacked(Bp[bo..], NR8, B, pc, col, KC)
    ensures !packB ==> unchanged(Bp)
    ensures forall t :: 0 <= t < Bp.Length && !(bo <= t < bo + KC * NR8) ==> Bp[t] == old(Bp[t])
    ensures forall i, j :: 0 <= i < C.Length0 && 0 <= j < C.Length1 ==>
      C[i, j] == if row <= i < row + MR8 && col <= j < col + NR8
                 then Seed(old(C[i, j]), firstK) + DotPP(Ap[ao..], MR8, i - row, Bp[bo..], NR8, j - col, KC)
                 else old(C[i, j])
  {
    var c0 := Accumulators(C, row, col, MR8, NR8, firstK);
    var c := PackingATimesB(Ap[ao..], B, pc, col, Bp, bo, KC, packB, c0);
    StoreTile(c, MR8, NR8, C, row, col);
  }

  /** `microkernel_6x16`: packed A slice (6 per k) at ao, packed B slice (16 per k) at bo. */
  method Microkernel6x16(Ap: array<int>, ao: int, Bp: array<int>, bo: int,
                         C: array2<int>, row: int, col: int, KC: int, firstK: bool)
    requires 0 <= ao <= Ap.Length && 0 <= KC && KC * MR6 <= Ap.Length - ao
    requires 0 <= bo <= Bp.Length && KC * NR16 <= Bp.Length - bo
    requires 0 <= row && row + MR6 <= C.Length0 && 0 <= col && col + NR16 <= C.Length1
    modifies C
    ensures forall i, j :: 0 <= i < C.Length0 && 0 <= j < C.Length1 ==>
      C[i, j] == if row <= i < row + MR6 && col <= j < col + NR16
                 then Seed(old(C[i, j]), firstK) + DotPP(Ap[ao..], MR6, i - row, Bp[bo..], NR16, j - col, KC)
                 else old(C[i, j])
  {
    var c0 := Accumulators(C, row, col, MR6, NR16, firstK);
    var c := PackedATimesPackedB(Ap[ao..], MR6, Bp[bo..], NR16, KC, c0);
    StoreTile(c, MR6, NR16, C, row, col);
  }

  /** `microkernel_4x16`: as `microkernel_6x16` with four rows. */
  method Microkernel4x16(Ap: array<int>, ao: int, Bp: array<int>, bo: int,
                         C: array2<int>, row: int, col: int, KC: int, firstK: bool)
    requires 0 <= ao <= Ap.Length && 0 <= KC && KC * MR4 <= Ap.Length - ao
    requires 0 <= bo <= Bp.Length && KC * NR16 <= Bp.Length - bo
    requires 0 <= row && row + MR4 <= C.Length0 && 0 <= col && col + NR16 <= C.Length1
    modifies C
    ensures forall i, j :: 0 <= i < C.Length0 && 0 <= j < C.Length1 ==>
      C[i, j] == if row <= i < row + MR4 && col <= j < col + NR16
                 then Seed(old(C[i, j]), firstK) + DotPP(Ap[ao..], MR4, i - row, Bp[bo..], NR16, j - col, KC)
                 else old(C[i, j])
  {
    var c0 := Accumulators(C, row, col, MR4, NR16, firstK);
    var c := PackedATimesPackedB(Ap[ao..], MR4, Bp[bo..], NR16, KC, c0);
    StoreTile(c, MR4, NR16, C, row, col);
  }
}
