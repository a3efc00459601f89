/** The block schedulers of the AVX2/FMA GEMM engine (gemm_exercise_intel/gemm_progressive.c):
    the seven stages, each proved to leave C equal to the exact product.

    Each stage's loop nest is kept; the body of an inner loop level is a method of its own
    whose contract says which block of C it advances by one K-block. */
module IntelGemm {
  import opened GemmSpec
  import opened Lanes
  import opened IntelKernels
  import opened IntelPacking
  import opened Panels

  const N := 1024
  const MC_DEFAULT := 512
  const KC_DEFAULT := 64
  const NC_DEFAULT := 512
  const MC_TUNED := 1024
  const KC_TUNED := 64
  const NC_TUNED := 1024

  // ---------------------------------------------------------------------------
  // Stage 1: gemm_naive
  // ---------------------------------------------------------------------------

  /** The k loop of `gemm_naive`: sum starts at 0 and adds A[i][k] * B[k][j] in ascending k. */
  method NaiveDot(A: array2<int>, B: array2<int>, i: int, j: int, n: int) returns (sum: int)
    requires Square(A, n) && Square(B, n) && 0 <= i < n && 0 <= j < n
    ensures sum == DotMM(A, B, i, j, 0, n)
  {
    sum := 0;
    var k := 0;
    while k < n
      invariant 0 <= k <= n && sum == DotMM(A, B, i, j, 0, k)
    {
      sum := sum + A[i, k] * B[k, j];
      k := k + 1;
    }
  }

  /** `gemm_naive`: every cell of C is overwritten with its dot product. */
  method GemmNaive(A: array2<int>, B: array2<int>, C: array2<int>, n: int)
    requires Square(A, n) && Square(B, n) && Square(C, n) && C != A && C != B
    modifies C
    ensures IsProduct(C, A, B, n)
  {
    var i := 0;
    while i < n
      invariant 0 <= i <= n
      invariant forall i', j :: 0 <= i' < i && 0 <= j < n ==> C[i', j] == DotMM(A, B, i', j, 0, n)
    {
      var j := 0;
      while j < n
        invariant 0 <= j <= n
        invariant forall i', j' :: 0 <= i' < n && 0 <= j' < n && (i' < i || (i' == i && j' < j)) ==>
          C[i', j'] == DotMM(A, B, i', j', 0, n)
      {
        var sum := NaiveDot(A, B, i, j, n);
        C[i, j] := sum;
        j := j + 1;
      }
      i := i + 1;
    }
  }

  // ---------------------------------------------------------------------------
  // Stage 2: gemm_blocked (scalar 8 x 8 kernel, guarded jr / ir loops)
  // ---------------------------------------------------------------------------

  /** The ir loop of `gemm_blocked`: 8 x 8 tiles down column block col .. col + 7, rows
      ic .. min(ic + MC, n) - 1. */
  method BlockedColumn(A: array2<int>, B: array2<int>, C: array2<int>, n: int,
                       ic: int, col: int, pc: int, firstK: bool)
    requires Square(A, n) && Square(B, n) && Square(C, n) && C != A && C != B && n % 8 == 0
    requires 0 <= ic < n && ic % 8 == 0 && 0 <= col && col + NR8 <= n && 0 <= pc && pc + KC_DEFAULT <= n
    modifies C
    ensures forall i, j :: 0 <= i < n && 0 <= j < n ==>
      C[i, j] == if ic <= i < Min(ic + MC_DEFAULT, n) && col <= j < col + NR8
                 then Acc(old(C[i, j]), firstK, A, B, i, j, pc, pc + KC_DEFAULT)
                 else old(C[i, j])
  {
    ghost var m, a := n / 8, ic / 8;
    assert n == 8 * m && ic == 8 * a;
    var ir := 0;
    ghost var s := 0;
    while ir < MC_DEFAULT && ic + ir < n
      invariant 0 <= s && ir == 8 * s && ic + ir <= Min(ic + MC_DEFAULT, n)
      invariant forall i, j :: 0 <= i < n && 0 <= j < n ==>
        C[i, j] == if ic <= i < ic + ir && col <= j < col + NR8
                   then Acc(old(C[i, j]), firstK, A, B, i, j, pc, pc + KC_DEFAULT)
                   else old(C[i, j])
    {
      BlockStep(a + s, m, 8);
      MicrokernelScalar(A, B, C, ic + ir, col, pc, KC_DEFAULT, firstK);
      ir := ir + MR8;
      s := s + 1;
    }
  }

  /** The jr loop of `gemm_blocked`: the block rows ic .. min(ic + MC, n) - 1, columns
      jc .. min(jc + NC, n) - 1. */
  method BlockedBlock(A: array2<int>, B: array2<int>, C: array2<int>, n: int,
                      ic: int, jc: int, pc: int, firstK: bool)
    requires Square(A, n) && Square(B, n) && Square(C, n) && C != A && C != B && n % 8 == 0
    requires 0 <= ic < n && ic % 8 == 0 && 0 <= jc < n && jc % 8 == 0 && 0 <= pc && pc + KC_DEFAULT <= n
    modifies C
    ensures forall i, j :: 0 <= i < n && 0 <= j < n ==>
      C[i, j] == if ic <= i < Min(ic + MC_DEFAULT, n) && jc <= j < Min(jc + NC_DEFAULT, n)
                 then Acc(old(C[i, j]), firstK, A, B, i, j, pc, pc + KC_DEFAULT)
                 else old(C[i, j])
  {
    ghost var m, a := n / 8, jc / 8;
    assert n == 8 * m && jc == 8 * a;
    var jr := 0;
    ghost var s := 0;
    while jr < NC_DEFAULT && jc + jr < n
      invariant 0 <= s && jr == 8 * s && jc + jr <= Min(jc + NC_DEFAULT, n)
      invariant forall i, j :: 0 <= i < n && 0 <= j < n ==>
        C[i, j] == if ic <= i < Min(ic + MC_DEFAULT, n) && jc <= j < jc + jr
                   then Acc(old(C[i, j]), firstK, A, B, i, j, pc, pc + KC_DEFAULT)
                   else old(C[i, j])
    {
      BlockStep(a + s, m, 8);
      BlockedColumn(A, B, C, n, ic, jc + jr, pc, firstK);
      jr := jr + NR8;
      s := s + 1;
    }
  }

  /** The ic loop of `gemm_blocked`: one K-block applied to the column block
      jc .. min(jc + NC, n) - 1, all rows. */
  method BlockedColumnBlock(A: array2<int>, B: array2<int>, C: array2<int>, n: int,
                            jc: int, pc: int, firstK: bool)
    requires Square(A, n) && Square(B, n) && Square(C, n) && C != A && C != B && n % 8 == 0
    requires 0 <= jc < n && jc % 8 == 0 && 0 <= pc && pc + KC_DEFAULT <= n
    modifies C
    ensures forall i, j :: 0 <= i < n && 0 <= j < n ==>
      C[i, j] == if jc <= j < Min(jc + NC_DEFAULT, n)
                 then Acc(old(C[i, j]), firstK, A, B, i, j, pc, pc + KC_DEFAULT)
                 else old(C[i, j])
  {
    var ic := 0;
    while ic < n
      invariant 0 <= ic && ic % 8 == 0
      invariant forall i, j :: 0 <= i < n && 0 <= j < n ==>
        C[i, j] == if i < ic && jc <= j < Min(jc + NC_DEFAULT, n)
                   then Acc(old(C[i, j]), firstK, A, B, i, j, pc, pc + KC_DEFAULT)
                   else old(C[i, j])
    {
      BlockedBlock(A, B, C, n, ic, jc, pc, firstK);
      ic := ic + MC_DEFAULT;
    }
  }

  /** The pc loop of `gemm_blocked` for one jc: the column block jc .. min(jc + NC, n) - 1
      receives every K-block in turn, the first one (first_k) overwriting it. */
  method BlockedColumnPanel(A: array2<int>, B: array2<int>, C: array2<int>, n: int, jc: int)
    requires Square(A, n) && Square(B, n) && Square(C, n) && C != A && C != B && n % KC_DEFAULT == 0
    requires 0 <= jc < n && jc % 8 == 0
    modifies C
    ensures forall i, j :: 0 <= i < n && 0 <= j < n ==>
      C[i, j] == if jc <= j < Min(jc + NC_DEFAULT, n) then DotMM(A, B, i, j, 0, n) else old(C[i, j])
  {
    ghost var m := n / KC_DEFAULT;
    assert n == KC_DEFAULT * m;
    var pc := 0;
    ghost var g := 0;
    while pc < n
      invariant 0 <= g && pc == KC_DEFAULT * g && pc <= n
      invariant forall i, j :: 0 <= i < n && 0 <= j < n ==>
        C[i, j] == if jc <= j < Min(jc + NC_DEFAULT, n) then Progress(old(C[i, j]), A, B, i, j, pc) else old(C[i, j])
    {
      BlockStep(g, m, KC_DEFAULT);
      var firstK := pc == 0;
      label before:
      BlockedColumnBlock(A, B, C, n, jc, pc, firstK);
      forall i, j | 0 <= i < n && jc <= j < Min(jc + NC_DEFAULT, n)
        ensures C[i, j] == Progress(old(C[i, j]), A, B, i, j, pc + KC_DEFAULT)
      {
        ProgressStep(old(C[i, j]), old@before(C[i, j]), A, B, i, j, pc, KC_DEFAULT);
      }
      pc := pc + KC_DEFAULT;
      g := g + 1;
    }
  }

  /** `gemm_blocked`: KC is not guarded, so n must be a multiple of KC = 64 (which makes
      every guarded 8 x 8 tile fit as well). */
  method GemmBlocked(A: array2<int>, B: array2<int>, C: array2<int>, n: int)
    requires Square(A, n) && Square(B, n) && Square(C, n) && C != A && C != B
    requires n % KC_DEFAULT == 0
    modifies C
    ensures IsProduct(C, A, B, n)
  {
    var jc := 0;
    while jc < n
      invariant 0 <= jc && jc % 8 == 0
      invariant forall i, j :: 0 <= i < n && 0 <= j < n ==>
        C[i, j] == if j < jc then DotMM(A, B, i, j, 0, n) else old(C[i, j])
    {
      BlockedColumnPanel(A, B, C, n, jc);
      jc := jc + NC_DEFAULT;
    }
  }

  // ---------------------------------------------------------------------------
  // Stage 3: gemm_pack_a (A panel packed by 4 x 4 transposes, AVX2 8 x 8 kernel)
  // ---------------------------------------------------------------------------

  /** `microkernel_8x8` on a packed slice of rows row .. row + 7: the tile receives the
      K-block [pc, pc + KC) of the product. */
  method Tile8x8(Ap: array<int>, ao: int, A: array2<int>, B: array2<int>, C: array2<int>, n: int,
                 row: int, col: int, pc: int, KC: int, firstK: bool)
    requires Square(A, n) && Square(B, n) && Square(C, n) && C != A && C != B
    requires 0 <= row && row + MR8 <= n && 0 <= col && col + NR8 <= n && 0 <= pc && 0 <= KC && pc + KC <= n
    requires 0 <= ao && KC * MR8 <= Ap.Length - ao
    requires ASlicePacked(Ap[ao..], MR8, A, row, pc, KC)
    modifies C
    ensures forall i, j :: 0 <= i < n && 0 <= j < n ==>
      C[i, j] == if row <= i < row + MR8 && col <= j < col + NR8
                 then Acc(old(C[i, j]), firstK, A, B, i, j, pc, pc + KC)
                 else old(C[i, j])
  {
    Microkernel8x8(Ap, ao, B, C, row, col, pc, KC, firstK);
    forall i, j | row <= i < row + MR8 && col <= j < col + NR8
      ensures C[i, j] == Acc(old(C[i, j]), firstK, A, B, i, j, pc, pc + KC)
    {
      DotPMIsDotMM(Ap[ao..], MR8, i - row, A, row, B, pc, j, KC);
    }
  }

  /** The jr loop of `gemm_pack_a` for one packed slice: rows row .. row + 7, columns
      jc .. jc + NC - 1. */
  method PackARow(Ap: array<int>, ao: int, A: array2<int>, B: array2<int>, C: array2<int>, n: int,
                  row: int, jc: int, pc: int, firstK: bool)
    requires Square(A, n) && Square(B, n) && Square(C, n) && C != A && C != B
    requires 0 <= row && row + MR8 <= n && 0 <= jc && jc + NC_DEFAULT <= n && 0 <= pc && pc + KC_DEFAULT <= n
    requires 0 <= ao && KC_DEFAULT * MR8 <= Ap.Length - ao
    requires ASlicePacked(Ap[ao..], MR8, A, row, pc, KC_DEFAULT)
    modifies C
    ensures forall i, j :: 0 <= i < n && 0 <= j < n ==>
      C[i, j] == if row <= i < row + MR8 && jc <= j < jc + NC_DEFAULT
                 then Acc(old(C[i, j]), firstK, A, B, i, j, pc, pc + KC_DEFAULT)
                 else old(C[i, j])
  {
    var jr := 0;
    while jr < NC_DEFAULT
      invariant 0 <= jr <= NC_DEFAULT && jr % NR8 == 0
      invariant forall i, j :: 0 <= i < n && 0 <= j < n ==>
        C[i, j] == if row <= i < row + MR8 && jc <= j < jc + jr
                   then Acc(old(C[i, j]), firstK, A, B, i, j, pc, pc + KC_DEFAULT)
                   else old(C[i, j])
    {
      Tile8x8(Ap, ao, A, B, C, n, row, jc + jr, pc, KC_DEFAULT, firstK);
      jr := jr + NR8;
    }
  }

  /** The ir loop of `gemm_pack_a`: every slice of the packed panel against columns
      jc .. jc + NC - 1. */
  method PackAPanelTimesB(Ap: array<int>, A: array2<int>, B: array2<int>, C: array2<int>, n: int,
                          ic: int, jc: int, pc: int, firstK: bool)
    requires Square(A, n) && Square(B, n) && Square(C, n) && C != A && C != B
    requires 0 <= ic && ic + MC_DEFAULT <= n && 0 <= jc && jc + NC_DEFAULT <= n && 0 <= pc && pc + KC_DEFAULT <= n
    requires MC_DEFAULT * KC_DEFAULT <= Ap.Length
    requires APanelPacked(Ap[..], MR8, KC_DEFAULT, MR8 * KC_DEFAULT, A, ic, pc, MC_DEFAULT / MR8)
    modifies C
    ensures forall i, j :: 0 <= i < n && 0 <= j < n ==>
      C[i, j] == if ic <= i < ic + MC_DEFAULT && jc <= j < jc + NC_DEFAULT
                 then Acc(old(C[i, j]), firstK, A, B, i, j, pc, pc + KC_DEFAULT)
                 else old(C[i, j])
  {
    var ir := 0;
    while ir < MC_DEFAULT
      invariant 0 <= ir <= MC_DEFAULT && ir % MR8 == 0
      invariant forall i, j :: 0 <= i < n && 0 <= j < n ==>
        C[i, j] == if ic <= i < ic + ir && jc <= j < jc + NC_DEFAULT
                   then Acc(old(C[i, j]), firstK, A, B, i, j, pc, pc + KC_DEFAULT)
                   else old(C[i, j])
    {
      var ao := (ir / MR8) * MR8 * KC_DEFAULT;
      assert ASliceAt(Ap[..], MR8, KC_DEFAULT, MR8 * KC_DEFAULT, A, ic, pc, ir / MR8);
      ASliceFrom(Ap[..], MR8, KC_DEFAULT, MR8 * KC_DEFAULT, A, ic, pc, ir / MR8);
      assert Ap[..][ao..] == Ap[ao..];
      PackARow(Ap, ao, A, B, C, n, ic + ir, jc, pc, firstK);
      ir := ir + MR8;
    }
  }

  /** The ic loop of `gemm_pack_a`: pack each MC-row panel, then run the kernels on it. */
  method PackAColumnBlock(Ap: array<int>, A: array2<int>, B: array2<int>, C: array2<int>, n: int,
                          jc: int, pc: int, firstK: bool)
    requires Square(A, n) && Square(B, n) && Square(C, n) && C != A && C != B && n % MC_DEFAULT == 0
    requires 0 <= jc && jc + NC_DEFAULT <= n && 0 <= pc && pc + KC_DEFAULT <= n
    requires MC_DEFAULT * KC_DEFAULT <= Ap.Length
    modifies Ap, C
    ensures forall i, j :: 0 <= i < n && 0 <= j < n ==>
      C[i, j] == if jc <= j < jc + NC_DEFAULT
                 then Acc(old(C[i, j]), firstK, A, B, i, j, pc, pc + KC_DEFAULT)
                 else old(C[i, j])
  {
    var ic := 0;
    while ic < n
      invariant 0 <= ic <= n && ic % MC_DEFAULT == 0
      invariant forall i, j :: 0 <= i < n && 0 <= j < n ==>
        C[i, j] == if i < ic && jc <= j < jc + NC_DEFAULT
                   then Acc(old(C[i, j]), firstK, A, B, i, j, pc, pc + KC_DEFAULT)
                   else old(C[i, j])
    {
      PackAPanel8x8(A, Ap, ic, pc, MC_DEFAULT, KC_DEFAULT);
      assert APanelPacked(Ap[..], MR8, KC_DEFAULT, MR8 * KC_DEFAULT, A, ic, pc, MC_DEFAULT / MR8);
      PackAPanelTimesB(Ap, A, B, C, n, ic, jc, pc, firstK);
      ic := ic + MC_DEFAULT;
    }
  }

  /** The pc loop of `gemm_pack_a` for one jc. */
  method PackAColumnPanel(Ap: array<int>, A: array2<int>, B: array2<int>, C: array2<int>, n: int, jc: int)
    requires Square(A, n) && Square(B, n) && Square(C, n) && C != A && C != B && n % MC_DEFAULT == 0
    requires 0 <= jc && jc + NC_DEFAULT <= n
    requires MC_DEFAULT * KC_DEFAULT <= Ap.Length
    modifies Ap, C
    ensures forall i, j :: 0 <= i < n && 0 <= j < n ==>
      C[i, j] == if jc <= j < jc + NC_DEFAULT then DotMM(A, B, i, j, 0, n) else old(C[i, j])
  {
    var pc := 0;
    while pc < n
      invariant 0 <= pc <= n && pc % KC_DEFAULT == 0
      invariant forall i, j :: 0 <= i < n && 0 <= j < n ==>
        C[i, j] == if jc <= j < jc + NC_DEFAULT then Progress(old(C[i, j]), A, B, i, j, pc) else old(C[i, j])
    {
      var firstK := pc == 0;
      label before:
      PackAColumnBlock(Ap, A, B, C, n, jc, pc, firstK);
      forall i, j | 0 <= i < n && jc <= j < jc + NC_DEFAULT
        ensures C[i, j] == Progress(old(C[i, j]), A, B, i, j, pc + KC_DEFAULT)
      {
        ProgressStep(old(C[i, j]), old@before(C[i, j]), A, B, i, j, pc, KC_DEFAULT);
      }
      pc := pc + KC_DEFAULT;
    }
  }

  /** `gemm_pack_a`: the panel and kernel loops run MC rows and NC columns unguarded, so
      n must be a multiple of MC = NC = 512. */
  method GemmPackA(A: array2<int>, B: array2<int>, C: array2<int>, n: int)
    requires Square(A, n) && Square(B, n) && Square(C, n) && C != A && C != B
    requires n % MC_DEFAULT == 0
    modifies C
    ensures IsProduct(C, A, B, n)
  {
    var Ap := new int[MC_DEFAULT * KC_DEFAULT];
    var jc := 0;
    while jc < n
      invariant 0 <= jc <= n && jc % NC_DEFAULT == 0
      invariant forall i, j :: 0 <= i < n && 0 <= j < n ==>
        C[i, j] == if j < jc then DotMM(A, B, i, j, 0, n) else old(C[i, j])
    {
      PackAColumnPanel(Ap, A, B, C, n, jc);
      jc := jc + NC_DEFAULT;
    }
  }

  // ---------------------------------------------------------------------------
  // Stage 4: gemm_pack_b (B packed by the kernel on the first ir, reused afterwards)
  // ---------------------------------------------------------------------------

  /** `microkernel_8x8_pack` on a packed A slice: with packB it leaves the B slice at bo
      packed, without it it needs that slice packed already; either way the tile receives
      the K-block [pc, pc + KC) of the product. */
  method Tile8x8Pack(Ap: array<int>, ao: int, Bp: array<int>, bo: int, A: array2<int>, B: array2<int>,
                     C: array2<int>, n: int, row: int, col: int, pc: int, KC: int, firstK: bool, packB: bool)
    requires Square(A, n) && Square(B, n) && Square(C, n) && C != A && C != B && Ap != Bp
    requires 0 <= row && row + MR8 <= n && 0 <= col && col + NR8 <= n && 0 <= pc && 0 <= KC && pc + KC <= n
    requires 0 <= ao && KC * MR8 <= Ap.Length - ao && 0 <= bo && KC * NR8 <= Bp.Length - bo
    requires ASlicePacked(Ap[ao..], MR8, A, row, pc, KC)
    requires !packB ==> BSlicePacked(Bp[bo..], NR8, B, pc, col, KC)
    modifies Bp, C
    ensures BSlicePacked(Bp[bo..], NR8, B, pc, col, KC)
    ensures forall p :: 0 <= p < Bp.Length && !(bo <= p < bo + KC * NR8) ==> Bp[p] == old(Bp[p])
    ensures forall i, j :: 0 <= i < n && 0 <= j < n ==>
      C[i, j] == if row <= i < row + MR8 && col <= j < col + NR8
                 then Acc(old(C[i, j]), firstK, A, B, i, j, pc, pc + KC)
                 else old(C[i, j])
  {
    ghost var a := Ap[ao..];
    ghost var b0 := Bp[bo..];
    Microkernel8x8Pack(Ap, ao, B, Bp, bo, C, row, col, pc, KC, firstK, packB);
    ghost var b := Bp[bo..];
    assert Ap[ao..] == a;
    assert !packB ==> b == b0;
    assert BSlicePacked(b, NR8, B, pc, col, KC);
    forall i, j | row <= i < row + MR8 && col <= j < col + NR8
      ensures C[i, j] == Acc(old(C[i, j]), firstK, A, B, i, j, pc, pc + KC)
    {
      assert C[i, j] == Seed(old(C[i, j]), firstK) + DotPP(a, MR8, i - row, b, NR8, j - col, KC);
      DotPPIsDotPM(a, MR8, i - row, b, NR8, j - col, B, pc, col, KC);
      DotPMIsDotMM(a, MR8, i - row, A, row, B, pc, j, KC);
    }
  }

  /** One jr step of `gemm_pack_b`: the kernel on B slice t = jr / 8 of the panel. */
  method PackBRowStep(Ap: array<int>, ao: int, Bp: array<int>, A: array2<int>, B: array2<int>,
                      C: array2<int>, n: int, row: int, jc: int, jr: int, pc: int, firstK: bool, packB: bool,
                      ghost t: int)
    requires Square(A, n) && Square(B, n) && Square(C, n) && C != A && C != B && Ap != Bp
    requires 0 <= row && row + MR8 <= n && 0 <= jc && jc + NC_DEFAULT <= n && 0 <= pc && pc + KC_DEFAULT <= n
    requires 0 <= t && 0 <= jr < NC_DEFAULT && jr == NR8 * t
    requires 0 <= ao && KC_DEFAULT * MR8 <= Ap.Length - ao && KC_DEFAULT * NC_DEFAULT <= Bp.Length
    requires ASlicePacked(Ap[ao..], MR8, A, row, pc, KC_DEFAULT)
    requires packB ==> BPanelPacked(Bp[..], NR8, KC_DEFAULT, KC_DEFAULT * NR8, B, pc, jc, t)
    requires !packB ==> BPanelPacked(Bp[..], NR8, KC_DEFAULT, KC_DEFAULT * NR8, B, pc, jc, NC_DEFAULT / NR8)
    modifies Bp, C
    ensures packB ==> BPanelPacked(Bp[..], NR8, KC_DEFAULT, KC_DEFAULT * NR8, B, pc, jc, t + 1)
    ensures !packB ==> BPanelPacked(Bp[..], NR8, KC_DEFAULT, KC_DEFAULT * NR8, B, pc, jc, NC_DEFAULT / NR8)
    ensures forall i, j :: 0 <= i < n && 0 <= j < n ==>
      C[i, j] == if row <= i < row + MR8 && jc + jr <= j < jc + jr + NR8
                 then Acc(old(C[i, j]), firstK, A, B, i, j, pc, pc + KC_DEFAULT)
                 else old(C[i, j])
  {
    ghost var T, S := 64, 512;
    assert T == NC_DEFAULT / NR8 && S == KC_DEFAULT * NR8;
    assert jr / NR8 == t;
    var bo := (jr / NR8) * KC_DEFAULT * NR8;
    assert bo == t * 512;
    if !packB {
      assert BSliceAt(Bp[..], NR8, KC_DEFAULT, S, B, pc, jc, t);
      BSliceFrom(Bp[..], NR8, KC_DEFAULT, S, B, pc, jc, t);
      assert Bp[..][bo..] == Bp[bo..];
    }
    ghost var prev := Bp[..];
    Tile8x8Pack(Ap, ao, Bp, bo, A, B, C, n, row, jc + jr, pc, KC_DEFAULT, firstK, packB);
    ghost var cur := Bp[..];
    assert cur[bo..] == Bp[bo..];
    assert forall p :: 0 <= p < |cur| && !(bo <= p < bo + S) ==> cur[p] == prev[p];
    BPanelAfterSlice(prev, cur, NR8, KC_DEFAULT, S, B, pc, jc, t, T, packB);
  }

  /** The jr loop of `gemm_pack_b` for one packed A slice: with packB (first_ir) every B
      slice of the panel is packed as it is used; otherwise all of them must be packed. */
  method PackBRowStrip(Ap: array<int>, ao: int, Bp: array<int>, A: array2<int>, B: array2<int>,
                       C: array2<int>, n: int, row: int, jc: int, pc: int, firstK: bool, packB: bool)
    requires Square(A, n) && Square(B, n) && Square(C, n) && C != A && C != B && Ap != Bp
    requires 0 <= row && row + MR8 <= n && 0 <= jc && jc + NC_DEFAULT <= n && 0 <= pc && pc + KC_DEFAULT <= n
    requires 0 <= ao && KC_DEFAULT * MR8 <= Ap.Length - ao && KC_DEFAULT * NC_DEFAULT <= Bp.Length
    requires ASlicePacked(Ap[ao..], MR8, A, row, pc, KC_DEFAULT)
    requires !packB ==> BPanelPacked(Bp[..], NR8, KC_DEFAULT, KC_DEFAULT * NR8, B, pc, jc, NC_DEFAULT / NR8)
    modifies Bp, C
    ensures BPanelPacked(Bp[..], NR8, KC_DEFAULT, KC_DEFAULT * NR8, B, pc, jc, NC_DEFAULT / NR8)
    ensures forall i, j :: 0 <= i < n && 0 <= j < n ==>
      C[i, j] == if row <= i < row + MR8 && jc <= j < jc + NC_DEFAULT
                 then Acc(old(C[i, j]), firstK, A, B, i, j, pc, pc + KC_DEFAULT)
                 else old(C[i, j])
  {
    var jr := 0;
    ghost var t := 0;
    while jr < NC_DEFAULT
      invariant 0 <= t && 0 <= jr <= NC_DEFAULT && jr == NR8 * t
      invariant packB ==> BPanelPacked(Bp[..], NR8, KC_DEFAULT, KC_DEFAULT * NR8, B, pc, jc, t)
      invariant !packB ==> BPanelPacked(Bp[..], NR8, KC_DEFAULT, KC_DEFAULT * NR8, B, pc, jc, NC_DEFAULT / NR8)
      invariant Ap[ao..] == old(Ap[ao..])
      invariant forall i, j :: 0 <= i < n && 0 <= j < n ==>
        C[i, j] == if row <= i < row + MR8 && jc <= j < jc + jr
                   then Acc(old(C[i, j]), firstK, A, B, i, j, pc, pc + KC_DEFAULT)
                   else old(C[i, j])
    {
      PackBRowStep(Ap, ao, Bp, A, B, C, n, row, jc, jr, pc, firstK, packB, t);
      jr := jr + NR8;
      t := t + 1;
    }
  }

  /** The ir loop of `gemm_pack_b`: the first A slice (first_ir) packs the B panel while
      using it, the later slices reuse it. */
  method PackBPanelTimesB(Ap: array<int>, Bp: array<int>, A: array2<int>, B: array2<int>, C: array2<int>,
                          n: int, ic: int, jc: int, pc: int, firstK: bool)
    requires Square(A, n) && Square(B, n) && Square(C, n) && C != A && C != B && Ap != Bp
    requires 0 <= ic && ic + MC_DEFAULT <= n && 0 <= jc && jc + NC_DEFAULT <= n && 0 <= pc && pc + KC_DEFAULT <= n
    requires MC_DEFAULT * KC_DEFAULT <= Ap.Length && KC_DEFAULT * NC_DEFAULT <= Bp.Length
    requires APanelPacked(Ap[..], MR8, KC_DEFAULT, MR8 * KC_DEFAULT, A, ic, pc, MC_DEFAULT / MR8)
    modifies Bp, C
    ensures BPanelPacked(Bp[..], NR8, KC_DEFAULT, KC_DEFAULT * NR8, B, pc, jc, NC_DEFAULT / NR8)
    ensures forall i, j :: 0 <= i < n && 0 <= j < n ==>
      C[i, j] == if ic <= i < ic + MC_DEFAULT && jc <= j < jc + NC_DEFAULT
                 then Acc(old(C[i, j]), firstK, A, B, i, j, pc, pc + KC_DEFAULT)
                 else old(C[i, j])
  {
    var ir := 0;
    while ir < MC_DEFAULT
      invariant 0 <= ir <= MC_DEFAULT && ir % MR8 == 0
      invariant ir > 0 ==> BPanelPacked(Bp[..], NR8, KC_DEFAULT, KC_DEFAULT * NR8, B, pc, jc, NC_DEFAULT / NR8)
      invariant forall i, j :: 0 <= i < n && 0 <= j < n ==>
        C[i, j] == if ic <= i < ic + ir && jc <= j < jc + NC_DEFAULT
                   then Acc(old(C[i, j]), firstK, A, B, i, j, pc, pc + KC_DEFAULT)
                   else old(C[i, j])
    {
      var firstIr := ir == 0;
      var ao := (ir / MR8) * MR8 * KC_DEFAULT;
      assert ASliceAt(Ap[..], MR8, KC_DEFAULT, MR8 * KC_DEFAULT, A, ic, pc, ir / MR8);
      ASliceFrom(Ap[..], MR8, KC_DEFAULT, MR8 * KC_DEFAULT, A, ic, pc, ir / MR8);
      assert Ap[..][ao..] == Ap[ao..];
      PackBRowStrip(Ap, ao, Bp, A, B, C, n, ic + ir, jc, pc, firstK, firstIr);
      ir := ir + MR8;
    }
  }

  /** The jc loop of `gemm_pack_b` for one packed A panel: rows ic .. ic + MC - 1 receive
      the K-block [pc, pc + KC) in every column. */
  method PackBRowBlock(Ap: array<int>, Bp: array<int>, A: array2<int>, B: array2<int>, C: array2<int>,
                       n: int, ic: int, pc: int, firstK: bool)
    requires Square(A, n) && Square(B, n) && Square(C, n) && C != A && C != B && Ap != Bp
    requires n % NC_DEFAULT == 0
    requires 0 <= ic && ic + MC_DEFAULT <= n && 0 <= pc && pc + KC_DEFAULT <= n
    requires MC_DEFAULT * KC_DEFAULT <= Ap.Length && KC_DEFAULT * NC_DEFAULT <= Bp.Length
    requires APanelPacked(Ap[..], MR8, KC_DEFAULT, MR8 * KC_DEFAULT, A, ic, pc, MC_DEFAULT / MR8)
    modifies Bp, C
    ensures forall i, j :: 0 <= i < n && 0 <= j < n ==>
      C[i, j] == if ic <= i < ic + MC_DEFAULT
                 then Acc(old(C[i, j]), firstK, A, B, i, j, pc, pc + KC_DEFAULT)
                 else old(C[i, j])
  {
    var jc := 0;
    while jc < n
      invariant 0 <= jc <= n && jc % NC_DEFAULT == 0
      invariant forall i, j :: 0 <= i < n && 0 <= j < n ==>
        C[i, j] == if ic <= i < ic + MC_DEFAULT && j < jc
                   then Acc(old(C[i, j]), firstK, A, B, i, j, pc, pc + KC_DEFAULT)
                   else old(C[i, j])
    {
      PackBPanelTimesB(Ap, Bp, A, B, C, n, ic, jc, pc, firstK);
      jc := jc + NC_DEFAULT;
    }
  }

  /** The pc loop of `gemm_pack_b` for one ic: pack the A panel, then the jc loop. */
  method PackBRowPanel(Ap: array<int>, Bp: array<int>, A: array2<int>, B: array2<int>, C: array2<int>,
                       n: int, ic: int)
    requires Square(A, n) && Square(B, n) && Square(C, n) && C != A && C != B && Ap != Bp
    requires n % NC_DEFAULT == 0 && n % KC_DEFAULT == 0
    requires 0 <= ic && ic + MC_DEFAULT <= n
    requires MC_DEFAULT * KC_DEFAULT <= Ap.Length && KC_DEFAULT * NC_DEFAULT <= Bp.Length
    modifies Ap, Bp, C
    ensures forall i, j :: 0 <= i < n && 0 <= j < n ==>
      C[i, j] == if ic <= i < ic + MC_DEFAULT then DotMM(A, B, i, j, 0, n) else old(C[i, j])
  {
    var pc := 0;
    while pc < n
      invariant 0 <= pc <= n && pc % KC_DEFAULT == 0
      invariant forall i, j :: 0 <= i < n && 0 <= j < n ==>
        C[i, j] == if ic <= i < ic + MC_DEFAULT then Progress(old(C[i, j]), A, B, i, j, pc) else old(C[i, j])
    {
      var firstK := pc == 0;
      label before:
      PackAPanel8x8(A, Ap, ic, pc, MC_DEFAULT, KC_DEFAULT);
      PackBRowBlock(Ap, Bp, A, B, C, n, ic, pc, firstK);
      forall i, j | ic <= i < ic + MC_DEFAULT && 0 <= j < n
        ensures C[i, j] == Progress(old(C[i, j]), A, B, i, j, pc + KC_DEFAULT)
      {
        ProgressStep(old(C[i, j]), old@before(C[i, j]), A, B, i, j, pc, KC_DEFAULT);
      }
      pc := pc + KC_DEFAULT;
    }
  }

  /** `gemm_pack_b`: as `gemm_pack_a` but with B packed once per (pc, jc) by the first A
      slice's kernels; n must again be a multiple of 512. */
  method GemmPackB(A: array2<int>, B: array2<int>, C: array2<int>, n: int)
    requires Square(A, n) && Square(B, n) && Square(C, n) && C != A && C != B
    requires n % MC_DEFAULT == 0
    modifies C
    ensures IsProduct(C, A, B, n)
  {
    var Ap := new int[MC_DEFAULT * KC_DEFAULT];
    var Bp := new int[KC_DEFAULT * NC_DEFAULT];
    var ic := 0;
    while ic < n
      invariant 0 <= ic <= n && ic % MC_DEFAULT == 0
      invariant forall i, j :: 0 <= i < n && 0 <= j < n ==>
        C[i, j] == if i < ic then DotMM(A, B, i, j, 0, n) else old(C[i, j])
    {
      PackBRowPanel(Ap, Bp, A, B, C, n, ic);
      ic := ic + MC_DEFAULT;
    }
  }
}
