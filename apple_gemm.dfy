/** The block schedulers of the AMX GEMM engine (gemm_exercise/gemm_progressive.c): stages
    2 to 6, each proved to leave C equal to the exact product.  Stage 1 (`gemm_naive`) is
    the same triple loop as in the AVX2 engine and is IntelGemm.GemmNaive.

    The AMX unit is a parameter: each stage enables it (`AMX_SET`) before its loops and
    disables it (`AMX_CLR`) after them.  As in IntelGemm, every loop level is a method of
    its own whose contract says which block of C it advances by one K-block. */
module AppleGemm {
  import opened GemmSpec
  import opened AmxUnit
  import opened AppleKernels
  import opened ApplePacking
  import opened Panels

  const N := 1024
  const MC_DEFAULT := 128
  const KC_DEFAULT := 128
  const NC_DEFAULT := 128
  const MC_TUNED := 256
  const KC_TUNED := 1024
  const NC_TUNED := 256

  // ---------------------------------------------------------------------------
  // Stage 2: gemm_blocked (unpacked 32 x 32 kernel, guarded loops, k_size)
  // ---------------------------------------------------------------------------

  /** The ir loop of `gemm_blocked`: 32 x 32 tiles down the column block col .. col + 31,
      rows ic .. min(ic + MC, n) - 1, each receiving columns pc .. pc + K - 1 of A. */
  method BlockedColumn(amx: Unit, A: array2<int>, B: array2<int>, C: array2<int>, n: int,
                       ic: int, col: int, pc: int, K: int, firstK: bool)
    requires amx.Valid() && amx.enabled
    requires Square(A, n) && Square(B, n) && Square(C, n) && C != A && C != B && n % MR == 0
    requires 0 <= ic < n && ic % MR == 0 && 0 <= col && col + NR <= n && 0 <= pc && 1 <= K && pc + K <= n
    modifies amx, C
    ensures amx.Valid() && amx.enabled
    ensures forall i, j :: 0 <= i < n && 0 <= j < n ==>
      C[i, j] == if ic <= i < Min(ic + MC_DEFAULT, n) && col <= j < col + NR
                 then Acc(old(C[i, j]), firstK, A, B, i, j, pc, pc + K)
                 else old(C[i, j])
  {
    ghost var m, a := n / MR, ic / MR;
    assert n == MR * m && ic == MR * a;
    var ir := 0;
    ghost var s := 0;
    while ir < MC_DEFAULT && ic + ir < n
      invariant amx.Valid() && amx.enabled
      invariant 0 <= s && ir == MR * s && ic + ir <= Min(ic + MC_DEFAULT, n)
      invariant forall i, j :: 0 <= i < n && 0 <= j < n ==>
        C[i, j] == if ic <= i < ic + ir && col <= j < col + NR
                   then Acc(old(C[i, j]), firstK, A, B, i, j, pc, pc + K)
                   else old(C[i, j])
    {
      BlockStep(a + s, m, MR);
      MicrokernelNoPack(amx, A, B, C, ic + ir, col, pc, K, firstK);
      ir := ir + MR;
      s := s + 1;
    }
  }

  /** The jr loop of `gemm_blocked`: the block rows ic .. min(ic + MC, n) - 1, columns
      jc .. min(jc + NC, n) - 1. */
  method BlockedBlock(amx: Unit, A: array2<int>, B: array2<int>, C: array2<int>, n: int,
                      ic: int, jc: int, pc: int, K: int, firstK: bool)
    requires amx.Valid() && amx.enabled
    requires Square(A, n) && Square(B, n) && Square(C, n) && C != A && C != B && n % MR == 0
    requires 0 <= ic < n && ic % MR == 0 && 0 <= jc < n && jc % NR == 0 && 0 <= pc && 1 <= K && pc + K <= n
    modifies amx, C
    ensures amx.Valid() && amx.enabled
    ensures forall i, j :: 0 <= i < n && 0 <= j < n ==>
      C[i, j] == if ic <= i < Min(ic + MC_DEFAULT, n) && jc <= j < Min(jc + NC_DEFAULT, n)
                 then Acc(old(C[i, j]), firstK, A, B, i, j, pc, pc + K)
                 else old(C[i, j])
  {
    ghost var m, a := n / NR, jc / NR;
    assert n == NR * m && jc == NR * a;
    var jr := 0;
    ghost var s := 0;
    while jr < NC_DEFAULT && jc + jr < n
      invariant amx.Valid() && amx.enabled
      invariant 0 <= s && jr == NR * s && jc + jr <= Min(jc + NC_DEFAULT, n)
      invariant forall i, j :: 0 <= i < n && 0 <= j < n ==>
        C[i, j] == if ic <= i < Min(ic + MC_DEFAULT, n) && jc <= j < jc + jr
                   then Acc(old(C[i, j]), firstK, A, B, i, j, pc, pc + K)
                   else old(C[i, j])
    {
      BlockStep(a + s, m, NR);
      BlockedColumn(amx, A, B, C, n, ic, jc + jr, pc, K, firstK);
      jr := jr + NR;
      s := s + 1;
    }
  }

  /** The ic loop of `gemm_blocked`: one K-block applied to the column block
      jc .. min(jc + NC, n) - 1, all rows. */
  method BlockedColumnBlock(amx: Unit, A: array2<int>, B: array2<int>, C: array2<int>, n: int,
                            jc: int, pc: int, K: int, firstK: bool)
    requires amx.Valid() && amx.enabled
    requires Square(A, n) && Square(B, n) && Square(C, n) && C != A && C != B && n % MR == 0
    requires 0 <= jc < n && jc % NR == 0 && 0 <= pc && 1 <= K && pc + K <= n
    modifies amx, C
    ensures amx.Valid() && amx.enabled
    ensures forall i, j :: 0 <= i < n && 0 <= j < n ==>
      C[i, j] == if jc <= j < Min(jc + NC_DEFAULT, n)
                 then Acc(old(C[i, j]), firstK, A, B, i, j, pc, pc + K)
                 else old(C[i, j])
  {
    var ic := 0;
    while ic < n
      invariant amx.Valid() && amx.enabled
      invariant 0 <= ic && ic % MR == 0
      invariant forall i, j :: 0 <= i < n && 0 <= j < n ==>
        C[i, j] == if i < ic && jc <= j < Min(jc + NC_DEFAULT, n)
                   then Acc(old(C[i, j]), firstK, A, B, i, j, pc, pc + K)
                   else old(C[i, j])
    {
      BlockedBlock(amx, A, B, C, n, ic, jc, pc, K, firstK);
      ic := ic + MC_DEFAULT;
    }
  }

  /** The pc loop of `gemm_blocked` for one jc: K-blocks of k_size = min(KC, n - pc)
      columns, the first one (first_k) overwriting the column block, so the last block may
      be short and n need not be a multiple of KC. */
  method BlockedColumnPanel(amx: Unit, A: array2<int>, B: array2<int>, C: array2<int>, n: int, jc: int)
    requires amx.Valid() && amx.enabled
    requires Square(A, n) && Square(B, n) && Square(C, n) && C != A && C != B && n % MR == 0
    requires 0 <= jc < n && jc % NR == 0
    modifies amx, C
    ensures amx.Valid() && amx.enabled
    ensures forall i, j :: 0 <= i < n && 0 <= j < n ==>
      C[i, j] == if jc <= j < Min(jc + NC_DEFAULT, n) then DotMM(A, B, i, j, 0, n) else old(C[i, j])
  {
    var pc := 0;
    while pc < n
      invariant amx.Valid() && amx.enabled
      invariant 0 <= pc && pc % KC_DEFAULT == 0 && (pc > n ==> pc - KC_DEFAULT < n)
      invariant forall i, j :: 0 <= i < n && 0 <= j < n ==>
        C[i, j] == if jc <= j < Min(jc + NC_DEFAULT, n)
                   then Progress(old(C[i, j]), A, B, i, j, Min(pc, n))
                   else old(C[i, j])
    {
      var firstK := pc == 0;
      var kSize := if pc + KC_DEFAULT <= n then KC_DEFAULT else n - pc;
      label before:
      BlockedColumnBlock(amx, A, B, C, n, jc, pc, kSize, firstK);
      forall i, j | 0 <= i < n && jc <= j < Min(jc + NC_DEFAULT, n)
        ensures C[i, j] == Progress(old(C[i, j]), A, B, i, j, pc + kSize)
      {
        ProgressStep(old(C[i, j]), old@before(C[i, j]), A, B, i, j, pc, kSize);
      }
      assert Min(pc + KC_DEFAULT, n) == pc + kSize;
      pc := pc + KC_DEFAULT;
    }
  }

  /** `gemm_blocked`: the jr and ir loops are guarded and the last K-block is cut to
      n - pc, so any n that is a multiple of the 32 x 32 tile gives the product. */
  method GemmBlocked(amx: Unit, A: array2<int>, B: array2<int>, C: array2<int>, n: int)
    requires amx.Valid()
    requires Square(A, n) && Square(B, n) && Square(C, n) && C != A && C != B
    requires n % MR == 0
    modifies amx, C
    ensures amx.Valid() && !amx.enabled
    ensures IsProduct(C, A, B, n)
  {
    amx.Set();
    var jc := 0;
    while jc < n
      invariant amx.Valid() && amx.enabled
      invariant 0 <= jc && jc % NR == 0
      invariant forall i, j :: 0 <= i < n && 0 <= j < n ==>
        C[i, j] == if j < jc then DotMM(A, B, i, j, 0, n) else old(C[i, j])
    {
      BlockedColumnPanel(amx, A, B, C, n, jc);
      jc := jc + NC_DEFAULT;
    }
    amx.Clr();
  }

  // ---------------------------------------------------------------------------
  // Stage 3: gemm_packed_a (A panel packed, B read in place)
  // ---------------------------------------------------------------------------

  /** `microkernel_32x32_pack_a` on packed slice ao: the tile receives the K-block
      [pc, pc + KC) of the product. */
  method TilePackA(amx: Unit, Ap: array<int>, ao: int, A: array2<int>, B: array2<int>, C: array2<int>, n: int,
                   row: int, col: int, pc: int, KC: int, firstK: bool)
    requires amx.Valid() && amx.enabled
    requires Square(A, n) && Square(B, n) && Square(C, n) && C != A && C != B
    requires 0 <= row && row + MR <= n && 0 <= col && col + NR <= n && 0 <= pc && 1 <= KC && pc + KC <= n
    requires 0 <= ao && KC * MR <= Ap.Length - ao
    requires ASlicePacked(Ap[ao..], MR, A, row, pc, KC)
    modifies amx, C
    ensures amx.Valid() && amx.enabled
    ensures forall i, j :: 0 <= i < n && 0 <= j < n ==>
      C[i, j] == if row <= i < row + MR && col <= j < col + NR
                 then Acc(old(C[i, j]), firstK, A, B, i, j, pc, pc + KC)
                 else old(C[i, j])
  {
    MicrokernelPackA(amx, Ap, ao, B, C, row, col, pc, KC, firstK);
    forall i, j | row <= i < row + MR && col <= j < col + NR
      ensures C[i, j] == Acc(old(C[i, j]), firstK, A, B, i, j, pc, pc + KC)
    {
      DotPMIsDotMM(Ap[ao..], MR, i - row, A, row, B, pc, j, KC);
    }
  }

  /** The jr loop of `gemm_packed_a` for one packed slice: rows row .. row + 31, columns
      jc .. jc + NC - 1. */
  method PackedARow(amx: Unit, Ap: array<int>, ao: int, A: array2<int>, B: array2<int>, C: array2<int>, n: int,
                    row: int, jc: int, pc: int, firstK: bool)
    requires amx.Valid() && amx.enabled
    requires Square(A, n) && Square(B, n) && Square(C, n) && C != A && C != B
    requires 0 <= row && row + MR <= n && 0 <= jc && jc + NC_DEFAULT <= n && 0 <= pc && pc + KC_DEFAULT <= n
    requires 0 <= ao && KC_DEFAULT * MR <= Ap.Length - ao
    requires ASlicePacked(Ap[ao..], MR, A, row, pc, KC_DEFAULT)
    modifies amx, C
    ensures amx.Valid() && amx.enabled
    ensures forall i, j :: 0 <= i < n && 0 <= j < n ==>
      C[i, j] == if row <= i < row + MR && jc <= j < jc + NC_DEFAULT
                 then Acc(old(C[i, j]), firstK, A, B, i, j, pc, pc + KC_DEFAULT)
                 else old(C[i, j])
  {
    var jr := 0;
    while jr < NC_DEFAULT
      invariant amx.Valid() && amx.enabled
      invariant 0 <= jr <= NC_DEFAULT && jr % NR == 0
      invariant forall i, j :: 0 <= i < n && 0 <= j < n ==>
        C[i, j] == if row <= i < row + MR && jc <= j < jc + jr
                   then Acc(old(C[i, j]), firstK, A, B, i, j, pc, pc + KC_DEFAULT)
                   else old(C[i, j])
    {
      TilePackA(amx, Ap, ao, A, B, C, n, row, jc + jr, pc, KC_DEFAULT, firstK);
      jr := jr + NR;
    }
  }

  /** The ir loop of `gemm_packed_a`: slice ir / 32 of the packed panel, at
      (ir / 32) * 32 * KC, against columns jc .. jc + NC - 1. */
  method PackedAPanelTimesB(amx: Unit, Ap: array<int>, A: array2<int>, B: array2<int>, C: array2<int>, n: int,
                            ic: int, jc: int, pc: int, firstK: bool)
    requires amx.Valid() && amx.enabled
    requires Square(A, n) && Square(B, n) && Square(C, n) && C != A && C != B
    requires 0 <= ic && ic + MC_DEFAULT <= n && 0 <= jc && jc + NC_DEFAULT <= n && 0 <= pc && pc + KC_DEFAULT <= n
    requires MC_DEFAULT * KC_DEFAULT <= Ap.Length
    requires APanelPacked(Ap[..], MR, KC_DEFAULT, MR * KC_DEFAULT, A, ic, pc, MC_DEFAULT / MR)
    modifies amx, C
    ensures amx.Valid() && amx.enabled
    ensures forall i, j :: 0 <= i < n && 0 <= j < n ==>
      C[i, j] == if ic <= i < ic + MC_DEFAULT && jc <= j < jc + NC_DEFAULT
                 then Acc(old(C[i, j]), firstK, A, B, i, j, pc, pc + KC_DEFAULT)
                 else old(C[i, j])
  {
    var ir := 0;
    while ir < MC_DEFAULT
      invariant amx.Valid() && amx.enabled
      invariant 0 <= ir <= MC_DEFAULT && ir % MR == 0
      invariant forall i, j :: 0 <= i < n && 0 <= j < n ==>
        C[i, j] == if ic <= i < ic + ir && jc <= j < jc + NC_DEFAULT
                   then Acc(old(C[i, j]), firstK, A, B, i, j, pc, pc + KC_DEFAULT)
                   else old(C[i, j])
    {
      var ao := (ir / MR) * MR * KC_DEFAULT;
      assert ASliceAt(Ap[..], MR, KC_DEFAULT, MR * KC_DEFAULT, A, ic, pc, ir / MR);
      ASliceFrom(Ap[..], MR, KC_DEFAULT, MR * KC_DEFAULT, A, ic, pc, ir / MR);
      assert Ap[..][ao..] == Ap[ao..];
      PackedARow(amx, Ap, ao, A, B, C, n, ic + ir, jc, pc, firstK);
      ir := ir + MR;
    }
  }

  /** The ic loop of `gemm_packed_a`: pack each MC-row panel (`pack_A_panel_generic`), then
      run the kernels on it. */
  method PackedAColumnBlock(amx: Unit, Ap: array<int>, A: array2<int>, B: array2<int>, C: array2<int>, n: int,
                            jc: int, pc: int, firstK: bool)
    requires amx.Valid() && amx.enabled
    requires Square(A, n) && Square(B, n) && Square(C, n) && C != A && C != B && n % MC_DEFAULT == 0
    requires 0 <= jc && jc + NC_DEFAULT <= n && 0 <= pc && pc + KC_DEFAULT <= n
    requires MC_DEFAULT * KC_DEFAULT <= Ap.Length
    modifies amx, Ap, C
    ensures amx.Valid() && amx.enabled
    ensures forall i, j :: 0 <= i < n && 0 <= j < n ==>
      C[i, j] == if jc <= j < jc + NC_DEFAULT
                 then Acc(old(C[i, j]), firstK, A, B, i, j, pc, pc + KC_DEFAULT)
                 else old(C[i, j])
  {
    var ic := 0;
    while ic < n
      invariant amx.Valid() && amx.enabled
      invariant 0 <= ic <= n && ic % MC_DEFAULT == 0
      invariant forall i, j :: 0 <= i < n && 0 <= j < n ==>
        C[i, j] == if i < ic && jc <= j < jc + NC_DEFAULT
                   then Acc(old(C[i, j]), firstK, A, B, i, j, pc, pc + KC_DEFAULT)
                   else old(C[i, j])
    {
      PackAPanelGeneric(A, Ap, ic, pc, MC_DEFAULT, KC_DEFAULT);
      PackedAPanelTimesB(amx, Ap, A, B, C, n, ic, jc, pc, firstK);
      ic := ic + MC_DEFAULT;
    }
  }

  /** The pc loop of `gemm_packed_a` for one jc. */
  method PackedAColumnPanel(amx: Unit, Ap: array<int>, A: array2<int>, B: array2<int>, C: array2<int>, n: int, jc: int)
    requires amx.Valid() && amx.enabled
    requires Square(A, n) && Square(B, n) && Square(C, n) && C != A && C != B && n % MC_DEFAULT == 0
    requires 0 <= jc && jc + NC_DEFAULT <= n
    requires MC_DEFAULT * KC_DEFAULT <= Ap.Length
    modifies amx, Ap, C
    ensures amx.Valid() && amx.enabled
    ensures forall i, j :: 0 <= i < n && 0 <= j < n ==>
      C[i, j] == if jc <= j < jc + NC_DEFAULT then DotMM(A, B, i, j, 0, n) else old(C[i, j])
  {
    var pc := 0;
    while pc < n
      invariant amx.Valid() && amx.enabled
      invariant 0 <= pc <= n && pc % KC_DEFAULT == 0
      invariant forall i, j :: 0 <= i < n && 0 <= j < n ==>
        C[i, j] == if jc <= j < jc + NC_DEFAULT then Progress(old(C[i, j]), A, B, i, j, pc) else old(C[i, j])
    {
      var firstK := pc == 0;
      label before:
      PackedAColumnBlock(amx, Ap, A, B, C, n, jc, pc, firstK);
      forall i, j | 0 <= i < n && jc <= j < jc + NC_DEFAULT
        ensures C[i, j] == Progress(old(C[i, j]), A, B, i, j, pc + KC_DEFAULT)
      {
        ProgressStep(old(C[i, j]), old@before(C[i, j]), A, B, i, j, pc, KC_DEFAULT);
      }
      pc := pc + KC_DEFAULT;
    }
  }

  /** `gemm_packed_a`: no loop is guarded, so n must be a multiple of MC = KC = NC = 128. */
  method GemmPackedA(amx: Unit, A: array2<int>, B: array2<int>, C: array2<int>, n: int)
    requires amx.Valid()
    requires Square(A, n) && Square(B, n) && Square(C, n) && C != A && C != B
    requires n % MC_DEFAULT == 0
    modifies amx, C
    ensures amx.Valid() && !amx.enabled
    ensures IsProduct(C, A, B, n)
  {
    var Ap := new int[MC_DEFAULT * KC_DEFAULT];
    amx.Set();
    var jc := 0;
    while jc < n
      invariant amx.Valid() && amx.enabled
      invariant 0 <= jc <= n && jc % NC_DEFAULT == 0
      invariant forall i, j :: 0 <= i < n && 0 <= j < n ==>
        C[i, j] == if j < jc then DotMM(A, B, i, j, 0, n) else old(C[i, j])
    {
      PackedAColumnPanel(amx, Ap, A, B, C, n, jc);
      jc := jc + NC_DEFAULT;
    }
    amx.Clr();
  }

  // ---------------------------------------------------------------------------
  // Stages 4 to 6: gemm_packed_ab, gemm_tuned, gemm_lazy (B packed by the kernel on the
  // first ir and reused by the later ones).  The loop levels below take the blocking
  // parameters MC, KC, NC, since stages 4 and 5 differ only in them.
  // ---------------------------------------------------------------------------

  /** The blocking parameters the packed loop levels accept: whole 32-row and 32-column
      slices, KC a positive multiple of the 4-column transpose step. */
  predicate Blocking(MC: int, KC: int, NC: int) {
    0 < MC && MC % MR == 0 && 0 < KC && KC % 4 == 0 && 0 < NC && NC % NR == 0
  }

  /** `microkernel_32x32_pack_ab` on packed A slice ao and B slice bo: with packB the B
      slice is left packed, without it it must be packed already; either way the tile
      receives the K-block [pc, pc + KC) of the product. */
  method TilePackAB(amx: Unit, Ap: array<int>, ao: int, Bp: array<int>, bo: int, A: array2<int>, B: array2<int>,
                    C: array2<int>, n: int, row: int, col: int, pc: int, KC: int, firstK: bool, packB: bool)
    requires amx.Valid() && amx.enabled
    requires Square(A, n) && Square(B, n) && Square(C, n) && C != A && C != B && Ap != Bp
    requires 0 <= row && row + MR <= n && 0 <= col && col + NR <= n && 0 <= pc && 1 <= KC && pc + KC <= n
    requires 0 <= ao && KC * MR <= Ap.Length - ao && 0 <= bo && KC * NR <= Bp.Length - bo
    requires ASlicePacked(Ap[ao..], MR, A, row, pc, KC)
    requires !packB ==> BSlicePacked(Bp[bo..], NR, B, pc, col, KC)
    modifies amx, Bp, C
    ensures amx.Valid() && amx.enabled
    ensures BSlicePacked(Bp[bo..], NR, B, pc, col, KC)
    ensures forall p :: 0 <= p < Bp.Length && !(bo <= p < bo + KC * NR) ==> Bp[p] == old(Bp[p])
    ensures forall i, j :: 0 <= i < n && 0 <= j < n ==>
      C[i, j] == if row <= i < row + MR && col <= j < col + NR
                 then Acc(old(C[i, j]), firstK, A, B, i, j, pc, pc + KC)
                 else old(C[i, j])
  {
    ghost var a := Ap[ao..];
    ghost var b0 := Bp[bo..];
    MicrokernelPackAB(amx, Ap, ao, B, Bp, bo, C, row, col, pc, KC, firstK, packB);
    ghost var b := Bp[bo..];
    assert Ap[ao..] == a;
    assert !packB ==> b == b0;
    assert BSlicePacked(b, NR, B, pc, col, KC);
    forall i, j | row <= i < row + MR && col <= j < col + NR
      ensures C[i, j] == Acc(old(C[i, j]), firstK, A, B, i, j, pc, pc + KC)
    {
      assert C[i, j] == Seed(old(C[i, j]), firstK) + DotPP(a, MR, i - row, b, NR, j - col, KC);
      DotPPIsDotPM(a, MR, i - row, b, NR, j - col, B, pc, col, KC);
      DotPMIsDotMM(a, MR, i - row, A, row, B, pc, j, KC);
    }
  }

  /** One jr step: the kernel on B slice t = jr / 32, which starts at (jr / 32) * KC * 32. */
  method PackedABStep(amx: Unit, Ap: array<int>, ao: int, Bp: array<int>, A: array2<int>, B: array2<int>,
                      C: array2<int>, n: int, row: int, jc: int, jr: int, pc: int, KC: int, NC: int,
                      firstK: bool, packB: bool, ghost t: int)
    requires amx.Valid() && amx.enabled
    requires Square(A, n) && Square(B, n) && Square(C, n) && C != A && C != B && Ap != Bp
    requires 0 < KC && 0 < NC && NC % NR == 0
    requires 0 <= row && row + MR <= n && 0 <= jc && jc + NC <= n && 0 <= pc && pc + KC <= n
    requires 0 <= t && jr == NR * t && jr < NC
    requires 0 <= ao && KC * MR <= Ap.Length - ao && KC * NC <= Bp.Length
    requires ASlicePacked(Ap[ao..], MR, A, row, pc, KC)
    requires packB ==> BPanelPacked(Bp[..], NR, KC, KC * NR, B, pc, jc, t)
    requires !packB ==> BPanelPacked(Bp[..], NR, KC, KC * NR, B, pc, jc, NC / NR)
    modifies amx, Bp, C
    ensures amx.Valid() && amx.enabled
    ensures packB ==> BPanelPacked(Bp[..], NR, KC, KC * NR, B, pc, jc, t + 1)
    ensures !packB ==> BPanelPacked(Bp[..], NR, KC, KC * NR, B, pc, jc, NC / NR)
    ensures forall i, j :: 0 <= i < n && 0 <= j < n ==>
      C[i, j] == if row <= i < row + MR && jc + jr <= j < jc + jr + NR
                 then Acc(old(C[i, j]), firstK, A, B, i, j, pc, pc + KC)
                 else old(C[i, j])
  {
    ghost var T, S := NC / NR, KC * NR;
    assert jr / NR == t && NC == NR * T;
    var bo := (jr / NR) * KC * NR;
    assert bo == t * S;
    RowFits(t, T, S);
    assert T * S == KC * NC;
    if !packB {
      assert BSliceAt(Bp[..], NR, KC, S, B, pc, jc, t);
      BSliceFrom(Bp[..], NR, KC, S, B, pc, jc, t);
      assert Bp[..][bo..] == Bp[bo..];
    }
    ghost var prev := Bp[..];
    TilePackAB(amx, Ap, ao, Bp, bo, A, B, C, n, row, jc + jr, pc, KC, firstK, packB);
    ghost var cur := Bp[..];
    assert cur[bo..] == Bp[bo..];
    assert forall p :: 0 <= p < |cur| && !(bo <= p < bo + S) ==> cur[p] == prev[p];
    BPanelAfterSlice(prev, cur, NR, KC, S, B, pc, jc, t, T, packB);
  }

  /** The jr loop for one packed A slice: with packB (first_ir) every B slice of the panel
      is packed as it is used; otherwise all of them must be packed already. */
  method PackedABStrip(amx: Unit, Ap: array<int>, ao: int, Bp: array<int>, A: array2<int>, B: array2<int>,
                       C: array2<int>, n: int, row: int, jc: int, pc: int, KC: int, NC: int,
                       firstK: bool, packB: bool)
    requires amx.Valid() && amx.enabled
    requires Square(A, n) && Square(B, n) && Square(C, n) && C != A && C != B && Ap != Bp
    requires 0 < KC && 0 < NC && NC % NR == 0
    requires 0 <= row && row + MR <= n && 0 <= jc && jc + NC <= n && 0 <= pc && pc + KC <= n
    requires 0 <= ao && KC * MR <= Ap.Length - ao && KC * NC <= Bp.Length
    requires ASlicePacked(Ap[ao..], MR, A, row, pc, KC)
    requires !packB ==> BPanelPacked(Bp[..], NR, KC, KC * NR, B, pc, jc, NC / NR)
    modifies amx, Bp, C
    ensures amx.Valid() && amx.enabled
    ensures BPanelPacked(Bp[..], NR, KC, KC * NR, B, pc, jc, NC / NR)
    ensures forall i, j :: 0 <= i < n && 0 <= j < n ==>
      C[i, j] == if row <= i < row + MR && jc <= j < jc + NC
                 then Acc(old(C[i, j]), firstK, A, B, i, j, pc, pc + KC)
                 else old(C[i, j])
  {
    ghost var T := NC / NR;
    assert NC == NR * T;
    var jr := 0;
    ghost var t := 0;
    while jr < NC
      invariant amx.Valid() && amx.enabled
      invariant 0 <= t <= T && jr == NR * t
      invariant packB ==> BPanelPacked(Bp[..], NR, KC, KC * NR, B, pc, jc, t)
      invariant !packB ==> BPanelPacked(Bp[..], NR, KC, KC * NR, B, pc, jc, NC / NR)
      invariant Ap[ao..] == old(Ap[ao..])
      invariant forall i, j :: 0 <= i < n && 0 <= j < n ==>
        C[i, j] == if row <= i < row + MR && jc <= j < jc + jr
                   then Acc(old(C[i, j]), firstK, A, B, i, j, pc, pc + KC)
                   else old(C[i, j])
    {
      PackedABStep(amx, Ap, ao, Bp, A, B, C, n, row, jc, jr, pc, KC, NC, firstK, packB, t);
      jr := jr + NR;
      t := t + 1;
    }
  }

  /** Slice t = ir / 32 of a packed panel starts at (ir / 32) * 32 * KC and holds rows
      ic + ir .. ic + ir + 31. */
  lemma {:induction false} SliceOfPanel(Ap: array<int>, A: array2<int>, ic: int, pc: int, KC: int, ir: int, t: int)
    requires 0 <= t && ir == MR * t && 0 < KC
    requires ASliceAt(Ap[..], MR, KC, MR * KC, A, ic, pc, t)
    ensures 0 <= (ir / MR) * MR * KC && KC * MR <= Ap.Length - (ir / MR) * MR * KC
    ensures ic + ir + MR <= A.Length0 && pc + KC <= A.Length1
    ensures ASlicePacked(Ap[(ir / MR) * MR * KC..], MR, A, ic + ir, pc, KC)
  {
    assert ir / MR == t;
    assert t * MR * KC == t * (MR * KC);
    ASliceFrom(Ap[..], MR, KC, MR * KC, A, ic, pc, t);
    assert Ap[..][t * (MR * KC)..] == Ap[t * MR * KC..];
  }

  /** One ir step: slice ir / 32 of the packed panel against columns jc .. jc + NC - 1,
      packing the B panel when ir == 0 (first_ir). */
  method PackedABSliceStrip(amx: Unit, Ap: array<int>, Bp: array<int>, A: array2<int>, B: array2<int>,
                            C: array2<int>, n: int, ic: int, ir: int, jc: int, pc: int, MC: int, KC: int, NC: int,
                            firstK: bool, ghost s: int)
    requires amx.Valid() && amx.enabled && Blocking(MC, KC, NC)
    requires Square(A, n) && Square(B, n) && Square(C, n) && C != A && C != B && Ap != Bp
    requires 0 <= s && 0 <= ir < MC && ir == MR * s
    requires 0 <= ic && ic + MC <= n && 0 <= jc && jc + NC <= n && 0 <= pc && pc + KC <= n
    requires MC * KC <= Ap.Length && KC * NC <= Bp.Length
    requires ASliceAt(Ap[..], MR, KC, MR * KC, A, ic, pc, s)
    requires ir > 0 ==> BPanelPacked(Bp[..], NR, KC, KC * NR, B, pc, jc, NC / NR)
    modifies amx, Bp, C
    ensures amx.Valid() && amx.enabled
    ensures BPanelPacked(Bp[..], NR, KC, KC * NR, B, pc, jc, NC / NR)
    ensures forall i, j :: 0 <= i < n && 0 <= j < n ==>
      C[i, j] == if ic + ir <= i < ic + ir + MR && jc <= j < jc + NC
                 then Acc(old(C[i, j]), firstK, A, B, i, j, pc, pc + KC)
                 else old(C[i, j])
  {
    var firstIr := ir == 0;
    var ao := (ir / MR) * MR * KC;
    SliceOfPanel(Ap, A, ic, pc, KC, ir, s);
    PackedABStrip(amx, Ap, ao, Bp, A, B, C, n, ic + ir, jc, pc, KC, NC, firstK, firstIr);
  }

  /** The ir loop for one packed A panel and one jc: the first slice (first_ir) packs the
      B panel while using it, the later slices reuse it. */
  method PackedABPanelTimesB(amx: Unit, Ap: array<int>, Bp: array<int>, A: array2<int>, B: array2<int>,
                             C: array2<int>, n: int, ic: int, jc: int, pc: int, MC: int, KC: int, NC: int,
                             firstK: bool)
    requires amx.Valid() && amx.enabled && Blocking(MC, KC, NC)
    requires Square(A, n) && Square(B, n) && Square(C, n) && C != A && C != B && Ap != Bp
    requires 0 <= ic && ic + MC <= n && 0 <= jc && jc + NC <= n && 0 <= pc && pc + KC <= n
    requires MC * KC <= Ap.Length && KC * NC <= Bp.Length
    requires APanelPacked(Ap[..], MR, KC, MR * KC, A, ic, pc, MC / MR)
    modifies amx, Bp, C
    ensures amx.Valid() && amx.enabled
    ensures forall i, j :: 0 <= i < n && 0 <= j < n ==>
      C[i, j] == if ic <= i < ic + MC && jc <= j < jc + NC
                 then Acc(old(C[i, j]), firstK, A, B, i, j, pc, pc + KC)
                 else old(C[i, j])
  {
    ghost var M := MC / MR;
    assert MC == MR * M;
    var ir := 0;
    ghost var s := 0;
    while ir < MC
      invariant amx.Valid() && amx.enabled
      invariant 0 <= s && 0 <= ir <= MC && ir == MR * s
      invariant ir > 0 ==> BPanelPacked(Bp[..], NR, KC, KC * NR, B, pc, jc, NC / NR)
      invariant forall i, j :: 0 <= i < n && 0 <= j < n ==>
        C[i, j] == if ic <= i < ic + ir && jc <= j < jc + NC
                   then Acc(old(C[i, j]), firstK, A, B, i, j, pc, pc + KC)
                   else old(C[i, j])
    {
      assert s < M && ASliceAt(Ap[..], MR, KC, MR * KC, A, ic, pc, s);
      PackedABSliceStrip(amx, Ap, Bp, A, B, C, n, ic, ir, jc, pc, MC, KC, NC, firstK, s);
      ir := ir + MR;
      s := s + 1;
    }
  }

  /** The jc loop for one packed A panel: rows ic .. ic + MC - 1 receive the K-block
      [pc, pc + KC) in every column. */
  method PackedABRowBlock(amx: Unit, Ap: array<int>, Bp: array<int>, A: array2<int>, B: array2<int>,
                          C: array2<int>, n: int, ic: int, pc: int, MC: int, KC: int, NC: int, firstK: bool)
    requires amx.Valid() && amx.enabled && Blocking(MC, KC, NC)
    requires Square(A, n) && Square(B, n) && Square(C, n) && C != A && C != B && Ap != Bp
    requires n % NC == 0
    requires 0 <= ic && ic + MC <= n && 0 <= pc && pc + KC <= n
    requires MC * KC <= Ap.Length && KC * NC <= Bp.Length
    requires APanelPacked(Ap[..], MR, KC, MR * KC, A, ic, pc, MC / MR)
    modifies amx, Bp, C
    ensures amx.Valid() && amx.enabled
    ensures forall i, j :: 0 <= i < n && 0 <= j < n ==>
      C[i, j] == if ic <= i < ic + MC
                 then Acc(old(C[i, j]), firstK, A, B, i, j, pc, pc + KC)
                 else old(C[i, j])
  {
    ghost var m := n / NC;
    assert n == NC * m;
    var jc := 0;
    ghost var g := 0;
    while jc < n
      invariant amx.Valid() && amx.enabled
      invariant 0 <= g && jc == NC * g && jc <= n
      invariant forall i, j :: 0 <= i < n && 0 <= j < n ==>
        C[i, j] == if ic <= i < ic + MC && j < jc
                   then Acc(old(C[i, j]), firstK, A, B, i, j, pc, pc + KC)
                   else old(C[i, j])
    {
      BlockStep(g, m, NC);
      PackedABPanelTimesB(amx, Ap, Bp, A, B, C, n, ic, jc, pc, MC, KC, NC, firstK);
      jc := jc + NC;
      g := g + 1;
    }
  }

  /** The pc loop for one ic: pack the A panel (`pack_A_panel_generic`), then the jc
      loop; rows ic .. ic + MC - 1 end with the full product. */
  method PackedABRowPanel(amx: Unit, Ap: array<int>, Bp: array<int>, A: array2<int>, B: array2<int>,
                          C: array2<int>, n: int, ic: int, MC: int, KC: int, NC: int)
    requires amx.Valid() && amx.enabled && Blocking(MC, KC, NC)
    requires Square(A, n) && Square(B, n) && Square(C, n) && C != A && C != B && Ap != Bp
    requires n % NC == 0 && n % KC == 0
    requires 0 <= ic && ic + MC <= n
    requires MC * KC <= Ap.Length && KC * NC <= Bp.Length
    modifies amx, Ap, Bp, C
    ensures amx.Valid() && amx.enabled
    ensures forall i, j :: 0 <= i < n && 0 <= j < n ==>
      C[i, j] == if ic <= i < ic + MC then DotMM(A, B, i, j, 0, n) else old(C[i, j])
  {
    ghost var m := n / KC;
    assert n == KC * m;
    var pc := 0;
    ghost var g := 0;
    while pc < n
      invariant amx.Valid() && amx.enabled
      invariant 0 <= g && pc == KC * g && pc <= n
      invariant forall i, j :: 0 <= i < n && 0 <= j < n ==>
        C[i, j] == if ic <= i < ic + MC then Progress(old(C[i, j]), A, B, i, j, pc) else old(C[i, j])
    {
      BlockStep(g, m, KC);
      var firstK := pc == 0;
      label before:
      PackAPanelGeneric(A, Ap, ic, pc, MC, KC);
      PackedABRowBlock(amx, Ap, Bp, A, B, C, n, ic, pc, MC, KC, NC, firstK);
      forall i, j | ic <= i < ic + MC && 0 <= j < n
        ensures C[i, j] == Progress(old(C[i, j]), A, B, i, j, pc + KC)
      {
        ProgressStep(old(C[i, j]), old@before(C[i, j]), A, B, i, j, pc, KC);
      }
      pc := pc + KC;
      g := g + 1;
    }
  }

  /** The ic loop shared by `gemm_packed_ab` and `gemm_tuned`, with MC * KC and KC * NC
      packing buffers and the AMX unit enabled around it. */
  method PackedAB(amx: Unit, A: array2<int>, B: array2<int>, C: array2<int>, n: int, MC: int, KC: int, NC: int)
    requires amx.Valid() && Blocking(MC, KC, NC)
    requires Square(A, n) && Square(B, n) && Square(C, n) && C != A && C != B
    requires n % MC == 0 && n % KC == 0 && n % NC == 0
    modifies amx, C
    ensures amx.Valid() && !amx.enabled
    ensures IsProduct(C, A, B, n)
  {
    var Ap := new int[MC * KC];
    var Bp := new int[KC * NC];
    amx.Set();
    ghost var m := n / MC;
    assert n == MC * m;
    var ic := 0;
    ghost var g := 0;
    while ic < n
      invariant amx.Valid() && amx.enabled
      invariant 0 <= g && ic == MC * g && ic <= n
      invariant forall i, j :: 0 <= i < n && 0 <= j < n ==>
        C[i, j] == if i < ic then DotMM(A, B, i, j, 0, n) else old(C[i, j])
    {
      BlockStep(g, m, MC);
      PackedABRowPanel(amx, Ap, Bp, A, B, C, n, ic, MC, KC, NC);
      ic := ic + MC;
      g := g + 1;
    }
    amx.Clr();
  }

  /** `gemm_packed_ab`: MC = KC = NC = 128, unguarded, so n must be a multiple of 128. */
  method GemmPackedAB(amx: Unit, A: array2<int>, B: array2<int>, C: array2<int>, n: int)
    requires amx.Valid()
    requires Square(A, n) && Square(B, n) && Square(C, n) && C != A && C != B
    requires n % MC_DEFAULT == 0
    modifies amx, C
    ensures amx.Valid() && !amx.enabled
    ensures IsProduct(C, A, B, n)
  {
    PackedAB(amx, A, B, C, n, MC_DEFAULT, KC_DEFAULT, NC_DEFAULT);
  }

  /** `gemm_tuned`: the same loops with MC = 256, KC = 1024, NC = 256; the pc loop reads
      KC = 1024 columns unguarded, so n must be a multiple of 1024. */
  method GemmTuned(amx: Unit, A: array2<int>, B: array2<int>, C: array2<int>, n: int)
    requires amx.Valid()
    requires Square(A, n) && Square(B, n) && Square(C, n) && C != A && C != B
    requires n % KC_TUNED == 0
    modifies amx, C
    ensures amx.Valid() && !amx.enabled
    ensures IsProduct(C, A, B, n)
  {
    PackedAB(amx, A, B, C, n, MC_TUNED, KC_TUNED, NC_TUNED);
  }

  /** The lazy packing of `gemm_lazy`: `pack_A_slice` writes slice s = ir / 32 at
      s * 32 * KC, so the first s + 1 slices of the panel are packed afterwards. */
  method LazyPackSlice(A: array2<int>, Ap: array<int>, ic: int, ir: int, pc: int, ghost s: int)
    requires 0 <= ir < MC_TUNED && ir == MR * s
    requires 0 <= ic && ic + MC_TUNED <= A.Length0 && 0 <= pc && pc + KC_TUNED <= A.Length1
    requires MC_TUNED * KC_TUNED <= Ap.Length
    requires APanelPacked(Ap[..], MR, KC_TUNED, MR * KC_TUNED, A, ic, pc, s)
    modifies Ap
    ensures APanelPacked(Ap[..], MR, KC_TUNED, MR * KC_TUNED, A, ic, pc, s + 1)
    ensures forall p :: 0 <= p < Ap.Length && !(s * (MR * KC_TUNED) <= p < s * (MR * KC_TUNED) + MR * KC_TUNED) ==>
      Ap[p] == old(Ap[p])
  {
    ghost var S := MR * KC_TUNED;
    var ao := (ir / MR) * MR * KC_TUNED;
    assert ir / MR == s && ao == s * S;
    ghost var prev := Ap[..];
    PackASlice32(A, Ap, ao, ic + ir, pc, KC_TUNED);
    PanelKept(prev, Ap[..], MR, KC_TUNED, S, A, ic, pc, ao, ao + KC_TUNED * MR, s);
    ASliceToPanel(Ap[..], MR, KC_TUNED, S, A, ic, pc, s);
    forall t | 0 <= t < s + 1
      ensures ASliceAt(Ap[..], MR, KC_TUNED, S, A, ic, pc, t)
    {
    }
  }

  /** One ir step of `gemm_lazy`: when jc == 0 the slice is packed (`pack_A_slice`) at
      (ir / 32) * 32 * KC just before its kernels run, extending the packed part of the
      panel by one slice; for later jc the whole panel is packed already and is reused. */
  method LazySliceStrip(amx: Unit, Ap: array<int>, Bp: array<int>, A: array2<int>, B: array2<int>,
                        C: array2<int>, n: int, ic: int, ir: int, jc: int, pc: int, firstK: bool, ghost s: int)
    requires amx.Valid() && amx.enabled
    requires Square(A, n) && Square(B, n) && Square(C, n) && C != A && C != B && Ap != Bp
    requires 0 <= ir < MC_TUNED && ir == MR * s
    requires 0 <= ic && ic + MC_TUNED <= n && 0 <= jc && jc + NC_TUNED <= n && 0 <= pc && pc + KC_TUNED <= n
    requires MC_TUNED * KC_TUNED <= Ap.Length && KC_TUNED * NC_TUNED <= Bp.Length
    requires jc == 0 ==> APanelPacked(Ap[..], MR, KC_TUNED, MR * KC_TUNED, A, ic, pc, s)
    requires jc != 0 ==> APanelPacked(Ap[..], MR, KC_TUNED, MR * KC_TUNED, A, ic, pc, MC_TUNED / MR)
    requires ir > 0 ==> BPanelPacked(Bp[..], NR, KC_TUNED, KC_TUNED * NR, B, pc, jc, NC_TUNED / NR)
    modifies amx, Ap, Bp, C
    ensures amx.Valid() && amx.enabled
    ensures jc == 0 ==> APanelPacked(Ap[..], MR, KC_TUNED, MR * KC_TUNED, A, ic, pc, s + 1)
    ensures jc != 0 ==> APanelPacked(Ap[..], MR, KC_TUNED, MR * KC_TUNED, A, ic, pc, MC_TUNED / MR)
    ensures BPanelPacked(Bp[..], NR, KC_TUNED, KC_TUNED * NR, B, pc, jc, NC_TUNED / NR)
    ensures forall i, j :: 0 <= i < n && 0 <= j < n ==>
      C[i, j] == if ic + ir <= i < ic + ir + MR && jc <= j < jc + NC_TUNED
                 then Acc(old(C[i, j]), firstK, A, B, i, j, pc, pc + KC_TUNED)
                 else old(C[i, j])
  {
    if jc == 0 {
      LazyPackSlice(A, Ap, ic, ir, pc, s);
    }
    assert ASliceAt(Ap[..], MR, KC_TUNED, MR * KC_TUNED, A, ic, pc, s);
    PackedABSliceStrip(amx, Ap, Bp, A, B, C, n, ic, ir, jc, pc, MC_TUNED, KC_TUNED, NC_TUNED, firstK, s);
  }

  /** The ir loop of `gemm_lazy` for one jc: on the first jc the panel is packed slice by
      slice as the loop goes; for later jc it must be packed on entry.  Either way it is
      packed on exit. */
  method LazyPanelTimesB(amx: Unit, Ap: array<int>, Bp: array<int>, A: array2<int>, B: array2<int>,
                         C: array2<int>, n: int, ic: int, jc: int, pc: int, firstK: bool)
    requires amx.Valid() && amx.enabled
    requires Square(A, n) && Square(B, n) && Square(C, n) && C != A && C != B && Ap != Bp
    requires 0 <= ic && ic + MC_TUNED <= n && 0 <= jc && jc + NC_TUNED <= n && 0 <= pc && pc + KC_TUNED <= n
    requires MC_TUNED * KC_TUNED <= Ap.Length && KC_TUNED * NC_TUNED <= Bp.Length
    requires jc != 0 ==> APanelPacked(Ap[..], MR, KC_TUNED, MR * KC_TUNED, A, ic, pc, MC_TUNED / MR)
    modifies amx, Ap, Bp, C
    ensures amx.Valid() && amx.enabled
    ensures APanelPacked(Ap[..], MR, KC_TUNED, MR * KC_TUNED, A, ic, pc, MC_TUNED / MR)
    ensures forall i, j :: 0 <= i < n && 0 <= j < n ==>
      C[i, j] == if ic <= i < ic + MC_TUNED && jc <= j < jc + NC_TUNED
                 then Acc(old(C[i, j]), firstK, A, B, i, j, pc, pc + KC_TUNED)
                 else old(C[i, j])
  {
    var ir := 0;
    ghost var s := 0;
    while ir < MC_TUNED
      invariant amx.Valid() && amx.enabled
      invariant 0 <= ir <= MC_TUNED && ir == MR * s
      invariant jc == 0 ==> APanelPacked(Ap[..], MR, KC_TUNED, MR * KC_TUNED, A, ic, pc, s)
      invariant jc != 0 ==> APanelPacked(Ap[..], MR, KC_TUNED, MR * KC_TUNED, A, ic, pc, MC_TUNED / MR)
      invariant ir > 0 ==> BPanelPacked(Bp[..], NR, KC_TUNED, KC_TUNED * NR, B, pc, jc, NC_TUNED / NR)
      invariant forall i, j :: 0 <= i < n && 0 <= j < n ==>
        C[i, j] == if ic <= i < ic + ir && jc <= j < jc + NC_TUNED
                   then Acc(old(C[i, j]), firstK, A, B, i, j, pc, pc + KC_TUNED)
                   else old(C[i, j])
    {
      LazySliceStrip(amx, Ap, Bp, A, B, C, n, ic, ir, jc, pc, firstK, s);
      ir := ir + MR;
      s := s + 1;
    }
  }

  /** The jc loop of `gemm_lazy` for one (ic, pc): the first jc packs the A panel slice by
      slice, the later ones find it packed. */
  method LazyRowBlock(amx: Unit, Ap: array<int>, Bp: array<int>, A: array2<int>, B: array2<int>,
                      C: array2<int>, n: int, ic: int, pc: int, firstK: bool)
    requires amx.Valid() && amx.enabled
    requires Square(A, n) && Square(B, n) && Square(C, n) && C != A && C != B && Ap != Bp
    requires n % NC_TUNED == 0
    requires 0 <= ic && ic + MC_TUNED <= n && 0 <= pc && pc + KC_TUNED <= n
    requires MC_TUNED * KC_TUNED <= Ap.Length && KC_TUNED * NC_TUNED <= Bp.Length
    modifies amx, Ap, Bp, C
    ensures amx.Valid() && amx.enabled
    ensures forall i, j :: 0 <= i < n && 0 <= j < n ==>
      C[i, j] == if ic <= i < ic + MC_TUNED
                 then Acc(old(C[i, j]), firstK, A, B, i, j, pc, pc + KC_TUNED)
                 else old(C[i, j])
  {
    ghost var m := n / NC_TUNED;
    assert n == NC_TUNED * m;
    var jc := 0;
    ghost var g := 0;
    while jc < n
      invariant amx.Valid() && amx.enabled
      invariant 0 <= g && jc == NC_TUNED * g && jc <= n
      invariant jc != 0 ==> APanelPacked(Ap[..], MR, KC_TUNED, MR * KC_TUNED, A, ic, pc, MC_TUNED / MR)
      invariant forall i, j :: 0 <= i < n && 0 <= j < n ==>
        C[i, j] == if ic <= i < ic + MC_TUNED && j < jc
                   then Acc(old(C[i, j]), firstK, A, B, i, j, pc, pc + KC_TUNED)
                   else old(C[i, j])
    {
      BlockStep(g, m, NC_TUNED);
      LazyPanelTimesB(amx, Ap, Bp, A, B, C, n, ic, jc, pc, firstK);
      jc := jc + NC_TUNED;
      g := g + 1;
    }
  }

  /** The pc loop of `gemm_lazy` for one ic. */
  method LazyRowPanel(amx: Unit, Ap: array<int>, Bp: array<int>, A: array2<int>, B: array2<int>,
                      C: array2<int>, n: int, ic: int)
    requires amx.Valid() && amx.enabled
    requires Square(A, n) && Square(B, n) && Square(C, n) && C != A && C != B && Ap != Bp
    requires n % KC_TUNED == 0
    requires 0 <= ic && ic + MC_TUNED <= n
    requires MC_TUNED * KC_TUNED <= Ap.Length && KC_TUNED * NC_TUNED <= Bp.Length
    modifies amx, Ap, Bp, C
    ensures amx.Valid() && amx.enabled
    ensures forall i, j :: 0 <= i < n && 0 <= j < n ==>
      C[i, j] == if ic <= i < ic + MC_TUNED then DotMM(A, B, i, j, 0, n) else old(C[i, j])
  {
    ghost var m := n / KC_TUNED;
    assert n == KC_TUNED * m;
    assert n % NC_TUNED == 0 by {
      assert n == NC_TUNED * (4 * m);
    }
    var pc := 0;
    ghost var g := 0;
    while pc < n
      invariant amx.Valid() && amx.enabled
      invariant 0 <= g && pc == KC_TUNED * g && pc <= n
      invariant forall i, j :: 0 <= i < n && 0 <= j < n ==>
        C[i, j] == if ic <= i < ic + MC_TUNED then Progress(old(C[i, j]), A, B, i, j, pc) else old(C[i, j])
    {
      BlockStep(g, m, KC_TUNED);
      var firstK := pc == 0;
      label before:
      LazyRowBlock(amx, Ap, Bp, A, B, C, n, ic, pc, firstK);
      forall i, j | ic <= i < ic + MC_TUNED && 0 <= j < n
        ensures C[i, j] == Progress(old(C[i, j]), A, B, i, j, pc + KC_TUNED)
      {
        ProgressStep(old(C[i, j]), old@before(C[i, j]), A, B, i, j, pc, KC_TUNED);
      }
      pc := pc + KC_TUNED;
      g := g + 1;
    }
  }

  /** `gemm_lazy`: the tuned parameters with A packed slice by slice on the first jc; n
      must be a multiple of KC = 1024. */
  method GemmLazy(amx: Unit, A: array2<int>, B: array2<int>, C: array2<int>, n: int)
    requires amx.Valid()
    requires Square(A, n) && Square(B, n) && Square(C, n) && C != A && C != B
    requires n % KC_TUNED == 0
    modifies amx, C
    ensures amx.Valid() && !amx.enabled
    ensures IsProduct(C, A, B, n)
  {
    var Ap := new int[MC_TUNED * KC_TUNED];
    var Bp := new int[KC_TUNED * NC_TUNED];
    amx.Set();
    var ic := 0;
    while ic < n
      invariant amx.Valid() && amx.enabled
      invariant 0 <= ic <= n && ic % MC_TUNED == 0
      invariant forall i, j :: 0 <= i < n && 0 <= j < n ==>
        C[i, j] == if i < ic then DotMM(A, B, i, j, 0, n) else old(C[i, j])
    {
      LazyRowPanel(amx, Ap, Bp, A, B, C, n, ic);
      ic := ic + MC_TUNED;
    }
    amx.Clr();
  }
}
