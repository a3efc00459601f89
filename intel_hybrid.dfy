/** Stages 5 to 7 of the AVX2/FMA GEMM engine (gemm_exercise_intel/gemm_progressive.c):
    the 6 x 16 / 4 x 16 hybrid kernel cascade under default blocking (`gemm_kernel`), tuned
    blocking (`gemm_tuned`) and lazy A packing (`gemm_lazy`).

    Within one (ic, pc, jc) block the cascade runs 6-row tiles while six rows remain, one
    4-row tile if at least four remain, and (in `gemm_kernel` only) scalar code for the rest.
    Which rows of an mc-row block that reaches is `Covered`. */
module IntelHybrid {
  import opened GemmSpec
  import opened Lanes
  import opened IntelKernels
  import opened IntelPacking
  import opened Panels
  import opened IntelGemm

  /** Rows of an mc-row block the cascade writes: all of them with the scalar tail, else
      the 6-row tiles plus one 4-row tile when four or more rows are left over. */
  function Covered(mc: int, tail: bool): int
    requires 0 <= mc
  {
    if tail then mc else (mc / MR6) * MR6 + (if mc % MR6 >= MR4 then MR4 else 0)
  }

  /** Without the scalar tail every row is reached exactly when mc mod 6 is 0 or 4. */
  lemma CoveredAll(mc: int)
    requires 0 <= mc
    ensures Covered(mc, true) == mc
    ensures Covered(mc, false) <= mc
    ensures Covered(mc, false) == mc <==> mc % MR6 == 0 || mc % MR6 == MR4
  {
  }

  /** The packed A block of one (ic, pc): mc / 6 slices of 6 rows, and the 4-row edge slice
      when the block has one. */
  ghost predicate ABlockPacked(a6: seq<int>, a4: seq<int>, A: array2<int>, ic: int, mc: int, pc: int)
    reads A
  {
    0 <= mc &&
    APanelPacked(a6, MR6, KC_DEFAULT, MR6 * KC_DEFAULT, A, ic, pc, mc / MR6) &&
    (mc % MR6 >= MR4 ==>
      0 <= ic && ic + mc <= A.Length0 && 0 <= pc && pc + KC_DEFAULT <= A.Length1 &&
      KC_DEFAULT * MR4 <= |a4| && ASlicePacked(a4, MR4, A, ic + (mc / MR6) * MR6, pc, KC_DEFAULT))
  }

  // ---------------------------------------------------------------------------
  // Tiles and strips
  // ---------------------------------------------------------------------------

  /** `microkernel_6x16` (mr = 6) or `microkernel_4x16` (mr = 4) on packed slices: the tile
      receives the K-block [pc, pc + KC) of the product. */
  method Tile16(mr: int, Ap: array<int>, ao: int, Bp: array<int>, bo: int, A: array2<int>, B: array2<int>,
                C: array2<int>, n: int, row: int, col: int, pc: int, firstK: bool)
    requires mr == MR6 || mr == MR4
    requires Square(A, n) && Square(B, n) && Square(C, n) && C != A && C != B
    requires 0 <= row && row + mr <= n && 0 <= col && col + NR16 <= n && 0 <= pc && pc + KC_DEFAULT <= n
    requires 0 <= ao && KC_DEFAULT * mr <= Ap.Length - ao && 0 <= bo && KC_DEFAULT * NR16 <= Bp.Length - bo
    requires ASlicePacked(Ap[ao..], mr, A, row, pc, KC_DEFAULT)
    requires BSlicePacked(Bp[bo..], NR16, B, pc, col, KC_DEFAULT)
    modifies C
    ensures forall i, j :: 0 <= i < n && 0 <= j < n ==>
      C[i, j] == if row <= i < row + mr && col <= j < col + NR16
                 then Acc(old(C[i, j]), firstK, A, B, i, j, pc, pc + KC_DEFAULT)
                 else old(C[i, j])
  {
    ghost var a, b := Ap[ao..], Bp[bo..];
    if mr == MR6 {
      Microkernel6x16(Ap, ao, Bp, bo, C, row, col, KC_DEFAULT, firstK);
    } else {
      Microkernel4x16(Ap, ao, Bp, bo, C, row, col, KC_DEFAULT, firstK);
    }
    forall i, j | row <= i < row + mr && col <= j < col + NR16
      ensures C[i, j] == Acc(old(C[i, j]), firstK, A, B, i, j, pc, pc + KC_DEFAULT)
    {
      DotPPIsDotPM(a, mr, i - row, b, NR16, j - col, B, pc, col, KC_DEFAULT);
      DotPMIsDotMM(a, mr, i - row, A, row, B, pc, j, KC_DEFAULT);
    }
  }

  /** A jr loop of the cascade: one packed A slice against every B slice of the packed panel
      for columns jc .. jc + NC - 1. */
  method Strip16(mr: int, Ap: array<int>, ao: int, Bp: array<int>, A: array2<int>, B: array2<int>,
                 C: array2<int>, n: int, row: int, jc: int, pc: int, NC: int, firstK: bool)
    requires mr == MR6 || mr == MR4
    requires Square(A, n) && Square(B, n) && Square(C, n) && C != A && C != B
    requires 0 <= row && row + mr <= n && 0 <= NC && NC % NR16 == 0 && 0 <= jc && jc + NC <= n
    requires 0 <= pc && pc + KC_DEFAULT <= n
    requires 0 <= ao && KC_DEFAULT * mr <= Ap.Length - ao
    requires ASlicePacked(Ap[ao..], mr, A, row, pc, KC_DEFAULT)
    requires BPanelPacked(Bp[..], NR16, KC_DEFAULT, KC_DEFAULT * NR16, B, pc, jc, NC / NR16)
    modifies C
    ensures forall i, j :: 0 <= i < n && 0 <= j < n ==>
      C[i, j] == if row <= i < row + mr && jc <= j < jc + NC
                 then Acc(old(C[i, j]), firstK, A, B, i, j, pc, pc + KC_DEFAULT)
                 else old(C[i, j])
  {
    ghost var S := 1024;
    assert S == KC_DEFAULT * NR16;
    var jr := 0;
    ghost var t := 0;
    while jr < NC
      invariant 0 <= jr <= NC && jr == 16 * t
      invariant forall i, j :: 0 <= i < n && 0 <= j < n ==>
        C[i, j] == if row <= i < row + mr && jc <= j < jc + jr
                   then Acc(old(C[i, j]), firstK, A, B, i, j, pc, pc + KC_DEFAULT)
                   else old(C[i, j])
    {
      var bo := (jr / NR16) * KC_DEFAULT * NR16;
      assert jr / NR16 == t && bo == t * 1024;
      assert BSliceAt(Bp[..], NR16, KC_DEFAULT, S, B, pc, jc, t);
      BSliceFrom(Bp[..], NR16, KC_DEFAULT, S, B, pc, jc, t);
      assert Bp[..][bo..] == Bp[bo..];
      Tile16(mr, Ap, ao, Bp, bo, A, B, C, n, row, jc + jr, pc, firstK);
      jr := jr + NR16;
      t := t + 1;
    }
  }

  // ---------------------------------------------------------------------------
  // The scalar fallback of `gemm_kernel`
  // ---------------------------------------------------------------------------

  /** The k loop of the scalar fallback: one C entry from row `row` of A and column j of a
      packed B slice. */
  method ScalarDot(A: array2<int>, Bp: array<int>, bo: int, row: int, pc: int, j: int, init: int, firstK: bool)
      returns (sum: int)
    requires 0 <= row < A.Length0 && 0 <= pc && pc + KC_DEFAULT <= A.Length1
    requires 0 <= j < NR16 && 0 <= bo && KC_DEFAULT * NR16 <= Bp.Length - bo
    ensures sum == Seed(init, firstK) + DotMP(A, row, pc, Bp[bo..], NR16, j, KC_DEFAULT)
  {
    sum := if firstK then 0 else init;
    var k := 0;
    while k < KC_DEFAULT
      invariant 0 <= k <= KC_DEFAULT
      invariant sum == Seed(init, firstK) + DotMP(A, row, pc, Bp[bo..], NR16, j, k)
    {
      RowFits(k, KC_DEFAULT, NR16);
      sum := sum + A[row, pc + k] * Bp[bo + k * NR16 + j];
      k := k + 1;
    }
  }

  /** The j loop of the scalar fallback: sixteen entries of one row of C from B slice bo. */
  method ScalarSegment(A: array2<int>, B: array2<int>, Bp: array<int>, bo: int, C: array2<int>, n: int,
                       row: int, col: int, pc: int, firstK: bool)
    requires Square(A, n) && Square(B, n) && Square(C, n) && C != A && C != B
    requires 0 <= row < n && 0 <= col && col + NR16 <= n && 0 <= pc && pc + KC_DEFAULT <= n
    requires 0 <= bo && KC_DEFAULT * NR16 <= Bp.Length - bo
    requires BSlicePacked(Bp[bo..], NR16, B, pc, col, KC_DEFAULT)
    modifies C
    ensures forall i, j :: 0 <= i < n && 0 <= j < n ==>
      C[i, j] == if i == row && col <= j < col + NR16
                 then Acc(old(C[i, j]), firstK, A, B, i, j, pc, pc + KC_DEFAULT)
                 else old(C[i, j])
  {
    var j := 0;
    while j < NR16
      invariant 0 <= j <= NR16
      invariant forall i, j' :: 0 <= i < n && 0 <= j' < n ==>
        C[i, j'] == if i == row && col <= j' < col + j
                    then Acc(old(C[i, j']), firstK, A, B, i, j', pc, pc + KC_DEFAULT)
                    else old(C[i, j'])
    {
      var sum := ScalarDot(A, Bp, bo, row, pc, j, C[row, col + j], firstK);
      DotMPIsDotMM(A, row, Bp[bo..], NR16, j, B, pc, col, KC_DEFAULT);
      C[row, col + j] := sum;
      j := j + 1;
    }
  }

  /** The jr loop of the scalar fallback for one row of C. */
  method ScalarRow(A: array2<int>, B: array2<int>, Bp: array<int>, C: array2<int>, n: int,
                   row: int, jc: int, pc: int, NC: int, firstK: bool)
    requires Square(A, n) && Square(B, n) && Square(C, n) && C != A && C != B
    requires 0 <= row < n && 0 <= NC && NC % NR16 == 0 && 0 <= jc && jc + NC <= n
    requires 0 <= pc && pc + KC_DEFAULT <= n
    requires BPanelPacked(Bp[..], NR16, KC_DEFAULT, KC_DEFAULT * NR16, B, pc, jc, NC / NR16)
    modifies C
    ensures forall i, j :: 0 <= i < n && 0 <= j < n ==>
      C[i, j] == if i == row && jc <= j < jc + NC
                 then Acc(old(C[i, j]), firstK, A, B, i, j, pc, pc + KC_DEFAULT)
                 else old(C[i, j])
  {
    ghost var S := 1024;
    assert S == KC_DEFAULT * NR16;
    var jr := 0;
    ghost var t := 0;
    while jr < NC
      invariant 0 <= jr <= NC && jr == 16 * t
      invariant forall i, j :: 0 <= i < n && 0 <= j < n ==>
        C[i, j] == if i == row && jc <= j < jc + jr
                   then Acc(old(C[i, j]), firstK, A, B, i, j, pc, pc + KC_DEFAULT)
                   else old(C[i, j])
    {
      var bo := (jr / NR16) * KC_DEFAULT * NR16;
      assert jr / NR16 == t && bo == t * 1024;
      assert BSliceAt(Bp[..], NR16, KC_DEFAULT, S, B, pc, jc, t);
      BSliceFrom(Bp[..], NR16, KC_DEFAULT, S, B, pc, jc, t);
      assert Bp[..][bo..] == Bp[bo..];
      ScalarSegment(A, B, Bp, bo, C, n, row, jc + jr, pc, firstK);
      jr := jr + NR16;
      t := t + 1;
    }
  }

  /** The ir loop of the scalar fallback: rows lo .. hi - 1. */
  method ScalarRows(A: array2<int>, B: array2<int>, Bp: array<int>, C: array2<int>, n: int,
                    lo: int, hi: int, jc: int, pc: int, NC: int, firstK: bool)
    requires Square(A, n) && Square(B, n) && Square(C, n) && C != A && C != B
    requires 0 <= lo <= hi <= n && 0 <= NC && NC % NR16 == 0 && 0 <= jc && jc + NC <= n
    requires 0 <= pc && pc + KC_DEFAULT <= n
    requires BPanelPacked(Bp[..], NR16, KC_DEFAULT, KC_DEFAULT * NR16, B, pc, jc, NC / NR16)
    modifies C
    ensures forall i, j :: 0 <= i < n && 0 <= j < n ==>
      C[i, j] == if lo <= i < hi && jc <= j < jc + NC
                 then Acc(old(C[i, j]), firstK, A, B, i, j, pc, pc + KC_DEFAULT)
                 else old(C[i, j])
  {
    var r := lo;
    while r < hi
      invariant lo <= r <= hi
      invariant forall i, j :: 0 <= i < n && 0 <= j < n ==>
        C[i, j] == if lo <= i < r && jc <= j < jc + NC
                   then Acc(old(C[i, j]), firstK, A, B, i, j, pc, pc + KC_DEFAULT)
                   else old(C[i, j])
    {
      ScalarRow(A, B, Bp, C, n, r, jc, pc, NC, firstK);
      r := r + 1;
    }
  }

  // ---------------------------------------------------------------------------
  // The row cascade of one (ic, pc, jc) block
  // ---------------------------------------------------------------------------

  /** The packing half of one ir step of the 6-row loop: slice t = ir / 6 is packed when
      packA (jc == 0, or always in `gemm_lazy`) and otherwise left as the earlier jc left it. */
  method SixSlice(Ap: array<int>, A: array2<int>, n: int, ic: int, mc: int, ir: int, ghost t: int,
                  pc: int, packA: bool) returns (ao: int)
    requires Square(A, n) && 0 <= ic && 0 <= mc && ic + mc <= n && mc * KC_DEFAULT <= Ap.Length
    requires ir == 6 * t && 0 <= ir && ir + MR6 <= mc && 0 <= pc && pc + KC_DEFAULT <= n
    requires packA ==> APanelPacked(Ap[..], MR6, KC_DEFAULT, MR6 * KC_DEFAULT, A, ic, pc, t)
    requires !packA ==> APanelPacked(Ap[..], MR6, KC_DEFAULT, MR6 * KC_DEFAULT, A, ic, pc, mc / MR6)
    modifies Ap
    ensures ao == t * (MR6 * KC_DEFAULT) && 0 <= ao && KC_DEFAULT * MR6 <= Ap.Length - ao
    ensures ASlicePacked(Ap[ao..], MR6, A, ic + ir, pc, KC_DEFAULT)
    ensures packA ==> APanelPacked(Ap[..], MR6, KC_DEFAULT, MR6 * KC_DEFAULT, A, ic, pc, t + 1)
    ensures !packA ==> Ap[..] == old(Ap[..])
  {
    ghost var S := 384;
    assert S == MR6 * KC_DEFAULT;
    ao := (ir / MR6) * MR6 * KC_DEFAULT;
    assert ir / MR6 == t && ao == t * 384;
    assert t * 384 + 384 <= mc * 64;
    if packA {
      ghost var prev := Ap[..];
      PackASlice6(A, Ap, ao, ic + ir, pc, KC_DEFAULT);
      PanelKept(prev, Ap[..], MR6, KC_DEFAULT, S, A, ic, pc, ao, ao + KC_DEFAULT * MR6, t);
      ASliceToPanel(Ap[..], MR6, KC_DEFAULT, S, A, ic, pc, t);
    } else {
      assert ASliceAt(Ap[..], MR6, KC_DEFAULT, S, A, ic, pc, t);
    }
    ASliceFrom(Ap[..], MR6, KC_DEFAULT, S, A, ic, pc, t);
    assert Ap[..][ao..] == Ap[ao..];
  }

  /** One ir step of the 6-row loop: the slice, then its jr loop against the B panel. */
  method SixStep(Ap: array<int>, Bp: array<int>, A: array2<int>, B: array2<int>, C: array2<int>, n: int,
                 ic: int, mc: int, ir: int, ghost t: int, jc: int, pc: int, NC: int, firstK: bool, packA: bool)
    requires Square(A, n) && Square(B, n) && Square(C, n) && C != A && C != B && Ap != Bp
    requires 0 <= ic && 0 <= mc && ic + mc <= n && mc * KC_DEFAULT <= Ap.Length
    requires ir == 6 * t && 0 <= ir && ir + MR6 <= mc
    requires 0 <= NC && NC % NR16 == 0 && 0 <= jc && jc + NC <= n && 0 <= pc && pc + KC_DEFAULT <= n
    requires BPanelPacked(Bp[..], NR16, KC_DEFAULT, KC_DEFAULT * NR16, B, pc, jc, NC / NR16)
    requires packA ==> APanelPacked(Ap[..], MR6, KC_DEFAULT, MR6 * KC_DEFAULT, A, ic, pc, t)
    requires !packA ==> APanelPacked(Ap[..], MR6, KC_DEFAULT, MR6 * KC_DEFAULT, A, ic, pc, mc / MR6)
    modifies Ap, C
    ensures packA ==> APanelPacked(Ap[..], MR6, KC_DEFAULT, MR6 * KC_DEFAULT, A, ic, pc, t + 1)
    ensures !packA ==> Ap[..] == old(Ap[..])
    ensures forall i, j :: 0 <= i < n && 0 <= j < n ==>
      C[i, j] == if ic + ir <= i < ic + ir + MR6 && jc <= j < jc + NC
                 then Acc(old(C[i, j]), firstK, A, B, i, j, pc, pc + KC_DEFAULT)
                 else old(C[i, j])
  {
    var ao := SixSlice(Ap, A, n, ic, mc, ir, t, pc, packA);
    Strip16(MR6, Ap, ao, Bp, A, B, C, n, ic + ir, jc, pc, NC, firstK);
  }

  /** The 6-row loop of the cascade; ir ends at the largest multiple of 6 not above mc. */
  method SixLoop(Ap: array<int>, Bp: array<int>, A: array2<int>, B: array2<int>, C: array2<int>, n: int,
                 ic: int, mc: int, jc: int, pc: int, NC: int, firstK: bool, packA: bool) returns (ir: int)
    requires Square(A, n) && Square(B, n) && Square(C, n) && C != A && C != B && Ap != Bp
    requires 0 <= ic && 0 <= mc && ic + mc <= n && mc * KC_DEFAULT <= Ap.Length
    requires 0 <= NC && NC % NR16 == 0 && 0 <= jc && jc + NC <= n && 0 <= pc && pc + KC_DEFAULT <= n
    requires BPanelPacked(Bp[..], NR16, KC_DEFAULT, KC_DEFAULT * NR16, B, pc, jc, NC / NR16)
    requires !packA ==> APanelPacked(Ap[..], MR6, KC_DEFAULT, MR6 * KC_DEFAULT, A, ic, pc, mc / MR6)
    modifies Ap, C
    ensures ir == (mc / MR6) * MR6
    ensures APanelPacked(Ap[..], MR6, KC_DEFAULT, MR6 * KC_DEFAULT, A, ic, pc, mc / MR6)
    ensures !packA ==> Ap[..] == old(Ap[..])
    ensures forall i, j :: 0 <= i < n && 0 <= j < n ==>
      C[i, j] == if ic <= i < ic + ir && jc <= j < jc + NC
                 then Acc(old(C[i, j]), firstK, A, B, i, j, pc, pc + KC_DEFAULT)
                 else old(C[i, j])
  {
    ir := 0;
    ghost var t := 0;
    while ir + MR6 <= mc
      invariant 0 <= ir <= mc && ir == 6 * t
      invariant packA ==> APanelPacked(Ap[..], MR6, KC_DEFAULT, MR6 * KC_DEFAULT, A, ic, pc, t)
      invariant !packA ==> Ap[..] == old(Ap[..])
      invariant forall i, j :: 0 <= i < n && 0 <= j < n ==>
        C[i, j] == if ic <= i < ic + ir && jc <= j < jc + NC
                   then Acc(old(C[i, j]), firstK, A, B, i, j, pc, pc + KC_DEFAULT)
                   else old(C[i, j])
    {
      SixStep(Ap, Bp, A, B, C, n, ic, mc, ir, t, jc, pc, NC, firstK, packA);
      ir := ir + MR6;
      t := t + 1;
    }
    assert t == mc / MR6;
  }

  /** The 4-row edge: run only when at least four rows are left, its slice packed first
      when packA. */
  method FourEdge(Ap4: array<int>, Bp: array<int>, A: array2<int>, B: array2<int>, C: array2<int>, n: int,
                  row: int, jc: int, pc: int, NC: int, firstK: bool, packA: bool)
    requires Square(A, n) && Square(B, n) && Square(C, n) && C != A && C != B && Ap4 != Bp
    requires 0 <= row && row + MR4 <= n && KC_DEFAULT * MR4 <= Ap4.Length
    requires 0 <= NC && NC % NR16 == 0 && 0 <= jc && jc + NC <= n && 0 <= pc && pc + KC_DEFAULT <= n
    requires BPanelPacked(Bp[..], NR16, KC_DEFAULT, KC_DEFAULT * NR16, B, pc, jc, NC / NR16)
    requires !packA ==> ASlicePacked(Ap4[..], MR4, A, row, pc, KC_DEFAULT)
    modifies Ap4, C
    ensures ASlicePacked(Ap4[..], MR4, A, row, pc, KC_DEFAULT)
    ensures !packA ==> Ap4[..] == old(Ap4[..])
    ensures forall i, j :: 0 <= i < n && 0 <= j < n ==>
      C[i, j] == if row <= i < row + MR4 && jc <= j < jc + NC
                 then Acc(old(C[i, j]), firstK, A, B, i, j, pc, pc + KC_DEFAULT)
                 else old(C[i, j])
  {
    if packA {
      PackASlice4(A, Ap4, 0, row, pc, KC_DEFAULT);
    }
    assert Ap4[0..] == Ap4[..];
    Strip16(MR4, Ap4, 0, Bp, A, B, C, n, row, jc, pc, NC, firstK);
  }

  /** The row cascade for rows ic .. ic + mc - 1 against columns jc .. jc + NC - 1: the
      6-row loop, the 4-row edge and, with tail (`gemm_kernel`), scalar code for what is
      left. It reaches the first Covered(mc, tail) rows. */
  method Cascade(Ap6: array<int>, Ap4: array<int>, Bp: array<int>, A: array2<int>, B: array2<int>,
                 C: array2<int>, n: int, ic: int, mc: int, jc: int, pc: int, NC: int,
                 firstK: bool, packA: bool, tail: bool)
    requires Square(A, n) && Square(B, n) && Square(C, n) && C != A && C != B
    requires Ap6 != Bp && Ap4 != Bp && Ap6 != Ap4
    requires 0 <= ic && 0 <= mc && ic + mc <= n && mc * KC_DEFAULT <= Ap6.Length && KC_DEFAULT * MR4 <= Ap4.Length
    requires 0 <= NC && NC % NR16 == 0 && 0 <= jc && jc + NC <= n && 0 <= pc && pc + KC_DEFAULT <= n
    requires BPanelPacked(Bp[..], NR16, KC_DEFAULT, KC_DEFAULT * NR16, B, pc, jc, NC / NR16)
    requires !packA ==> ABlockPacked(Ap6[..], Ap4[..], A, ic, mc, pc)
    modifies Ap6, Ap4, C
    ensures ABlockPacked(Ap6[..], Ap4[..], A, ic, mc, pc)
    ensures forall i, j :: 0 <= i < n && 0 <= j < n ==>
      C[i, j] == if ic <= i < ic + Covered(mc, tail) && jc <= j < jc + NC
                 then Acc(old(C[i, j]), firstK, A, B, i, j, pc, pc + KC_DEFAULT)
                 else old(C[i, j])
  {
    var ir := SixLoop(Ap6, Bp, A, B, C, n, ic, mc, jc, pc, NC, firstK, packA);
    assert 0 <= mc - ir < MR6 && mc % MR6 == mc - ir;
    assert Covered(mc, tail) == ir + EdgeRows(mc - ir, tail);
    EdgeAndTail(Ap4, Bp, A, B, C, n, ic + ir, mc - ir, jc, pc, NC, firstK, packA, tail);
  }

  /** Rows the cascade reaches after the 6-row loop, when rest rows (fewer than six) are
      left: all of them with the scalar tail, else four when at least four are left. */
  function EdgeRows(rest: int, tail: bool): int {
    if tail then rest else if rest >= MR4 then MR4 else 0
  }

  /** The part of the cascade after the 6-row loop, for the rest rows from lo on: the 4-row
      edge when at least four are left, then, with tail, scalar code for what remains. */
  method EdgeAndTail(Ap4: array<int>, Bp: array<int>, A: array2<int>, B: array2<int>,
                     C: array2<int>, n: int, lo: int, rest: int, jc: int, pc: int, NC: int,
                     firstK: bool, packA: bool, tail: bool)
    requires Square(A, n) && Square(B, n) && Square(C, n) && C != A && C != B && Ap4 != Bp
    requires 0 <= lo && 0 <= rest && lo + rest <= n && KC_DEFAULT * MR4 <= Ap4.Length
    requires 0 <= NC && NC % NR16 == 0 && 0 <= jc && jc + NC <= n && 0 <= pc && pc + KC_DEFAULT <= n
    requires BPanelPacked(Bp[..], NR16, KC_DEFAULT, KC_DEFAULT * NR16, B, pc, jc, NC / NR16)
    requires !packA && rest >= MR4 ==> ASlicePacked(Ap4[..], MR4, A, lo, pc, KC_DEFAULT)
    modifies Ap4, C
    ensures rest >= MR4 ==> ASlicePacked(Ap4[..], MR4, A, lo, pc, KC_DEFAULT)
    ensures rest < MR4 ==> Ap4[..] == old(Ap4[..])
    ensures forall i, j :: 0 <= i < n && 0 <= j < n ==>
      C[i, j] == if lo <= i < lo + EdgeRows(rest, tail) && jc <= j < jc + NC
                 then Acc(old(C[i, j]), firstK, A, B, i, j, pc, pc + KC_DEFAULT)
                 else old(C[i, j])
  {
    var r := 0;
    if rest >= MR4 {
      FourEdge(Ap4, Bp, A, B, C, n, lo, jc, pc, NC, firstK, packA);
      if tail {
        r := MR4;
      }
    }
    if tail {
      ScalarRows(A, B, Bp, C, n, lo + r, lo + rest, jc, pc, NC, firstK);
    }
  }

  // ---------------------------------------------------------------------------
  // Stages 5 and 6: gemm_kernel and gemm_tuned (loop order ic, pc, jc)
  // ---------------------------------------------------------------------------

  /** The jc loop of `gemm_kernel` and `gemm_tuned` for one (ic, pc): pack the B panel, then
      the cascade, which packs the A slices on the first jc only and reuses them after. */
  method HybridRowBlock(Ap6: array<int>, Ap4: array<int>, Bp: array<int>, A: array2<int>, B: array2<int>,
                        C: array2<int>, n: int, ic: int, mc: int, pc: int, NC: int, firstK: bool, tail: bool)
    requires Square(A, n) && Square(B, n) && Square(C, n) && C != A && C != B
    requires Ap6 != Bp && Ap4 != Bp && Ap6 != Ap4
    requires 0 < NC && NC % NR16 == 0 && n % NC == 0 && KC_DEFAULT * NC <= Bp.Length
    requires 0 <= ic && 0 <= mc && ic + mc <= n && mc * KC_DEFAULT <= Ap6.Length && KC_DEFAULT * MR4 <= Ap4.Length
    requires 0 <= pc && pc + KC_DEFAULT <= n
    modifies Ap6, Ap4, Bp, C
    ensures forall i, j :: 0 <= i < n && 0 <= j < n ==>
      C[i, j] == if ic <= i < ic + Covered(mc, tail)
                 then Acc(old(C[i, j]), firstK, A, B, i, j, pc, pc + KC_DEFAULT)
                 else old(C[i, j])
  {
    ghost var Q := n / NC;
    assert n == NC * Q;
    var jc := 0;
    ghost var q := 0;
    while jc < n
      invariant 0 <= q <= Q && jc == q * NC
      invariant jc > 0 ==> ABlockPacked(Ap6[..], Ap4[..], A, ic, mc, pc)
      invariant forall i, j :: 0 <= i < n && 0 <= j < n ==>
        C[i, j] == if ic <= i < ic + Covered(mc, tail) && j < jc
                   then Acc(old(C[i, j]), firstK, A, B, i, j, pc, pc + KC_DEFAULT)
                   else old(C[i, j])
    {
      RowFits(q, Q, NC);
      PackBPanel(B, Bp, pc, jc, KC_DEFAULT, NC);
      Cascade(Ap6, Ap4, Bp, A, B, C, n, ic, mc, jc, pc, NC, firstK, jc == 0, tail);
      jc := jc + NC;
      q := q + 1;
    }
  }

  /** The pc loop of `gemm_kernel` and `gemm_tuned` for one ic: the reached rows of the block
      end up holding their full dot products. */
  method HybridRowPanel(Ap6: array<int>, Ap4: array<int>, Bp: array<int>, A: array2<int>, B: array2<int>,
                        C: array2<int>, n: int, ic: int, mc: int, NC: int, tail: bool)
    requires Square(A, n) && Square(B, n) && Square(C, n) && C != A && C != B
    requires Ap6 != Bp && Ap4 != Bp && Ap6 != Ap4
    requires 0 < NC && NC % NR16 == 0 && n % NC == 0 && KC_DEFAULT * NC <= Bp.Length && n % KC_DEFAULT == 0
    requires 0 <= ic && 0 <= mc && ic + mc <= n && mc * KC_DEFAULT <= Ap6.Length && KC_DEFAULT * MR4 <= Ap4.Length
    modifies Ap6, Ap4, Bp, C
    ensures forall i, j :: 0 <= i < n && 0 <= j < n ==>
      C[i, j] == if ic <= i < ic + Covered(mc, tail) then DotMM(A, B, i, j, 0, n) else old(C[i, j])
  {
    ghost var m := n / KC_DEFAULT;
    assert n == KC_DEFAULT * m;
    var pc := 0;
    ghost var g := 0;
    while pc < n
      invariant 0 <= g && pc == KC_DEFAULT * g && pc <= n
      invariant forall i, j :: 0 <= i < n && 0 <= j < n ==>
        C[i, j] == if ic <= i < ic + Covered(mc, tail) then Progress(old(C[i, j]), A, B, i, j, pc) else old(C[i, j])
    {
      BlockStep(g, m, KC_DEFAULT);
      var firstK := pc == 0;
      label before:
      HybridRowBlock(Ap6, Ap4, Bp, A, B, C, n, ic, mc, pc, NC, firstK, tail);
      forall i, j | ic <= i < ic + Covered(mc, tail) && 0 <= j < n
        ensures C[i, j] == Progress(old(C[i, j]), A, B, i, j, pc + KC_DEFAULT)
      {
        ProgressStep(old(C[i, j]), old@before(C[i, j]), A, B, i, j, pc, KC_DEFAULT);
      }
      pc := pc + KC_DEFAULT;
      g := g + 1;
    }
  }

  /** `gemm_kernel`: default blocking with the hybrid kernel and the scalar fallback; the
      unguarded jc loop needs n to be a multiple of NC = 512. */
  method GemmKernel(A: array2<int>, B: array2<int>, C: array2<int>, n: int)
    requires Square(A, n) && Square(B, n) && Square(C, n) && C != A && C != B
    requires n % NC_DEFAULT == 0
    modifies C
    ensures IsProduct(C, A, B, n)
  {
    var Ap6 := new int[MC_DEFAULT * KC_DEFAULT];
    var Ap4 := new int[MR4 * KC_DEFAULT];
    var Bp := new int[KC_DEFAULT * NC_DEFAULT];
    ghost var m := n / NC_DEFAULT;
    assert n == KC_DEFAULT * (8 * m);
    HybridBlocks(Ap6, Ap4, Bp, A, B, C, n, MC_DEFAULT, true);
  }

  /** `gemm_tuned`: tuned blocking, no scalar fallback. n must be a multiple of NC = 1024,
      so every block has mc = 1024 rows, 170 six-row tiles and one four-row tile. */
  method GemmTuned(A: array2<int>, B: array2<int>, C: array2<int>, n: int)
    requires Square(A, n) && Square(B, n) && Square(C, n) && C != A && C != B
    requires n % NC_TUNED == 0
    modifies C
    ensures IsProduct(C, A, B, n)
  {
    var Ap6 := new int[MC_TUNED * KC_TUNED];
    var Ap4 := new int[MR4 * KC_TUNED];
    var Bp := new int[KC_TUNED * NC_TUNED];
    ghost var m := n / NC_TUNED;
    assert n == KC_TUNED * (16 * m);
    assert Covered(MC_TUNED, false) == MC_TUNED;
    HybridBlocks(Ap6, Ap4, Bp, A, B, C, n, MC_TUNED, false);
  }

  /** The ic loop shared by `gemm_kernel` and `gemm_tuned`, whose blocks are square
      (MC == NC): when the cascade reaches every row of an MC-row block, all of C is the
      product. */
  method HybridBlocks(Ap6: array<int>, Ap4: array<int>, Bp: array<int>, A: array2<int>, B: array2<int>,
                      C: array2<int>, n: int, MC: int, tail: bool)
    requires Square(A, n) && Square(B, n) && Square(C, n) && C != A && C != B
    requires Ap6 != Bp && Ap4 != Bp && Ap6 != Ap4
    requires 0 < MC && MC % NR16 == 0 && n % MC == 0 && n % KC_DEFAULT == 0
    requires MC * KC_DEFAULT <= Ap6.Length && KC_DEFAULT * MR4 <= Ap4.Length && KC_DEFAULT * MC <= Bp.Length
    requires Covered(MC, tail) == MC
    modifies Ap6, Ap4, Bp, C
    ensures IsProduct(C, A, B, n)
  {
    ghost var m := n / MC;
    assert n == MC * m;
    var ic := 0;
    ghost var g := 0;
    while ic < n
      invariant 0 <= g && ic == MC * g && ic <= n
      invariant forall i, j :: 0 <= i < n && 0 <= j < n ==>
        C[i, j] == if i < ic then DotMM(A, B, i, j, 0, n) else old(C[i, j])
    {
      BlockStep(g, m, MC);
      HybridRowPanel(Ap6, Ap4, Bp, A, B, C, n, ic, MC, MC, tail);
      ic := ic + MC;
      g := g + 1;
    }
  }

  // ---------------------------------------------------------------------------
  // Stage 7: gemm_lazy (loop order pc, ic; B packed once per pc over all n columns)
  // ---------------------------------------------------------------------------

  /** The ic loop of `gemm_lazy` for one pc: every A slice is packed just before use. With
      n <= MC = 1024 there is a single block of mc = n rows. */
  method LazyRowBlock(Ap6: array<int>, Ap4: array<int>, Bp: array<int>, A: array2<int>, B: array2<int>,
                      C: array2<int>, n: int, pc: int, firstK: bool, tail: bool)
    requires Square(A, n) && Square(B, n) && Square(C, n) && C != A && C != B
    requires Ap6 != Bp && Ap4 != Bp && Ap6 != Ap4
    requires 0 <= n <= MC_TUNED && n % NR16 == 0
    requires MC_TUNED * KC_DEFAULT <= Ap6.Length && KC_DEFAULT * MR4 <= Ap4.Length
    requires 0 <= pc && pc + KC_DEFAULT <= n
    requires BPanelPacked(Bp[..], NR16, KC_DEFAULT, KC_DEFAULT * NR16, B, pc, 0, n / NR16)
    modifies Ap6, Ap4, C
    ensures forall i, j :: 0 <= i < n && 0 <= j < n ==>
      C[i, j] == if i < Covered(n, tail)
                 then Acc(old(C[i, j]), firstK, A, B, i, j, pc, pc + KC_DEFAULT)
                 else old(C[i, j])
  {
    var ic := 0;
    while ic < n
      invariant ic == 0 || ic == MC_TUNED
      invariant forall i, j :: 0 <= i < n && 0 <= j < n ==>
        C[i, j] == if ic > 0 && i < Covered(n, tail)
                   then Acc(old(C[i, j]), firstK, A, B, i, j, pc, pc + KC_DEFAULT)
                   else old(C[i, j])
    {
      var mc := if ic + MC_TUNED <= n then MC_TUNED else n - ic;
      Cascade(Ap6, Ap4, Bp, A, B, C, n, ic, mc, 0, pc, n, firstK, true, tail);
      ic := ic + MC_TUNED;
    }
  }

  /** `gemm_lazy`, with or without the scalar tail: rows below Covered(n, tail) end up
      holding their full dot products, the rest keep their values. */
  method Lazy(A: array2<int>, B: array2<int>, C: array2<int>, n: int, tail: bool)
    requires Square(A, n) && Square(B, n) && Square(C, n) && C != A && C != B
    requires 0 <= n <= NC_TUNED && n % KC_TUNED == 0
    modifies C
    ensures forall i, j :: 0 <= i < n && 0 <= j < n ==>
      C[i, j] == if i < Covered(n, tail) then DotMM(A, B, i, j, 0, n) else old(C[i, j])
  {
    var Ap6 := new int[MC_TUNED * KC_TUNED];
    var Ap4 := new int[MR4 * KC_TUNED];
    var Bp := new int[KC_TUNED * NC_TUNED];
    LazyPanels(Ap6, Ap4, Bp, A, B, C, n, tail);
  }

  /** The pc loop of `gemm_lazy`: pack the B panel, then the row blocks against it. */
  method LazyPanels(Ap6: array<int>, Ap4: array<int>, Bp: array<int>, A: array2<int>, B: array2<int>,
                    C: array2<int>, n: int, tail: bool)
    requires Square(A, n) && Square(B, n) && Square(C, n) && C != A && C != B
    requires Ap6 != Bp && Ap4 != Bp && Ap6 != Ap4
    requires MC_TUNED * KC_DEFAULT <= Ap6.Length && KC_DEFAULT * MR4 <= Ap4.Length && KC_TUNED * NC_TUNED <= Bp.Length
    requires 0 <= n <= NC_TUNED && n % KC_TUNED == 0
    modifies Ap6, Ap4, Bp, C
    ensures forall i, j :: 0 <= i < n && 0 <= j < n ==>
      C[i, j] == if i < Covered(n, tail) then DotMM(A, B, i, j, 0, n) else old(C[i, j])
  {
    ghost var m := n / KC_DEFAULT;
    assert n == KC_DEFAULT * m;
    assert n % NR16 == 0 by {
      assert n == NR16 * (4 * m);
    }
    ghost var rows := Covered(n, tail);
    var pc := 0;
    ghost var g := 0;
    while pc < n
      invariant 0 <= g && pc == KC_DEFAULT * g && pc <= n
      invariant forall i, j :: 0 <= i < n && 0 <= j < n ==>
        C[i, j] == if i < rows then Progress(old(C[i, j]), A, B, i, j, pc) else old(C[i, j])
    {
      BlockStep(g, m, KC_DEFAULT);
      var firstK := pc == 0;
      label before:
      PackBPanelLazy(B, Bp, pc, n, KC_TUNED);
      LazyRowBlock(Ap6, Ap4, Bp, A, B, C, n, pc, firstK, tail);
      forall i, j | 0 <= i < rows && 0 <= j < n
        ensures C[i, j] == Progress(old(C[i, j]), A, B, i, j, pc + KC_DEFAULT)
      {
        ProgressStep(old(C[i, j]), old@before(C[i, j]), A, B, i, j, pc, KC_DEFAULT);
      }
      pc := pc + KC_DEFAULT;
      g := g + 1;
    }
  }

  /** `gemm_lazy` as written: B_packed holds KC * 1024 entries, so n <= 1024, and the k loops
      are unguarded, so n is a multiple of KC = 64. The rows it reaches get the product; the
      whole of C does exactly when n mod 6 is 0 or 4 (so for n = 1024). */
  method GemmLazy(A: array2<int>, B: array2<int>, C: array2<int>, n: int)
    requires Square(A, n) && Square(B, n) && Square(C, n) && C != A && C != B
    requires 0 <= n <= NC_TUNED && n % KC_TUNED == 0
    modifies C
    ensures forall i, j :: 0 <= i < n && 0 <= j < n ==>
      C[i, j] == if i < Covered(n, false) then DotMM(A, B, i, j, 0, n) else old(C[i, j])
    ensures n % MR6 == 0 || n % MR6 == MR4 ==> IsProduct(C, A, B, n)
  {
    Lazy(A, B, C, n, false);
    CoveredAll(n);
  }

  /** `gemm_lazy` with the scalar fallback of `gemm_kernel` after the 4-row edge: every
      admissible n gets the full product. */
  method GemmLazyWithTail(A: array2<int>, B: array2<int>, C: array2<int>, n: int)
    requires Square(A, n) && Square(B, n) && Square(C, n) && C != A && C != B
    requires 0 <= n <= NC_TUNED && n % KC_TUNED == 0
    modifies C
    ensures IsProduct(C, A, B, n)
  {
    Lazy(A, B, C, n, true);
  }

  /** n = 128 meets every requirement of `gemm_lazy`, yet rows 126 and 127 are not reached. */
  lemma LazyMissesRows()
    ensures 128 % KC_TUNED == 0 && 128 <= NC_TUNED
    ensures Covered(128, false) == 126
  {
  }
}
