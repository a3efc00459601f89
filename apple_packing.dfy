/** The A packers of the AMX GEMM engine (gemm_exercise/gemm_progressive.c): 32-row slices
    built from 4 x 4 NEON transposes, k-major, so that row k of a slice is column pc + k of
    32 rows of A. */
module ApplePacking {
  import opened GemmSpec
  import opened Lanes
  import opened Panels
  import opened AppleKernels

  /** One 4 x 4 block: rows r0 .. r0 + 3 of A from column c0 are loaded (`vld1q_f32`),
      transposed (`vtrnq_f32`, `vget_low/high_f32`, `vcombine_f32`) and stored (`vst1q_f32`)
      at offsets o, o + stride, o + 2 * stride, o + 3 * stride from base, so the store at
      o + r * stride holds column c0 + r. */
  method TransposeBlock(A: array2<int>, r0: int, c0: int, Ap: array<int>, base: int, o: int, stride: int)
    requires 0 <= r0 && r0 + 4 <= A.Length0 && 0 <= c0 && c0 + 4 <= A.Length1
    requires 4 <= stride && 0 <= base && 0 <= o && base + o + 3 * stride + 4 <= Ap.Length
    modifies Ap
    ensures Ap[base..][o .. o + 4] == ColumnSegment(A, r0, c0, 4)
    ensures Ap[base..][o + stride .. o + stride + 4] == ColumnSegment(A, r0, c0 + 1, 4)
    ensures Ap[base..][o + 2 * stride .. o + 2 * stride + 4] == ColumnSegment(A, r0, c0 + 2, 4)
    ensures Ap[base..][o + 3 * stride .. o + 3 * stride + 4] == ColumnSegment(A, r0, c0 + 3, 4)
    ensures forall p :: 0 <= p < Ap.Length && !InQuad(p - base - o, stride) ==> Ap[p] == old(Ap[p])
    ensures forall d :: 0 <= d < Ap.Length - base && !InQuad(d - o, stride) ==> Ap[base..][d] == old(Ap[base..])[d]
  {
    var t := NeonTranspose4(Quad(RowSegment(A, r0, c0, 4), RowSegment(A, r0 + 1, c0, 4),
                                 RowSegment(A, r0 + 2, c0, 4), RowSegment(A, r0 + 3, c0, 4)));
    NeonColumns(A, r0, c0);
    StoreQuad(t, Ap, base, o, stride);
  }

  /** Body of the i loop: the block at entries i .. i + 3 of the four slice rows held from o;
      only those rows change. */
  method PackBlock32(A: array2<int>, Ap: array<int>, ao: int, o: int, row: int, col: int, i: int)
    requires 0 <= i && i + 4 <= MR
    requires 0 <= row && row + MR <= A.Length0 && 0 <= col && col + 4 <= A.Length1
    requires 0 <= ao && 0 <= o && ao + o + 4 * MR <= Ap.Length
    requires QuadRowsPacked(Ap[ao..], MR, o, A, row, col, i)
    modifies Ap
    ensures QuadRowsPacked(Ap[ao..], MR, o, A, row, col, i + 4)
    ensures forall p :: 0 <= p < Ap.Length && !(ao + o <= p < ao + o + 4 * MR) ==> Ap[p] == old(Ap[p])
  {
    ghost var prev := Ap[ao..];
    var q := o + i;
    TransposeBlock(A, row + i, col, Ap, ao, q, MR);
    QuadStored(prev, Ap[ao..], MR, o, q, A, row, col, i);
    forall p | 0 <= p < Ap.Length && !(ao + o <= p < ao + o + 4 * MR) ensures Ap[p] == old(Ap[p]) {
      assert !InQuad(p - ao - q, MR);
    }
  }

  /** One k step: the i loop fills slice rows k .. k + 3, which extends the packed prefix. */
  method PackASlice32Step(A: array2<int>, Ap: array<int>, ao: int, row: int, pc: int, KC: int, k: int)
    requires 0 <= k && k + 4 <= KC
    requires 0 <= row && row + MR <= A.Length0 && 0 <= pc && pc + KC <= A.Length1
    requires 0 <= ao && KC * MR <= Ap.Length - ao
    requires ASlicePacked(Ap[ao..], MR, A, row, pc, k)
    modifies Ap
    ensures ASlicePacked(Ap[ao..], MR, A, row, pc, k + 4)
    ensures forall p :: 0 <= p < Ap.Length && !(ao <= p < ao + KC * MR) ==> Ap[p] == old(Ap[p])
  {
    RowFits(k + 3, KC, MR);
    var o := k * MR;
    assert (k + 3) * MR + MR == o + 4 * MR;
    ghost var prev := Ap[ao..];
    PackRows32(A, Ap, ao, o, row, pc + k);
    forall d | 0 <= d < o ensures Ap[ao..][d] == prev[d] {
      assert Ap[ao + d] == old(Ap[ao + d]);
    }
    QuadRowsGrow(prev, Ap[ao..], MR, A, row, pc, k, o);
  }

  /** The i loop of one k step: the four slice rows held from o are filled, four entries at
      a time. */
  method PackRows32(A: array2<int>, Ap: array<int>, ao: int, o: int, row: int, col: int)
    requires 0 <= row && row + MR <= A.Length0 && 0 <= col && col + 4 <= A.Length1
    requires 0 <= ao && 0 <= o && ao + o + 4 * MR <= Ap.Length
    modifies Ap
    ensures QuadRowsPacked(Ap[ao..], MR, o, A, row, col, MR)
    ensures forall p :: 0 <= p < Ap.Length && !(ao + o <= p < ao + o + 4 * MR) ==> Ap[p] == old(Ap[p])
  {
    var i := 0;
    ghost var g := 0;
    while i < MR
      invariant 0 <= g <= 8 && i == 4 * g
      invariant QuadRowsPacked(Ap[ao..], MR, o, A, row, col, i)
      invariant forall p :: 0 <= p < Ap.Length && !(ao + o <= p < ao + o + 4 * MR) ==> Ap[p] == old(Ap[p])
    {
      PackBlock32(A, Ap, ao, o, row, col, i);
      i := i + 4;
      g := g + 1;
    }
  }

  /** `pack_A_slice`: rows row .. row + 31 of A, columns pc .. pc + KC - 1, packed at ao so
      that entry k * 32 + i is A[row + i, pc + k] (KC a multiple of 4); nothing outside the
      slice changes. */
  method PackASlice32(A: array2<int>, Ap: array<int>, ao: int, row: int, pc: int, KC: int)
    requires 0 <= KC && KC % 4 == 0
    requires 0 <= row && row + MR <= A.Length0 && 0 <= pc && pc + KC <= A.Length1
    requires 0 <= ao && KC * MR <= Ap.Length - ao
    modifies Ap
    ensures ASlicePacked(Ap[ao..], MR, A, row, pc, KC)
    ensures forall p :: 0 <= p < Ap.Length && !(ao <= p < ao + KC * MR) ==> Ap[p] == old(Ap[p])
  {
    ghost var m := KC / 4;
    assert KC == 4 * m;
    var k := 0;
    ghost var g := 0;
    while k < KC
      invariant 0 <= g <= m && k == 4 * g
      invariant ASlicePacked(Ap[ao..], MR, A, row, pc, k)
      invariant forall p :: 0 <= p < Ap.Length && !(ao <= p < ao + KC * MR) ==> Ap[p] == old(Ap[p])
    {
      PackASlice32Step(A, Ap, ao, row, pc, KC, k);
      k := k + 4;
      g := g + 1;
    }
  }

  /** `pack_A_panel_generic`: MC rows of A from row ic, columns pc .. pc + KC - 1, as MC / 32
      slices of 32 * KC entries, slice t (rows ic + 32t ..) starting at t * 32 * KC.  Its
      per-slice loops are those of `pack_A_slice`. */
  method PackAPanelGeneric(A: array2<int>, Ap: array<int>, ic: int, pc: int, MC: int, KC: int)
    requires 0 <= MC && MC % MR == 0 && 0 <= KC && KC % 4 == 0
    requires 0 <= ic && ic + MC <= A.Length0 && 0 <= pc && pc + KC <= A.Length1
    requires MC * KC <= Ap.Length
    modifies Ap
    ensures forall t :: 0 <= t < MC / MR ==> ASliceAt(Ap[..], MR, KC, MR * KC, A, ic, pc, t)
    ensures forall p :: MC * KC <= p < Ap.Length ==> Ap[p] == old(Ap[p])
  {
    ghost var T := MC / MR;
    ghost var S := MR * KC;
    var ir := 0;
    while ir < MC / MR
      invariant 0 <= ir <= T
      invariant forall t' :: 0 <= t' < ir ==> ASliceAt(Ap[..], MR, KC, S, A, ic, pc, t')
      invariant forall p :: MC * KC <= p < Ap.Length ==> Ap[p] == old(Ap[p])
    {
      var dst := ir * MR * KC;
      assert dst == ir * S;
      RowFits(ir, T, S);
      assert T * S == MC * KC;
      ghost var prev := Ap[..];
      PackASlice32(A, Ap, dst, ic + ir * MR, pc, KC);
      PanelKept(prev, Ap[..], MR, KC, S, A, ic, pc, dst, dst + KC * MR, ir);
      ASliceToPanel(Ap[..], MR, KC, S, A, ic, pc, ir);
      ir := ir + 1;
    }
  }
}
