/** The packing routines of the AVX2/FMA GEMM engine (gemm_exercise_intel/gemm_progressive.c):
    A slices gathered row by row or through SSE 4 x 4 transposes. */
module IntelPacking {
  import opened GemmSpec
  import opened Lanes
  import opened IntelKernels
  import opened Panels

  /** One 4 x 4 block of the SSE packers: rows r0 .. r0 + 3 of A from column c0 are loaded
      (`_mm_loadu_ps`), transposed (`_MM_TRANSPOSE4_PS`) and stored at offsets o, o + stride,
      o + 2 * stride, o + 3 * stride from base, so the store at o + r * stride holds column
      c0 + r. */
  method TransposeBlock(A: array2<int>, r0: int, c0: int, Ap: array<int>, base: int, o: int, stride: int)
    requires 0 <= r0 && r0 + 4 <= A.Length0 && 0 <= c0 && c0 + 4 <= A.Length1
    requires 4 <= stride && 0 <= base && 0 <= o && base + o + 3 * stride + 4 <= Ap.Length
    modifies Ap
    ensures Ap[base..][o .. o + 4] == ColumnSegment(A, r0, c0, 4)
    ensures Ap[base..][o + stride .. o + stride + 4] == ColumnSegment(A, r0, c0 + 1, 4)
    ensures Ap[base..][o + 2 * stride .. o + 2 * stride + 4] == ColumnSegment(A, r0, c0 + 2, 4)
    ensures Ap[base..][o + 3 * stride .. o + 3 * stride + 4] == ColumnSegment(A, r0, c0 + 3, 4)
    ensures forall p :: 0 <= p < Ap.Length && !InQuad(p - base - o, stride) ==> Ap[p] == old(Ap[p])
    ensures forall d :: 0 <= d < Ap.Length - base && !InQuad(d - o, stride) ==> Ap[base..][d] == old(Ap[base..])[d]
  {
    var t := SseTranspose4(Quad(RowSegment(A, r0, c0, 4), RowSegment(A, r0 + 1, c0, 4),
                                RowSegment(A, r0 + 2, c0, 4), RowSegment(A, r0 + 3, c0, 4)));
    SseColumns(A, r0, c0);
    StoreQuad(t, Ap, base, o, stride);
  }

  /** One k step of `pack_A_slice_4`: rows k .. k + 3 of the slice from one transpose. */
  method PackASlice4Step(A: array2<int>, Ap: array<int>, ao: int, row: int, pc: int, KC: int, k: int)
    requires 0 <= k && k + 4 <= KC
    requires 0 <= row && row + MR4 <= A.Length0 && 0 <= pc && pc + KC <= A.Length1
    requires 0 <= ao && KC * MR4 <= Ap.Length - ao
    requires ASlicePacked(Ap[ao..], MR4, A, row, pc, k)
    modifies Ap
    ensures ASlicePacked(Ap[ao..], MR4, A, row, pc, k + 4)
    ensures forall p :: 0 <= p < Ap.Length && !(ao <= p < ao + KC * MR4) ==> Ap[p] == old(Ap[p])
  {
    RowFits(k + 3, KC, MR4);
    var o := k * MR4;
    assert (k + 3) * MR4 + MR4 == o + 4 * MR4;
    ghost var prev := Ap[ao..];
    TransposeBlock(A, row, pc + k, Ap, ao, o, MR4);
    QuadStored(prev, Ap[ao..], MR4, o, o, A, row, pc + k, 0);
    forall d | 0 <= d < o ensures Ap[ao..][d] == prev[d] {
      assert !InQuad(d - o, MR4);
    }
    QuadRowsGrow(prev, Ap[ao..], MR4, A, row, pc, k, o);
    forall p | 0 <= p < Ap.Length && !(ao <= p < ao + KC * MR4) ensures Ap[p] == old(Ap[p]) {
      assert !InQuad(p - ao - o, MR4);
    }
  }

  /** `pack_A_slice_4`: rows row .. row + 3 of A, columns pc .. pc + KC - 1, packed four
      k at a time through a 4 x 4 transpose (KC must be a multiple of 4). */
  method PackASlice4(A: array2<int>, Ap: array<int>, ao: int, row: int, pc: int, KC: int)
    requires 0 <= KC && KC % 4 == 0
    requires 0 <= row && row + MR4 <= A.Length0 && 0 <= pc && pc + KC <= A.Length1
    requires 0 <= ao && KC * MR4 <= Ap.Length - ao
    modifies Ap
    ensures ASlicePacked(Ap[ao..], MR4, A, row, pc, KC)
    ensures forall p :: 0 <= p < Ap.Length && !(ao <= p < ao + KC * MR4) ==> Ap[p] == old(Ap[p])
  {
    ghost var m := KC / 4;
    assert KC == 4 * m;
    var k := 0;
    ghost var g := 0;
    while k < KC
      invariant 0 <= g <= m && k == 4 * g
      invariant ASlicePacked(Ap[ao..], MR4, A, row, pc, k)
      invariant forall p :: 0 <= p < Ap.Length && !(ao <= p < ao + KC * MR4) ==> Ap[p] == old(Ap[p])
    {
      PackASlice4Step(A, Ap, ao, row, pc, KC, k);
      k := k + 4;
      g := g + 1;
    }
  }

  /** Body of the i loop of `pack_A_panel_8x8`: the block at entries i .. i + 3 of the four
      slice rows held from o; only those rows change. */
  method PackBlock8(A: array2<int>, Ap: array<int>, ao: int, o: int, row: int, col: int, i: int)
    requires i == 0 || i == 4
    requires 0 <= row && row + MR8 <= A.Length0 && 0 <= col && col + 4 <= A.Length1
    requires 0 <= ao && 0 <= o && ao + o + 4 * MR8 <= Ap.Length
    requires QuadRowsPacked(Ap[ao..], MR8, o, A, row, col, i)
    modifies Ap
    ensures QuadRowsPacked(Ap[ao..], MR8, o, A, row, col, i + 4)
    ensures forall p :: 0 <= p < Ap.Length && !(ao + o <= p < ao + o + 4 * MR8) ==> Ap[p] == old(Ap[p])
  {
    ghost var prev := Ap[ao..];
    var q := o + i;
    TransposeBlock(A, row + i, col, Ap, ao, q, MR8);
    QuadStored(prev, Ap[ao..], MR8, o, q, A, row, col, i);
    forall p | 0 <= p < Ap.Length && !(ao + o <= p < ao + o + 4 * MR8) ensures Ap[p] == old(Ap[p]) {
      assert !InQuad(p - ao - q, MR8);
    }
  }

  /** One k step of `pack_A_panel_8x8` for one slice: the i loop over the two halves fills
      slice rows k .. k + 3, which extends the packed prefix. */
  method PackASlice8Step(A: array2<int>, Ap: array<int>, ao: int, row: int, pc: int, KC: int, k: int)
    requires 0 <= k && k + 4 <= KC
    requires 0 <= row && row + MR8 <= A.Length0 && 0 <= pc && pc + KC <= A.Length1
    requires 0 <= ao && KC * MR8 <= Ap.Length - ao
    requires ASlicePacked(Ap[ao..], MR8, A, row, pc, k)
    modifies Ap
    ensures ASlicePacked(Ap[ao..], MR8, A, row, pc, k + 4)
    ensures forall p :: 0 <= p < Ap.Length && !(ao <= p < ao + KC * MR8) ==> Ap[p] == old(Ap[p])
  {
    RowFits(k + 3, KC, MR8);
    var o := k * MR8;
    assert (k + 3) * MR8 + MR8 == o + 4 * MR8;
    ghost var prev := Ap[ao..];
    var i := 0;
    while i < MR8
      invariant i == 0 || i == 4 || i == 8
      invariant QuadRowsPacked(Ap[ao..], MR8, o, A, row, pc + k, i)
      invariant forall p :: 0 <= p < Ap.Length && !(ao + o <= p < ao + o + 4 * MR8) ==> Ap[p] == old(Ap[p])
    {
      PackBlock8(A, Ap, ao, o, row, pc + k, i);
      i := i + 4;
    }
    forall d | 0 <= d < o ensures Ap[ao..][d] == prev[d] {
      assert Ap[ao + d] == old(Ap[ao + d]);
    }
    QuadRowsGrow(prev, Ap[ao..], MR8, A, row, pc, k, o);
  }

  /** The k loop of `pack_A_panel_8x8` for the slice at ao: rows row .. row + 7 of A,
      columns pc .. pc + KC - 1 (KC a multiple of 4). */
  method PackASlice8(A: array2<int>, Ap: array<int>, ao: int, row: int, pc: int, KC: int)
    requires 0 <= KC && KC % 4 == 0
    requires 0 <= row && row + MR8 <= A.Length0 && 0 <= pc && pc + KC <= A.Length1
    requires 0 <= ao && KC * MR8 <= Ap.Length - ao
    modifies Ap
    ensures ASlicePacked(Ap[ao..], MR8, A, row, pc, KC)
    ensures forall p :: 0 <= p < Ap.Length && !(ao <= p < ao + KC * MR8) ==> Ap[p] == old(Ap[p])
  {
    ghost var m := KC / 4;
    assert KC == 4 * m;
    var k := 0;
    ghost var g := 0;
    while k < KC
      invariant 0 <= g <= m && k == 4 * g
      invariant ASlicePacked(Ap[ao..], MR8, A, row, pc, k)
      invariant forall p :: 0 <= p < Ap.Length && !(ao <= p < ao + KC * MR8) ==> Ap[p] == old(Ap[p])
    {
      PackASlice8Step(A, Ap, ao, row, pc, KC, k);
      k := k + 4;
      g := g + 1;
    }
  }

  /** `pack_A_panel_8x8`: MC rows of A from row ic, columns pc .. pc + KC - 1, as MC / 8
      slices of 8 * KC entries, slice t starting at t * 8 * KC. */
  method PackAPanel8x8(A: array2<int>, Ap: array<int>, ic: int, pc: int, MC: int, KC: int)
    requires 0 <= MC && MC % MR8 == 0 && 0 <= KC && KC % 4 == 0
    requires 0 <= ic && ic + MC <= A.Length0 && 0 <= pc && pc + KC <= A.Length1
    requires MC * KC <= Ap.Length
    modifies Ap
    ensures forall t :: 0 <= t < MC / MR8 ==> ASliceAt(Ap[..], MR8, KC, MR8 * KC, A, ic, pc, t)
    ensures forall p :: MC * KC <= p < Ap.Length ==> Ap[p] == old(Ap[p])
  {
    ghost var T := MC / MR8;
    ghost var S := MR8 * KC;
    var ir := 0;
    ghost var t := 0;
    while ir < MC
      invariant 0 <= t <= T && ir == MR8 * t
      invariant forall t' :: 0 <= t' < t ==> ASliceAt(Ap[..], MR8, KC, S, A, ic, pc, t')
      invariant forall p :: MC * KC <= p < Ap.Length ==> Ap[p] == old(Ap[p])
    {
      var dst := (ir / MR8) * MR8 * KC;
      assert ir / MR8 == t;
      assert dst == t * S;
      RowFits(t, T, S);
      assert T * S == MC * KC;
      ghost var prev := Ap[..];
      PackASlice8(A, Ap, dst, ic + ir, pc, KC);
      PanelKept(prev, Ap[..], MR8, KC, S, A, ic, pc, dst, dst + KC * MR8, t);
      ASliceToPanel(Ap[..], MR8, KC, S, A, ic, pc, t);
      ir := ir + MR8;
      t := t + 1;
    }
  }

  /** One k step of `pack_A_slice_6`: the six scalar stores of column pc + k. */
  method PackASlice6Step(A: array2<int>, Ap: array<int>, ao: int, row: int, pc: int, KC: int, k: int)
    requires 0 <= k < KC
    requires 0 <= row && row + MR6 <= A.Length0 && 0 <= pc && pc + KC <= A.Length1
    requires 0 <= ao && KC * MR6 <= Ap.Length - ao
    requires ASlicePacked(Ap[ao..], MR6, A, row, pc, k)
    modifies Ap
    ensures ASlicePacked(Ap[ao..], MR6, A, row, pc, k + 1)
    ensures forall p :: 0 <= p < Ap.Length && !(ao <= p < ao + KC * MR6) ==> Ap[p] == old(Ap[p])
  {
    RowFits(k, KC, MR6);
    ghost var prev := Ap[ao..];
    forall r | 0 <= r < MR6 {
      Ap[ao + k * MR6 + r] := A[row + r, pc + k];
    }
    assert Ap[ao..][..k * MR6] == prev[..k * MR6];
    assert ARowPacked(Ap[ao..], MR6, k, 0, MR6, A, row, pc);
    AGrow(prev, Ap[ao..], MR6, A, row, pc, k);
  }

  /** `pack_A_slice_6`: rows row .. row + 5 of A, columns pc .. pc + KC - 1, one column of
      six scalars per k. */
  method PackASlice6(A: array2<int>, Ap: array<int>, ao: int, row: int, pc: int, KC: int)
    requires 0 <= KC
    requires 0 <= row && row + MR6 <= A.Length0 && 0 <= pc && pc + KC <= A.Length1
    requires 0 <= ao && KC * MR6 <= Ap.Length - ao
    modifies Ap
    ensures ASlicePacked(Ap[ao..], MR6, A, row, pc, KC)
    ensures forall p :: 0 <= p < Ap.Length && !(ao <= p < ao + KC * MR6) ==> Ap[p] == old(Ap[p])
  {
    var k := 0;
    while k < KC
      invariant 0 <= k <= KC
      invariant ASlicePacked(Ap[ao..], MR6, A, row, pc, k)
      invariant forall p :: 0 <= p < Ap.Length && !(ao <= p < ao + KC * MR6) ==> Ap[p] == old(Ap[p])
    {
      PackASlice6Step(A, Ap, ao, row, pc, KC, k);
      k := k + 1;
    }
  }

  // --- B panels: 16-column slices of KC rows, slice jr / 16 at (jr / 16) * KC * 16 ---

  /** Row k of one 16-column B slice held in [bo, bo + KC * 16): the two 8-lane
      `_mm256_loadu_ps` / `_mm256_storeu_ps` pairs of the B packing loops. */
  method PackBRow16(B: array2<int>, Bp: array<int>, bo: int, pc: int, col: int, KC: int, k: int)
    requires 0 <= k < KC && 0 <= pc && pc + KC <= B.Length0 && 0 <= col && col + NR16 <= B.Length1
    requires 0 <= bo && bo + KC * NR16 <= Bp.Length
    requires BSlicePacked(Bp[bo .. bo + KC * NR16], NR16, B, pc, col, k)
    modifies Bp
    ensures BSlicePacked(Bp[bo .. bo + KC * NR16], NR16, B, pc, col, k + 1)
    ensures forall p :: 0 <= p < Bp.Length && !(bo + k * NR16 <= p < bo + k * NR16 + NR16) ==> Bp[p] == old(Bp[p])
    ensures forall p :: 0 <= p < Bp.Length && !(bo <= p < bo + KC * NR16) ==> Bp[p] == old(Bp[p])
  {
    RowFits(k, KC, NR16);
    ghost var prev := Bp[bo .. bo + KC * NR16];
    var b0 := RowSegment(B, pc + k, col, 8);
    var b1 := RowSegment(B, pc + k, col + 8, 8);
    StoreVec(b0, Bp, bo + k * NR16);
    ghost var mid := Bp[..];
    StoreVec(b1, Bp, bo + k * NR16 + 8);
    ghost var cur := Bp[bo .. bo + KC * NR16];
    assert cur[..k * NR16] == prev[..k * NR16];
    assert BRowPacked(cur, NR16, k, 0, 8, B, pc, col) by {
      forall l | 0 <= l < 8 ensures cur[k * NR16 + l] == b0[l] {
        assert cur[k * NR16 + l] == Bp[bo + k * NR16 + l] == mid[bo + k * NR16 + l];
      }
    }
    assert BRowPacked(cur, NR16, k, 8, 8, B, pc, col) by {
      forall l | 0 <= l < 8 ensures cur[k * NR16 + 8 + l] == b1[l] {
        assert cur[k * NR16 + 8 + l] == Bp[bo + k * NR16 + 8 + l];
      }
    }
    BRowConcat(cur, NR16, k, 0, 8, 8, B, pc, col);
    BGrow(prev, cur, NR16, B, pc, col, k);
  }

  /** Entry x of slice t of a panel whose slices hold S entries each (0 outside the buffer). */
  function SliceEntry(b: seq<int>, S: int, t: int, x: int): int
  {
    if 0 <= t * S + x < |b| then b[t * S + x] else 0
  }

  /** Every entry of b outside [lo, hi) is that of prev. */
  ghost predicate KeptOutside(b: seq<int>, prev: seq<int>, lo: int, hi: int)
  {
    |b| == |prev| && forall p :: 0 <= p < |b| && !(lo <= p < hi) ==> b[p] == prev[p]
  }

  /** In each of the T slices of S entries, every entry outside row k (entries k * 16 ..
      k * 16 + 15 of a 16-column slice) is that of prev. */
  ghost predicate OutsideRowKept(b: seq<int>, prev: seq<int>, S: int, T: int, k: int)
  {
    |b| == |prev| &&
    forall t, x :: 0 <= t < T && 0 <= x < S && !(k * NR16 <= x < k * NR16 + NR16) ==>
      SliceEntry(b, S, t, x) == SliceEntry(prev, S, t, x)
  }

  /** A store confined to row k of slice t0 keeps every entry of every slice outside row k,
      and everything past the T slices. */
  lemma RowEntriesKept(prev: seq<int>, cur: seq<int>, S: int, T: int, t0: int, k: int)
    requires 0 <= t0 < T && 0 <= k && k * NR16 + NR16 <= S
    requires KeptOutside(cur, prev, t0 * S + k * NR16, t0 * S + k * NR16 + NR16)
    ensures OutsideRowKept(cur, prev, S, T, k)
    ensures KeptOutside(cur, prev, 0, T * S)
  {
    forall t, x | 0 <= t < T && 0 <= x < S && !(k * NR16 <= x < k * NR16 + NR16)
      ensures SliceEntry(cur, S, t, x) == SliceEntry(prev, S, t, x)
    {
      if t < t0 {
        RowsOrdered(t, t0, S);
      } else if t0 < t {
        RowsOrdered(t0, t, S);
      }
    }
    RowFits(t0, T, S);
  }

  /** Both frames compose over consecutive steps. */
  lemma KeptTrans(a: seq<int>, b: seq<int>, c: seq<int>, S: int, T: int, k: int)
    requires OutsideRowKept(b, a, S, T, k) && OutsideRowKept(c, b, S, T, k)
    requires KeptOutside(b, a, 0, T * S) && KeptOutside(c, b, 0, T * S)
    ensures OutsideRowKept(c, a, S, T, k) && KeptOutside(c, a, 0, T * S)
  {
  }

  /** The bookkeeping of one jr step of PackBPanelRow: once row k of slice t is written
      (and nothing else), slices 0 .. t hold k + 1 packed rows, the later ones still k, and
      the frames with respect to the panel's original contents still hold. */
  lemma PanelRowAdvance(orig: seq<int>, prev: seq<int>, cur: seq<int>, B: array2<int>,
                        pc: int, jc: int, KC: int, NC: int, k: int, t: int)
    requires 0 <= k < KC && 0 <= pc && pc + KC <= B.Length0
    requires 0 <= NC && NC % NR16 == 0 && 0 <= jc && jc + NC <= B.Length1
    requires 0 <= t < NC / NR16 && KC * NC <= |prev|
    requires BPanelPacked(prev, NR16, k + 1, KC * NR16, B, pc, jc, t)
    requires forall t' :: t <= t' < NC / NR16 ==> BSliceAt(prev, NR16, k, KC * NR16, B, pc, jc, t')
    requires OutsideRowKept(prev, orig, KC * NR16, NC / NR16, k)
    requires KeptOutside(prev, orig, 0, NC / NR16 * (KC * NR16))
    requires KeptOutside(cur, prev, t * (KC * NR16) + k * NR16, t * (KC * NR16) + k * NR16 + NR16)
    requires t * (KC * NR16) + KC * NR16 <= |cur|
    requires BSlicePacked(cur[t * (KC * NR16) .. t * (KC * NR16) + KC * NR16], NR16, B, pc, jc + NR16 * t, k + 1)
    ensures BPanelPacked(cur, NR16, k + 1, KC * NR16, B, pc, jc, t + 1)
    ensures forall t' :: t + 1 <= t' < NC / NR16 ==> BSliceAt(cur, NR16, k, KC * NR16, B, pc, jc, t')
    ensures OutsideRowKept(cur, orig, KC * NR16, NC / NR16, k)
    ensures KeptOutside(cur, orig, 0, NC / NR16 * (KC * NR16))
  {
    var T := NC / NR16;
    var S := KC * NR16;
    RowFits(k, KC, NR16);
    RowEntriesKept(prev, cur, S, T, t, k);
    KeptTrans(orig, prev, cur, S, T, k);
    assert KeptOutside(cur, prev, t * S, t * S + S);
    BPanelKept(prev, cur, NR16, k + 1, S, B, pc, jc, t);
    BPanelKept(prev, cur, NR16, k, S, B, pc, jc, t);
    assert BSliceAt(cur, NR16, k + 1, S, B, pc, jc, t);
  }

  /** The inner jr loop of the B packing in `gemm_kernel` / `gemm_tuned`: row k of every
      16-column slice of the panel for columns jc .. jc + NC - 1. */
  method PackBPanelRow(B: array2<int>, Bp: array<int>, pc: int, jc: int, KC: int, NC: int, k: int)
    requires 0 <= k < KC && 0 <= pc && pc + KC <= B.Length0
    requires 0 <= NC && NC % NR16 == 0 && 0 <= jc && jc + NC <= B.Length1
    requires KC * NC <= Bp.Length
    requires BPanelPacked(Bp[..], NR16, k, KC * NR16, B, pc, jc, NC / NR16)
    modifies Bp
    ensures BPanelPacked(Bp[..], NR16, k + 1, KC * NR16, B, pc, jc, NC / NR16)
    ensures OutsideRowKept(Bp[..], old(Bp[..]), KC * NR16, NC / NR16, k)
    ensures KeptOutside(Bp[..], old(Bp[..]), 0, KC * NC)
  {
    ghost var T := NC / NR16;
    ghost var S := KC * NR16;
    assert T * S == KC * NC;
    var jr := 0;
    ghost var t := 0;
    while jr < NC
      invariant 0 <= t <= T && jr == NR16 * t
      invariant BPanelPacked(Bp[..], NR16, k + 1, S, B, pc, jc, t)
      invariant forall t' :: t <= t' < T ==> BSliceAt(Bp[..], NR16, k, S, B, pc, jc, t')
      invariant OutsideRowKept(Bp[..], old(Bp[..]), S, T, k) && KeptOutside(Bp[..], old(Bp[..]), 0, T * S)
    {
      var bo := (jr / NR16) * KC * NR16;
      assert jr / NR16 == t;
      assert bo == t * S;
      RowFits(t, T, S);
      assert BSliceAt(Bp[..], NR16, k, S, B, pc, jc, t);
      ghost var prev := Bp[..];
      PackBRow16(B, Bp, bo, pc, jc + jr, KC, k);
      assert KeptOutside(Bp[..], prev, t * S + k * NR16, t * S + k * NR16 + NR16);
      PanelRowAdvance(old(Bp[..]), prev, Bp[..], B, pc, jc, KC, NC, k, t);
      jr := jr + NR16;
      t := t + 1;
    }
  }

  /** The B packing of `gemm_kernel` / `gemm_tuned` (k outer, jr inner): every 16-column
      slice of the panel for columns jc .. jc + NC - 1 and rows pc .. pc + KC - 1. */
  method PackBPanel(B: array2<int>, Bp: array<int>, pc: int, jc: int, KC: int, NC: int)
    requires 0 <= KC && 0 <= pc && pc + KC <= B.Length0
    requires 0 <= NC && NC % NR16 == 0 && 0 <= jc && jc + NC <= B.Length1
    requires KC * NC <= Bp.Length
    modifies Bp
    ensures BPanelPacked(Bp[..], NR16, KC, KC * NR16, B, pc, jc, NC / NR16)
    ensures forall p :: KC * NC <= p < Bp.Length ==> Bp[p] == old(Bp[p])
  {
    forall t | 0 <= t < NC / NR16 ensures BSliceAt(Bp[..], NR16, 0, KC * NR16, B, pc, jc, t) {
      RowFits(t, NC / NR16, KC * NR16);
      assert NC / NR16 * (KC * NR16) == KC * NC;
    }
    var k := 0;
    while k < KC
      invariant 0 <= k <= KC
      invariant BPanelPacked(Bp[..], NR16, k, KC * NR16, B, pc, jc, NC / NR16)
      invariant forall p :: KC * NC <= p < Bp.Length ==> Bp[p] == old(Bp[p])
    {
      PackBPanelRow(B, Bp, pc, jc, KC, NC, k);
      k := k + 1;
    }
  }

  /** The k loop of the B packing in `gemm_lazy`: one 16-column slice, rows pc .. pc + KC - 1. */
  method PackBSlice16(B: array2<int>, Bp: array<int>, bo: int, pc: int, col: int, KC: int)
    requires 0 <= KC && 0 <= pc && pc + KC <= B.Length0 && 0 <= col && col + NR16 <= B.Length1
    requires 0 <= bo && bo + KC * NR16 <= Bp.Length
    modifies Bp
    ensures BSlicePacked(Bp[bo .. bo + KC * NR16], NR16, B, pc, col, KC)
    ensures forall p :: 0 <= p < Bp.Length && !(bo <= p < bo + KC * NR16) ==> Bp[p] == old(Bp[p])
  {
    var k := 0;
    while k < KC
      invariant 0 <= k <= KC
      invariant BSlicePacked(Bp[bo .. bo + KC * NR16], NR16, B, pc, col, k)
      invariant forall p :: 0 <= p < Bp.Length && !(bo <= p < bo + KC * NR16) ==> Bp[p] == old(Bp[p])
    {
      PackBRow16(B, Bp, bo, pc, col, KC, k);
      k := k + 1;
    }
  }

  /** The B packing of `gemm_lazy` (jr outer over all n columns, k inner): the KC x n
      panel of B at rows pc .. pc + KC - 1 as n / 16 slices.  The buffer holds KC * NC
      entries, so the stores stay inside it only when n <= NC. */
  method PackBPanelLazy(B: array2<int>, Bp: array<int>, pc: int, n: int, KC: int)
    requires 0 <= KC && 0 <= pc && pc + KC <= B.Length0
    requires 0 <= n && n % NR16 == 0 && n <= B.Length1
    requires KC * n <= Bp.Length
    modifies Bp
    ensures BPanelPacked(Bp[..], NR16, KC, KC * NR16, B, pc, 0, n / NR16)
    ensures forall p :: KC * n <= p < Bp.Length ==> Bp[p] == old(Bp[p])
  {
    ghost var T := n / NR16;
    ghost var S := KC * NR16;
    var jr := 0;
    ghost var t := 0;
    while jr < n
      invariant 0 <= t <= T && jr == NR16 * t
      invariant BPanelPacked(Bp[..], NR16, KC, S, B, pc, 0, t)
      invariant forall p :: KC * n <= p < Bp.Length ==> Bp[p] == old(Bp[p])
    {
      var bo := (jr / NR16) * KC * NR16;
      assert jr / NR16 == t;
      assert bo == t * S;
      RowFits(t, T, S);
      assert T * S == KC * n;
      ghost var prev := Bp[..];
      PackBSlice16(B, Bp, bo, pc, jr, KC);
      BPanelKept(prev, Bp[..], NR16, KC, S, B, pc, 0, t);
      assert BSliceAt(Bp[..], NR16, KC, S, B, pc, 0, t);
      jr := jr + NR16;
      t := t + 1;
    }
  }
}
