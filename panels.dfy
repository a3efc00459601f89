/** Layout facts shared by the packers of both GEMM engines: 4 x 4 transposes of A blocks
    (SSE and NEON), where the four stores of a block land, and how packed slices sit in a
    panel buffer of equal-sized slices. */
module Panels {
  import opened GemmSpec
  import opened Lanes

  /** The four registers `_MM_TRANSPOSE4_PS` leaves after loading rows r0 .. r0 + 3 of A
      from column c0 hold columns c0 .. c0 + 3. */
  lemma SseColumns(A: array2<int>, r0: int, c0: int)
    requires 0 <= r0 && r0 + 4 <= A.Length0 && 0 <= c0 && c0 + 4 <= A.Length1
    ensures var t := SseTranspose4(Quad(RowSegment(A, r0, c0, 4), RowSegment(A, r0 + 1, c0, 4),
                                        RowSegment(A, r0 + 2, c0, 4), RowSegment(A, r0 + 3, c0, 4)));
      t.r0 == ColumnSegment(A, r0, c0, 4) && t.r1 == ColumnSegment(A, r0, c0 + 1, 4) &&
      t.r2 == ColumnSegment(A, r0, c0 + 2, 4) && t.r3 == ColumnSegment(A, r0, c0 + 3, 4)
  {
    var q := Quad(RowSegment(A, r0, c0, 4), RowSegment(A, r0 + 1, c0, 4),
                  RowSegment(A, r0 + 2, c0, 4), RowSegment(A, r0 + 3, c0, 4));
    var t := SseTranspose4(q);
    forall r | 0 <= r < 4 ensures Row(t, r) == ColumnSegment(A, r0, c0 + r, 4) {
      forall a | 0 <= a < 4 ensures Row(t, r)[a] == A[r0 + a, c0 + r] {
        assert Row(t, r)[a] == Row(q, a)[r];
      }
    }
    assert t.r0 == Row(t, 0) && t.r1 == Row(t, 1) && t.r2 == Row(t, 2) && t.r3 == Row(t, 3);
  }

  /** Offset d (from the first store) is written by one of the four stores of a block. */
  predicate InQuad(d: int, stride: int) {
    0 <= d < 4 || stride <= d < stride + 4 || 2 * stride <= d < 2 * stride + 4 || 3 * stride <= d < 3 * stride + 4
  }

  /** The four `_mm_storeu_ps` of a transposed block: register r lands at offset
      o + r * stride of the buffer seen from base. */
  method StoreQuad(t: Quad, Ap: array<int>, base: int, o: int, stride: int)
    requires Is4x4(t)
    requires 4 <= stride && 0 <= base && 0 <= o && base + o + 3 * stride + 4 <= Ap.Length
    modifies Ap
    ensures Ap[base..][o .. o + 4] == t.r0
    ensures Ap[base..][o + stride .. o + stride + 4] == t.r1
    ensures Ap[base..][o + 2 * stride .. o + 2 * stride + 4] == t.r2
    ensures Ap[base..][o + 3 * stride .. o + 3 * stride + 4] == t.r3
    ensures forall p :: 0 <= p < Ap.Length && !InQuad(p - base - o, stride) ==> Ap[p] == old(Ap[p])
    ensures forall d :: 0 <= d < Ap.Length - base && !InQuad(d - o, stride) ==> Ap[base..][d] == old(Ap[base..])[d]
  {
    StoreVec(t.r0, Ap, base + o);
    StoreVec(t.r1, Ap, base + o + stride);
    StoreVec(t.r2, Ap, base + o + 2 * stride);
    StoreVec(t.r3, Ap, base + o + 3 * stride);
    forall x | 0 <= x < 4
      ensures Ap[base..][o + x] == t.r0[x] && Ap[base..][o + stride + x] == t.r1[x]
      ensures Ap[base..][o + 2 * stride + x] == t.r2[x] && Ap[base..][o + 3 * stride + x] == t.r3[x]
    {
    }
    assert Ap[base..][o .. o + 4] == t.r0;
    assert Ap[base..][o + stride .. o + stride + 4] == t.r1;
    assert Ap[base..][o + 2 * stride .. o + 2 * stride + 4] == t.r2;
  }

  /** A packed slice stored at ao, viewed as slice t of a panel with slices of S entries. */
  lemma ASliceToPanel(a: seq<int>, mr: int, K: int, S: int, A: array2<int>, row0: int, pc: int, t: int)
    requires 0 <= t && 0 <= mr && 0 <= K && K * mr <= S && 0 <= t * S && t * S + S <= |a|
    requires 0 <= row0 + t * mr && row0 + t * mr + mr <= A.Length0 && 0 <= pc && pc + K <= A.Length1
    requires ASlicePacked(a[t * S..], mr, A, row0 + t * mr, pc, K)
    ensures ASliceAt(a, mr, K, S, A, row0, pc, t)
  {
    AKept(a[t * S..], a[t * S .. t * S + S], mr, A, row0 + t * mr, pc, K);
  }

  /** A packed B slice stored at t * S, viewed as slice t of a panel. */
  lemma BSliceToPanel(b: seq<int>, nr: int, K: int, S: int, B: array2<int>, pc: int, col0: int, t: int)
    requires 0 <= t && 0 <= nr && 0 <= K && K * nr <= S && 0 <= t * S && t * S + S <= |b|
    requires 0 <= pc && pc + K <= B.Length0 && 0 <= col0 + t * nr && col0 + t * nr + nr <= B.Length1
    requires BSlicePacked(b[t * S..], nr, B, pc, col0 + t * nr, K)
    ensures BSliceAt(b, nr, K, S, B, pc, col0, t)
  {
    BKept(b[t * S..], b[t * S .. t * S + S], nr, B, pc, col0 + t * nr, K);
  }

  /** Slices a packer left alone stay packed. */
  lemma PanelKept(prev: seq<int>, cur: seq<int>, mr: int, K: int, S: int, A: array2<int>, row0: int, pc: int, lo: int, hi: int, T: int)
    requires |prev| == |cur| && 0 <= S
    requires forall p :: 0 <= p < |cur| && !(lo <= p < hi) ==> cur[p] == prev[p]
    requires forall t :: 0 <= t < T ==> ASliceAt(prev, mr, K, S, A, row0, pc, t)
    requires T * S <= lo
    ensures forall t :: 0 <= t < T ==> ASliceAt(cur, mr, K, S, A, row0, pc, t)
  {
    forall t | 0 <= t < T ensures ASliceAt(cur, mr, K, S, A, row0, pc, t) {
      assert ASliceAt(prev, mr, K, S, A, row0, pc, t);
      RowFits(t, T, S);
      assert cur[t * S .. t * S + S] == prev[t * S .. t * S + S];
    }
  }

  /** Slices of a B panel other than t0 survive stores confined to slice t0. */
  lemma BPanelKept(prev: seq<int>, cur: seq<int>, nr: int, K: int, S: int, B: array2<int>, pc: int, col0: int, t0: int)
    requires |prev| == |cur| && 0 <= t0 && 0 <= S
    requires forall p :: 0 <= p < |cur| && !(t0 * S <= p < t0 * S + S) ==> cur[p] == prev[p]
    ensures forall t :: t != t0 && BSliceAt(prev, nr, K, S, B, pc, col0, t) ==> BSliceAt(cur, nr, K, S, B, pc, col0, t)
  {
    forall t | t != t0 && BSliceAt(prev, nr, K, S, B, pc, col0, t) ensures BSliceAt(cur, nr, K, S, B, pc, col0, t) {
      if t < t0 {
        RowsOrdered(t, t0, S);
      } else {
        RowsOrdered(t0, t, S);
      }
      assert cur[t * S .. t * S + S] == prev[t * S .. t * S + S];
    }
  }

  /** Panel bookkeeping around a kernel that packs (or re-reads) B slice t in place:
      with packB the packed prefix of the panel grows by slice t, without it the whole
      panel stays packed. */
  lemma BPanelAfterSlice(prev: seq<int>, cur: seq<int>, nr: int, K: int, S: int, B: array2<int>,
                         pc: int, col0: int, t: int, T: int, packB: bool)
    requires |prev| == |cur| && 0 <= t < T && 0 <= nr && 0 <= K && K * nr <= S && T * S <= |cur|
    requires 0 <= pc && pc + K <= B.Length0 && 0 <= col0 && col0 + T * nr <= B.Length1
    requires 0 <= t * S && t * S + S <= |cur| && col0 + t * nr + nr <= B.Length1 && 0 <= t * nr
    requires forall p :: 0 <= p < |cur| && !(t * S <= p < t * S + S) ==> cur[p] == prev[p]
    requires BSlicePacked(cur[t * S..], nr, B, pc, col0 + t * nr, K)
    requires packB ==> BPanelPacked(prev, nr, K, S, B, pc, col0, t)
    requires !packB ==> BPanelPacked(prev, nr, K, S, B, pc, col0, T)
    ensures packB ==> BPanelPacked(cur, nr, K, S, B, pc, col0, t + 1)
    ensures !packB ==> BPanelPacked(cur, nr, K, S, B, pc, col0, T)
  {
    BPanelKept(prev, cur, nr, K, S, B, pc, col0, t);
    BSliceToPanel(cur, nr, K, S, B, pc, col0, t);
  }

  /** The NEON sequence of the Apple packers (`vtrnq_f32`, `vget_low/high_f32`,
      `vcombine_f32`) leaves the same columns as the SSE macro. */
  lemma NeonColumns(A: array2<int>, r0: int, c0: int)
    requires 0 <= r0 && r0 + 4 <= A.Length0 && 0 <= c0 && c0 + 4 <= A.Length1
    ensures var t := NeonTranspose4(Quad(RowSegment(A, r0, c0, 4), RowSegment(A, r0 + 1, c0, 4),
                                         RowSegment(A, r0 + 2, c0, 4), RowSegment(A, r0 + 3, c0, 4)));
      t.r0 == ColumnSegment(A, r0, c0, 4) && t.r1 == ColumnSegment(A, r0, c0 + 1, 4) &&
      t.r2 == ColumnSegment(A, r0, c0 + 2, 4) && t.r3 == ColumnSegment(A, r0, c0 + 3, 4)
  {
    TransposesAgree(Quad(RowSegment(A, r0, c0, 4), RowSegment(A, r0 + 1, c0, 4),
                         RowSegment(A, r0 + 2, c0, 4), RowSegment(A, r0 + 3, c0, 4)));
    SseColumns(A, r0, c0);
  }

  /** Entry x of each of the four slice rows held from o (row r at o + r * mr) holds
      A[row + x, col + r]. */
  ghost predicate QuadEntry(a: seq<int>, mr: int, o: int, A: array2<int>, row: int, col: int, x: int)
    requires 0 <= o && o + 4 * mr <= |a| && 0 <= x < mr
    requires 0 <= row && row + mr <= A.Length0 && 0 <= col && col + 4 <= A.Length1
    reads A
  {
    a[o + x] == A[row + x, col] && a[o + mr + x] == A[row + x, col + 1] &&
    a[o + 2 * mr + x] == A[row + x, col + 2] && a[o + 3 * mr + x] == A[row + x, col + 3]
  }

  /** The state of the i loop of one k step of a transposing packer: entries 0 .. i - 1 of
      the four slice rows held from o hold rows row .. row + i - 1 of A at columns
      col .. col + 3. */
  ghost predicate QuadRowsPacked(a: seq<int>, mr: int, o: int, A: array2<int>, row: int, col: int, i: int)
    requires 0 <= o && o + 4 * mr <= |a| && 0 <= i <= mr
    requires 0 <= row && row + mr <= A.Length0 && 0 <= col && col + 4 <= A.Length1
    reads A
  {
    forall x :: 0 <= x < i ==> QuadEntry(a, mr, o, A, row, col, x)
  }

  /** A 4 x 4 block of columns col .. col + 3 stored at q = o + i (entries i .. i + 3 of the
      four rows) extends the filled prefix of the rows from i to i + 4 entries. */
  lemma QuadStored(prev: seq<int>, cur: seq<int>, mr: int, o: int, q: int, A: array2<int>, row: int, col: int, i: int)
    requires 0 <= i && i + 4 <= mr && q == o + i && 0 <= o && o + 4 * mr <= |cur| && |prev| == |cur|
    requires 0 <= row && row + mr <= A.Length0 && 0 <= col && col + 4 <= A.Length1
    requires forall d :: 0 <= d < |cur| && !InQuad(d - q, mr) ==> cur[d] == prev[d]
    requires cur[q .. q + 4] == ColumnSegment(A, row + i, col, 4)
    requires cur[q + mr .. q + mr + 4] == ColumnSegment(A, row + i, col + 1, 4)
    requires cur[q + 2 * mr .. q + 2 * mr + 4] == ColumnSegment(A, row + i, col + 2, 4)
    requires cur[q + 3 * mr .. q + 3 * mr + 4] == ColumnSegment(A, row + i, col + 3, 4)
    requires QuadRowsPacked(prev, mr, o, A, row, col, i)
    ensures QuadRowsPacked(cur, mr, o, A, row, col, i + 4)
  {
    forall x | 0 <= x < i + 4 ensures QuadEntry(cur, mr, o, A, row, col, x) {
      if x < i {
        assert QuadEntry(prev, mr, o, A, row, col, x);
        assert !InQuad(x - i, mr) && !InQuad(mr + x - i, mr);
        assert !InQuad(2 * mr + x - i, mr) && !InQuad(3 * mr + x - i, mr);
      } else {
        assert cur[q + x - i] == cur[q .. q + 4][x - i];
        assert cur[q + mr + x - i] == cur[q + mr .. q + mr + 4][x - i];
        assert cur[q + 2 * mr + x - i] == cur[q + 2 * mr .. q + 2 * mr + 4][x - i];
        assert cur[q + 3 * mr + x - i] == cur[q + 3 * mr .. q + 3 * mr + 4][x - i];
      }
    }
  }

  /** Row r of four filled rows held from o = k * mr is row k + r of the packed slice. */
  lemma QuadRow(cur: seq<int>, mr: int, A: array2<int>, row: int, pc: int, k: int, o: int, r: int)
    requires 0 <= mr && 0 <= k && o == k * mr && o + 4 * mr <= |cur| && 0 <= r < 4
    requires 0 <= row && row + mr <= A.Length0 && 0 <= pc && pc + k + 4 <= A.Length1
    requires QuadRowsPacked(cur, mr, o, A, row, pc + k, mr)
    ensures (k + r) * mr + mr <= |cur| && ARowPacked(cur, mr, k + r, 0, mr, A, row, pc)
  {
    assert (k + r) * mr == o + r * mr;
    var s := cur[o + r * mr .. o + r * mr + mr];
    forall x | 0 <= x < mr ensures s[x] == ColumnSegment(A, row, pc + k + r, mr)[x] {
      assert QuadEntry(cur, mr, o, A, row, pc + k, x);
      assert s[x] == cur[o + r * mr + x];
    }
  }

  /** Once the four rows from o = k * mr are filled, and nothing below o changed, the slice
      is packed through row k + 3. */
  lemma QuadRowsGrow(prev: seq<int>, cur: seq<int>, mr: int, A: array2<int>, row: int, pc: int, k: int, o: int)
    requires 0 <= mr && 0 <= k && o == k * mr && |prev| == |cur| && o + 4 * mr <= |cur|
    requires 0 <= row && row + mr <= A.Length0 && 0 <= pc && pc + k + 4 <= A.Length1
    requires ASlicePacked(prev, mr, A, row, pc, k)
    requires forall d :: 0 <= d < o ==> cur[d] == prev[d]
    requires QuadRowsPacked(cur, mr, o, A, row, pc + k, mr)
    ensures (k + 4) * mr <= |cur| && ASlicePacked(cur, mr, A, row, pc, k + 4)
  {
    assert (k + 4) * mr == o + 4 * mr;
    assert cur[..o] == prev[..o];
    AKept(prev, cur, mr, A, row, pc, k);
    QuadRows4(cur, mr, A, row, pc, k, o);
    AGrow4(cur, mr, A, row, pc, k);
  }

  /** The four filled rows from o = k * mr are rows k .. k + 3 of the packed slice. */
  lemma QuadRows4(cur: seq<int>, mr: int, A: array2<int>, row: int, pc: int, k: int, o: int)
    requires 0 <= mr && 0 <= k && o == k * mr && o + 4 * mr <= |cur|
    requires 0 <= row && row + mr <= A.Length0 && 0 <= pc && pc + k + 4 <= A.Length1
    requires QuadRowsPacked(cur, mr, o, A, row, pc + k, mr)
    ensures k * mr + mr <= |cur| && ARowPacked(cur, mr, k, 0, mr, A, row, pc)
    ensures (k + 1) * mr + mr <= |cur| && ARowPacked(cur, mr, k + 1, 0, mr, A, row, pc)
    ensures (k + 2) * mr + mr <= |cur| && ARowPacked(cur, mr, k + 2, 0, mr, A, row, pc)
    ensures (k + 3) * mr + mr <= |cur| && ARowPacked(cur, mr, k + 3, 0, mr, A, row, pc)
  {
    QuadRow(cur, mr, A, row, pc, k, o, 0);
    QuadRow(cur, mr, A, row, pc, k, o, 1);
    QuadRow(cur, mr, A, row, pc, k, o, 2);
    QuadRow(cur, mr, A, row, pc, k, o, 3);
  }

  /** The FMAs of step k add row k of the packed slices to the tile t: every cell minus the
      packed sum over k + 1 rows equals its old value minus the sum over k rows, as long as
      the first k rows of B are those the old sum read (prev). */
  lemma RankOneStep(t: seq<Vec>, a: seq<int>, mr: int, b: seq<int>, prev: seq<int>, nr: int, k: int)
    requires 0 < mr && 0 < nr && IsTile(t, mr, nr)
    requires 0 <= k && (k + 1) * mr <= |a| && (k + 1) * nr <= |b| && k * nr <= |prev|
    requires forall x :: 0 <= x < k * nr ==> b[x] == prev[x]
    ensures 0 <= k * mr && k * mr + mr <= |a| && 0 <= k * nr && k * nr + nr <= |b|
    ensures forall i, c :: 0 <= i < mr && 0 <= c < nr ==>
      RankOne(t, a[k * mr .. k * mr + mr], b[k * nr .. k * nr + nr])[i][c] - DotPP(a, mr, i, b, nr, c, k + 1)
        == t[i][c] - DotPP(a, mr, i, prev, nr, c, k)
  {
    RowFits(k, k + 1, mr);
    RowFits(k, k + 1, nr);
    var ar := a[k * mr .. k * mr + mr];
    var br := b[k * nr .. k * nr + nr];
    var r := RankOne(t, ar, br);
    forall i, c | 0 <= i < mr && 0 <= c < nr
      ensures r[i][c] - DotPP(a, mr, i, b, nr, c, k + 1) == t[i][c] - DotPP(a, mr, i, prev, nr, c, k)
    {
      assert ar[i] == a[k * mr + i] && br[c] == b[k * nr + c];
      RankOneCell(a, mr, b, prev, nr, k, i, c, t[i][c], r[i][c]);
    }
  }

  /** One cell of RankOneStep: the cell held u and now holds v, u plus the product of the
      step-k entries of row i of A and column c of B. */
  lemma RankOneCell(a: seq<int>, mr: int, b: seq<int>, prev: seq<int>, nr: int, k: int,
                    i: int, c: int, u: int, v: int)
    requires 0 <= i < mr && 0 <= c < nr && 0 <= k && (k + 1) * mr <= |a| && (k + 1) * nr <= |b| && k * nr <= |prev|
    requires 0 <= k * mr && k * mr + mr <= |a| && 0 <= k * nr && k * nr + nr <= |b|
    requires forall x :: 0 <= x < k * nr ==> b[x] == prev[x]
    requires v == u + a[k * mr + i] * b[k * nr + c]
    ensures v - DotPP(a, mr, i, b, nr, c, k + 1) == u - DotPP(a, mr, i, prev, nr, c, k)
  {
    DotPPPrefix(a, mr, i, b, prev, nr, c, k);
  }
}
