/** Lane semantics of the vector registers the GEMM kernels use.

    A register is the sequence of its lanes, lane 0 first: an AVX2 `__m256` has eight
    lanes, an SSE `__m128` or a NEON `float32x4_t` four.  Only the operations the
    packing routines and micro-kernels issue are modelled. */
module Lanes {

  type Vec = seq<int>

  /** `_mm256_set1_ps`, `_mm256_broadcast_ss` and (with a == 0) `_mm256_setzero_ps`. */
  function Splat(a: int, w: nat): (v: Vec)
    ensures |v| == w
    ensures forall l :: 0 <= l < w ==> v[l] == a
  {
    seq(w, _ => a)
  }

  /** `_mm256_fmadd_ps(a, b, c)`: lane-wise a * b + c (exact here, so fused or not is moot). */
  function Fmadd(a: Vec, b: Vec, c: Vec): (v: Vec)
    requires |a| == |b| == |c|
    ensures |v| == |c|
    ensures forall l :: 0 <= l < |c| ==> v[l] == a[l] * b[l] + c[l]
  {
    seq(|c|, l requires 0 <= l < |c| => a[l] * b[l] + c[l])
  }

  /** Four 4-lane registers: the rows r0..r3 of a 4 x 4 block. */
  datatype Quad = Quad(r0: Vec, r1: Vec, r2: Vec, r3: Vec)

  predicate Is4x4(q: Quad) {
    |q.r0| == 4 && |q.r1| == 4 && |q.r2| == 4 && |q.r3| == 4
  }

  function Row(q: Quad, a: int): Vec
    requires 0 <= a < 4
  {
    if a == 0 then q.r0 else if a == 1 then q.r1 else if a == 2 then q.r2 else q.r3
  }

  /** Lane b of row a of t is lane a of row b of q. */
  ghost predicate IsTransposeOf(t: Quad, q: Quad)
    requires Is4x4(t) && Is4x4(q)
  {
    forall a, b :: 0 <= a < 4 && 0 <= b < 4 ==> Row(t, a)[b] == Row(q, b)[a]
  }

  // --- SSE: the four shuffles `_MM_TRANSPOSE4_PS` expands to ---

  function UnpackLo(a: Vec, b: Vec): Vec
    requires |a| == 4 && |b| == 4
  {
    [a[0], b[0], a[1], b[1]]
  }

  function UnpackHi(a: Vec, b: Vec): Vec
    requires |a| == 4 && |b| == 4
  {
    [a[2], b[2], a[3], b[3]]
  }

  /** `_mm_movelh_ps(a, b)`: low halves of a then b. */
  function MoveLH(a: Vec, b: Vec): Vec
    requires |a| == 4 && |b| == 4
  {
    [a[0], a[1], b[0], b[1]]
  }

  /** `_mm_movehl_ps(a, b)`: high half of b, then high half of a. */
  function MoveHL(a: Vec, b: Vec): Vec
    requires |a| == 4 && |b| == 4
  {
    [b[2], b[3], a[2], a[3]]
  }

  /** `_MM_TRANSPOSE4_PS(r0, r1, r2, r3)` as the xmmintrin.h macro spells it. */
  function SseTranspose4(q: Quad): (t: Quad)
    requires Is4x4(q)
    ensures Is4x4(t) && IsTransposeOf(t, q)
  {
    var t0 := UnpackLo(q.r0, q.r1);
    var t2 := UnpackLo(q.r2, q.r3);
    var t1 := UnpackHi(q.r0, q.r1);
    var t3 := UnpackHi(q.r2, q.r3);
    Quad(MoveLH(t0, t2), MoveHL(t2, t0), MoveLH(t1, t3), MoveHL(t3, t1))
  }

  // --- NEON: vtrnq_f32 / vget_low_f32 / vget_high_f32 / vcombine_f32 ---

  /** `vtrnq_f32(a, b)`: val[0] interleaves the even lanes, val[1] the odd lanes. */
  function Trn(a: Vec, b: Vec): (Vec, Vec)
    requires |a| == 4 && |b| == 4
  {
    ([a[0], b[0], a[2], b[2]], [a[1], b[1], a[3], b[3]])
  }

  function Low(v: Vec): Vec
    requires |v| == 4
  {
    [v[0], v[1]]
  }

  function High(v: Vec): Vec
    requires |v| == 4
  {
    [v[2], v[3]]
  }

  function Combine(lo: Vec, hi: Vec): Vec
    requires |lo| == 2 && |hi| == 2
  {
    [lo[0], lo[1], hi[0], hi[1]]
  }

  /** The vtrn/vcombine sequence of `pack_A_panel_generic` and `pack_A_slice`. */
  function NeonTranspose4(q: Quad): (t: Quad)
    requires Is4x4(q)
    ensures Is4x4(t) && IsTransposeOf(t, q)
  {
    var t01 := Trn(q.r0, q.r1);
    var t23 := Trn(q.r2, q.r3);
    Quad(Combine(Low(t01.0), Low(t23.0)),
         Combine(Low(t01.1), Low(t23.1)),
         Combine(High(t01.0), High(t23.0)),
         Combine(High(t01.1), High(t23.1)))
  }

  /** Both instruction sequences compute the same register contents. */
  lemma TransposesAgree(q: Quad)
    requires Is4x4(q)
    ensures SseTranspose4(q) == NeonTranspose4(q)
  {
    var s, t := SseTranspose4(q), NeonTranspose4(q);
    forall a | 0 <= a < 4 ensures Row(s, a) == Row(t, a) {
      assert forall b :: 0 <= b < 4 ==> Row(s, a)[b] == Row(q, b)[a] == Row(t, a)[b];
    }
    assert Row(s, 0) == Row(t, 0) && Row(s, 1) == Row(t, 1) && Row(s, 2) == Row(t, 2) && Row(s, 3) == Row(t, 3);
  }

  // --- Register tiles: a kernel's accumulators as rows of lanes ---

  /** rows registers (or rows of a local array) of cols lanes each. */
  predicate IsTile(c: seq<Vec>, rows: int, cols: int) {
    |c| == rows && forall i :: 0 <= i < rows ==> |c[i]| == cols
  }

  /** The rows x cols block of C at (row, col), as the kernels' accumulator loads read it. */
  function LoadTile(C: array2<int>, row: int, col: int, rows: nat, cols: nat): (c: seq<Vec>)
    requires 0 <= row && row + rows <= C.Length0 && 0 <= col && col + cols <= C.Length1
    reads C
    ensures IsTile(c, rows, cols)
    ensures forall i, j :: 0 <= i < rows && 0 <= j < cols ==> c[i][j] == C[row + i, col + j]
  {
    seq(rows, i requires 0 <= i < rows reads C => seq(cols, j requires 0 <= j < cols reads C => C[row + i, col + j]))
  }

  /** The accumulators a kernel starts from: zero registers on the first K-block
      (first_k), the C tile otherwise. */
  function Accumulators(C: array2<int>, row: int, col: int, rows: nat, cols: nat, firstK: bool): (c: seq<Vec>)
    requires 0 <= row && row + rows <= C.Length0 && 0 <= col && col + cols <= C.Length1
    reads C
    ensures IsTile(c, rows, cols)
    ensures forall i, j :: 0 <= i < rows && 0 <= j < cols ==> c[i][j] == if firstK then 0 else C[row + i, col + j]
  {
    if firstK then seq(rows, _ => Splat(0, cols)) else LoadTile(C, row, col, rows, cols)
  }

  /** The closing stores of a kernel: the rows x cols tile c lands at (row, col) of C. */
  method StoreTile(c: seq<Vec>, rows: int, cols: int, C: array2<int>, row: int, col: int)
    requires IsTile(c, rows, cols)
    requires 0 <= row && row + rows <= C.Length0 && 0 <= col && col + cols <= C.Length1
    modifies C
    ensures forall i, j :: 0 <= i < C.Length0 && 0 <= j < C.Length1 ==>
      C[i, j] == if row <= i < row + rows && col <= j < col + cols then c[i - row][j - col] else old(C[i, j])
  {
    forall i, j | row <= i < row + rows && col <= j < col + cols {
      C[i, j] := c[i - row][j - col];
    }
  }

  /** One k step of a vector kernel: row i of the tile gets Fmadd(Splat(a[i]), b, c[i]). */
  function RankOne(c: seq<Vec>, a: seq<int>, b: Vec): (r: seq<Vec>)
    requires IsTile(c, |a|, |b|)
    ensures IsTile(r, |a|, |b|)
    ensures forall i, l :: 0 <= i < |a| && 0 <= l < |b| ==> r[i][l] == c[i][l] + a[i] * b[l]
  {
    seq(|a|, i requires 0 <= i < |a| => Fmadd(Splat(a[i], |b|), b, c[i]))
  }

  /** A vector store (`_mm_storeu_ps`, `_mm256_storeu_ps`, `vst1q_f32`): the lanes of v
      land at offsets o .. o + |v| - 1 of M. */
  method StoreVec(v: Vec, M: array<int>, o: int)
    requires 0 <= o && o + |v| <= M.Length
    modifies M
    ensures forall t :: 0 <= t < M.Length ==> M[t] == if o <= t < o + |v| then v[t - o] else old(M[t])
  {
    forall t | o <= t < o + |v| {
      M[t] := v[t - o];
    }
  }
}
