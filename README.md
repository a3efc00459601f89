# Progressive GEMM engines, verified

This project is a Dafny model of the single-precision matrix-multiply (GEMM) exercises of the
DATA34100 course material, with the properties their comments and benchmark checks rely on proved.

- **The Intel AVX2/FMA engine** is `gemm_exercise_intel/gemm_progressive.c`. It has seven stages:
  - naive;
  - blocked with a scalar 8 x 8 micro-kernel;
  - A packed through SSE 4 x 4 transposes with an AVX2 8 x 8 kernel;
  - B packed on first use;
  - the hybrid 6 x 16 / 4 x 16 / scalar row cascade;
  - tuned blocking;
  - lazy A packing.
- **The Apple AMX engine** is `gemm_exercise/gemm_progressive.c`, with the operand encoders of
  `gemm_exercise/amx.h`. Its stages are naive, blocked, A packed through NEON transposes, A and B
  packed, tuned and lazy; every stage after the naive one drives the AMX X/Y/Z register file with
  32 x 32 kernels.
- **The lecture GEMMs** are `cpu/lecture10_roofline/examples/gemm.cpp`,
  `cpu/lecture9_locality/examples/mmm_blocked.cpp` and
  `cpu/lecture9_locality/examples/mmm_naive.cpp`. They are naive and 32-blocked triple loops over
  three global N x N arrays.
- **The XOR column swizzle** is `cpu/lecture9_locality/examples/swizzle_demo.cpp`.
- **The stub half-precision converter** is `layout/cuda_stubs/cuda_fp16.h`. It converts between
  binary32 and binary16 bit patterns, in the sense of section 3.4 of IEEE 754-2008.

Values are exact integers, so the source's `float` and `double` become `int`. The source compares
each stage with a reference within a tolerance of 1e-3; with exact values that check becomes
equality. Every stage except the Intel `gemm_lazy` is proved to leave C equal to the product that
`gemm_naive` computes (`GemmSpec.IsProduct`), under the stage's own requirements on n. The Intel
`gemm_lazy` gets the product only when n mod 6 is 0 or 4; the other admissible n leave rows
unwritten (see "## Findings").

How the pieces are modelled:

- **Matrices** A, B and C are `array2<int>` of n x n. Row-major pointer arithmetic becomes (row, column)
  offsets.
- **Packing buffers** are `array<int>`. Their contents are described by layout equations
  (`GemmSpec.ASlicePacked`, `GemmSpec.BSlicePacked`, `GemmSpec.ASliceAt`, `GemmSpec.BSliceAt`).
- **SIMD registers** are sequences of lanes (module `Lanes`).
- **The AMX unit** is a class with X and Y files of 8 x 16 lanes and a Z file of 64 x 16 lanes
  (`AmxUnit.Unit`). Its instructions take the 64-bit operand words built by the encoders of `amx.h`
  (module `Amx`).
- **The lecture programs' globals** are the fields of `Lecture.Globals`. The swizzle demonstration's
  globals are the fields of `Swizzle.Matrices`.

Module layout:

- `gemm_spec.dfy` holds the specification shared by every engine: the dot product, the K-block
  accumulation rule and the packed-layout equations.
- `lanes.dfy` and `panels.dfy` hold the lane semantics and the packer bookkeeping.
- The Intel engine is in `intel_kernels.dfy`, `intel_packing.dfy`, `intel_gemm.dfy` (stages 1 to 4)
  and `intel_hybrid.dfy` (stages 5 to 7).
- The Apple engine is in `amx.dfy`, `amx_unit.dfy`, `apple_kernels.dfy`, `apple_packing.dfy` and
  `apple_gemm.dfy`.
- The remaining sources are in `lecture.dfy`, `swizzle.dfy` and `fp16.dfy`.

## Model

Abbreviations in the third column:

- "Seed" means zero when `first_k` is set and the old C entry otherwise.
- "the K-block" of a call is the sum over its k range of A[i, k] * B[k, j].
- "every other cell unchanged" means that no entry of C outside the named region changes.

| member | source | states |
|---|---|---|
| GemmSpec.DotMMSplit | gemm_exercise_intel/gemm_progressive.c:160-162 | the dot product over [lo, hi) is the sum of the dot products over [lo, mid) and [mid, hi), for any split point: K-blocking does not change the sum |
| GemmSpec.AccChain | gemm_exercise_intel/gemm_progressive.c:161-162 | a cell holding the product over [0, lo) that receives the K-block [lo, hi), zeroed exactly when lo == 0 (first_k), ends with the product over [0, hi) |
| GemmSpec.ProgressStep | gemm_exercise/gemm_progressive.c:170-172 | one more non-empty K-block [h, h + K), applied with first_k exactly when h == 0, moves a cell from "untouched or product over [0, h)" to the product over [0, h + K) |
| GemmSpec.DotPMIsDotMM | gemm_exercise_intel/gemm_progressive.c:241-252 | the kernel sum read from a packed A slice (a[k * mr + i]) equals the plain dot product of row row + i of A and column j of B over [pc, pc + K) |
| GemmSpec.DotPPIsDotPM | gemm_exercise_intel/gemm_progressive.c:457-473 | reading B from a packed B slice (b[k * nr + j]) instead of B itself gives the same sum |
| GemmSpec.DotMPIsDotMM | gemm_exercise_intel/gemm_progressive.c:581-583 | the scalar fallback's sum (strided A row times a packed B column) is the plain dot product over the K-block |
| GemmSpec.DotPPPrefix | gemm_exercise_intel/gemm_progressive.c:457-459 | a kernel over K steps reads only the first K rows of the packed B slice: buffers that agree there give the same sum |
| GemmSpec.AGrow | gemm_exercise_intel/gemm_progressive.c:431-438 | a packed A slice of k rows, kept in place, plus a fully written row k is a packed slice of k + 1 rows |
| GemmSpec.BGrow | gemm_exercise_intel/gemm_progressive.c:547-554 | likewise for a packed B slice: k packed rows kept plus a written row k give k + 1 packed rows |
| GemmSpec.AGrow4 | gemm_exercise_intel/gemm_progressive.c:486-496 | four complete rows k .. k + 3 after a packed prefix of k rows give a packed prefix of k + 4 rows (one step of a transposing packer) |
| GemmSpec.ASliceFrom | gemm_exercise_intel/gemm_progressive.c:276 | slice t of a packed A panel, seen from its first entry t * S, is a packed slice for rows row0 + t * mr .. (what the kernel receives as `A_packed + (ir / MR8) * MR8 * KC`) |
| GemmSpec.BSliceFrom | gemm_exercise_intel/gemm_progressive.c:368 | slice t of a packed B panel, seen from t * S, is a packed slice for columns col0 + t * nr .. (`B_packed + (jr / NR8) * KC * NR8`) |
| Lanes.Splat | gemm_exercise_intel/gemm_progressive.c:229 | definition of `_mm256_set1_ps` / `_mm256_setzero_ps`: every one of the w lanes holds the broadcast value |
| Lanes.Fmadd | gemm_exercise_intel/gemm_progressive.c:244 | definition of `_mm256_fmadd_ps`: lane l of the result is a[l] * b[l] + c[l], exactly |
| Lanes.SseTranspose4 | gemm_exercise_intel/gemm_progressive.c:213 | the unpack/movelh/movehl sequence of `_MM_TRANSPOSE4_PS` leaves the transpose: lane b of register a is lane a of input register b |
| Lanes.NeonTranspose4 | gemm_exercise/gemm_progressive.c:223-229 | the vtrnq / vget_low / vget_high / vcombine sequence of the Apple packers also leaves the exact 4 x 4 transpose |
| Lanes.TransposesAgree | gemm_exercise/gemm_progressive.c:223-229 | the NEON sequence and the SSE macro compute identical registers for every input |
| Lanes.LoadTile | gemm_exercise_intel/gemm_progressive.c:231-238 | definition of the accumulator loads: lane j of register i is C[row + i, col + j] |
| Lanes.Accumulators | gemm_exercise_intel/gemm_progressive.c:228-239 | definition of the kernels' starting registers: all zero when first_k, the C tile otherwise (C is not read when first_k) |
| Lanes.StoreTile | gemm_exercise_intel/gemm_progressive.c:254-261 | the closing stores: the rows x cols tile lands at (row, col) of C; every other cell unchanged |
| Lanes.RankOne | gemm_exercise_intel/gemm_progressive.c:244-251 | one k step of a vector kernel: cell (i, l) gains a[i] * b[l], for every row and lane |
| Lanes.StoreVec | gemm_exercise_intel/gemm_progressive.c:215-218 | a vector store: the lanes land at offsets o .. o + w - 1 of the buffer and nothing else changes |
| Panels.SseColumns | gemm_exercise_intel/gemm_progressive.c:208-213 | loading rows r0 .. r0 + 3 of A from column c0 and transposing leaves columns c0 .. c0 + 3 of A in the four registers |
| Panels.NeonColumns | gemm_exercise/gemm_progressive.c:218-224 | the NEON sequence applied to the same four loads leaves the same four columns |
| Panels.StoreQuad | gemm_exercise_intel/gemm_progressive.c:215-218 | the four stores of a transposed block put register r at offset o + r * stride; every other buffer entry unchanged |
| Panels.ASliceToPanel | gemm_exercise_intel/gemm_progressive.c:199 | a packed slice written at t * S is slice t of the panel (`dst = A_packed + (ir / MR8) * MR8 * KC`) |
| Panels.BSliceToPanel | gemm_exercise_intel/gemm_progressive.c:368 | a packed B slice written at t * S is slice t of the B panel |
| Panels.PanelKept | gemm_exercise_intel/gemm_progressive.c:198-200 | packing one slice leaves the slices packed before it packed |
| Panels.BPanelKept | gemm_exercise_intel/gemm_progressive.c:367-368 | stores confined to B slice t0 leave every other packed B slice packed |
| Panels.BPanelAfterSlice | gemm_exercise_intel/gemm_progressive.c:366-373 | after a kernel on B slice t, with pack_B the packed prefix of the panel grows to t + 1 slices, and without pack_B the whole panel stays packed |
| Panels.QuadStored | gemm_exercise_intel/gemm_progressive.c:204-219 | one stored 4 x 4 block at entry i of four slice rows extends the filled part of those rows from i to i + 4 entries, each entry holding its A value |
| Panels.QuadRowsGrow | gemm_exercise_intel/gemm_progressive.c:203-206 | once the four slice rows from k * mr are completely filled and nothing below changed, the slice is packed through row k + 3 |
| Panels.RankOneStep | gemm_exercise_intel/gemm_progressive.c:332-339 | the FMAs of step k add the step-k term of the packed sum: every cell minus the packed sum over k + 1 rows equals its old value minus the sum over k rows |
| IntelKernels.ScalarRank1 | gemm_exercise_intel/gemm_progressive.c:143-150 | one k step of `microkernel_scalar`: every local c[i][j] gains A[row + i, k] * B[k, col + j] |
| IntelKernels.ScalarTile | gemm_exercise_intel/gemm_progressive.c:133-150 | after the initialisation and the k loop, local c[i][j] is Seed + the K-block of cell (row + i, col + j) |
| IntelKernels.MicrokernelScalar | gemm_exercise_intel/gemm_progressive.c:127-155 | `microkernel_scalar` sets each cell of its 8 x 8 region to Seed + the K-block; every other cell unchanged |
| IntelKernels.PackedATimesB | gemm_exercise_intel/gemm_progressive.c:241-252 | the k loop of `microkernel_8x8` adds to each register lane the packed-A-times-B sum of its cell |
| IntelKernels.PackedATimesPackedB | gemm_exercise_intel/gemm_progressive.c:457-473 | the k loop of the 6 x 16 / 4 x 16 kernels adds the packed-times-packed sum to each accumulator lane |
| IntelKernels.Microkernel8x8 | gemm_exercise_intel/gemm_progressive.c:224-262 | `microkernel_8x8` sets each cell of its 8 x 8 region to Seed + the sum read from the packed A slice and B; every other cell unchanged |
| IntelKernels.PackingStep | gemm_exercise_intel/gemm_progressive.c:323-340 | one k step of `microkernel_8x8_pack`: with pack_B, row k of the B slice gets written and the packed prefix grows by one row; without it, the buffer is untouched; either way the tile gains the step-k term read from the slice |
| IntelKernels.PackingATimesB | gemm_exercise_intel/gemm_progressive.c:323-340 | the whole k loop: with pack_B the B slice ends packed; the accumulators gain the packed-times-packed sum over the slice as it stands afterwards |
| IntelKernels.Microkernel8x8Pack | gemm_exercise_intel/gemm_progressive.c:303-350 | `microkernel_8x8_pack` sets its 8 x 8 region to Seed + the sum over the packed A and B slices; with pack_B the B slice is left packed; without it the B buffer is unchanged; only the slice's entries can change |
| IntelKernels.Microkernel6x16 | gemm_exercise_intel/gemm_progressive.c:441-481 | `microkernel_6x16` sets each cell of its 6 x 16 region to Seed + the packed-times-packed sum; every other cell unchanged |
| IntelKernels.Microkernel4x16 | gemm_exercise_intel/gemm_progressive.c:499-529 | `microkernel_4x16`: the same for a 4 x 16 region |
| IntelPacking.TransposeBlock | gemm_exercise_intel/gemm_progressive.c:205-218 | the load/transpose/store block leaves column c0 + r of rows r0 .. r0 + 3 at offset o + r * stride; nothing outside the four stores changes |
| IntelPacking.PackASlice4Step | gemm_exercise_intel/gemm_progressive.c:486-496 | one k step of `pack_A_slice_4` extends the packed slice from k to k + 4 rows; nothing outside the slice changes |
| IntelPacking.PackASlice4 | gemm_exercise_intel/gemm_progressive.c:484-497 | `pack_A_slice_4` leaves dst[k * 4 + r] == A[row + r, pc + k] for r < 4, k < KC (KC a multiple of 4); nothing outside the slice changes |
| IntelPacking.PackBlock8 | gemm_exercise_intel/gemm_progressive.c:204-219 | one i step of `pack_A_panel_8x8`: the four slice rows from o are filled through entry i + 3; only those rows change |
| IntelPacking.PackASlice8Step | gemm_exercise_intel/gemm_progressive.c:203-220 | one k step (both i blocks) extends the packed 8-row slice from k to k + 4 rows |
| IntelPacking.PackASlice8 | gemm_exercise_intel/gemm_progressive.c:199-221 | the k loop for one slice leaves A_packed[ao + k * 8 + i] == A[row + i, pc + k] for i < 8, k < KC |
| IntelPacking.PackAPanel8x8 | gemm_exercise_intel/gemm_progressive.c:196-222 | `pack_A_panel_8x8` leaves A_packed[t * 8 * KC + k * 8 + i] == A[ic + 8t + i, pc + k] for every slice t < MC / 8, requiring KC % 4 == 0; entries past MC * KC keep their values |
| IntelPacking.PackASlice6Step | gemm_exercise_intel/gemm_progressive.c:431-438 | the six stores of step k extend the packed 6-row slice by row k |
| IntelPacking.PackASlice6 | gemm_exercise_intel/gemm_progressive.c:430-439 | `pack_A_slice_6` leaves dst[k * 6 + r] == A[row + r, pc + k] for r < 6, k < KC; nothing outside the slice changes |
| IntelPacking.PackBRow16 | gemm_exercise_intel/gemm_progressive.c:549-552 | the two 8-lane load/store pairs write row k of a 16-column B slice, extending its packed prefix; no entry outside that row changes |
| IntelPacking.PackBPanelRow | gemm_exercise_intel/gemm_progressive.c:548-553 | the jr loop writes row k of every 16-column slice of the panel: the packed prefix of each slice grows to k + 1 rows, every entry outside row k of a slice keeps its value, and so do the entries past KC * NC |
| IntelPacking.PackBPanel | gemm_exercise_intel/gemm_progressive.c:547-554 | the B packing of `gemm_kernel` leaves B_packed[(jr / 16) * KC * 16 + k * 16 + j] == B[pc + k, jc + jr + j] for every slice, k < KC, j < 16; entries past KC * NC keep their values |
| IntelPacking.PackBSlice16 | gemm_exercise_intel/gemm_progressive.c:695-700 | the k loop of the lazy B packing leaves one 16-column slice packed; nothing outside it changes |
| IntelPacking.PackBPanelLazy | gemm_exercise_intel/gemm_progressive.c:694-701 | the lazy B packing leaves all n / 16 slices packed and the entries past KC * n unchanged; the stores stay inside the KC x NC buffer only when n <= NC, which it requires |
| IntelGemm.NaiveDot | gemm_exercise_intel/gemm_progressive.c:103-106 | the sum loop returns the dot product of row i of A and column j of B over [0, n) |
| IntelGemm.GemmNaive | gemm_exercise_intel/gemm_progressive.c:100-110 | `gemm_naive` overwrites every C entry with its dot product: C is the product. The Apple file's `gemm_naive` (gemm_exercise/gemm_progressive.c:84-94) is the same code |
| IntelGemm.BlockedColumn | gemm_exercise_intel/gemm_progressive.c:165-171 | the guarded ir loop applies the K-block to column block col .. col + 7 for rows ic .. min(ic + MC, n) - 1; every other cell unchanged |
| IntelGemm.BlockedBlock | gemm_exercise_intel/gemm_progressive.c:164-172 | the guarded jr loop applies the K-block to the MC x NC block clipped to n |
| IntelGemm.BlockedColumnBlock | gemm_exercise_intel/gemm_progressive.c:163-173 | the ic loop applies the K-block to every row of the column block |
| IntelGemm.BlockedColumnPanel | gemm_exercise_intel/gemm_progressive.c:161-174 | the pc loop, first block zeroing, leaves the column block holding the full product |
| IntelGemm.GemmBlocked | gemm_exercise_intel/gemm_progressive.c:157-176 | `gemm_blocked` leaves C equal to the product for n a multiple of KC = 64 (KC is not guarded) |
| IntelGemm.Tile8x8 | gemm_exercise_intel/gemm_progressive.c:276-278 | the kernel call on packed slice ir / 8 applies the K-block [pc, pc + KC) to its 8 x 8 tile |
| IntelGemm.PackARow | gemm_exercise_intel/gemm_progressive.c:275-279 | the jr loop applies the K-block to rows row .. row + 7, columns jc .. jc + NC - 1 |
| IntelGemm.PackAPanelTimesB | gemm_exercise_intel/gemm_progressive.c:274-280 | the ir loop applies the K-block to the MC x NC block |
| IntelGemm.PackAColumnBlock | gemm_exercise_intel/gemm_progressive.c:272-281 | pack, then kernels, for every ic: the K-block reaches all rows of the column block |
| IntelGemm.PackAColumnPanel | gemm_exercise_intel/gemm_progressive.c:270-282 | the pc loop leaves the column block holding the full product |
| IntelGemm.GemmPackA | gemm_exercise_intel/gemm_progressive.c:264-285 | `gemm_pack_a` leaves C equal to the product for n a multiple of 512 (MC and NC are unguarded) |
| IntelGemm.Tile8x8Pack | gemm_exercise_intel/gemm_progressive.c:369-373 | a `microkernel_8x8_pack` call applies the K-block to its tile; afterwards B slice bo is packed (written with pack_B, required already packed without) |
| IntelGemm.PackBRowStep | gemm_exercise_intel/gemm_progressive.c:367-374 | one jr step: with first_ir the panel's packed prefix grows by slice jr / 8; otherwise the whole panel stays packed |
| IntelGemm.PackBRowStrip | gemm_exercise_intel/gemm_progressive.c:366-374 | the jr loop for one A slice: with first_ir the panel ends fully packed; without it, it must be (and stays) fully packed; the tile row gets the K-block |
| IntelGemm.PackBPanelTimesB | gemm_exercise_intel/gemm_progressive.c:365-375 | the ir loop: ir == 0 packs every B slice before any later ir reads it; the MC x NC block gets the K-block |
| IntelGemm.PackBRowBlock | gemm_exercise_intel/gemm_progressive.c:364-376 | the jc loop applies the K-block to rows ic .. ic + MC - 1 in every column |
| IntelGemm.PackBRowPanel | gemm_exercise_intel/gemm_progressive.c:360-377 | the pc loop leaves rows ic .. ic + MC - 1 holding the full product |
| IntelGemm.GemmPackB | gemm_exercise_intel/gemm_progressive.c:352-381 | `gemm_pack_b` leaves C equal to the product for n a multiple of 512 |
| IntelHybrid.CoveredAll | gemm_exercise_intel/gemm_progressive.c:557-574 | with the scalar tail every row of an mc-row block is reached; without it, all rows are reached if and only if mc mod 6 is 0 or 4 |
| IntelHybrid.Tile16 | gemm_exercise_intel/gemm_progressive.c:561-563 | a 6 x 16 or 4 x 16 kernel call on packed slices applies the K-block [pc, pc + 64) to its tile |
| IntelHybrid.Strip16 | gemm_exercise_intel/gemm_progressive.c:560-564 | a jr loop of the cascade applies the K-block to mr rows across columns jc .. jc + NC - 1 |
| IntelHybrid.ScalarDot | gemm_exercise_intel/gemm_progressive.c:580-583 | the scalar fallback's k loop returns Seed + the K-block of its cell, read from packed B |
| IntelHybrid.ScalarSegment | gemm_exercise_intel/gemm_progressive.c:578-585 | the j loop applies the K-block to 16 entries of one row; every other cell unchanged |
| IntelHybrid.ScalarRow | gemm_exercise_intel/gemm_progressive.c:577-586 | the jr loop applies the K-block to one row across the column panel |
| IntelHybrid.ScalarRows | gemm_exercise_intel/gemm_progressive.c:576-587 | the scalar tail applies the K-block to rows lo .. hi - 1 |
| IntelHybrid.SixSlice | gemm_exercise_intel/gemm_progressive.c:559 | slice ir / 6 is packed when jc == 0 and extends the packed panel; otherwise the buffer is unchanged and must hold it already |
| IntelHybrid.SixStep | gemm_exercise_intel/gemm_progressive.c:559-564 | one ir step of the 6-row loop applies the K-block to its 6 rows |
| IntelHybrid.SixLoop | gemm_exercise_intel/gemm_progressive.c:558-565 | the 6-row loop stops at ir == (mc / 6) * 6, having applied the K-block to exactly rows ic .. ic + ir - 1 |
| IntelHybrid.FourEdge | gemm_exercise_intel/gemm_progressive.c:567-574 | the 4-row edge applies the K-block to 4 rows, its slice packed on the first jc |
| IntelHybrid.EdgeAndTail | gemm_exercise_intel/gemm_progressive.c:566-587 | after the 6-row loop: the 4-row edge if at least 4 rows are left, then (with the tail) scalar rows, together reaching every row when the tail is present |
| IntelHybrid.Cascade | gemm_exercise_intel/gemm_progressive.c:557-587 | the whole 6 -> 4 -> scalar cascade applies the K-block to exactly the first Covered(mc, tail) rows of the block and leaves the A block packed |
| IntelHybrid.HybridRowBlock | gemm_exercise_intel/gemm_progressive.c:545-588 | the jc loop (B packing, then the cascade reusing the A slices packed on jc == 0) applies the K-block to the reached rows in every column |
| IntelHybrid.HybridRowPanel | gemm_exercise_intel/gemm_progressive.c:543-589 | the pc loop leaves the reached rows of the block holding the full product; the others unchanged |
| IntelHybrid.HybridBlocks | gemm_exercise_intel/gemm_progressive.c:541-590 | the ic loop: when the cascade reaches every row of an MC-row block, C ends equal to the product |
| IntelHybrid.GemmKernel | gemm_exercise_intel/gemm_progressive.c:532-594 | `gemm_kernel` (with scalar tail) leaves C equal to the product for n a multiple of 512 |
| IntelHybrid.GemmTuned | gemm_exercise_intel/gemm_progressive.c:619-665 | `gemm_tuned` (no tail, MC = NC = 1024) leaves C equal to the product for n a multiple of 1024, since 1024 mod 6 == 4 |
| IntelHybrid.LazyRowBlock | gemm_exercise_intel/gemm_progressive.c:703-726 | the ic loop of `gemm_lazy` for one pc, packing each A slice just before use, applies the K-block to the reached rows of the single n-row block |
| IntelHybrid.LazyPanels | gemm_exercise_intel/gemm_progressive.c:690-727 | the pc loop of `gemm_lazy` leaves the reached rows holding the full product |
| IntelHybrid.Lazy | gemm_exercise_intel/gemm_progressive.c:681-731 | `gemm_lazy` with or without a tail: rows below Covered(n, tail) hold the product, the other rows keep their values |
| IntelHybrid.GemmLazy | gemm_exercise_intel/gemm_progressive.c:681-731 | `gemm_lazy` as written (n <= 1024, n a multiple of 64): the rows it reaches hold the product, the rest are untouched, and C is the product when n mod 6 is 0 or 4 |
| IntelHybrid.LazyMissesRows | gemm_exercise_intel/gemm_progressive.c:719-725 | n = 128 meets the stage's requirements, yet the cascade reaches only 126 rows |
| IntelHybrid.GemmLazyWithTail | gemm_exercise_intel/gemm_progressive.c:576-587 | `gemm_lazy` followed by `gemm_kernel`'s scalar tail after the 4-row edge leaves C equal to the product for every admissible n |
| Amx.RegCount | gemm_exercise/amx.h:83-98 | a load/store operand moves one, two (bit 62) or four (bits 62 and 60) registers |
| Amx.RegIndex | gemm_exercise/amx.h:74-76 | the register field of an operand is an X/Y register below 8 |
| Amx.RowIndex | gemm_exercise/amx.h:100-103 | the row field of a Z load/store operand is a Z row below 64 |
| Amx.ZRowIndex | gemm_exercise/amx.h:126 | the z_row field of an FMA32 operand is below 64 |
| Amx.XOffset | gemm_exercise/amx.h:127 | the x_offset field is a byte offset below 512 |
| Amx.YOffset | gemm_exercise/amx.h:128 | the y_offset field is a byte offset below 512 |
| Amx.Index | gemm_exercise/gemm_progressive.c:120 | a C `int` row index below 64 (`j * 4 + r`) converts to a `uint64_t` below 64 |
| Amx.AddressOperand | gemm_exercise/amx.h:74-76 | `ldx_operand` (and the identical ldy/ldz/stz builders): for a pointer below 2^56 and an index below 8, both fields decode back |
| Amx.RowOperandFields | gemm_exercise/amx.h:111-113 | as a Z operand, a pointer below 2^56 and a row below 64 decode back from the 6-bit row field, and the operand moves one row |
| Amx.RowOperandIndex | gemm_exercise/gemm_progressive.c:120-121 | the Z row the kernels pass is the row the LDZ/STZ addresses, one row at a time |
| Amx.RegOperandIndex | gemm_exercise/gemm_progressive.c:347-348 | the X register (0 or 1) the pack_B stores pass is the register the STX reads |
| Amx.MultipleOperand | gemm_exercise/amx.h:83-89 | `ldx_multiple` / `ldy_multiple`: the fields decode as in the single form and two registers move |
| Amx.Multiple4Operand | gemm_exercise/amx.h:92-98 | `ldx_multiple4` / `ldy_multiple4`: the fields decode and four registers move |
| Amx.MultipleFlags | gemm_exercise/amx.h:83-98 | the pair form is the single form with bit 62 set; the four-register form additionally sets bit 60 |
| Amx.Fma32Operand | gemm_exercise/amx.h:130-132 | `fma32_operand`: for z_row < 64 and offsets < 512 the three fields decode back, and neither skip_z (bit 27) nor vector mode (bit 63) is set |
| Amx.Fma32OperandSkipZ | gemm_exercise/amx.h:134-136 | `fma32_operand_skip_z`: the same fields decode back and skip_z is set |
| Amx.SkipZFlag | gemm_exercise/amx.h:134-136 | the skip_z form is exactly the plain form with bit 27 set |
| Amx.PointerBit56Collides | gemm_exercise/amx.h:75 | the pointer mask keeps 57 bits, so bit 56 of a pointer lands in the index field: pointer 2^56 with index 0 reads back as index 1 and address 0 |
| Amx.OpNumber | gemm_exercise/amx.h:36-67 | every register macro's op number is below 23 and is not 17, which SET/CLR use |
| Amx.OpOfNumber | gemm_exercise/amx.h:36-67 | reading the table backwards, a number that names an op names one that maps back to it |
| Amx.OpRoundTrip | gemm_exercise/amx.h:36-67 | every op is recovered from its number |
| Amx.Word | gemm_exercise/amx.h:28 | `0x201000 + (op << 5) + field` lies within 1024 words of the base and splits back into op and field |
| Amx.GprField | gemm_exercise/amx.h:32 | `0%1 - ((0%1 >> 4) * 6)`: register number r <= 30 read as hexadecimal, minus six per hexadecimal ten, is r again and fits the 5-bit field |
| Amx.Encode | gemm_exercise/amx.h:27-33 | every emitted instruction word lies in the 1024 words above 0x201000 |
| Amx.Decode | gemm_exercise/amx.h:27-67 | a word that decodes names a well-formed instruction (register x0 .. x30) |
| Amx.GprRoundTrip | gemm_exercise/amx.h:31-33 | the word `AMX_OP_GPR(op, x<r>)` emits decodes to that op and that register |
| Amx.DecodeEncode | gemm_exercise/amx.h:27-67 | every emitted word decodes back to its instruction, SET and CLR included |
| Amx.EncodeDecode | gemm_exercise/amx.h:27-67 | every word that decodes is the encoding of what it decodes to |
| AmxUnit.Loaded | gemm_exercise/amx.h:7-8 | a load writes the 16-lane rows of mem from a register's first lane on; every other lane keeps its value |
| AmxUnit.FmaRows | gemm_exercise/amx.h:119-129 | matrix-mode FMA32: lane i of Z row 4j + z_row becomes its old value (zero with skip_z) + x[x_offset / 4 + i] * y[y_offset / 4 + j]; every other Z row is kept |
| AmxUnit.Unit.constructor | gemm_exercise/amx.h:6-10 | a disabled unit whose 8 X, 8 Y and 64 Z rows of 16 lanes hold whatever the hardware held |
| AmxUnit.Unit.Set | gemm_exercise/amx.h:59 | `AMX_SET` enables the unit and keeps the registers |
| AmxUnit.Unit.Clr | gemm_exercise/amx.h:60 | `AMX_CLR` disables it and keeps the registers |
| AmxUnit.Unit.Ldx | gemm_exercise/amx.h:36 | `AMX_LDX`: the RegCount registers from RegIndex on receive mem; Y and Z are kept |
| AmxUnit.Unit.Ldy | gemm_exercise/amx.h:37 | `AMX_LDY`: likewise for Y |
| AmxUnit.Unit.Stx | gemm_exercise/amx.h:38 | `AMX_STX`: returns the contents of the addressed X registers |
| AmxUnit.Unit.Ldz | gemm_exercise/amx.h:40 | `AMX_LDZ`: Z row RowIndex(op) receives mem; nothing else changes |
| AmxUnit.Unit.Stz | gemm_exercise/amx.h:41 | `AMX_STZ`: returns Z row RowIndex(op) |
| AmxUnit.Unit.Fma32 | gemm_exercise/amx.h:52 | `AMX_FMA32`: Z becomes FmaRows of the operand's z_row, offsets and skip_z; X and Y are kept |
| AppleKernels.SlotOfTile | gemm_exercise/gemm_progressive.c:119-125 | the tile cell of Z row 4j + r, lane l, lies inside the 32 x 32 tile and maps back to (j, r, l) |
| AppleKernels.TileOfSlot | gemm_exercise/gemm_progressive.c:154-160 | every tile cell has a Z lane that maps to it: C row j < 16 at Z rows 4j / 4j + 1, row 16 + j at 4j + 2 / 4j + 3 |
| AppleKernels.ZMapBijective | gemm_exercise/gemm_progressive.c:118-126 | the LDZ/STZ mapping is a bijection between the 64 x 16 Z lanes and the 32 x 32 tile |
| AppleKernels.HoldsCells | gemm_exercise/gemm_progressive.c:153-161 | Z holds a tile (as the loads place it) if and only if every tile cell reads back from the lane the stores take it from: LDZ and STZ use the same mapping |
| AppleKernels.FmaOperands | gemm_exercise/gemm_progressive.c:141-149 | the eight FMA32 operands decode to z_row r, x offset 64 * (r mod 2), y offset 64 * (r div 2), skip_z exactly in the first-step form: they select the tile columns and rows that the Z mapping assigns to quadrant r |
| AppleKernels.LoadZRow | gemm_exercise/gemm_progressive.c:120 | one `AMX_LDZ(ldz_operand(p, q))`: Z row q receives the 16 values at p |
| AppleKernels.StoreZRow | gemm_exercise/gemm_progressive.c:155 | one `AMX_STZ(stz_operand(p, q))` yields Z row q |
| AppleKernels.LoadZPair | gemm_exercise/gemm_progressive.c:120-121 | one iteration of an LDZ loop loads both halves of one tile row; every other Z lane keeps its value |
| AppleKernels.LoadZHalf | gemm_exercise/gemm_progressive.c:119-122 | one LDZ loop loads tile rows 16h .. 16h + 15; Z rows of the other half are kept |
| AppleKernels.LoadZTile | gemm_exercise/gemm_progressive.c:118-127 | the two `!first_k` LDZ loops leave Z holding the C tile |
| AppleKernels.StoreRow | gemm_exercise/gemm_progressive.c:155-156 | a 16-float store writes one row segment of C; every other cell unchanged |
| AppleKernels.StoreZTile | gemm_exercise/gemm_progressive.c:154-161 | the closing STZ loops write every tile cell from its Z lane; every other cell unchanged |
| AppleKernels.StoreZAsTile | gemm_exercise/gemm_progressive.c:154-161 | when Z holds tile t, the closing stores make the C tile equal to t |
| AppleKernels.FmaQuadrant | gemm_exercise/gemm_progressive.c:146-149 | one FMA32 of quadrant r updates exactly Z rows 4j + r with the y-rows times x-columns of that quadrant |
| AppleKernels.FmaQuadrantStep | gemm_exercise/gemm_progressive.c:141-149 | each quadrant FMA extends the finished quadrants by one; skip_z starts a quadrant from zero |
| AppleKernels.PartialDone | gemm_exercise/gemm_progressive.c:146-149 | with all four quadrants done, Z holds t plus the outer product of the 32 Y lanes and 32 X lanes |
| AppleKernels.Fma4 | gemm_exercise/gemm_progressive.c:140-150 | the four FMA32s of one k step take Z from t to t plus the outer product of A's column and B's row (from anything to that product when skip_z on a zero tile) |
| AppleKernels.LoadOperands | gemm_exercise/gemm_progressive.c:135-138 | LDY/LDX of the pair form leave the 32 A values in Y and the 32 B values in X; Z kept |
| AppleKernels.StoreXRegister | gemm_exercise/gemm_progressive.c:347-348 | `AMX_STX(stz_operand(p, h))` yields the 16 lanes of X register h |
| AppleKernels.StartTile | gemm_exercise/gemm_progressive.c:118-127 | the kernel's starting tile is Seed of each cell, and Z holds it unless first_k |
| AppleKernels.NoPackStep | gemm_exercise/gemm_progressive.c:129-151 | one k step of the strided kernel (gather `a_col`, load, four FMAs) adds A[row + i, pc + k] * B[pc + k, col + c] to every tile cell |
| AppleKernels.PackAStep | gemm_exercise/gemm_progressive.c:251-265 | one k step of the packed-A kernel adds a[k * 32 + i] * B[pc + k, col + c] to every tile cell |
| AppleKernels.LoadAndPackB | gemm_exercise/gemm_progressive.c:342-348 | with pack_B, B's row is loaded into X and stored back as row k of the packed slice, extending it by a row; Z and the rest of the buffer are kept |
| AppleKernels.PackABStep | gemm_exercise/gemm_progressive.c:341-364 | one k step of `microkernel_32x32_pack_ab`: with or without pack_B, the FMAs see row k of the slice and the tile gains the next packed-times-packed term |
| AppleKernels.MicrokernelNoPack | gemm_exercise/gemm_progressive.c:113-162 | `microkernel_32x32_no_pack` sets every cell of its 32 x 32 tile to Seed + the K-block; every other cell unchanged |
| AppleKernels.MicrokernelPackA | gemm_exercise/gemm_progressive.c:236-276 | `microkernel_32x32_pack_a`: the same with A read from a packed slice |
| AppleKernels.MicrokernelPackAB | gemm_exercise/gemm_progressive.c:325-375 | `microkernel_32x32_pack_ab`: Seed + the packed-times-packed sum; with pack_B the B slice ends packed; without it B_packed is unchanged |
| ApplePacking.TransposeBlock | gemm_exercise/gemm_progressive.c:215-229 | the NEON load/transpose/store block leaves column c0 + r of rows r0 .. r0 + 3 at offset o + r * stride; nothing outside the four stores changes |
| ApplePacking.PackBlock32 | gemm_exercise/gemm_progressive.c:214-230 | one i step fills entries i .. i + 3 of the four slice rows from o; only those rows change |
| ApplePacking.PackRows32 | gemm_exercise/gemm_progressive.c:214-230 | the i loop fills the four slice rows from o completely |
| ApplePacking.PackASlice32Step | gemm_exercise/gemm_progressive.c:213-231 | one k step extends the packed 32-row slice from k to k + 4 rows |
| ApplePacking.PackASlice32 | gemm_exercise/gemm_progressive.c:480-502 | `pack_A_slice` leaves dst[k * 32 + i] == A[row + i, pc + k] for i < 32, k < KC (KC a multiple of 4); nothing outside the slice changes |
| ApplePacking.PackAPanelGeneric | gemm_exercise/gemm_progressive.c:206-233 | `pack_A_panel_generic` leaves A_packed[t * 32 * KC + k * 32 + i] == A[ic + 32t + i, pc + k] for every slice t < MC / 32; entries past MC * KC are kept |
| AppleGemm.BlockedColumn | gemm_exercise/gemm_progressive.c:176-182 | the guarded ir loop applies the K-block of k_size columns to a 32-column block, rows ic .. min(ic + MC, n) - 1 |
| AppleGemm.BlockedBlock | gemm_exercise/gemm_progressive.c:175-183 | the guarded jr loop applies it to the MC x NC block clipped to n |
| AppleGemm.BlockedColumnBlock | gemm_exercise/gemm_progressive.c:174-184 | the ic loop applies it to all rows of the column block |
| AppleGemm.BlockedColumnPanel | gemm_exercise/gemm_progressive.c:170-185 | with k_size = min(KC, n - pc) the K-blocks partition [0, n) even when KC does not divide n: the column block ends with the full product |
| AppleGemm.GemmBlocked | gemm_exercise/gemm_progressive.c:164-189 | `gemm_blocked` leaves C equal to the product for n a multiple of 32, and the unit disabled |
| AppleGemm.TilePackA | gemm_exercise/gemm_progressive.c:297-301 | a packed-A kernel call applies the K-block to its tile |
| AppleGemm.PackedARow | gemm_exercise/gemm_progressive.c:296-302 | the jr loop applies it to 32 rows across NC columns |
| AppleGemm.PackedAPanelTimesB | gemm_exercise/gemm_progressive.c:293-303 | the ir loop over slices ir / 32 applies it to the MC x NC block |
| AppleGemm.PackedAColumnBlock | gemm_exercise/gemm_progressive.c:290-304 | pack then kernels for every ic: the K-block reaches all rows of the column block |
| AppleGemm.PackedAColumnPanel | gemm_exercise/gemm_progressive.c:287-305 | the pc loop leaves the column block holding the full product |
| AppleGemm.GemmPackedA | gemm_exercise/gemm_progressive.c:278-310 | `gemm_packed_a` leaves C equal to the product for n a multiple of 128 |
| AppleGemm.TilePackAB | gemm_exercise/gemm_progressive.c:399-404 | a packed-AB kernel call applies the K-block; afterwards the B slice is packed |
| AppleGemm.PackedABStep | gemm_exercise/gemm_progressive.c:397-405 | one jr step on slice jr / 32: with first_ir the B panel's packed prefix grows by that slice; otherwise the whole panel stays packed |
| AppleGemm.PackedABStrip | gemm_exercise/gemm_progressive.c:397-405 | the jr loop for one A slice leaves the B panel packed and applies the K-block to the 32-row strip |
| AppleGemm.SliceOfPanel | gemm_exercise/gemm_progressive.c:395 | `A_packed + (ir / MR) * MR * KC` is a packed slice for rows ic + ir .. ic + ir + 31 and fits the buffer |
| AppleGemm.PackedABSliceStrip | gemm_exercise/gemm_progressive.c:393-406 | one ir step (packing B when ir == 0) applies the K-block to its strip |
| AppleGemm.PackedABPanelTimesB | gemm_exercise/gemm_progressive.c:393-406 | the ir loop: B slices are packed during ir == 0 and later ir read the copy; the MC x NC block gets the K-block |
| AppleGemm.PackedABRowBlock | gemm_exercise/gemm_progressive.c:392-407 | the jc loop applies the K-block to rows ic .. ic + MC - 1 in every column |
| AppleGemm.PackedABRowPanel | gemm_exercise/gemm_progressive.c:388-408 | the pc loop (pack A, then jc) leaves those rows holding the full product |
| AppleGemm.PackedAB | gemm_exercise/gemm_progressive.c:387-409 | the ic loop shared by the packed-AB stages leaves C equal to the product and the unit disabled |
| AppleGemm.GemmPackedAB | gemm_exercise/gemm_progressive.c:377-414 | `gemm_packed_ab` leaves C equal to the product for n a multiple of 128 |
| AppleGemm.GemmTuned | gemm_exercise/gemm_progressive.c:429-466 | `gemm_tuned` leaves C equal to the product for n a multiple of 1024 |
| AppleGemm.LazyPackSlice | gemm_exercise/gemm_progressive.c:521-527 | packing slice s = ir / 32 at its offset extends the packed part of the panel to s + 1 slices and leaves every entry outside slice s unchanged |
| AppleGemm.LazySliceStrip | gemm_exercise/gemm_progressive.c:519-538 | one ir step: on jc == 0 the slice is packed just before use; on later jc the whole panel is already packed and is reused unchanged; the strip gets the K-block |
| AppleGemm.LazyPanelTimesB | gemm_exercise/gemm_progressive.c:519-538 | the ir loop leaves the whole A panel packed and applies the K-block to the MC x NC block |
| AppleGemm.LazyRowBlock | gemm_exercise/gemm_progressive.c:518-539 | the jc loop: the first jc packs the panel, the later ones reuse it; all columns of the row block get the K-block |
| AppleGemm.LazyRowPanel | gemm_exercise/gemm_progressive.c:515-540 | the pc loop leaves rows ic .. ic + MC - 1 holding the full product |
| AppleGemm.GemmLazy | gemm_exercise/gemm_progressive.c:504-546 | `gemm_lazy` leaves C equal to the product for n a multiple of 1024 |
| Lecture.Idx | cpu/lecture10_roofline/examples/gemm.cpp:29 | every index i * N + j with i, j < N lies inside the N * N array |
| Lecture.IdxInjective | cpu/lecture9_locality/examples/mmm_naive.cpp:19 | distinct (i, j) have distinct positions i * N + j, and equal positions mean equal indices |
| Lecture.DotOfOnes | cpu/lecture9_locality/examples/mmm_naive.cpp:39 | with all-ones A and B, h terms add up to h |
| Lecture.Globals.constructor | cpu/lecture10_roofline/examples/gemm.cpp:23 | three distinct zero-initialised static arrays of N * N |
| Lecture.Globals.Initialize | cpu/lecture10_roofline/examples/gemm.cpp:44-48 | A and B become all ones and C all zeros |
| Lecture.Globals.ClearC | cpu/lecture10_roofline/examples/gemm.cpp:59 | `memset(C, 0, sizeof(C))` zeroes every C entry; A and B are not written |
| Lecture.Globals.AccumulateCell | cpu/lecture10_roofline/examples/gemm.cpp:28-29 | the k loop adds the terms k = lo .. hi - 1 to C[i * N + j] in ascending order; no other C entry changes, and A and B are not written |
| Lecture.Globals.NaiveRow | cpu/lecture10_roofline/examples/gemm.cpp:27-29 | the j loop adds the full dot product into every entry of row i |
| Lecture.Globals.Naive | cpu/lecture10_roofline/examples/gemm.cpp:25-30 | `gemm_naive` / `mmm_naive` add the full dot product to what every C entry held (accumulating, not overwriting); A and B are not written |
| Lecture.Globals.BlockRow | cpu/lecture10_roofline/examples/gemm.cpp:37-39 | the j loop of a block adds terms kk .. kk + 31 to 32 entries of row i |
| Lecture.Globals.BlockStep | cpu/lecture10_roofline/examples/gemm.cpp:36-39 | the i, j, k loops add terms kk .. kk + 31 to every entry of the 32 x 32 block at (ii, jj) |
| Lecture.Globals.BlockTile | cpu/lecture10_roofline/examples/gemm.cpp:35-39 | the kk loop adds all N terms, in ascending blocks, to every entry of the block |
| Lecture.Globals.BlockedRowBand | cpu/lecture10_roofline/examples/gemm.cpp:34-39 | the jj loop adds the full dot product to every entry of rows ii .. ii + 31 |
| Lecture.Globals.Blocked | cpu/lecture10_roofline/examples/gemm.cpp:32-40 | `gemm_blocked` / `mmm_blocked` add exactly the naive routine's terms, in the same ascending k order, to every C entry (BLOCK divides N) |
| Lecture.Globals.RunNaive | cpu/lecture9_locality/examples/mmm_naive.cpp:22-39 | from all-ones A and B and zero C, every entry ends equal to N, so C[0] == N as the program prints |
| Lecture.Globals.RunBoth | cpu/lecture9_locality/examples/mmm_blocked.cpp:36-51 | naive, memset, then blocked: every entry ends equal to N |
| Lecture.Globals.AllOnesProduct | cpu/lecture10_roofline/examples/gemm.cpp:85 | from all-ones inputs, a product accumulated into zeros is N in every entry |
| Swizzle.Swizzle | cpu/lecture9_locality/examples/swizzle_demo.cpp:18-20 | `j ^ (i & 3)` stays in the same group of four columns as j |
| Swizzle.SwizzleInvolution | cpu/lecture9_locality/examples/swizzle_demo.cpp:18-20 | swizzling twice with the same row gives j back |
| Swizzle.SwizzleInRange | cpu/lecture9_locality/examples/swizzle_demo.cpp:13 | with N a multiple of 4, columns below N stay below N |
| Swizzle.SwizzleRowBijective | cpu/lecture9_locality/examples/swizzle_demo.cpp:18-20 | in every row the swizzle is a bijection of [0, N): injective, in range, and onto |
| Swizzle.SwizzleColumnZero | cpu/lecture9_locality/examples/swizzle_demo.cpp:62-68 | logical column 0 of row i sits at physical column i & 3, as the printed table shows |
| Swizzle.InitColumnSum | cpu/lecture9_locality/examples/swizzle_demo.cpp:33-37 | twice the sum of an initialised column's first h rows is 2 * h * col + N * h * (h - 1) |
| Swizzle.TotalClosedForm | cpu/lecture9_locality/examples/swizzle_demo.cpp:76-82 | twice the benchmark total over c columns is c * N * N * (N - 1) + N * c * (c - 1) |
| Swizzle.Matrices.constructor | cpu/lecture9_locality/examples/swizzle_demo.cpp:14-15 | two distinct zero-filled N x N arrays |
| Swizzle.Matrices.StoreSwizzled | cpu/lecture9_locality/examples/swizzle_demo.cpp:23-30 | after `store_swizzled(i, j, v)`, `read_swizzled(i, j)` returns v and every other logical cell reads as before |
| Swizzle.Matrices.InitRow | cpu/lecture9_locality/examples/swizzle_demo.cpp:51-55 | one row of the init loop: both layouts hold i * N + j at logical (i, j) of that row; other rows kept |
| Swizzle.Matrices.Init | cpu/lecture9_locality/examples/swizzle_demo.cpp:50-56 | after the init loop, `read_swizzled(i, j)` and `A_normal[i][j]` both equal i * N + j |
| Swizzle.Matrices.SumColumnNormal | cpu/lecture9_locality/examples/swizzle_demo.cpp:33-38 | `sum_column_normal` returns the sum of the column, added row by row |
| Swizzle.Matrices.SumColumnSwizzled | cpu/lecture9_locality/examples/swizzle_demo.cpp:41-46 | `sum_column_swizzled` returns the sum of the logical column, added row by row |
| Swizzle.Matrices.ColumnSumsAgree | cpu/lecture9_locality/examples/swizzle_demo.cpp:33-46 | after the init loop both column sums are equal, namely N * col + N * (N * (N - 1) / 2) |
| Swizzle.Matrices.SumColumnsNormal | cpu/lecture9_locality/examples/swizzle_demo.cpp:75-77 | the first benchmark loop yields the total over the first 64 columns |
| Swizzle.Matrices.SumColumnsSwizzled | cpu/lecture9_locality/examples/swizzle_demo.cpp:80-82 | the second benchmark loop yields the same total |
| Swizzle.Matrices.Run | cpu/lecture9_locality/examples/swizzle_demo.cpp:48-82 | the two benchmark sums are equal and match the closed form |
| Fp16.Encode | layout/cuda_stubs/cuda_fp16.h:18-26 | a float whose rebiased exponent is <= 0 encodes to 0x0000, with its sign dropped |
| Fp16.EncodeFields | layout/cuda_stubs/cuda_fp16.h:20-25 | otherwise the half keeps the sign, has exponent field min(e, 31), and keeps float mantissa bits 13-22, truncated |
| Fp16.Decode | layout/cuda_stubs/cuda_fp16.h:27-35 | a pattern that is zero apart from its sign decodes to +0.0 |
| Fp16.DecodeFields | layout/cuda_stubs/cuda_fp16.h:29-34 | otherwise the float has the half's sign, exponent field + 112, the mantissa in bits 13-22, and bits 0-12 clear |
| Fp16.NegativeZeroLosesSign | layout/cuda_stubs/cuda_fp16.h:28 | 0x8000 decodes to +0.0: negative zero loses its sign |
| Fp16.RoundTrip | layout/cuda_stubs/cuda_fp16.h:18-35 | every half with exponent field 1 .. 31 survives decoding and re-encoding bit for bit |
| Fp16.FieldsDetermineHalf | layout/cuda_stubs/cuda_fp16.h:24-25 | a half pattern is determined by its sign, exponent and mantissa fields |
| Fp16.SubnormalFlushed | layout/cuda_stubs/cuda_fp16.h:21-22 | a subnormal half decodes to float exponent 112 and re-encodes to 0x0000 |
| Fp16.RawOfHalf | layout/cuda_stubs/cuda_fp16.h:38 | `__half_raw(const __half&)` copies the pattern |
| Fp16.HalfOfRaw | layout/cuda_stubs/cuda_fp16.h:17 | `__half(__half_raw)` copies the pattern |
| Fp16.FloatToHalf | layout/cuda_stubs/cuda_fp16.h:46 | `__float2half` is the encoder: small exponents give 0x0000 |
| Fp16.HalfToFloat | layout/cuda_stubs/cuda_fp16.h:47 | `__half2float` is the decoder: signed zeros give +0.0 |
| Fp16.HalfRoundTrip | layout/cuda_stubs/cuda_fp16.h:46-47 | converting a normal or saturated half to float and back, also through `__half_raw`, gives the same half |

## Left out

- Timing, `get_time`, `chrono` and the printed tables and GFLOPS arithmetic of every `main` are left out. They are I/O and floating-point statistics.
- The remaining `main` logic is not modelled as such. Only the Lecture and Swizzle mains are modelled without printing: `Lecture.Globals.RunNaive`, `Lecture.Globals.RunBoth`, `Swizzle.Matrices.Run`.
- `gemm_reference` and `cblas_sgemm` are a foreign library and are left out. The product that `gemm_naive` computes (`GemmSpec.IsProduct`) is the reference instead.
- Float and double arithmetic is not modelled. Values are unbounded integers, so rounding, FMA contraction and the 1e-3 tolerance of the stage checks do not appear, and the checks become equality.
- 32-bit `int` overflow of the index arithmetic is not modelled. The indices are at most N * N = 2^20.
- The SSE, AVX2 and NEON intrinsics are modelled only by their lane semantics (`Lanes`).
- The AMX inline assembly is modelled only by the `AmxUnit.Unit` methods and by the instruction-word formula (`Amx.Encode`).
- AMX operand addresses are not decoded. A kernel passes the memory contents next to the operand word, so aliasing between an operand's pointer and the buffers is not modelled.
- The AMX instructions the kernels never issue (STY, LDZI, STZI, EXTRX, EXTRY, FMA64, FMS64, FMS32, MAC16, FMA16, FMS16, VECINT, VECFP, MATINT, MATFP, GENLUT) are only encoded and decoded. They have no register semantics.
- `AmxUnit.Unit.Fma32` models matrix mode with z_row 0 .. 3 only.
- `AmxUnit.Unit.Ldz` and `AmxUnit.Unit.Stz` model single-row operands only. `stz_multiple` is never used by the kernels.
- `posix_memalign`, `free` and `abort` are left out. The Intel engine aborts when allocation fails and the Apple engine does not check. The drivers allocate buffers of the source's sizes with `new`.
- `init_random`, `rand`, `max_diff`, `fabsf` and `zero_matrix` are benchmark harness code and are left out.
- The half-precision arithmetic `__hadd`, `__hmul` and `__hsub` in cuda_fp16.h is float arithmetic and is left out.
- The `__half2` struct has no behaviour and is left out.
- Fp16 models the union reinterpretation as the bit pattern itself. Float values never appear.
- Swizzle's arguments are non-negative (`nat`). The demonstration only passes 0 .. N - 1, so `i & 3` for a negative i is not modelled.
- The swizzle demo's `double` values are integers. Its sums are exact.
- The lecture programs' `double` arithmetic is exact. That both routines add the terms in the same ascending order is stated through the shared `Lecture.Dot`.
- The kernels' named accumulator registers (`c0` .. `c7`, `c00` .. `c51`) and the scalar kernel's `float c[8][8]` are modelled as one sequence of lane sequences.
- `AppleKernels.MicrokernelNoPack` requires K >= 1 when first_k is set; the same requirement applies to `AppleKernels.MicrokernelPackA` and `AppleKernels.MicrokernelPackAB`. With K = 0 the source would store whatever Z held, and the model does not describe those contents. Every driver calls the kernels with K >= 1.
- `IntelHybrid.GemmLazy` requires n <= 1024, because the B buffer holds KC * NC entries and the source writes n / 16 slices into it. It also requires n to be a multiple of 64, because the k loops are unguarded.

## Findings

| source | as written | input that shows it | evidently intended | confidence | as-written member | corrected member |
|---|---|---|---|---|---|---|
| gemm_exercise_intel/gemm_progressive.c:718-725 | `gemm_lazy` has no scalar fallback and does not advance ir after the 4-row edge, so the rows past the last 6-row tile and the 4-row edge are never written | n = 128: a multiple of KC = 64 and at most NC = 1024, so every buffer access is in bounds, but 128 = 21 * 6 + 2 and rows 126 and 127 of C are left as they were | every row of C receives its dot product, as `gemm_kernel`'s scalar tail (lines 576-587) ensures | not executed | IntelHybrid.LazyMissesRows | IntelHybrid.GemmLazyWithTail |
