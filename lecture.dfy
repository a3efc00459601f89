/** The lecture matrix multiplications (cpu/lecture10_roofline/examples/gemm.cpp,
    cpu/lecture9_locality/examples/mmm_blocked.cpp and mmm_naive.cpp): three global N * N
    row-major arrays A, B, C, a naive i-j-k loop nest and a 32 x 32 x 32 blocked one, both
    adding the product into C.  The three files hold the same two routines under two pairs
    of names (gemm_naive / gemm_blocked and mmm_naive / mmm_blocked); they are modelled
    once, by the class Globals. */
module Lecture {
  const N := 1024
  const BLOCK := 32

  /** The row-major position of element (i, j): every element of an N x N matrix has one
      inside the N * N array. */
  function Idx(i: int, j: int): (p: int)
    requires 0 <= i < N && 0 <= j < N
    ensures 0 <= p < N * N
  {
    i * N + j
  }

  /** Distinct elements have distinct positions. */
  lemma IdxInjective(i: int, j: int, i': int, j': int)
    requires 0 <= i < N && 0 <= j < N && 0 <= i' < N && 0 <= j' < N
    ensures Idx(i, j) == Idx(i', j') <==> i == i' && j == j'
  {
    if i < i' {
      assert Idx(i, j) < (i + 1) * N <= Idx(i', j');
    } else if i' < i {
      assert Idx(i', j') < (i' + 1) * N <= Idx(i, j);
    }
  }

  /** The terms A[i][k] * B[k][j] for k = 0 .. h - 1, added in ascending k; the terms of
      k = lo .. hi - 1 are then Dot(.., hi) - Dot(.., lo). */
  function Dot(a: seq<int>, b: seq<int>, i: int, j: int, h: int): int
    requires |a| == N * N && |b| == N * N && 0 <= i < N && 0 <= j < N && 0 <= h <= N
  {
    if h == 0 then 0 else Dot(a, b, i, j, h - 1) + a[Idx(i, h - 1)] * b[Idx(h - 1, j)]
  }

  /** With A and B all ones, every term is 1, so h terms add up to h. */
  lemma {:induction false} DotOfOnes(a: seq<int>, b: seq<int>, i: int, j: int, h: int)
    requires |a| == N * N && |b| == N * N && 0 <= i < N && 0 <= j < N && 0 <= h <= N
    requires forall p :: 0 <= p < N * N ==> a[p] == 1
    requires forall p :: 0 <= p < N * N ==> b[p] == 1
    ensures Dot(a, b, i, j, h) == h
  {
    if h > 0 {
      DotOfOnes(a, b, i, j, h - 1);
      assert a[Idx(i, h - 1)] == 1 && b[Idx(h - 1, j)] == 1;
    }
  }

  /** The program's three global arrays `A`, `B`, `C`. */
  class Globals {
    const A: array<int>
    const B: array<int>
    const C: array<int>

    ghost predicate Valid()
      reads this
    {
      A.Length == N * N && B.Length == N * N && C.Length == N * N && A != B && A != C && B != C
    }

    /** Static storage: three distinct zero-filled arrays. */
    constructor()
      ensures Valid() && fresh(A) && fresh(B) && fresh(C)
      ensures forall p :: 0 <= p < N * N ==> A[p] == 0 && B[p] == 0 && C[p] == 0
    {
      A := new int[N * N](_ => 0);
      B := new int[N * N](_ => 0);
      C := new int[N * N](_ => 0);
    }

    /** The initialisation loop of each `main`: A and B all ones, C all zeros. */
    method Initialize()
      requires Valid()
      modifies A, B, C
      ensures forall p :: 0 <= p < N * N ==> A[p] == 1
      ensures forall p :: 0 <= p < N * N ==> B[p] == 1
      ensures forall p :: 0 <= p < N * N ==> C[p] == 0
    {
      var p := 0;
      while p < N * N
        invariant 0 <= p <= N * N
        invariant forall q :: 0 <= q < p ==> A[q] == 1
        invariant forall q :: 0 <= q < p ==> B[q] == 1
        invariant forall q :: 0 <= q < p ==> C[q] == 0
      {
        A[p] := 1;
        B[p] := 1;
        C[p] := 0;
        p := p + 1;
      }
    }

    /** `memset(C, 0, sizeof(C))`. */
    method ClearC()
      requires Valid()
      modifies C
      ensures forall p :: 0 <= p < N * N ==> C[p] == 0
    {
      var p := 0;
      while p < N * N
        invariant 0 <= p <= N * N
        invariant forall q :: 0 <= q < p ==> C[q] == 0
      {
        C[p] := 0;
        p := p + 1;
      }
    }

    /** The innermost k loop of both routines: C[i][j] += A[i][k] * B[k][j] for
        k = lo .. hi - 1 in ascending order; no other element of C changes. */
    method AccumulateCell(i: int, j: int, lo: int, hi: int)
      requires Valid() && 0 <= i < N && 0 <= j < N && 0 <= lo <= hi <= N
      modifies C
      ensures C[Idx(i, j)] == old(C[Idx(i, j)]) + (Dot(A[..], B[..], i, j, hi) - Dot(A[..], B[..], i, j, lo))
      ensures forall i', j' :: 0 <= i' < N && 0 <= j' < N && (i' != i || j' != j) ==>
        C[Idx(i', j')] == old(C[Idx(i', j')])
    {
      var k := lo;
      while k < hi
        invariant lo <= k <= hi
        invariant C[Idx(i, j)] == old(C[Idx(i, j)]) + (Dot(A[..], B[..], i, j, k) - Dot(A[..], B[..], i, j, lo))
        invariant forall p :: 0 <= p < N * N && p != Idx(i, j) ==> C[p] == old(C[p])
      {
        C[i * N + j] := C[i * N + j] + A[i * N + k] * B[k * N + j];
        k := k + 1;
      }
      forall i', j' | 0 <= i' < N && 0 <= j' < N && (i' != i || j' != j)
        ensures C[Idx(i', j')] == old(C[Idx(i', j')])
      {
        IdxInjective(i', j', i, j);
      }
    }

    /** The j loop of the naive routine for row i. */
    method NaiveRow(i: int)
      requires Valid() && 0 <= i < N
      modifies C
      ensures forall i', j :: 0 <= i' < N && 0 <= j < N ==>
        C[Idx(i', j)] == old(C[Idx(i', j)]) + (if i' == i then Dot(A[..], B[..], i', j, N) else 0)
    {
      var j := 0;
      while j < N
        invariant 0 <= j <= N
        invariant forall i', j' :: 0 <= i' < N && 0 <= j' < N ==>
          C[Idx(i', j')] == old(C[Idx(i', j')]) + (if i' == i && j' < j then Dot(A[..], B[..], i', j', N) else 0)
      {
        AccumulateCell(i, j, 0, N);
        j := j + 1;
      }
    }

    /** `gemm_naive` / `mmm_naive`: every C[i][j] receives A[i][k] * B[k][j] for k = 0 ..
        N - 1, added to what C held; A and B are only read. */
    method Naive()
      requires Valid()
      modifies C
      ensures forall i, j :: 0 <= i < N && 0 <= j < N ==>
        C[Idx(i, j)] == old(C[Idx(i, j)]) + Dot(A[..], B[..], i, j, N)
    {
      var i := 0;
      while i < N
        invariant 0 <= i <= N
        invariant forall i', j :: 0 <= i' < N && 0 <= j < N ==>
          C[Idx(i', j)] == old(C[Idx(i', j)]) + (if i' < i then Dot(A[..], B[..], i', j, N) else 0)
      {
        NaiveRow(i);
        i := i + 1;
      }
    }

    /** The j loop of one block row: row i, columns jj .. jj + 31, terms kk .. kk + 31. */
    method BlockRow(i: int, jj: int, kk: int)
      requires Valid() && 0 <= i < N && 0 <= jj && jj + BLOCK <= N && 0 <= kk && kk + BLOCK <= N
      modifies C
      ensures forall i', j :: 0 <= i' < N && 0 <= j < N ==>
        C[Idx(i', j)] == old(C[Idx(i', j)]) +
          (if i' == i && jj <= j < jj + BLOCK then (Dot(A[..], B[..], i', j, kk + BLOCK) - Dot(A[..], B[..], i', j, kk)) else 0)
    {
      var j := jj;
      while j < jj + BLOCK
        invariant jj <= j <= jj + BLOCK
        invariant forall i', j' :: 0 <= i' < N && 0 <= j' < N ==>
          C[Idx(i', j')] == old(C[Idx(i', j')]) +
            (if i' == i && jj <= j' < j then (Dot(A[..], B[..], i', j', kk + BLOCK) - Dot(A[..], B[..], i', j', kk)) else 0)
      {
        AccumulateCell(i, j, kk, kk + BLOCK);
        j := j + 1;
      }
    }

    /** The i, j and k loops of one block step: the 32 x 32 block at (ii, jj) receives
        terms kk .. kk + 31. */
    method BlockStep(ii: int, jj: int, kk: int)
      requires Valid() && 0 <= ii && ii + BLOCK <= N && 0 <= jj && jj + BLOCK <= N && 0 <= kk && kk + BLOCK <= N
      modifies C
      ensures forall i, j :: 0 <= i < N && 0 <= j < N ==>
        C[Idx(i, j)] == old(C[Idx(i, j)]) +
          (if ii <= i < ii + BLOCK && jj <= j < jj + BLOCK then (Dot(A[..], B[..], i, j, kk + BLOCK) - Dot(A[..], B[..], i, j, kk)) else 0)
    {
      var i := ii;
      while i < ii + BLOCK
        invariant ii <= i <= ii + BLOCK
        invariant forall i', j :: 0 <= i' < N && 0 <= j < N ==>
          C[Idx(i', j)] == old(C[Idx(i', j)]) +
            (if ii <= i' < i && jj <= j < jj + BLOCK then (Dot(A[..], B[..], i', j, kk + BLOCK) - Dot(A[..], B[..], i', j, kk)) else 0)
      {
        BlockRow(i, jj, kk);
        i := i + 1;
      }
    }

    /** The kk loop: the block at (ii, jj) receives terms 0 .. N - 1, BLOCK at a time in
        ascending order. */
    method BlockTile(ii: int, jj: int)
      requires Valid() && 0 <= ii && ii + BLOCK <= N && 0 <= jj && jj + BLOCK <= N
      modifies C
      ensures forall i, j :: 0 <= i < N && 0 <= j < N ==>
        C[Idx(i, j)] == old(C[Idx(i, j)]) +
          (if ii <= i < ii + BLOCK && jj <= j < jj + BLOCK then Dot(A[..], B[..], i, j, N) else 0)
    {
      ghost var a, b := A[..], B[..];
      var kk := 0;
      ghost var g := 0;
      while kk < N
        invariant 0 <= kk <= N && kk == BLOCK * g
        invariant A[..] == a && B[..] == b
        invariant forall i, j :: 0 <= i < N && 0 <= j < N ==>
          C[Idx(i, j)] == old(C[Idx(i, j)]) +
            (if ii <= i < ii + BLOCK && jj <= j < jj + BLOCK then Dot(a, b, i, j, kk) else 0)
      {
        label before:
        BlockStep(ii, jj, kk);
        forall i, j | 0 <= i < N && 0 <= j < N
          ensures C[Idx(i, j)] == old(C[Idx(i, j)]) +
            (if ii <= i < ii + BLOCK && jj <= j < jj + BLOCK then Dot(a, b, i, j, kk + BLOCK) else 0)
        {
          assert C[Idx(i, j)] == old@before(C[Idx(i, j)]) +
            (if ii <= i < ii + BLOCK && jj <= j < jj + BLOCK then Dot(a, b, i, j, kk + BLOCK) - Dot(a, b, i, j, kk) else 0);
        }
        kk := kk + BLOCK;
        g := g + 1;
      }
    }

    /** The jj loop for one block row ii. */
    method BlockedRowBand(ii: int)
      requires Valid() && 0 <= ii && ii + BLOCK <= N
      modifies C
      ensures forall i, j :: 0 <= i < N && 0 <= j < N ==>
        C[Idx(i, j)] == old(C[Idx(i, j)]) + (if ii <= i < ii + BLOCK then Dot(A[..], B[..], i, j, N) else 0)
    {
      var jj := 0;
      while jj < N
        invariant 0 <= jj <= N && jj % BLOCK == 0
        invariant forall i, j :: 0 <= i < N && 0 <= j < N ==>
          C[Idx(i, j)] == old(C[Idx(i, j)]) +
            (if ii <= i < ii + BLOCK && j < jj then Dot(A[..], B[..], i, j, N) else 0)
      {
        BlockTile(ii, jj);
        jj := jj + BLOCK;
      }
    }

    /** `gemm_blocked` / `mmm_blocked`: since BLOCK divides N, the blocks tile the index
        space and every C[i][j] receives exactly the terms of the naive routine, in the same
        ascending k order. */
    method Blocked()
      requires Valid()
      modifies C
      ensures forall i, j :: 0 <= i < N && 0 <= j < N ==>
        C[Idx(i, j)] == old(C[Idx(i, j)]) + Dot(A[..], B[..], i, j, N)
    {
      var ii := 0;
      while ii < N
        invariant 0 <= ii <= N && ii % BLOCK == 0
        invariant forall i, j :: 0 <= i < N && 0 <= j < N ==>
          C[Idx(i, j)] == old(C[Idx(i, j)]) + (if i < ii then Dot(A[..], B[..], i, j, N) else 0)
      {
        BlockedRowBand(ii);
        ii := ii + BLOCK;
      }
    }

    /** The `main` of mmm_naive.cpp without its timing: from all-ones A and B and a zero C,
        the naive routine leaves N in every element, C[0] in particular. */
    method RunNaive()
      requires Valid()
      modifies A, B, C
      ensures forall p :: 0 <= p < N * N ==> C[p] == N
      ensures C[0] == N
    {
      Initialize();
      Naive();
      AllOnesProduct();
    }

    /** The `main` of gemm.cpp and mmm_blocked.cpp without timing: naive, memset of C, then
        blocked; C ends with N in every element, as the printed C[0] shows. */
    method RunBoth()
      requires Valid()
      modifies A, B, C
      ensures forall p :: 0 <= p < N * N ==> C[p] == N
      ensures C[0] == N
    {
      Initialize();
      Naive();
      ClearC();
      Blocked();
      AllOnesProduct();
    }

    /** From all-ones A and B, an element that held 0 plus its full dot product holds N;
        every position p is some (p / N, p % N). */
    lemma AllOnesProduct()
      requires Valid()
      requires forall p :: 0 <= p < N * N ==> A[p] == 1
      requires forall p :: 0 <= p < N * N ==> B[p] == 1
      requires forall i, j :: 0 <= i < N && 0 <= j < N ==> C[Idx(i, j)] == Dot(A[..], B[..], i, j, N)
      ensures forall p :: 0 <= p < N * N ==> C[p] == N
    {
      forall p | 0 <= p < N * N
        ensures C[p] == N
      {
        var i, j := p / N, p % N;
        assert Idx(i, j) == p;
        DotOfOnes(A[..], B[..], i, j, N);
      }
    }
  }
}
