/** The XOR column swizzle of cpu/lecture9_locality/examples/swizzle_demo.cpp: logical
    element (i, j) of an N x N matrix is kept at physical column j XOR (i AND 3) of row i,
    next to an unswizzled copy of the same matrix.  Elements are doubles in the source; the
    values stored here (i * N + j and column sums of them) are integers below 2^53, so they
    are modelled exactly as int. */
module Swizzle {
  const N := 1024
  const COLS_TO_SUM := 64

  /** `swizzle(i, j)`: the low two bits of j are XORed with the low two bits of i (for
      non-negative i, `i & 3` is i % 4); j / 4 is kept, so the physical column stays in
      the same group of four as the logical one. */
  function Swizzle(i: nat, j: nat): (p: nat)
    ensures p / 4 == j / 4
  {
    j - j % 4 + ((((j % 4) as bv2) ^ ((i % 4) as bv2)) as int)
  }

  /** Swizzling twice with the same row gives the column back. */
  lemma SwizzleInvolution(i: nat, j: nat)
    ensures Swizzle(i, Swizzle(i, j)) == j
  {
    var p := Swizzle(i, j);
    var x, y := (j % 4) as bv2, (i % 4) as bv2;
    assert p % 4 == (x ^ y) as int;
    assert ((x ^ y) ^ y) == x;
  }

  /** With N a multiple of 4, a column of [0, N) stays in [0, N). */
  lemma SwizzleInRange(i: nat, j: nat)
    requires j < N
    ensures Swizzle(i, j) < N
  {
    assert j / 4 < N / 4;
  }

  /** In every row the swizzle is a bijection of [0, N): distinct columns stay distinct,
      and every physical column p is the image of logical column Swizzle(i, p). */
  lemma SwizzleRowBijective(i: nat)
    ensures forall j, j' :: 0 <= j < N && 0 <= j' < N && Swizzle(i, j) == Swizzle(i, j') ==> j == j'
    ensures forall p :: 0 <= p < N ==> Swizzle(i, p) < N
    ensures forall p :: 0 <= p < N ==> Swizzle(i, Swizzle(i, p)) == p
  {
    forall j, j' | 0 <= j < N && 0 <= j' < N && Swizzle(i, j) == Swizzle(i, j')
      ensures j == j'
    {
      SwizzleInvolution(i, j);
      SwizzleInvolution(i, j');
    }
    forall p | 0 <= p < N
      ensures Swizzle(i, p) < N && Swizzle(i, Swizzle(i, p)) == p
    {
      SwizzleInvolution(i, p);
      SwizzleInRange(i, p);
    }
  }

  /** The printed table: logical column 0 of row i sits at physical column i & 3. */
  lemma SwizzleColumnZero(i: nat)
    ensures Swizzle(i, 0) == i % 4
  {
    assert ((0 as bv2) ^ ((i % 4) as bv2)) == (i % 4) as bv2;
  }

  /** The sum of a sequence, adding its elements front to back as the column loops do. */
  function Sum(s: seq<int>): int
  {
    if |s| == 0 then 0 else Sum(s[..|s| - 1]) + s[|s| - 1]
  }

  /** A column of the initialised matrix, rows 0 .. h - 1: the values i * N + col. */
  function InitColumn(col: int, h: nat): (c: seq<int>)
    ensures |c| == h
  {
    seq(h, i => i * N + col)
  }

  /** Twice the sum of rows 0 .. h - 1 of an initialised column is 2 * h * col + N * h * (h - 1). */
  lemma {:induction false} InitColumnSum(col: int, h: nat)
    ensures 2 * Sum(InitColumn(col, h)) == 2 * h * col + N * h * (h - 1)
  {
    if h > 0 {
      InitColumnSum(col, h - 1);
      assert InitColumn(col, h)[..h - 1] == InitColumn(col, h - 1);
      assert N * h * (h - 1) == N * (h - 1) * (h - 2) + 2 * N * (h - 1);
    }
  }

  /** The benchmark total over columns 0 .. c - 1 of the initialised matrix, each column
      contributing N * col + N * (N * (N - 1) / 2). */
  function Total(c: nat): int
  {
    if c == 0 then 0 else Total(c - 1) + (N * (c - 1) + N * (N * (N - 1) / 2))
  }

  /** Twice the total over c columns is c * N * N * (N - 1) + N * c * (c - 1). */
  lemma {:induction false} TotalClosedForm(c: nat)
    ensures 2 * Total(c) == c * N * N * (N - 1) + N * c * (c - 1)
  {
    if c > 0 {
      TotalClosedForm(c - 1);
      assert N * c * (c - 1) == N * (c - 1) * (c - 2) + 2 * N * (c - 1);
    }
  }

  /** The program's two global matrices `A_normal` and `A_swizzled`. */
  class Matrices {
    const normal: array2<int>
    const swizzled: array2<int>

    ghost predicate Valid()
      reads this
    {
      normal.Length0 == N && normal.Length1 == N && swizzled.Length0 == N && swizzled.Length1 == N &&
      normal != swizzled
    }

    /** Static storage: two distinct zero-filled matrices. */
    constructor()
      ensures Valid() && fresh(normal) && fresh(swizzled)
    {
      normal := new int[N, N]((_, _) => 0);
      swizzled := new int[N, N]((_, _) => 0);
    }

    /** `read_swizzled(i, j)`: logical element (i, j) of the swizzled matrix. */
    function ReadSwizzled(i: nat, j: nat): int
      requires Valid() && i < N && j < N
      reads this, swizzled
    {
      SwizzleInRange(i, j);
      swizzled[i, Swizzle(i, j)]
    }

    /** Column col of the normal matrix, row by row. */
    function NormalColumn(col: nat): (c: seq<int>)
      requires Valid() && col < N
      reads this, normal
      ensures |c| == N
    {
      seq(N, i requires 0 <= i < N reads normal => normal[i, col])
    }

    /** Column col of the logical swizzled matrix, row by row. */
    function SwizzledColumn(col: nat): (c: seq<int>)
      requires Valid() && col < N
      reads this, swizzled
      ensures |c| == N
    {
      seq(N, i requires 0 <= i < N reads this, swizzled => ReadSwizzled(i, col))
    }

    /** `store_swizzled(i, j, v)`: writes physical cell (i, Swizzle(i, j)) only; reading
        (i, j) back gives v and every other logical element reads as before. */
    method StoreSwizzled(i: nat, j: nat, v: int)
      requires Valid() && i < N && j < N
      modifies swizzled
      ensures ReadSwizzled(i, j) == v
      ensures forall i', j' :: 0 <= i' < N && 0 <= j' < N && (i' != i || j' != j) ==>
        ReadSwizzled(i', j') == old(ReadSwizzled(i', j'))
    {
      SwizzleInRange(i, j);
      swizzled[i, Swizzle(i, j)] := v;
      SwizzleRowBijective(i);
      forall i', j' | 0 <= i' < N && 0 <= j' < N && (i' != i || j' != j)
        ensures ReadSwizzled(i', j') == old(ReadSwizzled(i', j'))
      {
        SwizzleInRange(i', j');
      }
    }

    /** One row of the initialisation loop. */
    method InitRow(i: nat)
      requires Valid() && i < N
      modifies normal, swizzled
      ensures forall i', j :: 0 <= i' < N && 0 <= j < N ==>
        normal[i', j] == if i' == i then i' * N + j else old(normal[i', j])
      ensures forall i', j :: 0 <= i' < N && 0 <= j < N ==>
        ReadSwizzled(i', j) == if i' == i then i' * N + j else old(ReadSwizzled(i', j))
    {
      var j := 0;
      while j < N
        invariant 0 <= j <= N
        invariant forall i', j' :: 0 <= i' < N && 0 <= j' < N ==>
          normal[i', j'] == if i' == i && j' < j then i' * N + j' else old(normal[i', j'])
        invariant forall i', j' :: 0 <= i' < N && 0 <= j' < N ==>
          ReadSwizzled(i', j') == if i' == i && j' < j then i' * N + j' else old(ReadSwizzled(i', j'))
      {
        normal[i, j] := i * N + j;
        StoreSwizzled(i, j, i * N + j);
        j := j + 1;
      }
    }

    /** The initialisation loop of `main`: both layouts hold i * N + j at logical (i, j). */
    method Init()
      requires Valid()
      modifies normal, swizzled
      ensures forall i, j :: 0 <= i < N && 0 <= j < N ==> normal[i, j] == i * N + j
      ensures forall i, j :: 0 <= i < N && 0 <= j < N ==> ReadSwizzled(i, j) == i * N + j
    {
      var i := 0;
      while i < N
        invariant 0 <= i <= N
        invariant forall i', j :: 0 <= i' < i && 0 <= j < N ==> normal[i', j] == i' * N + j
        invariant forall i', j :: 0 <= i' < i && 0 <= j < N ==> ReadSwizzled(i', j) == i' * N + j
      {
        InitRow(i);
        i := i + 1;
      }
    }

    /** `sum_column_normal(col)`: the column of the normal matrix added row by row. */
    method SumColumnNormal(col: nat) returns (s: int)
      requires Valid() && col < N
      ensures s == Sum(NormalColumn(col))
    {
      s := 0;
      var i := 0;
      while i < N
        invariant 0 <= i <= N
        invariant s == Sum(NormalColumn(col)[..i])
      {
        assert NormalColumn(col)[..i + 1][..i] == NormalColumn(col)[..i];
        s := s + normal[i, col];
        i := i + 1;
      }
      assert NormalColumn(col)[..N] == NormalColumn(col);
    }

    /** `sum_column_swizzled(col)`: the logical column of the swizzled matrix added row by row. */
    method SumColumnSwizzled(col: nat) returns (s: int)
      requires Valid() && col < N
      ensures s == Sum(SwizzledColumn(col))
    {
      s := 0;
      var i := 0;
      while i < N
        invariant 0 <= i <= N
        invariant s == Sum(SwizzledColumn(col)[..i])
      {
        assert SwizzledColumn(col)[..i + 1][..i] == SwizzledColumn(col)[..i];
        s := s + ReadSwizzled(i, col);
        i := i + 1;
      }
      assert SwizzledColumn(col)[..N] == SwizzledColumn(col);
    }

    /** After the initialisation loop both column sums add the same values in the same row
        order: each is the sum of i * N + col over the N rows. */
    lemma ColumnSumsAgree(col: nat)
      requires Valid() && col < N
      requires forall i, j :: 0 <= i < N && 0 <= j < N ==> normal[i, j] == i * N + j
      requires forall i, j :: 0 <= i < N && 0 <= j < N ==> ReadSwizzled(i, j) == i * N + j
      ensures Sum(SwizzledColumn(col)) == Sum(NormalColumn(col))
      ensures Sum(NormalColumn(col)) == N * col + N * (N * (N - 1) / 2)
    {
      assert NormalColumn(col) == InitColumn(col, N);
      assert SwizzledColumn(col) == InitColumn(col, N);
      InitColumnSum(col, N);
    }

    /** The first benchmark loop: `sum_column_normal(c)` added over c < COLS_TO_SUM. */
    method SumColumnsNormal() returns (sum1: int)
      requires Valid()
      requires forall i, j :: 0 <= i < N && 0 <= j < N ==> normal[i, j] == i * N + j
      requires forall i, j :: 0 <= i < N && 0 <= j < N ==> ReadSwizzled(i, j) == i * N + j
      ensures sum1 == Total(COLS_TO_SUM)
    {
      sum1 := 0;
      var c := 0;
      while c < COLS_TO_SUM
        invariant 0 <= c <= COLS_TO_SUM
        invariant sum1 == Total(c)
      {
        var s := SumColumnNormal(c);
        ColumnSumsAgree(c);
        sum1 := sum1 + s;
        c := c + 1;
      }
    }

    /** The second benchmark loop: `sum_column_swizzled(c)` added over c < COLS_TO_SUM. */
    method SumColumnsSwizzled() returns (sum2: int)
      requires Valid()
      requires forall i, j :: 0 <= i < N && 0 <= j < N ==> normal[i, j] == i * N + j
      requires forall i, j :: 0 <= i < N && 0 <= j < N ==> ReadSwizzled(i, j) == i * N + j
      ensures sum2 == Total(COLS_TO_SUM)
    {
      sum2 := 0;
      var c := 0;
      while c < COLS_TO_SUM
        invariant 0 <= c <= COLS_TO_SUM
        invariant sum2 == Total(c)
      {
        var s := SumColumnSwizzled(c);
        ColumnSumsAgree(c);
        sum2 := sum2 + s;
        c := c + 1;
      }
    }

    /** The `main` of the demonstration without its timing and printing: the two benchmark
        loops over the first COLS_TO_SUM columns give the same total, the sum of
        i * N + c over all rows i and columns c < COLS_TO_SUM. */
    method Run() returns (sum1: int, sum2: int)
      requires Valid()
      modifies normal, swizzled
      ensures sum1 == sum2
      ensures 2 * sum1 == COLS_TO_SUM * N * N * (N - 1) + N * COLS_TO_SUM * (COLS_TO_SUM - 1)
    {
      Init();
      sum1 := SumColumnsNormal();
      sum2 := SumColumnsSwizzled();
      TotalClosedForm(COLS_TO_SUM);
    }
  }
}
