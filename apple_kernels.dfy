/** The 32 x 32 AMX micro-kernels of gemm_exercise/gemm_progressive.c.

    A kernel keeps the 32 x 32 C tile in Z: tile row i < 16 lives in Z rows 4i (columns
    0-15) and 4i + 1 (columns 16-31), tile row 16 + i in Z rows 4i + 2 and 4i + 3.  Each k
    step loads a column of the A tile into Y and a row of the B tile into X and issues four
    FMA32s, one per quadrant.  The proofs follow a ghost 32 x 32 tile that Z holds under this
    mapping. */
module AppleKernels {
  import opened GemmSpec
  import opened Lanes
  import opened Amx
  import opened AmxUnit
  import opened Panels

  const MR := 32
  const NR := 32

  // ---------------------------------------------------------------------------------------
  // The Z mapping
  // ---------------------------------------------------------------------------------------

  /** The tile row held by output row j of the FMA32 with z_row r. */
  function TileRow(j: int, r: int): int {
    j + (if r < 2 then 0 else 16)
  }

  /** The tile column held by lane l of a Z row written with z_row r. */
  function TileCol(r: int, l: int): int {
    l + (if r == 1 || r == 3 then 16 else 0)
  }

  /** The way back: tile cell (i, c) lives in lane SlotL(c) of Z row ZIndex(SlotJ(i), SlotR(i, c)). */
  function SlotJ(i: int): int {
    if i < 16 then i else i - 16
  }

  function SlotR(i: int, c: int): int {
    (if i < 16 then 0 else 2) + (if c < 16 then 0 else 1)
  }

  function SlotL(c: int): int {
    if c < 16 then c else c - 16
  }

  lemma {:induction false} SlotOfTile(j: int, r: int, l: int)
    requires 0 <= j < 16 && 0 <= r < 4 && 0 <= l < 16
    ensures 0 <= TileRow(j, r) < 32 && 0 <= TileCol(r, l) < 32
    ensures SlotJ(TileRow(j, r)) == j && SlotR(TileRow(j, r), TileCol(r, l)) == r && SlotL(TileCol(r, l)) == l
  {
    if r < 2 {
      assert TileRow(j, r) == j;
    } else {
      assert TileRow(j, r) == j + 16;
    }
    if r == 1 || r == 3 {
      assert TileCol(r, l) == l + 16;
    } else {
      assert TileCol(r, l) == l;
    }
  }

  lemma {:induction false} TileOfSlot(i: int, c: int)
    requires 0 <= i < 32 && 0 <= c < 32
    ensures 0 <= SlotJ(i) < 16 && 0 <= SlotR(i, c) < 4 && 0 <= SlotL(c) < 16
    ensures TileRow(SlotJ(i), SlotR(i, c)) == i && TileCol(SlotR(i, c), SlotL(c)) == c
  {
    if i < 16 {
      assert SlotJ(i) == i;
    } else {
      assert SlotJ(i) == i - 16;
    }
    if c < 16 {
      assert SlotL(c) == c;
    } else {
      assert SlotL(c) == c - 16;
    }
  }

  /** The mapping is a bijection between the 64 x 16 Z lanes and the 32 x 32 tile: every
      lane lands inside the tile and comes back, and every tile cell has a lane it comes
      from. */
  lemma ZMapBijective()
    ensures forall j, r :: 0 <= j < 16 && 0 <= r < 4 ==> 0 <= TileRow(j, r) < 32
    ensures forall r, l :: 0 <= r < 4 && 0 <= l < 16 ==> 0 <= TileCol(r, l) < 32
    ensures forall j, r :: 0 <= j < 16 && 0 <= r < 4 ==> SlotJ(TileRow(j, r)) == j
    ensures forall r, l :: 0 <= r < 4 && 0 <= l < 16 ==> SlotL(TileCol(r, l)) == l
    ensures forall j, r, l :: 0 <= j < 16 && 0 <= r < 4 && 0 <= l < 16 ==> SlotR(TileRow(j, r), TileCol(r, l)) == r
    ensures forall i :: 0 <= i < 32 ==> 0 <= SlotJ(i) < 16
    ensures forall c :: 0 <= c < 32 ==> 0 <= SlotL(c) < 16
    ensures forall i, c :: 0 <= i < 32 && 0 <= c < 32 ==> 0 <= SlotR(i, c) < 4
    ensures forall i, c :: 0 <= i < 32 && 0 <= c < 32 ==> TileRow(SlotJ(i), SlotR(i, c)) == i
    ensures forall i, c :: 0 <= i < 32 && 0 <= c < 32 ==> TileCol(SlotR(i, c), SlotL(c)) == c
  {
    forall j, r, l | 0 <= j < 16 && 0 <= r < 4 && 0 <= l < 16
      ensures 0 <= TileRow(j, r) < 32 && 0 <= TileCol(r, l) < 32 && SlotJ(TileRow(j, r)) == j && SlotL(TileCol(r, l)) == l
      ensures SlotR(TileRow(j, r), TileCol(r, l)) == r
    {
      SlotOfTile(j, r, l);
    }
    forall i, c | 0 <= i < 32 && 0 <= c < 32
      ensures 0 <= SlotJ(i) < 16 && 0 <= SlotR(i, c) < 4 && 0 <= SlotL(c) < 16
      ensures TileRow(SlotJ(i), SlotR(i, c)) == i && TileCol(SlotR(i, c), SlotL(c)) == c
    {
      TileOfSlot(i, c);
    }
  }

  /** Z holds the 32 x 32 tile t under the mapping. */
  ghost predicate Holds(z: seq<seq<int>>, t: seq<Vec>)
    requires ZShape(z) && IsTile(t, 32, 32)
  {
    forall j, r, l :: 0 <= j < 16 && 0 <= r < 4 && 0 <= l < 16 ==>
      z[ZIndex(j, r)][l] == t[TileRow(j, r)][TileCol(r, l)]
  }

  /** The Z lane the closing stores write to tile cell (i, c). */
  function ZCell(z: seq<seq<int>>, i: int, c: int): int
    requires ZShape(z) && 0 <= i < 32 && 0 <= c < 32
  {
    z[ZIndex(SlotJ(i), SlotR(i, c))][SlotL(c)]
  }

  /** Loading and storing use the same mapping: Z holds t exactly when every tile cell
      reads back from its Z lane. */
  lemma HoldsCells(z: seq<seq<int>>, t: seq<Vec>)
    requires ZShape(z) && IsTile(t, 32, 32)
    ensures Holds(z, t) <==> forall i, c :: 0 <= i < 32 && 0 <= c < 32 ==> ZCell(z, i, c) == t[i][c]
  {
    ZMapBijective();
    if Holds(z, t) {
      forall i, c | 0 <= i < 32 && 0 <= c < 32 ensures ZCell(z, i, c) == t[i][c] {
        assert z[ZIndex(SlotJ(i), SlotR(i, c))][SlotL(c)] == t[TileRow(SlotJ(i), SlotR(i, c))][TileCol(SlotR(i, c), SlotL(c))];
      }
    }
    if forall i, c :: 0 <= i < 32 && 0 <= c < 32 ==> ZCell(z, i, c) == t[i][c] {
      forall j, r, l | 0 <= j < 16 && 0 <= r < 4 && 0 <= l < 16
        ensures z[ZIndex(j, r)][l] == t[TileRow(j, r)][TileCol(r, l)]
      {
        assert ZCell(z, TileRow(j, r), TileCol(r, l)) == t[TileRow(j, r)][TileCol(r, l)];
      }
    }
  }

  /** The eight FMA32 operands the kernels issue: z_row r reads X from byte 64 * (r % 2) and
      Y from byte 64 * (r / 2), i.e. the tile columns and tile rows of quadrant r. */
  lemma FmaOperands()
    ensures ZRowIndex(Fma32Operand(0, 0, 0)) == 0 && XOffset(Fma32Operand(0, 0, 0)) == 0 && YOffset(Fma32Operand(0, 0, 0)) == 0
    ensures ZRowIndex(Fma32Operand(1, 64, 0)) == 1 && XOffset(Fma32Operand(1, 64, 0)) == 64 && YOffset(Fma32Operand(1, 64, 0)) == 0
    ensures ZRowIndex(Fma32Operand(2, 0, 64)) == 2 && XOffset(Fma32Operand(2, 0, 64)) == 0 && YOffset(Fma32Operand(2, 0, 64)) == 64
    ensures ZRowIndex(Fma32Operand(3, 64, 64)) == 3 && XOffset(Fma32Operand(3, 64, 64)) == 64 && YOffset(Fma32Operand(3, 64, 64)) == 64
    ensures !SkipZ(Fma32Operand(0, 0, 0)) && !SkipZ(Fma32Operand(1, 64, 0)) && !SkipZ(Fma32Operand(2, 0, 64)) && !SkipZ(Fma32Operand(3, 64, 64))
    ensures !VectorMode(Fma32Operand(0, 0, 0)) && !VectorMode(Fma32Operand(1, 64, 0)) && !VectorMode(Fma32Operand(2, 0, 64)) && !VectorMode(Fma32Operand(3, 64, 64))
    ensures ZRowIndex(Fma32OperandSkipZ(0, 0, 0)) == 0 && XOffset(Fma32OperandSkipZ(0, 0, 0)) == 0 && YOffset(Fma32OperandSkipZ(0, 0, 0)) == 0
    ensures ZRowIndex(Fma32OperandSkipZ(1, 64, 0)) == 1 && XOffset(Fma32OperandSkipZ(1, 64, 0)) == 64 && YOffset(Fma32OperandSkipZ(1, 64, 0)) == 0
    ensures ZRowIndex(Fma32OperandSkipZ(2, 0, 64)) == 2 && XOffset(Fma32OperandSkipZ(2, 0, 64)) == 0 && YOffset(Fma32OperandSkipZ(2, 0, 64)) == 64
    ensures ZRowIndex(Fma32OperandSkipZ(3, 64, 64)) == 3 && XOffset(Fma32OperandSkipZ(3, 64, 64)) == 64 && YOffset(Fma32OperandSkipZ(3, 64, 64)) == 64
    ensures SkipZ(Fma32OperandSkipZ(0, 0, 0)) && SkipZ(Fma32OperandSkipZ(1, 64, 0)) && SkipZ(Fma32OperandSkipZ(2, 0, 64)) && SkipZ(Fma32OperandSkipZ(3, 64, 64))
    ensures !VectorMode(Fma32OperandSkipZ(0, 0, 0)) && !VectorMode(Fma32OperandSkipZ(1, 64, 0)) && !VectorMode(Fma32OperandSkipZ(2, 0, 64)) && !VectorMode(Fma32OperandSkipZ(3, 64, 64))
    ensures forall r :: 0 <= r < 4 ==> TileCol(r, 0) == (if r % 2 == 0 then 0 else 64) / 4 && TileRow(0, r) == (if r / 2 == 0 then 0 else 64) / 4
  {
  }

  // ---------------------------------------------------------------------------------------
  // The pieces every 32 x 32 kernel shares
  // ---------------------------------------------------------------------------------------

  /** `AMX_LDZ(ldz_operand(p, q))`: Z row q receives the 16 floats at p. */
  method LoadZRow(amx: Unit, q: int, mem: seq<int>)
    requires amx.Valid() && amx.enabled && 0 <= q < 64 && |mem| == 16
    modifies amx
    ensures amx.Valid() && amx.enabled && amx.x == old(amx.x) && amx.y == old(amx.y)
    ensures amx.z == old(amx.z)[q := mem]
  {
    RowOperandIndex(0, q);
    amx.Ldz(AddressOperand(0, Index(q)), mem);
  }

  /** `AMX_STZ(stz_operand(p, q))`: the 16 floats of Z row q, as they land at p. */
  method StoreZRow(amx: Unit, q: int) returns (mem: seq<int>)
    requires amx.Valid() && amx.enabled && 0 <= q < 64
    ensures mem == amx.z[q] && |mem| == 16
  {
    RowOperandIndex(0, q);
    mem := amx.Stz(AddressOperand(0, Index(q)));
  }

  /** One of the two `!first_k` LDZ loops: for j < 16, Z rows 4j + 2h and 4j + 2h + 1 receive
      the two halves of tile row 16h + j; the other Z rows keep their value. */
  method LoadZHalf(amx: Unit, C: array2<int>, row: int, col: int, h: int)
    requires amx.Valid() && amx.enabled && (h == 0 || h == 1)
    requires 0 <= row && row + 32 <= C.Length0 && 0 <= col && col + 32 <= C.Length1
    modifies amx
    ensures amx.Valid() && amx.enabled && amx.x == old(amx.x) && amx.y == old(amx.y)
    ensures forall j, r, l :: 0 <= j < 16 && 0 <= r < 4 && 0 <= l < 16 ==>
      amx.z[ZIndex(j, r)][l] == if r / 2 == h then C[row + TileRow(j, r), col + TileCol(r, l)] else old(amx.z[ZIndex(j, r)][l])
  {
    var j := 0;
    while j < 16
      invariant 0 <= j <= 16
      invariant amx.Valid() && amx.enabled && amx.x == old(amx.x) && amx.y == old(amx.y)
      invariant forall j', r, l :: 0 <= j' < 16 && 0 <= r < 4 && 0 <= l < 16 ==>
        amx.z[ZIndex(j', r)][l] == if r / 2 == h && j' < j then C[row + TileRow(j', r), col + TileCol(r, l)] else old(amx.z[ZIndex(j', r)][l])
    {
      LoadZPair(amx, C, row, col, h, j);
      j := j + 1;
    }
  }

  /** One iteration of a `!first_k` LDZ loop: Z rows 4j + 2h and 4j + 2h + 1 receive the two
      halves of tile row 16h + j; every other Z cell keeps its value. */
  method LoadZPair(amx: Unit, C: array2<int>, row: int, col: int, h: int, j: int)
    requires amx.Valid() && amx.enabled && (h == 0 || h == 1) && 0 <= j < 16
    requires 0 <= row && row + 32 <= C.Length0 && 0 <= col && col + 32 <= C.Length1
    modifies amx
    ensures amx.Valid() && amx.enabled && amx.x == old(amx.x) && amx.y == old(amx.y)
    ensures forall j', r, l :: 0 <= j' < 16 && 0 <= r < 4 && 0 <= l < 16 ==>
      amx.z[ZIndex(j', r)][l] == if r / 2 == h && j' == j then C[row + TileRow(j', r), col + TileCol(r, l)] else old(amx.z[ZIndex(j', r)][l])
  {
    LoadZRow(amx, j * 4 + 2 * h, RowSegment(C, row + 16 * h + j, col, 16));
    LoadZRow(amx, j * 4 + 2 * h + 1, RowSegment(C, row + 16 * h + j, col + 16, 16));
  }

  /** The `!first_k` LDZ loops: Z receives the C tile at (row, col). */
  method LoadZTile(amx: Unit, C: array2<int>, row: int, col: int)
    requires amx.Valid() && amx.enabled
    requires 0 <= row && row + 32 <= C.Length0 && 0 <= col && col + 32 <= C.Length1
    modifies amx
    ensures amx.Valid() && amx.enabled && amx.x == old(amx.x) && amx.y == old(amx.y)
    ensures Holds(amx.z, LoadTile(C, row, col, 32, 32))
  {
    LoadZHalf(amx, C, row, col, 0);
    LoadZHalf(amx, C, row, col, 1);
  }

  /** One 16-float store into row r of C from column c. */
  method StoreRow(v: seq<int>, C: array2<int>, r: int, c: int)
    requires 0 <= r < C.Length0 && 0 <= c && c + |v| <= C.Length1
    modifies C
    ensures forall i, j :: 0 <= i < C.Length0 && 0 <= j < C.Length1 ==>
      C[i, j] == if i == r && c <= j < c + |v| then v[j - c] else old(C[i, j])
  {
    forall j | c <= j < c + |v| {
      C[r, j] := v[j - c];
    }
  }

  /** The closing STZ loops: each tile cell of C receives its Z lane; the rest of C is kept. */
  method StoreZTile(amx: Unit, C: array2<int>, row: int, col: int)
    requires amx.Valid() && amx.enabled
    requires 0 <= row && row + 32 <= C.Length0 && 0 <= col && col + 32 <= C.Length1
    modifies C
    ensures forall i, c :: 0 <= i < C.Length0 && 0 <= c < C.Length1 ==>
      C[i, c] == if row <= i < row + 32 && col <= c < col + 32 then ZCell(amx.z, i - row, c - col) else old(C[i, c])
  {
    var j := 0;
    while j < 16
      invariant 0 <= j <= 16
      invariant forall i, c :: 0 <= i < C.Length0 && 0 <= c < C.Length1 ==>
        C[i, c] == if row <= i < row + j && col <= c < col + 32 then ZCell(amx.z, i - row, c - col) else old(C[i, c])
    {
      var v0 := StoreZRow(amx, j * 4);
      StoreRow(v0, C, row + j, col);
      var v1 := StoreZRow(amx, j * 4 + 1);
      StoreRow(v1, C, row + j, col + 16);
      j := j + 1;
    }
    j := 0;
    while j < 16
      invariant 0 <= j <= 16
      invariant forall i, c :: 0 <= i < C.Length0 && 0 <= c < C.Length1 ==>
        C[i, c] == if (row <= i < row + 16 || row + 16 <= i < row + 16 + j) && col <= c < col + 32
                   then ZCell(amx.z, i - row, c - col) else old(C[i, c])
    {
      var v0 := StoreZRow(amx, j * 4 + 2);
      StoreRow(v0, C, row + 16 + j, col);
      var v1 := StoreZRow(amx, j * 4 + 3);
      StoreRow(v1, C, row + 16 + j, col + 16);
      j := j + 1;
    }
  }

  /** The FMA32 of quadrant r: z_row r, X from byte 64 * (r % 2), Y from byte 64 * (r / 2),
      in the skip_z form when skip. */
  method FmaQuadrant(amx: Unit, r: int, skip: bool)
    requires amx.Valid() && amx.enabled && 0 <= r < 4
    modifies amx
    ensures amx.Valid() && amx.enabled && amx.x == old(amx.x) && amx.y == old(amx.y)
    ensures amx.z == FmaRows(old(amx.z), amx.x, amx.y, r, TileCol(r, 0), TileRow(0, r), skip)
  {
    FmaOperands();
    var op: bv64;
    if r == 0 {
      op := if skip then Fma32OperandSkipZ(0, 0, 0) else Fma32Operand(0, 0, 0);
    } else if r == 1 {
      op := if skip then Fma32OperandSkipZ(1, 64, 0) else Fma32Operand(1, 64, 0);
    } else if r == 2 {
      op := if skip then Fma32OperandSkipZ(2, 0, 64) else Fma32Operand(2, 0, 64);
    } else {
      op := if skip then Fma32OperandSkipZ(3, 64, 64) else Fma32Operand(3, 64, 64);
    }
    amx.Fma32(op);
  }

  /** After the FMAs for z_row 0 .. n - 1: quadrants r < n hold t plus the outer product of
      y (tile rows) and x (tile columns); the others still hold what z0 held. */
  ghost predicate Partial(z: seq<seq<int>>, z0: seq<seq<int>>, t: seq<Vec>, x: seq<int>, y: seq<int>, n: int)
    requires ZShape(z) && ZShape(z0) && IsTile(t, 32, 32) && |x| >= 32 && |y| >= 32
  {
    forall j, r, l :: 0 <= j < 16 && 0 <= r < 4 && 0 <= l < 16 ==>
      z[ZIndex(j, r)][l] == if r < n then t[TileRow(j, r)][TileCol(r, l)] + x[TileCol(r, l)] * y[TileRow(j, r)]
                            else z0[ZIndex(j, r)][l]
  }

  /** One quadrant FMA extends the finished quadrants by one; with skip_z the quadrant starts
      from zero, which is t when t is the zero tile. */
  lemma {:induction false} FmaQuadrantStep(z: seq<seq<int>>, z': seq<seq<int>>, z0: seq<seq<int>>, t: seq<Vec>,
                                           x: seq<int>, y: seq<int>, n: int, skip: bool)
    requires ZShape(z) && ZShape(z0) && IsTile(t, 32, 32) && |x| == 128 && |y| == 128 && 0 <= n < 4
    requires skip ==> forall i, c :: 0 <= i < 32 && 0 <= c < 32 ==> t[i][c] == 0
    requires !skip ==> Holds(z0, t)
    requires Partial(z, z0, t, x, y, n)
    requires z' == FmaRows(z, x, y, n, TileCol(n, 0), TileRow(0, n), skip)
    ensures ZShape(z') && Partial(z', z0, t, x, y, n + 1)
  {
    forall j, r, l | 0 <= j < 16 && 0 <= r < 4 && 0 <= l < 16
      ensures z'[ZIndex(j, r)][l] == if r < n + 1 then t[TileRow(j, r)][TileCol(r, l)] + x[TileCol(r, l)] * y[TileRow(j, r)]
                                     else z0[ZIndex(j, r)][l]
    {
      if r == n {
        var i, c := TileRow(j, r), TileCol(r, l);
        assert TileCol(n, 0) + l == c && TileRow(0, n) + j == i;
        assert z'[ZIndex(j, r)][l] == (if skip then 0 else z[ZIndex(j, r)][l]) + x[c] * y[i];
        if skip {
          assert t[i][c] == 0;
        } else {
          assert z[ZIndex(j, r)][l] == z0[ZIndex(j, r)][l] == t[i][c];
        }
      }
    }
  }

  lemma {:induction false} PartialDone(z: seq<seq<int>>, z0: seq<seq<int>>, t: seq<Vec>, x: seq<int>, y: seq<int>)
    requires ZShape(z) && ZShape(z0) && IsTile(t, 32, 32) && |x| == 128 && |y| == 128
    requires Partial(z, z0, t, x, y, 4)
    ensures Holds(z, RankOne(t, y[..32], x[..32]))
  {
    var u := RankOne(t, y[..32], x[..32]);
    forall j, r, l | 0 <= j < 16 && 0 <= r < 4 && 0 <= l < 16
      ensures z[ZIndex(j, r)][l] == u[TileRow(j, r)][TileCol(r, l)]
    {
      SlotOfTile(j, r, l);
      var i, c := TileRow(j, r), TileCol(r, l);
      assert u[i][c] == t[i][c] + y[i] * x[c] == t[i][c] + x[c] * y[i];
    }
  }

  /** The four FMA32s of one k step (the skip_z forms when skip): Z, holding t (or anything,
      when skip and t is zero), ends up holding t plus the outer product of the 32 Y lanes
      (tile rows) and the 32 X lanes (tile columns). */
  method Fma4(amx: Unit, skip: bool, ghost t: seq<Vec>)
    requires amx.Valid() && amx.enabled && IsTile(t, 32, 32)
    requires skip ==> forall i, c :: 0 <= i < 32 && 0 <= c < 32 ==> t[i][c] == 0
    requires !skip ==> Holds(amx.z, t)
    modifies amx
    ensures amx.Valid() && amx.enabled && amx.x == old(amx.x) && amx.y == old(amx.y)
    ensures Holds(amx.z, RankOne(t, amx.y[..32], amx.x[..32]))
  {
    ghost var z0 := amx.z;
    ghost var zs := amx.z;
    FmaQuadrant(amx, 0, skip);
    FmaQuadrantStep(zs, amx.z, z0, t, amx.x, amx.y, 0, skip);
    zs := amx.z;
    FmaQuadrant(amx, 1, skip);
    FmaQuadrantStep(zs, amx.z, z0, t, amx.x, amx.y, 1, skip);
    zs := amx.z;
    FmaQuadrant(amx, 2, skip);
    FmaQuadrantStep(zs, amx.z, z0, t, amx.x, amx.y, 2, skip);
    zs := amx.z;
    FmaQuadrant(amx, 3, skip);
    FmaQuadrantStep(zs, amx.z, z0, t, amx.x, amx.y, 3, skip);
    PartialDone(amx.z, z0, t, amx.x, amx.y);
  }

  /** `AMX_LDY(ldy_multiple(a, 0))` then `AMX_LDX(ldx_multiple(b, 0))`: Y registers 0 and 1
      receive the 32 A values of one k, X registers 0 and 1 the 32 B values. */
  method LoadOperands(amx: Unit, a: seq<int>, b: seq<int>)
    requires amx.Valid() && amx.enabled && |a| == 32 && |b| == 32
    modifies amx
    ensures amx.Valid() && amx.enabled && amx.z == old(amx.z)
    ensures amx.y[..32] == a && amx.x[..32] == b
  {
    assert RegIndex(MultipleOperand(0, 0)) == 0;
    amx.Ldy(MultipleOperand(0, 0), a);
    amx.Ldx(MultipleOperand(0, 0), b);
    assert amx.y[..32] == a && amx.x[..32] == b;
  }

  /** `AMX_STX(stz_operand(p, h))`: the 16 floats of X register h, as they land at p. */
  method StoreXRegister(amx: Unit, h: int) returns (mem: seq<int>)
    requires amx.Valid() && amx.enabled && 0 <= h < 8
    ensures mem == amx.x[16 * h .. 16 * h + 16]
  {
    RegOperandIndex(0, h);
    mem := amx.Stx(AddressOperand(0, Index(h)));
  }

  /** The closing STZ loops when Z holds t: the C tile at (row, col) becomes t. */
  method StoreZAsTile(amx: Unit, C: array2<int>, row: int, col: int, ghost t: seq<Vec>)
    requires amx.Valid() && amx.enabled && IsTile(t, 32, 32) && Holds(amx.z, t)
    requires 0 <= row && row + 32 <= C.Length0 && 0 <= col && col + 32 <= C.Length1
    modifies C
    ensures forall i, j :: 0 <= i < C.Length0 && 0 <= j < C.Length1 ==>
      C[i, j] == if row <= i < row + 32 && col <= j < col + 32 then t[i - row][j - col] else old(C[i, j])
  {
    StoreZTile(amx, C, row, col);
    HoldsCells(amx.z, t);
  }

  /** Where a kernel's ghost tile starts: the accumulators, which Z holds unless first_k. */
  method StartTile(amx: Unit, C: array2<int>, row: int, col: int, firstK: bool) returns (ghost t: seq<Vec>)
    requires amx.Valid() && amx.enabled
    requires 0 <= row && row + 32 <= C.Length0 && 0 <= col && col + 32 <= C.Length1
    modifies amx
    ensures amx.Valid() && amx.enabled && IsTile(t, 32, 32)
    ensures forall i, c :: 0 <= i < 32 && 0 <= c < 32 ==> t[i][c] == Seed(C[row + i, col + c], firstK)
    ensures !firstK ==> Holds(amx.z, t)
  {
    t := Accumulators(C, row, col, 32, 32, firstK);
    if !firstK {
      LoadZTile(amx, C, row, col);
    }
  }

  /** One k step of `microkernel_32x32_no_pack`: gather the A column into `a_col`, load it
      and the B row, and issue the four FMAs.  Z goes from t to t plus the outer product of
      A's column pc + k and B's row pc + k. */
  method NoPackStep(amx: Unit, A: array2<int>, B: array2<int>, row: int, col: int, pc: int, k: int,
                    skip: bool, ghost t: seq<Vec>) returns (ghost t': seq<Vec>)
    requires amx.Valid() && amx.enabled && IsTile(t, 32, 32)
    requires 0 <= row && row + 32 <= A.Length0 && 0 <= col && col + 32 <= B.Length1
    requires 0 <= pc + k < A.Length1 && 0 <= pc + k < B.Length0
    requires skip ==> forall i, c :: 0 <= i < 32 && 0 <= c < 32 ==> t[i][c] == 0
    requires !skip ==> Holds(amx.z, t)
    modifies amx
    ensures amx.Valid() && amx.enabled && IsTile(t', 32, 32) && Holds(amx.z, t')
    ensures forall i, c :: 0 <= i < 32 && 0 <= c < 32 ==> t'[i][c] == t[i][c] + A[row + i, pc + k] * B[pc + k, col + c]
  {
    var aCol := new int[32];
    var i := 0;
    while i < 32
      invariant 0 <= i <= 32 && unchanged(amx)
      invariant forall i' :: 0 <= i' < i ==> aCol[i'] == A[row + i', pc + k]
    {
      aCol[i] := A[row + i, pc + k];
      i := i + 1;
    }
    assert aCol[..] == ColumnSegment(A, row, pc + k, 32);
    LoadOperands(amx, aCol[..], RowSegment(B, pc + k, col, 32));
    Fma4(amx, skip, t);
    t' := RankOne(t, ColumnSegment(A, row, pc + k, 32), RowSegment(B, pc + k, col, 32));
  }

  /** One k step of `microkernel_32x32_pack_a`: Y from the 32 packed A values of row k of
      the slice a, X from B's row pc + k. */
  method PackAStep(amx: Unit, a: seq<int>, B: array2<int>, col: int, pc: int, k: int,
                   skip: bool, ghost t: seq<Vec>) returns (ghost t': seq<Vec>)
    requires amx.Valid() && amx.enabled && IsTile(t, 32, 32)
    requires 0 <= k && (k + 1) * MR <= |a| && 0 <= col && col + NR <= B.Length1 && 0 <= pc + k < B.Length0
    requires skip ==> forall i, c :: 0 <= i < 32 && 0 <= c < 32 ==> t[i][c] == 0
    requires !skip ==> Holds(amx.z, t)
    modifies amx
    ensures amx.Valid() && amx.enabled && IsTile(t', 32, 32) && Holds(amx.z, t')
    ensures forall i, c :: 0 <= i < 32 && 0 <= c < 32 ==> t'[i][c] == t[i][c] + a[k * MR + i] * B[pc + k, col + c]
  {
    LoadOperands(amx, a[k * MR .. k * MR + MR], RowSegment(B, pc + k, col, NR));
    Fma4(amx, skip, t);
    t' := RankOne(t, a[k * MR .. k * MR + MR], RowSegment(B, pc + k, col, NR));
  }

  /** The pack_B = 1 step of `microkernel_32x32_pack_ab`: A column k goes to Y and row
      pc + k of B (columns col .. col + 31) to X, and X is stored back to the B buffer as
      its row k, which extends the packed slice by one row; the rest of the buffer and Z
      are kept. */
  method LoadAndPackB(amx: Unit, arow: seq<int>, B: array2<int>, Bp: array<int>, bo: int, col: int,
                      pc: int, K: int, k: int)
    requires amx.Valid() && amx.enabled && |arow| == MR && 0 <= k < K
    requires 0 <= pc && pc + K <= B.Length0 && 0 <= col && col + NR <= B.Length1
    requires 0 <= bo && K * NR <= Bp.Length - bo
    requires BSlicePacked(Bp[bo..], NR, B, pc, col, k)
    modifies amx, Bp
    ensures amx.Valid() && amx.enabled && amx.z == old(amx.z)
    ensures amx.y[..32] == arow && amx.x[..32] == Bp[bo + k * NR .. bo + k * NR + NR]
    ensures forall u :: 0 <= u < Bp.Length && !(bo + k * NR <= u < bo + k * NR + NR) ==> Bp[u] == old(Bp[u])
    ensures BSlicePacked(Bp[bo..], NR, B, pc, col, k + 1)
  {
    RowFits(k, K, NR);
    ghost var prev := Bp[bo..];
    LoadOperands(amx, arow, RowSegment(B, pc + k, col, NR));
    var lo := StoreXRegister(amx, 0);
    StoreVec(lo, Bp, bo + k * NR);
    var hi := StoreXRegister(amx, 1);
    StoreVec(hi, Bp, bo + k * NR + 16);
    assert Bp[bo..][..k * NR] == prev[..k * NR];
    assert BRowPacked(Bp[bo..], NR, k, 0, NR, B, pc, col) by {
      assert Bp[bo..][k * NR .. k * NR + NR] == RowSegment(B, pc + k, col, NR);
    }
    BGrow(prev, Bp[bo..], NR, B, pc, col, k);
    assert amx.x[..32] == Bp[bo + k * NR .. bo + k * NR + NR];
  }

  /** One k step of `microkernel_32x32_pack_ab`.  With packB, B's row pc + k goes into X and
      both X registers are stored as row k of the packed B slice at bo; without it, X is
      loaded from that row.  Either way the FMAs see row k of the slice, and what the tile
      gains is the next term of the packed-times-packed sum. */
  method PackABStep(amx: Unit, a: seq<int>, B: array2<int>, Bp: array<int>, bo: int, col: int, pc: int,
                    K: int, k: int, packB: bool, skip: bool, ghost t: seq<Vec>) returns (ghost t': seq<Vec>)
    requires amx.Valid() && amx.enabled && IsTile(t, 32, 32)
    requires 0 <= k < K && K * MR <= |a|
    requires 0 <= pc && pc + K <= B.Length0 && 0 <= col && col + NR <= B.Length1
    requires 0 <= bo && K * NR <= Bp.Length - bo
    requires packB ==> BSlicePacked(Bp[bo..], NR, B, pc, col, k)
    requires skip ==> forall i, c :: 0 <= i < 32 && 0 <= c < 32 ==> t[i][c] == 0
    requires !skip ==> Holds(amx.z, t)
    modifies amx, Bp
    ensures amx.Valid() && amx.enabled && IsTile(t', 32, 32) && Holds(amx.z, t')
    ensures !packB ==> unchanged(Bp)
    ensures forall u :: 0 <= u < Bp.Length && !(bo <= u < bo + K * NR) ==> Bp[u] == old(Bp[u])
    ensures packB ==> BSlicePacked(Bp[bo..], NR, B, pc, col, k + 1)
    ensures forall i, c :: 0 <= i < 32 && 0 <= c < 32 ==>
      t'[i][c] - DotPP(a, MR, i, Bp[bo..], NR, c, k + 1) == t[i][c] - DotPP(a, MR, i, old(Bp[bo..]), NR, c, k)
  {
    RowFits(k, K, MR);
    RowFits(k, K, NR);
    ghost var prev := Bp[bo..];
    if packB {
      LoadAndPackB(amx, a[k * MR .. k * MR + MR], B, Bp, bo, col, pc, K, k);
    } else {
      LoadOperands(amx, a[k * MR .. k * MR + MR], Bp[bo + k * NR .. bo + k * NR + NR]);
    }
    assert Bp[bo..][k * NR .. k * NR + NR] == Bp[bo + k * NR .. bo + k * NR + NR];
    Fma4(amx, skip, t);
    forall x | 0 <= x < k * NR ensures Bp[bo..][x] == prev[x] {
      assert Bp[bo..][x] == Bp[bo + x];
    }
    t' := RankOne(t, a[k * MR .. k * MR + MR], amx.x[..32]);
    RankOneStep(t, a, MR, Bp[bo..], prev, NR, k);
  }

  // ---------------------------------------------------------------------------------------
  // The kernels
  // ---------------------------------------------------------------------------------------

  /** `microkernel_32x32_no_pack`: the 32 x 32 tile of C at (row, col) receives its seed (zero
      when first_k, its old value otherwise) plus the sum over k < K of
      A[row + i, pc + k] * B[pc + k, col + j]; the rest of C is kept.  With first_k the
      kernel needs K >= 1: for K = 0 it would store whatever Z held. */
  method MicrokernelNoPack(amx: Unit, A: array2<int>, B: array2<int>, C: array2<int>,
                           row: int, col: int, pc: int, K: int, firstK: bool)
    requires amx.Valid() && amx.enabled && C != A && C != B
    requires 0 <= row && row + 32 <= A.Length0 && row + 32 <= C.Length0
    requires 0 <= col && col + 32 <= B.Length1 && col + 32 <= C.Length1
    requires 0 <= pc && 0 <= K && pc + K <= A.Length1 && pc + K <= B.Length0
    requires firstK ==> K >= 1
    modifies amx, C
    ensures amx.Valid() && amx.enabled
    ensures forall i, j :: 0 <= i < C.Length0 && 0 <= j < C.Length1 ==>
      C[i, j] == if row <= i < row + 32 && col <= j < col + 32
                 then Acc(old(C[i, j]), firstK, A, B, i, j, pc, pc + K)
                 else old(C[i, j])
  {
    ghost var t := StartTile(amx, C, row, col, firstK);
    var k := 0;
    while k < K
      invariant 0 <= k <= K && amx.Valid() && amx.enabled && unchanged(C)
      invariant IsTile(t, 32, 32) && ((!firstK || k > 0) ==> Holds(amx.z, t))
      invariant forall i, c :: 0 <= i < 32 && 0 <= c < 32 ==>
        t[i][c] == Seed(C[row + i, col + c], firstK) + DotMM(A, B, row + i, col + c, pc, pc + k)
    {
      t := NoPackStep(amx, A, B, row, col, pc, k, firstK && k == 0, t);
      k := k + 1;
    }
    StoreZAsTile(amx, C, row, col, t);
  }

  /** `microkernel_32x32_pack_a`: as the strided kernel, with the A tile read from a packed
      slice at ao (32 values per k). */
  method MicrokernelPackA(amx: Unit, Ap: array<int>, ao: int, B: array2<int>, C: array2<int>,
                          row: int, col: int, pc: int, KC: int, firstK: bool)
    requires amx.Valid() && amx.enabled && C != B
    requires 0 <= ao && 0 <= KC && KC * MR <= Ap.Length - ao
    requires 0 <= pc && pc + KC <= B.Length0 && 0 <= col && col + NR <= B.Length1
    requires 0 <= row && row + MR <= C.Length0 && col + NR <= C.Length1
    requires firstK ==> KC >= 1
    modifies amx, C
    ensures amx.Valid() && amx.enabled
    ensures forall i, j :: 0 <= i < C.Length0 && 0 <= j < C.Length1 ==>
      C[i, j] == if row <= i < row + MR && col <= j < col + NR
                 then Seed(old(C[i, j]), firstK) + DotPM(Ap[ao..], MR, i - row, B, pc, j, KC)
                 else old(C[i, j])
  {
    ghost var t := StartTile(amx, C, row, col, firstK);
    var k := 0;
    while k < KC
      invariant 0 <= k <= KC && amx.Valid() && amx.enabled && unchanged(C)
      invariant IsTile(t, 32, 32) && ((!firstK || k > 0) ==> Holds(amx.z, t))
      invariant forall i, c :: 0 <= i < 32 && 0 <= c < 32 ==>
        t[i][c] == Seed(C[row + i, col + c], firstK) + DotPM(Ap[ao..], MR, i, B, pc, col + c, k)
    {
      RowFits(k, KC, MR);
      t := PackAStep(amx, Ap[ao..], B, col, pc, k, firstK && k == 0, t);
      k := k + 1;
    }
    StoreZAsTile(amx, C, row, col, t);
  }

  /** `microkernel_32x32_pack_ab`: packed A slice at ao; with packB (the first ir of a panel)
      it packs the B tile into the slice at bo while using it, otherwise it reads that slice.
      The tile receives its seed plus the packed-times-packed sum over the slice as it stands
      afterwards; Bp changes only inside the slice, and only with packB. */
  method MicrokernelPackAB(amx: Unit, Ap: array<int>, ao: int, B: array2<int>, Bp: array<int>, bo: int,
                           C: array2<int>, row: int, col: int, pc: int, KC: int, firstK: bool, packB: bool)
    requires amx.Valid() && amx.enabled && Ap != Bp && C != B
    requires 0 <= ao && 0 <= KC && KC * MR <= Ap.Length - ao
    requires 0 <= bo && KC * NR <= Bp.Length - bo
    requires 0 <= pc && pc + KC <= B.Length0 && 0 <= col && col + NR <= B.Length1
    requires 0 <= row && row + MR <= C.Length0 && col + NR <= C.Length1
    requires firstK ==> KC >= 1
    modifies amx, Bp, C
    ensures amx.Valid() && amx.enabled
    ensures packB ==> BSlicePacked(Bp[bo..], NR, B, pc, col, KC)
    ensures !packB ==> unchanged(Bp)
    ensures forall u :: 0 <= u < Bp.Length && !(bo <= u < bo + KC * NR) ==> Bp[u] == old(Bp[u])
    ensures forall i, j :: 0 <= i < C.Length0 && 0 <= j < C.Length1 ==>
      C[i, j] == if row <= i < row + MR && col <= j < col + NR
                 then Seed(old(C[i, j]), firstK) + DotPP(Ap[ao..], MR, i - row, Bp[bo..], NR, j - col, KC)
                 else old(C[i, j])
  {
    ghost var t := StartTile(amx, C, row, col, firstK);
    var k := 0;
    while k < KC
      invariant 0 <= k <= KC && amx.Valid() && amx.enabled && unchanged(C)
      invariant !packB ==> unchanged(Bp)
      invariant forall u :: 0 <= u < Bp.Length && !(bo <= u < bo + KC * NR) ==> Bp[u] == old(Bp[u])
      invariant packB ==> BSlicePacked(Bp[bo..], NR, B, pc, col, k)
      invariant IsTile(t, 32, 32) && ((!firstK || k > 0) ==> Holds(amx.z, t))
      invariant forall i, c :: 0 <= i < 32 && 0 <= c < 32 ==>
        t[i][c] == Seed(C[row + i, col + c], firstK) + DotPP(Ap[ao..], MR, i, Bp[bo..], NR, c, k)
    {
      t := PackABStep(amx, Ap[ao..], B, Bp, bo, col, pc, KC, k, packB, firstK && k == 0, t);
      k := k + 1;
    }
    StoreZAsTile(amx, C, row, col, t);
  }
}
