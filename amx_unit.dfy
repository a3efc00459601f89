/** The AMX coprocessor state the Apple kernels drive, as gemm_exercise/amx.h describes it:
    eight 64-byte X registers and eight Y registers (16 floats each) and a 64-row Z
    accumulator of 16 floats per row.  Each instruction takes its operand word as built by
    the encoders of module Amx and decodes the fields it needs. */
module AmxUnit {
  import opened Amx

  /** Z row j * 4 + r: FMA32 output row j of the 16 x 16 product written with z_row r. */
  function ZIndex(j: int, r: int): int {
    4 * j + r
  }

  ghost predicate ZShape(z: seq<seq<int>>) {
    |z| == 64 && forall q :: 0 <= q < 64 ==> |z[q]| == 16
  }

  /** A register file with mem written from lane offset o on; all other lanes keep their
      value. */
  function Loaded(file: seq<int>, o: int, mem: seq<int>): (f: seq<int>)
    requires 0 <= o && o + |mem| <= |file|
    ensures |f| == |file|
    ensures forall t :: 0 <= t < |f| ==> f[t] == if o <= t < o + |mem| then mem[t - o] else file[t]
  {
    file[..o] + mem + file[o + |mem|..]
  }

  /** The matrix-mode FMA32 with z_row zr and lane offsets xi, yi into X and Y: for
      j, i < 16, row j * 4 + zr lane i becomes x[xi + i] * y[yi + j] added to its old value
      (to zero with skip_z).  The other Z rows keep their value. */
  function FmaRows(z: seq<seq<int>>, x: seq<int>, y: seq<int>, zr: int, xi: int, yi: int, skip: bool): (z': seq<seq<int>>)
    requires ZShape(z)
    requires 0 <= zr < 4 && 0 <= xi && xi + 16 <= |x| && 0 <= yi && yi + 16 <= |y|
    ensures ZShape(z')
    ensures forall j, r, l :: 0 <= j < 16 && 0 <= r < 4 && 0 <= l < 16 ==>
      z'[ZIndex(j, r)][l] == if r == zr then (if skip then 0 else z[ZIndex(j, r)][l]) + x[xi + l] * y[yi + j]
                             else z[ZIndex(j, r)][l]
  {
    var z' := seq(64, q requires 0 <= q < 64 =>
      if q % 4 == zr then seq(16, l requires 0 <= l < 16 => (if skip then 0 else z[q][l]) + x[xi + l] * y[yi + q / 4])
      else z[q]);
    assert forall j, r :: 0 <= j < 16 && 0 <= r < 4 ==> ZIndex(j, r) % 4 == r && ZIndex(j, r) / 4 == j;
    z'
  }

  class Unit {
    /** Set by `AMX_SET`, cleared by `AMX_CLR`. */
    var enabled: bool
    /** X registers: register r lane l at 16 * r + l. */
    var x: seq<int>
    /** Y registers, laid out as X. */
    var y: seq<int>
    /** Z accumulator rows. */
    var z: seq<seq<int>>

    ghost predicate Valid()
      reads this
    {
      |x| == 128 && |y| == 128 && ZShape(z)
    }

    /** A disabled unit with the given register contents (whatever the hardware holds). */
    constructor(x0: seq<int>, y0: seq<int>, z0: seq<seq<int>>)
      requires |x0| == 128 && |y0| == 128 && ZShape(z0)
      ensures Valid() && !enabled && x == x0 && y == y0 && z == z0
    {
      enabled := false;
      x := x0;
      y := y0;
      z := z0;
    }

    /** `AMX_SET()`. */
    method Set()
      requires Valid()
      modifies this
      ensures Valid() && enabled && x == old(x) && y == old(y) && z == old(z)
    {
      enabled := true;
    }

    /** `AMX_CLR()`. */
    method Clr()
      requires Valid()
      modifies this
      ensures Valid() && !enabled && x == old(x) && y == old(y) && z == old(z)
    {
      enabled := false;
    }

    /** `AMX_LDX(op)`: the RegCount(op) registers from RegIndex(op) on receive the 64-byte
        rows mem holds at the operand's address. */
    method Ldx(op: bv64, mem: seq<int>)
      requires Valid() && enabled
      requires |mem| == 16 * RegCount(op) && 16 * RegIndex(op) + |mem| <= 128
      modifies this
      ensures Valid() && enabled && y == old(y) && z == old(z)
      ensures x == Loaded(old(x), 16 * RegIndex(op), mem)
    {
      x := Loaded(x, 16 * RegIndex(op), mem);
    }

    /** `AMX_LDY(op)`, as `AMX_LDX` for the Y registers. */
    method Ldy(op: bv64, mem: seq<int>)
      requires Valid() && enabled
      requires |mem| == 16 * RegCount(op) && 16 * RegIndex(op) + |mem| <= 128
      modifies this
      ensures Valid() && enabled && x == old(x) && z == old(z)
      ensures y == Loaded(old(y), 16 * RegIndex(op), mem)
    {
      y := Loaded(y, 16 * RegIndex(op), mem);
    }

    /** `AMX_STX(op)`: the contents of the RegCount(op) registers from RegIndex(op) on, as
        they land at the operand's address. */
    method Stx(op: bv64) returns (mem: seq<int>)
      requires Valid() && enabled
      requires 16 * RegIndex(op) + 16 * RegCount(op) <= 128
      ensures |mem| == 16 * RegCount(op)
      ensures forall l :: 0 <= l < |mem| ==> mem[l] == x[16 * RegIndex(op) + l]
    {
      mem := x[16 * RegIndex(op) .. 16 * RegIndex(op) + 16 * RegCount(op)];
    }

    /** `AMX_LDZ(op)` with a single-row operand: Z row RowIndex(op) receives mem. */
    method Ldz(op: bv64, mem: seq<int>)
      requires Valid() && enabled && RegCount(op) == 1 && |mem| == 16
      modifies this
      ensures Valid() && enabled && x == old(x) && y == old(y)
      ensures z == old(z)[RowIndex(op) := mem]
    {
      z := z[RowIndex(op) := mem];
    }

    /** `AMX_STZ(op)` with a single-row operand: the 16 lanes of Z row RowIndex(op). */
    method Stz(op: bv64) returns (mem: seq<int>)
      requires Valid() && enabled && RegCount(op) == 1
      ensures mem == z[RowIndex(op)] && |mem| == 16
    {
      mem := z[RowIndex(op)];
    }

    /** `AMX_FMA32(op)` in matrix mode, for z_row 0 .. 3 and 4-byte aligned offsets that stay
        inside the register files. */
    method Fma32(op: bv64)
      requires Valid() && enabled && !VectorMode(op) && ZRowIndex(op) < 4
      requires XOffset(op) % 4 == 0 && XOffset(op) / 4 + 16 <= 128
      requires YOffset(op) % 4 == 0 && YOffset(op) / 4 + 16 <= 128
      modifies this
      ensures Valid() && enabled && x == old(x) && y == old(y)
      ensures z == FmaRows(old(z), x, y, ZRowIndex(op), XOffset(op) / 4, YOffset(op) / 4, SkipZ(op))
    {
      z := FmaRows(z, x, y, ZRowIndex(op), XOffset(op) / 4, YOffset(op) / 4, SkipZ(op));
    }
  }
}
