/** The Apple AMX instruction encoding of gemm_exercise/amx.h: the 64-bit operand words the
    kernels hand to AMX instructions, and the 32-bit instruction words the asm macros emit.

    Load/store operands carry a 56-bit address in bits 0-55, a register (X/Y) or row (Z)
    index from bit 56, and the "multiple registers" flags in bits 62 and 60.  FMA32 operands
    carry a y byte offset in bits 0-8, an x byte offset in bits 10-18, a Z row in bits 20-25,
    the skip_z flag in bit 27 and the vector-mode flag in bit 63. */
module Amx {

  // ---------------------------------------------------------------------------------------
  // Operand fields
  // ---------------------------------------------------------------------------------------

  /** `(1ULL << 57) - 1`, the mask every load/store builder applies to the pointer. */
  const PtrMask: bv64 := (1 << 57) - 1

  function AddressField(w: bv64): bv64 {
    w & ((1 << 56) - 1)
  }

  /** The X or Y register index of a load/store operand (eight registers). */
  function RegField(w: bv64): bv64 {
    (w >> 56) & 7
  }

  /** The Z row index of a Z load/store operand (64 rows). */
  function RowField(w: bv64): bv64 {
    (w >> 56) & 63
  }

  predicate Multiple(w: bv64) {
    w & (1 << 62) != 0
  }

  predicate Multiple4Flag(w: bv64) {
    w & (1 << 60) != 0
  }

  /** How many consecutive 64-byte registers a load or store moves: two with bit 62, four
      with bits 62 and 60, one otherwise. */
  function RegCount(w: bv64): (c: int)
    ensures c == 1 || c == 2 || c == 4
  {
    if !Multiple(w) then 1 else if Multiple4Flag(w) then 4 else 2
  }

  function ZRowField(w: bv64): bv64 {
    (w >> 20) & 63
  }

  function XOffsetField(w: bv64): bv64 {
    (w >> 10) & 511
  }

  function YOffsetField(w: bv64): bv64 {
    w & 511
  }

  predicate SkipZ(w: bv64) {
    w & (1 << 27) != 0
  }

  predicate VectorMode(w: bv64) {
    w & (1 << 63) != 0
  }

  /** The fields as integers, each read through a bit-vector of its own width. */
  function RegIndex(w: bv64): (r: int)
    ensures 0 <= r < 8
  {
    (RegField(w) as bv3) as int
  }

  function RowIndex(w: bv64): (r: int)
    ensures 0 <= r < 64
  {
    (RowField(w) as bv6) as int
  }

  function ZRowIndex(w: bv64): (r: int)
    ensures 0 <= r < 64
  {
    (ZRowField(w) as bv6) as int
  }

  function XOffset(w: bv64): (o: int)
    ensures 0 <= o < 512
  {
    (XOffsetField(w) as bv9) as int
  }

  function YOffset(w: bv64): (o: int)
    ensures 0 <= o < 512
  {
    (YOffsetField(w) as bv9) as int
  }

  /** A C `int` index below 64 passed as the `uint64_t` index argument of a builder. */
  function Index(j: int): (b: bv64)
    requires 0 <= j < 64
    ensures b < 64
  {
    (j as bv6) as bv64
  }

  // ---------------------------------------------------------------------------------------
  // Operand builders
  // ---------------------------------------------------------------------------------------

  /** `ldx_operand`, and `ldy_operand`, `stz_operand` and `ldz_operand`, which are the same
      expression: a pointer below 2^56 and a register index below 8 come back out of their
      fields. */
  function AddressOperand(ptr: bv64, idx: bv64): (w: bv64)
    ensures ptr < 1 << 56 && idx < 8 ==> AddressField(w) == ptr && RegField(w) == idx
  {
    (ptr & PtrMask) | (idx << 56)
  }

  /** As Z load/store operands (`ldz_operand`, `stz_operand`) the index is a row below 64;
      it comes back out of the 6-bit row field, and the operand moves one row. */
  lemma RowOperandFields(ptr: bv64, idx: bv64)
    requires ptr < 1 << 56 && idx < 64
    ensures AddressField(AddressOperand(ptr, idx)) == ptr && RowField(AddressOperand(ptr, idx)) == idx
    ensures RegCount(AddressOperand(ptr, idx)) == 1
  {
  }

  /** The Z row the kernels pass (`j * 4 + r`) is the row a Z load or store addresses. */
  lemma RowOperandIndex(ptr: bv64, j: int)
    requires ptr < 1 << 56 && 0 <= j < 64
    ensures RowIndex(AddressOperand(ptr, Index(j))) == j && RegCount(AddressOperand(ptr, Index(j))) == 1
  {
    RowOperandFields(ptr, Index(j));
    assert RowField(AddressOperand(ptr, Index(j))) as bv6 == j as bv6;
  }

  /** Likewise for the X register the kernels pass to a store (`0` or `1`). */
  lemma RegOperandIndex(ptr: bv64, j: int)
    requires ptr < 1 << 56 && 0 <= j < 8
    ensures RegIndex(AddressOperand(ptr, Index(j))) == j && RegCount(AddressOperand(ptr, Index(j))) == 1
  {
    RowOperandFields(ptr, Index(j));
  }

  /** `ldx_multiple` / `ldy_multiple` / `stz_multiple`: the fields are those of the single
      form and two registers move. */
  function MultipleOperand(ptr: bv64, idx: bv64): (w: bv64)
    ensures ptr < 1 << 56 && idx < 8 ==> AddressField(w) == ptr && RegField(w) == idx && RegCount(w) == 2
  {
    (ptr & PtrMask) | (idx << 56) | (1 << 62)
  }

  /** `ldx_multiple4` / `ldy_multiple4`: the fields are those of the single form and four
      registers move. */
  function Multiple4Operand(ptr: bv64, idx: bv64): (w: bv64)
    ensures ptr < 1 << 56 && idx < 8 ==> AddressField(w) == ptr && RegField(w) == idx && RegCount(w) == 4
  {
    (ptr & PtrMask) | (idx << 56) | (1 << 62) | (1 << 60)
  }

  /** The pair form is the single form with bit 62 set; the four-register form adds bit 60. */
  lemma MultipleFlags(ptr: bv64, idx: bv64)
    ensures MultipleOperand(ptr, idx) == AddressOperand(ptr, idx) | (1 << 62)
    ensures Multiple4Operand(ptr, idx) == MultipleOperand(ptr, idx) | (1 << 60)
  {
  }

  /** `fma32_operand`: with z_row below 64 and byte offsets below 512 every field comes back
      out, and neither skip_z nor vector mode is set. */
  function Fma32Operand(zRow: bv64, xOffset: bv64, yOffset: bv64): (w: bv64)
    ensures zRow < 64 && xOffset < 512 && yOffset < 512 ==>
      ZRowField(w) == zRow && XOffsetField(w) == xOffset && YOffsetField(w) == yOffset &&
      !SkipZ(w) && !VectorMode(w)
  {
    (zRow << 20) | (xOffset << 10) | yOffset
  }

  /** `fma32_operand_skip_z`: the same fields, with skip_z set. */
  function Fma32OperandSkipZ(zRow: bv64, xOffset: bv64, yOffset: bv64): (w: bv64)
    ensures zRow < 64 && xOffset < 512 && yOffset < 512 ==>
      ZRowField(w) == zRow && XOffsetField(w) == xOffset && YOffsetField(w) == yOffset &&
      SkipZ(w) && !VectorMode(w)
  {
    (1 << 27) | (zRow << 20) | (xOffset << 10) | yOffset
  }

  lemma SkipZFlag(zRow: bv64, xOffset: bv64, yOffset: bv64)
    ensures Fma32OperandSkipZ(zRow, xOffset, yOffset) == Fma32Operand(zRow, xOffset, yOffset) | (1 << 27)
  {
  }

  /** Bit 56 is both the top bit the pointer mask keeps and the low bit of the index: a
      pointer with bit 56 set reads back with index 1 when the index is 0. */
  lemma PointerBit56Collides()
    ensures RegField(AddressOperand(1 << 56, 0)) == 1
    ensures AddressField(AddressOperand(1 << 56, 0)) == 0
  {
  }

  // ---------------------------------------------------------------------------------------
  // Instruction words
  // ---------------------------------------------------------------------------------------

  /** The operations the macros `AMX_LDX` .. `AMX_GENLUT` emit with a register operand. */
  datatype Op = Ldx | Ldy | Stx | Sty | Ldz | Stz | Ldzi | Stzi | Extrx | Extry
              | Fma64 | Fms64 | Fma32 | Fms32 | Mac16 | Fma16 | Fms16
              | Vecint | Vecfp | Matint | Matfp | Genlut

  /** The op number each macro passes to `AMX_OP_GPR`; 17 belongs to `AMX_SET`/`AMX_CLR`. */
  function OpNumber(op: Op): (k: int)
    ensures 0 <= k < 23 && k != 17
  {
    match op
    case Ldx => 0    case Ldy => 1    case Stx => 2    case Sty => 3
    case Ldz => 4    case Stz => 5    case Ldzi => 6   case Stzi => 7
    case Extrx => 8  case Extry => 9  case Fma64 => 10 case Fms64 => 11
    case Fma32 => 12 case Fms32 => 13 case Mac16 => 14 case Fma16 => 15
    case Fms16 => 16 case Vecint => 18 case Vecfp => 19 case Matint => 20
    case Matfp => 21 case Genlut => 22
  }

  /** The table read backwards: which macro an op number belongs to. */
  function OpOfNumber(k: int): (r: Option<Op>)
    ensures r.Some? ==> OpNumber(r.value) == k
  {
    if k == 0 then Some(Ldx) else if k == 1 then Some(Ldy) else if k == 2 then Some(Stx)
    else if k == 3 then Some(Sty) else if k == 4 then Some(Ldz) else if k == 5 then Some(Stz)
    else if k == 6 then Some(Ldzi) else if k == 7 then Some(Stzi) else if k == 8 then Some(Extrx)
    else if k == 9 then Some(Extry) else if k == 10 then Some(Fma64) else if k == 11 then Some(Fms64)
    else if k == 12 then Some(Fma32) else if k == 13 then Some(Fms32) else if k == 14 then Some(Mac16)
    else if k == 15 then Some(Fma16) else if k == 16 then Some(Fms16) else if k == 18 then Some(Vecint)
    else if k == 19 then Some(Vecfp) else if k == 20 then Some(Matint) else if k == 21 then Some(Matfp)
    else if k == 22 then Some(Genlut) else None
  }

  datatype Option<T> = None | Some(value: T)

  /** An emitted instruction: an op with the general-purpose register x0 .. x30 that holds
      its operand, or the enable/disable pair. */
  datatype Instruction = Gpr(op: Op, reg: int) | Set | Clr

  predicate WellFormed(i: Instruction) {
    i.Gpr? ==> 0 <= i.reg <= 30
  }

  const WordBase := 0x201000

  /** `.word (0x201000 + (op << 5) + field)` with a 5-bit op and a 5-bit field (the shift of
      a value below 32 is the product by 32): the word lies in the 1024 words above the base
      and splits back into op and field. */
  function Word(op: int, field: int): (w: int)
    requires 0 <= op < 32 && 0 <= field < 32
    ensures WordBase <= w < WordBase + 1024
    ensures (w - WordBase) / 32 == op && (w - WordBase) % 32 == field
  {
    WordBase + op * 32 + field
  }

  /** The value the assembler reads for `0%1` when %1 is the register name `x<r>`: the
      decimal digits of r after `0x`, i.e. r read as hexadecimal. */
  function HexReading(r: int): int
    requires 0 <= r <= 30
  {
    (r / 10) * 16 + r % 10
  }

  /** `0%1 - ((0%1 >> 4) * 6)`: subtracting six per hexadecimal ten recovers the register
      number, which fits the 5-bit field. */
  function GprField(r: int): (f: int)
    requires 0 <= r <= 30
    ensures f == r && f < 32
  {
    var h := HexReading(r);
    h - (h / 16) * 6
  }

  /** The word each macro emits: `AMX_OP_GPR(op, gpr)` for register ops, and
      `AMX_NOP_OP_IMM5(17, 0)` / `AMX_NOP_OP_IMM5(17, 1)` for `AMX_SET` / `AMX_CLR`. */
  function Encode(i: Instruction): (w: int)
    requires WellFormed(i)
    ensures WordBase <= w < WordBase + 1024
  {
    match i
    case Gpr(op, reg) => Word(OpNumber(op), GprField(reg))
    case Set => Word(17, 0)
    case Clr => Word(17, 1)
  }

  /** Reads an instruction word back; None for words the macros never emit. */
  function Decode(w: int): (r: Option<Instruction>)
    ensures r.Some? ==> WellFormed(r.value)
  {
    if !(WordBase <= w < WordBase + 1024) then None
    else
      var k := (w - WordBase) / 32;
      var f := (w - WordBase) % 32;
      if k == 17 then
        if f == 0 then Some(Set) else if f == 1 then Some(Clr) else None
      else
        match OpOfNumber(k)
        case None => None
        case Some(op) => if f <= 30 then Some(Gpr(op, f)) else None
  }

  lemma OpRoundTrip(op: Op)
    ensures OpOfNumber(OpNumber(op)) == Some(op)
  {
  }

  lemma GprRoundTrip(op: Op, reg: int)
    requires 0 <= reg <= 30
    ensures Decode(Word(OpNumber(op), GprField(reg))) == Some(Gpr(op, reg))
  {
    OpRoundTrip(op);
  }

  /** Every emitted word names its instruction: decoding an encoding gives it back. */
  lemma DecodeEncode(i: Instruction)
    requires WellFormed(i)
    ensures Decode(Encode(i)) == Some(i)
  {
    match i
    case Gpr(op, reg) => GprRoundTrip(op, reg);
    case Set =>
    case Clr =>
  }

  /** And every word that decodes is the encoding of what it decodes to. */
  lemma EncodeDecode(w: int)
    requires Decode(w).Some?
    ensures Encode(Decode(w).value) == w
  {
    var k := (w - WordBase) / 32;
    var f := (w - WordBase) % 32;
    assert w == WordBase + k * 32 + f;
  }
}
