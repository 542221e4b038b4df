// sdk/as/as.h and sdk/as/opflags.h: operands, registers and the REX flags.
module Operands {

  import opened Base

  // ----- Operand and register flags -----

  const BITS16: bv32 := 0x2
  const BITS32: bv32 := 0x4
  const BITS64: bv32 := 0x8
  const SIZE_MASK: bv32 := 0x2080_00ff
  const STRICT: bv32 := 0x400
  const REGISTER: bv32 := 0x1000
  const MEMORY: bv32 := 0xc000
  const REG_EA: bv32 := 0x9000
  const REG_GPR: bv32 := 0x20_9000
  const REG8: bv32 := 0x20_9001
  const REG32: bv32 := 0x20_9004
  const REG64: bv32 := 0x20_9008
  const REG_HIGH: bv32 := 0x1028_9001
  const IP_REL: bv32 := 0x2_c000

  predicate IsClass(c: bv32, flags: bv32) { c & !flags == 0 }

  predicate Has(flags: bv32, mask: bv32) { flags & mask != 0 }

  // A register: its enumeration value, its number (as_regvals) and its flags
  // (as_reg_flags). The generated tables are not part of this model, only what they
  // guarantee.
  datatype Reg = Reg(id: nat, val: nat, flags: bv32)

  const R_BP := 6
  const R_BX := 8
  const R_DI := 30
  const R_SI := 112

  predicate ValidReg(r: Reg) {
    1 <= r.id < 164 && r.val < 16 &&
    (r.id == R_BX ==> r.val == 3) && (r.id == R_BP ==> r.val == 5) &&
    (r.id == R_SI ==> r.val == 6) && (r.id == R_DI ==> r.val == 7)
  }

  const REG_NUM_ESP := 4
  const REG_NUM_EBP := 5

  const NO_SEG := -1

  datatype Hint = NoHint | MakeBase | NotBase

  // Registers are None where the source has a number that is no register.
  datatype Operand = Operand(
    flags: bv32,
    dispSize: int,
    basereg: Option<Reg>,
    indexreg: Option<Reg>,
    scale: int,
    hintbase: int,
    hinttype: Hint,
    segment: int,
    offset: int,
    wrt: int,
    byteoffs: bool,
    wordoffs: bool,
    timestwo: bool,
    unknown: bool)

  predicate ValidOperand(o: Operand) {
    (o.basereg.Some? ==> ValidReg(o.basereg.value)) && (o.indexreg.Some? ==> ValidReg(o.indexreg.value))
  }

  // ----- REX flags -----

  // The bits of the source's rex field, without the two for DREX.
  datatype Rex = Rex(b: bool, x: bool, r: bool, w: bool, l: bool, p: bool, h: bool, v: bool, nh: bool)

  const NO_REX := Rex(false, false, false, false, false, false, false, false, false)

  function Or(a: Rex, c: Rex): Rex {
    Rex(a.b || c.b, a.x || c.x, a.r || c.r, a.w || c.w, a.l || c.l, a.p || c.p, a.h || c.h, a.v || c.v, a.nh || c.nh)
  }

  function And(a: Rex, c: Rex): Rex {
    Rex(a.b && c.b, a.x && c.x, a.r && c.r, a.w && c.w, a.l && c.l, a.p && c.p, a.h && c.h, a.v && c.v, a.nh && c.nh)
  }

  lemma OrNone(a: Rex)
    ensures Or(a, NO_REX) == a
  {}

  const REX_B := NO_REX.(b := true)
  const REX_X := NO_REX.(x := true)
  const REX_W := NO_REX.(w := true)
  const REX_L := NO_REX.(l := true)
  const REX_V := NO_REX.(v := true)
  const REX_NH := NO_REX.(nh := true)

  // REX_REAL: the bits of an actual REX prefix.
  predicate IsReal(a: Rex) { a.b || a.x || a.r || a.w || a.p }

  // rexflags, sdk/as/assemble.c.
  function RexFlags(val: int, flags: bv32, mask: Rex): Rex {
    var high := IsClass(REG_HIGH, flags);
    And(Rex(val >= 8, val >= 8, val >= 8, Has(flags, BITS64), false, !high && IsClass(REG8, flags) && val >= 4, high, false, false),
        mask)
  }
}
