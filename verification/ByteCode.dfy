// sdk/as/assemble.c: the bytecode of an instruction template, which calcsize and gencode
// both interpret, and what the two passes read besides it.
module ByteCode {
  import opened Base
  import opened Operands
  import EffectiveAddress

  // ----- The codes -----

  // One constructor for each group of codes with the same treatment in both passes. Codes
  // that differ in their warnings only are one group; DREX codes are Unknown here.
  datatype Kind =
    | Literal | Extend | PlusReg | ImmByte | ImmWord | ImmSized | ImmDword | ImmAddress | ImmQword
    | RelByte | RelWord | RelSized | RelDword | FarSegment
    | SignedWord | SignedWordOpcode | SignedDword | SignedDwordOpcode
    | RegImm | RegConst | RegOnly | Vex | VexNone | Silent
    | Addr16 | Addr32 | Addr64 | Op16 | Op32 | NoRexW | RexW | NoHigh
    | Condition | Fixed | LockR | Rep | RepNe | Reserve | Wait | PushPop | PushPopFsGs | RelJump | ModRm
    | Unknown

  predicate In4(c: int, first: int) { first <= c < first + 4 }

  function KindOf(c: int): Kind {
    if c < 0x40 then LowKind(c)
    else if c < 0x60 then (if c % 8 < 4 then ModRm else Unknown)
    else if c < 0x80 then
      if In4(c, 0x60) then SignedWord else if In4(c, 0x64) then SignedWordOpcode
      else if In4(c, 0x68) then SignedDword else if In4(c, 0x6c) then SignedDwordOpcode
      else if c == 0x7a then RegImm else if c == 0x7b then RegConst else if c == 0x7c then RegOnly
      else Unknown
    else if c < 0xa0 then ModRm
    else if c < 0xc0 then
      if In4(c, 0xa8) then SignedDword else if In4(c, 0xac) then ImmDword
      else if In4(c, 0xb0) then Vex else if c == 0xb8 then VexNone
      else if In4(c, 0xbc) then ImmByte
      else Unknown
    else HighKind(c)
  }

  function LowKind(c: int): Kind {
    if 1 <= c <= 4 then Literal
    else if 5 <= c <= 7 then Extend
    else if In4(c, 0x08) then PlusReg
    else if In4(c, 0x0c) || In4(c, 0x10) || In4(c, 0x14) then ImmByte
    else if In4(c, 0x18) then ImmWord
    else if In4(c, 0x1c) then ImmSized
    else if In4(c, 0x20) then ImmDword
    else if In4(c, 0x24) then ImmAddress
    else if In4(c, 0x28) then RelByte
    else if In4(c, 0x2c) then ImmQword
    else if In4(c, 0x30) then RelWord
    else if In4(c, 0x34) then RelSized
    else if In4(c, 0x38) then RelDword
    else if In4(c, 0x3c) then FarSegment
    else Unknown
  }

  function HighKind(c: int): Kind {
    if In4(c, 0xc0) || c == 0xca || In4(c, 0xcc) || c == 0xd2 || c == 0xd9 || c == 0xdd || c == 0xf0 || c == 0xf4 || c == 0xf5
       || 0xf8 <= c <= 0xfa then Silent
    else if c == 0xc8 then Addr16
    else if c == 0xc9 then Addr32
    else if c == 0xcb then Addr64
    else if c == 0xd0 then Op16
    else if c == 0xd1 then Op32
    else if c == 0xd3 then NoRexW
    else if c == 0xd4 then RexW
    else if c == 0xd5 then NoHigh
    else if c == 0xd8 then Condition
    else if c == 0xda || c == 0xdb || 0xf1 <= c <= 0xf3 || c == 0xf6 || c == 0xf7 then Fixed
    else if c == 0xdc then LockR
    else if c == 0xde then Rep
    else if c == 0xdf then RepNe
    else if c == 0xe0 then Reserve
    else if c == 0xe1 then Wait
    else if c == 0xe4 || c == 0xe5 then PushPop
    else if c == 0xe6 || c == 0xe7 then PushPopFsGs
    else if c == 0xfb then RelJump
    else Unknown
  }

  // The arguments that follow a code in the bytecode.
  function Arguments(c: int): nat {
    match KindOf(c)
    case Literal => if c >= 0 then c else 0
    case PlusReg => 1
    case SignedWordOpcode => 1
    case SignedDwordOpcode => 1
    case RegImm => 1
    case RegConst => 1
    case RegOnly => 1
    case Vex => 2
    case VexNone => 2
    case Condition => 1
    case _ => 0
  }

  // From position i the codes run up to a terminating zero, every one with its arguments.
  predicate Terminated(codes: seq<int>, i: nat)
    decreases |codes| - i
  {
    i < |codes| &&
    (codes[i] == 0 ||
     (codes[i] > 0 && i + 1 + Arguments(codes[i]) < |codes| && Terminated(codes, i + 1 + Arguments(codes[i]))))
  }

  // A code with the operand numbers it names, as the preceding extension code widens them.
  datatype Instr = Instr(c: int, op1: nat, op2: nat, args: seq<int>)

  function InstrAt(codes: seq<int>, i: nat, opex: int): Instr
    requires i < |codes| && i + 1 + Arguments(codes[i]) <= |codes|
  {
    var c := codes[i];
    Instr(c, c % 4 + 4 * (opex % 2), c / 8 % 4 + 4 * (opex / 2 % 2), codes[i + 1..i + 1 + Arguments(c)])
  }

  function Opex(c: int): int {
    if KindOf(c).Extend? then c else 0
  }

  function Parse(codes: seq<int>, i: nat, opex: int): seq<Instr>
    requires Terminated(codes, i)
    decreases |codes| - i
  {
    if codes[i] == 0 then []
    else [InstrAt(codes, i, opex)] + Parse(codes, i + 1 + Arguments(codes[i]), Opex(codes[i]))
  }

  // ----- What both passes read -----

  const P_NONE := 0
  const P_A16 := 164
  const P_A32 := 165
  const P_A64 := 166
  const P_ASP := 167
  const P_LOCK := 168
  const P_O16 := 169
  const P_O32 := 170
  const P_O64 := 171
  const P_OSP := 172
  const P_REP := 173
  const P_REPE := 174
  const P_REPNE := 175
  const P_REPNZ := 176
  const P_REPZ := 177
  const P_WAIT := 179

  // The prefix slots, in the order in which they are emitted.
  datatype Prefixes = Prefixes(wait: int, lrep: int, seg: int, osize: int, asize: int)

  // What neither pass changes.
  datatype Env = Env(bits: int, oprs: seq<Operand>, addrSize: nat, condition: nat, x8664: bool, optimizing: int)

  // The fields of the instruction that the passes write.
  datatype Fields = Fields(rex: Rex, drexdst: int, vexCm: int, vexWlp: int, prefixes: Prefixes)

  const BLANK := Operand(0, 0, None, None, 0, 0, NoHint, 0, 0, 0, false, false, false, false)

  // The tables name operands that exist only; a number past them reads a blank operand.
  function Opr(e: Env, i: nat): Operand {
    if i < |e.oprs| then e.oprs[i] else BLANK
  }

  predicate PossibleSbyte(e: Env, o: Operand) {
    o.wrt == NO_SEG && o.segment == NO_SEG && !o.unknown && e.optimizing >= 0 && !Has(o.flags, STRICT)
  }

  predicate IsSbyte16(e: Env, o: Operand) {
    PossibleSbyte(e, o) && -128 <= Wrap(o.offset, EffectiveAddress.TWO_16) <= 127
  }

  predicate IsSbyte32(e: Env, o: Operand) {
    PossibleSbyte(e, o) && -128 <= Wrap(o.offset, EffectiveAddress.TWO_32) <= 127
  }

  // The size of an operand that names its own, else the mode's.
  function SizedLength(e: Env, o: Operand, named: bv32): nat {
    if Has(o.flags, named) then (if Has(o.flags, BITS16) then 2 else 4) else if e.bits == 16 then 2 else 4
  }

  // The effective address a ModRM code asks for; None where the passes report an error.
  function EaFor(e: Env, t: Instr): Option<EffectiveAddress.Ea> {
    var opx, opy := Opr(e, t.op1), Opr(e, t.op2);
    if t.c >= 0x80 then EffectiveAddress.EaOf(opy, e.bits, e.addrSize, t.c % 8, 0)
    else if opx.basereg.None? then None
    else EffectiveAddress.EaOf(opy, e.bits, e.addrSize, opx.basereg.value.val, opx.basereg.value.flags)
  }
}
