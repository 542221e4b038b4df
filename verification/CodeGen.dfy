// sdk/as/assemble.c: gencode, the pass that emits an instruction, and out, which hands
// every piece to the output format.
module CodeGen {
  import opened Base
  import opened Operands
  import opened ByteCode
  import opened EffectiveAddress
  import opened CodeSize

  // ----- Output -----

  // What out passes on: bytes, an address or a relative address to relocate, reserved space.
  datatype Chunk =
    | Raw(bytes: seq<int>)
    | Address(value: int, size: nat, segment: int, wrt: int)
    | Relative(value: int, size: nat, distance: int, segment: int, wrt: int)
    | Space(size: nat)
  {
    function Size(): nat { if Raw? then |bytes| else size }
  }

  function TotalSize(cs: seq<Chunk>): nat {
    if cs == [] then 0 else cs[0].Size() + TotalSize(cs[1..])
  }

  lemma {:induction false} TotalConcat(a: seq<Chunk>, b: seq<Chunk>)
    ensures TotalSize(a + b) == TotalSize(a) + TotalSize(b)
    decreases |a|
  {
    if a == [] {
      assert a + b == b;
    } else {
      assert (a + b)[1..] == a[1..] + b;
      TotalConcat(a[1..], b);
    }
  }

  function LittleEndian(v: int, n: nat): (s: seq<int>)
    ensures |s| == n
    decreases n
  {
    if n == 0 then [] else [v % 0x100] + LittleEndian(v / 0x100, n - 1)
  }

  // out of an OUT_ADDRESS: raw bytes where there is nothing to relocate.
  function OutAddress(value: int, size: nat, segment: int, wrt: int): (c: Chunk)
    ensures c.Size() == size
  {
    if segment == NO_SEG && wrt == NO_SEG then Raw(LittleEndian(value, size)) else Address(value, size, segment, wrt)
  }

  // ----- Single codes -----

  // The segment being assembled, the end of the instruction and the output format's segbase.
  datatype Where = Where(segment: int, end: int, segbase: int -> int)

  // The chunks of one code, and by how much gencode moves its offset.
  datatype Emission = Emission(chunks: seq<Chunk>, advance: int)

  const NOTHING := Emission([], 0)

  function One(c: Chunk): Emission { Emission([c], c.Size()) }

  function OneByte(b: int): Emission { One(Raw([b % 0x100])) }

  function Prefix(b: int): Emission { One(Raw([b])) }

  // The output after an emission.
  function After(out: seq<Chunk>, m: Emission): seq<Chunk> { out + m.chunks }

  lemma AfterNothing(out: seq<Chunk>)
    ensures After(out, NOTHING) == out
  {}

  lemma AfterTwo(out: seq<Chunk>, a: Chunk, b: Chunk, n: int)
    ensures out + [a] + [b] == After(out, Emission([a] + [b], n))
  {}

  lemma AfterOne(out: seq<Chunk>, a: Chunk, n: int)
    ensures out + [a] == After(out, Emission([a] + [], n))
  {}

  const CONDVAL: seq<nat> := [
    0x7, 0x3, 0x2, 0x6, 0x2, 0x4, 0xF, 0xD, 0xC, 0xE, 0x6, 0x2,
    0x3, 0x7, 0x3, 0x5, 0xE, 0xC, 0xD, 0xF, 0x1, 0xB, 0x9, 0x5,
    0x0, 0xA, 0xA, 0xB, 0x8, 0x4]

  // The exclusive or of two numbers of that many bits.
  function Xor(a: nat, b: nat, bits: nat): nat {
    if bits == 0 then 0 else 2 * Xor(a / 2, b / 2, bits - 1) + if a % 2 != b % 2 then 1 else 0
  }

  // *codes ^ condval[condition]
  function ConditionByte(b: int, condition: nat): int {
    if condition < |CONDVAL| then Xor(b % 0x100, CONDVAL[condition], 8) else b % 0x100
  }

  // The opcode byte with its s bit set for a byte immediate.
  function SBit(b: int, sbyte: bool): int {
    if sbyte && b / 2 % 2 == 0 then b + 2 else b
  }

  function ImmediateByte(o: Operand): Emission {
    if o.segment != NO_SEG then One(OutAddress(o.offset, 1, o.segment, o.wrt)) else OneByte(o.offset)
  }

  function Immediate(o: Operand, size: nat): Emission {
    One(OutAddress(o.offset, size, o.segment, o.wrt))
  }

  // A jump target: against the end of the instruction in this segment, else relocated.
  function JumpTarget(o: Operand, size: nat, w: Where, offset: int): Emission {
    One(if o.segment != w.segment then Relative(o.offset, size, w.end - offset, o.segment, o.wrt)
          else OutAddress(o.offset - w.end, size, NO_SEG, NO_SEG))
  }

  function Bit(b: bool, weight: int): int { if b then weight else 0 }

  function RexByte(r: Rex): int {
    0x40 + Bit(r.w, 8) + Bit(r.r, 4) + Bit(r.x, 2) + Bit(r.b, 1)
  }

  // The VEX or XOP prefix, in its long or its short form.
  function VexBytes(f: Fields): seq<int> {
    var v := 8 * (15 - f.drexdst % 16);
    if LongVex(f) then
      [if f.vexCm / 64 != 0 then 0x8f else 0xc4,
       f.vexCm % 32 + Bit(!f.rex.r, 0x80) + Bit(!f.rex.x, 0x40) + Bit(!f.rex.b, 0x20),
       Bit(f.rex.w, 0x80) + v + f.vexWlp % 8]
    else [0xc5, Bit(!f.rex.r, 0x80) + v + f.vexWlp % 8]
  }

  // The register in bits 7..4 with the low four bits given.
  function RegisterByte(o: Operand, low: int): Option<Emission> {
    if o.basereg.None? then None else Some(OneByte(o.basereg.value.val % 16 * 16 + low))
  }

  function FourBits(o: Operand): int {
    if o.segment != NO_SEG || o.wrt != NO_SEG then 0 else o.offset % 16
  }

  const R_CS := 27
  const R_DS := 49
  const R_ES := 57
  const R_FS := 60
  const R_GS := 61
  const R_SS := 116

  // The PUSH or POP opcode of a segment register, -1 where there is none.
  function SegmentOpcode(o: Operand): int {
    var r := IdOf(o.basereg);
    if r == R_CS then 0x0e else if r == R_DS then 0x1e else if r == R_ES then 0x06 else if r == R_SS then 0x16 else -1
  }

  function SegmentOpcodeFsGs(o: Operand): int {
    var r := IdOf(o.basereg);
    if r == R_FS then 0xa0 else if r == R_GS then 0xa8 else -1
  }

  function FixedByte(c: int): int {
    if c == 0xda || c == 0xdb then c - 0xda + 0xf2
    else if c == 0xf1 then 0x66
    else if c == 0xf2 || c == 0xf3 then c - 0xf2 + 0xf2
    else c - 0xf6 + 0x66
  }

  // ModRM, SIB and displacement.
  function EmitEa(ea: Ea, o: Operand, w: Where, offset: int): Emission {
    var head := [Raw([ea.modrm % 0x100] + (if ea.sibPresent then [ea.sib % 0x100] else []))];
    var s := 1 + if ea.sibPresent then 1 else 0;
    var tail :=
      if ea.bytes == 0 then []
      else if !ea.rip then [OutAddress(o.offset, ea.bytes, o.segment, o.wrt)]
      else if o.segment == w.segment then [OutAddress(o.offset - w.end, ea.bytes, NO_SEG, NO_SEG)]
      else [Relative(o.offset, 4, w.end - (offset + s), o.segment, o.wrt)];
    Emission(head + tail, s + ea.bytes)
  }

  // Reserved space: a negative size moves the offset and emits nothing.
  function Reserved(size: int): Emission {
    Emission(if size > 0 then [Space(size)] else [], size)
  }

  // The codes for immediates and jump targets.
  predicate IsData(k: Kind) {
    k.ImmByte? || k.ImmWord? || k.ImmSized? || k.ImmDword? || k.ImmAddress? || k.RelByte? || k.ImmQword? || k.RelWord? ||
    k.RelSized? || k.RelDword? || k.FarSegment? || k.SignedWord? || k.SignedWordOpcode? || k.SignedDword? ||
    k.SignedDwordOpcode?
  }

  predicate IsSizePrefix(k: Kind) {
    k.Addr16? || k.Addr32? || k.Op16? || k.Op32?
  }

  predicate IsEmitter(k: Kind) {
    k.Literal? || k.PlusReg? || k.SignedWordOpcode? || k.SignedDwordOpcode?
  }

  predicate EmitsRex(e: Env, r: Rex) {
    !r.v && IsReal(r) && e.bits == 64
  }

  // The code's own bytes, after any REX prefix it may emit; None where gencode panics.
  function Body(e: Env, w: Where, f: Fields, offset: int, t: Instr): Option<Emission>
    requires |t.args| == Arguments(t.c)
  {
    var opx := Opr(e, t.op1);
    match KindOf(t.c)
    case Literal => Some(One(Raw(t.args)))
    case PlusReg => if opx.basereg.None? then None else Some(OneByte(t.args[0] + opx.basereg.value.val % 8))
    case ImmByte => Some(ImmediateByte(opx))
    case ImmWord => Some(Immediate(opx, 2))
    case ImmSized => Some(Immediate(opx, SizedLength(e, opx, BITS16 | BITS32)))
    case ImmDword => Some(Immediate(opx, 4))
    case ImmAddress => Some(Immediate(opx, e.addrSize / 8))
    case RelByte => Some(JumpTarget(opx, 1, w, offset))
    case ImmQword => Some(Immediate(opx, 8))
    case RelWord => Some(JumpTarget(opx, 2, w, offset))
    case RelSized => Some(JumpTarget(opx, SizedLength(e, opx, BITS16 | BITS32 | BITS64), w, offset))
    case RelDword => Some(JumpTarget(opx, 4, w, offset))
    case FarSegment => Some(One(OutAddress(0, 2, w.segbase(1 + opx.segment), opx.wrt)))
    case SignedWord => Some(if IsSbyte16(e, opx) then OneByte(opx.offset) else Immediate(opx, 2))
    case SignedWordOpcode => Some(OneByte(SBit(t.args[0], IsSbyte16(e, opx))))
    case SignedDword => Some(if IsSbyte32(e, opx) then OneByte(opx.offset) else Immediate(opx, 4))
    case SignedDwordOpcode => Some(OneByte(SBit(t.args[0], IsSbyte32(e, opx))))
    case RegImm => RegisterByte(Opr(e, Number(t.args[0] / 8)), FourBits(Opr(e, Number(t.args[0] % 8))))
    case RegConst => RegisterByte(Opr(e, Number(t.args[0] / 16)), t.args[0] % 16)
    case RegOnly => RegisterByte(Opr(e, Number(t.args[0])), 0)
    case Vex => Some(One(Raw(VexBytes(f))))
    case VexNone => Some(One(Raw(VexBytes(f))))
    case Addr16 => Some(if e.bits == 32 && f.prefixes.asize != P_A16 then Prefix(0x67) else NOTHING)
    case Addr32 => Some(if e.bits != 32 && f.prefixes.asize != P_A32 then Prefix(0x67) else NOTHING)
    case Op16 => Some(if f.prefixes.osize != P_O16 && e.bits != 16 then Prefix(0x66) else NOTHING)
    case Op32 => Some(if f.prefixes.osize != P_O32 && e.bits == 16 then Prefix(0x66) else NOTHING)
    case Condition => Some(OneByte(ConditionByte(t.args[0], e.condition)))
    case Fixed => Some(OneByte(FixedByte(t.c)))
    case LockR => Some(if f.rex.r then Prefix(0xf0) else NOTHING)
    case Reserve =>
      var o := Opr(e, 0);
      if o.segment != NO_SEG then None else Some(Reserved(o.offset))
    case PushPop => if SegmentOpcode(Opr(e, 0)) == -1 then None else Some(OneByte(t.c % 2 + SegmentOpcode(Opr(e, 0))))
    case PushPopFsGs => if SegmentOpcodeFsGs(Opr(e, 0)) == -1 then None else Some(OneByte(t.c % 2 + SegmentOpcodeFsGs(Opr(e, 0))))
    case RelJump => Some(OneByte(if e.bits == 16 then 3 else 5))
    case ModRm => var ea := EaFor(e, t); if ea.None? then None else Some(EmitEa(ea.value, Opr(e, t.op2), w, offset))
    case Unknown => None
    case _ => Some(NOTHING)
  }

  function Number(n: int): nat { if n < 0 then 0 else n }

  function AfterRex(e: Env, r: Rex, k: Kind): Rex {
    if IsEmitter(k) && EmitsRex(e, r) then NO_REX else r
  }

  function BodyRex(r: Rex, k: Kind): Rex {
    if k.Addr64? then NO_REX
    else if k.RexW? then Or(r, REX_W)
    else if k.LockR? then r.(l := false, r := false)
    else r
  }

  function NextPrefixes(e: Env, p: Prefixes, k: Kind): Prefixes {
    if k.Op16? && p.osize != P_O16 && e.bits != 16 then p.(osize := P_O16)
    else if k.Op32? && p.osize != P_O32 && e.bits == 16 then p.(osize := P_O32)
    else p
  }

  function RexChunks(e: Env, r: Rex, k: Kind): seq<Chunk> {
    if IsEmitter(k) && EmitsRex(e, r) then [Raw([RexByte(r)])] else []
  }

  // ----- The loop -----

  datatype Gen = Gen(f: Fields, out: seq<Chunk>, offset: int)

  function GenStep(e: Env, w: Where, g: Gen, t: Instr): Option<Gen>
    requires |t.args| == Arguments(t.c)
  {
    var k := KindOf(t.c);
    var pre := RexChunks(e, g.f.rex, k);
    var f := g.f.(rex := AfterRex(e, g.f.rex, k));
    var body := Body(e, w, f, g.offset + |pre|, t);
    if body.None? then None
    else
      Some(Gen(f.(rex := BodyRex(f.rex, k), prefixes := NextPrefixes(e, f.prefixes, k)),
               After(g.out + pre, body.value), g.offset + |pre| + body.value.advance))
  }

  predicate WellFormed(ts: seq<Instr>) {
    forall t <- ts :: |t.args| == Arguments(t.c)
  }

  function GenRun(e: Env, w: Where, g: Gen, ts: seq<Instr>): Option<Gen>
    requires WellFormed(ts)
    decreases |ts|
  {
    if ts == [] then Some(g)
    else
      var next := GenStep(e, w, g, ts[0]);
      if next.None? then None else GenRun(e, w, next.value, ts[1..])
  }

  lemma {:induction false} ParseWellFormed(codes: seq<int>, i: nat, opex: int)
    requires Terminated(codes, i)
    ensures WellFormed(Parse(codes, i, opex))
    decreases |codes| - i
  {
    if codes[i] != 0 {
      ParseWellFormed(codes, i + 1 + Arguments(codes[i]), Opex(codes[i]));
    }
  }

  // ----- The prefixes the processor reads back -----

  // What a REX or VEX prefix tells the processor (Intel SDM volume 2A, sections 2.2.1 and
  // 2.3.5): W, R, X, B and, for VEX, the opcode map and the register in vvvv.
  datatype PrefixFields = PrefixFields(w: bool, r: bool, x: bool, b: bool, opcodeMap: int, vvvv: int)

  function DecodeRex(byte: int): PrefixFields {
    PrefixFields(byte / 8 % 2 == 1, byte / 4 % 2 == 1, byte / 2 % 2 == 1, byte % 2 == 1, 0, 0)
  }

  // The two-byte form stands for W, X and B clear and map 1.
  function DecodeVex(bytes: seq<int>): PrefixFields
    requires |bytes| == 2 || |bytes| == 3
  {
    if |bytes| == 3 then
      PrefixFields(bytes[2] / 0x80 == 1, bytes[1] / 0x80 == 0, bytes[1] / 0x40 % 2 == 0, bytes[1] / 0x20 % 2 == 0,
                   bytes[1] % 0x20, 15 - bytes[2] / 8 % 16)
    else PrefixFields(false, bytes[1] / 0x80 == 0, false, false, 1, 15 - bytes[1] / 8 % 16)
  }

  lemma RexDecodes(r: Rex)
    ensures 0x40 <= RexByte(r) < 0x50 && DecodeRex(RexByte(r)) == PrefixFields(r.w, r.r, r.x, r.b, 0, 0)
  {}

  // Both forms carry the same fields, and the short one is taken only where it can.
  lemma VexDecodes(f: Fields)
    ensures var bytes := VexBytes(f);
            (|bytes| == 2 || |bytes| == 3) && (forall b <- bytes :: 0 <= b < 0x100) &&
            DecodeVex(bytes) == PrefixFields(f.rex.w, f.rex.r, f.rex.x, f.rex.b, f.vexCm % 32, f.drexdst % 16) &&
            bytes[|bytes| - 1] % 8 == f.vexWlp % 8
  {
    VexLast(f.rex.w, f.drexdst % 16, f.vexWlp % 8);
    VexLast(!f.rex.r, f.drexdst % 16, f.vexWlp % 8);
    VexMiddle(!f.rex.r, !f.rex.x, !f.rex.b, f.vexCm % 32);
  }

  lemma VexLast(top: bool, v: int, low: int)
    requires 0 <= v < 16 && 0 <= low < 8
    ensures var b := Bit(top, 0x80) + 8 * (15 - v) + low;
            0 <= b < 0x100 && (b / 0x80 == 1) == top && (b / 0x80 == 0) == !top && b / 8 % 16 == 15 - v && b % 8 == low
  {}

  lemma VexMiddle(r: bool, x: bool, b: bool, m: int)
    requires 0 <= m < 32
    ensures var c := m + Bit(r, 0x80) + Bit(x, 0x40) + Bit(b, 0x20);
            0 <= c < 0x100 && (c / 0x80 == 0) == !r && (c / 0x40 % 2 == 0) == !x && (c / 0x20 % 2 == 0) == !b && c % 32 == m
  {}
}
