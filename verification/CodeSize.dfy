// sdk/as/assemble.c: calcsize, the pass that predicts the length of an instruction and
// settles its REX flags, VEX fields and implied prefixes.
module CodeSize {
  import opened Base
  import opened Operands
  import opened ByteCode
  import opened EffectiveAddress

  // What one code adds to the length; None where calcsize gives up.
  function StepLength(e: Env, asize: int, t: Instr): Option<int> {
    var opx := Opr(e, t.op1);
    match KindOf(t.c)
    case Literal => Some(t.c)
    case PlusReg => if opx.basereg.Some? then Some(1) else None
    case ImmByte => Some(1)
    case ImmWord => Some(2)
    case ImmSized => Some(SizedLength(e, opx, BITS16 | BITS32 | BITS64))
    case ImmDword => Some(4)
    case ImmAddress => Some(e.addrSize / 8)
    case RelByte => Some(1)
    case ImmQword => Some(8)
    case RelWord => Some(2)
    case RelSized => Some(SizedLength(e, opx, BITS16 | BITS32 | BITS64))
    case RelDword => Some(4)
    case FarSegment => Some(2)
    case SignedWord => Some(if IsSbyte16(e, opx) then 1 else 2)
    case SignedWordOpcode => Some(1)
    case SignedDword => Some(if IsSbyte32(e, opx) then 1 else 4)
    case SignedDwordOpcode => Some(1)
    case RegImm => Some(1)
    case RegConst => Some(1)
    case RegOnly => Some(1)
    case Vex => if opx.basereg.Some? then Some(0) else None
    case Addr16 => if e.bits == 64 then None else Some(if e.bits != 16 && asize != P_A16 then 1 else 0)
    case Addr32 => Some(if e.bits != 32 && asize != P_A32 then 1 else 0)
    case Addr64 => if e.bits != 64 || asize == P_A16 || asize == P_A32 then None else Some(0)
    case Op16 => Some(if e.bits != 16 then 1 else 0)
    case Op32 => Some(if e.bits == 16 then 1 else 0)
    case Condition => Some(1)
    case Fixed => Some(1)
    case Reserve => if Opr(e, 0).segment != NO_SEG then Some(0) else Some(Opr(e, 0).offset)
    case PushPop => Some(1)
    case PushPopFsGs => Some(1)
    case RelJump => Some(1)
    case ModRm => var ea := EaFor(e, t); if ea.Some? then Some(ea.value.Size()) else None
    case Unknown => None
    case _ => Some(0)
  }

  // The REX flags one code adds.
  function StepRex(e: Env, t: Instr): Rex {
    match KindOf(t.c)
    case PlusReg => OpRexFlags(Opr(e, t.op1), NO_REX.(b := true, h := true, p := true, w := true))
    case Vex => REX_V
    case VexNone => REX_V
    case RexW => REX_W
    case NoHigh => REX_NH
    case LockR => REX_L
    case ModRm => var ea := EaFor(e, t); if ea.Some? then ea.value.rex else NO_REX
    case _ => NO_REX
  }

  function OpRexFlags(o: Operand, mask: Rex): Rex {
    if o.basereg.Some? then RexFlags(o.basereg.value.val, o.basereg.value.flags, mask) else NO_REX
  }

  function StepPrefixes(p: Prefixes, k: Kind): Prefixes {
    match k
    case Rep => if p.lrep == P_NONE then p.(lrep := P_REP) else p
    case RepNe => if p.lrep == P_NONE then p.(lrep := P_REPNE) else p
    case Wait => if p.wait == P_NONE then p.(wait := P_WAIT) else p
    case _ => p
  }

  // The loop's state: the instruction's fields, whether the mask still passes W, and the
  // length so far.
  datatype Calc = Calc(f: Fields, passW: bool, length: int)

  function StepFields(e: Env, f: Fields, t: Instr): Fields {
    var k := KindOf(t.c);
    var g := f.(rex := Or(f.rex, StepRex(e, t)), prefixes := StepPrefixes(f.prefixes, k));
    if (k.Vex? || k.VexNone?) && |t.args| == 2 then
      g.(drexdst := if k.Vex? && Opr(e, t.op1).basereg.Some? then Opr(e, t.op1).basereg.value.val else 0,
         vexCm := t.args[0], vexWlp := t.args[1])
    else g
  }

  function CalcStep(e: Env, s: Calc, t: Instr): Option<Calc> {
    var n := StepLength(e, s.f.prefixes.asize, t);
    if n.None? then None
    else Some(Calc(StepFields(e, s.f, t), s.passW && !KindOf(t.c).NoRexW?, s.length + n.value))
  }

  function CalcRun(e: Env, s: Calc, ts: seq<Instr>): Option<Calc>
    decreases |ts|
  {
    if ts == [] then Some(s)
    else
      var next := CalcStep(e, s, ts[0]);
      if next.None? then None else CalcRun(e, next.value, ts[1..])
  }

  // ----- After the loop -----

  // The w field of the template's second VEX byte.
  function WField(wlp: int): int { wlp / 16 % 4 }

  // The W flag of a VEX instruction, from the template's w field.
  function VexW(wlp: int, w: bool): bool {
    if WField(wlp) == 0 || WField(wlp) == 2 then false else if WField(wlp) == 1 then true else w
  }

  // The flags after the mask and the no-high-register rule, before the VEX rule.
  function Masked(rex: Rex, passW: bool): Rex {
    var r := rex.(w := rex.w && passW);
    if r.nh then r.(p := false) else r
  }

  function VexRex(f: Fields): Rex {
    f.rex.(w := VexW(f.vexWlp, f.rex.w))
  }

  // The fields calcsize leaves behind.
  function Settled(f: Fields, passW: bool): Fields {
    var g := f.(rex := Masked(f.rex, passW));
    if g.rex.v then g.(rex := VexRex(g)) else g
  }

  predicate LongVex(f: Fields) {
    f.vexCm != 1 || f.rex.w || f.rex.x || f.rex.b
  }

  // A REX.R that a LOCK prefix can stand for outside 64-bit mode.
  predicate LockForR(e: Env, r: Rex) {
    r.l && !r.p && !r.w && !r.x && !r.b && e.x8664
  }

  predicate VexAcceptable(e: Env, f: Fields) {
    var r := f.rex;
    !r.h && (e.bits != 64 ==> !r.r && !r.x && !r.b && (r.w ==> WField(f.vexWlp) == 1) && f.drexdst <= 7)
  }

  // Of the settled fields f.
  predicate Acceptable(e: Env, f: Fields) {
    var r := f.rex;
    (r.nh ==> !r.h) && if r.v then VexAcceptable(e, f) else IsReal(r) ==> !r.h && (e.bits == 64 || LockForR(e, r))
  }

  // The bytes of the REX or VEX prefix, or of the LOCK that replaces it.
  function PrefixLength(f: Fields): int {
    if f.rex.v then (if LongVex(f) then 3 else 2) else if IsReal(f.rex) then 1 else 0
  }

  function CalcFinish(e: Env, s: Calc): Option<Calc> {
    var f := Settled(s.f, s.passW);
    if Acceptable(e, f) then Some(Calc(f, s.passW, s.length + PrefixLength(f))) else None
  }

  function CalcStart(f: Fields): Calc {
    Calc(f.(rex := NO_REX.(w := f.prefixes.osize == P_O64)), true, 0)
  }

  function CalcSizeOf(e: Env, f: Fields, ts: seq<Instr>): Option<Calc> {
    var s := CalcRun(e, CalcStart(f), ts);
    if s.None? then None else CalcFinish(e, s.value)
  }
}
