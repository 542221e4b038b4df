// sdk/as/assemble.c: the instruction record and the two passes over it, as the source
// runs them.
module Instruction {
  import opened Base
  import opened Operands
  import opened ByteCode
  import opened EffectiveAddress
  import opened CodeSize
  import opened CodeGen

  // The output format: it collects what out hands to it.
  class Output {
    var chunks: seq<Chunk>

    constructor ()
      ensures chunks == []
    {
      chunks := [];
    }

    method Out(c: Chunk)
      modifies this
      ensures chunks == old(chunks) + [c]
    {
      chunks := chunks + [c];
    }
  }

  class Insn {
    const oprs: seq<Operand>
    const addrSize: nat
    const condition: nat
    var rex: Rex
    var drexdst: int
    var vexCm: int
    var vexWlp: int
    var prefixes: Prefixes

    constructor (oprs: seq<Operand>, addrSize: nat, condition: nat, prefixes: Prefixes)
      ensures this.oprs == oprs && this.addrSize == addrSize && this.condition == condition && this.prefixes == prefixes
    {
      this.oprs, this.addrSize, this.condition, this.prefixes := oprs, addrSize, condition, prefixes;
      rex, drexdst, vexCm, vexWlp := NO_REX, 0, 0, 0;
    }

    ghost function State(): Fields
      reads this
    {
      Fields(rex, drexdst, vexCm, vexWlp, prefixes)
    }

    ghost predicate Reads(e: Env) {
      e.oprs == oprs && e.addrSize == addrSize && e.condition == condition
    }

    // The switch of calcsize: the length the code t adds, None where calcsize gives up.
    method CalcCode(e: Env, t: Instr, passW: bool) returns (n: Option<int>, mask: bool)
      requires Reads(e) && |t.args| == Arguments(t.c)
      modifies this
      ensures n == StepLength(e, old(prefixes.asize), t)
      ensures n.Some? ==> State() == StepFields(e, old(State()), t) && mask == (passW && !KindOf(t.c).NoRexW?)
    {
      hide Or, OpRexFlags, RexFlags, SizedLength, IsSbyte16, IsSbyte32, EaFor, IsClass, Has;
      mask := passW;
      OrNone(rex);
      var opx := Opr(e, t.op1);
      match KindOf(t.c)
      case Literal => n := Some(t.c);
      case PlusReg =>
        if opx.basereg.None? { return None, mask; }
        rex := Or(rex, OpRexFlags(opx, NO_REX.(b := true, h := true, p := true, w := true)));
        n := Some(1);
      case ImmByte => n := Some(1);
      case ImmWord => n := Some(2);
      case ImmSized => n := Some(SizedLength(e, opx, BITS16 | BITS32 | BITS64));
      case ImmDword => n := Some(4);
      case ImmAddress => n := Some(addrSize / 8);
      case RelByte => n := Some(1);
      case ImmQword => n := Some(8);
      case RelWord => n := Some(2);
      case RelSized => n := Some(SizedLength(e, opx, BITS16 | BITS32 | BITS64));
      case RelDword => n := Some(4);
      case FarSegment => n := Some(2);
      case SignedWord => n := Some(if IsSbyte16(e, opx) then 1 else 2);
      case SignedWordOpcode => n := Some(1);
      case SignedDword => n := Some(if IsSbyte32(e, opx) then 1 else 4);
      case SignedDwordOpcode => n := Some(1);
      case RegImm => n := Some(1);
      case RegConst => n := Some(1);
      case RegOnly => n := Some(1);
      case Vex =>
        rex := Or(rex, REX_V);
        if opx.basereg.None? { return None, mask; }
        drexdst := opx.basereg.value.val;
        vexCm, vexWlp := t.args[0], t.args[1];
        n := Some(0);
      case VexNone =>
        rex := Or(rex, REX_V);
        drexdst := 0;
        vexCm, vexWlp := t.args[0], t.args[1];
        n := Some(0);
      case Addr16 =>
        if e.bits == 64 { return None, mask; }
        n := Some(if e.bits != 16 && prefixes.asize != P_A16 then 1 else 0);
      case Addr32 => n := Some(if e.bits != 32 && prefixes.asize != P_A32 then 1 else 0);
      case Addr64 =>
        if e.bits != 64 || prefixes.asize == P_A16 || prefixes.asize == P_A32 { return None, mask; }
        n := Some(0);
      case Op16 => n := Some(if e.bits != 16 then 1 else 0);
      case Op32 => n := Some(if e.bits == 16 then 1 else 0);
      case NoRexW => mask := false; n := Some(0);
      case RexW => rex := Or(rex, REX_W); n := Some(0);
      case NoHigh => rex := Or(rex, REX_NH); n := Some(0);
      case Condition => n := Some(1);
      case Fixed => n := Some(1);
      case LockR => rex := Or(rex, REX_L); n := Some(0);
      case Rep =>
        if prefixes.lrep == P_NONE { prefixes := prefixes.(lrep := P_REP); }
        n := Some(0);
      case RepNe =>
        if prefixes.lrep == P_NONE { prefixes := prefixes.(lrep := P_REPNE); }
        n := Some(0);
      case Reserve => n := if Opr(e, 0).segment != NO_SEG then Some(0) else Some(Opr(e, 0).offset);
      case Wait =>
        if prefixes.wait == P_NONE { prefixes := prefixes.(wait := P_WAIT); }
        n := Some(0);
      case PushPop => n := Some(1);
      case PushPopFsGs => n := Some(1);
      case RelJump => n := Some(1);
      case ModRm =>
        var ea := EaFor(e, t);
        if ea.None? { return None, mask; }
        rex := Or(rex, ea.value.rex);
        n := Some(ea.value.Size());
      case Unknown => n := None;
      case _ => n := Some(0);
    }

    // The rules for a VEX instruction: its W flag, then the checks.
    method VexFlag() returns (bad32W: bool)
      modifies `rex
      ensures State() == old(State()).(rex := VexRex(old(State())))
      ensures bad32W == (WField(vexWlp) != 1)
    {
      hide WField;
      bad32W := true;
      if WField(vexWlp) == 0 || WField(vexWlp) == 2 {
        rex := rex.(w := false);
      } else if WField(vexWlp) == 1 {
        rex := rex.(w := true);
        bad32W := false;
      }
    }

    method VexRules(e: Env, length: int) returns (size: Option<int>)
      requires Reads(e) && rex.v
      modifies `rex
      ensures size.Some? ==> State() == old(State()).(rex := VexRex(old(State())))
      ensures size.Some? <==> VexAcceptable(e, old(State()).(rex := VexRex(old(State()))))
      ensures size.Some? ==> size.value == length + PrefixLength(State())
    {
      hide VexW, WField;
      if rex.h { return None; }
      var bad32W := VexFlag();
      hide VexRex;
      if e.bits != 64 && (rex.r || rex.x || rex.b || (bad32W && rex.w) || drexdst > 7) { return None; }
      size := Some(if vexCm != 1 || rex.w || rex.x || rex.b then length + 3 else length + 2);
    }

    // The checks after the loop.
    method CalcRules(e: Env, passW: bool, length: int) returns (size: Option<int>)
      requires Reads(e)
      modifies `rex
      ensures size.Some? <==> CalcFinish(e, Calc(old(State()), passW, length)).Some?
      ensures size.Some? ==> CalcFinish(e, Calc(old(State()), passW, length)).value == Calc(State(), passW, size.value)
    {
      hide VexW, VexAcceptable, LongVex, IsReal, LockForR;
      if !passW { rex := rex.(w := false); }
      if rex.nh {
        if rex.h { return None; }
        rex := rex.(p := false);
      }
      assert rex == Masked(old(rex), passW);
      hide Masked;
      if rex.v {
        size := VexRules(e, length);
      } else if IsReal(rex) {
        if rex.h {
          size := None;
        } else if e.bits == 64 || LockForR(e, rex) {
          size := Some(length + 1);
        } else {
          size := None;
        }
      } else {
        size := Some(length);
      }
    }

    // calcsize. On failure the fields are left as the failing code found them.
    method CalcSize(e: Env, codes: seq<int>) returns (size: Option<int>)
      requires Reads(e) && Terminated(codes, 0)
      modifies this
      ensures size.Some? <==> CalcSizeOf(e, old(State()), Parse(codes, 0, 0)).Some?
      ensures size.Some? ==>
        var c := CalcSizeOf(e, old(State()), Parse(codes, 0, 0)).value; size.value == c.length && State() == c.f
    {
      hide StepLength, StepFields, CalcFinish, KindOf;
      ghost var ts := Parse(codes, 0, 0);
      ghost var start := CalcStart(State());
      var length, passW, i, opex := 0, true, 0, 0;
      rex := NO_REX;
      if prefixes.osize == P_O64 { rex := rex.(w := true); }
      while codes[i] != 0
        invariant Terminated(codes, i)
        invariant CalcRun(e, start, ts) == CalcRun(e, Calc(State(), passW, length), Parse(codes, i, opex))
        decreases |codes| - i
      {
        var t := InstrAt(codes, i, opex);
        ghost var rest := Parse(codes, i, opex);
        ghost var s := Calc(State(), passW, length);
        assert rest[0] == t && rest[1..] == Parse(codes, i + 1 + Arguments(codes[i]), Opex(codes[i]));
        var n, mask := CalcCode(e, t, passW);
        if n.None? { return None; }
        assert CalcStep(e, s, t) == Some(Calc(State(), mask, length + n.value));
        passW, length := mask, length + n.value;
        opex := Opex(codes[i]);
        i := i + 1 + Arguments(codes[i]);
      }
      size := CalcRules(e, passW, length);
    }

    // EMIT_REX: the REX prefix, once.
    method EmitRex(e: Env, offset: int, output: Output) returns (next: int)
      modifies `rex, output
      ensures output.chunks == old(output.chunks) + (if EmitsRex(e, old(rex)) then [Raw([RexByte(old(rex))])] else [])
      ensures rex == if EmitsRex(e, old(rex)) then NO_REX else old(rex)
      ensures next == if EmitsRex(e, old(rex)) then offset + 1 else offset
    {
      next := offset;
      if EmitsRex(e, rex) {
        output.Out(Raw([RexByte(rex)]));
        rex := NO_REX;
        next := next + 1;
      }
    }

    method PutChunk(c: Chunk, start: int, output: Output) returns (offset: int)
      modifies output
      ensures output.chunks == After(old(output.chunks), One(c)) && offset == start + One(c).advance
    {
      output.Out(c);
      offset := start + c.Size();
    }

    method PutByte(b: int, start: int, output: Output) returns (offset: int)
      modifies output
      ensures output.chunks == After(old(output.chunks), OneByte(b)) && offset == start + OneByte(b).advance
    {
      output.Out(Raw([b % 0x100]));
      offset := start + 1;
    }

    method PutImmediateByte(o: Operand, start: int, output: Output) returns (offset: int)
      modifies output
      ensures output.chunks == After(old(output.chunks), ImmediateByte(o)) && offset == start + ImmediateByte(o).advance
    {
      hide OutAddress;
      if o.segment != NO_SEG {
        output.Out(OutAddress(o.offset, 1, o.segment, o.wrt));
        offset := start + 1;
      } else {
        offset := PutByte(o.offset, start, output);
      }
    }

    method PutImmediate(o: Operand, size: nat, start: int, output: Output) returns (offset: int)
      modifies output
      ensures output.chunks == After(old(output.chunks), Immediate(o, size)) && offset == start + Immediate(o, size).advance
    {
      hide OutAddress;
      output.Out(OutAddress(o.offset, size, o.segment, o.wrt));
      offset := start + size;
    }

    method PutJump(o: Operand, size: nat, w: Where, start: int, output: Output) returns (offset: int)
      modifies output
      ensures output.chunks == After(old(output.chunks), JumpTarget(o, size, w, start))
      ensures offset == start + JumpTarget(o, size, w, start).advance
    {
      hide OutAddress;
      if o.segment != w.segment {
        output.Out(Relative(o.offset, size, w.end - start, o.segment, o.wrt));
      } else {
        output.Out(OutAddress(o.offset - w.end, size, NO_SEG, NO_SEG));
      }
      offset := start + size;
    }

    method PutRegister(o: Operand, low: int, start: int, output: Output) returns (ok: bool, offset: int)
      modifies output
      ensures ok <==> RegisterByte(o, low).Some?
      ensures ok ==>
        var m := RegisterByte(o, low).value; output.chunks == After(old(output.chunks), m) && offset == start + m.advance
    {
      hide OneByte;
      ok, offset := o.basereg.Some?, start;
      if ok {
        offset := PutByte(o.basereg.value.val % 16 * 16 + low, start, output);
      }
    }

    method PutEa(ea: Ea, o: Operand, w: Where, start: int, output: Output) returns (offset: int)
      modifies output
      ensures output.chunks == After(old(output.chunks), EmitEa(ea, o, w, start))
      ensures offset == start + EmitEa(ea, o, w, start).advance
    {
      hide OutAddress;
      var bytes := [ea.modrm % 0x100];
      assert bytes + [] == bytes;
      if ea.sibPresent {
        bytes := bytes + [ea.sib % 0x100];
      }
      output.Out(Raw(bytes));
      offset := start + |bytes|;
      AfterOne(old(output.chunks), Raw(bytes), |bytes| + ea.bytes);
      if ea.bytes != 0 {
        var c := OutAddress(o.offset, ea.bytes, o.segment, o.wrt);
        if ea.rip {
          if o.segment == w.segment {
            c := OutAddress(o.offset - w.end, ea.bytes, NO_SEG, NO_SEG);
          } else {
            c := Relative(o.offset, 4, w.end - offset, o.segment, o.wrt);
          }
        }
        output.Out(c);
        AfterTwo(old(output.chunks), Raw(bytes), c, |bytes| + ea.bytes);
        offset := offset + ea.bytes;
      }
    }

    // The codes for immediates and jump targets.
    method GenData(e: Env, w: Where, t: Instr, start: int, output: Output) returns (offset: int)
      requires Reads(e) && |t.args| == Arguments(t.c) && IsData(KindOf(t.c))
      modifies output
      ensures Body(e, w, State(), start, t).Some?
      ensures var m := Body(e, w, State(), start, t).value;
              output.chunks == After(old(output.chunks), m) && offset == start + m.advance
    {
      hide SizedLength, IsSbyte16, IsSbyte32, OutAddress, KindOf, Immediate, JumpTarget, OneByte, One, After, ImmediateByte, SBit;
      offset := start;
      var opx := Opr(e, t.op1);
      match KindOf(t.c)
      case ImmByte => offset := PutImmediateByte(opx, offset, output);
      case ImmWord => offset := PutImmediate(opx, 2, offset, output);
      case ImmSized => offset := PutImmediate(opx, SizedLength(e, opx, BITS16 | BITS32), offset, output);
      case ImmDword => offset := PutImmediate(opx, 4, offset, output);
      case ImmAddress => offset := PutImmediate(opx, addrSize / 8, offset, output);
      case RelByte => offset := PutJump(opx, 1, w, offset, output);
      case ImmQword => offset := PutImmediate(opx, 8, offset, output);
      case RelWord => offset := PutJump(opx, 2, w, offset, output);
      case RelSized => offset := PutJump(opx, SizedLength(e, opx, BITS16 | BITS32 | BITS64), w, offset, output);
      case RelDword => offset := PutJump(opx, 4, w, offset, output);
      case FarSegment =>
        offset := PutChunk(OutAddress(0, 2, w.segbase(1 + opx.segment), opx.wrt), offset, output);
      case SignedWord =>
        if IsSbyte16(e, opx) {
          offset := PutByte(opx.offset, offset, output);
        } else {
          offset := PutImmediate(opx, 2, offset, output);
        }
      case SignedWordOpcode => offset := PutByte(SBit(t.args[0], IsSbyte16(e, opx)), offset, output);
      case SignedDword =>
        if IsSbyte32(e, opx) {
          offset := PutByte(opx.offset, offset, output);
        } else {
          offset := PutImmediate(opx, 4, offset, output);
        }
      case SignedDwordOpcode => offset := PutByte(SBit(t.args[0], IsSbyte32(e, opx)), offset, output);
    }

    // The codes for address-size and operand-size prefixes.
    method GenSizePrefix(e: Env, w: Where, t: Instr, start: int, output: Output) returns (offset: int)
      requires Reads(e) && |t.args| == Arguments(t.c) && IsSizePrefix(KindOf(t.c))
      modifies `prefixes, output
      ensures Body(e, w, old(State()), start, t).Some?
      ensures var m := Body(e, w, old(State()), start, t).value;
              output.chunks == After(old(output.chunks), m) && offset == start + m.advance
      ensures prefixes == NextPrefixes(e, old(prefixes), KindOf(t.c))
    {
      hide KindOf, Prefix, After;
      offset := start;
      AfterNothing(output.chunks);
      match KindOf(t.c)
      case Addr16 =>
        if e.bits == 32 && prefixes.asize != P_A16 { offset := PutPrefix(0x67, offset, output); }
      case Addr32 =>
        if e.bits != 32 && prefixes.asize != P_A32 { offset := PutPrefix(0x67, offset, output); }
      case Op16 =>
        if prefixes.osize != P_O16 && e.bits != 16 {
          prefixes := prefixes.(osize := P_O16);
          offset := PutPrefix(0x66, offset, output);
        }
      case Op32 =>
        if prefixes.osize != P_O32 && e.bits == 16 {
          prefixes := prefixes.(osize := P_O32);
          offset := PutPrefix(0x66, offset, output);
        }
    }

    // The switch of gencode, after EMIT_REX; not ok where gencode panics.
    method GenBody(e: Env, w: Where, t: Instr, start: int, output: Output) returns (ok: bool, offset: int)
      requires Reads(e) && |t.args| == Arguments(t.c)
      modifies `rex, `prefixes, output
      ensures ok <==> Body(e, w, old(State()), start, t).Some?
      ensures ok ==>
        var m := Body(e, w, old(State()), start, t).value;
        output.chunks == After(old(output.chunks), m) && offset == start + m.advance
      ensures ok ==> rex == BodyRex(old(rex), KindOf(t.c)) && prefixes == NextPrefixes(e, old(prefixes), KindOf(t.c))
    {
      hide EaFor, SizedLength, IsSbyte16, IsSbyte32, OutAddress, EmitEa, VexBytes, KindOf, Or, Immediate, JumpTarget,
        OneByte, Prefix, One, After, Reserved, ImmediateByte, ConditionByte, FixedByte, SBit, FourBits, RegisterByte, SegmentOpcode, SegmentOpcodeFsGs;
      ok, offset := true, start;
      AfterNothing(output.chunks);
      var opx := Opr(e, t.op1);
      if IsData(KindOf(t.c)) {
        offset := GenData(e, w, t, offset, output);
        return;
      }
      if IsSizePrefix(KindOf(t.c)) {
        offset := GenSizePrefix(e, w, t, offset, output);
        return;
      }
      match KindOf(t.c)
      case Literal => offset := PutChunk(Raw(t.args), offset, output);
      case PlusReg =>
        if opx.basereg.None? { return false, offset; }
        offset := PutByte(t.args[0] + opx.basereg.value.val % 8, offset, output);
      case RegImm =>
        ok, offset := PutRegister(Opr(e, Number(t.args[0] / 8)), FourBits(Opr(e, Number(t.args[0] % 8))), offset, output);
      case RegConst => ok, offset := PutRegister(Opr(e, Number(t.args[0] / 16)), t.args[0] % 16, offset, output);
      case RegOnly => ok, offset := PutRegister(Opr(e, Number(t.args[0])), 0, offset, output);
      case Vex => offset := PutVex(offset, output);
      case VexNone => offset := PutVex(offset, output);
      case Addr64 => rex := NO_REX;
      case RexW => rex := Or(rex, REX_W);
      case Condition => offset := PutByte(ConditionByte(t.args[0], condition), offset, output);
      case Fixed => offset := PutByte(FixedByte(t.c), offset, output);
      case LockR =>
        if rex.r { offset := PutPrefix(0xf0, offset, output); }
        rex := rex.(l := false, r := false);
      case Reserve =>
        if Opr(e, 0).segment != NO_SEG { return false, offset; }
        offset := PutSpace(Opr(e, 0).offset, offset, output);
      case PushPop =>
        if SegmentOpcode(Opr(e, 0)) == -1 { return false, offset; }
        offset := PutByte(t.c % 2 + SegmentOpcode(Opr(e, 0)), offset, output);
      case PushPopFsGs =>
        if SegmentOpcodeFsGs(Opr(e, 0)) == -1 { return false, offset; }
        offset := PutByte(t.c % 2 + SegmentOpcodeFsGs(Opr(e, 0)), offset, output);
      case RelJump => offset := PutByte(if e.bits == 16 then 3 else 5, offset, output);
      case ModRm =>
        var ea := EaFor(e, t);
        if ea.None? { return false, offset; }
        offset := PutEa(ea.value, Opr(e, t.op2), w, offset, output);
      case Unknown => ok := false;
      case _ =>
    }

    method PutPrefix(b: int, start: int, output: Output) returns (offset: int)
      modifies output
      ensures output.chunks == After(old(output.chunks), Prefix(b))
      ensures offset == start + Prefix(b).advance
    {
      output.Out(Raw([b]));
      offset := start + 1;
    }

    method PutSpace(size: int, start: int, output: Output) returns (offset: int)
      modifies output
      ensures output.chunks == After(old(output.chunks), Reserved(size)) && offset == start + Reserved(size).advance
    {
      AfterNothing(output.chunks);
      if size > 0 {
        output.Out(Space(size));
      }
      offset := start + size;
    }

    method PutVex(start: int, output: Output) returns (offset: int)
      modifies output
      ensures output.chunks == After(old(output.chunks), One(Raw(VexBytes(State()))))
      ensures offset == start + One(Raw(VexBytes(State()))).advance
    {
      var v := 8 * (15 - drexdst % 16);
      if vexCm != 1 || rex.w || rex.x || rex.b {
        output.Out(Raw([if vexCm / 64 != 0 then 0x8f else 0xc4,
                        vexCm % 32 + Bit(!rex.r, 0x80) + Bit(!rex.x, 0x40) + Bit(!rex.b, 0x20),
                        Bit(rex.w, 0x80) + v + vexWlp % 8]));
        offset := start + 3;
      } else {
        output.Out(Raw([0xc5, Bit(!rex.r, 0x80) + v + vexWlp % 8]));
        offset := start + 2;
      }
    }

    method GenStepAt(e: Env, w: Where, t: Instr, start: int, output: Output) returns (ok: bool, offset: int)
      requires Reads(e) && |t.args| == Arguments(t.c)
      modifies `rex, `prefixes, output
      ensures ok <==> GenStep(e, w, Gen(old(State()), old(output.chunks), start), t).Some?
      ensures ok ==> GenStep(e, w, Gen(old(State()), old(output.chunks), start), t).value == Gen(State(), output.chunks, offset)
    {
      hide IsReal, RexByte, EmitsRex, KindOf, Body, BodyRex, NextPrefixes;
      offset := start;
      if IsEmitter(KindOf(t.c)) {
        offset := EmitRex(e, offset, output);
      }
      ok, offset := GenBody(e, w, t, offset, output);
    }

    // gencode. Where it panics the fields and the output are left as the code found them.
    method GenCode(e: Env, w: Where, codes: seq<int>, start: int, output: Output) returns (ok: bool, offset: int)
      requires Reads(e) && Terminated(codes, 0)
      modifies `rex, `prefixes, output
      ensures WellFormed(Parse(codes, 0, 0))
      ensures ok <==> GenRun(e, w, Gen(old(State()), old(output.chunks), start), Parse(codes, 0, 0)).Some?
      ensures ok ==> GenRun(e, w, Gen(old(State()), old(output.chunks), start), Parse(codes, 0, 0)).value
                       == Gen(State(), output.chunks, offset)
    {
      hide GenStep, KindOf;
      ParseWellFormed(codes, 0, 0);
      ghost var ts := Parse(codes, 0, 0);
      ghost var first := Gen(State(), output.chunks, start);
      var i, opex := 0, 0;
      ok, offset := true, start;
      while codes[i] != 0
        invariant Terminated(codes, i) && WellFormed(Parse(codes, i, opex))
        invariant GenRun(e, w, first, ts) == GenRun(e, w, Gen(State(), output.chunks, offset), Parse(codes, i, opex))
        decreases |codes| - i
      {
        var t := InstrAt(codes, i, opex);
        ghost var rest := Parse(codes, i, opex);
        assert rest[0] == t && rest[1..] == Parse(codes, i + 1 + Arguments(codes[i]), Opex(codes[i]));
        ok, offset := GenStepAt(e, w, t, offset, output);
        if !ok { return; }
        opex := Opex(codes[i]);
        i := i + 1 + Arguments(codes[i]);
      }
    }
  }
}
