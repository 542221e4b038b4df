// sdk/as/assemble.c: the registers that the processor selects, given the REX flags that
// calcsize collects from all operands of an instruction.
module RexMeaning {
  import opened Base
  import opened Operands
  import opened ByteCode
  import opened EffectiveAddress
  import opened CodeSize
  import opened Machine
  import CodeLength

  // A byte register as the register tables describe it: AH, CH, DH and BH have the numbers 4
  // to 7, and so have SPL, BPL, SIL and DIL.
  predicate IsByteRegister(r: Reg) {
    ValidReg(r) && IsClass(REG8, r.flags) && (IsClass(REG_HIGH, r.flags) ==> 4 <= r.val < 8)
  }

  function Named(r: Reg): ByteRegister
    requires IsByteRegister(r)
  {
    if IsClass(REG_HIGH, r.flags) then High(r.val - 4) else Low(r.val)
  }

  // a sets no flag that c does not set.
  predicate Within(a: Rex, c: Rex) { Or(a, c) == c }

  // Behind a REX or VEX prefix there are no high registers, and an instruction with 0325
  // knows none.
  predicate NoHighRegisters(e: Env, rex: Rex) { rex.v || rex.nh || (e.bits == 64 && IsReal(rex)) }

  // What the flags of one register say: the high registers claim no REX prefix, the low ones
  // from number 4 up claim one, and the 64-bit registers claim W.
  lemma FlagsMean(val: int, flags: bv32, mask: Rex)
    ensures var r := RexFlags(val, flags, mask);
            (r.h <==> mask.h && IsClass(REG_HIGH, flags)) &&
            (r.p <==> mask.p && IsClass(REG8, flags) && !IsClass(REG_HIGH, flags) && val >= 4) &&
            (r.w <==> mask.w && Has(flags, BITS64)) && (r.b <==> mask.b && val >= 8) && (r.r <==> mask.r && val >= 8) &&
            (r.x <==> mask.x && val >= 8)
  {}

  // The processor selects the register whose flags are among those of an accepted
  // instruction. A high register never stands with a REX prefix, SPL to DIL always do.
  lemma ByteRegisterSelected(e: Env, f: Fields, passW: bool, r: Reg, mask: Rex)
    requires IsByteRegister(r) && mask.h && mask.p && (mask.b || mask.r)
    requires Acceptable(e, Settled(f, passW)) && Within(RexFlags(r.val, r.flags, mask), f.rex)
    ensures DecodeByteRegister(r.val % 8, r.val >= 8, NoHighRegisters(e, Settled(f, passW).rex)) == Named(r)
    ensures Named(r).High? ==> !NoHighRegisters(e, Settled(f, passW).rex)
    ensures !Named(r).High? && r.val >= 4 ==> NoHighRegisters(e, Settled(f, passW).rex)
  {
    FlagsMean(r.val, r.flags, mask);
    hide RexFlags, IsClass, Has;
    SettledFlags(e, f, passW);
    hide Settled, Acceptable;
  }

  lemma SettledFlags(e: Env, f: Fields, passW: bool)
    requires Acceptable(e, Settled(f, passW))
    ensures var r := Settled(f, passW).rex;
            r.nh == f.rex.nh && r.h == f.rex.h && r.v == f.rex.v && r.b == f.rex.b && r.x == f.rex.x && r.r == f.rex.r &&
            r.p == (f.rex.p && !f.rex.nh)
    ensures f.rex.h ==> !NoHighRegisters(e, Settled(f, passW).rex)
    ensures f.rex.p || f.rex.b || f.rex.x || (f.rex.w && passW && !f.rex.v) ==> NoHighRegisters(e, Settled(f, passW).rex)
    ensures !f.rex.v ==> Settled(f, passW).rex.w == (f.rex.w && passW)
  {}

  // ----- Over the codes of a template -----

  lemma {:induction false} StepWithin(e: Env, ts: seq<Instr>, i: nat)
    requires i < |ts|
    ensures Within(StepRex(e, ts[i]), CodeLength.RexSum(e, ts))
  {
    hide StepRex;
    if i > 0 { StepWithin(e, ts[1..], i - 1); }
  }

  lemma WithinTrans(a: Rex, b: Rex, c: Rex)
    requires Within(a, b) && Within(b, c)
    ensures Within(a, c)
  {}

  // What calcsize settles, from what its loop collected.
  lemma Collected(e: Env, f: Fields, ts: seq<Instr>, i: nat) returns (g: Fields, passW: bool)
    requires CalcSizeOf(e, f, ts).Some? && i < |ts|
    ensures CalcSizeOf(e, f, ts).value.f == Settled(g, passW) && Acceptable(e, Settled(g, passW))
    ensures Within(StepRex(e, ts[i]), g.rex) && passW == (CodeLength.Count(ts, NoRexW) == 0)
  {
    hide StepRex, Settled, Acceptable, CalcRun, CodeLength.Count, PrefixLength, CodeLength.LengthSum, CodeLength.RexSum, Or;
    var s := CalcRun(e, CalcStart(f), ts).value;
    CodeLength.CalcTotal(e, CalcStart(f), ts);
    StepWithin(e, ts, i);
    SumWithin(CalcStart(f).f.rex, CodeLength.RexSum(e, ts));
    WithinTrans(StepRex(e, ts[i]), CodeLength.RexSum(e, ts), s.f.rex);
    g, passW := s.f, s.passW;
  }

  lemma SumWithin(a: Rex, b: Rex)
    ensures Within(b, Or(a, b)) && Within(a, Or(a, b))
  {}

  // The register in an opcode byte: the byte that gencode emits ends in its low three bits.
  lemma PlusRegisterSelected(e: Env, f: Fields, ts: seq<Instr>, i: nat, r: Reg)
    requires CalcSizeOf(e, f, ts).Some? && i < |ts| && KindOf(ts[i].c).PlusReg? && Opr(e, ts[i].op1).basereg == Some(r)
    requires IsByteRegister(r)
    ensures var rex := CalcSizeOf(e, f, ts).value.f.rex;
            (r.val >= 8 ==> rex.b) && ((rex.b ==> StepRex(e, ts[i]).b) ==>
              DecodeByteRegister(r.val % 8, rex.b, NoHighRegisters(e, rex)) == Named(r))
  {
    var mask := NO_REX.(b := true, h := true, p := true, w := true);
    var g, passW := Collected(e, f, ts, i);
    assert StepRex(e, ts[i]) == RexFlags(r.val, r.flags, mask) by { hide RexFlags; }
    hide CalcSizeOf, StepRex, KindOf;
    ByteRegisterSelected(e, g, passW, r, mask);
    FlagsMean(r.val, r.flags, mask);
    SettledFlags(e, g, passW);
    hide RexFlags, Settled, Acceptable, DecodeByteRegister, Named, IsByteRegister, NoHighRegisters;
  }

  // ----- The registers of an effective address -----

  // The flags of the field register are among those of every effective address.
  lemma FieldWithin(o: Operand, bits: int, addrbits: int, rfield: int, rflags: bv32)
    ensures var ea := EaOf(o, bits, addrbits, rfield, rflags); ea.Some? ==> Within(RexOfField(rfield, rflags), ea.value.rex)
  {
    EaCases(o, bits, addrbits, rfield, rflags);
    var x := RexOfField(rfield, rflags);
    forall y, z ensures Within(x, Or(x, y)) && Within(x, Or(Or(x, y), z)) { FirstWithin(x, y, z); }
    FirstWithin(x, x, x);
    hide EaOf, RexOfField, RexFlags, IsClass, Has, Or, EffectiveAddress.ModRm, Sib, ModFor, Wrap, Swapped16, Rm16, Is16, AdjustedFlags, SizesOk,
      Reorganised, BadPair, IsPureOffset, Within;
  }

  lemma FirstWithin(x: Rex, y: Rex, z: Rex)
    ensures Within(x, x) && Within(x, Or(x, y)) && Within(x, Or(Or(x, y), z)) && Within(y, Or(x, y))
  {
    SumWithin(x, y);
    SumWithin(Or(x, y), z);
    assert Within(x, x);
    hide *;
    WithinTrans(x, Or(x, y), Or(Or(x, y), z));
  }

  lemma AddressRex(e: Env, t: Instr)
    requires KindOf(t.c).ModRm? && EaFor(e, t).Some?
    ensures StepRex(e, t) == EaFor(e, t).value.rex
  {
    hide EaFor, KindOf, OpRexFlags;
  }

  lemma CountedAddress(e: Env, f: Fields, ts: seq<Instr>, i: nat)
    requires CalcSizeOf(e, f, ts).Some? && i < |ts| && KindOf(ts[i].c).ModRm?
    ensures EaFor(e, ts[i]).Some?
  {
    hide KindOf, CalcFinish, EaFor, Settled, Acceptable;
    CountedAt(e, CalcStart(f), ts, i);
    assert StepLength(e, CalcStart(f).f.prefixes.asize, ts[i]).Some?;
  }

  lemma {:induction false} CountedAt(e: Env, s: Calc, ts: seq<Instr>, i: nat)
    requires CalcRun(e, s, ts).Some? && i < |ts|
    ensures StepLength(e, s.f.prefixes.asize, ts[i]).Some?
    decreases |ts|
  {
    hide StepLength, KindOf, StepRex, CalcStep;
    CodeLength.StepKept(e, s, ts[0]);
    if i > 0 { CountedAt(e, CalcStep(e, s, ts[0]).value, ts[1..], i - 1); }
  }

  // The register in the reg field of ModRM.
  lemma FieldRegisterSelected(e: Env, f: Fields, ts: seq<Instr>, i: nat, r: Reg)
    requires CalcSizeOf(e, f, ts).Some? && i < |ts| && KindOf(ts[i].c).ModRm? && ts[i].c < 0x80
    requires Opr(e, ts[i].op1).basereg == Some(r) && IsByteRegister(r)
    requires SizedOperand(Opr(e, ts[i].op2), e.bits, e.addrSize)
    ensures EaFor(e, ts[i]).Some?
    ensures var rex, ea := CalcSizeOf(e, f, ts).value.f.rex, EaFor(e, ts[i]).value;
            (r.val >= 8 ==> rex.r) && ((rex.r ==> ea.rex.r) ==>
              DecodeByteRegister(ea.modrm / 8 % 8, rex.r, NoHighRegisters(e, rex)) == Named(r))
  {
    CountedAddress(e, f, ts, i);
    var o, ea := Opr(e, ts[i].op2), EaFor(e, ts[i]).value;
    assert EaOf(o, e.bits, e.addrSize, r.val, r.flags) == Some(ea) by { hide EaOf; }
    AddressRex(e, ts[i]);
    var g, passW := Collected(e, f, ts, i);
    var mask := NO_REX.(r := true, p := true, w := true, h := true);
    var field := RexFlags(r.val, r.flags, mask);
    assert field == RexOfField(r.val, r.flags) by { hide RexFlags; }
    hide *;
    AcceptedEncodes(x => 0, o, e.bits, e.addrSize, r.val, r.flags);
    EncodesField(x => 0, o, e.bits, AddressBits(o, e.addrSize), r.val, ea);
    FieldWithin(o, e.bits, e.addrSize, r.val, r.flags);
    WithinTrans(field, ea.rex, g.rex);
    MaskHas();
    ByteRegisterSelected(e, g, passW, r, mask);
    FlagsMean(r.val, r.flags, mask);
    SettledFlags(e, g, passW);
    WithinBits(field, g.rex);
  }

  lemma MaskHas()
    ensures var m := NO_REX.(r := true, p := true, w := true, h := true); m.h && m.p && m.r && m.w && !m.b
    ensures var m := NO_REX.(b := true, p := true, w := true, h := true); m.h && m.p && m.b && m.w && !m.r
  {}

  lemma WithinBits(a: Rex, c: Rex)
    requires Within(a, c)
    ensures (a.r ==> c.r) && (a.b ==> c.b) && (a.w ==> c.w)
  {}

  lemma EncodesField(file: int -> int, o: Operand, bits: int, addrbits: int, rfield: int, ea: Ea)
    requires Encodes(file, o, bits, addrbits, rfield, ea)
    ensures ea.modrm / 8 % 8 == rfield % 8 && ea.rex.r == (rfield >= 8)
    ensures IsClass(REGISTER, o.flags) && o.basereg.Some? && ValidReg(o.basereg.value) ==>
      ea.modrm % 8 == o.basereg.value.val % 8 && ea.rex.b == (o.basereg.value.val >= 8)
  {}

  // The register in the r/m field.
  lemma OperandRegisterSelected(e: Env, f: Fields, ts: seq<Instr>, i: nat, r: Reg)
    requires CalcSizeOf(e, f, ts).Some? && i < |ts| && KindOf(ts[i].c).ModRm?
    requires Opr(e, ts[i].op2).basereg == Some(r) && IsByteRegister(r) && IsClass(REGISTER, Opr(e, ts[i].op2).flags)
    requires SizedOperand(Opr(e, ts[i].op2), e.bits, e.addrSize)
    ensures EaFor(e, ts[i]).Some?
    ensures var rex, ea := CalcSizeOf(e, f, ts).value.f.rex, EaFor(e, ts[i]).value;
            (r.val >= 8 ==> rex.b) && ea.modrm / 64 == 3 && ((rex.b ==> ea.rex.b) ==>
              DecodeByteRegister(ea.modrm % 8, rex.b, NoHighRegisters(e, rex)) == Named(r))
  {
    CountedAddress(e, f, ts, i);
    AddressRex(e, ts[i]);
    var ea := EaFor(e, ts[i]).value;
    var rfield, rflags := RegisterField(e, ts[i]);
    var g, passW := Collected(e, f, ts, i);
    var mask := NO_REX.(b := true, p := true, w := true, h := true);
    hide *;
    RegisterShape(Opr(e, ts[i].op2), e.bits, e.addrSize, rfield, rflags, r);
    WithinTrans(RexFlags(r.val, r.flags, mask), ea.rex, g.rex);
    MaskHas();
    ByteRegisterSelected(e, g, passW, r, mask);
    FlagsMean(r.val, r.flags, mask);
    SettledFlags(e, g, passW);
    WithinBits(RexFlags(r.val, r.flags, mask), g.rex);
  }

  lemma RegisterField(e: Env, t: Instr) returns (rfield: int, rflags: bv32)
    requires EaFor(e, t).Some?
    ensures EaOf(Opr(e, t.op2), e.bits, e.addrSize, rfield, rflags) == EaFor(e, t)
  {
    hide EaOf;
    if t.c >= 0x80 {
      rfield, rflags := t.c % 8, 0;
    } else {
      var r := Opr(e, t.op1).basereg.value;
      rfield, rflags := r.val, r.flags;
    }
  }

  lemma RegisterShape(o: Operand, bits: int, addrbits: int, rfield: int, rflags: bv32, r: Reg)
    requires IsClass(REGISTER, o.flags) && o.basereg == Some(r) && ValidReg(r) && EaOf(o, bits, addrbits, rfield, rflags).Some?
    ensures var ea := EaOf(o, bits, addrbits, rfield, rflags).value;
            ea.modrm / 64 == 3 && ea.modrm % 8 == r.val % 8 && (r.val >= 8 ==> ea.rex.b) &&
            Within(RexFlags(r.val, r.flags, NO_REX.(b := true, p := true, w := true, h := true)), ea.rex)
  {
    var mask := NO_REX.(b := true, p := true, w := true, h := true);
    EaCases(o, bits, addrbits, rfield, rflags);
    FirstWithin(RexOfField(rfield, rflags), RexFlags(r.val, r.flags, mask), NO_REX);
    FlagsMean(r.val, r.flags, mask);
    ModRmFields(3, rfield, r.val % 8);
    hide EaOf, RexOfField, RexFlags, EffectiveAddress.ModRm, Or, Within, IsClass;
    assert EaOf(o, bits, addrbits, rfield, rflags).value.rex == Or(RexOfField(rfield, rflags), RexFlags(r.val, r.flags, mask));
    BitOfOr(RexOfField(rfield, rflags), RexFlags(r.val, r.flags, mask));
  }

  lemma BitOfOr(a: Rex, b: Rex)
    ensures b.b ==> Or(a, b).b
  {}

  // ----- Sixty-four bits -----

  // A 64-bit register in any of the three places claims W, and only 0323 or VEX can drop it.
  lemma WideRegister(e: Env, f: Fields, ts: seq<Instr>, i: nat)
    requires CalcSizeOf(e, f, ts).Some? && i < |ts| && CodeLength.Count(ts, NoRexW) == 0
    requires StepRex(e, ts[i]).w && !CalcSizeOf(e, f, ts).value.f.rex.v
    ensures CalcSizeOf(e, f, ts).value.f.rex.w && NoHighRegisters(e, CalcSizeOf(e, f, ts).value.f.rex)
  {
    var g, passW := Collected(e, f, ts, i);
    hide *;
    WithinBits(StepRex(e, ts[i]), g.rex);
    SettledFlags(e, g, passW);
  }

  lemma WideClaims(e: Env, t: Instr, r: Reg)
    requires Has(r.flags, BITS64)
    ensures KindOf(t.c).PlusReg? && Opr(e, t.op1).basereg == Some(r) ==> StepRex(e, t).w
    ensures KindOf(t.c).ModRm? && EaFor(e, t).Some? && t.c < 0x80 && Opr(e, t.op1).basereg == Some(r) ==> StepRex(e, t).w
    ensures KindOf(t.c).ModRm? && EaFor(e, t).Some? && IsClass(REGISTER, Opr(e, t.op2).flags) ==>
      (Opr(e, t.op2).basereg == Some(r) && ValidReg(r) ==> StepRex(e, t).w)
  {
    var opx, opy := Opr(e, t.op1), Opr(e, t.op2);
    FlagsMean(r.val, r.flags, NO_REX.(b := true, h := true, p := true, w := true));
    FlagsMean(r.val, r.flags, NO_REX.(r := true, h := true, p := true, w := true));
    if KindOf(t.c).ModRm? && EaFor(e, t).Some? {
      AddressRex(e, t);
      var ea := EaFor(e, t).value;
      if t.c < 0x80 && opx.basereg == Some(r) {
        assert EaOf(opy, e.bits, e.addrSize, r.val, r.flags) == Some(ea) by { hide EaOf; }
        FieldWithin(opy, e.bits, e.addrSize, r.val, r.flags);
        WithinBits(RexOfField(r.val, r.flags), ea.rex);
      }
      if IsClass(REGISTER, opy.flags) && opy.basereg == Some(r) && ValidReg(r) {
        var rfield, rflags := RegisterField(e, t);
        RegisterShape(opy, e.bits, e.addrSize, rfield, rflags, r);
        WithinBits(RexFlags(r.val, r.flags, NO_REX.(b := true, h := true, p := true, w := true)), ea.rex);
      }
    }
    hide EaOf, EaFor, RexFlags, IsClass, Has, Within;
  }

  // The address bytes are those of the operand that the code's middle digit names. The spare
  // field holds the register that its last digit names or, from \200 on, that digit.
  lemma AddressEncodes(file: int -> int, e: Env, t: Instr)
    requires EaFor(e, t).Some? && SizedOperand(Opr(e, t.op2), e.bits, e.addrSize)
    ensures t.c < 0x80 ==> Opr(e, t.op1).basereg.Some?
    ensures var spare := if t.c < 0x80 then Opr(e, t.op1).basereg.value.val else t.c % 8;
            var o := Opr(e, t.op2);
            Encodes(file, o, e.bits, AddressBits(o, e.addrSize), spare, EaFor(e, t).value)
  {
    hide EaOf, Encodes, Opr, AddressBits, SizedOperand;
    if t.c < 0x80 {
      var r := Opr(e, t.op1).basereg.value;
      AcceptedEncodes(file, Opr(e, t.op2), e.bits, e.addrSize, r.val, r.flags);
    } else {
      AcceptedEncodes(file, Opr(e, t.op2), e.bits, e.addrSize, t.c % 8, 0);
    }
  }

  lemma Started(e: Env, f: Fields, ts: seq<Instr>) returns (g: Fields, passW: bool)
    requires CalcSizeOf(e, f, ts).Some?
    ensures CalcSizeOf(e, f, ts).value.f == Settled(g, passW) && Acceptable(e, Settled(g, passW))
    ensures Within(NO_REX.(w := f.prefixes.osize == P_O64), g.rex) && passW == (CodeLength.Count(ts, NoRexW) == 0)
  {
    hide Settled, Acceptable, CalcRun, CodeLength.Count, PrefixLength, CodeLength.LengthSum, CodeLength.RexSum, Or;
    CodeLength.CalcTotal(e, CalcStart(f), ts);
    SumWithin(CalcStart(f).f.rex, CodeLength.RexSum(e, ts));
    var s := CalcRun(e, CalcStart(f), ts).value;
    g, passW := s.f, s.passW;
  }

  lemma RexWClaims(e: Env, t: Instr)
    requires KindOf(t.c) == RexW
    ensures StepRex(e, t).w
  {}

  // A 64-bit operand size that the source text or the template asks for sets W.
  lemma WidthAsked(e: Env, f: Fields, ts: seq<Instr>)
    requires CalcSizeOf(e, f, ts).Some? && !CalcSizeOf(e, f, ts).value.f.rex.v && CodeLength.Count(ts, NoRexW) == 0
    ensures f.prefixes.osize == P_O64 ==> CalcSizeOf(e, f, ts).value.f.rex.w
    ensures forall i :: 0 <= i < |ts| && KindOf(ts[i].c) == RexW ==> CalcSizeOf(e, f, ts).value.f.rex.w
  {
    hide *;
    var g, passW := Started(e, f, ts);
    WithinBits(NO_REX.(w := f.prefixes.osize == P_O64), g.rex);
    SettledFlags(e, g, passW);
    forall i | 0 <= i < |ts| && KindOf(ts[i].c) == RexW ensures CalcSizeOf(e, f, ts).value.f.rex.w {
      RexWClaims(e, ts[i]);
      WideRegister(e, f, ts, i);
    }
  }
}
