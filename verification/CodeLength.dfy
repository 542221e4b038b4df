// sdk/as/assemble.c: calcsize and gencode interpret the same bytecode and must agree on
// its length, byte for byte.
module CodeLength {
  import opened Base
  import opened Operands
  import opened ByteCode
  import opened EffectiveAddress
  import opened CodeSize
  import opened CodeGen

  // ----- What a bytecode string holds -----

  function Count(ts: seq<Instr>, k: Kind): nat {
    if ts == [] then 0 else (if KindOf(ts[0].c) == k then 1 else 0) + Count(ts[1..], k)
  }

  function VexCount(ts: seq<Instr>): nat { Count(ts, Vex) + Count(ts, VexNone) }

  // The mode, and the address size that goes with it.
  predicate ValidEnv(e: Env) {
    (e.bits == 16 || e.bits == 32 || e.bits == 64) && (e.bits == 64 ==> e.addrSize != 16)
  }

  // What a single code needs of its operands.
  predicate GoodCode(e: Env, t: Instr) {
    match KindOf(t.c)
    case Reserve => Opr(e, 0).segment == NO_SEG && Opr(e, 0).offset >= 0
    case RegImm => |t.args| == 1 && Opr(e, Number(t.args[0] / 8)).basereg.Some?
    case RegConst => |t.args| == 1 && Opr(e, Number(t.args[0] / 16)).basereg.Some?
    case RegOnly => |t.args| == 1 && Opr(e, Number(t.args[0])).basereg.Some?
    case PushPop => SegmentOpcode(Opr(e, 0)) != -1
    case PushPopFsGs => SegmentOpcodeFsGs(Opr(e, 0)) != -1
    case LockR => e.bits != 64
    case _ => true
  }

  predicate GoodCodes(e: Env, ts: seq<Instr>) {
    forall t <- ts :: |t.args| == Arguments(t.c) && GoodCode(e, t)
  }

  // The operand-size code that emits a prefix in this mode.
  function SizeKind(e: Env): Kind { if e.bits == 16 then Op32 else Op16 }

  // calcsize gives a 64-bit immediate of the mode's size four bytes, gencode two.
  predicate IsWide(e: Env, t: Instr) {
    var flags := Opr(e, t.op1).flags;
    KindOf(t.c).ImmSized? && e.bits == 16 && Has(flags, BITS64) && !Has(flags, BITS16 | BITS32)
  }

  function WideCount(e: Env, ts: seq<Instr>): nat {
    if ts == [] then 0 else (if IsWide(e, ts[0]) then 1 else 0) + WideCount(e, ts[1..])
  }

  // ----- One code -----

  // The bytes of a code that calcsize does not count at the code itself.
  function Extra(e: Env, f: Fields, k: Kind): nat {
    if k.Vex? || k.VexNone? then (if LongVex(f) then 3 else 2)
    else if k.LockR? then (if f.rex.r then 1 else 0)
    else if IsEmitter(k) && EmitsRex(e, f.rex) then 1
    else 0
  }

  predicate SizePrefixSpent(e: Env, p: Prefixes) {
    p.osize == if e.bits == 16 then P_O32 else P_O16
  }

  // The bytes that calcsize counts for a code and gencode does not emit: a size prefix is
  // counted for every code that asks for it and emitted once.
  function Loss(e: Env, p: Prefixes, t: Instr): nat {
    if KindOf(t.c) == SizeKind(e) && SizePrefixSpent(e, p) then 1 else if IsWide(e, t) then 2 else 0
  }

  lemma RipBytes(o: Operand, bits: int, addrbits: int, rfield: int, rflags: bv32)
    requires bits == 64 ==> addrbits != 16
    ensures var ea := EaOf(o, bits, addrbits, rfield, rflags); ea.Some? && ea.value.rip ==> ea.value.bytes == 4
  {}

  lemma ChunksOfOne(c: Chunk)
    ensures TotalSize([c]) == c.Size() && TotalSize([]) == 0 && TotalSize([c] + []) == c.Size()
  {}

  lemma EaLength(ea: Ea, o: Operand, w: Where, offset: int)
    requires ea.rip ==> ea.bytes == 4
    ensures var m := EmitEa(ea, o, w, offset); TotalSize(m.chunks) == m.advance == ea.Size()
  {
    hide OutAddress;
    var head := Raw([ea.modrm % 0x100] + (if ea.sibPresent then [ea.sib % 0x100] else []));
    ChunksOfOne(head);
    var m := EmitEa(ea, o, w, offset);
    if ea.bytes != 0 {
      assert m.chunks == [head, m.chunks[1]];
      assert m.chunks[1..] == [m.chunks[1]];
      ChunksOfOne(m.chunks[1]);
    }
  }

  lemma EaForLength(e: Env, t: Instr, w: Where, offset: int)
    requires ValidEnv(e) && EaFor(e, t).Some?
    ensures var m := EmitEa(EaFor(e, t).value, Opr(e, t.op2), w, offset);
            TotalSize(m.chunks) == m.advance == EaFor(e, t).value.Size()
  {
    var opx, opy := Opr(e, t.op1), Opr(e, t.op2);
    hide EmitEa, EaOf;
    RipBytes(opy, e.bits, e.addrSize, t.c % 8, 0);
    if opx.basereg.Some? {
      RipBytes(opy, e.bits, e.addrSize, opx.basereg.value.val, opx.basereg.value.flags);
    }
    EaLength(EaFor(e, t).value, opy, w, offset);
  }

  lemma SizedAgree(e: Env, t: Instr)
    requires KindOf(t.c).ImmSized?
    ensures var o := Opr(e, t.op1);
            SizedLength(e, o, BITS16 | BITS32) + (if IsWide(e, t) then 2 else 0) == SizedLength(e, o, BITS16 | BITS32 | BITS64)
  {}

  // An emission of at most one chunk.
  predicate Simple(m: Emission) {
    |m.chunks| <= 1 && m.advance == if m.chunks == [] then 0 else m.chunks[0].Size()
  }

  lemma SimpleTotal(m: Emission)
    requires Simple(m)
    ensures TotalSize(m.chunks) == m.advance
  {}

  // Every code emits what calcsize counted for it, its extra bytes, and not what is lost.
  lemma CodeAgrees(e: Env, w: Where, f: Fields, offset: int, t: Instr)
    requires ValidEnv(e) && |t.args| == Arguments(t.c) && GoodCode(e, t)
    requires StepLength(e, f.prefixes.asize, t).Some?
    ensures Body(e, w, f, offset, t).Some?
    ensures var m := Body(e, w, f, offset, t).value;
            TotalSize(m.chunks) == m.advance &&
            m.advance == StepLength(e, f.prefixes.asize, t).value + (if IsEmitter(KindOf(t.c)) then 0 else Extra(e, f, KindOf(t.c)))
                         - Loss(e, f.prefixes, t)
  {
    hide OutAddress, EmitEa, EaFor, SizedLength, IsSbyte16, IsSbyte32, ConditionByte, FixedByte, SBit, FourBits,
      SegmentOpcode, SegmentOpcodeFsGs, TotalSize, EmitsRex, Has, Opr, RexByte, Xor;
    var k := KindOf(t.c);
    if k.ModRm? {
      EaForLength(e, t, w, offset);
    } else if k.Reserve? {
      ChunksOfOne(Space(Opr(e, 0).offset));
    } else {
      if k.ImmSized? { SizedAgree(e, t); }
      hide KindOf;
      SimpleTotal(Body(e, w, f, offset, t).value);
    }
  }

  // ----- The whole run -----

  function LengthSum(e: Env, asize: int, ts: seq<Instr>): int {
    if ts == [] then 0 else (var n := StepLength(e, asize, ts[0]); if n.Some? then n.value else 0) + LengthSum(e, asize, ts[1..])
  }

  predicate AllSized(e: Env, asize: int, ts: seq<Instr>) {
    ts == [] || (StepLength(e, asize, ts[0]).Some? && AllSized(e, asize, ts[1..]))
  }

  function NextFields(e: Env, f: Fields, k: Kind): Fields {
    f.(rex := BodyRex(AfterRex(e, f.rex, k), k), prefixes := NextPrefixes(e, f.prefixes, k))
  }

  // The extra bytes of the whole run.
  function Extras(e: Env, f: Fields, ts: seq<Instr>): nat
    decreases |ts|
  {
    if ts == [] then 0
    else Extra(e, f, KindOf(ts[0].c)) + Extras(e, NextFields(e, f, KindOf(ts[0].c)), ts[1..])
  }

  // The lost bytes of the whole run.
  function Losses(e: Env, p: Prefixes, ts: seq<Instr>): nat
    decreases |ts|
  {
    if ts == [] then 0 else Loss(e, p, ts[0]) + Losses(e, NextPrefixes(e, p, KindOf(ts[0].c)), ts[1..])
  }

  lemma SpentStep(e: Env, p: Prefixes, k: Kind)
    ensures SizePrefixSpent(e, NextPrefixes(e, p, k)) <==> SizePrefixSpent(e, p) || k == SizeKind(e)
    ensures NextPrefixes(e, p, k).asize == p.asize
  {}

  // All size codes but the first are lost, and two bytes for every wide immediate.
  lemma {:induction false} LossesCount(e: Env, p: Prefixes, ts: seq<Instr>)
    ensures Losses(e, p, ts) ==
      (if SizePrefixSpent(e, p) || Count(ts, SizeKind(e)) == 0 then Count(ts, SizeKind(e)) else Count(ts, SizeKind(e)) - 1)
      + 2 * WideCount(e, ts)
    decreases |ts|
  {
    if ts != [] {
      var k := KindOf(ts[0].c);
      assert k == SizeKind(e) ==> !IsWide(e, ts[0]);
      hide KindOf, NextPrefixes, SizePrefixSpent, IsWide, SizeKind;
      SpentStep(e, p, k);
      LossesCount(e, NextPrefixes(e, p, k), ts[1..]);
    }
  }

  lemma StepTotal(e: Env, w: Where, g: Gen, t: Instr)
    requires ValidEnv(e) && |t.args| == Arguments(t.c) && GoodCode(e, t)
    requires StepLength(e, g.f.prefixes.asize, t).Some?
    ensures GenStep(e, w, g, t).Some?
    ensures var n := StepLength(e, g.f.prefixes.asize, t).value + Extra(e, g.f, KindOf(t.c)) - Loss(e, g.f.prefixes, t);
            var h := GenStep(e, w, g, t).value;
            h.f == NextFields(e, g.f, KindOf(t.c)) && h.offset == g.offset + n && TotalSize(h.out) == TotalSize(g.out) + n
  {
    hide KindOf, Body, GoodCode, StepLength, EmitsRex, BodyRex, NextPrefixes, TotalSize, LongVex, Loss;
    var k := KindOf(t.c);
    var f := g.f.(rex := AfterRex(e, g.f.rex, k));
    var pre := RexChunks(e, g.f.rex, k);
    CodeAgrees(e, w, f, g.offset + |pre|, t);
    var m := Body(e, w, f, g.offset + |pre|, t).value;
    TotalConcat(g.out, pre);
    TotalConcat(g.out + pre, m.chunks);
    ChunksOfOne(Raw([RexByte(g.f.rex)]));
  }

  // gencode does not panic and emits, and advances by, the counted bytes and the extras,
  // without the lost ones.
  lemma {:induction false} RunTotal(e: Env, w: Where, g: Gen, ts: seq<Instr>)
    requires ValidEnv(e) && GoodCodes(e, ts) && AllSized(e, g.f.prefixes.asize, ts)
    ensures WellFormed(ts) && GenRun(e, w, g, ts).Some?
    ensures var n := LengthSum(e, g.f.prefixes.asize, ts) + Extras(e, g.f, ts) - Losses(e, g.f.prefixes, ts);
            var h := GenRun(e, w, g, ts).value;
            h.offset == g.offset + n && TotalSize(h.out) == TotalSize(g.out) + n
    decreases |ts|
  {
    if ts != [] {
      hide GenStep, GoodCode, StepLength, Extra, Loss, KindOf, TotalSize, NextPrefixes;
      SpentStep(e, g.f.prefixes, KindOf(ts[0].c));
      assert GoodCode(e, ts[0]);
      StepTotal(e, w, g, ts[0]);
      RunTotal(e, w, GenStep(e, w, g, ts[0]).value, ts[1..]);
    }
  }

  // ----- The extras: REX, LOCK for REX.R, VEX -----

  // The codes behind which gencode holds no REX flags.
  predicate Clears(k: Kind) { IsEmitter(k) || k.Addr64? }

  // No code from place lo up to place hi drops the REX flags.
  predicate Quiet(ts: seq<Instr>, lo: nat, hi: nat)
    requires hi <= |ts|
  {
    forall h :: lo <= h < hi ==> !Clears(KindOf(ts[h].c))
  }

  predicate Raises(ts: seq<Instr>, i: nat, j: nat)
    requires i < j <= |ts|
  {
    KindOf(ts[i].c) == RexW && Quiet(ts, i + 1, j)
  }

  // Flags are pending at place j: those gencode starts with, or those of a code that forces W.
  predicate Pending(ts: seq<Instr>, held: bool, j: nat)
    requires j <= |ts|
  {
    (held && Quiet(ts, 0, j)) || exists i: nat :: i < j && Raises(ts, i, j)
  }

  // A REX prefix is emitted at place j.
  predicate Fires(ts: seq<Instr>, held: bool, j: nat)
    requires j < |ts|
  {
    IsEmitter(KindOf(ts[j].c)) && Pending(ts, held, j)
  }

  // How many of the first n places emit one.
  function FireCount(ts: seq<Instr>, held: bool, n: nat): nat
    requires n <= |ts|
  {
    if n == 0 then 0 else FireCount(ts, held, n - 1) + if Fires(ts, held, n - 1) then 1 else 0
  }

  function NextReal(held: bool, k: Kind): bool { !Clears(k) && (held || k == RexW) }

  lemma CountStep(ts: seq<Instr>, k: Kind)
    requires ts != []
    ensures Count(ts, k) == (if KindOf(ts[0].c) == k then 1 else 0) + Count(ts[1..], k)
  {}

  lemma QuietStep(ts: seq<Instr>, lo: nat, hi: nat)
    requires 0 < hi <= |ts|
    ensures lo > 0 ==> (Quiet(ts, lo, hi) <==> Quiet(ts[1..], lo - 1, hi - 1))
    ensures Quiet(ts, 0, hi) <==> !Clears(KindOf(ts[0].c)) && Quiet(ts[1..], 0, hi - 1)
  {
    hide KindOf, Clears;
    assert forall h :: 0 < h < |ts| ==> ts[h] == ts[1..][h - 1];
    forall h | 0 <= h < hi - 1 ensures !Clears(KindOf(ts[1..][h].c)) <==> !Clears(KindOf(ts[h + 1].c)) {
      assert ts[1..][h] == ts[h + 1];
    }
  }

  lemma NoClash(k: Kind)
    ensures k == RexW ==> !Clears(k)
  {}

  lemma PendingStep(ts: seq<Instr>, held: bool, j: nat)
    requires 0 < j <= |ts|
    ensures Pending(ts, held, j) <==> Pending(ts[1..], NextReal(held, KindOf(ts[0].c)), j - 1)
  {
    hide KindOf, Clears, Quiet;
    var k, rest := KindOf(ts[0].c), ts[1..];
    NoClash(k);
    QuietStep(ts, 0, j);
    QuietStep(ts, 1, j);
    forall i: nat | 0 < i < j ensures Raises(ts, i, j) <==> Raises(rest, i - 1, j - 1) {
      QuietStep(ts, i + 1, j);
    }
    if i: nat :| i < j && Raises(ts, i, j) {
      if i > 0 { assert Raises(rest, i - 1, j - 1); }
    }
    var m: nat := j - 1;
    if i: nat :| i < m && Raises(rest, i, m) {
      assert Raises(ts, i + 1, j);
    }
    if NextReal(held, k) && Quiet(rest, 0, j - 1) && !held {
      assert Raises(ts, 0, j);
    }
  }

  lemma {:induction false} FireStep(ts: seq<Instr>, held: bool, n: nat)
    requires n < |ts|
    ensures FireCount(ts, held, n + 1) ==
            (if Fires(ts, held, 0) then 1 else 0) + FireCount(ts[1..], NextReal(held, KindOf(ts[0].c)), n)
  {
    hide KindOf, Pending, NextReal;
    if n > 0 {
      FireStep(ts, held, n - 1);
      PendingStep(ts, held, n);
      assert ts[1..][n - 1] == ts[n];
    } else {
      assert FireCount(ts, held, 0) == 0 && FireCount(ts[1..], NextReal(held, KindOf(ts[0].c)), 0) == 0;
    }
  }

  lemma FiresFirst(ts: seq<Instr>, held: bool)
    requires ts != []
    ensures Fires(ts, held, 0) <==> IsEmitter(KindOf(ts[0].c)) && held
  {
    hide KindOf;
  }

  lemma RexStep(e: Env, f: Fields, k: Kind)
    requires e.bits == 64 && !f.rex.v && !k.Vex? && !k.VexNone? && !k.LockR?
    ensures !NextFields(e, f, k).rex.v && IsReal(NextFields(e, f, k).rex) == NextReal(IsReal(f.rex), k)
    ensures Extra(e, f, k) == if IsEmitter(k) && IsReal(f.rex) then 1 else 0
  {}

  lemma NoneInRest(ts: seq<Instr>)
    requires ts != [] && VexCount(ts) == 0 && Count(ts, LockR) == 0
    ensures VexCount(ts[1..]) == 0 && Count(ts[1..], LockR) == 0
    ensures var k := KindOf(ts[0].c); !k.Vex? && !k.VexNone? && !k.LockR?
  {
    CountStep(ts, Vex);
    CountStep(ts, VexNone);
    CountStep(ts, LockR);
    hide KindOf, Count;
  }

  lemma ExtrasStep(e: Env, f: Fields, ts: seq<Instr>)
    requires ts != []
    ensures Extras(e, f, ts) == Extra(e, f, KindOf(ts[0].c)) + Extras(e, NextFields(e, f, KindOf(ts[0].c)), ts[1..])
    ensures Extras(e, f, []) == 0
  {}

  // In 64-bit mode the places that emit a REX prefix are those where flags are pending.
  lemma {:induction false} RexEmissions(e: Env, f: Fields, ts: seq<Instr>)
    requires e.bits == 64 && !f.rex.v && VexCount(ts) == 0 && Count(ts, LockR) == 0
    ensures Extras(e, f, ts) == FireCount(ts, IsReal(f.rex), |ts|)
    decreases |ts|
  {
    if ts != [] {
      var k := KindOf(ts[0].c);
      NoneInRest(ts);
      ExtrasStep(e, f, ts);
      hide *;
      RexStep(e, f, k);
      FireStep(ts, IsReal(f.rex), |ts| - 1);
      FiresFirst(ts, IsReal(f.rex));
      RexEmissions(e, NextFields(e, f, k), ts[1..]);
    }
  }

  lemma LockStep(e: Env, f: Fields, k: Kind)
    requires e.bits != 64 && !f.rex.v && !k.Vex? && !k.VexNone? && !k.Addr64?
    ensures !NextFields(e, f, k).rex.v && NextFields(e, f, k).rex.r == (f.rex.r && !k.LockR?)
    ensures Extra(e, f, k) == if k.LockR? && f.rex.r then 1 else 0
  {}

  // Outside 64-bit mode a REX.R becomes one LOCK prefix.
  lemma {:induction false} LockOnce(e: Env, f: Fields, ts: seq<Instr>)
    requires e.bits != 64 && !f.rex.v && VexCount(ts) == 0 && Count(ts, Addr64) == 0
    ensures Extras(e, f, ts) == if f.rex.r && Count(ts, LockR) > 0 then 1 else 0
    decreases |ts|
  {
    if ts != [] {
      hide KindOf, Extra, NextFields;
      var k := KindOf(ts[0].c);
      LockStep(e, f, k);
      LockOnce(e, NextFields(e, f, k), ts[1..]);
    }
  }

  predicate IsVex(k: Kind) { k.Vex? || k.VexNone? }

  // A code before place j forces W.
  predicate WidthBefore(ts: seq<Instr>, j: nat)
    requires j <= |ts|
  {
    exists i: nat :: i < j && KindOf(ts[i].c) == RexW
  }

  // The bytes of the VEX prefixes among the first n places.
  function VexLength(ts: seq<Instr>, long: bool, n: nat): nat
    requires n <= |ts|
  {
    if n == 0 then 0
    else VexLength(ts, long, n - 1) + (if !IsVex(KindOf(ts[n - 1].c)) then 0 else if long || WidthBefore(ts, n - 1) then 3 else 2)
  }

  lemma WidthStep(ts: seq<Instr>, j: nat)
    requires 0 < j <= |ts|
    ensures WidthBefore(ts, j) <==> KindOf(ts[0].c) == RexW || WidthBefore(ts[1..], j - 1)
  {
    hide KindOf;
    if i: nat :| i < j && KindOf(ts[i].c) == RexW {
      assert i > 0 ==> KindOf(ts[1..][i - 1].c) == RexW;
    }
    if i: nat :| i < j - 1 && KindOf(ts[1..][i].c) == RexW {
      assert KindOf(ts[i + 1].c) == RexW;
    }
  }

  lemma {:induction false} VexLengthStep(ts: seq<Instr>, long: bool, n: nat)
    requires n < |ts|
    ensures VexLength(ts, long, n + 1) ==
            (if !IsVex(KindOf(ts[0].c)) then 0 else if long then 3 else 2) + VexLength(ts[1..], long || KindOf(ts[0].c) == RexW, n)
  {
    hide KindOf, IsVex, WidthBefore;
    if n > 0 {
      VexLengthStep(ts, long, n - 1);
      WidthStep(ts, n);
      assert ts[1..][n - 1] == ts[n];
    } else {
      assert !WidthBefore(ts, 0) by { NoneBefore(ts); }
      assert VexLength(ts, long, 0) == 0;
    }
  }

  lemma NoneBefore(ts: seq<Instr>)
    ensures !WidthBefore(ts, 0)
  {}

  lemma VexStep(e: Env, f: Fields, k: Kind)
    requires f.rex.v && !k.Addr64? && (k.LockR? ==> !f.rex.r)
    ensures var g := NextFields(e, f, k);
            g.rex.v && g.rex.r == (f.rex.r && !k.LockR?) && (LongVex(g) <==> LongVex(f) || k == RexW)
    ensures Extra(e, f, k) == if !IsVex(k) then 0 else if LongVex(f) then 3 else 2
  {}

  // A VEX instruction has a prefix at each VEX code, long behind a code that forces W, and no
  // REX or LOCK.
  lemma {:induction false} VexEmissions(e: Env, f: Fields, ts: seq<Instr>)
    requires f.rex.v && Count(ts, Addr64) == 0 && (Count(ts, LockR) > 0 ==> !f.rex.r)
    ensures Extras(e, f, ts) == VexLength(ts, LongVex(f), |ts|)
    decreases |ts|
  {
    if ts != [] {
      var k := KindOf(ts[0].c);
      CountStep(ts, Addr64);
      CountStep(ts, LockR);
      hide KindOf, LongVex, Extra, NextFields, Count, VexLength, IsVex;
      VexStep(e, f, k);
      VexLengthStep(ts, LongVex(f), |ts| - 1);
      VexEmissions(e, NextFields(e, f, k), ts[1..]);
    }
  }

  // ----- When the prefix is emitted as counted -----

  // One REX prefix if there are flags to start with, and none if not.
  predicate FiresAsCounted(ts: seq<Instr>, held: bool) {
    if held then exists j: nat :: j < |ts| && OnlyBelow(ts, held, |ts|, j)
    else forall j: nat :: j < |ts| ==> !Fires(ts, held, j)
  }

  lemma {:induction false} FireNone(ts: seq<Instr>, held: bool, n: nat)
    requires n <= |ts|
    ensures FireCount(ts, held, n) == 0 <==> forall j: nat :: j < n ==> !Fires(ts, held, j)
  {
    hide Fires;
    if n > 0 { FireNone(ts, held, n - 1); }
  }

  lemma {:induction false} FireOne(ts: seq<Instr>, held: bool, n: nat)
    requires n <= |ts|
    ensures FireCount(ts, held, n) == 1 <==>
            exists j: nat :: j < n && OnlyBelow(ts, held, n, j)
  {
    if n > 0 {
      var m: nat := n - 1;
      FireNone(ts, held, m);
      FireOne(ts, held, m);
      hide Fires;
      if Fires(ts, held, m) {
        assert FireCount(ts, held, m) == 0 <==> OnlyBelow(ts, held, n, m);
        forall j: nat | j < m ensures !OnlyBelow(ts, held, n, j) {}
      } else {
        forall j: nat | j < m ensures OnlyBelow(ts, held, n, j) <==> OnlyBelow(ts, held, m, j) {}
        assert !OnlyBelow(ts, held, n, m);
      }
      hide OnlyBelow;
    }
  }

  predicate OnlyBelow(ts: seq<Instr>, held: bool, n: nat, j: nat)
    requires j < n <= |ts|
  {
    Fires(ts, held, j) && forall i: nat :: i < n && i != j ==> !Fires(ts, held, i)
  }

  // The order of a template without 0313: some code emits a REX prefix if there are flags to
  // start with, and 0324 does not stand between two such codes, nor before one where there
  // are no flags.
  predicate InOrder(ts: seq<Instr>, held: bool) {
    (held ==> exists j: nat :: j < |ts| && EmitsAt(ts, j)) &&
    forall i: nat, j: nat :: i < j < |ts| && WidthAt(ts, i) && EmitsAt(ts, j) ==> held && forall h: nat :: h < i ==> !EmitsAt(ts, h)
  }

  predicate EmitsAt(ts: seq<Instr>, j: nat)
    requires j < |ts|
  {
    IsEmitter(KindOf(ts[j].c))
  }

  predicate WidthAt(ts: seq<Instr>, j: nat)
    requires j < |ts|
  {
    KindOf(ts[j].c) == RexW
  }

  lemma WithoutAddr64(ts: seq<Instr>, j: nat)
    requires Count(ts, Addr64) == 0 && j < |ts|
    ensures Clears(KindOf(ts[j].c)) <==> EmitsAt(ts, j)
  {
    if KindOf(ts[j].c) == Addr64 { CountAt(ts, Addr64, j); }
  }

  lemma {:induction false} CountAt(ts: seq<Instr>, k: Kind, j: nat)
    requires j < |ts| && KindOf(ts[j].c) == k
    ensures Count(ts, k) > 0
  {
    hide KindOf;
    if j > 0 {
      assert ts[1..][j - 1] == ts[j];
      CountAt(ts[1..], k, j - 1);
    }
  }

  // The first code from place lo on that emits a REX prefix.
  lemma {:induction false} FirstEmitter(ts: seq<Instr>, lo: nat, j: nat) returns (first: nat)
    requires Count(ts, Addr64) == 0 && lo <= j < |ts| && EmitsAt(ts, j)
    ensures lo <= first <= j && EmitsAt(ts, first) && Quiet(ts, lo, first)
    decreases j - lo
  {
    hide KindOf, Clears, EmitsAt;
    first := lo;
    while !EmitsAt(ts, first)
      invariant lo <= first <= j && Quiet(ts, lo, first)
      decreases j - first
    {
      WithoutAddr64(ts, first);
      first := first + 1;
    }
  }

  lemma FiresAfterWidth(ts: seq<Instr>, held: bool, i: nat, j: nat)
    requires i < j < |ts| && WidthAt(ts, i) && EmitsAt(ts, j) && Quiet(ts, i + 1, j)
    ensures Fires(ts, held, j)
  {
    assert Raises(ts, i, j);
  }

  // What makes a place emit, where nothing but an emission drops the flags.
  lemma FiresWhy(ts: seq<Instr>, held: bool, j: nat) returns (i: nat)
    requires Count(ts, Addr64) == 0 && j < |ts| && Fires(ts, held, j)
    ensures EmitsAt(ts, j)
    ensures (held && forall h: nat :: h < j ==> !EmitsAt(ts, h)) ||
            (i < j && WidthAt(ts, i) && forall h: nat :: i < h < j ==> !EmitsAt(ts, h))
  {
    forall h: nat | h < |ts| ensures Clears(KindOf(ts[h].c)) <==> EmitsAt(ts, h) { WithoutAddr64(ts, h); }
    hide KindOf, Clears;
    i := 0;
    if !(held && Quiet(ts, 0, j)) {
      i :| i < j && Raises(ts, i, j);
    }
  }

  // For templates without 0313 the order is exactly what makes the emissions as counted.
  lemma OrderIsExact(ts: seq<Instr>, held: bool)
    requires Count(ts, Addr64) == 0
    ensures FiresAsCounted(ts, held) <==> InOrder(ts, held)
  {
    hide KindOf, Fires, EmitsAt, WidthAt;
    if FiresAsCounted(ts, held) { CountedInOrder(ts, held); }
    if InOrder(ts, held) { InOrderCounted(ts, held); }
  }

  lemma FirstFires(ts: seq<Instr>, j: nat) returns (first: nat)
    requires Count(ts, Addr64) == 0 && j < |ts| && EmitsAt(ts, j)
    ensures first <= j && EmitsAt(ts, first) && Fires(ts, true, first)
  {
    first := FirstEmitter(ts, 0, j);
  }

  lemma WidthFires(ts: seq<Instr>, held: bool, i: nat, j: nat) returns (first: nat)
    requires Count(ts, Addr64) == 0 && i < j < |ts| && WidthAt(ts, i) && EmitsAt(ts, j)
    ensures i < first <= j && Fires(ts, held, first)
  {
    first := FirstEmitter(ts, i + 1, j);
    FiresAfterWidth(ts, held, i, first);
  }

  lemma FiresEmits(ts: seq<Instr>, held: bool, j: nat)
    requires j < |ts| && Fires(ts, held, j)
    ensures EmitsAt(ts, j)
  {}

  lemma CountedInOrder(ts: seq<Instr>, held: bool)
    requires Count(ts, Addr64) == 0 && FiresAsCounted(ts, held)
    ensures InOrder(ts, held)
  {
    hide KindOf, Fires, EmitsAt, WidthAt;
    if held {
      var j: nat :| j < |ts| && OnlyBelow(ts, held, |ts|, j);
      FiresEmits(ts, held, j);
    }
    forall i: nat, j: nat | i < j < |ts| && WidthAt(ts, i) && EmitsAt(ts, j)
      ensures held && forall h: nat :: h < i ==> !EmitsAt(ts, h)
    {
      var after := WidthFires(ts, held, i, j);
      if held {
        forall h: nat | h < i ensures !EmitsAt(ts, h) {
          if EmitsAt(ts, h) {
            var first := FirstFires(ts, h);
            assert false;
          }
        }
      }
    }
  }

  lemma InOrderCounted(ts: seq<Instr>, held: bool)
    requires Count(ts, Addr64) == 0 && InOrder(ts, held)
    ensures FiresAsCounted(ts, held)
  {
    hide KindOf, Fires, EmitsAt, WidthAt;
    if held {
      var j: nat :| j < |ts| && EmitsAt(ts, j);
      var first := FirstFires(ts, j);
      forall k: nat | k < |ts| && k != first ensures !Fires(ts, held, k) {
        if Fires(ts, held, k) {
          var i := FiresWhy(ts, held, k);
          var other := FiresWhy(ts, held, first);
          WidthIsNoEmitter(ts, i);
          WidthIsNoEmitter(ts, other);
        }
      }
      assert OnlyBelow(ts, held, |ts|, first);
    } else {
      forall k: nat | k < |ts| ensures !Fires(ts, held, k) {
        if Fires(ts, held, k) {
          var i := FiresWhy(ts, held, k);
        }
      }
    }
  }

  lemma WidthIsNoEmitter(ts: seq<Instr>, i: nat)
    ensures i < |ts| && WidthAt(ts, i) ==> !EmitsAt(ts, i)
  {}

  // One VEX code, and none that forces W before it unless the prefix is long anyway.
  predicate VexInOrder(ts: seq<Instr>, long: bool) {
    VexCount(ts) == 1 && (long || forall j: nat :: j < |ts| && IsVexAt(ts, j) ==> !WidthBefore(ts, j))
  }

  // No VEX code, or none behind a code that forces W.
  predicate NoVexAt(ts: seq<Instr>) { forall j: nat :: j < |ts| ==> !IsVexAt(ts, j) }

  predicate NoWideVex(ts: seq<Instr>) { forall j: nat :: j < |ts| && IsVexAt(ts, j) ==> !WidthBefore(ts, j) }

  lemma VexFirst(ts: seq<Instr>)
    requires ts != []
    ensures VexCount(ts) == VexCount(ts[1..]) + if IsVex(KindOf(ts[0].c)) then 1 else 0
    ensures NoVexAt(ts) <==> !IsVex(KindOf(ts[0].c)) && NoVexAt(ts[1..])
  {
    CountStep(ts, Vex);
    CountStep(ts, VexNone);
    IsVexAtIs(ts);
    assert IsVex(KindOf(ts[0].c)) <==> KindOf(ts[0].c).Vex? || KindOf(ts[0].c).VexNone?;
    hide KindOf, Count, IsVex, IsVexAt;
    forall j: nat | j < |ts[1..]| ensures IsVexAt(ts, j + 1) <==> IsVexAt(ts[1..], j) { IsVexAtShift(ts, j + 1); }
    if !IsVexAt(ts, 0) && NoVexAt(ts[1..]) {
      forall j: nat | j < |ts| ensures !IsVexAt(ts, j) {
        if j > 0 { IsVexAtShift(ts, j); }
      }
    }
  }

  lemma WideFirst(ts: seq<Instr>)
    requires ts != []
    ensures NoWideVex(ts) <==> if KindOf(ts[0].c) == RexW then NoVexAt(ts[1..]) else NoWideVex(ts[1..])
  {
    NoneBefore(ts);
    hide KindOf, IsVexAt, WidthBefore;
    forall j: nat | j < |ts[1..]|
      ensures (WidthBefore(ts, j + 1) <==> KindOf(ts[0].c) == RexW || WidthBefore(ts[1..], j)) &&
              (IsVexAt(ts, j + 1) <==> IsVexAt(ts[1..], j))
    {
      WidthStep(ts, j + 1);
      IsVexAtShift(ts, j + 1);
    }
    if if KindOf(ts[0].c) == RexW then NoVexAt(ts[1..]) else NoWideVex(ts[1..]) {
      forall j: nat | j < |ts| && IsVexAt(ts, j) ensures !WidthBefore(ts, j) {
        if j > 0 {
          WidthStep(ts, j);
          IsVexAtShift(ts, j);
        }
      }
    }
  }

  lemma {:induction false} VexBounds(ts: seq<Instr>, long: bool)
    ensures 2 * VexCount(ts) <= VexLength(ts, long, |ts|) <= 3 * VexCount(ts)
    ensures long ==> VexLength(ts, long, |ts|) == 3 * VexCount(ts)
    ensures VexCount(ts) == 0 <==> NoVexAt(ts)
    ensures !long ==> (VexLength(ts, long, |ts|) == 2 * VexCount(ts) <==> NoWideVex(ts))
  {
    hide *;
    if ts == [] {
      NoCodes(ts, long);
    } else {
      VexFirst(ts);
      WideFirst(ts);
      VexLengthStep(ts, long, |ts| - 1);
      VexIsNoWidth(KindOf(ts[0].c));
      VexBounds(ts[1..], long || KindOf(ts[0].c) == RexW);
    }
  }

  lemma NoCodes(ts: seq<Instr>, long: bool)
    requires ts == []
    ensures VexCount(ts) == 0 && VexLength(ts, long, 0) == 0 && NoVexAt(ts) && NoWideVex(ts)
  {}

  lemma VexIsNoWidth(k: Kind)
    ensures k == RexW ==> !IsVex(k)
  {}

  predicate IsVexAt(ts: seq<Instr>, j: nat)
    requires j < |ts|
  {
    IsVex(KindOf(ts[j].c))
  }

  lemma IsVexAtIs(ts: seq<Instr>)
    requires ts != []
    ensures IsVexAt(ts, 0) <==> IsVex(KindOf(ts[0].c))
  {}

  lemma IsVexAtShift(ts: seq<Instr>, j: nat)
    requires 0 < j < |ts|
    ensures IsVexAt(ts, j) <==> IsVexAt(ts[1..], j - 1)
  {}

  // With a VEX code, the prefixes have the length of one exactly in that order.
  lemma VexOrderIsExact(ts: seq<Instr>, long: bool)
    requires VexCount(ts) > 0
    ensures VexLength(ts, long, |ts|) == (if long then 3 else 2) <==> VexInOrder(ts, long)
  {
    VexBounds(ts, long);
    hide VexCount, VexLength, IsVexAt, WidthBefore;
  }

  // ----- What calcsize settled -----

  function RexSum(e: Env, ts: seq<Instr>): Rex {
    if ts == [] then NO_REX else Or(StepRex(e, ts[0]), RexSum(e, ts[1..]))
  }

  lemma OrAssoc(a: Rex, b: Rex, c: Rex)
    ensures Or(Or(a, b), c) == Or(a, Or(b, c)) && Or(a, NO_REX) == a
  {}

  lemma StepKept(e: Env, s: Calc, t: Instr)
    requires CalcStep(e, s, t).Some?
    ensures var c := CalcStep(e, s, t).value;
            StepLength(e, s.f.prefixes.asize, t).Some? &&
            c.length == s.length + StepLength(e, s.f.prefixes.asize, t).value && c.f.rex == Or(s.f.rex, StepRex(e, t)) &&
            c.passW == (s.passW && !KindOf(t.c).NoRexW?) && c.f.prefixes.asize == s.f.prefixes.asize &&
            c.f.prefixes.osize == s.f.prefixes.osize
  {
    hide StepLength, StepRex, Or, KindOf;
  }

  lemma {:induction false} CalcTotal(e: Env, s: Calc, ts: seq<Instr>)
    requires CalcRun(e, s, ts).Some?
    ensures AllSized(e, s.f.prefixes.asize, ts)
    ensures var c := CalcRun(e, s, ts).value;
            c.length == s.length + LengthSum(e, s.f.prefixes.asize, ts) && c.f.rex == Or(s.f.rex, RexSum(e, ts)) &&
            c.passW == (s.passW && Count(ts, NoRexW) == 0) && c.f.prefixes.asize == s.f.prefixes.asize &&
            c.f.prefixes.osize == s.f.prefixes.osize
    decreases |ts|
  {
    OrAssoc(s.f.rex, NO_REX, NO_REX);
    if ts != [] {
      hide StepLength, StepRex, Or, KindOf, CalcStep;
      StepKept(e, s, ts[0]);
      OrAssoc(s.f.rex, StepRex(e, ts[0]), RexSum(e, ts[1..]));
      var next := CalcStep(e, s, ts[0]).value;
      CalcTotal(e, next, ts[1..]);
    }
  }

  // The flags that no operand sets.
  predicate Plain(r: Rex) { !r.l && !r.v && !r.nh }

  lemma PlainParts(a: Rex, b: Rex, val: int, flags: bv32, mask: Rex)
    ensures Plain(a) && Plain(b) ==> Plain(Or(a, b))
    ensures Plain(RexFlags(val, flags, mask))
  {}

  lemma EaPlain(o: Operand, bits: int, addrbits: int, rfield: int, rflags: bv32)
    ensures var ea := EaOf(o, bits, addrbits, rfield, rflags); ea.Some? ==> Plain(ea.value.rex)
  {
    hide IsClass, Has, SizesOk, Reorganised, BadPair, EffectiveAddress.ModRm, Sib, RexFlags, Or, ModFor, Wrap, Swapped16, Rm16,
      Is16, AdjustedFlags, Plain;
    forall a: Rex, b: Rex ensures Plain(a) && Plain(b) ==> Plain(Or(a, b)) {
      PlainParts(a, b, 0, 0, NO_REX);
    }
    forall val: int, flags: bv32, mask: Rex ensures Plain(RexFlags(val, flags, mask)) {
      PlainParts(NO_REX, NO_REX, val, flags, mask);
    }
  }

  lemma StepRexFlags(e: Env, t: Instr)
    ensures var r, k := StepRex(e, t), KindOf(t.c);
            r.l == k.LockR? && r.v == (k.Vex? || k.VexNone?) && (k.RexW? ==> r.w)
  {
    hide KindOf, EaOf, RexFlags;
    var opx, opy := Opr(e, t.op1), Opr(e, t.op2);
    EaPlain(opy, e.bits, e.addrSize, t.c % 8, 0);
    if opx.basereg.Some? {
      var reg := opx.basereg.value;
      EaPlain(opy, e.bits, e.addrSize, reg.val, reg.flags);
      PlainParts(NO_REX, NO_REX, reg.val, reg.flags, NO_REX.(b := true, h := true, p := true, w := true));
    }
  }

  lemma {:induction false} RexSumFlags(e: Env, ts: seq<Instr>)
    ensures var r := RexSum(e, ts);
            r.l == (Count(ts, LockR) > 0) && r.v == (VexCount(ts) > 0) && (Count(ts, RexW) > 0 ==> r.w)
  {
    if ts != [] {
      StepRexFlags(e, ts[0]);
      CountStep(ts, LockR);
      CountStep(ts, Vex);
      CountStep(ts, VexNone);
      CountStep(ts, RexW);
      hide KindOf, StepRex, Count;
      RexSumFlags(e, ts[1..]);
    }
  }

  // ----- The theorem -----

  // What calcsize accepts says about its flags.
  lemma SettledFacts(e: Env, f: Fields, passW: bool)
    requires Acceptable(e, Settled(f, passW))
    ensures var r := Settled(f, passW).rex;
            r.v == f.rex.v && r.l == f.rex.l && r.r == f.rex.r &&
            (f.rex.w && passW && !r.v ==> r.w) && Settled(f, passW).prefixes == f.prefixes
    ensures var r := Settled(f, passW).rex; e.bits != 64 ==> if r.v then !r.r else IsReal(r) == r.r && (r.r ==> r.l)
  {}

  lemma AddressCodes(e: Env, asize: int, ts: seq<Instr>)
    requires AllSized(e, asize, ts) && e.bits != 64
    ensures Count(ts, Addr64) == 0
  {}

  lemma {:induction false} NoLocks(e: Env, ts: seq<Instr>)
    requires GoodCodes(e, ts) && e.bits == 64
    ensures Count(ts, LockR) == 0
  {
    if ts != [] {
      hide KindOf, Number, SegmentOpcode, SegmentOpcodeFsGs, Has;
      assert GoodCode(e, ts[0]);
      NoLocks(e, ts[1..]);
    }
  }

  // The bytes of the prefixes that gencode emits, by the places of the codes.
  function PrefixBytes(e: Env, f: Fields, ts: seq<Instr>): int {
    if f.rex.v then VexLength(ts, LongVex(f), |ts|)
    else if e.bits == 64 then FireCount(ts, IsReal(f.rex), |ts|)
    else PrefixLength(f)
  }

  // The template makes gencode emit the one prefix that calcsize counted.
  predicate PrefixInOrder(e: Env, f: Fields, ts: seq<Instr>) {
    if f.rex.v then VexInOrder(ts, LongVex(f)) else e.bits == 64 ==> FiresAsCounted(ts, IsReal(f.rex))
  }

  // What the flags before the masks say about the codes.
  predicate FlagsOf(e: Env, r: Rex, ts: seq<Instr>) {
    r.l == (Count(ts, LockR) > 0) && r.v == (VexCount(ts) > 0)
  }

  lemma RunFlags(e: Env, start: Rex, ts: seq<Instr>)
    requires !start.l && !start.v
    ensures FlagsOf(e, Or(start, RexSum(e, ts)), ts)
  {
    RexSumFlags(e, ts);
    hide RexSum, Count;
  }

  lemma ExtrasAreEmissions(e: Env, s: Calc, ts: seq<Instr>)
    requires ValidEnv(e) && Acceptable(e, Settled(s.f, s.passW)) && GoodCodes(e, ts) && AllSized(e, s.f.prefixes.asize, ts)
    requires FlagsOf(e, s.f.rex, ts) && (Count(ts, Addr64) > 0 ==> VexCount(ts) == 0)
    ensures Extras(e, Settled(s.f, s.passW), ts) == PrefixBytes(e, Settled(s.f, s.passW), ts)
    ensures Settled(s.f, s.passW).rex.v ==> VexCount(ts) > 0
  {
    var f := Settled(s.f, s.passW);
    SettledFacts(e, s.f, s.passW);
    if e.bits != 64 { AddressCodes(e, s.f.prefixes.asize, ts); } else { NoLocks(e, ts); }
    hide Settled, Acceptable, GoodCodes, RexSum, AllSized, Count, Extras, LongVex, IsReal, VexLength, FireCount;
    if f.rex.v {
      VexEmissions(e, f, ts);
    } else if e.bits == 64 {
      RexEmissions(e, f, ts);
    } else {
      LockOnce(e, f, ts);
    }
  }

  // The prefix emitted has the length calcsize counted exactly for templates in that order.
  lemma PrefixAsCounted(e: Env, f: Fields, ts: seq<Instr>)
    requires f.rex.v ==> VexCount(ts) > 0
    ensures PrefixBytes(e, f, ts) == PrefixLength(f) <==> PrefixInOrder(e, f, ts)
  {
    if f.rex.v { VexOrderIsExact(ts, LongVex(f)); }
    FireNone(ts, IsReal(f.rex), |ts|);
    FireOne(ts, IsReal(f.rex), |ts|);
    hide IsReal, LongVex, VexInOrder, VexLength, FireCount, Fires, OnlyBelow, VexCount;
  }

  // Without 0313 the order is one of the codes' places only.
  lemma TemplateOrder(e: Env, f: Fields, ts: seq<Instr>)
    requires Count(ts, Addr64) == 0
    ensures PrefixInOrder(e, f, ts) <==>
            if f.rex.v then VexInOrder(ts, LongVex(f)) else e.bits == 64 ==> InOrder(ts, IsReal(f.rex))
  {
    OrderIsExact(ts, IsReal(f.rex));
    hide Count, FiresAsCounted, InOrder, VexInOrder, IsReal, LongVex;
  }

  // The exact account: what gencode emits, started on the fields calcsize left, against
  // what calcsize returned.
  lemma EmittedAccount(e: Env, w: Where, f: Fields, ts: seq<Instr>, out: seq<Chunk>, offset: int)
    requires ValidEnv(e) && CalcSizeOf(e, f, ts).Some? && GoodCodes(e, ts)
    ensures WellFormed(ts)
    ensures var c := CalcSizeOf(e, f, ts).value;
            var g := GenRun(e, w, Gen(c.f, out, offset), ts);
            var n := c.length - PrefixLength(c.f) + Extras(e, c.f, ts) - Losses(e, c.f.prefixes, ts);
            g.Some? && TotalSize(g.value.out) == TotalSize(out) + n && g.value.offset == offset + n
  {
    var c := CalcSizeOf(e, f, ts).value;
    var s := CalcRun(e, CalcStart(f), ts).value;
    assert Settled(s.f, s.passW) == c.f && Acceptable(e, c.f) && c.length == s.length + PrefixLength(c.f);
    hide CalcRun, Acceptable, GoodCodes, AllSized, PrefixLength, Extras, LengthSum, GenRun, TotalSize, Losses;
    CalcTotal(e, CalcStart(f), ts);
    SettledKeeps(s.f, s.passW);
    RunTotal(e, w, Gen(c.f, out, offset), ts);
  }

  // The bytes calcsize counts too many: every size prefix after the first, the first too
  // where the instruction has one of its own, and two for every wide immediate.
  function Overcount(e: Env, p: Prefixes, ts: seq<Instr>): nat {
    var n := Count(ts, SizeKind(e));
    (if SizePrefixSpent(e, p) || n == 0 then n else n - 1) + 2 * WideCount(e, ts)
  }

  // The bytecode as gencode needs it, sized by calcsize.
  predicate Sized(e: Env, f: Fields, ts: seq<Instr>) {
    ValidEnv(e) && CalcSizeOf(e, f, ts).Some? && GoodCodes(e, ts) && (Count(ts, Addr64) > 0 ==> VexCount(ts) == 0)
  }

  lemma SizedRun(e: Env, f: Fields, ts: seq<Instr>)
    requires Sized(e, f, ts)
    ensures CalcRun(e, CalcStart(f), ts).Some?
    ensures var s, c := CalcRun(e, CalcStart(f), ts).value, CalcSizeOf(e, f, ts).value;
            Settled(s.f, s.passW) == c.f && Acceptable(e, c.f) && AllSized(e, s.f.prefixes.asize, ts) && FlagsOf(e, s.f.rex, ts)
    ensures SizePrefixSpent(e, CalcSizeOf(e, f, ts).value.f.prefixes) == SizePrefixSpent(e, f.prefixes)
  {
    var s := CalcRun(e, CalcStart(f), ts).value;
    assert !CalcStart(f).f.rex.l && !CalcStart(f).f.rex.v && CalcStart(f).f.prefixes == f.prefixes;
    hide CalcRun, CalcStart, Acceptable, GoodCodes, AllSized, RexSum, LengthSum, Count, FlagsOf, Settled, PrefixLength;
    CalcTotal(e, CalcStart(f), ts);
    RunFlags(e, CalcStart(f).f.rex, ts);
    SettledKeeps(s.f, s.passW);
  }

  // What gencode emits and moves its offset by, against the length calcsize returned: the
  // prefix counted gives way to the prefixes emitted, and what is counted too many is not there.
  lemma EmittedLength(e: Env, w: Where, f: Fields, ts: seq<Instr>, out: seq<Chunk>, offset: int)
    requires Sized(e, f, ts)
    ensures WellFormed(ts)
    ensures var c := CalcSizeOf(e, f, ts).value;
            var n := c.length - PrefixLength(c.f) + PrefixBytes(e, c.f, ts) - Overcount(e, f.prefixes, ts);
            var g := GenRun(e, w, Gen(c.f, out, offset), ts);
            g.Some? && TotalSize(g.value.out) == TotalSize(out) + n && g.value.offset == offset + n
    ensures CalcSizeOf(e, f, ts).value.f.rex.v ==> VexCount(ts) > 0
  {
    var c := CalcSizeOf(e, f, ts).value;
    SizedRun(e, f, ts);
    var s := CalcRun(e, CalcStart(f), ts).value;
    hide CalcRun, CalcSizeOf, Acceptable, GoodCodes, AllSized, FlagsOf, PrefixLength, PrefixBytes, Extras, GenRun, TotalSize, Count,
      WideCount, Losses, SizeKind, Settled, SizePrefixSpent;
    ExtrasAreEmissions(e, s, ts);
    LossesCount(e, c.f.prefixes, ts);
    EmittedAccount(e, w, f, ts, out, offset);
  }

  // The two passes agree exactly when the prefixes emitted make up for the prefix counted and
  // the bytes counted too many: for a template in order, when there is no wide immediate and
  // at most one size prefix; without those, when the template is in order.
  lemma LengthsAgree(e: Env, w: Where, f: Fields, ts: seq<Instr>, out: seq<Chunk>, offset: int)
    requires Sized(e, f, ts)
    ensures WellFormed(ts)
    ensures var c := CalcSizeOf(e, f, ts).value;
            var g := GenRun(e, w, Gen(c.f, out, offset), ts);
            var over := Overcount(e, f.prefixes, ts);
            g.Some? &&
            (TotalSize(g.value.out) == TotalSize(out) + c.length <==> PrefixBytes(e, c.f, ts) == PrefixLength(c.f) + over) &&
            (over == 0 ==> (TotalSize(g.value.out) == TotalSize(out) + c.length <==> PrefixInOrder(e, c.f, ts))) &&
            (PrefixInOrder(e, c.f, ts) ==> (TotalSize(g.value.out) == TotalSize(out) + c.length <==> over == 0))
    ensures Overcount(e, f.prefixes, ts) == 0 <==>
            WideCount(e, ts) == 0 && Count(ts, SizeKind(e)) <= if SizePrefixSpent(e, f.prefixes) then 0 else 1
  {
    EmittedLength(e, w, f, ts, out, offset);
    hide CalcSizeOf, GenRun, GoodCodes, TotalSize, Count, WideCount, PrefixBytes, PrefixLength, PrefixInOrder, SizePrefixSpent, SizeKind;
    PrefixAsCounted(e, CalcSizeOf(e, f, ts).value.f, ts);
  }

  lemma SettledKeeps(f: Fields, passW: bool)
    ensures Settled(f, passW).prefixes == f.prefixes
  {}

  const MASKED_WIDTH: seq<Instr> := [Instr(0xd3, 0, 0, []), Instr(0xd4, 0, 0, []), Instr(1, 0, 0, [0x90])]

  lemma MaskedKinds()
    ensures var ts := MASKED_WIDTH;
            KindOf(ts[0].c) == NoRexW && KindOf(ts[1].c) == RexW && KindOf(ts[2].c) == Literal && ts[2].c == 1 &&
            ts[0].args == [] && ts[1].args == [] && |ts[2].args| == 1 &&
            ts == [ts[0], ts[1], ts[2]] && ts[1..] == [ts[1], ts[2]] && ts[1..][1..] == [ts[2]] && ts[1..][1..][1..] == []
  {}

  lemma MaskedSize(e: Env, f: Fields)
    requires e.bits == 64 && f.prefixes.osize == P_NONE && f.rex == NO_REX
    ensures CalcSizeOf(e, f, MASKED_WIDTH) == Some(Calc(f, false, 1))
  {
    MaskedRun(e, f);
    hide CalcRun, MASKED_WIDTH;
  }

  lemma MaskedRun(e: Env, f: Fields)
    requires e.bits == 64 && f.prefixes.osize == P_NONE && f.rex == NO_REX
    ensures CalcRun(e, CalcStart(f), MASKED_WIDTH) == Some(Calc(f.(rex := REX_W), false, 1))
  {
    hide KindOf, MASKED_WIDTH;
    var ts := MASKED_WIDTH;
    MaskedKinds();
    var s0 := CalcStart(f);
    assert s0 == Calc(f, true, 0);
    var s1, s2 := Calc(f, false, 0), Calc(f.(rex := REX_W), false, 0);
    var s3 := s2.(length := 1);
    assert CalcStep(e, s0, ts[0]) == Some(s1);
    assert CalcStep(e, s1, ts[1]) == Some(s2);
    assert CalcStep(e, s2, ts[2]) == Some(s3);
    hide CalcStep;
    CalcThree(e, s0, s1, s2, s3, ts);
  }

  lemma CalcThree(e: Env, s0: Calc, s1: Calc, s2: Calc, s3: Calc, ts: seq<Instr>)
    requires |ts| == 3 && CalcStep(e, s0, ts[0]) == Some(s1) && CalcStep(e, s1, ts[1]) == Some(s2) && CalcStep(e, s2, ts[2]) == Some(s3)
    ensures CalcRun(e, s0, ts) == Some(s3)
  {
    hide CalcStep;
    assert ts[1..][0] == ts[1] && ts[1..][1..][0] == ts[2] && ts[1..][1..][1..] == [];
    assert CalcRun(e, s2, ts[1..][1..]) == CalcRun(e, s3, []);
    assert CalcRun(e, s1, ts[1..]) == CalcRun(e, s2, ts[1..][1..]);
  }

  lemma MaskedStep(e: Env, f: Fields)
    requires e.bits == 64 && f.prefixes.osize == P_NONE && f.rex == NO_REX
    ensures Extra(e, f, NoRexW) == 0 && NextFields(e, f, NoRexW) == f
    ensures Extra(e, f, RexW) == 0 && NextFields(e, f, RexW) == f.(rex := REX_W)
    ensures Extra(e, f.(rex := REX_W), Literal) == 1
  {}

  lemma MaskedLosses(e: Env, p: Prefixes)
    requires e.bits == 64 && p.osize == P_NONE
    ensures GoodCodes(e, MASKED_WIDTH) && Losses(e, p, MASKED_WIDTH) == 0
  {
    var ts := MASKED_WIDTH;
    hide KindOf, MASKED_WIDTH;
    MaskedKinds();
    MaskedGood(e, ts);
    hide GoodCodes, GoodCode;
    MaskedCounts(e, ts);
    LossesCount(e, p, ts);
    hide Losses, Count, WideCount;
  }

  lemma MaskedExtras(e: Env, f: Fields)
    requires e.bits == 64 && f.prefixes.osize == P_NONE && f.rex == NO_REX
    ensures Extras(e, f, MASKED_WIDTH) == 1
  {
    hide *;
    var ts, g := MASKED_WIDTH, f.(rex := REX_W);
    MaskedKinds();
    MaskedStep(e, f);
    ExtrasStep(e, f, ts);
    ExtrasStep(e, f, ts[1..]);
    ExtrasStep(e, g, ts[1..][1..]);
    NoExtras(e, NextFields(e, g, KindOf(ts[2].c)));
  }

  lemma NoExtras(e: Env, f: Fields)
    ensures Extras(e, f, []) == 0
  {}

  lemma MaskedGood(e: Env, ts: seq<Instr>)
    requires |ts| == 3 && ts[0].args == [] && ts[1].args == [] && |ts[2].args| == 1 && ts[2].c == 1
    requires KindOf(ts[0].c) == NoRexW && KindOf(ts[1].c) == RexW && KindOf(ts[2].c) == Literal
    ensures GoodCodes(e, ts)
  {
    hide KindOf;
  }

  lemma MaskedCounts(e: Env, ts: seq<Instr>)
    requires |ts| == 3 && ts[1..] == [ts[1], ts[2]] && e.bits == 64
    requires KindOf(ts[0].c) == NoRexW && KindOf(ts[1].c) == RexW && KindOf(ts[2].c) == Literal
    ensures Count(ts, Op16) == 0 && WideCount(e, ts) == 0 && ts[1..][1..] == [ts[2]] && [ts[2]][1..] == []
  {
    CountStep(ts, Op16);
    CountStep(ts[1..], Op16);
    CountStep([ts[2]], Op16);
    hide KindOf, Count;
    assert Count([], Op16) == 0 by { NoCount(Op16); }
    assert WideCount(e, ts) == WideCount(e, ts[1..]) == WideCount(e, [ts[2]]) == 0;
  }

  lemma NoCount(k: Kind)
    ensures Count([], k) == 0
  {}

  // The REX rules are needed: a template that masks W and forces it is one byte longer
  // than calcsize says, because gencode forces W again and no longer masks it.
  lemma MaskedWidthDisagrees(e: Env, w: Where, f: Fields)
    requires e.bits == 64 && e.addrSize == 64 && f.prefixes.osize == P_NONE && f.rex == NO_REX
    ensures WellFormed(MASKED_WIDTH) && CalcSizeOf(e, f, MASKED_WIDTH) == Some(Calc(f, false, 1))
    ensures var g := GenRun(e, w, Gen(f, [], 0), MASKED_WIDTH); g.Some? && TotalSize(g.value.out) == 2
  {
    MaskedSize(e, f);
    MaskedExtras(e, f);
    MaskedLosses(e, f.prefixes);
    hide *;
    assert TotalSize([]) == 0 by { ChunksOfOne(Space(0)); }
    NoPrefix(f);
    EmittedAccount(e, w, f, MASKED_WIDTH, [], 0);
  }

  lemma NoPrefix(f: Fields)
    ensures f.rex == NO_REX ==> PrefixLength(f) == 0
  {}
}
