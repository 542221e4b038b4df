// sdk/as/assemble.c: assemble and insn_size for one instruction (times == 1) whose
// template is found: the prefixes around calcsize and gencode.
module Assemble {
  import opened Base
  import opened Operands
  import opened ByteCode
  import opened CodeSize
  import opened CodeGen
  import opened CodeLength
  import opened Instruction
  import AddressSize
  import Machine
  import CodeMeaning

  const R_SEGR6 := 110
  const R_SEGR7 := 111

  function Slots(p: Prefixes): seq<int> { [p.wait, p.lrep, p.seg, p.osize, p.asize] }

  // The byte assemble emits for a prefix; none for a refused or an implied one.
  function PrefixByte(bits: int, p: int): Option<int> {
    if p == P_WAIT then Some(0x9b)
    else if p == P_LOCK then Some(0xf0)
    else if p == P_REPNE || p == P_REPNZ then Some(0xf2)
    else if p == P_REPE || p == P_REPZ || p == P_REP then Some(0xf3)
    else if p == R_CS then Some(0x2e)
    else if p == R_DS then Some(0x3e)
    else if p == R_ES then Some(0x26)
    else if p == R_FS then Some(0x64)
    else if p == R_GS then Some(0x65)
    else if p == R_SS then Some(0x36)
    else if p == P_A16 then (if bits != 64 && bits != 16 then Some(0x67) else None)
    else if p == P_A32 then (if bits != 32 then Some(0x67) else None)
    else if p == P_ASP then Some(0x67)
    else if p == P_O16 then (if bits != 16 then Some(0x66) else None)
    else if p == P_O32 then (if bits == 16 then Some(0x66) else None)
    else if p == P_OSP then Some(0x66)
    else None
  }

  // The prefixes that the switch of assemble names.
  predicate IsPrefix(p: int) {
    p == P_NONE || p == P_WAIT || P_A16 <= p <= P_OSP || P_REP <= p <= P_REPZ || p == R_CS || p == R_DS || p == R_ES ||
    p == R_FS || p == R_GS || p == R_SS || p == R_SEGR6 || p == R_SEGR7
  }

  predicate KnownPrefixes(p: Prefixes) {
    forall x <- Slots(p) :: IsPrefix(x)
  }

  // The bytes insn_size counts for a prefix.
  function PrefixCount(bits: int, p: int): nat {
    if p == P_A16 then (if bits != 16 then 1 else 0)
    else if p == P_A32 then (if bits != 32 then 1 else 0)
    else if p == P_O16 then (if bits != 16 then 1 else 0)
    else if p == P_O32 then (if bits == 16 then 1 else 0)
    else if p == P_A64 || p == P_O64 || p == P_NONE then 0
    else 1
  }

  function PrefixChunks(bits: int, ps: seq<int>): seq<Chunk> {
    if ps == [] then []
    else
      var b := PrefixByte(bits, ps[|ps| - 1]);
      PrefixChunks(bits, ps[..|ps| - 1]) + if b.Some? then [Raw([b.value])] else []
  }

  function PrefixCounts(bits: int, ps: seq<int>): nat {
    if ps == [] then 0 else PrefixCounts(bits, ps[..|ps| - 1]) + PrefixCount(bits, ps[|ps| - 1])
  }

  // Prefixes for which assemble reports an error and emits nothing.
  predicate Refused(bits: int, p: int) {
    (p == P_A16 && bits == 64) || p == R_SEGR6 || p == R_SEGR7
  }

  function RefusedCount(bits: int, ps: seq<int>): nat {
    if ps == [] then 0 else RefusedCount(bits, ps[..|ps| - 1]) + if Refused(bits, ps[|ps| - 1]) then 1 else 0
  }

  // insn_size counts one byte for every refused prefix too.
  lemma {:induction false} PrefixesAgree(bits: int, ps: seq<int>)
    requires forall x <- ps :: IsPrefix(x)
    ensures TotalSize(PrefixChunks(bits, ps)) + RefusedCount(bits, ps) == PrefixCounts(bits, ps)
  {
    if ps != [] {
      var p := ps[|ps| - 1];
      assert IsPrefix(p);
      assert (if PrefixByte(bits, p).Some? then 1 else 0) + (if Refused(bits, p) then 1 else 0) == PrefixCount(bits, p);
      hide PrefixByte, Refused, PrefixCount, IsPrefix;
      PrefixesAgree(bits, ps[..|ps| - 1]);
      var b := PrefixByte(bits, p);
      var c := if b.Some? then [Raw([b.value])] else [];
      TotalConcat(PrefixChunks(bits, ps[..|ps| - 1]), c);
      if b.Some? { ChunksOfOne(c[0]); }
    }
  }

  // ----- The two passes -----

  // insn_size.
  function InsnSizeOf(e: Env, f: Fields, ts: seq<Instr>): Option<int> {
    var c := CalcSizeOf(e, f, ts);
    if c.None? then None else Some(c.value.length + PrefixCounts(e.bits, Slots(c.value.f.prefixes)))
  }

  // assemble: where gencode runs, after the prefixes.
  function CodeWhere(e: Env, c: Calc, start: int, segment: int, segbase: int -> int): Where {
    Where(segment, start + TotalSize(PrefixChunks(e.bits, Slots(c.f.prefixes))) + c.length, segbase)
  }

  function AssembleOf(e: Env, f: Fields, ts: seq<Instr>, out: seq<Chunk>, start: int, segment: int, segbase: int -> int): Option<Gen>
    requires WellFormed(ts)
  {
    var c := CalcSizeOf(e, f, ts);
    if c.None? then None
    else
      var pre := PrefixChunks(e.bits, Slots(c.value.f.prefixes));
      GenRun(e, CodeWhere(e, c.value, start, segment, segbase), Gen(c.value.f, out + pre, start + TotalSize(pre)), ts)
  }

  // The bytes assembled are the bytes predicted, but for the ones counted too many, one for
  // every refused prefix, and the REX or VEX prefixes emitted against the one counted.
  lemma AssembledSize(e: Env, f: Fields, ts: seq<Instr>, out: seq<Chunk>, start: int, segment: int, segbase: int -> int)
    requires Sized(e, f, ts)
    requires KnownPrefixes(CalcSizeOf(e, f, ts).value.f.prefixes)
    ensures WellFormed(ts) && AssembleOf(e, f, ts, out, start, segment, segbase).Some?
    ensures TotalSize(AssembleOf(e, f, ts, out, start, segment, segbase).value.out) ==
            TotalSize(out) + InsnSizeOf(e, f, ts).value - Overcount(e, f.prefixes, ts)
            + PrefixBytes(e, CalcSizeOf(e, f, ts).value.f, ts) - PrefixLength(CalcSizeOf(e, f, ts).value.f)
            - RefusedCount(e.bits, Slots(CalcSizeOf(e, f, ts).value.f.prefixes))
  {
    hide CalcSizeOf, GenRun, GoodCodes, Overcount, PrefixBytes, PrefixLength, TotalSize, PrefixChunks, PrefixCounts, RefusedCount;
    var c := CalcSizeOf(e, f, ts).value;
    var ps := Slots(c.f.prefixes);
    var pre := PrefixChunks(e.bits, ps);
    PrefixesAgree(e.bits, ps);
    TotalConcat(out, pre);
    EmittedLength(e, CodeWhere(e, c, start, segment, segbase), f, ts, out + pre, start + TotalSize(pre));
  }

  // ----- What the bytes tell the processor -----

  // The prefix that a name in the source text asks for; None where it asks for none.
  function Asked(p: int): Option<Machine.LegacyPrefix> {
    if p == P_WAIT then Some(Machine.WaitPrefix)
    else if p == P_LOCK then Some(Machine.Lock)
    else if p == P_REP || p == P_REPE || p == P_REPZ then Some(Machine.Repeat)
    else if p == P_REPNE || p == P_REPNZ then Some(Machine.RepeatNe)
    else if P_A16 <= p <= P_ASP && p != P_A64 then Some(Machine.AddressSizePrefix)
    else if p == P_O16 || p == P_O32 || p == P_OSP then Some(Machine.OperandSizePrefix)
    else
      match p
      case 57 => Some(Machine.SegmentOverride(0))
      case 27 => Some(Machine.SegmentOverride(1))
      case 116 => Some(Machine.SegmentOverride(2))
      case 49 => Some(Machine.SegmentOverride(3))
      case 60 => Some(Machine.SegmentOverride(4))
      case 61 => Some(Machine.SegmentOverride(5))
      case _ => None
  }

  // Every prefix byte is the prefix asked for, and a prefix that names a size is left out
  // exactly where the mode has that size without it. The others are never left out.
  lemma PrefixDecodes(bits: int, p: int)
    requires bits == 16 || bits == 32 || bits == 64
    ensures PrefixByte(bits, p).Some? ==> Asked(p).Some? && Machine.DecodePrefix(PrefixByte(bits, p).value) == Asked(p)
    ensures p == P_A16 && bits != 64 ==> Machine.AddressSize(bits, PrefixByte(bits, p).Some?) == 16
    ensures p == P_A32 ==> Machine.AddressSize(bits, PrefixByte(bits, p).Some?) == 32
    ensures p == P_O16 ==> Machine.OperandSize(bits, PrefixByte(bits, p).Some?) == 16
    ensures p == P_O32 ==> Machine.OperandSize(bits, PrefixByte(bits, p).Some?) == 32
    ensures Asked(p).Some? && PrefixByte(bits, p).None? ==> p in {P_A16, P_A32, P_O16, P_O32}
  {}

  // \336, \337 and \341 ask for REPE, REPNE and WAIT where the source text has nothing in
  // that place.
  lemma ForcedPrefixes(e: Env, f: Fields, t: Instr)
    ensures var p, q := f.prefixes, StepFields(e, f, t).prefixes;
            var free := p.lrep == P_NONE;
            (t.c == 0xde ==> if free then Asked(q.lrep) == Some(Machine.Repeat) else q == p) &&
            (t.c == 0xdf ==> if free then Asked(q.lrep) == Some(Machine.RepeatNe) else q == p) &&
            (t.c == 0xe1 ==> if p.wait == P_NONE then Asked(q.wait) == Some(Machine.WaitPrefix) else q == p) &&
            (t.c != 0xde && t.c != 0xdf && t.c != 0xe1 ==> q == p) && q.osize == p.osize && q.asize == p.asize && q.seg == p.seg
  {
    ForcingCodes(t.c);
    hide KindOf, StepRex, Or;
  }

  lemma ForcingCodes(c: int)
    ensures (KindOf(c).Rep? <==> c == 0xde) && (KindOf(c).RepNe? <==> c == 0xdf) && (KindOf(c).Wait? <==> c == 0xe1)
  {}

  // The prefix that add_asp leaves makes the address size the one it chose.
  lemma SizePrefixIs(bits: int, asize: int, oprs: seq<Operand>)
    requires bits == 16 || bits == 32 || bits == 64
    ensures var c := AddressSize.Chosen(bits, AddressSize.CommonSizes(bits, asize, oprs));
            c.Some? ==>
              var p := if c.value != bits then (if bits == 32 then P_A16 else P_A32) else asize;
              Machine.AddressSize(bits, Asked(p) == Some(Machine.AddressSizePrefix) && PrefixByte(bits, p).Some?) == c.value
  {
    var c := AddressSize.Chosen(bits, AddressSize.CommonSizes(bits, asize, oprs));
    if c.Some? {
      AddressSize.CommonAre(bits, asize, oprs, c.value);
      hide AddressSize.CommonSizes, AddressSize.Usable;
    }
  }

  // The bytes that the prefix slots put in front of the instruction.
  function PrefixBytesOf(bits: int, ps: seq<int>): seq<int> {
    if ps == [] then []
    else
      var b := PrefixByte(bits, ps[|ps| - 1]);
      PrefixBytesOf(bits, ps[..|ps| - 1]) + if b.Some? then [b.value] else []
  }

  // They come as WAIT, LOCK or REP, segment, operand size and address size.
  lemma PrefixOrder(bits: int, p: Prefixes)
    ensures PrefixBytesOf(bits, Slots(p)) ==
            SlotBytes(bits, p.wait) + SlotBytes(bits, p.lrep) + SlotBytes(bits, p.seg) + SlotBytes(bits, p.osize) +
            SlotBytes(bits, p.asize)
  {
    hide PrefixByte;
    var s := [p.wait, p.lrep, p.seg, p.osize, p.asize];
    assert Slots(p) == s;
    LastSlot(bits, s, 5);
    LastSlot(bits, s, 4);
    LastSlot(bits, s, 3);
    LastSlot(bits, s, 2);
    LastSlot(bits, s, 1);
    assert s[..5] == s && s[..0] == [];
    hide Slots;
  }

  function SlotBytes(bits: int, p: int): seq<int> {
    if PrefixByte(bits, p).Some? then [PrefixByte(bits, p).value] else []
  }

  lemma LastSlot(bits: int, s: seq<int>, n: nat)
    requires 0 < n <= |s|
    ensures PrefixBytesOf(bits, s[..n]) == PrefixBytesOf(bits, s[..n - 1]) + SlotBytes(bits, s[n - 1])
    ensures PrefixBytesOf(bits, []) == []
  {
    hide PrefixByte;
    assert s[..n][..n - 1] == s[..n - 1];
  }

  lemma {:induction false} PrefixesLoaded(l: CodeMeaning.Layout, at: int, bits: int, ps: seq<int>, bytes: seq<int>)
    requires CodeMeaning.InMemory(l, at, PrefixChunks(bits, ps), bytes)
    ensures bytes == PrefixBytesOf(bits, ps)
  {
    if ps == [] {
    } else {
      var rest, b := ps[..|ps| - 1], PrefixByte(bits, ps[|ps| - 1]);
      hide PrefixByte, CodeMeaning.InMemory, TotalSize;
      var c := if b.Some? then [Raw([b.value])] else [];
      CodeMeaning.MemoryParts(l, at, PrefixChunks(bits, rest), c, bytes);
      var n := TotalSize(PrefixChunks(bits, rest));
      PrefixesLoaded(l, at, bits, rest, bytes[..n]);
      CodeMeaning.MemorySize(l, at + n, c, bytes[n..]);
      if b.Some? {
        CodeMeaning.OneInMemory(l, at + n, c[0], bytes[n..]);
        CodeMeaning.RawLoaded(l, at + n, b.value, bytes[n..]);
      } else {
        ChunksOfOne(Space(0));
        assert bytes[n..] == [];
      }
      assert bytes == bytes[..n] + bytes[n..];
    }
  }

  // Where gencode starts: behind the prefixes.
  function CodeStart(e: Env, c: Calc, out: seq<Chunk>, start: int): Gen {
    var pre := PrefixChunks(e.bits, Slots(c.f.prefixes));
    Gen(c.f, out + pre, start + TotalSize(pre))
  }

  // The chunks of a whole instruction.
  ghost function AssembledChunks(e: Env, c: Calc, w: Where, g: Gen, ts: seq<Instr>): seq<Chunk>
    requires WellFormed(ts) && GenRun(e, w, g, ts).Some?
  {
    PrefixChunks(e.bits, Slots(c.f.prefixes)) + CodeMeaning.RunChunks(e, w, g, ts)
  }

  // An instruction in memory: the bytes of its prefixes, then what its codes say.
  lemma AssembledSays(e: Env, f: Fields, ts: seq<Instr>, out: seq<Chunk>, start: int, segment: int, segbase: int -> int,
                      l: CodeMeaning.Layout, bytes: seq<int>, c: Calc, w: Where, g: Gen)
    requires WellFormed(ts) && ValidEnv(e) && CodeMeaning.KeepsNumbers(l) && CodeMeaning.ReservesForward(e, ts)
    requires CalcSizeOf(e, f, ts) == Some(c) && w == CodeWhere(e, c, start, segment, segbase) && g == CodeStart(e, c, out, start)
    requires AssembleOf(e, f, ts, out, start, segment, segbase).Some? && GenRun(e, w, g, ts).Some?
    requires CodeMeaning.InMemory(l, start, AssembledChunks(e, c, w, g, ts), bytes)
    ensures AssembleOf(e, f, ts, out, start, segment, segbase).value.out == out + AssembledChunks(e, c, w, g, ts)
    ensures var n := g.offset - start;
            0 <= n <= |bytes| && bytes[..n] == PrefixBytesOf(e.bits, Slots(c.f.prefixes)) && CodeMeaning.RunSays(e, w, l, g, ts, bytes[n..])
  {
    hide *;
    var pre := PrefixChunks(e.bits, Slots(c.f.prefixes));
    var run := CodeMeaning.RunChunks(e, w, g, ts);
    AssembledShape(e, f, ts, out, start, segment, segbase, c, w, g);
    CodeMeaning.MemoryParts(l, start, pre, run, bytes);
    PrefixesLoaded(l, start, e.bits, Slots(c.f.prefixes), bytes[..TotalSize(pre)]);
    CodeMeaning.GeneratedSays(e, w, l, g, ts, bytes[TotalSize(pre)..]);
    assert out + pre + run == out + (pre + run);
  }

  lemma AssembledShape(e: Env, f: Fields, ts: seq<Instr>, out: seq<Chunk>, start: int, segment: int, segbase: int -> int,
                       c: Calc, w: Where, g: Gen)
    requires WellFormed(ts)
    requires CalcSizeOf(e, f, ts) == Some(c) && w == CodeWhere(e, c, start, segment, segbase) && g == CodeStart(e, c, out, start)
    requires GenRun(e, w, g, ts).Some?
    ensures AssembleOf(e, f, ts, out, start, segment, segbase) == GenRun(e, w, g, ts)
    ensures var pre := PrefixChunks(e.bits, Slots(c.f.prefixes));
            g.out == out + pre && g.offset == start + TotalSize(pre) &&
            AssembledChunks(e, c, w, g, ts) == pre + CodeMeaning.RunChunks(e, w, g, ts)
  {
    hide CalcSizeOf, GenRun, WellFormed, PrefixChunks, TotalSize, CodeMeaning.RunChunks;
  }

  // The end from which jumps are counted is the end of the bytes exactly when the two passes
  // agree on the length.
  lemma EndIsCounted(e: Env, f: Fields, ts: seq<Instr>, out: seq<Chunk>, start: int, segment: int, segbase: int -> int,
                     l: CodeMeaning.Layout, bytes: seq<int>, c: Calc, w: Where, g: Gen)
    requires Sized(e, f, ts) && WellFormed(ts)
    requires CalcSizeOf(e, f, ts) == Some(c) && w == CodeWhere(e, c, start, segment, segbase) && g == CodeStart(e, c, out, start)
    requires GenRun(e, w, g, ts).Some? && CodeMeaning.InMemory(l, start, AssembledChunks(e, c, w, g, ts), bytes)
    ensures w.end == start + |bytes| <==> PrefixBytes(e, c.f, ts) == PrefixLength(c.f) + Overcount(e, f.prefixes, ts)
  {
    var pre := PrefixChunks(e.bits, Slots(c.f.prefixes));
    var run := CodeMeaning.RunChunks(e, w, g, ts);
    assert w.end == start + TotalSize(pre) + c.length && g.f == c.f && AssembledChunks(e, c, w, g, ts) == pre + run;
    hide *;
    CodeMeaning.MemorySize(l, start, pre + run, bytes);
    CodeMeaning.RunOutput(e, w, g, ts);
    LengthsAgree(e, w, f, ts, g.out, g.offset);
    TotalConcat(pre, run);
    TotalConcat(g.out, run);
    assert g == Gen(c.f, g.out, g.offset);
  }

  // ----- The code -----

  // insn_size.
  method InsnSize(ins: Insn, e: Env, codes: seq<int>) returns (size: Option<int>)
    requires ins.Reads(e) && Terminated(codes, 0)
    modifies ins
    ensures size == InsnSizeOf(e, old(ins.State()), Parse(codes, 0, 0))
  {
    hide CalcSizeOf, PrefixCount;
    var isize := ins.CalcSize(e, codes);
    if isize.None? { return None; }
    var slots := Slots(ins.prefixes);
    var n := isize.value;
    for j := 0 to |slots|
      invariant n == isize.value + PrefixCounts(e.bits, slots[..j])
    {
      assert slots[..j + 1][..j] == slots[..j];
      n := n + PrefixCount(e.bits, slots[j]);
    }
    assert slots[..|slots|] == slots;
    size := Some(n);
  }

  lemma NextPrefix(bits: int, slots: seq<int>, j: nat)
    requires j < |slots|
    ensures var b, a := PrefixByte(bits, slots[j]), PrefixChunks(bits, slots[..j]);
            PrefixChunks(bits, slots[..j + 1]) == (if b.Some? then a + [Raw([b.value])] else a) &&
            TotalSize(PrefixChunks(bits, slots[..j + 1])) == TotalSize(a) + if b.Some? then 1 else 0
  {
    hide PrefixByte;
    assert slots[..j + 1][..j] == slots[..j];
    var b := PrefixByte(bits, slots[j]);
    if b.Some? {
      TotalConcat(PrefixChunks(bits, slots[..j]), [Raw([b.value])]);
      ChunksOfOne(Raw([b.value]));
    } else {
      assert PrefixChunks(bits, slots[..j]) + [] == PrefixChunks(bits, slots[..j]);
    }
  }

  method PutPrefixes(bits: int, slots: seq<int>, start: int, output: Output) returns (offset: int)
    modifies output
    ensures output.chunks == old(output.chunks) + PrefixChunks(bits, slots)
    ensures offset == start + TotalSize(PrefixChunks(bits, slots))
  {
    hide PrefixByte, TotalSize;
    offset := start;
    ChunksOfOne(Space(0));
    for j := 0 to |slots|
      invariant output.chunks == old(output.chunks) + PrefixChunks(bits, slots[..j])
      invariant offset == start + TotalSize(PrefixChunks(bits, slots[..j]))
    {
      NextPrefix(bits, slots, j);
      var c := PrefixByte(bits, slots[j]);
      if c.Some? {
        output.Out(Raw([c.value]));
        offset := offset + 1;
      }
    }
    assert slots[..|slots|] == slots;
  }

  // assemble. On failure the output is left as the failing code found it.
  method Assemble(ins: Insn, e: Env, codes: seq<int>, start: int, segment: int, segbase: int -> int, output: Output)
    returns (size: Option<int>)
    requires ins.Reads(e) && Terminated(codes, 0)
    modifies ins, output
    ensures WellFormed(Parse(codes, 0, 0))
    ensures size.Some? <==>
      AssembleOf(e, old(ins.State()), Parse(codes, 0, 0), old(output.chunks), start, segment, segbase).Some?
    ensures size.Some? ==>
      AssembleOf(e, old(ins.State()), Parse(codes, 0, 0), old(output.chunks), start, segment, segbase).value
        == Gen(ins.State(), output.chunks, start + size.value)
  {
    hide CalcSizeOf, GenRun, TotalSize, PrefixChunks;
    ParseWellFormed(codes, 0, 0);
    var insnSize := ins.CalcSize(e, codes);
    if insnSize.None? { return None; }
    var offset := PutPrefixes(e.bits, Slots(ins.prefixes), start, output);
    var ok, end := ins.GenCode(e, Where(segment, offset + insnSize.value, segbase), codes, offset, output);
    if !ok { return None; }
    size := Some(end - start);
  }
}
