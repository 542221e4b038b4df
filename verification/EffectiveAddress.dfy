// sdk/as/assemble.c: process_ea, which encodes an operand as ModRM, SIB and displacement,
// and the processor's decoding of those bytes (Intel SDM volume 2A, section 2.1.5 and,
// for REX, section 2.2.1).
module EffectiveAddress {
  import opened Base
  import opened Operands
  import opened Powers

  // The source's struct ea.
  datatype Ea = Ea(modrm: nat, sib: nat, sibPresent: bool, bytes: nat, rex: Rex, rip: bool) {
    function Size(): nat { 1 + (if sibPresent then 1 else 0) + bytes }
  }

  // ----- What an operand addresses -----

  // The value of register number r, zero where there is none.
  function RegAt(file: int -> int, r: int): int {
    if r < 0 then 0 else file(r)
  }

  function Sum(file: int -> int, base: int, index: int, scale: int): int {
    RegAt(file, base) + (if index < 0 then 0 else scale * file(index))
  }

  function NumberOf(r: Option<Reg>): int {
    if r.Some? then r.value.val else -1
  }

  function FlagsOf(r: Option<Reg>): bv32 {
    if r.Some? then r.value.flags else 0
  }

  // An index register scaled by zero is no index register.
  function IndexOf(o: Operand): Option<Reg> {
    if o.scale == 0 then None else o.indexreg
  }

  // base + scale * index of the operand, before its offset.
  function OperandSum(o: Operand, file: int -> int): int {
    Sum(file, NumberOf(o.basereg), NumberOf(IndexOf(o)), o.scale)
  }

  predicate IsPureOffset(o: Operand) {
    o.basereg.None? && IndexOf(o).None?
  }

  // ----- What the processor decodes -----

  datatype Decoded =
    | Register(number: nat)
    | Memory(base: int, index: int, scale: nat, dispBytes: nat, ipRelative: bool)

  function Shift8(high: bool): nat { if high then 8 else 0 }

  function Decode16(mod: nat, rm: nat): (d: Decoded)
    requires mod < 3 && rm < 8
    ensures d.Memory?
  {
    if mod == 0 && rm == 6 then Memory(-1, -1, 1, 2, false)
    else
      var base := if rm == 0 || rm == 1 || rm == 7 then 3 else if rm == 2 || rm == 3 || rm == 6 then 5 else if rm == 4 then 6 else 7;
      var index := if rm == 0 || rm == 2 then 6 else if rm == 1 || rm == 3 then 7 else -1;
      Memory(base, index, 1, mod, false)
  }

  function Decode32(bits: int, mod: nat, rm: nat, sib: nat, rexX: bool, rexB: bool): Decoded
    requires mod < 3 && rm < 8 && sib < 256
  {
    if rm == 4 then
      var i, b := sib / 8 % 8 + Shift8(rexX), sib % 8;
      var index := if i == 4 then -1 else i;
      var scale := [1, 2, 4, 8][sib / 64];
      if b == 5 && mod == 0 then Memory(-1, index, scale, 4, false)
      else Memory(b + Shift8(rexB), index, scale, if mod == 2 then 4 else mod, false)
    else if rm == 5 && mod == 0 then Memory(-1, -1, 1, 4, bits == 64)
    else Memory(rm + Shift8(rexB), -1, 1, if mod == 2 then 4 else mod, false)
  }

  function Decode(bits: int, addrbits: int, modrm: nat, sib: nat, rexX: bool, rexB: bool): Decoded
    requires modrm < 256 && sib < 256
  {
    var mod, rm := modrm / 64, modrm % 8;
    if mod == 3 then Register(rm + Shift8(rexB))
    else if addrbits == 16 then Decode16(mod, rm)
    else Decode32(bits, mod, rm, sib, rexX, rexB)
  }

  // ----- process_ea -----

  function ModRm(mod: nat, rfield: int, rm: nat): nat
  {
    64 * mod + 8 * (rfield % 8) + rm
  }

  // (scale << 6) | (index << 3) | base
  function Sib(scale: nat, index: nat, base: nat): nat {
    64 * scale + 8 * index + base
  }

  function RexOfField(rfield: int, rflags: bv32): Rex {
    RexFlags(rfield, rflags, NO_REX.(r := true, p := true, w := true, h := true))
  }

  function RegisterEa(o: Operand, rfield: int, rflags: bv32): Option<Ea> {
    if o.basereg.None? || !IsClass(REG_EA, o.basereg.value.flags) then None
    else
      var reg := o.basereg.value;
      Some(Ea(ModRm(3, rfield, reg.val % 8), 0, false, 0,
              Or(RexOfField(rfield, rflags), RexFlags(reg.val, reg.flags, NO_REX.(b := true, p := true, w := true, h := true))),
              false))
  }

  function Absolute(flags: bv32): bv32 {
    (flags & !IP_REL) | MEMORY
  }

  // The operand type process_ea leaves behind: an absolute address cannot be relative.
  function AdjustedFlags(o: Operand, bits: int): bv32 {
    if !IsClass(REGISTER, o.flags) && IsPureOffset(o) && bits == 64 && IsClass(IP_REL, o.flags) && o.segment == NO_SEG
    then Absolute(o.flags)
    else o.flags
  }

  function OffsetEa(o: Operand, bits: int, addrbits: int, rfield: int, rflags: bv32): Ea {
    var rex := RexOfField(rfield, rflags);
    if bits == 64 && !IsClass(IP_REL, AdjustedFlags(o, bits)) then
      Ea(ModRm(0, rfield, 4), Sib(0, 4, 5), true, 4, rex, false)
    else
      Ea(ModRm(0, rfield, if addrbits != 16 then 5 else 6), 0, false, if addrbits != 16 then 4 else 2, rex, bits == 64)
  }

  lemma AbsoluteBits(f: bv32)
    requires IsClass(IP_REL, f)
    ensures !IsClass(IP_REL, Absolute(f)) && (IsClass(REGISTER, Absolute(f)) <==> IsClass(REGISTER, f))
    ensures Absolute(f) & SIZE_MASK == f & SIZE_MASK && Absolute(f) & STRICT == f & STRICT
  {}

  // Storing the adjusted type back in the operand, as process_ea does, changes neither a
  // later encoding of the operand nor what the passes test of its type.
  lemma AdjustedIsHarmless(o: Operand, bits: int, addrbits: int, rfield: int, rflags: bv32)
    ensures var a := o.(flags := AdjustedFlags(o, bits));
            EaOf(a, bits, addrbits, rfield, rflags) == EaOf(o, bits, addrbits, rfield, rflags) &&
            a.flags & SIZE_MASK == o.flags & SIZE_MASK && a.flags & STRICT == o.flags & STRICT
  {
    if IsClass(IP_REL, o.flags) {
      AbsoluteBits(o.flags);
    }
    hide Absolute, IsClass, Has, FullIndirectEa, ModRm, Sib, RexFlags, Or, Wrap;
    if AdjustedFlags(o, bits) == o.flags {
    } else {
      assert IsPureOffset(o);
      hide ModFor, RexOfField, IndirectEa, RegisterEa;
    }
  }

  // Base and index as the source holds them: number -1 and no flags for none.
  datatype Pair = Pair(bt: int, bx: bv32, it: int, ix: bv32, s: int)

  // All registers are general, of one size, and that size is the address size.
  function SizesOk(p: Pair, dispSize: int, addrbits: int): bool {
    var sok0 := BITS32 | BITS64;
    (p.it != -1 ==> IsClass(REG64, p.ix) || IsClass(REG32, p.ix)) &&
    var sok1 := if p.it != -1 then sok0 & p.ix else sok0;
    (p.bt != -1 ==> IsClass(REG_GPR, p.bx) && !Has(!sok1 & p.bx, SIZE_MASK)) &&
    var sok := if p.bt != -1 then sok1 & p.bx else sok1;
    dispSize != 16 && dispSize != 64 &&
    addrbits != 16 && !(addrbits == 32 && !Has(sok, BITS32)) && !(addrbits == 64 && !Has(sok, BITS64))
  }

  // "now reorganize base/index", one step after the other.
  function SwapByHint(p: Pair, o: Operand): Pair {
    var hb, ht := o.hintbase, o.hinttype;
    var b, i := IdOf(o.basereg), IdOf(IndexOf(o));
    if p.s == 1 && p.bt != p.it && p.bt != -1 && p.it != -1 && ((hb == b && ht.NotBase?) || (hb == i && ht.MakeBase?))
    then Pair(p.it, p.ix, p.bt, p.bx, p.s) else p
  }

  function IdOf(r: Option<Reg>): int {
    if r.Some? then r.value.id else -1
  }

  function MergeSame(p: Pair): Pair {
    if p.bt == p.it then Pair(-1, 0, p.it, p.ix, p.s + 1) else p
  }

  // The source compares the hint, an enumeration value, with the index register's number.
  function SingleBase(p: Pair, o: Operand): Pair {
    if p.bt == -1 && p.s == 1 && !(o.hintbase == p.it && o.hinttype.NotBase?) then Pair(p.it, p.ix, -1, 0, p.s) else p
  }

  function SplitScale(p: Pair, o: Operand): Pair {
    if ((p.s == 2 && p.it != REG_NUM_ESP && !o.timestwo) || p.s == 3 || p.s == 5 || p.s == 9) && p.bt == -1
    then Pair(p.it, p.ix, p.it, p.ix, p.s - 1) else p
  }

  function NoSplit(p: Pair, o: Operand): Pair {
    if p.it == -1 && p.bt % 8 != REG_NUM_ESP && o.timestwo then Pair(-1, 0, p.bt, p.bx, 1) else p
  }

  function EspIsBase(p: Pair): Pair {
    if p.s == 1 && p.it == REG_NUM_ESP then Pair(p.it, p.ix, p.bt, p.bx, p.s) else p
  }

  function Reorganised(p: Pair, o: Operand): Pair {
    EspIsBase(NoSplit(SplitScale(SingleBase(MergeSame(SwapByHint(p, o)), o), o), o))
  }

  predicate BadPair(p: Pair) {
    p.it == REG_NUM_ESP || (p.s != 1 && p.s != 2 && p.s != 4 && p.s != 8 && p.it != -1)
  }

  // The choice of mod for a base register whose number modulo 8 is rm: no displacement, a
  // byte, or the full size. o is the offset as an int32 (or int16 for 16-bit addresses).
  function ModFor(o: Operand, off: int, noZero: bool): nat {
    if !noZero && off == 0 && o.segment == NO_SEG && !o.unknown && !o.byteoffs && !o.wordoffs then 0
    else if o.byteoffs || (-128 <= off <= 127 && o.segment == NO_SEG && !o.unknown && !o.wordoffs) then 1
    else 2
  }

  const TWO_16 := 0x1_0000
  const TWO_32 := 0x1_0000_0000

  function FullIndirectEa(o: Operand, p: Pair, rfield: int, rflags: bv32): Ea
    requires !BadPair(p)
  {
    var rex := Or(Or(RexOfField(rfield, rflags), RexFlags(p.it, p.ix, REX_X)), RexFlags(p.bt, p.bx, REX_B));
    var off := Wrap(o.offset, TWO_32);
    if p.it == -1 && p.bt % 8 != REG_NUM_ESP then
      var mod := if p.bt == -1 then 0 else ModFor(o, off, p.bt % 8 == REG_NUM_EBP);
      var rm := if p.bt == -1 then 5 else p.bt % 8;
      Ea(ModRm(mod, rfield, rm), 0, false, if p.bt == -1 || mod == 2 then 4 else mod, rex, false)
    else
      var index := if p.it == -1 then 4 else p.it % 8;
      var s := if p.it == -1 then 1 else p.s;
      var scale := if s == 1 then 0 else if s == 2 then 1 else if s == 4 then 2 else 3;
      var mod := if p.bt == -1 then 0 else ModFor(o, off, p.bt % 8 == REG_NUM_EBP);
      var base := if p.bt == -1 then 5 else p.bt % 8;
      Ea(ModRm(mod, rfield, 4), Sib(scale, index, base), true, if p.bt == -1 || mod == 2 then 4 else mod, rex, false)
  }

  predicate Is16(id: int) {
    id == -1 || id == R_BP || id == R_BX || id == R_SI || id == R_DI
  }

  // rm for the 16-bit base b and index i, -1 where there is no such form.
  function Rm16(b: int, i: int): int {
    if i != -1 then
      if i == R_SI && b == R_BX then 0
      else if i == R_DI && b == R_BX then 1
      else if i == R_SI && b == R_BP then 2
      else if i == R_DI && b == R_BP then 3
      else -1
    else if b == R_SI then 4 else if b == R_DI then 5 else if b == R_BP then 6 else if b == R_BX then 7 else -1
  }

  // Base and index after the two swaps of the 16-bit case.
  function Swapped16(b: int, i: int): (int, int) {
    var (b1, i1) := if b == -1 && i != -1 then (i, b) else (b, i);
    if (b1 == R_SI || b1 == R_DI) && i1 != -1 then (i1, b1) else (b1, i1)
  }

  function ShortIndirectEa(o: Operand, addrbits: int, rfield: int, rflags: bv32): Option<Ea> {
    var b0, i0 := IdOf(o.basereg), IdOf(IndexOf(o));
    if addrbits == 64 || !Is16(b0) || !Is16(i0) || o.dispSize == 32 || o.dispSize == 64 || (o.scale != 1 && i0 != -1) then None
    else
      var (b, i) := Swapped16(b0, i0);
      if b == i || (i != -1 && b != -1 && (i == R_BP || i == R_BX || b == R_SI || b == R_DI)) || b == -1 then None
      else
        var rm := Rm16(b, i);
        if rm == -1 then None
        else
          var mod := ModFor(o, Wrap(o.offset, TWO_16), rm == 6);
          Some(Ea(ModRm(mod, rfield, rm), 0, false, mod, RexOfField(rfield, rflags), false))
  }

  function StartPair(o: Operand): Pair {
    Pair(NumberOf(o.basereg), FlagsOf(o.basereg), NumberOf(IndexOf(o)), FlagsOf(IndexOf(o)), o.scale)
  }

  function IndirectEa(o: Operand, addrbits: int, rfield: int, rflags: bv32): Option<Ea> {
    var p := StartPair(o);
    if Has(p.ix | p.bx, BITS32 | BITS64) then
      if !SizesOk(p, o.dispSize, addrbits) then None
      else
        var q := Reorganised(p, o);
        if BadPair(q) then None else Some(FullIndirectEa(o, q, rfield, rflags))
    else ShortIndirectEa(o, addrbits, rfield, rflags)
  }

  function EaOf(o: Operand, bits: int, addrbits: int, rfield: int, rflags: bv32): Option<Ea> {
    if IsClass(REGISTER, o.flags) then RegisterEa(o, rfield, rflags)
    else if IsPureOffset(o) then Some(OffsetEa(o, bits, addrbits, rfield, rflags))
    else IndirectEa(o, addrbits, rfield, rflags)
  }

  // The code itself, as it reassigns its registers and scale. EaOf says what it returns.
  method ProcessEa(input: Operand, bits: int, addrbits: int, rfield: int, rflags: bv32)
    returns (output: Option<Ea>, flags: bv32)
    ensures output == EaOf(input, bits, addrbits, rfield, rflags)
    ensures flags == AdjustedFlags(input, bits)
  {
    EaCases(input, bits, addrbits, rfield, rflags);
    hide *;
    flags := input.flags;
    if IsClass(REGISTER, input.flags) {
      output := RegisterEa(input, rfield, rflags);
    } else if IsPureOffset(input) {
      if bits == 64 && IsClass(IP_REL, flags) && input.segment == NO_SEG {
        flags := Absolute(flags);
      }
      output := Some(OffsetEa(input, bits, addrbits, rfield, rflags));
    } else {
      var p := StartPair(input);
      if Has(p.ix | p.bx, BITS32 | BITS64) {
        if !SizesOk(p, input.dispSize, addrbits) {
          return None, flags;
        }
        var q := Reorganise(input, p);
        if BadPair(q) {
          return None, flags;
        }
        output := Some(FullIndirectEa(input, q, rfield, rflags));
      } else {
        output := ShortIndirectEa(input, addrbits, rfield, rflags);
      }
    }
  }

  lemma EaCases(o: Operand, bits: int, addrbits: int, rfield: int, rflags: bv32)
    ensures IsClass(REGISTER, o.flags) ==> EaOf(o, bits, addrbits, rfield, rflags) == RegisterEa(o, rfield, rflags)
    ensures !IsClass(REGISTER, o.flags) && IsPureOffset(o) ==>
      EaOf(o, bits, addrbits, rfield, rflags) == Some(OffsetEa(o, bits, addrbits, rfield, rflags))
    ensures AdjustedFlags(o, bits) ==
      if !IsClass(REGISTER, o.flags) && IsPureOffset(o) && bits == 64 && IsClass(IP_REL, o.flags) && o.segment == NO_SEG
      then Absolute(o.flags) else o.flags
    ensures !IsClass(REGISTER, o.flags) && !IsPureOffset(o) ==>
      var p := StartPair(o);
      EaOf(o, bits, addrbits, rfield, rflags) ==
        if !Has(p.ix | p.bx, BITS32 | BITS64) then ShortIndirectEa(o, addrbits, rfield, rflags)
        else if !SizesOk(p, o.dispSize, addrbits) || BadPair(Reorganised(p, o)) then None
        else Some(FullIndirectEa(o, Reorganised(p, o), rfield, rflags))
  {}

  // The reorganisation of base and index, assignment by assignment.
  method Reorganise(input: Operand, p: Pair) returns (q: Pair)
    ensures q == Reorganised(p, input)
  {
    var bt, bx, it, ix, s := p.bt, p.bx, p.it, p.ix, p.s;
    var hb, ht, b, i := input.hintbase, input.hinttype, IdOf(input.basereg), IdOf(IndexOf(input));
    if s == 1 && bt != it && bt != -1 && it != -1 && ((hb == b && ht.NotBase?) || (hb == i && ht.MakeBase?)) {
      bt, it := it, bt;
      bx, ix := ix, bx;
    }
    assert Pair(bt, bx, it, ix, s) == SwapByHint(p, input);
    if bt == it {
      bt, bx, s := -1, 0, s + 1;
    }
    assert Pair(bt, bx, it, ix, s) == MergeSame(SwapByHint(p, input));
    ghost var p2 := Pair(bt, bx, it, ix, s);
    if bt == -1 && s == 1 && !(hb == it && ht.NotBase?) {
      bt, bx, it, ix := it, ix, -1, 0;
    }
    assert Pair(bt, bx, it, ix, s) == SingleBase(p2, input);
    ghost var p3 := Pair(bt, bx, it, ix, s);
    if ((s == 2 && it != REG_NUM_ESP && !input.timestwo) || s == 3 || s == 5 || s == 9) && bt == -1 {
      bt, bx, s := it, ix, s - 1;
    }
    assert Pair(bt, bx, it, ix, s) == SplitScale(p3, input);
    ghost var p4 := Pair(bt, bx, it, ix, s);
    if it == -1 && bt % 8 != REG_NUM_ESP && input.timestwo {
      it, ix, bt, bx, s := bt, bx, -1, 0, 1;
    }
    assert Pair(bt, bx, it, ix, s) == NoSplit(p4, input);
    if s == 1 && it == REG_NUM_ESP {
      it, bt := bt, it;
      ix, bx := bx, ix;
    }
    q := Pair(bt, bx, it, ix, s);
  }

  // ----- The encoding means what the operand means -----

  ghost predicate Numbers(p: Pair) {
    -1 <= p.bt < 16 && -1 <= p.it < 16 && (p.bt >= 0 || p.it >= 0)
  }

  function PairSum(file: int -> int, p: Pair): int {
    Sum(file, p.bt, p.it, p.s)
  }

  // q has the sum of p, whatever is in the registers.
  ghost predicate SameSum(file: int -> int, p: Pair, q: Pair) {
    Numbers(q) && PairSum(file, q) == PairSum(file, p)
  }

  lemma Spread(s: int, v: int)
    ensures (s + 1) * v == v + s * v && (s - 1) * v == s * v - v && 1 * v == v
  {}

  lemma SwapSum(file: int -> int, p: Pair, o: Operand)
    requires Numbers(p)
    ensures SameSum(file, p, SwapByHint(p, o))
  {}

  lemma MergeSum(file: int -> int, p: Pair)
    requires Numbers(p)
    ensures SameSum(file, p, MergeSame(p))
  {}

  lemma SingleSum(file: int -> int, p: Pair, o: Operand)
    requires Numbers(p)
    ensures SameSum(file, p, SingleBase(p, o))
  {}

  lemma SplitSum(file: int -> int, p: Pair, o: Operand)
    requires Numbers(p)
    ensures SameSum(file, p, SplitScale(p, o))
  {}

  lemma NoSplitSum(file: int -> int, p: Pair, o: Operand)
    requires Numbers(p)
    ensures SameSum(file, p, NoSplit(p, o))
  {}

  lemma EspSum(file: int -> int, p: Pair)
    requires Numbers(p)
    ensures SameSum(file, p, EspIsBase(p))
  {}

  // The whole reorganisation keeps base + scale * index.
  lemma ReorganisedSum(file: int -> int, p: Pair, o: Operand)
    requires Numbers(p)
    ensures SameSum(file, p, Reorganised(p, o))
  {
    hide SwapByHint, MergeSame, SingleBase, SplitScale, NoSplit, EspIsBase, PairSum, Sum;
    var p1 := SwapByHint(p, o);
    var p2 := MergeSame(p1);
    var p3 := SingleBase(p2, o);
    var p4 := SplitScale(p3, o);
    var p5 := NoSplit(p4, o);
    SwapSum(file, p, o);
    MergeSum(file, p1);
    SingleSum(file, p2, o);
    SplitSum(file, p3, o);
    NoSplitSum(file, p4, o);
    EspSum(file, p5);
  }

  lemma ModRmFields(mod: nat, rfield: int, rm: nat)
    requires mod < 4 && rm < 8
    ensures var m := ModRm(mod, rfield, rm); m < 256 && m / 64 == mod && m % 8 == rm && m / 8 % 8 == rfield % 8
  {}

  lemma SibFields(scale: nat, index: nat, base: nat)
    requires scale < 4 && index < 8 && base < 8
    ensures var s := Sib(scale, index, base); s < 256 && s / 64 == scale && s / 8 % 8 == index && s % 8 == base
  {}

  lemma RexOfAddress(p: Pair, rfield: int, rflags: bv32)
    ensures var rex := Or(Or(RexOfField(rfield, rflags), RexFlags(p.it, p.ix, REX_X)), RexFlags(p.bt, p.bx, REX_B));
            rex.x == (p.it >= 8) && rex.b == (p.bt >= 8) && rex.r == (rfield >= 8)
  {}

  // d addresses what the numbers of p say.
  ghost predicate Addresses(d: Decoded, p: Pair) {
    d.Memory? && d.base == p.bt && d.index == p.it && (p.it >= 0 ==> d.scale == p.s)
  }

  // The two shapes of the address bytes, decoded.
  lemma PlainDecodes(bits: int, p: Pair, mod: nat)
    requires Numbers(p) && p.it == -1 && p.bt % 8 != 4 && mod < 3
    requires p.bt == -1 || (mod == 0 ==> p.bt % 8 != 5)
    ensures var d := Decode32(bits, mod, p.bt % 8, 0, false, p.bt >= 8);
            Addresses(d, p) && d.dispBytes == (if mod == 2 then 4 else mod) && !d.ipRelative
  {}

  lemma SibDecodes(bits: int, p: Pair, mod: nat, s: nat, ss: nat, sib: nat)
    requires Numbers(p) && !BadPair(p) && mod < 3 && (p.bt == -1 ==> mod == 0) && (mod == 0 && p.bt >= 0 ==> p.bt % 8 != 5)
    requires sib < 256 && sib / 64 == ss && s == (if p.it == -1 then 1 else p.s)
    requires ss == (if s == 1 then 0 else if s == 2 then 1 else if s == 4 then 2 else 3)
    requires sib / 8 % 8 == (if p.it == -1 then 4 else p.it % 8) && sib % 8 == (if p.bt == -1 then 5 else p.bt % 8)
    ensures var d := Decode32(bits, mod, 4, sib, p.it >= 8, p.bt >= 8);
            Addresses(d, p) && d.dispBytes == (if p.bt == -1 || mod == 2 then 4 else mod) && !d.ipRelative
  {}

  // Decoding the address bytes of a 32- or 64-bit operand gives back base, index, scale and
  // the number of displacement bytes.
  lemma FullDecodes(o: Operand, p: Pair, bits: int, rfield: int, rflags: bv32)
    requires Numbers(p) && !BadPair(p)
    ensures var ea := FullIndirectEa(o, p, rfield, rflags);
            ea.modrm < 256 && ea.sib < 256 && ea.modrm / 64 != 3 && ea.modrm / 8 % 8 == rfield % 8 && ea.rex.r == (rfield >= 8)
    ensures var ea := FullIndirectEa(o, p, rfield, rflags);
            var d := Decode32(bits, ea.modrm / 64, ea.modrm % 8, ea.sib, ea.rex.x, ea.rex.b);
            Addresses(d, p) && d.dispBytes == ea.bytes && !d.ipRelative && (ea.sibPresent <==> ea.modrm % 8 == 4)
  {
    RexOfAddress(p, rfield, rflags);
    var ea := FullIndirectEa(o, p, rfield, rflags);
    var off := Wrap(o.offset, TWO_32);
    var mod := if p.bt == -1 then 0 else ModFor(o, off, p.bt % 8 == REG_NUM_EBP);
    ModIsZero(o, off, p.bt % 8 == REG_NUM_EBP);
    if p.it == -1 && p.bt % 8 != REG_NUM_ESP {
      assert ea.modrm == ModRm(mod, rfield, p.bt % 8) && ea.sib == 0 && !ea.sibPresent && ea.bytes == if mod == 2 then 4 else mod;
      assert ea.rex.x == (p.it >= 8) && ea.rex.b == (p.bt >= 8) && ea.rex.r == (rfield >= 8);
      hide *;
      ModRmFields(mod, rfield, p.bt % 8);
      PairBounds(p);
      PlainDecodes(bits, p, mod);
    } else {
      var s := if p.it == -1 then 1 else p.s;
      var ss := if s == 1 then 0 else if s == 2 then 1 else if s == 4 then 2 else 3;
      var index, base := if p.it == -1 then 4 else p.it % 8, if p.bt == -1 then 5 else p.bt % 8;
      assert ea.modrm == ModRm(mod, rfield, 4) && ea.sib == Sib(ss, index, base) && ea.sibPresent;
      assert ea.bytes == if p.bt == -1 || mod == 2 then 4 else mod;
      assert ea.rex.x == (p.it >= 8) && ea.rex.b == (p.bt >= 8) && ea.rex.r == (rfield >= 8);
      assert s >= 1;
      hide *;
      ModRmFields(mod, rfield, 4);
      SibFields(ss, index, base);
      PairBounds(p);
      SibDecodes(bits, p, mod, s, ss, ea.sib);
    }
  }

  lemma PairBounds(p: Pair)
    requires Numbers(p)
    ensures -1 <= p.bt < 16 && -1 <= p.it < 16 && (p.bt >= 0 || p.it >= 0)
    ensures REG_NUM_ESP == 4 && REG_NUM_EBP == 5
  {}

  lemma ModIsZero(o: Operand, off: int, noZero: bool)
    ensures ModFor(o, off, noZero) < 3
    ensures noZero ==> ModFor(o, off, noZero) != 0
  {}

  // ----- 16-bit addresses, plain offsets and registers -----

  lemma SwappedSum(file: int -> int, o: Operand, b: int, i: int)
    requires ValidOperand(o)
    requires b == NumberOf(o.basereg) && i == NumberOf(IndexOf(o)) && (i >= 0 ==> o.scale == 1)
    ensures OperandSum(o, file) == RegAt(file, b) + RegAt(file, i)
  {}

  // The number of one of the four 16-bit address registers.
  function Number16(id: int): int {
    if id == R_BX then 3 else if id == R_BP then 5 else if id == R_SI then 6 else if id == R_DI then 7 else -1
  }

  lemma ShortNumbers(o: Operand)
    requires ValidOperand(o) && Is16(IdOf(o.basereg)) && Is16(IdOf(IndexOf(o)))
    ensures NumberOf(o.basereg) == Number16(IdOf(o.basereg))
    ensures NumberOf(IndexOf(o)) == Number16(IdOf(IndexOf(o)))
  {}

  lemma Rm16Decodes(file: int -> int, b: int, i: int, mod: nat)
    requires Is16(b) && Is16(i) && Rm16(b, i) != -1 && mod < 3 && (mod == 0 ==> Rm16(b, i) != 6)
    ensures 0 <= Rm16(b, i) < 8
    ensures var d := Decode16(mod, Rm16(b, i));
            Sum(file, d.base, d.index, d.scale) == RegAt(file, Number16(b)) + RegAt(file, Number16(i)) &&
            d.dispBytes == mod && !d.ipRelative
  {}

  lemma Swapped16Keeps(file: int -> int, b: int, i: int)
    requires Is16(b) && Is16(i)
    ensures var (b1, i1) := Swapped16(b, i);
            Is16(b1) && Is16(i1) &&
            RegAt(file, Number16(b1)) + RegAt(file, Number16(i1)) == RegAt(file, Number16(b)) + RegAt(file, Number16(i))
  {}

  lemma ShortDecodes(file: int -> int, o: Operand, addrbits: int, rfield: int, rflags: bv32)
    requires ValidOperand(o) && ShortIndirectEa(o, addrbits, rfield, rflags).Some?
    ensures var ea := ShortIndirectEa(o, addrbits, rfield, rflags).value;
            ea.modrm < 256 && ea.modrm / 64 != 3 && ea.modrm / 8 % 8 == rfield % 8 && ea.sib == 0 && !ea.sibPresent &&
            !ea.rip && ea.rex == RexOfField(rfield, rflags)
    ensures var ea := ShortIndirectEa(o, addrbits, rfield, rflags).value;
            var d := Decode16(ea.modrm / 64, ea.modrm % 8);
            Sum(file, d.base, d.index, d.scale) == OperandSum(o, file) && d.dispBytes == ea.bytes && !d.ipRelative
  {
    var ea := ShortIndirectEa(o, addrbits, rfield, rflags).value;
    var b0, i0 := IdOf(o.basereg), IdOf(IndexOf(o));
    var (b, i) := Swapped16(b0, i0);
    var rm := Rm16(b, i);
    var mod := ModFor(o, Wrap(o.offset, TWO_16), rm == 6);
    assert ea == Ea(ModRm(mod, rfield, rm), 0, false, mod, RexOfField(rfield, rflags), false);
    assert Is16(b0) && Is16(i0) && rm != -1 && (i0 != -1 ==> o.scale == 1);
    ModIsZero(o, Wrap(o.offset, TWO_16), rm == 6);
    NoIndexNumber(o);
    hide *;
    Swapped16Keeps(file, b0, i0);
    Rm16Decodes(file, b, i, mod);
    ModRmFields(mod, rfield, rm);
    ShortNumbers(o);
    SwappedSum(file, o, NumberOf(o.basereg), NumberOf(IndexOf(o)));
  }

  lemma NoIndexNumber(o: Operand)
    ensures NumberOf(IndexOf(o)) >= 0 ==> IdOf(IndexOf(o)) != -1
  {}

  // ----- The displacement -----

  function Power256(bytes: nat): int {
    if bytes == 0 then 1 else if bytes == 1 then 0x100 else if bytes == 2 then TWO_16 else TWO_32
  }

  // The displacement the processor reads from that many bytes of x, sign-extended.
  function Displacement(x: int, bytes: nat): int {
    if bytes == 0 then 0 else Wrap(x, Power256(bytes))
  }

  function AddressSpace(addrbits: int): int {
    if addrbits == 16 then TWO_16 else if addrbits == 32 then TWO_32 else TWO_32 * TWO_32
  }

  // The bytes of the displacement hold all of the offset that the address size can see.
  predicate Fits(offset: int, bytes: nat, addrbits: int) {
    (Displacement(offset, bytes) - offset) % AddressSpace(addrbits) == 0
  }

  lemma SameResidue(x: int, a: int, b: int, m: int)
    requires m > 0
    ensures (x + a) % m == (x + b) % m <==> (a - b) % m == 0
  {
    var k, r := (a - b) / m, (a - b) % m;
    var q, t := (x + b) / m, (x + b) % m;
    MulDistrib(k, q, m);
    if t + r < m {
      DivModUnique(x + a, m, k + q, t + r);
    } else {
      MulDistrib(k + q, 1, m);
      DivModUnique(x + a, m, k + q + 1, t + r - m);
    }
  }

  // ----- The theorem -----

  // The address size goes with the mode, and an operand on 16-bit registers has 16 bits.
  predicate ValidAddress(o: Operand, bits: int, addrbits: int) {
    ValidOperand(o) && (bits == 16 || bits == 32 || bits == 64) &&
    (addrbits == 16 || addrbits == 32 || addrbits == 64) &&
    (bits == 64 ==> addrbits != 16) && (addrbits == 64 ==> bits == 64) &&
    (!IsPureOffset(o) && !Has(FlagsOf(IndexOf(o)) | FlagsOf(o.basereg), BITS32 | BITS64) ==> addrbits == 16)
  }

  // What the processor makes of an encoded operand, against the operand.
  ghost predicate Encodes(file: int -> int, o: Operand, bits: int, addrbits: int, rfield: int, ea: Ea) {
    ea.modrm < 256 && ea.sib < 256 && ea.modrm / 8 % 8 == rfield % 8 && ea.rex.r == (rfield >= 8) &&
    var d := Decode(bits, addrbits, ea.modrm, ea.sib, ea.rex.x, ea.rex.b);
    if IsClass(REGISTER, o.flags) then o.basereg.Some? && d == Register(o.basereg.value.val) && ea.Size() == 1
    else
      d.Memory? && Sum(file, d.base, d.index, d.scale) == OperandSum(o, file) && d.ipRelative == ea.rip &&
      d.dispBytes == ea.bytes && (ea.sibPresent <==> addrbits != 16 && ea.modrm % 8 == 4)
  }

  lemma RexOfFieldBits(rfield: int, rflags: bv32)
    ensures var r := RexOfField(rfield, rflags); r.r == (rfield >= 8) && !r.x && !r.b
  {}

  lemma RegisterEncodes(file: int -> int, o: Operand, bits: int, addrbits: int, rfield: int, rflags: bv32)
    requires ValidOperand(o) && IsClass(REGISTER, o.flags) && RegisterEa(o, rfield, rflags).Some?
    ensures Encodes(file, o, bits, addrbits, rfield, RegisterEa(o, rfield, rflags).value)
  {
    RexOfFieldBits(rfield, rflags);
    var reg := o.basereg.value;
    var rex := RexFlags(reg.val, reg.flags, NO_REX.(b := true, p := true, w := true, h := true));
    assert rex.b == (reg.val >= 8) && !rex.r && !rex.x by { hide IsClass, Has; }
    ModRmFields(3, rfield, reg.val % 8);
    hide RexOfField, RexFlags, ModRm, IsClass, Has;
  }

  // The three shapes of a pure offset, decoded.
  lemma DecodeOffset(bits: int, addrbits: int, m: nat, s: nat)
    requires m < 256 && s < 256 && m / 64 == 0
    ensures m % 8 == 4 && s / 64 == 0 && s / 8 % 8 == 4 && s % 8 == 5 && addrbits != 16 ==>
              Decode(bits, addrbits, m, s, false, false) == Memory(-1, -1, 1, 4, false)
    ensures m % 8 == 5 && addrbits != 16 ==> Decode(bits, addrbits, m, s, false, false) == Memory(-1, -1, 1, 4, bits == 64)
    ensures m % 8 == 6 && addrbits == 16 ==> Decode(bits, addrbits, m, s, false, false) == Memory(-1, -1, 1, 2, false)
  {
    assert [1, 2, 4, 8][0] == 1;
  }

  lemma OffsetSum(file: int -> int, o: Operand)
    requires IsPureOffset(o)
    ensures Sum(file, -1, -1, 1) == OperandSum(o, file) == 0
  {}

  lemma OffsetEncodes(file: int -> int, o: Operand, bits: int, addrbits: int, rfield: int, rflags: bv32)
    requires ValidAddress(o, bits, addrbits) && !IsClass(REGISTER, o.flags) && IsPureOffset(o)
    ensures Encodes(file, o, bits, addrbits, rfield, OffsetEa(o, bits, addrbits, rfield, rflags))
  {
    RexOfFieldBits(rfield, rflags);
    SibFields(0, 4, 5);
    ModRmFields(0, rfield, 4);
    ModRmFields(0, rfield, 5);
    ModRmFields(0, rfield, 6);
    OffsetSum(file, o);
    hide RexOfField, ModRm, IsClass, Has, AdjustedFlags, Sib, Decode, Sum, OperandSum, IsPureOffset;
    DecodeOffset(bits, addrbits, ModRm(0, rfield, 4), Sib(0, 4, 5));
    DecodeOffset(bits, addrbits, ModRm(0, rfield, 5), 0);
    DecodeOffset(bits, addrbits, ModRm(0, rfield, 6), 0);
  }

  lemma FullEncodes(file: int -> int, o: Operand, bits: int, addrbits: int, rfield: int, rflags: bv32)
    requires ValidAddress(o, bits, addrbits) && !IsClass(REGISTER, o.flags) && !IsPureOffset(o) && addrbits != 16
    requires !BadPair(Reorganised(StartPair(o), o))
    ensures Encodes(file, o, bits, addrbits, rfield, FullIndirectEa(o, Reorganised(StartPair(o), o), rfield, rflags))
  {
    var p := StartPair(o);
    assert Numbers(p) && PairSum(file, p) == OperandSum(o, file);
    var q := Reorganised(p, o);
    hide Reorganised, BadPair, FullIndirectEa, Has, IsClass, StartPair;
    ReorganisedSum(file, p, o);
    FullDecodes(o, q, bits, rfield, rflags);
    FullRip(o, q, rfield, rflags);
    hide Decode32;
  }

  lemma FullRip(o: Operand, p: Pair, rfield: int, rflags: bv32)
    requires !BadPair(p)
    ensures !FullIndirectEa(o, p, rfield, rflags).rip
  {}

  lemma ShortEncodes(file: int -> int, o: Operand, bits: int, addrbits: int, rfield: int, rflags: bv32)
    requires ValidAddress(o, bits, addrbits) && !IsClass(REGISTER, o.flags) && addrbits == 16
    requires ShortIndirectEa(o, addrbits, rfield, rflags).Some?
    ensures Encodes(file, o, bits, addrbits, rfield, ShortIndirectEa(o, addrbits, rfield, rflags).value)
  {
    RexOfFieldBits(rfield, rflags);
    hide ShortIndirectEa, Decode16, RexOfField, IsClass, Has;
    ShortDecodes(file, o, addrbits, rfield, rflags);
  }

  lemma SizedEncodes(file: int -> int, o: Operand, bits: int, addrbits: int, rfield: int, rflags: bv32)
    requires ValidAddress(o, bits, addrbits) && EaOf(o, bits, addrbits, rfield, rflags).Some?
    ensures Encodes(file, o, bits, addrbits, rfield, EaOf(o, bits, addrbits, rfield, rflags).value)
  {
    EaCases(o, bits, addrbits, rfield, rflags);
    ShortSize(o, bits, addrbits);
    hide *;
    if IsClass(REGISTER, o.flags) {
      ValidParts(o, bits, addrbits);
      RegisterEncodes(file, o, bits, addrbits, rfield, rflags);
    } else if IsPureOffset(o) {
      OffsetEncodes(file, o, bits, addrbits, rfield, rflags);
    } else if Has(StartPair(o).ix | StartPair(o).bx, BITS32 | BITS64) {
      SizesAddress(StartPair(o), o.dispSize, addrbits);
      FullEncodes(file, o, bits, addrbits, rfield, rflags);
    } else {
      ShortEncodes(file, o, bits, addrbits, rfield, rflags);
    }
  }

  lemma ShortSize(o: Operand, bits: int, addrbits: int)
    requires ValidAddress(o, bits, addrbits)
    ensures !IsPureOffset(o) && !Has(StartPair(o).ix | StartPair(o).bx, BITS32 | BITS64) ==> addrbits == 16
  {}

  lemma ValidParts(o: Operand, bits: int, addrbits: int)
    requires ValidAddress(o, bits, addrbits)
    ensures ValidOperand(o)
  {}

  lemma SizesAddress(p: Pair, dispSize: int, addrbits: int)
    requires SizesOk(p, dispSize, addrbits)
    ensures addrbits != 16
  {}

  lemma SizedAddressIsExact(file: int -> int, o: Operand, bits: int, addrbits: int, rfield: int, rflags: bv32)
    requires ValidAddress(o, bits, addrbits) && !IsClass(REGISTER, o.flags)
    requires EaOf(o, bits, addrbits, rfield, rflags).Some?
    ensures var ea := EaOf(o, bits, addrbits, rfield, rflags).value;
            ea.modrm < 256 && ea.sib < 256 &&
            var d := Decode(bits, addrbits, ea.modrm, ea.sib, ea.rex.x, ea.rex.b);
            d.Memory? && ea.Size() == 1 + (if addrbits != 16 && ea.modrm % 8 == 4 then 1 else 0) + d.dispBytes &&
            ((Sum(file, d.base, d.index, d.scale) + Displacement(o.offset, d.dispBytes)) % AddressSpace(addrbits)
               == (OperandSum(o, file) + o.offset) % AddressSpace(addrbits)
             <==> Fits(o.offset, ea.bytes, addrbits))
  {
    SizedEncodes(file, o, bits, addrbits, rfield, rflags);
    var ea := EaOf(o, bits, addrbits, rfield, rflags).value;
    assert AddressSpace(addrbits) > 0;
    hide EaOf, Decode, Displacement, AddressSpace, OperandSum, Sum, IsClass;
    SameResidue(OperandSum(o, file), Displacement(o.offset, ea.bytes), o.offset, AddressSpace(addrbits));
  }

  lemma SizedDisplacementFits(o: Operand, bits: int, addrbits: int, rfield: int, rflags: bv32)
    requires ValidAddress(o, bits, addrbits) && !IsClass(REGISTER, o.flags)
    requires EaOf(o, bits, addrbits, rfield, rflags).Some? && !o.byteoffs
    requires -0x8000_0000_0000_0000 <= o.offset < 0x8000_0000_0000_0000
    ensures Fits(o.offset, EaOf(o, bits, addrbits, rfield, rflags).value.bytes, addrbits)
       <==> (addrbits == 64 ==> -0x8000_0000 <= o.offset < 0x8000_0000)
  {
    EaCases(o, bits, addrbits, rfield, rflags);
    ShortSize(o, bits, addrbits);
    var ea := EaOf(o, bits, addrbits, rfield, rflags).value;
    if IsPureOffset(o) {
      assert ea.bytes == (if addrbits != 16 then 4 else 2) by { hide IsClass, AdjustedFlags, ModRm, Sib, RexOfField; OffsetBytes(o, bits, addrbits, rfield, rflags); }
    } else if Has(StartPair(o).ix | StartPair(o).bx, BITS32 | BITS64) {
      SizesAddress(StartPair(o), o.dispSize, addrbits);
      FullBytes(o, Reorganised(StartPair(o), o), rfield, rflags);
    } else {
      ShortBytes(o, addrbits, rfield, rflags);
    }
    hide *;
    BytesFit(o.offset, ea.bytes, addrbits);
    WidthOf(o, bits, addrbits);
  }

  lemma OffsetBytes(o: Operand, bits: int, addrbits: int, rfield: int, rflags: bv32)
    requires ValidAddress(o, bits, addrbits)
    ensures OffsetEa(o, bits, addrbits, rfield, rflags).bytes == (if addrbits != 16 then 4 else 2)
  {}

  lemma FullBytes(o: Operand, p: Pair, rfield: int, rflags: bv32)
    requires !BadPair(p) && !o.byteoffs
    ensures var bytes, off := FullIndirectEa(o, p, rfield, rflags).bytes, Wrap(o.offset, TWO_32);
            bytes == 4 || (bytes == 0 && off == 0) || (bytes == 1 && -128 <= off <= 127)
  {}

  lemma ShortBytes(o: Operand, addrbits: int, rfield: int, rflags: bv32)
    requires ShortIndirectEa(o, addrbits, rfield, rflags).Some? && !o.byteoffs
    ensures var bytes, off := ShortIndirectEa(o, addrbits, rfield, rflags).value.bytes, Wrap(o.offset, TWO_16);
            bytes == 2 || (bytes == 0 && off == 0) || (bytes == 1 && -128 <= off <= 127)
  {}

  lemma WidthOf(o: Operand, bits: int, addrbits: int)
    requires ValidAddress(o, bits, addrbits)
    ensures addrbits == 16 || addrbits == 32 || addrbits == 64
  {}

  lemma ByteFits(x: int, off: int, size: int)
    requires size == TWO_16 || size == TWO_32
    requires off == Wrap(x, size) && -128 <= off <= 127
    ensures Wrap(x, 0x100) == off
  {
    var k := if off >= 0 then x / size else x / size + 1;
    var j := if size == TWO_16 then 0x100 * k else 0x100_0000 * k;
    assert x == 0x100 * j + off;
    DivModUnique(x, 0x100, if off >= 0 then j else j - 1, if off >= 0 then off else off + 0x100);
  }

  // Sign extension from the full size, against a wider address.
  lemma WideFits(x: int)
    requires -0x8000_0000_0000_0000 <= x < 0x8000_0000_0000_0000
    ensures (Wrap(x, TWO_32) - x) % (TWO_32 * TWO_32) == 0 <==> -0x8000_0000 <= x < 0x8000_0000
  {}

  lemma NarrowFits(x: int, size: int)
    requires size == TWO_16 || size == TWO_32
    ensures (Wrap(x, size) - x) % size == 0
  {}

  // Sign extension from a byte or from the full size, against the address size.
  lemma BytesFit(x: int, bytes: nat, addrbits: int)
    requires -0x8000_0000_0000_0000 <= x < 0x8000_0000_0000_0000
    requires addrbits == 16 || addrbits == 32 || addrbits == 64
    requires var off := Wrap(x, if addrbits == 16 then TWO_16 else TWO_32);
             bytes == (if addrbits == 16 then 2 else 4) || (bytes == 0 && off == 0) || (bytes == 1 && -128 <= off <= 127)
    ensures Fits(x, bytes, addrbits) <==> (addrbits == 64 ==> -0x8000_0000 <= x < 0x8000_0000)
  {
    var size := if addrbits == 16 then TWO_16 else TWO_32;
    var off := Wrap(x, size);
    if bytes == 1 {
      ByteFits(x, off, size);
    }
    assert Displacement(x, bytes) == off by { hide Wrap; }
    NarrowFits(x, size);
    WideFits(x);
    hide Wrap, Displacement;
  }

  // ----- The theorem for every operand that is accepted -----

  // A memory operand on 16-bit registers.
  predicate IsWord(o: Operand) {
    !IsClass(REGISTER, o.flags) && !IsPureOffset(o) && !Has(FlagsOf(IndexOf(o)) | FlagsOf(o.basereg), BITS32 | BITS64)
  }

  // The address size at which an operand is encoded: on 16-bit registers it is 16 bits,
  // whatever process_ea is told.
  function AddressBits(o: Operand, addrbits: int): int { if IsWord(o) then 16 else addrbits }

  // The sizes that reach process_ea. The processor has no 16-bit addresses in 64-bit mode.
  predicate SizedOperand(o: Operand, bits: int, addrbits: int) {
    ValidOperand(o) && (bits == 16 || bits == 32 || bits == 64) && (addrbits == 16 || addrbits == 32 || addrbits == 64) &&
    (bits == 64 ==> addrbits != 16 && !IsWord(o)) && (addrbits == 64 ==> bits == 64)
  }

  lemma SizeAgrees(o: Operand, bits: int, addrbits: int, rfield: int, rflags: bv32)
    requires SizedOperand(o, bits, addrbits) && EaOf(o, bits, addrbits, rfield, rflags).Some?
    ensures IsClass(REGISTER, o.flags) || ValidAddress(o, bits, AddressBits(o, addrbits))
    ensures EaOf(o, bits, AddressBits(o, addrbits), rfield, rflags) == EaOf(o, bits, addrbits, rfield, rflags)
  {
    hide Wrap, ModRm, ModFor, Rm16, Swapped16, Is16, RexOfField, IsPureOffset;
    EaCases(o, bits, addrbits, rfield, rflags);
    hide Reorganised, BadPair, FullIndirectEa, SizesOk, OffsetEa, RegisterEa;
  }

  // Every operand process_ea accepts is encoded so that the processor decodes the same
  // registers and the same sum, for every content of the registers.
  lemma AcceptedEncodes(file: int -> int, o: Operand, bits: int, addrbits: int, rfield: int, rflags: bv32)
    requires SizedOperand(o, bits, addrbits) && EaOf(o, bits, addrbits, rfield, rflags).Some?
    ensures Encodes(file, o, bits, AddressBits(o, addrbits), rfield, EaOf(o, bits, addrbits, rfield, rflags).value)
  {
    SizeAgrees(o, bits, addrbits, rfield, rflags);
    EaCases(o, bits, addrbits, rfield, rflags);
    if IsClass(REGISTER, o.flags) {
      assert ValidOperand(o) && AddressBits(o, addrbits) == addrbits;
      hide *;
      RegisterEncodes(file, o, bits, addrbits, rfield, rflags);
    } else {
      hide *;
      SizedEncodes(file, o, bits, AddressBits(o, addrbits), rfield, rflags);
    }
  }

  // The address the processor forms is the operand's, for all registers, exactly when the
  // displacement bytes can hold the offset. (Relative addresses are emitted against the
  // end of the instruction.)
  lemma AddressIsExact(file: int -> int, o: Operand, bits: int, addrbits: int, rfield: int, rflags: bv32)
    requires SizedOperand(o, bits, addrbits) && !IsClass(REGISTER, o.flags)
    requires EaOf(o, bits, addrbits, rfield, rflags).Some?
    ensures var ea, size := EaOf(o, bits, addrbits, rfield, rflags).value, AddressBits(o, addrbits);
            ea.modrm < 256 && ea.sib < 256 &&
            var d := Decode(bits, size, ea.modrm, ea.sib, ea.rex.x, ea.rex.b);
            d.Memory? && ea.Size() == 1 + (if size != 16 && ea.modrm % 8 == 4 then 1 else 0) + d.dispBytes &&
            AddressSpace(size) > 0 &&
            ((Sum(file, d.base, d.index, d.scale) + Displacement(o.offset, d.dispBytes)) % AddressSpace(size)
               == (OperandSum(o, file) + o.offset) % AddressSpace(size)
             <==> Fits(o.offset, ea.bytes, size))
  {
    SizeAgrees(o, bits, addrbits, rfield, rflags);
    assert AddressSpace(AddressBits(o, addrbits)) > 0;
    hide *;
    SizedAddressIsExact(file, o, bits, AddressBits(o, addrbits), rfield, rflags);
  }

  // Without a forced byte the chosen displacement always fits, except that an address of
  // 64 bits cannot hold an offset outside 32.
  lemma ChosenDisplacementFits(o: Operand, bits: int, addrbits: int, rfield: int, rflags: bv32)
    requires SizedOperand(o, bits, addrbits) && !IsClass(REGISTER, o.flags)
    requires EaOf(o, bits, addrbits, rfield, rflags).Some? && !o.byteoffs
    requires -0x8000_0000_0000_0000 <= o.offset < 0x8000_0000_0000_0000
    ensures Fits(o.offset, EaOf(o, bits, addrbits, rfield, rflags).value.bytes, AddressBits(o, addrbits))
       <==> (AddressBits(o, addrbits) == 64 ==> -0x8000_0000 <= o.offset < 0x8000_0000)
  {
    SizeAgrees(o, bits, addrbits, rfield, rflags);
    hide *;
    SizedDisplacementFits(o, bits, AddressBits(o, addrbits), rfield, rflags);
  }

  // ----- How many bytes are chosen -----

  // The linker or a later pass may still change the offset, or the operand asks for more
  // than a byte.
  predicate NeedsFull(o: Operand) { o.segment != NO_SEG || o.unknown || o.wordoffs }

  function FullWidth(addrbits: int): nat { if addrbits == 16 then 2 else 4 }

  // A base register with whose number the short form without displacement means something
  // else: BP alone, EBP and R13.
  predicate NoPlainForm(ea: Ea, d: Decoded, addrbits: int) {
    d.Memory? && if addrbits == 16 then ea.modrm % 8 == 6 else d.base % 8 == 5
  }

  // An offset that can still change has its full size. Any other offset has the fewest bytes
  // that hold it, where there is a base register: n bytes would not do.
  ghost predicate WellChosen(o: Operand, bits: int, addrbits: int, ea: Ea, n: nat) {
    ea.modrm < 256 && ea.sib < 256 && (NeedsFull(o) && !o.byteoffs ==> ea.bytes == FullWidth(addrbits)) &&
    var d := Decode(bits, addrbits, ea.modrm, ea.sib, ea.rex.x, ea.rex.b);
    var holds := Displacement(o.offset, n) == Displacement(o.offset, FullWidth(addrbits));
    d.Memory? && d.base >= 0 && !NeedsFull(o) && !o.byteoffs && n <= 1 && holds ==> n == 0 && NoPlainForm(ea, d, addrbits)
  }

  lemma DisplacementChosen(o: Operand, bits: int, addrbits: int, rfield: int, rflags: bv32, n: nat)
    requires SizedOperand(o, bits, addrbits) && !IsClass(REGISTER, o.flags)
    requires EaOf(o, bits, addrbits, rfield, rflags).Some? && n < EaOf(o, bits, addrbits, rfield, rflags).value.bytes
    ensures WellChosen(o, bits, AddressBits(o, addrbits), EaOf(o, bits, addrbits, rfield, rflags).value, n)
  {
    SizeAgrees(o, bits, addrbits, rfield, rflags);
    hide *;
    var size := AddressBits(o, addrbits);
    AcceptedEncodes(x => 0, o, bits, addrbits, rfield, rflags);
    EncodesRange(x => 0, o, bits, size, rfield, EaOf(o, bits, addrbits, rfield, rflags).value);
    SizedChosen(o, bits, size, rfield, rflags, n);
  }

  lemma EncodesRange(file: int -> int, o: Operand, bits: int, addrbits: int, rfield: int, ea: Ea)
    requires Encodes(file, o, bits, addrbits, rfield, ea)
    ensures ea.modrm < 256 && ea.sib < 256
  {}

  lemma SizedChosen(o: Operand, bits: int, addrbits: int, rfield: int, rflags: bv32, n: nat)
    requires ValidAddress(o, bits, addrbits) && !IsClass(REGISTER, o.flags)
    requires EaOf(o, bits, addrbits, rfield, rflags).Some? && n < EaOf(o, bits, addrbits, rfield, rflags).value.bytes
    requires EaOf(o, bits, addrbits, rfield, rflags).value.modrm < 256 && EaOf(o, bits, addrbits, rfield, rflags).value.sib < 256
    ensures WellChosen(o, bits, addrbits, EaOf(o, bits, addrbits, rfield, rflags).value, n)
  {
    EaCases(o, bits, addrbits, rfield, rflags);
    ShortSize(o, bits, addrbits);
    if IsPureOffset(o) {
      hide *;
      OffsetChosen(o, bits, addrbits, rfield, rflags);
    } else if Has(StartPair(o).ix | StartPair(o).bx, BITS32 | BITS64) {
      SizesAddress(StartPair(o), o.dispSize, addrbits);
      assert Numbers(StartPair(o));
      hide *;
      ReorganisedNumbers(o);
      FullChosen(o, Reorganised(StartPair(o), o), bits, addrbits, rfield, rflags, n);
    } else {
      hide *;
      ShortChosen(o, bits, addrbits, rfield, rflags, n);
    }
  }

  lemma ReorganisedNumbers(o: Operand)
    requires Numbers(StartPair(o))
    ensures Numbers(Reorganised(StartPair(o), o))
  {
    hide *;
    ReorganisedSum(x => 0, StartPair(o), o);
    SameNumbers(x => 0, StartPair(o), Reorganised(StartPair(o), o));
  }

  lemma SameNumbers(file: int -> int, p: Pair, q: Pair)
    requires SameSum(file, p, q)
    ensures Numbers(q)
  {}

  lemma OffsetChosen(o: Operand, bits: int, addrbits: int, rfield: int, rflags: bv32)
    requires ValidAddress(o, bits, addrbits)
    requires OffsetEa(o, bits, addrbits, rfield, rflags).modrm < 256 && OffsetEa(o, bits, addrbits, rfield, rflags).sib < 256
    ensures var ea := OffsetEa(o, bits, addrbits, rfield, rflags);
            ea.bytes == FullWidth(addrbits) &&
            var d := Decode(bits, addrbits, ea.modrm, ea.sib, ea.rex.x, ea.rex.b); d.Memory? ==> d.base < 0
  {
    OffsetBytes(o, bits, addrbits, rfield, rflags);
    RexOfFieldBits(rfield, rflags);
    SibFields(0, 4, 5);
    ModRmFields(0, rfield, 4);
    ModRmFields(0, rfield, 5);
    ModRmFields(0, rfield, 6);
    hide RexOfField, ModRm, IsClass, Has, AdjustedFlags, Sib, Decode, IsPureOffset;
    DecodeOffset(bits, addrbits, ModRm(0, rfield, 4), Sib(0, 4, 5));
    DecodeOffset(bits, addrbits, ModRm(0, rfield, 5), 0);
    DecodeOffset(bits, addrbits, ModRm(0, rfield, 6), 0);
  }

  // What ModFor chooses, against the bytes that would hold the offset.
  lemma ModChosen(o: Operand, size: int, noZero: bool, n: nat)
    requires size == TWO_16 || size == TWO_32
    ensures var mod, full := ModFor(o, Wrap(o.offset, size), noZero), Wrap(o.offset, size);
            (NeedsFull(o) && !o.byteoffs ==> mod == 2) &&
            (!NeedsFull(o) && !o.byteoffs && n < mod && n <= 1 && Displacement(o.offset, n) == full ==> n == 0 && noZero)
  {
    assert n == 1 ==> -128 <= Displacement(o.offset, n) <= 127;
    assert n == 0 ==> Displacement(o.offset, n) == 0;
    hide Displacement, Wrap;
  }

  lemma FullDisplacement(x: int, addrbits: int)
    ensures Displacement(x, FullWidth(addrbits)) == Wrap(x, if addrbits == 16 then TWO_16 else TWO_32)
  {}

  lemma FullChosen(o: Operand, p: Pair, bits: int, addrbits: int, rfield: int, rflags: bv32, n: nat)
    requires Numbers(p) && !BadPair(p) && addrbits != 16 && n < FullIndirectEa(o, p, rfield, rflags).bytes
    requires FullIndirectEa(o, p, rfield, rflags).modrm < 256 && FullIndirectEa(o, p, rfield, rflags).sib < 256
    ensures WellChosen(o, bits, addrbits, FullIndirectEa(o, p, rfield, rflags), n)
  {
    var ea := FullIndirectEa(o, p, rfield, rflags);
    var noZero := p.bt % 8 == REG_NUM_EBP;
    var mod := ModFor(o, Wrap(o.offset, TWO_32), noZero);
    assert ea.bytes == if p.bt == -1 || mod == 2 then 4 else mod;
    FullDecodes(o, p, bits, rfield, rflags);
    var d := Decode(bits, addrbits, ea.modrm, ea.sib, ea.rex.x, ea.rex.b);
    assert d == Decode32(bits, ea.modrm / 64, ea.modrm % 8, ea.sib, ea.rex.x, ea.rex.b);
    assert d.base == p.bt;
    FullDisplacement(o.offset, addrbits);
    ModChosen(o, TWO_32, noZero, n);
    hide ModFor, Wrap, Displacement, FullIndirectEa, Decode, Decode32, NeedsFull, Numbers, BadPair;
  }

  lemma ShortChosen(o: Operand, bits: int, addrbits: int, rfield: int, rflags: bv32, n: nat)
    requires ValidOperand(o) && addrbits == 16 && ShortIndirectEa(o, addrbits, rfield, rflags).Some?
    requires n < ShortIndirectEa(o, addrbits, rfield, rflags).value.bytes
    requires ShortIndirectEa(o, addrbits, rfield, rflags).value.modrm < 256 && ShortIndirectEa(o, addrbits, rfield, rflags).value.sib < 256
    ensures WellChosen(o, bits, addrbits, ShortIndirectEa(o, addrbits, rfield, rflags).value, n)
  {
    var ea := ShortIndirectEa(o, addrbits, rfield, rflags).value;
    var (b, i) := Swapped16(IdOf(o.basereg), IdOf(IndexOf(o)));
    var rm := Rm16(b, i);
    var mod := ModFor(o, Wrap(o.offset, TWO_16), rm == 6);
    assert ea == Ea(ModRm(mod, rfield, rm), 0, false, mod, RexOfField(rfield, rflags), false) && 0 <= rm < 8 && mod < 3;
    ModRmFields(mod, rfield, rm);
    FullDisplacement(o.offset, addrbits);
    ModChosen(o, TWO_16, rm == 6, n);
    hide ModFor, Wrap, Displacement, ShortIndirectEa, Decode, NeedsFull, ModRm, RexOfField, Swapped16, Rm16, Is16, IdOf, IndexOf;
  }
}
