// sdk/as/assemble.c: add_asp, which settles the address size of an instruction before
// process_ea encodes its operands.
module AddressSize {
  import opened Base
  import opened Operands
  import opened ByteCode
  import opened EffectiveAddress
  import Machine

  const REG16: bv32 := 0x20_9002
  const MEM_OFFS: bv32 := 0x1_c000

  // The set of address sizes stands for the source's word with a bit for each of them.
  type Sizes = set<int>

  const ALL: Sizes := {16, 32, 64}

  function Other(bits: int): int { if bits == 32 then 16 else 32 }

  // The sizes of the mode that an explicit prefix leaves.
  function ModeSizes(bits: int, asize: int): Sizes {
    var s := if bits == 64 then {64, 32} else {32, 16};
    if asize == P_A16 then s * {16}
    else if asize == P_A32 then s * {32}
    else if asize == P_A64 then s * {64}
    else if asize == P_ASP then s * {Other(bits)}
    else s
  }

  // The sizes a register can be used with in an address.
  function RegisterSizes(flags: bv32): Sizes {
    (if IsClass(REG16, flags) then {16} else ALL) * (if IsClass(REG32, flags) then {32} else ALL) *
    (if IsClass(REG64, flags) then {64} else ALL)
  }

  function OperandSizes(bits: int, o: Operand): Sizes {
    var b, i := FlagsOf(o.basereg), FlagsOf(IndexOf(o));
    if !IsClass(MEMORY, o.flags) then ALL
    else if i == 0 && b == 0 then
      if (bits != 64 && o.dispSize > 8) || (bits == 64 && o.dispSize == 16) then {o.dispSize} else ALL
    else RegisterSizes(b) * RegisterSizes(i)
  }

  function CommonSizes(bits: int, asize: int, oprs: seq<Operand>): Sizes {
    if oprs == [] then ModeSizes(bits, asize)
    else CommonSizes(bits, asize, oprs[..|oprs| - 1]) * OperandSizes(bits, oprs[|oprs| - 1])
  }

  // The size chosen, None where there is no possible one.
  function Chosen(bits: int, sizes: Sizes): Option<int> {
    if bits in sizes then Some(bits) else if Other(bits) in sizes then Some(Other(bits)) else None
  }

  // A simple offset of another size than the address is matched as an address only.
  function Stripped(o: Operand, size: int): Operand {
    var ds := if o.dispSize != 0 then o.dispSize else if size == 16 then 16 else 32;
    if IsClass(MEM_OFFS, o.flags) && ds != size then o.(flags := o.flags & !(MEM_OFFS & !MEMORY)) else o
  }

  // add_asp. Without a possible size an error is reported and the mode's size is kept.
  method AddAsp(bits: int, asize: int, oprs: array<Operand>) returns (error: bool, size: int, prefix: int)
    modifies oprs
    ensures var c := Chosen(bits, CommonSizes(bits, asize, old(oprs[..])));
            error == c.None? && size == (if c.Some? then c.value else bits) &&
            prefix == if c.Some? && size != bits then (if bits == 32 then P_A16 else P_A32) else asize
    ensures forall j :: 0 <= j < oprs.Length ==> oprs[j] == Stripped(old(oprs[j]), size)
  {
    hide OperandSizes, ModeSizes, Stripped;
    var valid := ModeSizes(bits, asize);
    ghost var was := oprs[..];
    assert was[..0] == [];
    for j := 0 to oprs.Length
      invariant oprs[..] == was && valid == CommonSizes(bits, asize, was[..j])
    {
      assert was[..j + 1][..j] == was[..j];
      valid := valid * OperandSizes(bits, oprs[j]);
    }
    assert was[..|was|] == was;
    error, size, prefix := false, bits, asize;
    if bits in valid {
    } else if Other(bits) in valid {
      prefix := if bits == 32 then P_A16 else P_A32;
      size := Other(bits);
    } else {
      error := true;
    }
    for j := 0 to oprs.Length
      invariant forall k :: 0 <= k < j ==> oprs[k] == Stripped(was[k], size)
      invariant forall k :: j <= k < oprs.Length ==> oprs[k] == was[k]
    {
      oprs[j] := Stripped(oprs[j], size);
    }
  }

  // What the register tables guarantee of the registers of 16-bit addresses.
  predicate WordFlags(r: Option<Reg>) {
    r.Some? && Is16(r.value.id) ==> IsClass(REG16, r.value.flags)
  }

  lemma {:induction false} CommonBelow(bits: int, asize: int, oprs: seq<Operand>, k: nat)
    requires k < |oprs|
    ensures CommonSizes(bits, asize, oprs) <= OperandSizes(bits, oprs[k]) && CommonSizes(bits, asize, oprs) <= ModeSizes(bits, asize)
  {
    hide OperandSizes, ModeSizes;
    if k < |oprs| - 1 {
      CommonBelow(bits, asize, oprs[..|oprs| - 1], k);
    } else if k > 0 {
      CommonBelow(bits, asize, oprs[..|oprs| - 1], 0);
    }
  }

  lemma WordRegister(flags: bv32)
    requires IsClass(REG16, flags)
    ensures RegisterSizes(flags) <= {16} && flags != 0
  {}

  // Stripping changes nothing that process_ea reads.
  lemma StrippedSame(o: Operand, size: int)
    ensures var s := Stripped(o, size);
            s.basereg == o.basereg && s.indexreg == o.indexreg && s.scale == o.scale && s.dispSize == o.dispSize &&
            (IsClass(REGISTER, s.flags) <==> IsClass(REGISTER, o.flags)) && (IsClass(MEMORY, s.flags) <==> IsClass(MEMORY, o.flags))
  {}

  // A simple offset stays one if its size, the address size unless the operand names another,
  // is the address size; in 64-bit addresses that must be asked for.
  lemma StaysSimple(o: Operand, size: int)
    requires size == 16 || size == 32 || size == 64
    ensures IsClass(MEM_OFFS, Stripped(o, size).flags) <==>
            IsClass(MEM_OFFS, o.flags) && (o.dispSize == size || (o.dispSize == 0 && size != 64))
  {}

  lemma WordSizes(bits: int, addrbits: int, o: Operand, rfield: int, rflags: bv32)
    requires IsClass(MEMORY, o.flags) && WordFlags(o.basereg) && WordFlags(IndexOf(o)) && IsWord(o)
    requires EaOf(o, bits, addrbits, rfield, rflags).Some?
    ensures OperandSizes(bits, o) <= {16}
  {
    EaCases(o, bits, addrbits, rfield, rflags);
    WordShort(o, addrbits, rfield, rflags);
    hide EaOf, IsClass, RegisterSizes, Has, Is16, StartPair;
    if o.basereg.Some? { WordRegister(o.basereg.value.flags); }
    if IndexOf(o).Some? { WordRegister(IndexOf(o).value.flags); }
  }

  lemma WordShort(o: Operand, addrbits: int, rfield: int, rflags: bv32)
    ensures ShortIndirectEa(o, addrbits, rfield, rflags).Some? ==>
              (o.basereg.Some? ==> Is16(o.basereg.value.id)) && (IndexOf(o).Some? ==> Is16(IndexOf(o).value.id))
    ensures var p := StartPair(o); p.ix | p.bx == FlagsOf(IndexOf(o)) | FlagsOf(o.basereg)
  {
    hide Is16, Wrap, EffectiveAddress.ModRm, ModFor, Swapped16, Rm16;
  }

  lemma ChosenIn(bits: int, sizes: Sizes)
    requires sizes <= {16} && (bits == 64 ==> 16 !in sizes) && (bits == 16 || bits == 32 || bits == 64)
    ensures Chosen(bits, sizes).Some? ==> Chosen(bits, sizes).value == 16 && bits != 64
  {}

  // Where add_asp finds a size, every memory operand on 16-bit registers that process_ea accepts
  // gets the 16-bit size, and there is none in 64-bit mode: the size at which the operand is
  // encoded is the size at which the processor decodes it.
  lemma SizeIsAgreed(bits: int, asize: int, oprs: seq<Operand>, k: nat, rfield: int, rflags: bv32)
    requires (bits == 16 || bits == 32 || bits == 64) && k < |oprs| && IsClass(MEMORY, oprs[k].flags)
    requires WordFlags(oprs[k].basereg) && WordFlags(IndexOf(oprs[k])) && ValidOperand(oprs[k])
    requires Chosen(bits, CommonSizes(bits, asize, oprs)).Some?
    requires var size := Chosen(bits, CommonSizes(bits, asize, oprs)).value;
             EaOf(Stripped(oprs[k], size), bits, size, rfield, rflags).Some?
    ensures var size := Chosen(bits, CommonSizes(bits, asize, oprs)).value;
            SizedOperand(Stripped(oprs[k], size), bits, size) && AddressBits(Stripped(oprs[k], size), size) == size
  {
    var sizes := CommonSizes(bits, asize, oprs);
    var size := Chosen(bits, sizes).value;
    var o := Stripped(oprs[k], size);
    CommonBelow(bits, asize, oprs, k);
    StrippedSame(oprs[k], size);
    assert OperandSizes(bits, o) == OperandSizes(bits, oprs[k]);
    assert bits == 64 ==> 16 !in ModeSizes(bits, asize);
    assert bits != 64 ==> 64 !in ModeSizes(bits, asize);
    hide Stripped, OperandSizes, CommonSizes, ModeSizes, EaOf, IsClass, WordFlags;
    if IsWord(o) {
      WordSizes(bits, size, o, rfield, rflags);
      ChosenIn(bits, sizes);
    }
    hide IsWord;
  }

  // ----- Which size is chosen -----

  // The mode has two address sizes, with the prefix and without it, and a prefix in the
  // source text leaves the one it names.
  predicate Named(bits: int, asize: int, n: int) {
    (n == Machine.AddressSize(bits, false) || n == Machine.AddressSize(bits, true)) &&
    (asize == P_A16 ==> n == 16) && (asize == P_A32 ==> n == 32) && (asize == P_A64 ==> n == 64) &&
    (asize == P_ASP ==> n == Machine.AddressSize(bits, true))
  }

  // Registers of one size make addresses of that size.
  predicate GoesWith(flags: bv32, n: int) {
    (IsClass(REG16, flags) ==> n == 16) && (IsClass(REG32, flags) ==> n == 32) && (IsClass(REG64, flags) ==> n == 64)
  }

  // The operand can stand in an address of size n: its registers go with it, or the size of
  // its offset, where that matters, is n.
  predicate Usable(bits: int, o: Operand, n: int) {
    IsClass(MEMORY, o.flags) ==>
      if FlagsOf(o.basereg) == 0 && FlagsOf(IndexOf(o)) == 0 then
        ((bits == 64 && o.dispSize == 16) || (bits != 64 && o.dispSize > 8)) ==> n == o.dispSize
      else GoesWith(FlagsOf(o.basereg), n) && GoesWith(FlagsOf(IndexOf(o)), n)
  }

  lemma UsableIs(bits: int, o: Operand, n: int)
    requires n in ALL
    ensures n in OperandSizes(bits, o) <==> Usable(bits, o, n)
  {
    RegisterSizesAre(FlagsOf(o.basereg), n);
    RegisterSizesAre(FlagsOf(IndexOf(o)), n);
    hide RegisterSizes, GoesWith, IsClass;
  }

  lemma RegisterSizesAre(flags: bv32, n: int)
    requires n in ALL
    ensures n in RegisterSizes(flags) <==> GoesWith(flags, n)
  {
    hide IsClass;
  }

  lemma NamedIs(bits: int, asize: int, n: int)
    requires bits == 16 || bits == 32 || bits == 64
    ensures n in ModeSizes(bits, asize) <==> Named(bits, asize, n)
    ensures n in ModeSizes(bits, asize) ==> n in ALL
  {}

  // A size is possible exactly if the mode and the prefix leave it and every memory operand
  // can be used with it.
  lemma {:induction false} CommonAre(bits: int, asize: int, oprs: seq<Operand>, n: int)
    requires bits == 16 || bits == 32 || bits == 64
    ensures n in CommonSizes(bits, asize, oprs) <==> Named(bits, asize, n) && forall k :: 0 <= k < |oprs| ==> Usable(bits, oprs[k], n)
    decreases |oprs|
  {
    NamedIs(bits, asize, n);
    hide ModeSizes, Named, Usable, OperandSizes;
    if oprs != [] {
      var h, o := oprs[..|oprs| - 1], oprs[|oprs| - 1];
      CommonAre(bits, asize, h, n);
      if n in ALL { UsableIs(bits, o, n); }
      forall k | 0 <= k < |h| ensures h[k] == oprs[k] {}
      if n in CommonSizes(bits, asize, h) && n in OperandSizes(bits, o) {
        forall k | 0 <= k < |oprs| ensures Usable(bits, oprs[k], n) {
          if k < |h| { assert Usable(bits, h[k], n); }
        }
      }
    }
  }

  // The mode's own size is chosen where it is possible, else the other one where that is.
  lemma ChosenIs(bits: int, asize: int, oprs: seq<Operand>)
    requires bits == 16 || bits == 32 || bits == 64
    ensures var own, other := Machine.AddressSize(bits, false), Machine.AddressSize(bits, true);
            var c := Chosen(bits, CommonSizes(bits, asize, oprs));
            (c == Some(own) <==> Named(bits, asize, own) && forall k :: 0 <= k < |oprs| ==> Usable(bits, oprs[k], own)) &&
            (c.Some? && c != Some(own) ==> c == Some(other)) &&
            (c.None? ==> !(Named(bits, asize, other) && forall k :: 0 <= k < |oprs| ==> Usable(bits, oprs[k], other)))
  {
    var own, other := Machine.AddressSize(bits, false), Machine.AddressSize(bits, true);
    assert own == bits && other == Other(bits) != own;
    CommonAre(bits, asize, oprs, own);
    CommonAre(bits, asize, oprs, other);
    hide Named, Usable, CommonSizes;
  }
}
