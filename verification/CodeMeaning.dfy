// sdk/as/assemble.c: what the bytes that gencode emits for each code tell the processor,
// once the linker has filled in the addresses.
module CodeMeaning {
  import opened Base
  import opened Powers
  import opened Operands
  import opened ByteCode
  import opened EffectiveAddress
  import opened CodeSize
  import opened CodeGen
  import opened Machine
  import CodeLength

  // ----- Linking -----

  // Where the linker puts things: the address that stands for a segment as seen from
  // another one, and the address of the segment being assembled.
  datatype Layout = Layout(place: (int, int) -> int, here: int)

  // A number without a segment stays as it is.
  ghost predicate KeepsNumbers(l: Layout) { forall wrt :: l.place(NO_SEG, wrt) == 0 }

  // The bytes that c has in memory, at offset at of the segment.
  ghost predicate Loaded(l: Layout, at: int, c: Chunk, bytes: seq<int>) {
    |bytes| == c.Size() &&
    match c
    case Raw(b) => bytes == b
    case Address(v, n, segment, wrt) => AreBytes(bytes) && Unsigned(bytes) == (v + l.place(segment, wrt)) % Span(n)
    case Relative(v, n, distance, segment, wrt) =>
      AreBytes(bytes) && Unsigned(bytes) == (v + l.place(segment, wrt) - (l.here + at + distance)) % Span(n)
    case Space(n) => true
  }

  ghost predicate InMemory(l: Layout, at: int, cs: seq<Chunk>, bytes: seq<int>)
    decreases |cs|
  {
    if cs == [] then bytes == []
    else
      var n := cs[0].Size();
      n <= |bytes| && Loaded(l, at, cs[0], bytes[..n]) && InMemory(l, at + n, cs[1..], bytes[n..])
  }

  // The number an operand stands for, and the address of a jump target.
  function ValueOf(l: Layout, o: Operand): int { o.offset + l.place(o.segment, o.wrt) }

  function TargetOf(l: Layout, w: Where, o: Operand): int {
    if o.segment == w.segment then l.here + o.offset else ValueOf(l, o)
  }

  // ----- The codes, by their octal digits -----

  datatype Width = Bytes(n: nat) | BySize | ByAddress

  datatype Role =
    | OpcodeBytes | OpcodeWithRegister | Value(width: Width) | Jump(width: Width) | Selector
    | ShortImmediate(n: nat) | ShortOpcode(n: nat)
    | NibblePair | NibbleConstant | NibbleRegister | VexPrefix | AddressBytes
    | AddressSizeIs(bits: int) | OperandSizeIs(bits: int) | ConditionOpcode | PrefixOpcode(prefix: LegacyPrefix) | LockAsR
    | ReservedSpace | PushPopOld(pop: int) | PushPopNew(pop: int) | OverJump | NoBytes | NoRole

  function RoleOf(c: int): Role {
    var a, b, d := c / 64, c / 8 % 8, c % 8;
    if a == 0 then RoleLow(b, d)
    else if a == 1 then
      if b < 4 then (if d < 4 then AddressBytes else NoRole)
      else if b == 4 then (if d < 4 then ShortImmediate(2) else ShortOpcode(2))
      else if b == 5 then (if d < 4 then ShortImmediate(4) else ShortOpcode(4))
      else if b == 7 && d == 2 then NibblePair
      else if b == 7 && d == 3 then NibbleConstant
      else if b == 7 && d == 4 then NibbleRegister
      else NoRole
    else if a == 2 then
      if b < 4 then AddressBytes
      else if b == 5 then (if d < 4 then ShortImmediate(4) else Value(Bytes(4)))
      else if (b == 6 && d < 4) || (b == 7 && d == 0) then VexPrefix
      else if b == 7 && d >= 4 then Value(Bytes(1))
      else NoRole
    else if a == 3 then RoleHigh(b, d)
    else NoRole
  }

  function RoleLow(b: int, d: int): Role {
    if b == 0 then (if d == 0 then NoRole else if d <= 4 then OpcodeBytes else NoBytes)
    else if b == 1 && d < 4 then OpcodeWithRegister
    else if b <= 2 then Value(Bytes(1))
    else if b == 3 then (if d < 4 then Value(Bytes(2)) else Value(BySize))
    else if b == 4 then (if d < 4 then Value(Bytes(4)) else Value(ByAddress))
    else if b == 5 then (if d < 4 then Jump(Bytes(1)) else Value(Bytes(8)))
    else if b == 6 then (if d < 4 then Jump(Bytes(2)) else Jump(BySize))
    else if d < 4 then Jump(Bytes(4))
    else Selector
  }

  function RoleHigh(b: int, d: int): Role {
    if b == 0 then (if d < 4 then NoBytes else NoRole)
    else if b == 1 then (if d == 0 then AddressSizeIs(16) else if d == 1 then AddressSizeIs(32) else NoBytes)
    else if b == 2 then
      if d == 0 then OperandSizeIs(16) else if d == 1 then OperandSizeIs(32) else if d < 6 then NoBytes else NoRole
    else if b == 3 then
      if d == 0 then ConditionOpcode
      else if d == 2 then PrefixOpcode(RepeatNe)
      else if d == 3 then PrefixOpcode(Repeat)
      else if d == 4 then LockAsR
      else NoBytes
    else if b == 4 then
      if d == 0 then ReservedSpace else if d == 1 then NoBytes
      else if d == 4 || d == 5 then PushPopOld(d - 4)
      else if d == 6 || d == 7 then PushPopNew(d - 6)
      else NoRole
    else if b == 6 then
      if d == 1 || d == 6 then PrefixOpcode(OperandSizePrefix)
      else if d == 2 then PrefixOpcode(RepeatNe)
      else if d == 3 then PrefixOpcode(Repeat)
      else if d == 7 then PrefixOpcode(AddressSizePrefix)
      else NoBytes
    else if b == 7 && d < 3 then NoBytes
    else if b == 7 && d == 3 then OverJump
    else NoRole
  }

  // A size named with the operand, else the mode's. Only a jump can name 64 bits.
  function WidthOf(e: Env, o: Operand, width: Width, jump: bool): nat {
    match width
    case Bytes(n) => n
    case ByAddress => e.addrSize / 8
    case BySize =>
      if Has(o.flags, BITS16) then 2
      else if Has(o.flags, BITS32) || (jump && Has(o.flags, BITS64)) || e.bits != 16 then 4
      else 2
  }

  // ----- What the bytes say -----

  // n bytes hold x.
  ghost predicate Holds(bytes: seq<int>, n: nat, x: int) {
    |bytes| == n && AreBytes(bytes) && Unsigned(bytes) == x % Span(n)
  }

  // A displacement of n bytes leads from the end of the instruction to x.
  ghost predicate LeadsTo(bytes: seq<int>, n: nat, end: int, x: int) {
    |bytes| == n && AreBytes(bytes) && n > 0 &&
    (end + Signed(bytes) - x) % Span(n) == 0 &&
    (-Span(n) / 2 <= x - end < Span(n) / 2 ==> end + Signed(bytes) == x)
  }

  // The operand is a number already known, no size was insisted on, and a byte that the
  // processor sign-extends to n bytes can stand for it.
  ghost predicate ShortEnough(e: Env, o: Operand, n: nat) {
    o.segment == NO_SEG && o.wrt == NO_SEG && !o.unknown && e.optimizing >= 0 && !Has(o.flags, STRICT) &&
    exists b :: -128 <= b <= 127 && IsExtended(b, o.offset, n)
  }

  predicate IsExtended(b: int, x: int, n: nat) { (b - x) % Span(n) == 0 }

  // The conditions as the source numbers them: a, ae, b, be, c, e, g, ge, l, le, na, nae, nb,
  // nbe, nc, ne, ng, nge, nl, nle, no, np, ns, nz, o, p, pe, po, s, z.
  const CONDITIONS := [
    Above, AboveOrEqual, Below, BelowOrEqual, Carry, Equal, Greater, GreaterOrEqual, Less, LessOrEqual,
    Not(Above), Not(AboveOrEqual), Not(Below), Not(BelowOrEqual), Not(Carry), Not(Equal), Not(Greater), Not(GreaterOrEqual),
    Not(Less), Not(LessOrEqual), Not(Overflow), Not(Parity), Not(Sign), Not(Zero),
    Overflow, Parity, ParityEven, ParityOdd, Sign, Zero]

  // The number of a segment register, as the processor counts them.
  function SegmentNumber(o: Operand): int {
    match IdOf(o.basereg)
    case 57 => 0
    case 27 => 1
    case 116 => 2
    case 49 => 3
    case 60 => 4
    case 61 => 5
    case _ => -1
  }

  // The address bytes: ModRM, SIB and the displacement, relative to the end of the
  // instruction where the processor takes it so.
  ghost predicate HoldsAddress(l: Layout, w: Where, o: Operand, ea: Ea, bytes: seq<int>) {
    var s := if ea.sibPresent then 2 else 1;
    |bytes| == ea.Size() && bytes[0] == ea.modrm % 0x100 && (ea.sibPresent ==> bytes[1] == ea.sib % 0x100) &&
    if ea.rip then LeadsTo(bytes[s..], 4, l.here + w.end, TargetOf(l, w, o))
    else Holds(bytes[s..], ea.bytes, ValueOf(l, o))
  }

  // A register number in the high half of a byte.
  predicate HoldsNibbles(bytes: seq<int>, r: Option<Reg>, low: int) {
    r.Some? && |bytes| == 1 && 0 <= bytes[0] < 0x100 && bytes[0] / 16 == r.value.val % 16 && bytes[0] % 16 == low
  }

  // The condition field tests for that condition, or for its negation, whatever the flags.
  ghost predicate Tests(field: nat, test: Test, negated: bool) {
    forall s :: Taken(field, s) == (Passes(test, s) != negated)
  }

  ghost predicate Says(e: Env, w: Where, f: Fields, l: Layout, t: Instr, bytes: seq<int>)
    requires |t.args| == Arguments(t.c)
  {
    var o := Opr(e, t.op1);
    match RoleOf(t.c)
    case OpcodeBytes => bytes == t.args
    case OpcodeWithRegister =>
      o.basereg.Some? && |bytes| == 1 &&
      (|t.args| == 1 && 0 <= t.args[0] < 0x100 && t.args[0] % 8 == 0 ==>
         bytes[0] / 8 == t.args[0] / 8 && bytes[0] % 8 == o.basereg.value.val % 8)
    case Value(width) => Holds(bytes, WidthOf(e, o, width, false), ValueOf(l, o))
    case Jump(width) => LeadsTo(bytes, WidthOf(e, o, width, true), l.here + w.end, TargetOf(l, w, o))
    case Selector => Holds(bytes, 2, l.place(w.segbase(1 + o.segment), o.wrt))
    case ShortImmediate(n) =>
      if ShortEnough(e, o, n) then |bytes| == 1 && AreBytes(bytes) && IsExtended(Signed(bytes), ValueOf(l, o), n)
      else Holds(bytes, n, ValueOf(l, o))
    case ShortOpcode(n) =>
      |t.args| == 1 && |bytes| == 1 &&
      (0 <= t.args[0] < 0x100 && t.args[0] / 2 % 2 == 0 ==>
         bytes[0] / 4 == t.args[0] / 4 && bytes[0] % 2 == t.args[0] % 2 && (bytes[0] / 2 % 2 == 1 <==> ShortEnough(e, o, n)))
    case NibblePair =>
      |t.args| == 1 &&
      var v := Opr(e, Number(t.args[0] % 8));
      HoldsNibbles(bytes, Opr(e, Number(t.args[0] / 8)).basereg, if v.segment == NO_SEG == v.wrt then v.offset % 16 else 0)
    case NibbleConstant =>
      |t.args| == 1 && HoldsNibbles(bytes, Opr(e, Number(t.args[0] / 16)).basereg, t.args[0] % 16)
    case NibbleRegister =>
      |t.args| == 1 && HoldsNibbles(bytes, Opr(e, Number(t.args[0])).basereg, 0)
    case VexPrefix =>
      (|bytes| == 2 || |bytes| == 3) && AreBytes(bytes) &&
      bytes[0] == (if |bytes| == 2 then 0xc5 else if f.vexCm / 64 != 0 then 0x8f else 0xc4) &&
      DecodeVex(bytes) == PrefixFields(f.rex.w, f.rex.r, f.rex.x, f.rex.b, f.vexCm % 32, f.drexdst % 16) &&
      bytes[|bytes| - 1] % 8 == f.vexWlp % 8
    case AddressBytes => var ea := EaFor(e, t); ea.Some? && HoldsAddress(l, w, Opr(e, t.op2), ea.value, bytes)
    case AddressSizeIs(n) =>
      (bytes == [] || (|bytes| == 1 && DecodePrefix(bytes[0]) == Some(AddressSizePrefix))) &&
      ((e.bits == 16 || e.bits == 32 || e.bits == 64) && !(n == 16 && e.bits == 64) ==>
         if f.prefixes.asize == (if n == 16 then P_A16 else P_A32) then bytes == []
         else AddressSize(e.bits, bytes != []) == n)
    case OperandSizeIs(n) =>
      (bytes == [] || (|bytes| == 1 && DecodePrefix(bytes[0]) == Some(OperandSizePrefix))) &&
      if f.prefixes.osize == (if n == 16 then P_O16 else P_O32) then bytes == []
      else OperandSize(e.bits, bytes != []) == n
    case ConditionOpcode =>
      |t.args| == 1 && |bytes| == 1 &&
      (0 <= t.args[0] < 0x100 && t.args[0] % 16 < 2 && e.condition < |CONDITIONS| ==>
         bytes[0] / 16 == t.args[0] / 16 && Tests(Number(bytes[0] % 16), CONDITIONS[e.condition], t.args[0] % 16 == 1))
    case PrefixOpcode(p) => |bytes| == 1 && DecodePrefix(bytes[0]) == Some(p)
    case LockAsR => if f.rex.r then |bytes| == 1 && DecodePrefix(bytes[0]) == Some(Lock) else bytes == []
    case ReservedSpace => |bytes| == (if Opr(e, 0).offset > 0 then Opr(e, 0).offset else 0)
    case PushPopOld(pop) =>
      |bytes| == 1 && 0 <= SegmentNumber(Opr(e, 0)) < 4 && bytes[0] == 8 * SegmentNumber(Opr(e, 0)) + 6 + pop
    case PushPopNew(pop) =>
      |bytes| == 1 && 4 <= SegmentNumber(Opr(e, 0)) < 6 && bytes[0] == 0x80 + 8 * SegmentNumber(Opr(e, 0)) + pop
    case OverJump => bytes == [if e.bits == 16 then 3 else 5]
    case NoBytes => bytes == []
    case NoRole => false
  }

  // ----- Proofs -----

  // Which codes the passes treat alike: what they do for a kind is what its role says.
  predicate SameRole(k: Kind, c: int, r: Role) {
    match r
    case OpcodeBytes => k.Literal?
    case OpcodeWithRegister => k.PlusReg?
    case Value(x) =>
      k == (match x
            case Bytes(n) => if n == 1 then ImmByte else if n == 2 then ImmWord else if n == 4 then ImmDword else ImmQword
            case BySize => ImmSized
            case ByAddress => ImmAddress) && (x.Bytes? ==> x.n in {1, 2, 4, 8})
    case Jump(x) =>
      k == (match x
            case Bytes(n) => if n == 1 then RelByte else if n == 2 then RelWord else RelDword
            case BySize => RelSized
            case ByAddress => Unknown) && !x.ByAddress? && (x.Bytes? ==> x.n in {1, 2, 4})
    case Selector => k.FarSegment?
    case ShortImmediate(n) => (n == 2 || n == 4) && k == if n == 2 then SignedWord else SignedDword
    case ShortOpcode(n) => (n == 2 || n == 4) && k == if n == 2 then SignedWordOpcode else SignedDwordOpcode
    case NibblePair => k.RegImm?
    case NibbleConstant => k.RegConst?
    case NibbleRegister => k.RegOnly?
    case VexPrefix => k.Vex? || k.VexNone?
    case AddressBytes => k.ModRm?
    case AddressSizeIs(n) => (n == 16 && k.Addr16?) || (n == 32 && k.Addr32?)
    case OperandSizeIs(n) => (n == 16 && k.Op16?) || (n == 32 && k.Op32?)
    case ConditionOpcode => k.Condition?
    case PrefixOpcode(p) => k.Fixed? && DecodePrefix(FixedByte(c)) == Some(p)
    case LockAsR => k.LockR?
    case ReservedSpace => k.Reserve?
    case PushPopOld(p) => k.PushPop? && p == c % 2
    case PushPopNew(p) => k.PushPopFsGs? && p == c % 2
    case OverJump => k.RelJump?
    case NoBytes => k.Extend? || k.Silent? || k.Addr64? || k.NoRexW? || k.RexW? || k.NoHigh? || k.Rep? || k.RepNe? || k.Wait?
    case NoRole => k.Unknown?
  }

  lemma RoleLowIsKind(c: int)
    requires 0 <= c < 0x40
    ensures SameRole(LowKind(c), c, RoleLow(c / 8, c % 8))
  {
    hide FixedByte, DecodePrefix;
  }

  lemma RoleHighIsKind(c: int)
    requires 0xc0 <= c < 0x100
    ensures SameRole(HighKind(c), c, RoleHigh(c / 8 % 8, c % 8))
  {
    FixedBytes(c);
    hide FixedByte, DecodePrefix;
    assert c < 0xd8 || 0xd8 <= c < 0xe0 || 0xe0 <= c < 0xf0 || 0xf0 <= c;
  }

  lemma FixedBytes(c: int)
    ensures DecodePrefix(FixedByte(0xda)) == DecodePrefix(FixedByte(0xf2)) == Some(RepeatNe)
    ensures DecodePrefix(FixedByte(0xdb)) == DecodePrefix(FixedByte(0xf3)) == Some(Repeat)
    ensures DecodePrefix(FixedByte(0xf1)) == DecodePrefix(FixedByte(0xf6)) == Some(OperandSizePrefix)
    ensures DecodePrefix(FixedByte(0xf7)) == Some(AddressSizePrefix)
  {}

  lemma RoleMiddleIsKind(c: int)
    requires 0x40 <= c < 0x80
    ensures SameRole(KindOf(c), c, RoleOf(c))
  {
    assert c / 64 == 1 && c / 8 % 8 == c / 8 - 8;
    assert c < 0x60 || 0x60 <= c < 0x70 || 0x70 <= c;
    hide FixedByte, DecodePrefix, LowKind, HighKind, RoleLow, RoleHigh;
  }

  lemma RoleUpperIsKind(c: int)
    requires 0x80 <= c < 0xc0
    ensures SameRole(KindOf(c), c, RoleOf(c))
  {
    assert c / 64 == 2 && c / 8 % 8 == c / 8 - 16;
    assert c < 0xa0 || 0xa0 <= c < 0xb0 || 0xb0 <= c;
    hide FixedByte, DecodePrefix, LowKind, HighKind, RoleLow, RoleHigh;
  }

  lemma RoleOutside(c: int)
    requires c < 0 || 0x100 <= c
    ensures SameRole(KindOf(c), c, RoleOf(c))
  {
    assert c / 64 < 0 || c / 64 >= 4;
    assert KindOf(c).Unknown?;
    hide SameRole, RoleLow, RoleHigh;
  }

  lemma RoleEnds(c: int)
    ensures 0 <= c < 0x40 ==> RoleOf(c) == RoleLow(c / 8, c % 8) && KindOf(c) == LowKind(c)
    ensures 0xc0 <= c < 0x100 ==> RoleOf(c) == RoleHigh(c / 8 % 8, c % 8) && KindOf(c) == HighKind(c)
  {
    hide RoleLow, RoleHigh, LowKind, HighKind;
    assert 0 <= c < 0x40 ==> c / 64 == 0 && c / 8 % 8 == c / 8;
    assert 0xc0 <= c < 0x100 ==> c / 64 == 3;
  }

  lemma RoleIsKind(c: int)
    ensures SameRole(KindOf(c), c, RoleOf(c))
  {
    hide *;
    RoleEnds(c);
    if c < 0 || 0x100 <= c {
      RoleOutside(c);
    } else if c < 0x40 {
      RoleLowIsKind(c);
    } else if c < 0x80 {
      RoleMiddleIsKind(c);
    } else if c < 0xc0 {
      RoleUpperIsKind(c);
    } else {
      RoleHighIsKind(c);
    }
  }

  // How many bytes of the template follow a code.
  lemma ArgumentsByRole(c: int)
    ensures Arguments(c) == match RoleOf(c)
                            case OpcodeBytes => c
                            case OpcodeWithRegister => 1
                            case ShortOpcode(_) => 1
                            case NibblePair => 1
                            case NibbleConstant => 1
                            case NibbleRegister => 1
                            case ConditionOpcode => 1
                            case VexPrefix => 2
                            case _ => 0
  {
    RoleIsKind(c);
    assert RoleOf(c).OpcodeBytes? ==> 1 <= c <= 4;
    hide RoleOf, KindOf, DecodePrefix, FixedByte;
  }

  // A code names its operands by two digits. The codes 05, 06 and 07 in front of it add four
  // to the first, the second or both.
  lemma OperandNumbers(codes: seq<int>, i: nat)
    requires Terminated(codes, i) && 5 <= codes[i] <= 7
    ensures i + 1 < |codes| && Terminated(codes, i + 1)
    ensures codes[i + 1] != 0 ==>
      var c, ts := codes[i + 1], Parse(codes, i, 0);
      |ts| >= 2 && ts[0].op1 == codes[i] % 4 && ts[0].op2 == 0 && ts[1].c == c &&
      ts[1].op1 == c % 4 + (if codes[i] == 6 then 0 else 4) && ts[1].op2 == c / 8 % 4 + (if codes[i] == 5 then 0 else 4)
  {
    assert KindOf(codes[i]).Extend?;
    assert Arguments(codes[i]) == 0;
    hide KindOf, Arguments;
    var ts := Parse(codes, i, 0);
    assert ts == [InstrAt(codes, i, 0)] + Parse(codes, i + 1, codes[i]);
    if codes[i + 1] != 0 {
      assert Parse(codes, i + 1, codes[i])[0] == InstrAt(codes, i + 1, codes[i]);
    }
  }

  // ----- Numbers and addresses -----

  lemma {:induction false} LittleEndianReads(v: int, n: nat)
    ensures AreBytes(LittleEndian(v, n)) && Unsigned(LittleEndian(v, n)) == v % Span(n)
    decreases n
  {
    if n > 0 {
      LittleEndianReads(v / 0x100, n - 1);
      var s := Span(n - 1);
      var q, r := v / 0x100 / s, v / 0x100 % s;
      assert v / 0x100 == q * s + r;
      assert v == q * (0x100 * s) + (0x100 * r + v % 0x100) by { MulAssoc(q, 0x100, s); MulDistrib(q * s, r, 0x100); }
      DivModUnique(v, 0x100 * s, q, 0x100 * r + v % 0x100);
    }
  }

  lemma OneInMemory(l: Layout, at: int, c: Chunk, bytes: seq<int>)
    requires InMemory(l, at, [c], bytes)
    ensures Loaded(l, at, c, bytes)
  {
    assert bytes[..c.Size()] == bytes;
  }

  lemma AddressLoaded(l: Layout, at: int, o: Operand, n: nat, bytes: seq<int>)
    requires KeepsNumbers(l) && Loaded(l, at, OutAddress(o.offset, n, o.segment, o.wrt), bytes)
    ensures Holds(bytes, n, ValueOf(l, o))
  {
    LittleEndianReads(o.offset, n);
    assert l.place(NO_SEG, NO_SEG) == 0;
    hide LittleEndian, AreBytes, Unsigned, Span;
  }

  lemma ByteLoaded(l: Layout, at: int, b: int, bytes: seq<int>)
    requires InMemory(l, at, OneByte(b).chunks, bytes)
    ensures bytes == [b % 0x100] && Holds(bytes, 1, b)
  {
    OneInMemory(l, at, Raw([b % 0x100]), bytes);
    assert Unsigned([b % 0x100]) == b % 0x100;
  }

  lemma ImmediateSays(l: Layout, at: int, o: Operand, n: nat, bytes: seq<int>)
    requires KeepsNumbers(l) && InMemory(l, at, Immediate(o, n).chunks, bytes)
    ensures Holds(bytes, n, ValueOf(l, o))
  {
    OneInMemory(l, at, OutAddress(o.offset, n, o.segment, o.wrt), bytes);
    AddressLoaded(l, at, o, n, bytes);
  }

  lemma ImmediateByteSays(l: Layout, at: int, o: Operand, bytes: seq<int>)
    requires KeepsNumbers(l) && InMemory(l, at, ImmediateByte(o).chunks, bytes)
    ensures Holds(bytes, 1, ValueOf(l, o))
  {
    if o.segment != NO_SEG {
      ImmediateSays(l, at, o, 1, bytes);
    } else {
      ByteLoaded(l, at, o.offset, bytes);
      assert ValueOf(l, o) == o.offset;
    }
  }

  // A displacement that is the target less the end of the instruction leads to the target.
  lemma Leads(bytes: seq<int>, n: nat, end: int, x: int)
    requires n > 0 && Holds(bytes, n, x - end)
    ensures LeadsTo(bytes, n, end, x)
  {
    var s := Span(n);
    assert Unsigned(bytes) == (x - end) % s;
    hide Span, Unsigned, Signed;
    Remainder(x - end, s);
    SignedIs(bytes, x - end);
  }

  lemma Remainder(x: int, s: int)
    requires s > 0
    ensures (x % s - x) % s == 0
  {
    var q := x / s;
    assert x == s * q + x % s;
    MulDistrib(-q, 0, s);
    DivModUnique(x % s - x, s, -q, 0);
  }

  lemma JumpSays(l: Layout, w: Where, at: int, o: Operand, n: nat, bytes: seq<int>)
    requires n > 0 && KeepsNumbers(l) && InMemory(l, at, JumpTarget(o, n, w, at).chunks, bytes)
    ensures LeadsTo(bytes, n, l.here + w.end, TargetOf(l, w, o))
  {
    var c := JumpTarget(o, n, w, at).chunks[0];
    OneInMemory(l, at, c, bytes);
    RelativeLoaded(l, w, at, o, n, c, bytes);
    Leads(bytes, n, l.here + w.end, TargetOf(l, w, o));
  }

  lemma RelativeLoaded(l: Layout, w: Where, at: int, o: Operand, n: nat, c: Chunk, bytes: seq<int>)
    requires c == if o.segment == w.segment then OutAddress(o.offset - w.end, n, NO_SEG, NO_SEG)
                  else Relative(o.offset, n, w.end - at, o.segment, o.wrt)
    requires Loaded(l, at, c, bytes)
    ensures Holds(bytes, n, TargetOf(l, w, o) - (l.here + w.end))
  {
    LittleEndianReads(o.offset - w.end, n);
    hide LittleEndian, AreBytes, Unsigned, Span;
  }

  // ----- Short immediates -----

  lemma ShortIs(e: Env, o: Operand)
    ensures ShortEnough(e, o, 2) <==> IsSbyte16(e, o)
    ensures ShortEnough(e, o, 4) <==> IsSbyte32(e, o)
  {
    assert Span(2) == TWO_16 && Span(4) == TWO_32;
    ExtendedIs(o.offset, 2);
    ExtendedIs(o.offset, 4);
    hide Span, IsExtended, Has;
  }

  lemma ExtendedIs(x: int, n: nat)
    requires n == 2 || n == 4
    ensures var s := if n == 2 then TWO_16 else TWO_32;
            (exists b :: -128 <= b <= 127 && IsExtended(b, x, n)) <==> -128 <= Wrap(x, s) <= 127
  {
    var s := if n == 2 then TWO_16 else TWO_32;
    assert Span(n) == s;
    if -128 <= Wrap(x, s) <= 127 {
      NarrowFits(x, s);
      assert IsExtended(Wrap(x, s), x, n);
    }
    if b :| -128 <= b <= 127 && IsExtended(b, x, n) {
      ExtendedWraps(b, x, s);
    }
  }

  lemma ExtendedWraps(b: int, x: int, s: int)
    requires -128 <= b <= 127 && (s == TWO_16 || s == TWO_32) && (b - x) % s == 0
    ensures Wrap(x, s) == b
  {
    var k := (b - x) / s;
    assert x == b - k * s;
    if b >= 0 { DivModUnique(x, s, -k, b); } else { DivModUnique(x, s, -k - 1, b + s); }
  }

  lemma ShortSays(l: Layout, at: int, o: Operand, n: nat, bytes: seq<int>)
    requires n == 2 || n == 4
    requires -128 <= Wrap(o.offset, if n == 2 then TWO_16 else TWO_32) <= 127
    requires InMemory(l, at, OneByte(o.offset).chunks, bytes)
    ensures |bytes| == 1 && AreBytes(bytes) && IsExtended(Signed(bytes), o.offset, n)
  {
    var s := if n == 2 then TWO_16 else TWO_32;
    var off := Wrap(o.offset, s);
    ByteLoaded(l, at, o.offset, bytes);
    ByteFits(o.offset, off, s);
    NarrowFits(o.offset, s);
    assert Span(1) == 0x100 && Span(n) == s;
    assert Unsigned(bytes) == o.offset % 0x100;
    assert Signed(bytes) == Wrap(o.offset, 0x100);
    hide Wrap;
  }

  lemma SBitSays(b: int, short: bool)
    requires 0 <= b < 0x100 && b / 2 % 2 == 0
    ensures var r := SBit(b, short) % 0x100; r / 4 == b / 4 && r % 2 == b % 2 && (r / 2 % 2 == 1 <==> short)
  {}

  // ----- Conditions -----

  lemma {:induction false} XorNothing(a: nat, bits: nat)
    ensures Xor(a, 0, bits) == a % Pow2(bits)
  {
    if bits > 0 {
      XorNothing(a / 2, bits - 1);
      DivDiv(a, 2, Pow2(bits - 1));
    }
  }

  lemma XorNibble(h: nat, b: nat, v: nat)
    requires h < 16 && b < 2 && v < 16
    ensures Xor(16 * h + b, v, 8) == 16 * h + if b == 0 then v else if v % 2 == 1 then v - 1 else v + 1
  {
    hide *;
    Pow2Literals();
    XorNothing(h, 4);
    XorDouble(h, v / 8, 4);
    XorDouble(2 * h, v / 4, 5);
    XorDouble(4 * h, v / 2, 6);
    XorStep(16 * h + b, v, 8);
    Halves(v);
    Halving(h, b);
    assert Xor(8 * h, v / 2, 7) == 8 * h + v / 2;
  }

  lemma Halves(v: nat)
    requires v < 16
    ensures v / 8 / 2 == 0 && v / 4 / 2 == v / 8 && v / 2 / 2 == v / 4
    ensures v / 8 == v / 8 % 2 && v / 4 == 2 * (v / 8) + v / 4 % 2 && v / 2 == 2 * (v / 4) + v / 2 % 2
    ensures v == 2 * (v / 2) + v % 2
  {}

  lemma Halving(h: nat, b: nat)
    requires b < 2
    ensures (16 * h + b) / 2 == 2 * (4 * h) && (16 * h + b) % 2 == b
  {}

  lemma XorDouble(a: nat, v: nat, bits: nat)
    ensures Xor(2 * a, v, bits + 1) == 2 * Xor(a, v / 2, bits) + v % 2
  {}

  lemma XorStep(a: nat, b: nat, bits: nat)
    requires bits > 0
    ensures Xor(a, b, bits) == 2 * Xor(a / 2, b / 2, bits - 1) + if a % 2 != b % 2 then 1 else 0
  {}

  lemma ConditionNamed(i: nat, s: Flags)
    requires i < |CONDITIONS|
    ensures |CONDVAL| == |CONDITIONS| && CONDVAL[i] < 16 && Taken(CONDVAL[i], s) == Passes(CONDITIONS[i], s)
  {
    Fields(s);
    ConditionCount();
    hide *;
    if i < 10 { FirstConditions(i, s); } else if i < 20 { MiddleConditions(i, s); } else { LastConditions(i, s); }
  }

  lemma FirstConditions(i: nat, s: Flags)
    requires 0 <= i < 10
    requires FieldsAre(s)
    ensures |CONDVAL| == |CONDITIONS| == 30 && CONDVAL[i] < 16 && Taken(CONDVAL[i], s) == Passes(CONDITIONS[i], s)
  {
    hide Taken;
  }

  lemma MiddleConditions(i: nat, s: Flags)
    requires 10 <= i < 20
    requires FieldsAre(s)
    ensures |CONDVAL| == |CONDITIONS| == 30 && CONDVAL[i] < 16 && Taken(CONDVAL[i], s) == Passes(CONDITIONS[i], s)
  {
    hide Taken;
  }

  lemma LastConditions(i: nat, s: Flags)
    requires 20 <= i < 30
    requires FieldsAre(s)
    ensures |CONDVAL| == |CONDITIONS| == 30 && CONDVAL[i] < 16 && Taken(CONDVAL[i], s) == Passes(CONDITIONS[i], s)
  {
    hide Taken;
  }

  // The condition fields, one by one.
  predicate FieldsAre(s: Flags) {
    Taken(0, s) == s.overflow && Taken(1, s) == !s.overflow && Taken(2, s) == s.carry && Taken(3, s) == !s.carry &&
    Taken(4, s) == s.zero && Taken(5, s) == !s.zero && Taken(6, s) == (s.carry || s.zero) && Taken(7, s) == !(s.carry || s.zero) &&
    Taken(8, s) == s.sign && Taken(9, s) == !s.sign && Taken(10, s) == s.parity && Taken(11, s) == !s.parity &&
    Taken(12, s) == (s.sign != s.overflow) && Taken(13, s) == (s.sign == s.overflow) &&
    Taken(14, s) == (s.zero || s.sign != s.overflow) && Taken(15, s) == (!s.zero && s.sign == s.overflow)
  }

  lemma Fields(s: Flags)
    ensures FieldsAre(s)
  {}

  lemma ConditionCount()
    ensures |CONDITIONS| == 30
  {}

  lemma ConditionSays(b: int, condition: nat, s: Flags)
    requires 0 <= b < 0x100 && b % 16 < 2 && condition < |CONDITIONS|
    ensures var r := ConditionByte(b, condition);
            0 <= r < 0x100 && r / 16 == b / 16 && Taken(r % 16, s) == (Passes(CONDITIONS[condition], s) == (b % 16 == 0))
  {
    hide *;
    ConditionNamed(condition, s);
    var v := CONDVAL[condition];
    ConditionByteIs(b, condition);
    XorNibble(b / 16, b % 16, v);
    TakenPairs(v, s);
  }

  lemma ConditionByteIs(b: int, condition: nat)
    requires 0 <= b < 0x100 && condition < |CONDVAL|
    ensures ConditionByte(b, condition) == Xor(b, CONDVAL[condition], 8)
  {
    hide CONDVAL, Xor;
  }

  lemma TakenPairs(v: nat, s: Flags)
    requires v < 16
    ensures Taken(if v % 2 == 1 then v - 1 else v + 1, s) == !Taken(v, s)
  {}

  // ----- Every code -----

  lemma SizedIs(e: Env, o: Operand)
    ensures SizedLength(e, o, BITS16 | BITS32) == WidthOf(e, o, BySize, false)
    ensures SizedLength(e, o, BITS16 | BITS32 | BITS64) == WidthOf(e, o, BySize, true)
  {
    MaskParts(o.flags);
    hide Has;
  }

  lemma MaskParts(f: bv32)
    ensures Has(f, BITS16 | BITS32) <==> Has(f, BITS16) || Has(f, BITS32)
    ensures Has(f, BITS16 | BITS32 | BITS64) <==> Has(f, BITS16) || Has(f, BITS32) || Has(f, BITS64)
  {}

  // The emission of a code for an immediate or a jump target, by its role.
  ghost predicate DataEmission(e: Env, w: Where, at: int, t: Instr, m: Emission) {
    var o := Opr(e, t.op1);
    match RoleOf(t.c)
    case Value(x) => m == (if x == Bytes(1) then ImmediateByte(o) else Immediate(o, WidthOf(e, o, x, false)))
    case Jump(x) => !x.ByAddress? && WidthOf(e, o, x, true) > 0 && m == JumpTarget(o, WidthOf(e, o, x, true), w, at)
    case Selector => m == One(OutAddress(0, 2, w.segbase(1 + o.segment), o.wrt))
    case ShortImmediate(n) => (n == 2 || n == 4) && m == if ShortEnough(e, o, n) then OneByte(o.offset) else Immediate(o, n)
    case ShortOpcode(n) => |t.args| == 1 && m == OneByte(SBit(t.args[0], ShortEnough(e, o, n)))
    case _ => true
  }

  lemma DataEmitted(e: Env, w: Where, f: Fields, at: int, t: Instr)
    requires |t.args| == Arguments(t.c)
    ensures Body(e, w, f, at, t).Some? ==> DataEmission(e, w, at, t, Body(e, w, f, at, t).value)
  {
    RoleIsKind(t.c);
    SizedIs(e, Opr(e, t.op1));
    ShortIs(e, Opr(e, t.op1));
    hide RoleOf, KindOf, Has, SizedLength, IsSbyte16, IsSbyte32, EaFor, EmitEa, VexBytes, OutAddress, Immediate, ImmediateByte, JumpTarget,
      OneByte, One, SBit, RegisterByte, SegmentOpcode, SegmentOpcodeFsGs, FixedByte, ConditionByte, ShortEnough, Reserved, DecodePrefix, FourBits, Prefix;
  }

  lemma DataSays(e: Env, w: Where, f: Fields, l: Layout, at: int, t: Instr, bytes: seq<int>, m: Emission)
    requires |t.args| == Arguments(t.c) && KeepsNumbers(l) && DataEmission(e, w, at, t, m)
    requires RoleOf(t.c).Value? || RoleOf(t.c).Jump? || RoleOf(t.c).Selector? || RoleOf(t.c).ShortImmediate? || RoleOf(t.c).ShortOpcode?
    requires InMemory(l, at, m.chunks, bytes)
    ensures Says(e, w, f, l, t, bytes)
  {
    var o := Opr(e, t.op1);
    ShortIs(e, o);
    hide Opr, RoleOf, WidthOf, InMemory, Immediate, ImmediateByte, JumpTarget, OneByte, Holds, LeadsTo, ShortEnough, TargetOf, ValueOf, SBit, OutAddress,
      AreBytes, Signed, IsExtended, KeepsNumbers;
    match RoleOf(t.c)
    case Value(x) =>
      if x == Bytes(1) {
        ImmediateByteSays(l, at, o, bytes);
        OneWide(e, o);
      } else {
        ImmediateSays(l, at, o, WidthOf(e, o, x, false), bytes);
      }
    case Jump(x) => JumpSays(l, w, at, o, WidthOf(e, o, x, true), bytes);
    case Selector =>
      var s := o.(offset := 0, segment := w.segbase(1 + o.segment));
      OneInMemory(l, at, OutAddress(0, 2, s.segment, s.wrt), bytes);
      AddressLoaded(l, at, s, 2, bytes);
      ZeroValue(l, s);
    case ShortImmediate(n) =>
      if ShortEnough(e, o, n) {
        ShortWrap(e, o, n);
        ShortSays(l, at, o, n, bytes);
        ShortValue(e, l, o, n);
      } else {
        ImmediateSays(l, at, o, n, bytes);
      }
    case ShortOpcode(n) =>
      var b := SBit(t.args[0], ShortEnough(e, o, n));
      ByteLoaded(l, at, b, bytes);
      if 0 <= t.args[0] < 0x100 && t.args[0] / 2 % 2 == 0 { SBitSays(t.args[0], ShortEnough(e, o, n)); }
  }

  lemma OneWide(e: Env, o: Operand)
    ensures WidthOf(e, o, Bytes(1), false) == 1
  {}

  lemma ShortValue(e: Env, l: Layout, o: Operand, n: nat)
    requires KeepsNumbers(l) && ShortEnough(e, o, n)
    ensures ValueOf(l, o) == o.offset
  {
    hide IsExtended;
  }

  lemma ZeroValue(l: Layout, s: Operand)
    ensures s.offset == 0 ==> ValueOf(l, s) == l.place(s.segment, s.wrt)
  {}

  lemma ShortWrap(e: Env, o: Operand, n: nat)
    requires (n == 2 || n == 4) && ShortEnough(e, o, n)
    ensures -128 <= Wrap(o.offset, if n == 2 then TWO_16 else TWO_32) <= 127
  {
    ShortIs(e, o);
    hide ShortEnough, Wrap;
  }

  // The other roles: what is emitted for them.
  ghost predicate OtherEmission(e: Env, w: Where, f: Fields, at: int, t: Instr, m: Emission) {
    var o := Opr(e, t.op1);
    match RoleOf(t.c)
    case OpcodeBytes => m == One(Raw(t.args))
    case OpcodeWithRegister => o.basereg.Some? && |t.args| == 1 && m == OneByte(t.args[0] + o.basereg.value.val % 8)
    case NibblePair =>
      |t.args| == 1 &&
      RegisterByte(Opr(e, Number(t.args[0] / 8)), FourBits(Opr(e, Number(t.args[0] % 8)))) == Some(m)
    case NibbleConstant => |t.args| == 1 && RegisterByte(Opr(e, Number(t.args[0] / 16)), t.args[0] % 16) == Some(m)
    case NibbleRegister => |t.args| == 1 && RegisterByte(Opr(e, Number(t.args[0])), 0) == Some(m)
    case VexPrefix => m == One(Raw(VexBytes(f)))
    case AddressBytes => EaFor(e, t).Some? && m == EmitEa(EaFor(e, t).value, Opr(e, t.op2), w, at)
    case AddressSizeIs(n) =>
      (n == 16 || n == 32) &&
      m == if (if n == 16 then e.bits == 32 && f.prefixes.asize != P_A16 else e.bits != 32 && f.prefixes.asize != P_A32)
           then Prefix(0x67) else NOTHING
    case OperandSizeIs(n) =>
      (n == 16 || n == 32) &&
      m == if (if n == 16 then f.prefixes.osize != P_O16 && e.bits != 16 else f.prefixes.osize != P_O32 && e.bits == 16)
           then Prefix(0x66) else NOTHING
    case ConditionOpcode => |t.args| == 1 && m == OneByte(ConditionByte(t.args[0], e.condition))
    case PrefixOpcode(p) => DecodePrefix(FixedByte(t.c)) == Some(p) && m == OneByte(FixedByte(t.c))
    case LockAsR => m == if f.rex.r then Prefix(0xf0) else NOTHING
    case ReservedSpace => m == Reserved(Opr(e, 0).offset)
    case PushPopOld(pop) => pop == t.c % 2 && SegmentOpcode(Opr(e, 0)) != -1 && m == OneByte(pop + SegmentOpcode(Opr(e, 0)))
    case PushPopNew(pop) => pop == t.c % 2 && SegmentOpcodeFsGs(Opr(e, 0)) != -1 && m == OneByte(pop + SegmentOpcodeFsGs(Opr(e, 0)))
    case OverJump => m == OneByte(if e.bits == 16 then 3 else 5)
    case NoBytes => m == NOTHING
    case NoRole => false
    case _ => true
  }

  lemma OtherEmitted(e: Env, w: Where, f: Fields, at: int, t: Instr)
    requires |t.args| == Arguments(t.c)
    ensures Body(e, w, f, at, t).Some? ==> OtherEmission(e, w, f, at, t, Body(e, w, f, at, t).value)
  {
    RoleIsKind(t.c);
    hide RoleOf, KindOf, Has, SizedLength, IsSbyte16, IsSbyte32, EaFor, EmitEa, VexBytes, OutAddress, Immediate, ImmediateByte, JumpTarget,
      OneByte, One, SBit, RegisterByte, SegmentOpcode, SegmentOpcodeFsGs, FixedByte, ConditionByte, ShortEnough, Reserved, DecodePrefix, FourBits, Prefix;
  }

  lemma NothingLoaded(l: Layout, at: int, bytes: seq<int>)
    requires InMemory(l, at, NOTHING.chunks, bytes)
    ensures bytes == []
  {}

  lemma PrefixLoaded(l: Layout, at: int, b: int, bytes: seq<int>)
    requires InMemory(l, at, Prefix(b).chunks, bytes)
    ensures bytes == [b]
  {
    OneInMemory(l, at, Raw([b]), bytes);
  }

  lemma RegisterOpcodeSays(b: int, v: nat)
    requires 0 <= b < 0x100 && b % 8 == 0
    ensures var r := (b + v % 8) % 0x100; r / 8 == b / 8 && r % 8 == v % 8
  {}

  lemma NibblesSay(l: Layout, at: int, o: Operand, low: int, m: Emission, bytes: seq<int>)
    requires RegisterByte(o, low) == Some(m) && 0 <= low < 16 && InMemory(l, at, m.chunks, bytes)
    ensures HoldsNibbles(bytes, o.basereg, low)
  {
    ByteLoaded(l, at, o.basereg.value.val % 16 * 16 + low, bytes);
  }

  lemma VexSays(f: Fields)
    ensures var bytes := VexBytes(f);
            (|bytes| == 2 || |bytes| == 3) && AreBytes(bytes) &&
            bytes[0] == (if |bytes| == 2 then 0xc5 else if f.vexCm / 64 != 0 then 0x8f else 0xc4) &&
            DecodeVex(bytes) == PrefixFields(f.rex.w, f.rex.r, f.rex.x, f.rex.b, f.vexCm % 32, f.drexdst % 16) &&
            bytes[|bytes| - 1] % 8 == f.vexWlp % 8
  {
    VexDecodes(f);
    assert LongVex(f) ==> VexBytes(f)[0] == if f.vexCm / 64 != 0 then 0x8f else 0xc4;
    assert !LongVex(f) ==> VexBytes(f)[0] == 0xc5;
    assert |VexBytes(f)| == if LongVex(f) then 3 else 2;
    hide VexBytes, DecodeVex, LongVex;
  }

  // The last template byte of a VEX code is 00 wwl lpp. The byte emitted holds W as ww says,
  // 0, 1, 0 again or the instruction's own W, the low bit of ll as L, and pp.
  lemma VexTemplate(ww: nat, ll: nat, pp: nat, w: bool)
    requires ww < 4 && ll < 4 && pp < 4
    ensures var wlp := 16 * ww + 4 * ll + pp;
            VexW(wlp, w) == (ww == 1 || (ww == 3 && w)) && wlp % 8 / 4 == ll % 2 && wlp % 4 == pp
  {}

  // Outside 64-bit mode an accepted VEX instruction names no register above 7, and its second
  // byte starts with two ones, by which the processor tells it from LDS, LES and POP.
  lemma VexOutsideLong(e: Env, f: Fields)
    requires e.bits != 64 && VexAcceptable(e, f) && f.drexdst >= 0
    ensures var d := DecodeVex(VexBytes(f)); !d.r && !d.x && !d.b && 0 <= d.vvvv < 8
    ensures !(f.vexCm / 64 != 0) ==> VexBytes(f)[1] / 0x40 == 3
  {
    VexDecodes(f);
    VexSecond(f);
    hide VexBytes, DecodeVex;
  }

  lemma VexSecond(f: Fields)
    requires !f.rex.r && !f.rex.x && 0 <= f.drexdst <= 7
    ensures VexBytes(f)[1] / 0x40 == 3
  {
    VexMiddle(true, true, !f.rex.b, f.vexCm % 32);
    VexLast(true, f.drexdst % 16, f.vexWlp % 8);
  }

  lemma SizePrefixSays(bits: int, n: int)
    requires n == 16 || n == 32
    ensures DecodePrefix(0x66) == Some(OperandSizePrefix) && DecodePrefix(0x67) == Some(AddressSizePrefix)
    ensures (bits == 16 || bits == 32 || bits == 64) && !(n == 16 && bits == 64) ==>
      AddressSize(bits, if n == 16 then bits == 32 else bits != 32) == n
    ensures OperandSize(bits, if n == 16 then bits != 16 else bits == 16) == n
  {}

  lemma PushPopSays(o: Operand, pop: int)
    requires 0 <= pop < 2
    ensures SegmentOpcode(o) != -1 ==>
      0 <= SegmentNumber(o) < 4 && (pop + SegmentOpcode(o)) % 0x100 == 8 * SegmentNumber(o) + 6 + pop
    ensures SegmentOpcodeFsGs(o) != -1 ==>
      4 <= SegmentNumber(o) < 6 && (pop + SegmentOpcodeFsGs(o)) % 0x100 == 0x80 + 8 * SegmentNumber(o) + pop
  {}

  // The address bytes come in one chunk and the displacement in another.
  lemma AddressSays(l: Layout, w: Where, at: int, o: Operand, ea: Ea, bytes: seq<int>)
    requires KeepsNumbers(l) && (ea.rip ==> ea.bytes == 4) && InMemory(l, at, EmitEa(ea, o, w, at).chunks, bytes)
    ensures HoldsAddress(l, w, o, ea, bytes)
  {
    var head := Raw([ea.modrm % 0x100] + (if ea.sibPresent then [ea.sib % 0x100] else []));
    var s := head.Size();
    var cs := EmitEa(ea, o, w, at).chunks;
    assert cs[0] == head;
    assert bytes[..s] == head.bytes && bytes[0] == bytes[..s][0] && (ea.sibPresent ==> bytes[1] == bytes[..s][1]);
    assert InMemory(l, at + s, cs[1..], bytes[s..]);
    if ea.bytes == 0 {
      assert cs[1..] == [];
      assert bytes[s..] == [];
    } else {
      var c := DisplacementChunk(ea, o, w, at + s);
      assert cs[1..] == [c];
      hide InMemory, Loaded, OutAddress, Holds, LeadsTo, ValueOf, TargetOf;
      OneInMemory(l, at + s, c, bytes[s..]);
      DisplacementSays(l, w, at + s, o, ea, bytes[s..]);
    }
  }

  function DisplacementChunk(ea: Ea, o: Operand, w: Where, at: int): Chunk {
    if !ea.rip then OutAddress(o.offset, ea.bytes, o.segment, o.wrt)
    else if o.segment == w.segment then OutAddress(o.offset - w.end, ea.bytes, NO_SEG, NO_SEG)
    else Relative(o.offset, 4, w.end - at, o.segment, o.wrt)
  }

  lemma DisplacementSays(l: Layout, w: Where, at: int, o: Operand, ea: Ea, bytes: seq<int>)
    requires KeepsNumbers(l) && (ea.rip ==> ea.bytes == 4) && Loaded(l, at, DisplacementChunk(ea, o, w, at), bytes)
    ensures |bytes| == ea.bytes
    ensures if ea.rip then LeadsTo(bytes, 4, l.here + w.end, TargetOf(l, w, o)) else Holds(bytes, ea.bytes, ValueOf(l, o))
  {
    if ea.rip {
      RelativeLoaded(l, w, at, o, 4, DisplacementChunk(ea, o, w, at), bytes);
      Leads(bytes, 4, l.here + w.end, TargetOf(l, w, o));
    } else {
      AddressLoaded(l, at, o, ea.bytes, bytes);
    }
    hide LeadsTo, TargetOf, ValueOf, OutAddress, Unsigned, Span;
  }

  lemma RipIsFour(e: Env, t: Instr)
    requires CodeLength.ValidEnv(e) && EaFor(e, t).Some? && EaFor(e, t).value.rip
    ensures EaFor(e, t).value.bytes == 4
  {
    var opx, opy := Opr(e, t.op1), Opr(e, t.op2);
    hide EaOf, Opr;
    CodeLength.RipBytes(opy, e.bits, e.addrSize, t.c % 8, 0);
    if opx.basereg.Some? {
      CodeLength.RipBytes(opy, e.bits, e.addrSize, opx.basereg.value.val, opx.basereg.value.flags);
    }
  }

  lemma FixedLoaded(l: Layout, at: int, c: int, p: LegacyPrefix, bytes: seq<int>)
    requires DecodePrefix(FixedByte(c)) == Some(p) && InMemory(l, at, OneByte(FixedByte(c)).chunks, bytes)
    ensures |bytes| == 1 && DecodePrefix(bytes[0]) == Some(p)
  {
    ByteLoaded(l, at, FixedByte(c), bytes);
  }

  lemma OtherSays(e: Env, w: Where, f: Fields, l: Layout, at: int, t: Instr, bytes: seq<int>, m: Emission)
    requires |t.args| == Arguments(t.c) && KeepsNumbers(l) && CodeLength.ValidEnv(e) && OtherEmission(e, w, f, at, t, m)
    requires !(RoleOf(t.c).Value? || RoleOf(t.c).Jump? || RoleOf(t.c).Selector? || RoleOf(t.c).ShortImmediate? || RoleOf(t.c).ShortOpcode?)
    requires InMemory(l, at, m.chunks, bytes)
    ensures Says(e, w, f, l, t, bytes)
  {
    hide Tests, Opr, InMemory, OneByte, Prefix, RoleOf, KeepsNumbers, DecodePrefix, FixedByte, AddressSize, OperandSize, HoldsAddress, EmitEa,
      EaFor, VexBytes, DecodeVex, AreBytes, SegmentNumber, SegmentOpcode, SegmentOpcodeFsGs, ConditionByte, Taken, Passes, CONDITIONS,
      RegisterByte, HoldsNibbles, Reserved, CodeLength.ValidEnv;
    match RoleOf(t.c)
    case OpcodeBytes => OneInMemory(l, at, Raw(t.args), bytes);
    case OpcodeWithRegister =>
      var v := Opr(e, t.op1).basereg.value.val;
      ByteLoaded(l, at, t.args[0] + v % 8, bytes);
      if 0 <= t.args[0] < 0x100 && t.args[0] % 8 == 0 { RegisterOpcodeSays(t.args[0], v); }
    case NibblePair =>
      FourBitsIs(Opr(e, Number(t.args[0] % 8)));
      NibblesSay(l, at, Opr(e, Number(t.args[0] / 8)), FourBits(Opr(e, Number(t.args[0] % 8))), m, bytes);
    case NibbleConstant => NibblesSay(l, at, Opr(e, Number(t.args[0] / 16)), t.args[0] % 16, m, bytes);
    case NibbleRegister => NibblesSay(l, at, Opr(e, Number(t.args[0])), 0, m, bytes);
    case VexPrefix =>
      OneInMemory(l, at, Raw(VexBytes(f)), bytes);
      VexSays(f);
    case AddressBytes =>
      if EaFor(e, t).value.rip { RipIsFour(e, t); }
      AddressSays(l, w, at, Opr(e, t.op2), EaFor(e, t).value, bytes);
    case AddressSizeIs(n) =>
      SizePrefixSays(e.bits, n);
      SizePrefixLoaded(l, at, 0x67, m, bytes);
    case OperandSizeIs(n) =>
      SizePrefixSays(e.bits, n);
      SizePrefixLoaded(l, at, 0x66, m, bytes);
    case ConditionOpcode =>
      ByteLoaded(l, at, ConditionByte(t.args[0], e.condition), bytes);
      if 0 <= t.args[0] < 0x100 && t.args[0] % 16 < 2 && e.condition < |CONDITIONS| {
        ConditionTests(t.args[0], e.condition);
      }
    case PrefixOpcode(p) => FixedLoaded(l, at, t.c, p, bytes);
    case LockAsR =>
      SizePrefixLoaded(l, at, 0xf0, m, bytes);
      LockByte();
    case ReservedSpace => SpaceLoaded(l, at, Opr(e, 0).offset, bytes);
    case PushPopOld(pop) =>
      PushPopSays(Opr(e, 0), pop);
      ByteLoaded(l, at, pop + SegmentOpcode(Opr(e, 0)), bytes);
    case PushPopNew(pop) =>
      PushPopSays(Opr(e, 0), pop);
      ByteLoaded(l, at, pop + SegmentOpcodeFsGs(Opr(e, 0)), bytes);
    case OverJump => ByteLoaded(l, at, if e.bits == 16 then 3 else 5, bytes);
    case NoBytes => NothingLoaded(l, at, bytes);
  }

  lemma LockByte()
    ensures DecodePrefix(0xf0) == Some(Lock)
  {}

  lemma FourBitsIs(v: Operand)
    ensures FourBits(v) == (if v.segment == NO_SEG == v.wrt then v.offset % 16 else 0)
  {}

  lemma ConditionTests(b: int, condition: nat)
    requires 0 <= b < 0x100 && b % 16 < 2 && condition < |CONDITIONS|
    ensures var r := ConditionByte(b, condition);
            0 <= r < 0x100 && r / 16 == b / 16 && Tests(Number(r % 16), CONDITIONS[condition], b % 16 == 1)
  {
    hide ConditionByte, CONDITIONS, Taken, Passes;
    var r := ConditionByte(b, condition);
    forall s ensures 0 <= r < 0x100 && r / 16 == b / 16 && Taken(Number(r % 16), s) == (Passes(CONDITIONS[condition], s) != (b % 16 == 1)) {
      ConditionSays(b, condition, s);
    }
    ConditionSays(b, condition, Machine.Flags(false, false, false, false, false));
  }

  lemma SizePrefixLoaded(l: Layout, at: int, b: int, m: Emission, bytes: seq<int>)
    requires InMemory(l, at, m.chunks, bytes)
    ensures m == NOTHING ==> bytes == []
    ensures m == Prefix(b) ==> bytes == [b]
  {
    if m == NOTHING { NothingLoaded(l, at, bytes); }
    if m == Prefix(b) { PrefixLoaded(l, at, b, bytes); }
  }

  lemma SpaceLoaded(l: Layout, at: int, size: int, bytes: seq<int>)
    requires InMemory(l, at, Reserved(size).chunks, bytes)
    ensures |bytes| == if size > 0 then size else 0
  {
    if size > 0 { OneInMemory(l, at, Space(size), bytes); }
  }

  // The bytes of every code say what the code is documented to mean.
  lemma BodySays(e: Env, w: Where, f: Fields, l: Layout, at: int, t: Instr, bytes: seq<int>)
    requires |t.args| == Arguments(t.c) && KeepsNumbers(l) && CodeLength.ValidEnv(e)
    requires Body(e, w, f, at, t).Some? && InMemory(l, at, Body(e, w, f, at, t).value.chunks, bytes)
    ensures Says(e, w, f, l, t, bytes)
  {
    DataEmitted(e, w, f, at, t);
    OtherEmitted(e, w, f, at, t);
    var m, r := Body(e, w, f, at, t).value, RoleOf(t.c);
    hide *;
    if r.Value? || r.Jump? || r.Selector? || r.ShortImmediate? || r.ShortOpcode? {
      DataSays(e, w, f, l, at, t, bytes, m);
    } else {
      OtherSays(e, w, f, l, at, t, bytes, m);
    }
  }

  // ----- The whole instruction -----

  // The bytes of a run, code by code.
  ghost predicate RunSays(e: Env, w: Where, l: Layout, g: Gen, ts: seq<Instr>, bytes: seq<int>)
    requires WellFormed(ts)
    decreases |ts|
  {
    if ts == [] then bytes == []
    else
      var next := GenStep(e, w, g, ts[0]);
      next.Some? &&
      var n := next.value.offset - g.offset;
      0 <= n <= |bytes| && StepSaid(e, w, l, g, ts[0], n, bytes[..n]) && RunSays(e, w, l, next.value, ts[1..], bytes[n..])
  }

  // Space is not reserved backwards.
  predicate ReservesForward(e: Env, ts: seq<Instr>) {
    forall t <- ts :: KindOf(t.c).Reserve? ==> Opr(e, 0).offset >= 0
  }

  lemma AdvanceIs(e: Env, w: Where, f: Fields, at: int, t: Instr)
    requires CodeLength.ValidEnv(e) && |t.args| == Arguments(t.c) && Body(e, w, f, at, t).Some?
    requires KindOf(t.c).Reserve? ==> Opr(e, 0).offset >= 0
    ensures var m := Body(e, w, f, at, t).value; TotalSize(m.chunks) == m.advance
  {
    hide OutAddress, EmitEa, EaFor, SizedLength, IsSbyte16, IsSbyte32, ConditionByte, FixedByte, SBit, FourBits,
      SegmentOpcode, SegmentOpcodeFsGs, TotalSize, Has, VexBytes, Opr;
    var k := KindOf(t.c);
    if k.ModRm? {
      CodeLength.EaForLength(e, t, w, at);
    } else if k.Reserve? {
      CodeLength.ChunksOfOne(Space(Opr(e, 0).offset));
    } else {
      hide KindOf;
      CodeLength.SimpleTotal(Body(e, w, f, at, t).value);
    }
  }

  lemma {:induction false} MemoryParts(l: Layout, at: int, a: seq<Chunk>, b: seq<Chunk>, bytes: seq<int>)
    requires InMemory(l, at, a + b, bytes)
    ensures TotalSize(a) <= |bytes| && InMemory(l, at, a, bytes[..TotalSize(a)])
    ensures InMemory(l, at + TotalSize(a), b, bytes[TotalSize(a)..])
    decreases |a|
  {
    hide *;
    NoChunks(l, at);
    if a == [] {
      assert a + b == b && bytes[0..] == bytes && bytes[..0] == [];
    } else {
      var n, s := a[0].Size(), TotalSize(a[1..]);
      assert (a + b)[1..] == a[1..] + b && (a + b)[0] == a[0];
      HeadChunk(l, at, a + b, bytes);
      TotalHead(a);
      MemoryParts(l, at + n, a[1..], b, bytes[n..]);
      FirstChunk(l, at, a, bytes, n, s);
      assert bytes[n..][s..] == bytes[n + s..];
      assert at + n + s == at + (n + s);
    }
  }

  lemma NoChunks(l: Layout, at: int)
    ensures TotalSize([]) == 0 && InMemory(l, at, [], [])
  {}

  lemma TotalHead(cs: seq<Chunk>)
    requires cs != []
    ensures TotalSize(cs) == cs[0].Size() + TotalSize(cs[1..])
  {}

  lemma HeadChunk(l: Layout, at: int, cs: seq<Chunk>, bytes: seq<int>)
    requires cs != [] && InMemory(l, at, cs, bytes)
    ensures var n := cs[0].Size(); n <= |bytes| && Loaded(l, at, cs[0], bytes[..n]) && InMemory(l, at + n, cs[1..], bytes[n..])
  {}

  lemma FirstChunk(l: Layout, at: int, cs: seq<Chunk>, bytes: seq<int>, n: nat, s: nat)
    requires cs != [] && n == cs[0].Size() && n + s <= |bytes|
    requires Loaded(l, at, cs[0], bytes[..n]) && InMemory(l, at + n, cs[1..], bytes[n..][..s])
    ensures InMemory(l, at, cs, bytes[..n + s])
  {
    hide Loaded;
    assert bytes[..n + s][..n] == bytes[..n] && bytes[..n + s][n..] == bytes[n..][..s];
  }

  // What one step emits: the REX prefix, if any, and the code's own chunks.
  ghost function StepChunks(e: Env, w: Where, g: Gen, t: Instr): seq<Chunk>
    requires |t.args| == Arguments(t.c) && GenStep(e, w, g, t).Some?
  {
    var k := KindOf(t.c);
    var pre := RexChunks(e, g.f.rex, k);
    pre + Body(e, w, g.f.(rex := AfterRex(e, g.f.rex, k)), g.offset + |pre|, t).value.chunks
  }

  ghost function RunChunks(e: Env, w: Where, g: Gen, ts: seq<Instr>): seq<Chunk>
    requires WellFormed(ts) && GenRun(e, w, g, ts).Some?
    decreases |ts|
  {
    if ts == [] then [] else StepChunks(e, w, g, ts[0]) + RunChunks(e, w, GenStep(e, w, g, ts[0]).value, ts[1..])
  }

  lemma {:induction false} RunOutput(e: Env, w: Where, g: Gen, ts: seq<Instr>)
    requires WellFormed(ts) && GenRun(e, w, g, ts).Some?
    ensures GenRun(e, w, g, ts).value.out == g.out + RunChunks(e, w, g, ts)
    decreases |ts|
  {
    hide GenStep, StepChunks, KindOf;
    if ts != [] {
      var next, rest := GenStep(e, w, g, ts[0]).value, ts[1..];
      StepOutput(e, w, g, ts[0]);
      RunOutput(e, w, next, rest);
      assert g.out + StepChunks(e, w, g, ts[0]) + RunChunks(e, w, next, rest) ==
             g.out + (StepChunks(e, w, g, ts[0]) + RunChunks(e, w, next, rest));
    }
  }

  lemma StepOutput(e: Env, w: Where, g: Gen, t: Instr)
    requires |t.args| == Arguments(t.c) && GenStep(e, w, g, t).Some?
    ensures GenStep(e, w, g, t).value.out == g.out + StepChunks(e, w, g, t)
  {
    hide Body, KindOf, RexChunks, AfterRex, BodyRex, NextPrefixes;
  }

  // In 64-bit mode the flags still pending make a REX prefix in front of the next byte of an
  // opcode.
  predicate RexDue(e: Env, rex: Rex, role: Role) {
    e.bits == 64 && !rex.v && (rex.b || rex.x || rex.r || rex.w || rex.p) &&
    (role.OpcodeBytes? || role.OpcodeWithRegister? || role.ShortOpcode?)
  }

  lemma RexDueIs(e: Env, rex: Rex, c: int)
    ensures RexDue(e, rex, RoleOf(c)) <==> IsEmitter(KindOf(c)) && EmitsRex(e, rex)
    ensures AfterRex(e, rex, KindOf(c)) == if RexDue(e, rex, RoleOf(c)) then NO_REX else rex
  {
    RoleIsKind(c);
    hide KindOf, RoleOf, DecodePrefix, FixedByte;
  }

  // What a code leaves of the pending flags and of the fields: 0313 and a prefix emitted clear
  // the flags, 0324 adds W, 0334 has used up R, and 0320 and 0321 fill the operand-size slot
  // where they emit a prefix.
  lemma FieldsCarried(e: Env, w: Where, g: Gen, t: Instr)
    requires |t.args| == Arguments(t.c) && GenStep(e, w, g, t).Some?
    ensures var f := GenStep(e, w, g, t).value.f;
            var rex := if RexDue(e, g.f.rex, RoleOf(t.c)) then NO_REX else g.f.rex;
            f.rex == (if t.c == 0xcb then NO_REX
                      else if t.c == 0xd4 then rex.(w := true)
                      else if t.c == 0xdc then rex.(l := false, r := false)
                      else rex) &&
            f.prefixes == (if t.c == 0xd0 && e.bits != 16 then g.f.prefixes.(osize := P_O16)
                           else if t.c == 0xd1 && e.bits == 16 then g.f.prefixes.(osize := P_O32)
                           else g.f.prefixes) &&
            f.drexdst == g.f.drexdst && f.vexCm == g.f.vexCm && f.vexWlp == g.f.vexWlp
  {
    RexDueIs(e, g.f.rex, t.c);
    CarryingCodes(t.c);
    hide KindOf, RoleOf, Body, RexDue, IsEmitter, EmitsRex;
  }

  lemma CarryingCodes(c: int)
    ensures (KindOf(c).Addr64? <==> c == 0xcb) && (KindOf(c).RexW? <==> c == 0xd4) && (KindOf(c).LockR? <==> c == 0xdc)
    ensures (KindOf(c).Op16? <==> c == 0xd0) && (KindOf(c).Op32? <==> c == 0xd1)
  {}

  // What calcsize takes from the template for a VEX code: its two bytes, and the register of
  // the operand for the V field, zero for 0270.
  lemma VexTaken(e: Env, f: Fields, t: Instr)
    requires |t.args| == Arguments(t.c) && StepLength(e, f.prefixes.asize, t).Some?
    ensures RoleOf(t.c).VexPrefix? ==>
      var g := StepFields(e, f, t);
      |t.args| == 2 && g.vexCm == t.args[0] && g.vexWlp == t.args[1] && g.rex.v &&
      if t.c == 0xb8 then g.drexdst == 0
      else Opr(e, t.op1).basereg.Some? && g.drexdst == Opr(e, t.op1).basereg.value.val
    ensures !RoleOf(t.c).VexPrefix? ==>
      var g := StepFields(e, f, t); g.vexCm == f.vexCm && g.vexWlp == f.vexWlp && g.drexdst == f.drexdst
  {
    RoleIsKind(t.c);
    VexCodes(t.c);
    ArgumentsByRole(t.c);
    hide KindOf, RoleOf, DecodePrefix, FixedByte, Arguments, StepPrefixes, EaFor, OpRexFlags, IsSbyte16, IsSbyte32, SizedLength;
  }

  lemma VexCodes(c: int)
    ensures KindOf(c).VexNone? <==> c == 0xb8
  {}

  // A step's bytes: its REX prefix and what its code says.
  ghost predicate StepSaid(e: Env, w: Where, l: Layout, g: Gen, t: Instr, n: int, bytes: seq<int>)
    requires |t.args| == Arguments(t.c)
  {
    var due := RexDue(e, g.f.rex, RoleOf(t.c));
    var rex := if due then 1 else 0;
    rex <= n <= |bytes| &&
    (rex == 1 ==> 0x40 <= bytes[0] < 0x50 &&
                  DecodeRex(bytes[0]) == PrefixFields(g.f.rex.w, g.f.rex.r, g.f.rex.x, g.f.rex.b, 0, 0)) &&
    Says(e, w, if due then g.f.(rex := NO_REX) else g.f, l, t, bytes[rex..n])
  }

  lemma StepSays(e: Env, w: Where, l: Layout, g: Gen, t: Instr, bytes: seq<int>)
    requires |t.args| == Arguments(t.c) && KeepsNumbers(l) && CodeLength.ValidEnv(e) && GenStep(e, w, g, t).Some?
    requires KindOf(t.c).Reserve? ==> Opr(e, 0).offset >= 0
    requires InMemory(l, g.offset, StepChunks(e, w, g, t), bytes)
    ensures TotalSize(StepChunks(e, w, g, t)) == GenStep(e, w, g, t).value.offset - g.offset
    ensures StepSaid(e, w, l, g, t, GenStep(e, w, g, t).value.offset - g.offset, bytes)
  {
    var rex, f, m := StepShape(e, w, g, t);
    hide *;
    var pre := if rex == 1 then [Raw([RexByte(g.f.rex)])] else [];
    RawSize(RexByte(g.f.rex));
    AdvanceIs(e, w, f, g.offset + rex, t);
    TotalConcat(pre, m.chunks);
    MemoryParts(l, g.offset, pre, m.chunks, bytes);
    BodySays(e, w, f, l, g.offset + rex, t, bytes[rex..]);
    MemorySize(l, g.offset + rex, m.chunks, bytes[rex..]);
    var n: nat := rex + TotalSize(m.chunks);
    WholeRest(bytes, rex, n);
    if rex == 1 {
      RexDecodes(g.f.rex);
      OneInMemory(l, g.offset, Raw([RexByte(g.f.rex)]), bytes[..1]);
      RawLoaded(l, g.offset, RexByte(g.f.rex), bytes[..1]);
    }
    StepIsSaid(e, w, l, g, t, rex, n, bytes, f);
  }

  lemma WholeRest(bytes: seq<int>, k: nat, n: nat)
    requires k <= n == |bytes|
    ensures bytes[k..n] == bytes[k..]
    ensures k == 1 ==> bytes[..1][0] == bytes[0]
  {}

  lemma StepShape(e: Env, w: Where, g: Gen, t: Instr) returns (rex: nat, f: Fields, m: Emission)
    requires |t.args| == Arguments(t.c) && GenStep(e, w, g, t).Some?
    ensures rex == (if IsEmitter(KindOf(t.c)) && EmitsRex(e, g.f.rex) then 1 else 0)
    ensures f == g.f.(rex := AfterRex(e, g.f.rex, KindOf(t.c)))
    ensures Body(e, w, f, g.offset + rex, t) == Some(m)
    ensures StepChunks(e, w, g, t) == (if rex == 1 then [Raw([RexByte(g.f.rex)])] else []) + m.chunks
    ensures GenStep(e, w, g, t).value.offset == g.offset + rex + m.advance
  {
    hide Body, KindOf, EmitsRex, IsEmitter, RexByte, NextPrefixes, BodyRex;
    rex := if IsEmitter(KindOf(t.c)) && EmitsRex(e, g.f.rex) then 1 else 0;
    f := g.f.(rex := AfterRex(e, g.f.rex, KindOf(t.c)));
    m := Body(e, w, f, g.offset + rex, t).value;
  }

  lemma RawSize(b: int)
    ensures TotalSize([Raw([b])]) == 1 && TotalSize([]) == 0
  {
    CodeLength.ChunksOfOne(Raw([b]));
  }

  lemma StepIsSaid(e: Env, w: Where, l: Layout, g: Gen, t: Instr, rex: nat, n: int, bytes: seq<int>, f: Fields)
    requires |t.args| == Arguments(t.c) && rex == (if IsEmitter(KindOf(t.c)) && EmitsRex(e, g.f.rex) then 1 else 0)
    requires rex <= n == |bytes| && f == g.f.(rex := AfterRex(e, g.f.rex, KindOf(t.c)))
    requires rex == 1 ==> 0x40 <= bytes[0] < 0x50 &&
                          DecodeRex(bytes[0]) == PrefixFields(g.f.rex.w, g.f.rex.r, g.f.rex.x, g.f.rex.b, 0, 0)
    requires Says(e, w, f, l, t, bytes[rex..n])
    ensures StepSaid(e, w, l, g, t, n, bytes)
  {
    RexDueIs(e, g.f.rex, t.c);
    hide Says, DecodeRex, KindOf, EmitsRex, IsEmitter, RexDue, RoleOf, AfterRex;
  }

  lemma {:induction false} MemorySize(l: Layout, at: int, cs: seq<Chunk>, bytes: seq<int>)
    requires InMemory(l, at, cs, bytes)
    ensures |bytes| == TotalSize(cs)
    decreases |cs|
  {
    hide Loaded;
    if cs != [] { MemorySize(l, at + cs[0].Size(), cs[1..], bytes[cs[0].Size()..]); }
  }

  lemma RawLoaded(l: Layout, at: int, b: int, bytes: seq<int>)
    requires Loaded(l, at, Raw([b]), bytes)
    ensures bytes == [b]
  {}

  // The main result: in the chunks that gencode emits, wherever the linker puts them, the
  // bytes of each code say what the code means.
  lemma {:induction false} GeneratedSays(e: Env, w: Where, l: Layout, g: Gen, ts: seq<Instr>, bytes: seq<int>)
    requires WellFormed(ts) && KeepsNumbers(l) && CodeLength.ValidEnv(e) && ReservesForward(e, ts)
    requires GenRun(e, w, g, ts).Some?
    requires InMemory(l, g.offset, RunChunks(e, w, g, ts), bytes)
    ensures GenRun(e, w, g, ts).value.out == g.out + RunChunks(e, w, g, ts)
    ensures RunSays(e, w, l, g, ts, bytes)
    decreases |ts|
  {
    hide GenStep, StepSaid, StepChunks, InMemory, KeepsNumbers, CodeLength.ValidEnv, TotalSize;
    RunOutput(e, w, g, ts);
    if ts == [] {
      MemorySize(l, g.offset, [], bytes);
      CodeLength.ChunksOfOne(Space(0));
    } else {
      var next, cs := GenStep(e, w, g, ts[0]).value, StepChunks(e, w, g, ts[0]);
      var n := TotalSize(cs);
      MemoryParts(l, g.offset, cs, RunChunks(e, w, next, ts[1..]), bytes);
      StepSays(e, w, l, g, ts[0], bytes[..n]);
      GeneratedSays(e, w, l, next, ts[1..], bytes[n..]);
    }
  }

  // ----- The address after linking -----

  // The displacement in the bytes, sign-extended; none counts as zero.
  function DisplacementIn(bytes: seq<int>): int { if bytes == [] then 0 else Signed(bytes) }

  // The address that the processor forms from the linked bytes of a memory operand is the
  // operand's, with its segment where the linker put it, exactly when the displacement can
  // hold it.
  lemma LinkedAddressIsExact(file: int -> int, l: Layout, w: Where, o: Operand, bits: int, addrbits: int, rfield: int,
                             rflags: bv32, bytes: seq<int>)
    requires SizedOperand(o, bits, addrbits) && !IsClass(REGISTER, o.flags) && EaOf(o, bits, addrbits, rfield, rflags).Some?
    requires var ea := EaOf(o, bits, addrbits, rfield, rflags).value; !ea.rip && HoldsAddress(l, w, o, ea, bytes)
    ensures var ea, size := EaOf(o, bits, addrbits, rfield, rflags).value, AddressBits(o, addrbits);
            |bytes| == ea.Size() && 0 <= bytes[0] < 0x100 && ea.sib < 0x100 && (ea.sibPresent ==> bytes[1] == ea.sib) &&
            var d := Decode(bits, size, bytes[0], ea.sib, ea.rex.x, ea.rex.b);
            d.Memory? && AddressSpace(size) > 0 && d.dispBytes <= |bytes| &&
            ((Sum(file, d.base, d.index, d.scale) + DisplacementIn(bytes[|bytes| - d.dispBytes..])) % AddressSpace(size)
               == (OperandSum(o, file) + ValueOf(l, o)) % AddressSpace(size)
             <==> Fits(ValueOf(l, o), ea.bytes, size))
  {
    var ea, size := EaOf(o, bits, addrbits, rfield, rflags).value, AddressBits(o, addrbits);
    assert AddressSpace(size) > 0;
    AcceptedEncodes(file, o, bits, addrbits, rfield, rflags);
    EncodesMemory(file, o, bits, size, rfield, ea);
    FewBytes(o, bits, addrbits, rfield, rflags);
    AddressParts(l, w, o, ea, bytes);
    hide *;
    var d := Decode(bits, size, ea.modrm, ea.sib, ea.rex.x, ea.rex.b);
    DisplacementHeld(bytes[|bytes| - ea.bytes..], ea.bytes, ValueOf(l, o));
    SameResidue(OperandSum(o, file), Displacement(ValueOf(l, o), ea.bytes), ValueOf(l, o), AddressSpace(size));
    FitsIs(ValueOf(l, o), ea.bytes, size);
  }

  lemma FitsIs(x: int, n: nat, size: int)
    requires AddressSpace(size) > 0
    ensures Fits(x, n, size) <==> (Displacement(x, n) - x) % AddressSpace(size) == 0
  {}

  lemma EncodesMemory(file: int -> int, o: Operand, bits: int, addrbits: int, rfield: int, ea: Ea)
    requires Encodes(file, o, bits, addrbits, rfield, ea) && !IsClass(REGISTER, o.flags)
    ensures ea.modrm < 0x100 && ea.sib < 0x100
    ensures var d := Decode(bits, addrbits, ea.modrm, ea.sib, ea.rex.x, ea.rex.b);
            d.Memory? && Sum(file, d.base, d.index, d.scale) == OperandSum(o, file) && d.dispBytes == ea.bytes
  {}

  lemma FewBytes(o: Operand, bits: int, addrbits: int, rfield: int, rflags: bv32)
    requires SizedOperand(o, bits, addrbits) && !IsClass(REGISTER, o.flags) && EaOf(o, bits, addrbits, rfield, rflags).Some?
    ensures EaOf(o, bits, addrbits, rfield, rflags).value.bytes in {0, 1, 2, 4}
  {
    EaCases(o, bits, addrbits, rfield, rflags);
    hide Wrap, Reorganised, BadPair, EaOf, RexOfField, EffectiveAddress.ModRm, Sib, RexFlags, Or, IsPureOffset, AdjustedFlags, SizesOk, Has, IsClass,
      Swapped16, Rm16, Is16;
  }

  lemma AddressParts(l: Layout, w: Where, o: Operand, ea: Ea, bytes: seq<int>)
    requires HoldsAddress(l, w, o, ea, bytes) && !ea.rip && ea.modrm < 0x100 && ea.sib < 0x100
    ensures |bytes| == ea.Size() && bytes[0] == ea.modrm && (ea.sibPresent ==> bytes[1] == ea.sib)
    ensures Holds(bytes[|bytes| - ea.bytes..], ea.bytes, ValueOf(l, o))
  {
    hide Holds, LeadsTo;
  }

  lemma DisplacementHeld(bytes: seq<int>, n: nat, x: int)
    requires Holds(bytes, n, x) && n in {0, 1, 2, 4}
    ensures DisplacementIn(bytes) == Displacement(x, n)
  {
    assert n > 0 ==> Span(n) == Power256(n);
    hide Unsigned, Span, Power256;
    if n > 0 {
      assert Power256(n) > 0;
      WrapTwice(x, Power256(n));
    }
  }

  lemma WrapTwice(x: int, s: int)
    requires s > 0
    ensures Wrap(x % s, s) == Wrap(x, s)
  {
    DivModUnique(x % s, s, 0, x % s);
  }

  // ----- A template: the conditional jump over a longer jump -----

  // \330\161\373\1\351\64, with which a conditional jump that is out of range is written.
  const OVER_JUMP := [0xd8, 0x71, 0xfb, 1, 0xe9, 0x34, 0]

  lemma OverJumpParsed()
    ensures Terminated(OVER_JUMP, 0)
    ensures Parse(OVER_JUMP, 0, 0) == [Instr(0xd8, 0, 3, [0x71]), Instr(0xfb, 3, 3, []), Instr(1, 1, 0, [0xe9]), Instr(0x34, 0, 2, [])]
  {
    hide *;
    OverJumpItems();
    OverJumpCodes();
    ParseEnd(OVER_JUMP, 6);
    ParseNext(OVER_JUMP, 5);
    ParseNext(OVER_JUMP, 3);
    ParseNext(OVER_JUMP, 2);
    ParseNext(OVER_JUMP, 0);
  }

  lemma OverJumpItems()
    ensures var s := OVER_JUMP;
            |s| == 7 && s[0] == 0xd8 && s[2] == 0xfb && s[3] == 1 && s[5] == 0x34 && s[6] == 0 &&
            s[1..2] == [0x71] && s[3..3] == [] && s[4..5] == [0xe9] && s[6..6] == []
  {}

  lemma ParseEnd(codes: seq<int>, i: nat)
    requires i < |codes| && codes[i] == 0
    ensures Terminated(codes, i) && Parse(codes, i, 0) == []
  {}

  lemma ParseNext(codes: seq<int>, i: nat)
    requires i < |codes| && codes[i] > 0 && Opex(codes[i]) == 0
    requires i + 1 + Arguments(codes[i]) < |codes| && Terminated(codes, i + 1 + Arguments(codes[i]))
    ensures var c, next := codes[i], i + 1 + Arguments(codes[i]);
            Terminated(codes, i) && Parse(codes, i, 0) == [Instr(c, c % 4, c / 8 % 4, codes[i + 1..next])] + Parse(codes, next, 0)
  {}

  lemma OverJumpCodes()
    ensures Opex(0xd8) == Opex(0xfb) == Opex(1) == Opex(0x34) == 0
    ensures Arguments(0xd8) == 1 && Arguments(0xfb) == 0 && Arguments(1) == 1 && Arguments(0x34) == 0
  {}

  // One step of a run without REX flags: the code's bytes are all there is.
  lemma PlainStep(e: Env, w: Where, l: Layout, g: Gen, ts: seq<Instr>, bytes: seq<int>) returns (next: Gen, n: nat)
    requires WellFormed(ts) && ts != [] && RunSays(e, w, l, g, ts, bytes) && !EmitsRex(e, g.f.rex)
    requires RoleOf(ts[0].c) == ConditionOpcode || RoleOf(ts[0].c) == OverJump || RoleOf(ts[0].c) == OpcodeBytes || RoleOf(ts[0].c).Jump?
    ensures n <= |bytes| && Says(e, w, g.f, l, ts[0], bytes[..n])
    ensures WellFormed(ts[1..]) && !EmitsRex(e, next.f.rex) && RunSays(e, w, l, next, ts[1..], bytes[n..])
  {
    RoleIsKind(ts[0].c);
    RexDueIs(e, g.f.rex, ts[0].c);
    PlainKind(e, w, g, ts[0]);
    hide Says, KindOf, GenStep, EmitsRex, DecodeRex, RexDue, RoleOf, AfterRex, IsEmitter;
    next := GenStep(e, w, g, ts[0]).value;
    n := next.offset - g.offset;
    assert bytes[..n][0..n] == bytes[..n];
  }

  lemma PlainKind(e: Env, w: Where, g: Gen, t: Instr)
    requires |t.args| == Arguments(t.c) && !EmitsRex(e, g.f.rex)
    requires KindOf(t.c).Condition? || KindOf(t.c).RelJump? || KindOf(t.c).Literal? || KindOf(t.c).RelByte? || KindOf(t.c).RelWord? ||
             KindOf(t.c).RelSized? || KindOf(t.c).RelDword?
    ensures GenStep(e, w, g, t).Some? ==> GenStep(e, w, g, t).value.f.rex == g.f.rex
    ensures g.f.(rex := AfterRex(e, g.f.rex, KindOf(t.c))) == g.f
  {
    hide KindOf, Body, EmitsRex, NextPrefixes;
  }

  // If the condition holds, the inverted jump in front is not taken and the longer one leads
  // to the target. If not, the jump in front leads to the end of the instruction, exactly
  // when the longer one has the size of the mode.
  lemma OverJumpLands(e: Env, w: Where, l: Layout, g: Gen, bytes: seq<int>)
    requires KeepsNumbers(l) && CodeLength.ValidEnv(e) && e.condition < |CONDITIONS| && !EmitsRex(e, g.f.rex)
    requires Terminated(OVER_JUMP, 0) && WellFormed(Parse(OVER_JUMP, 0, 0)) && GenRun(e, w, g, Parse(OVER_JUMP, 0, 0)).Some?
    requires InMemory(l, g.offset, RunChunks(e, w, g, Parse(OVER_JUMP, 0, 0)), bytes)
    ensures var o := Opr(e, 0);
            var n := WidthOf(e, o, BySize, true);
            |bytes| == 3 + n && bytes[2] == 0xe9 && LeadsTo(bytes[3..], n, l.here + w.end, TargetOf(l, w, o)) &&
            bytes[0] / 16 == 7 && Tests(Number(bytes[0] % 16), CONDITIONS[e.condition], true) &&
            (bytes[1] == |bytes| - 2 <==> n == if e.bits == 16 then 2 else 4)
  {
    hide *;
    OverJumpParsed();
    NoReserves(e);
    GeneratedSays(e, w, l, g, Parse(OVER_JUMP, 0, 0), bytes);
    OverJumpRun(e, w, l, g, Parse(OVER_JUMP, 0, 0), Instr(0xd8, 0, 3, [0x71]), Instr(0xfb, 3, 3, []), Instr(1, 1, 0, [0xe9]),
                Instr(0x34, 0, 2, []), bytes);
  }

  lemma OverJumpRun(e: Env, w: Where, l: Layout, g: Gen, ts: seq<Instr>, t0: Instr, t1: Instr, t2: Instr, t3: Instr, bytes: seq<int>)
    requires WellFormed(ts) && RunSays(e, w, l, g, ts, bytes) && !EmitsRex(e, g.f.rex) && e.condition < |CONDITIONS|
    requires ts == [t0, t1, t2, t3]
    requires t0 == Instr(0xd8, 0, 3, [0x71]) && t1 == Instr(0xfb, 3, 3, []) && t2 == Instr(1, 1, 0, [0xe9]) && t3 == Instr(0x34, 0, 2, [])
    ensures var o := Opr(e, 0);
            var n := WidthOf(e, o, BySize, true);
            |bytes| == 3 + n && bytes[2] == 0xe9 && LeadsTo(bytes[3..], n, l.here + w.end, TargetOf(l, w, o)) &&
            bytes[0] / 16 == 7 && Tests(Number(bytes[0] % 16), CONDITIONS[e.condition], true) &&
            (bytes[1] == |bytes| - 2 <==> n == if e.bits == 16 then 2 else 4)
  {
    hide *;
    OverJumpRoles();
    OverJumpCodes();
    var g1, n1 := PlainStep(e, w, l, g, ts, bytes);
    assert ts[1..] == [t1, t2, t3];
    var g2, n2 := PlainStep(e, w, l, g1, [t1, t2, t3], bytes[n1..]);
    assert [t1, t2, t3][1..] == [t2, t3];
    var g3, n3 := PlainStep(e, w, l, g2, [t2, t3], bytes[n1..][n2..]);
    assert [t2, t3][1..] == [t3];
    var g4, n4 := PlainStep(e, w, l, g3, [t3], bytes[n1..][n2..][n3..]);
    assert [t3][1..] == [];
    RunEnds(e, w, l, g4, bytes[n1..][n2..][n3..][n4..]);
    ConditionPiece(e, w, g.f, l, bytes[..n1]);
    PlainPieces(e, w, g1.f, g2.f, l, bytes[n1..][..n2], bytes[n1..][n2..][..n3]);
    JumpPiece(e, w, g3.f, l, bytes[n1..][n2..][n3..][..n4]);
    Pieces(bytes, n1, n2, n3, n4);
  }

  lemma OverJumpRoles()
    ensures RoleOf(0xd8) == ConditionOpcode && RoleOf(0xfb) == OverJump && RoleOf(1) == OpcodeBytes && RoleOf(0x34) == Jump(BySize)
  {}

  lemma NoReserves(e: Env)
    requires Terminated(OVER_JUMP, 0)
    ensures ReservesForward(e, Parse(OVER_JUMP, 0, 0))
  {
    NoReserveCodes();
    hide *;
    OverJumpParsed();
    ForwardFour(e, Parse(OVER_JUMP, 0, 0));
  }

  lemma NoReserveCodes()
    ensures !KindOf(0xd8).Reserve? && !KindOf(0xfb).Reserve? && !KindOf(1).Reserve? && !KindOf(0x34).Reserve?
  {}

  lemma ForwardFour(e: Env, ts: seq<Instr>)
    requires |ts| == 4 && forall i :: 0 <= i < 4 ==> !KindOf(ts[i].c).Reserve?
    ensures ReservesForward(e, ts)
  {
    hide KindOf;
  }

  lemma RunEnds(e: Env, w: Where, l: Layout, g: Gen, bytes: seq<int>)
    requires RunSays(e, w, l, g, [], bytes)
    ensures bytes == []
  {}

  lemma ConditionPiece(e: Env, w: Where, f: Fields, l: Layout, bytes: seq<int>)
    requires e.condition < |CONDITIONS| && Arguments(0xd8) == 1 && Says(e, w, f, l, Instr(0xd8, 0, 3, [0x71]), bytes)
    ensures |bytes| == 1 && bytes[0] / 16 == 7 && Tests(Number(bytes[0] % 16), CONDITIONS[e.condition], true)
  {
    OverJumpRoles();
    hide RoleOf, Tests, CONDITIONS, KindOf;
  }

  lemma PlainPieces(e: Env, w: Where, f: Fields, f': Fields, l: Layout, a: seq<int>, b: seq<int>)
    requires Arguments(0xfb) == 0 && Says(e, w, f, l, Instr(0xfb, 3, 3, []), a)
    requires Arguments(1) == 1 && Says(e, w, f', l, Instr(1, 1, 0, [0xe9]), b)
    ensures a == [if e.bits == 16 then 3 else 5] && b == [0xe9]
  {
    OverJumpRoles();
    hide RoleOf, KindOf;
  }

  lemma JumpPiece(e: Env, w: Where, f: Fields, l: Layout, bytes: seq<int>)
    requires Arguments(0x34) == 0 && Says(e, w, f, l, Instr(0x34, 0, 2, []), bytes)
    ensures var o := Opr(e, 0);
            var n := WidthOf(e, o, BySize, true); |bytes| == n && LeadsTo(bytes, n, l.here + w.end, TargetOf(l, w, o))
  {
    OverJumpRoles();
    LeadsLength(bytes, WidthOf(e, Opr(e, 0), BySize, true), l.here + w.end, TargetOf(l, w, Opr(e, 0)));
    hide RoleOf, KindOf, LeadsTo, WidthOf, TargetOf, Opr;
  }

  lemma LeadsLength(bytes: seq<int>, n: nat, end: int, x: int)
    ensures LeadsTo(bytes, n, end, x) ==> |bytes| == n
  {}

  lemma Pieces(bytes: seq<int>, n1: nat, n2: nat, n3: nat, n4: nat)
    requires n1 == n2 == n3 == 1 && 3 <= |bytes| && n4 <= |bytes| - 3
    requires bytes[n1..][n2..][n3..][n4..] == []
    ensures |bytes| == 3 + n4 && bytes[n1..][n2..][n3..][..n4] == bytes[3..]
    ensures bytes[..n1][0] == bytes[0] && bytes[n1..][..n2][0] == bytes[1] && bytes[n1..][n2..][..n3][0] == bytes[2]
  {}
}
