// What the processor makes of the bytes of an instruction (Intel SDM volume 2A, chapter 2
// and appendix B), written from its manual and not from the assembler.
module Machine {
  import opened Base
  import opened Powers

  // ----- Numbers in memory -----

  function Span(n: nat): (s: int)
    ensures s > 0
  {
    if n == 0 then 1 else 0x100 * Span(n - 1)
  }

  // Bytes read as a number, least significant first.
  function Unsigned(bytes: seq<int>): int {
    if bytes == [] then 0 else bytes[0] + 0x100 * Unsigned(bytes[1..])
  }

  function Signed(bytes: seq<int>): int { Wrap(Unsigned(bytes), Span(|bytes|)) }

  predicate AreBytes(bytes: seq<int>) { forall i :: 0 <= i < |bytes| ==> 0 <= bytes[i] < 0x100 }

  // ----- Conditions -----

  datatype Flags = Flags(carry: bool, parity: bool, zero: bool, sign: bool, overflow: bool)

  // Whether a jump, set or move with the condition field tttn takes place.
  predicate Taken(field: nat, f: Flags) {
    var holds := [f.overflow, f.carry, f.zero, f.carry || f.zero, f.sign, f.parity, f.sign != f.overflow,
                  f.zero || f.sign != f.overflow][field / 2 % 8];
    if field % 2 == 1 then !holds else holds
  }

  // The conditions by their names: unsigned and signed comparisons, single flags, and the
  // negations written with an n.
  datatype Test =
    | Above | AboveOrEqual | Below | BelowOrEqual | Carry | Equal | Greater | GreaterOrEqual | Less | LessOrEqual
    | Overflow | Parity | ParityEven | ParityOdd | Sign | Zero | Not(test: Test)

  predicate Passes(t: Test, f: Flags) {
    match t
    case Above => !f.carry && !f.zero
    case AboveOrEqual => !f.carry
    case Below => f.carry
    case BelowOrEqual => f.carry || f.zero
    case Carry => f.carry
    case Equal => f.zero
    case Greater => !f.zero && f.sign == f.overflow
    case GreaterOrEqual => f.sign == f.overflow
    case Less => f.sign != f.overflow
    case LessOrEqual => f.zero || f.sign != f.overflow
    case Overflow => f.overflow
    case Parity => f.parity
    case ParityEven => f.parity
    case ParityOdd => !f.parity
    case Sign => f.sign
    case Zero => f.zero
    case Not(u) => !Passes(u, f)
  }

  // ----- Sizes -----

  // The address size and the operand size of a mode with and without the prefix that
  // changes it.
  function AddressSize(bits: int, prefixed: bool): int {
    if !prefixed then bits else if bits == 32 then 16 else 32
  }

  function OperandSize(bits: int, prefixed: bool): int {
    if (bits == 16) == prefixed then 32 else 16
  }

  // ----- Prefixes -----

  datatype LegacyPrefix = SegmentOverride(segment: nat) | OperandSizePrefix | AddressSizePrefix | Lock | RepeatNe | Repeat | WaitPrefix

  // Segment registers are numbered ES, CS, SS, DS, FS, GS.
  function DecodePrefix(b: int): Option<LegacyPrefix> {
    if b / 0x20 == 1 && b % 8 == 6 then Some(SegmentOverride(b / 8 % 4))
    else if b == 0x64 || b == 0x65 then Some(SegmentOverride(b % 8))
    else if b == 0x66 then Some(OperandSizePrefix)
    else if b == 0x67 then Some(AddressSizePrefix)
    else if b == 0x9b then Some(WaitPrefix)
    else if b == 0xf0 then Some(Lock)
    else if b == 0xf2 then Some(RepeatNe)
    else if b == 0xf3 then Some(Repeat)
    else None
  }

  // ----- Byte registers -----

  datatype ByteRegister = Low(number: nat) | High(number: nat)

  // Section 2.2.1.2 of volume 2A: without a REX prefix the numbers 4 to 7 name AH, CH, DH
  // and BH, with any REX prefix SPL, BPL, SIL and DIL.
  function DecodeByteRegister(field: nat, extension: bool, rex: bool): ByteRegister {
    if !rex && 4 <= field < 8 then High(field - 4) else Low(if extension then field + 8 else field)
  }

  // ----- Reading numbers back -----

  lemma {:induction false} UnsignedRange(bytes: seq<int>)
    requires AreBytes(bytes)
    ensures 0 <= Unsigned(bytes) < Span(|bytes|)
  {
    if bytes != [] { UnsignedRange(bytes[1..]); }
  }

  // A number known up to the span of its bytes is known if it is small enough.
  lemma SignedIs(bytes: seq<int>, x: int)
    requires bytes != [] && (Unsigned(bytes) - x) % Span(|bytes|) == 0 && AreBytes(bytes)
    ensures (Signed(bytes) - x) % Span(|bytes|) == 0
    ensures -Span(|bytes|) / 2 <= x < Span(|bytes|) / 2 ==> Signed(bytes) == x
  {
    hide *;
    UnsignedRange(bytes);
    SpanEven(|bytes|);
    WrapIs(Unsigned(bytes), x, Span(|bytes|));
    SignedDef(bytes);
  }

  lemma SpanEven(n: nat)
    ensures n > 0 ==> Span(n) % 2 == 0
  {}

  lemma SignedDef(bytes: seq<int>)
    ensures Signed(bytes) == Wrap(Unsigned(bytes), Span(|bytes|))
  {}

  lemma WrapIs(u: int, x: int, s: int)
    requires s > 0 && s % 2 == 0 && 0 <= u < s && (u - x) % s == 0
    ensures (Wrap(u, s) - x) % s == 0
    ensures -s / 2 <= x < s / 2 ==> Wrap(u, s) == x
  {
    var k := (u - x) / s;
    assert u - x == s * k;
    DivModUnique(u, s, 0, u);
    var w := Wrap(u, s);
    if w != u {
      MulDistrib(k, -1, s);
      DivModUnique(w - x, s, k - 1, 0);
    }
    if -s / 2 <= x < s / 2 {
      NoFarMultiple(w - x, s);
    }
  }

  lemma NoFarMultiple(d: int, s: int)
    requires s > 0 && -s < d < s && d % s == 0
    ensures d == 0
  {
    if d < 0 { DivModUnique(d, s, -1, d + s); } else { DivModUnique(d, s, 0, d); }
  }
}
