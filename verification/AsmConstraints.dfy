// sdk/cc/asm386.c: asm_compute_constraints, which gives registers to the operands of an
// inline assembly statement; sdk/cc/asm.c: find_constraint.
module AsmConstraints {
  import opened Base
  import ReadNumber

  // ----- Operands -----

  // ASMOperand, with the r field of its value.
  datatype AsmOperand = AsmOperand(
    id: int, constraint: string, vtR: bv32,
    refIndex: int, inputIndex: int, priority: int, reg: int, isLlong: bool, isMemory: bool, isRw: bool)

  const VT_VALMASK: bv32 := 0xff
  const VT_CONST: bv32 := 0xf0
  const VT_LLOCAL: bv32 := 0xf1
  const VT_LVAL: bv32 := 0x100
  const VT_SYM: bv32 := 0x200

  predicate IsModifier(c: char) { c == '=' || c == '&' || c == '+' || c == '%' }

  // skip_constraint_modifiers.
  function SkipModifiers(s: string): (r: string) {
    if s != [] && IsModifier(s[0]) then SkipModifiers(s[1..]) else s
  }

  // The priority of one constraint letter, -1 for an unknown one.
  function LetterPriority(c: char): int {
    if c == 'A' then 0
    else if c == 'a' || c == 'b' || c == 'c' || c == 'd' || c == 'S' || c == 'D' then 1
    else if c == 'q' then 2
    else if c == 'r' then 3
    else if c == 'N' || c == 'M' || c == 'I' || c == 'i' || c == 'm' || c == 'g' then 4
    else -1
  }

  // constraint_priority: the largest of its letters; None for an unknown letter.
  function Priority(s: string): Option<int> {
    if s == [] then Some(0)
    else
      var rest := Priority(s[..|s| - 1]);
      var p := LetterPriority(s[|s| - 1]);
      if rest.None? || p < 0 then None else Some(if p > rest.value then p else rest.value)
  }

  predicate IsReference(s: string) {
    s != [] && (IsDigit(s[0]) || s[0] == '[')
  }

  // ----- find_constraint -----

  function Number(s: string, index: nat): nat {
    if s != [] && IsDigit(s[0]) then Number(s[1..], index * 10 + (s[0] as int - '0' as int)) else index
  }

  function IndexOfId(ops: seq<AsmOperand>, i: nat, tok: int): int
    decreases |ops| - i
  {
    if i >= |ops| then -1 else if ops[i].id == tok then i else IndexOfId(ops, i + 1, tok)
  }

  function UpTo(s: string, c: char): Option<string> {
    if s == [] then None else if s[0] == c then Some([])
    else var r := UpTo(s[1..], c); if r.None? then None else Some([s[0]] + r.value)
  }

  // By number or by name; -1 if there is no such operand. tokOf gives a name its token.
  function FindConstraint(ops: seq<AsmOperand>, name: string, tokOf: string -> int): int {
    if name == [] then -1
    else if IsDigit(name[0]) then (if Number(name, 0) >= |ops| then -1 else Number(name, 0))
    else if name[0] == '[' then
      var inner := UpTo(name[1..], ']');
      if inner.None? then -1 else IndexOfId(ops, 0, tokOf(inner.value))
    else -1
  }

  // ----- What the readings mean -----

  // The priority of a constraint is the largest among its letters; there is none if one of
  // them is unknown.
  lemma {:induction false} PriorityIsLargest(s: string)
    ensures Priority(s).Some? <==> forall c <- s :: LetterPriority(c) >= 0
    ensures Priority(s).Some? ==>
      (forall c <- s :: LetterPriority(c) <= Priority(s).value) && (s == [] ==> Priority(s).value == 0) &&
      (s != [] ==> exists c <- s :: LetterPriority(c) == Priority(s).value)
  {
    hide LetterPriority;
    if s != [] {
      var h, d := s[..|s| - 1], s[|s| - 1];
      PriorityIsLargest(h);
      assert s == h + [d];
      assert forall c :: c in s <==> c in h || c == d;
      if h == [] { assert Priority(h) == Some(0); }
    }
  }

  // The modifiers are the leading characters among =, &, + and %.
  lemma {:induction false} ModifiersSkipped(s: string)
    ensures var r := SkipModifiers(s);
            var k := |s| - |r|;
            k >= 0 && r == s[k..] && (forall i :: 0 <= i < k ==> s[i] in "=&+%") && (r != [] ==> r[0] !in "=&+%")
  {
    if s != [] && IsModifier(s[0]) {
      ModifiersSkipped(s[1..]);
      var r := SkipModifiers(s[1..]);
      forall i | 0 <= i < |s| - |r| ensures s[i] in "=&+%" {
        if i > 0 { assert s[i] == s[1..][i - 1]; }
      }
    }
  }

  lemma {:induction false} NumberAppend(s: string, c: char, index: nat)
    requires (forall d <- s :: IsDigit(d)) && IsDigit(c)
    ensures Number(s + [c], index) == Number(s, index) * 10 + (c as int - '0' as int)
  {
    if s == [] {
      assert s + [c] == [c] && [c][1..] == [];
    } else {
      assert (s + [c])[1..] == s[1..] + [c] && s[0] in s;
      NumberAppend(s[1..], c, index * 10 + (s[0] as int - '0' as int));
    }
  }

  // A number written in decimal is read back, whatever follows it.
  lemma {:induction false} NumberReads(n: nat)
    ensures var d := ReadNumber.Numeral(n, 10); (forall c <- d :: IsDigit(c)) && Number(d, 0) == n
    decreases n
  {
    ReadNumber.DigitCharIs(n % 10, 10);
    var c := ReadNumber.DigitChar(n % 10);
    assert IsDigit(c) && c as int - '0' as int == n % 10;
    if n < 10 {
      assert ReadNumber.Numeral(n, 10) == [c] && [c][1..] == [];
    } else {
      NumberReads(n / 10);
      NumberAppend(ReadNumber.Numeral(n / 10, 10), c, 0);
    }
  }

  lemma {:induction false} NumberStops(s: string, rest: string, index: nat)
    requires (forall d <- s :: IsDigit(d)) && (rest == [] || !IsDigit(rest[0]))
    ensures Number(s + rest, index) == Number(s, index)
  {
    if s == [] {
      assert s + rest == rest;
    } else {
      assert (s + rest)[1..] == s[1..] + rest && s[0] in s;
      NumberStops(s[1..], rest, index * 10 + (s[0] as int - '0' as int));
    }
  }

  // A reference by number finds that operand if there is one.
  lemma NumberFound(ops: seq<AsmOperand>, n: nat, rest: string, tokOf: string -> int)
    requires rest == [] || !IsDigit(rest[0])
    ensures FindConstraint(ops, ReadNumber.Numeral(n, 10) + rest, tokOf) == if n < |ops| then n else -1
  {
    var d := ReadNumber.Numeral(n, 10);
    NumberReads(n);
    NumberStops(d, rest, 0);
    assert d != [] && (d + rest)[0] == d[0] && d[0] in d;
    hide Number;
  }

  lemma {:induction false} UpToFinds(name: string, rest: string, c: char)
    requires c !in name
    ensures UpTo(name + [c] + rest, c) == Some(name)
  {
    var s := name + [c] + rest;
    if name != [] {
      assert s[1..] == name[1..] + [c] + rest && s[0] == name[0] && name[0] in name;
      UpToFinds(name[1..], rest, c);
      assert [name[0]] + name[1..] == name;
    } else {
      assert s[0] == c;
    }
  }

  lemma {:induction false} FirstWithId(ops: seq<AsmOperand>, i: nat, tok: int)
    requires i <= |ops|
    ensures var k := IndexOfId(ops, i, tok);
            if k == -1 then forall j :: i <= j < |ops| ==> ops[j].id != tok
            else i <= k < |ops| && ops[k].id == tok && forall j :: i <= j < k ==> ops[j].id != tok
    decreases |ops| - i
  {
    if i < |ops| && ops[i].id != tok { FirstWithId(ops, i + 1, tok); }
  }

  // A reference by name finds the first operand of that name.
  lemma NameFound(ops: seq<AsmOperand>, name: string, rest: string, tokOf: string -> int)
    requires ']' !in name
    ensures var k := FindConstraint(ops, "[" + name + "]" + rest, tokOf);
            if k == -1 then forall j :: 0 <= j < |ops| ==> ops[j].id != tokOf(name)
            else 0 <= k < |ops| && ops[k].id == tokOf(name) && forall j :: 0 <= j < k ==> ops[j].id != tokOf(name)
  {
    var s := "[" + name + "]" + rest;
    assert s[0] == '[' && s[1..] == name + [']'] + rest;
    UpToFinds(name, rest, ']');
    FirstWithId(ops, 0, tokOf(name));
  }

  // ----- Registers -----

  const NB_ASM_REGS := 8
  const TREG_EAX := 0
  const TREG_ECX := 1
  const TREG_EDX := 2

  // REG_IN_MASK and REG_OUT_MASK.
  datatype Roles = Roles(input: bool, output: bool)

  const NO_ROLE := Roles(false, false)
  const IN := Roles(true, false)
  const OUT := Roles(false, true)
  const BOTH := Roles(true, true)

  predicate Clash(a: Roles, b: Roles) { (a.input && b.input) || (a.output && b.output) }

  function Join(a: Roles, b: Roles): Roles { Roles(a.input || b.input, a.output || b.output) }

  // The lowest register below n that is free for the roles.
  function FirstFree(alloc: seq<Roles>, mask: Roles, reg: nat, n: nat): (r: Option<nat>)
    requires n <= |alloc|
    ensures r.Some? ==> reg <= r.value < n && !Clash(alloc[r.value], mask)
    ensures r.Some? ==> forall k: nat :: reg <= k < r.value ==> Clash(alloc[k], mask)
    ensures r.None? ==> forall k: nat :: reg <= k < n ==> Clash(alloc[k], mask)
    decreases n - reg
  {
    if reg >= n then None else if !Clash(alloc[reg], mask) then Some(reg) else FirstFree(alloc, mask, reg + 1, n)
  }

  // The register a letter names, -1 for none.
  function NamedReg(c: char): int {
    if c == 'a' then TREG_EAX else if c == 'b' then 3 else if c == 'c' then TREG_ECX else if c == 'd' then TREG_EDX
    else if c == 'S' then 6 else if c == 'D' then 7 else -1
  }

  // What an operand gets: its register or -1, the new is_llong if it is set, and the
  // registers it takes with the roles it takes them in.
  datatype Grant = Grant(reg: int, llong: Option<bool>, memory: bool, rw: bool, regs: set<int>, roles: Roles)

  function Place(r: Option<nat>, mask: Roles, rw: bool): Option<Grant> {
    if r.Some? then Some(Grant(r.value, Some(false), false, rw, {r.value as int}, mask)) else None
  }

  // The constraint letters from the first on, each tried if the ones before do not fit.
  function Grants(vtR: bv32, isOutput: bool, s: string, mask: Roles, rw: bool, alloc: seq<Roles>): Option<Grant>
    requires |alloc| == NB_ASM_REGS
    decreases |s|
  {
    if s == [] then None
    else
      var c, rest := s[0], s[1..];
      if c == '=' then Grants(vtR, isOutput, rest, mask, rw, alloc)
      else if c == '+' || c == '&' then
        if isOutput then Grants(vtR, isOutput, rest, BOTH, rw || c == '+', alloc) else None
      else
        var g := Fitting(vtR, isOutput, c, mask, rw, alloc);
        if g.Some? then g else if LetterPriority(c) < 0 then None else Grants(vtR, isOutput, rest, mask, rw, alloc)
  }

  // What the letter itself grants, None if it does not fit.
  function Fitting(vtR: bv32, isOutput: bool, c: char, mask: Roles, rw: bool, alloc: seq<Roles>): Option<Grant>
    requires |alloc| == NB_ASM_REGS
  {
    var nothing := Some(Grant(-1, None, false, rw, {}, NO_ROLE));
    if c == 'A' then
      if Clash(alloc[TREG_EAX], mask) || Clash(alloc[TREG_EDX], mask) then None
      else Some(Grant(TREG_EAX, Some(true), false, rw, {TREG_EAX, TREG_EDX}, mask))
    else if NamedReg(c) >= 0 then
      if Clash(alloc[NamedReg(c)], mask) then None else Place(Some(NamedReg(c)), mask, rw)
    else if c == 'q' then Place(FirstFree(alloc, mask, 0, 4), mask, rw)
    else if c == 'r' then Place(FirstFree(alloc, mask, 0, 8), mask, rw)
    else if c == 'i' then if vtR & (VT_VALMASK | VT_LVAL) != VT_CONST then None else nothing
    else if c == 'I' || c == 'N' || c == 'M' then if vtR & (VT_VALMASK | VT_LVAL | VT_SYM) != VT_CONST then None else nothing
    else if c == 'm' || c == 'g' then
      if (isOutput || c == 'm') && vtR & VT_VALMASK == VT_LLOCAL then
        var r := FirstFree(alloc, IN, 0, 8);
        if r.None? then None else Some(Grant(r.value, None, true, rw, {r.value as int}, IN))
      else nothing
    else None
  }

  // The registers that an operand with the letter can be in, by the numbers that the
  // processor gives them. The A operand is in eax and takes edx as well.
  function Allowed(c: char): set<int> {
    match c
    case 'a' => {0}
    case 'b' => {3}
    case 'c' => {1}
    case 'd' => {2}
    case 'S' => {6}
    case 'D' => {7}
    case 'A' => {0}
    case 'q' => {0, 1, 2, 3}
    case 'r' => {0, 1, 2, 3, 4, 5, 6, 7}
    case 'm' => {0, 1, 2, 3, 4, 5, 6, 7}
    case 'g' => {0, 1, 2, 3, 4, 5, 6, 7}
    case _ => {}
  }

  predicate Satisfies(s: string, reg: int) {
    exists c <- s :: reg in Allowed(c)
  }

  // What every grant keeps: it takes free registers only, its own among them, and its own
  // is one that a letter of the constraint allows.
  predicate GoodGrant(s: string, alloc: seq<Roles>, g: Grant)
    requires |alloc| == NB_ASM_REGS
  {
    (forall r <- g.regs :: 0 <= r < NB_ASM_REGS && !Clash(alloc[r], g.roles)) &&
    (if g.reg >= 0 then g.reg in g.regs && Satisfies(s, g.reg) else g.reg == -1 && g.regs == {}) &&
    (g.llong == Some(true) ==> g.regs == {TREG_EAX, TREG_EDX}) &&
    (g.llong != Some(true) && g.reg >= 0 ==> g.regs == {g.reg})
  }

  lemma PlaceGood(c: char, r: nat, mask: Roles, rw: bool, memory: bool, alloc: seq<Roles>)
    requires r < NB_ASM_REGS == |alloc| && !Clash(alloc[r], mask) && r in Allowed(c)
    ensures GoodGrant([c], alloc, Grant(r, if memory then None else Some(false), memory, rw, {r as int}, mask))
  {}

  lemma FittingParts(vtR: bv32, isOutput: bool, c: char, mask: Roles, rw: bool, alloc: seq<Roles>)
    requires |alloc| == NB_ASM_REGS && Fitting(vtR, isOutput, c, mask, rw, alloc).Some? && c != 'A'
    ensures var g := Fitting(vtR, isOutput, c, mask, rw, alloc).value;
            g.reg >= 0 ==> g == Grant(g.reg, if g.memory then None else Some(false), g.memory, rw, {g.reg}, g.roles)
    ensures var g := Fitting(vtR, isOutput, c, mask, rw, alloc).value;
            g.reg >= 0 ==> g.reg < NB_ASM_REGS && !Clash(alloc[g.reg], g.roles) && g.reg in Allowed(c)
  {
    hide Clash, FirstFree;
  }

  lemma FittingGood(vtR: bv32, isOutput: bool, c: char, mask: Roles, rw: bool, alloc: seq<Roles>)
    requires |alloc| == NB_ASM_REGS && Fitting(vtR, isOutput, c, mask, rw, alloc).Some?
    ensures GoodGrant([c], alloc, Fitting(vtR, isOutput, c, mask, rw, alloc).value)
  {
    var g := Fitting(vtR, isOutput, c, mask, rw, alloc).value;
    if c == 'A' {
      hide Clash;
      assert c in [c];
    } else if g.reg >= 0 {
      hide GoodGrant, Fitting, Clash, Allowed;
      FittingParts(vtR, isOutput, c, mask, rw, alloc);
      PlaceGood(c, g.reg, g.roles, rw, g.memory, alloc);
    } else {
      assert g == Grant(-1, None, false, rw, {}, NO_ROLE);
      hide Fitting, Clash;
    }
  }

  lemma {:induction false} GrantsGood(vtR: bv32, isOutput: bool, s: string, mask: Roles, rw: bool, alloc: seq<Roles>)
    requires |alloc| == NB_ASM_REGS && Grants(vtR, isOutput, s, mask, rw, alloc).Some?
    ensures GoodGrant(s, alloc, Grants(vtR, isOutput, s, mask, rw, alloc).value)
    decreases |s|
  {
    var g := Grants(vtR, isOutput, s, mask, rw, alloc).value;
    hide Fitting, Allowed, Clash;
    var c := s[0];
    if c == '=' {
      GrantsGood(vtR, isOutput, s[1..], mask, rw, alloc);
    } else if c == '+' || c == '&' {
      GrantsGood(vtR, isOutput, s[1..], BOTH, rw || c == '+', alloc);
    } else if Fitting(vtR, isOutput, c, mask, rw, alloc).Some? {
      FittingGood(vtR, isOutput, c, mask, rw, alloc);
      assert forall d <- [c] :: d in s;
    } else {
      GrantsGood(vtR, isOutput, s[1..], mask, rw, alloc);
    }
  }

  // The roles granted: input for a memory operand's pointer, else at least those asked
  // for, and both for an operand that is read and written.
  lemma {:induction false} GrantsRoles(vtR: bv32, isOutput: bool, s: string, mask: Roles, rw: bool, alloc: seq<Roles>)
    requires |alloc| == NB_ASM_REGS && Grants(vtR, isOutput, s, mask, rw, alloc).Some? && (rw ==> mask == BOTH)
    ensures var g := Grants(vtR, isOutput, s, mask, rw, alloc).value;
            g.reg >= 0 ==> if g.memory then g.roles == IN else (g.roles == mask || g.roles == BOTH) && (g.rw ==> g.roles == BOTH)
    decreases |s|
  {
    hide Clash;
    var c := s[0];
    if c == '=' {
      GrantsRoles(vtR, isOutput, s[1..], mask, rw, alloc);
    } else if c == '+' || c == '&' {
      GrantsRoles(vtR, isOutput, s[1..], BOTH, rw || c == '+', alloc);
    } else if Fitting(vtR, isOutput, c, mask, rw, alloc).None? {
      GrantsRoles(vtR, isOutput, s[1..], mask, rw, alloc);
    }
  }

  // ----- Which letter is granted -----

  function TakenWith(c: char, reg: int): set<int> { if c == 'A' then {0, 2} else {reg} }

  // Register reg, and what is taken with it, is free for letter c in the roles asked.
  predicate IsFree(c: char, reg: int, roles: Roles, alloc: seq<Roles>)
    requires |alloc| == NB_ASM_REGS
  {
    reg in Allowed(c) && forall r <- TakenWith(c, reg) :: 0 <= r < NB_ASM_REGS && !Clash(alloc[r], roles)
  }

  predicate IsConstant(vtR: bv32) { vtR & 0xff == VT_CONST && vtR & VT_LVAL == 0 }

  // A memory operand whose pointer is itself in memory needs a register for the pointer.
  predicate NeedsPointer(vtR: bv32, isOutput: bool, c: char) {
    (c == 'm' || (c == 'g' && isOutput)) && vtR & 0xff == VT_LLOCAL
  }

  predicate OneRegister(c: char) { c == 'a' || c == 'b' || c == 'c' || c == 'd' || c == 'S' || c == 'D' }

  predicate ForRegister(c: char) { OneRegister(c) || c == 'A' || c == 'q' || c == 'r' }

  predicate ForMemory(c: char) { c == 'm' || c == 'g' }

  ghost predicate LetterFits(vtR: bv32, isOutput: bool, c: char, roles: Roles, alloc: seq<Roles>)
    requires |alloc| == NB_ASM_REGS
  {
    if ForRegister(c) then exists reg :: IsFree(c, reg, roles, alloc)
    else if c == 'i' then IsConstant(vtR)
    else if c == 'I' || c == 'N' || c == 'M' then IsConstant(vtR) && vtR & VT_SYM == 0
    else ForMemory(c) && (NeedsPointer(vtR, isOutput, c) ==> exists reg :: IsFree(c, reg, IN, alloc))
  }

  // The lowest register that is free for the letter.
  ghost predicate Lowest(c: char, reg: int, roles: Roles, alloc: seq<Roles>)
    requires |alloc| == NB_ASM_REGS
  {
    IsFree(c, reg, roles, alloc) && forall k :: k < reg ==> !IsFree(c, k, roles, alloc)
  }

  // What a letter that fits grants: the lowest register that is free in the roles asked, or
  // nothing where the operand stays where it is.
  ghost predicate GrantFits(vtR: bv32, isOutput: bool, c: char, roles: Roles, rw: bool, alloc: seq<Roles>, g: Grant)
    requires |alloc| == NB_ASM_REGS
  {
    g.rw == rw &&
    if ForRegister(c) then
      Lowest(c, g.reg, roles, alloc) && g == Grant(g.reg, Some(c == 'A'), false, rw, TakenWith(c, g.reg), roles)
    else if NeedsPointer(vtR, isOutput, c) then
      Lowest(c, g.reg, IN, alloc) && g == Grant(g.reg, None, true, rw, {g.reg}, IN)
    else g == Grant(-1, None, false, rw, {}, NO_ROLE)
  }

  lemma FreeIs(c: char, reg: int, roles: Roles, alloc: seq<Roles>)
    requires |alloc| == NB_ASM_REGS && c != 'A'
    ensures IsFree(c, reg, roles, alloc) <==> reg in Allowed(c) && 0 <= reg < NB_ASM_REGS && !Clash(alloc[reg], roles)
  {}

  // The registers from 0 on, tried in turn, for a letter that allows the first n.
  lemma FirstIsLowest(c: char, n: nat, roles: Roles, alloc: seq<Roles>)
    requires |alloc| == NB_ASM_REGS && n <= NB_ASM_REGS && c != 'A' && forall k: int :: k in Allowed(c) <==> 0 <= k < n
    ensures var r := FirstFree(alloc, roles, 0, n);
            (r.Some? <==> exists reg :: IsFree(c, reg, roles, alloc)) && (r.Some? ==> Lowest(c, r.value, roles, alloc))
  {
    forall k ensures IsFree(c, k, roles, alloc) <==> 0 <= k < n && !Clash(alloc[k], roles) { FreeIs(c, k, roles, alloc); }
    var r := FirstFree(alloc, roles, 0, n);
    if r.Some? { assert IsFree(c, r.value, roles, alloc); }
    hide IsFree, Clash, Allowed, FirstFree;
  }

  lemma NamedIsLowest(c: char, reg: nat, roles: Roles, alloc: seq<Roles>)
    requires |alloc| == NB_ASM_REGS && reg < NB_ASM_REGS && c != 'A' && Allowed(c) == {reg as int}
    ensures !Clash(alloc[reg], roles) <==> exists k :: IsFree(c, k, roles, alloc)
    ensures !Clash(alloc[reg], roles) ==> Lowest(c, reg, roles, alloc)
  {
    forall k ensures IsFree(c, k, roles, alloc) <==> k == reg && !Clash(alloc[reg], roles) { FreeIs(c, k, roles, alloc); }
    hide IsFree, Clash, Allowed;
    if !Clash(alloc[reg], roles) { assert IsFree(c, reg, roles, alloc); }
  }

  lemma PairIsLowest(roles: Roles, alloc: seq<Roles>)
    requires |alloc| == NB_ASM_REGS
    ensures var free := !Clash(alloc[0], roles) && !Clash(alloc[2], roles);
            (free <==> exists k :: IsFree('A', k, roles, alloc)) && (free ==> Lowest('A', 0, roles, alloc))
  {
    forall k ensures IsFree('A', k, roles, alloc) <==> k == 0 && !Clash(alloc[0], roles) && !Clash(alloc[2], roles) {
      hide Clash;
    }
    hide IsFree, Clash;
    if !Clash(alloc[0], roles) && !Clash(alloc[2], roles) { assert IsFree('A', 0, roles, alloc); }
  }

  lemma NamedRegIs(c: char)
    ensures OneRegister(c) <==> NamedReg(c) >= 0
    ensures OneRegister(c) ==> NamedReg(c) < NB_ASM_REGS && Allowed(c) == {NamedReg(c)}
  {}

  lemma ConstantTests(vtR: bv32)
    ensures vtR & (VT_VALMASK | VT_LVAL) == VT_CONST <==> IsConstant(vtR)
    ensures vtR & (VT_VALMASK | VT_LVAL | VT_SYM) == VT_CONST <==> IsConstant(vtR) && vtR & VT_SYM == 0
  {}

  lemma FittingIs(vtR: bv32, isOutput: bool, c: char, roles: Roles, rw: bool, alloc: seq<Roles>)
    requires |alloc| == NB_ASM_REGS
    ensures var g := Fitting(vtR, isOutput, c, roles, rw, alloc);
            (g.Some? <==> LetterFits(vtR, isOutput, c, roles, alloc)) &&
            (g.Some? ==> GrantFits(vtR, isOutput, c, roles, rw, alloc, g.value))
  {
    NamedRegIs(c);
    ConstantTests(vtR);
    hide NamedReg, FirstFree, Clash, IsFree, Lowest, IsConstant;
    if c == 'A' {
      PairIsLowest(roles, alloc);
    } else if OneRegister(c) {
      NamedIsLowest(c, NamedReg(c), roles, alloc);
    } else if c == 'q' {
      FirstIsLowest(c, 4, roles, alloc);
    } else if c == 'r' {
      FirstIsLowest(c, 8, roles, alloc);
    } else if NeedsPointer(vtR, isOutput, c) {
      FirstIsLowest(c, 8, IN, alloc);
    }
  }

  // The roles in which the letter at k is tried: both behind a mark that asks for them.
  function RolesAt(s: string, k: nat, roles: Roles): Roles
    requires k <= |s|
  {
    if '+' in s[..k] || '&' in s[..k] then BOTH else roles
  }

  // The characters in front of k are marks that the operand may have, and letters that do
  // not fit.
  ghost predicate PassedOver(vtR: bv32, isOutput: bool, s: string, k: nat, roles: Roles, alloc: seq<Roles>)
    requires |alloc| == NB_ASM_REGS && k <= |s|
  {
    forall i :: 0 <= i < k ==>
      s[i] == '=' || ((s[i] == '+' || s[i] == '&') && isOutput) ||
      (IsLetter(s[i]) && !LetterFits(vtR, isOutput, s[i], RolesAt(s, i, roles), alloc))
  }

  predicate IsLetter(c: char) { ForRegister(c) || ForMemory(c) || c == 'i' || c == 'I' || c == 'N' || c == 'M' }

  // The letter at k is the first that fits.
  ghost predicate Chosen(vtR: bv32, isOutput: bool, s: string, k: nat, roles: Roles, alloc: seq<Roles>)
    requires |alloc| == NB_ASM_REGS
  {
    k < |s| && PassedOver(vtR, isOutput, s, k, roles, alloc) && IsLetter(s[k]) &&
    LetterFits(vtR, isOutput, s[k], RolesAt(s, k, roles), alloc)
  }

  // What may stand in front of the chosen letter.
  ghost predicate PassesOne(vtR: bv32, isOutput: bool, c: char, roles: Roles, alloc: seq<Roles>)
    requires |alloc| == NB_ASM_REGS
  {
    c == '=' || ((c == '+' || c == '&') && isOutput) || (IsLetter(c) && !LetterFits(vtR, isOutput, c, roles, alloc))
  }

  function NextRoles(c: char, roles: Roles): Roles { if c == '+' || c == '&' then BOTH else roles }

  lemma RolesStep(s: string, k: nat, roles: Roles)
    requires k < |s|
    ensures RolesAt(s, k + 1, roles) == RolesAt(s[1..], k, NextRoles(s[0], roles))
    ensures '+' in s[..k + 1] <==> s[0] == '+' || '+' in s[1..][..k]
  {
    assert s[..k + 1] == [s[0]] + s[1..][..k];
  }

  lemma PassedStep(vtR: bv32, isOutput: bool, s: string, k: nat, roles: Roles, alloc: seq<Roles>)
    requires |alloc| == NB_ASM_REGS && k < |s|
    ensures PassedOver(vtR, isOutput, s, k + 1, roles, alloc) <==>
            PassesOne(vtR, isOutput, s[0], roles, alloc) &&
            PassedOver(vtR, isOutput, s[1..], k, NextRoles(s[0], roles), alloc)
  {
    hide LetterFits, IsLetter, RolesAt;
    assert RolesAt(s, 0, roles) == roles by { assert s[..0] == []; RolesNone(s, roles); }
    forall i: nat | i < k ensures RolesAt(s, i + 1, roles) == RolesAt(s[1..], i, NextRoles(s[0], roles)) && s[i + 1] == s[1..][i] {
      RolesStep(s, i, roles);
    }
    hide NextRoles;
    if PassedOver(vtR, isOutput, s, k + 1, roles, alloc) {
      forall i: nat | i < k ensures s[1..][i] == s[i + 1] && 0 <= i + 1 < k + 1 {}
    }
    if PassedOver(vtR, isOutput, s[1..], k, NextRoles(s[0], roles), alloc) {
      forall i: nat | 0 < i < k + 1
        ensures s[i] == s[1..][i - 1] && RolesAt(s, i, roles) == RolesAt(s[1..], i - 1, NextRoles(s[0], roles))
      {
        RolesStep(s, i - 1, roles);
      }
    }
  }

  lemma RolesNone(s: string, roles: Roles)
    ensures RolesAt(s, 0, roles) == roles
  {}

  lemma ChosenStep(vtR: bv32, isOutput: bool, s: string, k: nat, roles: Roles, alloc: seq<Roles>)
    requires |alloc| == NB_ASM_REGS && s != []
    ensures Chosen(vtR, isOutput, s, k + 1, roles, alloc) <==>
            PassesOne(vtR, isOutput, s[0], roles, alloc) &&
            Chosen(vtR, isOutput, s[1..], k, NextRoles(s[0], roles), alloc)
    ensures Chosen(vtR, isOutput, s, 0, roles, alloc) <==> IsLetter(s[0]) && LetterFits(vtR, isOutput, s[0], roles, alloc)
  {
    hide PassedOver, LetterFits, IsLetter, RolesAt, NextRoles, PassesOne;
    if k + 1 < |s| {
      PassedStep(vtR, isOutput, s, k, roles, alloc);
      RolesStep(s, k, roles);
      assert s[1..][k] == s[k + 1];
    }
    RolesNone(s, roles);
    NonePassed(vtR, isOutput, s, roles, alloc);
  }

  lemma NonePassed(vtR: bv32, isOutput: bool, s: string, roles: Roles, alloc: seq<Roles>)
    requires |alloc| == NB_ASM_REGS
    ensures PassedOver(vtR, isOutput, s, 0, roles, alloc)
  {}

  // One character of the constraint, by what it is.
  lemma GrantsStep(vtR: bv32, isOutput: bool, s: string, roles: Roles, rw: bool, alloc: seq<Roles>)
    requires |alloc| == NB_ASM_REGS && s != []
    ensures var g, c := Grants(vtR, isOutput, s, roles, rw, alloc), s[0];
            if IsLetter(c) && LetterFits(vtR, isOutput, c, roles, alloc) then
              g.Some? && GrantFits(vtR, isOutput, c, roles, rw, alloc, g.value)
            else if PassesOne(vtR, isOutput, c, roles, alloc) then
              g == Grants(vtR, isOutput, s[1..], NextRoles(c, roles), rw || c == '+', alloc)
            else g.None?
  {
    FittingIs(vtR, isOutput, s[0], roles, rw, alloc);
    KnownLetters(s[0]);
    FitsLetter(vtR, isOutput, s[0], roles, alloc);
    hide Fitting, LetterFits, GrantFits, LetterPriority, IsLetter;
  }

  lemma KnownLetters(c: char)
    ensures IsLetter(c) <==> LetterPriority(c) >= 0
    ensures IsLetter(c) ==> c != '=' && c != '+' && c != '&'
  {}

  lemma FitsLetter(vtR: bv32, isOutput: bool, c: char, roles: Roles, alloc: seq<Roles>)
    requires |alloc| == NB_ASM_REGS
    ensures LetterFits(vtR, isOutput, c, roles, alloc) ==> IsLetter(c)
  {}

  // An operand is granted something exactly if a letter of its constraint fits behind marks
  // it may have and letters that do not, and then it gets what the first such letter gives.
  lemma {:induction false} GrantsFirst(vtR: bv32, isOutput: bool, s: string, roles: Roles, rw: bool, alloc: seq<Roles>) returns (k: nat)
    requires |alloc| == NB_ASM_REGS
    ensures var g := Grants(vtR, isOutput, s, roles, rw, alloc);
            if g.Some? then
              Chosen(vtR, isOutput, s, k, roles, alloc) &&
              GrantFits(vtR, isOutput, s[k], RolesAt(s, k, roles), rw || '+' in s[..k], alloc, g.value)
            else forall i: nat :: !Chosen(vtR, isOutput, s, i, roles, alloc)
    decreases |s|
  {
    k := 0;
    hide Chosen, GrantFits, RolesAt, LetterFits, IsLetter, PassesOne;
    if s == [] {
      NothingChosen(vtR, isOutput, roles, alloc);
    } else {
      GrantsStep(vtR, isOutput, s, roles, rw, alloc);
      RolesNone(s, roles);
      var c := s[0];
      hide Grants, NextRoles;
      if IsLetter(c) && LetterFits(vtR, isOutput, c, roles, alloc) {
        ChosenStep(vtR, isOutput, s, 0, roles, alloc);
        assert s[..0] == [];
      } else {
        var rest := GrantsFirst(vtR, isOutput, s[1..], NextRoles(c, roles), rw || c == '+', alloc);
        forall i: nat ensures Chosen(vtR, isOutput, s, i, roles, alloc) <==>
                              i > 0 && PassesOne(vtR, isOutput, c, roles, alloc) &&
                              Chosen(vtR, isOutput, s[1..], Before(i), NextRoles(c, roles), alloc) {
          ChosenStep(vtR, isOutput, s, Before(i), roles, alloc);
        }
        if Grants(vtR, isOutput, s, roles, rw, alloc).Some? {
          k := rest + 1;
          ChosenInside(vtR, isOutput, s[1..], rest, NextRoles(c, roles), alloc);
          RolesStep(s, rest, roles);
          assert Before(k) == rest && s[k] == s[1..][rest];
        }
      }
    }
  }

  function Before(i: nat): nat { if i == 0 then 0 else i - 1 }

  lemma NothingChosen(vtR: bv32, isOutput: bool, roles: Roles, alloc: seq<Roles>)
    requires |alloc| == NB_ASM_REGS
    ensures forall i: nat :: !Chosen(vtR, isOutput, [], i, roles, alloc)
  {}

  lemma ChosenInside(vtR: bv32, isOutput: bool, s: string, k: nat, roles: Roles, alloc: seq<Roles>)
    requires |alloc| == NB_ASM_REGS && Chosen(vtR, isOutput, s, k, roles, alloc)
    ensures k < |s|
  {}

  // Letters are served the earlier the fewer registers they offer: the pair, one register,
  // four, eight; last those that need none.
  lemma FewerFirst(c: char)
    ensures IsLetter(c) ==>
      LetterPriority(c) ==
        if c == 'A' then 0
        else if !ForRegister(c) then 4
        else if |Allowed(c)| == 1 then 1
        else if |Allowed(c)| == 4 then 2
        else 3
  {
    assert |{0, 1, 2, 3, 4, 5, 6, 7}| == 8 && |{0, 1, 2, 3}| == 4;
  }

  // ----- References between operands -----

  // After the second loop: a reference goes to an earlier operand, which points back, and
  // only from an input.
  predicate Linked(ops: seq<AsmOperand>, nbOutputs: nat) {
    (forall i :: 0 <= i < |ops| ==> -1 <= ops[i].refIndex < i && -1 <= ops[i].inputIndex < |ops|) &&
    (forall i :: 0 <= i < |ops| && ops[i].refIndex >= 0 ==> i >= nbOutputs && ops[ops[i].refIndex].inputIndex == i) &&
    (forall i :: 0 <= i < |ops| && ops[i].inputIndex >= 0 ==> ops[ops[i].inputIndex].refIndex == i)
  }

  // ----- The allocation -----

  // The registers an operand has taken, and in which roles.
  datatype Claim = Claim(regs: set<int>, roles: Roles)

  const NO_CLAIM := Claim({}, NO_ROLE)

  datatype State = State(ops: seq<AsmOperand>, alloc: seq<Roles>, claims: seq<Claim>)

  predicate WellSized(st: State) { |st.alloc| == NB_ASM_REGS && |st.claims| == |st.ops| }

  function Taken(alloc: seq<Roles>, regs: set<int>, roles: Roles): (r: seq<Roles>)
    ensures |r| == |alloc|
  {
    seq(|alloc|, k requires 0 <= k < |alloc| => if k in regs then Join(alloc[k], roles) else alloc[k])
  }

  function Mask(op: AsmOperand, j: int, nbOutputs: nat): Roles {
    if op.inputIndex >= 0 then BOTH else if j < nbOutputs then OUT else IN
  }

  // The operand and the one tied to it after a grant.
  function Granted(st: State, j: nat, g: Grant): State
    requires WellSized(st) && j < |st.ops| && -1 <= st.ops[j].inputIndex < |st.ops|
  {
    var op := st.ops[j].(reg := g.reg, isLlong := if g.llong.Some? then g.llong.value else st.ops[j].isLlong,
                         isMemory := st.ops[j].isMemory || g.memory, isRw := st.ops[j].isRw || g.rw);
    var ops := st.ops[j := op];
    var tied := if op.inputIndex >= 0 then ops[op.inputIndex := ops[op.inputIndex].(reg := op.reg, isLlong := op.isLlong)] else ops;
    State(tied, Taken(st.alloc, g.regs, g.roles), st.claims[j := Claim(g.regs, g.roles)])
  }

  // One turn of the allocation loop.
  function AllocOne(st: State, j: nat, nbOutputs: nat): Option<State>
    requires WellSized(st) && j < |st.ops| && -1 <= st.ops[j].inputIndex < |st.ops|
  {
    var op := st.ops[j];
    if op.refIndex >= 0 then Some(st)
    else
      var g := Grants(op.vtR, j < nbOutputs, op.constraint, Mask(op, j, nbOutputs), false, st.alloc);
      if g.None? then None else Some(Granted(st, j, g.value))
  }

  predicate SameLinks(a: seq<AsmOperand>, b: seq<AsmOperand>) {
    |a| == |b| && forall i :: 0 <= i < |a| ==>
      a[i].refIndex == b[i].refIndex && a[i].inputIndex == b[i].inputIndex && a[i].constraint == b[i].constraint &&
      a[i].vtR == b[i].vtR && a[i].priority == b[i].priority
  }

  lemma AllocOneLinks(st: State, j: nat, nbOutputs: nat)
    requires WellSized(st) && j < |st.ops| && -1 <= st.ops[j].inputIndex < |st.ops| && AllocOne(st, j, nbOutputs).Some?
    ensures WellSized(AllocOne(st, j, nbOutputs).value) && SameLinks(AllocOne(st, j, nbOutputs).value.ops, st.ops)
  {}

  lemma LinksLinked(a: seq<AsmOperand>, b: seq<AsmOperand>, nbOutputs: nat)
    requires SameLinks(a, b) && Linked(b, nbOutputs)
    ensures Linked(a, nbOutputs)
  {}

  // The allocation in the order given.
  function AllocFrom(st: State, order: seq<int>, nbOutputs: nat): (r: Option<State>)
    requires WellSized(st) && Linked(st.ops, nbOutputs) && forall j <- order :: 0 <= j < |st.ops|
    decreases |order|
  {
    if order == [] then Some(st)
    else
      assert order[0] in order;
      var next := AllocOne(st, order[0], nbOutputs);
      if next.None? then None
      else
        assert forall j <- order[1..] :: j in order;
        AllocOneLinks(st, order[0], nbOutputs);
        LinksLinked(next.value.ops, st.ops, nbOutputs);
        AllocFrom(next.value, order[1..], nbOutputs)
  }

  // ----- What the allocation keeps -----

  // The registers taken are those taken at the start and those claimed, each in the roles
  // claimed; no two claims overlap in a role, nor a claim and the start.
  predicate Account(st: State, base: seq<Roles>)
    requires WellSized(st) && |base| == NB_ASM_REGS
  {
    (forall j :: 0 <= j < |st.claims| ==> forall r <- st.claims[j].regs :: 0 <= r < NB_ASM_REGS && !Clash(base[r], st.claims[j].roles)) &&
    (forall j, r :: 0 <= j < |st.claims| && r in st.claims[j].regs ==> Within(st.claims[j].roles, st.alloc[r])) &&
    (forall r :: 0 <= r < NB_ASM_REGS ==> Within(base[r], st.alloc[r])) &&
    (forall j, k :: 0 <= j < k < |st.claims| ==> Apart(st.claims[j], st.claims[k]))
  }

  predicate Within(a: Roles, b: Roles) { (a.input ==> b.input) && (a.output ==> b.output) }

  // Two claims share a register only in different roles.
  predicate Apart(a: Claim, b: Claim) {
    forall r <- a.regs :: r in b.regs ==> !Clash(a.roles, b.roles)
  }

  // How an operand's fields follow from its claim.
  predicate Backed(op: AsmOperand, cl: Claim) {
    op.reg >= -1 && (op.reg >= 0 ==> op.reg in cl.regs && cl.roles != NO_ROLE && Satisfies(op.constraint, op.reg)) && (op.reg == -1 ==> cl.regs == {})
  }

  // j has had its turn, or is not to have one.
  predicate Settled(st: State, done: set<int>)
    requires WellSized(st) && Linked(st.ops, 0)
  {
    (forall j :: 0 <= j < |st.ops| && st.ops[j].refIndex < 0 ==> Backed(st.ops[j], st.claims[j])) &&
    (forall j :: 0 <= j < |st.ops| && (j !in done || st.ops[j].refIndex >= 0) ==> st.claims[j] == NO_CLAIM) &&
    (forall j :: 0 <= j < |st.ops| && st.ops[j].refIndex >= 0 ==> st.ops[j].reg == TiedReg(st, j, done))
  }

  // A tied input has the register of its output once that has had its turn, unless that
  // is itself a reference.
  function TiedReg(st: State, j: int, done: set<int>): int
    requires WellSized(st) && Linked(st.ops, 0) && 0 <= j < |st.ops| && st.ops[j].refIndex >= 0
  {
    var k := st.ops[j].refIndex;
    if st.ops[k].refIndex < 0 && k in done then st.ops[k].reg else -1
  }

  lemma GrantAccount(st: State, j: nat, g: Grant, base: seq<Roles>)
    requires WellSized(st) && |base| == NB_ASM_REGS && Account(st, base) && j < |st.ops| && st.claims[j] == NO_CLAIM
    requires forall r <- g.regs :: 0 <= r < NB_ASM_REGS && !Clash(st.alloc[r], g.roles)
    ensures Account(State(st.ops, Taken(st.alloc, g.regs, g.roles), st.claims[j := Claim(g.regs, g.roles)]), base)
  {}

  // Which operands a grant changes.
  lemma GrantChanges(st: State, j: nat, g: Grant, i: nat)
    requires WellSized(st) && Linked(st.ops, 0) && j < |st.ops| && i < |st.ops|
    ensures Granted(st, j, g).ops[i].reg == (if i == j || i == st.ops[j].inputIndex then g.reg else st.ops[i].reg)
    ensures |Granted(st, j, g).ops| == |st.ops| && SameLinks(Granted(st, j, g).ops, st.ops)
    ensures i == st.ops[j].inputIndex <==> st.ops[i].refIndex == j
  {
    hide Taken;
  }

  lemma GrantSettled(st: State, j: nat, g: Grant, done: set<int>)
    requires WellSized(st) && Linked(st.ops, 0) && Settled(st, done) && j < |st.ops| && j !in done && st.ops[j].refIndex < 0
    requires g.reg >= -1 && (g.reg >= 0 ==> g.reg in g.regs && g.roles != NO_ROLE) && (g.reg == -1 ==> g.regs == {})
    requires g.reg >= 0 ==> Satisfies(st.ops[j].constraint, g.reg)
    ensures var now := Granted(st, j, g); WellSized(now) && Linked(now.ops, 0) && Settled(now, done + {j})
  {
    var now := Granted(st, j, g);
    GrantChanges(st, j, g, j);
    LinksLinked(now.ops, st.ops, 0);
    forall i: nat | i < |st.ops|
      ensures now.ops[i].reg == (if i == j || i == st.ops[j].inputIndex then g.reg else st.ops[i].reg)
      ensures i == st.ops[j].inputIndex <==> st.ops[i].refIndex == j
    {
      GrantChanges(st, j, g, i);
    }
    assert Changed(st, now, j, g);
    hide Taken, Granted, Linked, Changed, Satisfies;
    BackedStays(st, now, j, g, done);
    TiesStay(st, now, j, g, done);
  }

  // The operands before and after a grant to j.
  predicate Changed(st: State, now: State, j: nat, g: Grant) {
    WellSized(st) && |now.ops| == |st.ops| && j < |st.ops| && now.claims == st.claims[j := Claim(g.regs, g.roles)] &&
    SameLinks(now.ops, st.ops) &&
    forall i :: 0 <= i < |st.ops| ==>
      now.ops[i].reg == (if i == j || st.ops[i].refIndex == j then g.reg else st.ops[i].reg)
  }

  lemma BackedStays(st: State, now: State, j: nat, g: Grant, done: set<int>)
    requires Changed(st, now, j, g) && WellSized(now) && Linked(st.ops, 0) && Linked(now.ops, 0) && Settled(st, done)
    requires g.reg >= -1 && (g.reg >= 0 ==> g.reg in g.regs && g.roles != NO_ROLE) && (g.reg == -1 ==> g.regs == {})
    requires g.reg >= 0 ==> Satisfies(st.ops[j].constraint, g.reg)
    ensures forall i :: 0 <= i < |now.ops| && now.ops[i].refIndex < 0 ==> Backed(now.ops[i], now.claims[i])
    ensures forall i :: 0 <= i < |now.ops| && i != j && (i !in done || now.ops[i].refIndex >= 0) ==> now.claims[i] == NO_CLAIM
  {}

  lemma TiesStay(st: State, now: State, j: nat, g: Grant, done: set<int>)
    requires Changed(st, now, j, g) && WellSized(now) && Linked(st.ops, 0) && Linked(now.ops, 0) && Settled(st, done)
    requires j !in done && st.ops[j].refIndex < 0
    ensures forall i :: 0 <= i < |now.ops| && now.ops[i].refIndex >= 0 ==> now.ops[i].reg == TiedReg(now, i, done + {j})
    ensures now.ops[j].refIndex < 0
  {}

  // One turn keeps the account and settles its operand.
  lemma AllocOneKeeps(st: State, j: nat, nbOutputs: nat, base: seq<Roles>, done: set<int>)
    requires WellSized(st) && Linked(st.ops, 0) && |base| == NB_ASM_REGS && Account(st, base) && Settled(st, done)
    requires j < |st.ops| && j !in done && AllocOne(st, j, nbOutputs).Some?
    ensures var now := AllocOne(st, j, nbOutputs).value;
            WellSized(now) && Linked(now.ops, 0) && Account(now, base) && Settled(now, done + {j})
  {
    var op := st.ops[j];
    if op.refIndex < 0 {
      var mask := Mask(op, j, nbOutputs);
      GrantsGood(op.vtR, j < nbOutputs, op.constraint, mask, false, st.alloc);
      GrantsRoles(op.vtR, j < nbOutputs, op.constraint, mask, false, st.alloc);
      var g := Grants(op.vtR, j < nbOutputs, op.constraint, mask, false, st.alloc).value;
      assert g.reg >= 0 ==> g.roles != NO_ROLE;
      hide Grants, Taken, Clash, Account, Settled, Linked, Satisfies;
      GrantAccount(st, j, g, base);
      GrantSettled(st, j, g, done);
      AccountClaims(Granted(st, j, g), st.ops, base);
    } else {
      hide Grants, Account, Clash;
      forall i | 0 <= i < |st.ops| && st.ops[i].refIndex >= 0 ensures TiedReg(st, i, done + {j}) == TiedReg(st, i, done) {}
    }
  }

  // The account does not depend on the operands' fields.
  lemma AccountClaims(st: State, ops: seq<AsmOperand>, base: seq<Roles>)
    requires |base| == NB_ASM_REGS && |ops| == |st.ops| && WellSized(st) && Account(State(ops, st.alloc, st.claims), base)
    ensures Account(st, base)
  {}

  lemma LinksTwice(a: seq<AsmOperand>, b: seq<AsmOperand>, c: seq<AsmOperand>)
    requires SameLinks(a, b) && SameLinks(b, c)
    ensures SameLinks(a, c)
  {}

  lemma SetOf(order: seq<int>, done: set<int>)
    requires forall a, b :: 0 <= a < b < |order| ==> order[a] != order[b]
    ensures order == [] ==> done + (set j <- order) == done
    ensures order != [] ==> order[0] in order && forall k <- order[1..] :: k in order && k != order[0]
    ensures order != [] ==> done + {order[0]} + (set k <- order[1..]) == done + (set k <- order)
  {}

  // A whole allocation, over operands none of which comes twice.
  lemma {:induction false} AllocFromKeeps(st: State, order: seq<int>, nbOutputs: nat, base: seq<Roles>, done: set<int>)
    requires WellSized(st) && Linked(st.ops, nbOutputs) && |base| == NB_ASM_REGS && Account(st, base) && Settled(st, done)
    requires forall j <- order :: 0 <= j < |st.ops| && j !in done
    requires forall a, b :: 0 <= a < b < |order| ==> order[a] != order[b]
    requires AllocFrom(st, order, nbOutputs).Some?
    ensures var now := AllocFrom(st, order, nbOutputs).value;
            WellSized(now) && Linked(now.ops, nbOutputs) && SameLinks(now.ops, st.ops) && Account(now, base) &&
            Settled(now, done + set j <- order)
    decreases |order|
  {
    SetOf(order, done);
    if order != [] {
      var j := order[0];
      var next := AllocOne(st, j, nbOutputs).value;
      AllocOneLinks(st, j, nbOutputs);
      LinksLinked(next.ops, st.ops, nbOutputs);
      hide AllocOne, Account, Settled;
      AllocOneKeeps(st, j, nbOutputs, base, done);
      hide Linked, SameLinks;
      AllocFromKeeps(next, order[1..], nbOutputs, base, done + {j});
      LinksTwice(AllocFrom(next, order[1..], nbOutputs).value.ops, next.ops, st.ops);
    }
  }

  // ----- The start and the end -----

  function Initial(clobbered: seq<bool>): (r: seq<Roles>)
    requires |clobbered| == NB_ASM_REGS
    ensures |r| == NB_ASM_REGS
  {
    seq(NB_ASM_REGS, k requires 0 <= k < NB_ASM_REGS => if clobbered[k] || k == 4 || k == 5 then BOTH else NO_ROLE)
  }

  function Start(ops: seq<AsmOperand>, clobbered: seq<bool>): State
    requires |clobbered| == NB_ASM_REGS
  {
    State(ops, Initial(clobbered), seq(|ops|, _ => NO_CLAIM))
  }

  // The order of the allocation: every operand once, by priority.
  predicate IsOrder(order: seq<int>, n: nat) {
    |order| == n && (forall k :: 0 <= k < n ==> 0 <= order[k] < n) && (forall a, b :: 0 <= a < b < n ==> order[a] != order[b]) &&
    Covers(order, n)
  }

  predicate Covers(order: seq<int>, n: nat) {
    forall j :: 0 <= j < n ==> j in order
  }

  predicate ByPriority(order: seq<int>, ops: seq<AsmOperand>)
    requires forall k :: 0 <= k < |order| ==> 0 <= order[k] < |ops|
  {
    forall a, b :: 0 <= a < b < |order| ==> ops[order[a]].priority <= ops[order[b]].priority
  }

  lemma StartGood(ops: seq<AsmOperand>, clobbered: seq<bool>, nbOutputs: nat)
    requires |clobbered| == NB_ASM_REGS && Linked(ops, nbOutputs) && forall op <- ops :: op.reg == -1
    ensures var st := Start(ops, clobbered); WellSized(st) && Account(st, Initial(clobbered)) && Settled(st, {})
  {
    hide Clash;
  }

  // No operand holds the stack or frame pointer or a clobbered register, also not as the
  // second half of a pair; operands that share a register use it in different roles.
  predicate NoInterference(st: State, clobbered: seq<bool>)
    requires WellSized(st) && |clobbered| == NB_ASM_REGS
  {
    (forall j, r :: 0 <= j < |st.claims| && r in st.claims[j].regs && st.claims[j].roles != NO_ROLE ==>
       0 <= r < NB_ASM_REGS && r != 4 && r != 5 && !clobbered[r]) &&
    (forall j, k, r :: 0 <= j < k < |st.claims| && r in st.claims[j].regs && r in st.claims[k].regs ==>
       !Clash(st.claims[j].roles, st.claims[k].roles))
  }

  // An input tied to an output has the output's register; tied to another input that is
  // itself tied, it has none.
  predicate TiesHold(ops: seq<AsmOperand>)
    requires Linked(ops, 0)
  {
    forall i :: 0 <= i < |ops| && ops[i].refIndex >= 0 ==>
      ops[i].reg == if ops[ops[i].refIndex].refIndex < 0 then ops[ops[i].refIndex].reg else -1
  }

  // Every order of allocation that succeeds is safe.
  lemma AllocationSafe(ops: seq<AsmOperand>, order: seq<int>, nbOutputs: nat, clobbered: seq<bool>)
    requires |clobbered| == NB_ASM_REGS && Linked(ops, nbOutputs) && IsOrder(order, |ops|) && forall op <- ops :: op.reg == -1
    requires AllocFrom(Start(ops, clobbered), order, nbOutputs).Some?
    ensures var st := AllocFrom(Start(ops, clobbered), order, nbOutputs).value;
            WellSized(st) && Linked(st.ops, 0) && SameLinks(st.ops, ops) && NoInterference(st, clobbered) && TiesHold(st.ops) &&
            Account(st, Initial(clobbered)) &&
            (forall j :: 0 <= j < |ops| && ops[j].refIndex < 0 ==> Backed(st.ops[j], st.claims[j])) &&
            (forall j, r :: 0 <= j < |ops| && r in st.claims[j].regs ==> 0 <= r < |st.alloc| && Within(st.claims[j].roles, st.alloc[r]))
  {
    StartGood(ops, clobbered, nbOutputs);
    AllocFromKeeps(Start(ops, clobbered), order, nbOutputs, Initial(clobbered), {});
    var st := AllocFrom(Start(ops, clobbered), order, nbOutputs).value;
    hide AllocFrom;
    var done := {} + set j <- order;
    forall j | 0 <= j < |ops| ensures j in done {}
    AccountSafe(st, clobbered);
    hide Account, NoInterference, SameLinks;
  }

  lemma AccountSafe(st: State, clobbered: seq<bool>)
    requires WellSized(st) && |clobbered| == NB_ASM_REGS && Account(st, Initial(clobbered))
    ensures NoInterference(st, clobbered)
    ensures forall j, r :: 0 <= j < |st.ops| && r in st.claims[j].regs ==> 0 <= r < |st.alloc| && Within(st.claims[j].roles, st.alloc[r])
  {}

  // ----- The roles in which registers are taken -----

  // An operand takes its register to write it if it is an output, and to read it if it is an
  // input, tied to one, or both; an output that is neither may share its register with an
  // input unless it is marked as written early. A pointer is read. It is a long long if it
  // holds the pair.
  predicate Serves(op: AsmOperand, cl: Claim, isOutput: bool) {
    op.reg >= 0 ==>
      var tied := op.inputIndex >= 0;
      if op.isMemory then cl.roles == IN
      else
        (cl.roles.output <==> isOutput || tied) && (!isOutput || tied || op.isRw ==> cl.roles.input) &&
        (cl.roles.input ==> !isOutput || tied || '+' in op.constraint || '&' in op.constraint) &&
        (op.isLlong <==> cl.regs == {TREG_EAX, TREG_EDX})
  }

  predicate Serving(st: State, nbOutputs: nat, done: set<int>)
    requires WellSized(st)
  {
    (forall j :: 0 <= j < |st.ops| && st.ops[j].refIndex < 0 ==>
      if j in done then Serves(st.ops[j], st.claims[j], j < nbOutputs) else !st.ops[j].isMemory && !st.ops[j].isRw) &&
    forall j :: 0 <= j < |st.ops| && st.ops[j].refIndex in done ==> SharesPair(st.ops, j)
  }

  // An operand tied to one that is not tied itself is a long long exactly if that one is.
  predicate SharesPair(ops: seq<AsmOperand>, j: int)
    requires 0 <= j < |ops|
  {
    0 <= ops[j].refIndex < |ops| && ops[ops[j].refIndex].refIndex < 0 ==> ops[j].isLlong == ops[ops[j].refIndex].isLlong
  }

  lemma RolesGranted(vtR: bv32, isOutput: bool, s: string, mask: Roles, alloc: seq<Roles>)
    requires |alloc| == NB_ASM_REGS && Grants(vtR, isOutput, s, mask, false, alloc).Some?
    ensures var g := Grants(vtR, isOutput, s, mask, false, alloc).value;
            g.reg >= 0 ==>
              if g.memory then g.roles == IN
              else (g.roles == mask || (g.roles == BOTH && isOutput && ('+' in s || '&' in s))) && (g.rw ==> g.roles == BOTH) &&
                   g.llong == Some(g.regs == {TREG_EAX, TREG_EDX})
  {
    hide Grants, LetterFits, Lowest;
    var k := GrantsFirst(vtR, isOutput, s, mask, false, alloc);
    assert PassedOver(vtR, isOutput, s, k, mask, alloc);
    MarksPassed(vtR, isOutput, s, k, mask, alloc);
    hide PassedOver, Chosen;
  }

  // Only an output can have its roles widened.
  lemma MarksPassed(vtR: bv32, isOutput: bool, s: string, k: nat, roles: Roles, alloc: seq<Roles>)
    requires |alloc| == NB_ASM_REGS && k <= |s| && PassedOver(vtR, isOutput, s, k, roles, alloc)
    ensures '+' in s[..k] || '&' in s[..k] ==> isOutput && ('+' in s || '&' in s)
    ensures '+' in s[..k] ==> RolesAt(s, k, roles) == BOTH
  {
    hide LetterFits;
    assert forall c <- s[..k] :: c in s;
  }

  // What a grant leaves of the operands: j has what was granted, those tied to it share the
  // long long, the others stay.
  ghost predicate Shared(st: State, now: State, j: nat, g: Grant) {
    |now.ops| == |st.ops| == |st.claims| == |now.claims| && j < |st.ops| &&
    (forall i :: 0 <= i < |st.ops| ==> now.ops[i].refIndex == st.ops[i].refIndex && KeepsRest(st, now, j, i)) &&
    now.claims[j] == Claim(g.regs, g.roles) && now.ops[j].reg == g.reg && now.ops[j].inputIndex == st.ops[j].inputIndex &&
    now.ops[j].constraint == st.ops[j].constraint && now.ops[j].isMemory == (st.ops[j].isMemory || g.memory) &&
    now.ops[j].isRw == (st.ops[j].isRw || g.rw) && (g.llong.Some? ==> now.ops[j].isLlong == g.llong.value)
  }

  predicate KeepsRest(st: State, now: State, j: nat, i: int)
    requires |now.ops| == |st.ops| == |st.claims| == |now.claims| && j < |st.ops| && 0 <= i < |st.ops|
  {
    if i == j then true
    else
      now.claims[i] == st.claims[i] &&
      (if st.ops[i].refIndex == j then now.ops[i].isLlong == now.ops[j].isLlong else now.ops[i] == st.ops[i])
  }

  lemma GrantShares(st: State, j: nat, g: Grant, nbOutputs: nat)
    requires WellSized(st) && Linked(st.ops, nbOutputs) && j < |st.ops| && st.ops[j].refIndex < 0
    ensures Shared(st, Granted(st, j, g), j, g)
  {
    hide Taken;
    var now := Granted(st, j, g);
    assert st.ops[j].inputIndex != j;
    forall i: nat | i < |st.ops| ensures now.ops[i].refIndex == st.ops[i].refIndex && KeepsRest(st, now, j, i) {
      assert st.ops[i].refIndex == j <==> i == st.ops[j].inputIndex;
    }
  }

  lemma ServeOne(st: State, j: nat, nbOutputs: nat, done: set<int>)
    requires WellSized(st) && Linked(st.ops, nbOutputs) && Serving(st, nbOutputs, done) && j < |st.ops| && j !in done
    requires AllocOne(st, j, nbOutputs).Some?
    ensures var now := AllocOne(st, j, nbOutputs).value; WellSized(now) && Serving(now, nbOutputs, done + {j})
  {
    var op := st.ops[j];
    if op.refIndex < 0 {
      var mask := Mask(op, j, nbOutputs);
      RolesGranted(op.vtR, j < nbOutputs, op.constraint, mask, st.alloc);
      var g := Grants(op.vtR, j < nbOutputs, op.constraint, mask, false, st.alloc).value;
      GrantShares(st, j, g, nbOutputs);
      hide Grants, Granted, Linked;
      var now := Granted(st, j, g);
      assert now == AllocOne(st, j, nbOutputs).value;
      assert !op.isMemory && !op.isRw;
      ServesNow(st, now, j, g, nbOutputs, mask);
      hide Serves, Mask;
      PairsNow(st, now, j, g, nbOutputs, done);
      AllocOneLinks(st, j, nbOutputs);
    } else {
      hide Serves, Grants;
      forall i | 0 <= i < |st.ops| && st.ops[i].refIndex in done + {j} ensures SharesPair(st.ops, i) {}
    }
  }

  lemma ServesNow(st: State, now: State, j: nat, g: Grant, nbOutputs: nat, mask: Roles)
    requires Shared(st, now, j, g) && !st.ops[j].isMemory && !st.ops[j].isRw && mask == Mask(st.ops[j], j, nbOutputs)
    requires g.reg >= 0 ==>
      if g.memory then g.roles == IN
      else (g.roles == mask || (g.roles == BOTH && j < nbOutputs && ('+' in st.ops[j].constraint || '&' in st.ops[j].constraint))) &&
           (g.rw ==> g.roles == BOTH) && g.llong == Some(g.regs == {TREG_EAX, TREG_EDX})
    ensures Serves(now.ops[j], now.claims[j], j < nbOutputs)
  {
    hide KeepsRest;
  }

  lemma PairsNow(st: State, now: State, j: nat, g: Grant, nbOutputs: nat, done: set<int>)
    requires Shared(st, now, j, g) && WellSized(st) && Serving(st, nbOutputs, done) && j !in done && st.ops[j].refIndex < 0
    requires WellSized(now) && Serves(now.ops[j], now.claims[j], j < nbOutputs)
    ensures Serving(now, nbOutputs, done + {j})
  {
    hide Serves;
    forall i | 0 <= i < |now.ops| && now.ops[i].refIndex in done + {j} ensures SharesPair(now.ops, i) {
      assert KeepsRest(st, now, j, i);
      if now.ops[i].refIndex != j {
        assert SharesPair(st.ops, i);
        if 0 <= now.ops[i].refIndex < |now.ops| { assert KeepsRest(st, now, j, now.ops[i].refIndex); }
      }
    }
    forall i | 0 <= i < |now.ops| && now.ops[i].refIndex < 0 && i != j ensures now.ops[i] == st.ops[i] && now.claims[i] == st.claims[i] {
      assert KeepsRest(st, now, j, i);
    }
  }

  lemma {:induction false} AllServe(st: State, order: seq<int>, nbOutputs: nat, done: set<int>)
    requires WellSized(st) && Linked(st.ops, nbOutputs) && Serving(st, nbOutputs, done)
    requires forall j <- order :: 0 <= j < |st.ops| && j !in done
    requires forall a, b :: 0 <= a < b < |order| ==> order[a] != order[b]
    requires AllocFrom(st, order, nbOutputs).Some?
    ensures var now := AllocFrom(st, order, nbOutputs).value;
            WellSized(now) && |now.ops| == |st.ops| && Serving(now, nbOutputs, done + set j <- order)
    decreases |order|
  {
    SetOf(order, done);
    if order != [] {
      var j := order[0];
      var next := AllocOne(st, j, nbOutputs).value;
      AllocOneLinks(st, j, nbOutputs);
      LinksLinked(next.ops, st.ops, nbOutputs);
      hide AllocOne, Serving;
      ServeOne(st, j, nbOutputs, done);
      hide Linked, SameLinks;
      AllServe(next, order[1..], nbOutputs, done + {j});
    }
  }

  // After a whole allocation every register is taken in the roles in which the statement
  // uses it.
  lemma RegistersServe(ops: seq<AsmOperand>, order: seq<int>, nbOutputs: nat, clobbered: seq<bool>)
    requires |clobbered| == NB_ASM_REGS && Linked(ops, nbOutputs) && IsOrder(order, |ops|)
    requires forall op <- ops :: !op.isMemory && !op.isRw
    requires AllocFrom(Start(ops, clobbered), order, nbOutputs).Some?
    ensures var st := AllocFrom(Start(ops, clobbered), order, nbOutputs).value;
            WellSized(st) && |st.ops| == |ops| &&
            (forall j :: 0 <= j < |ops| && st.ops[j].refIndex < 0 ==> Serves(st.ops[j], st.claims[j], j < nbOutputs)) &&
            forall j :: 0 <= j < |ops| ==> SharesPair(st.ops, j)
  {
    AllServe(Start(ops, clobbered), order, nbOutputs, {});
    var st := AllocFrom(Start(ops, clobbered), order, nbOutputs).value;
    hide AllocFrom, Serves;
    var done := {} + set j <- order;
    forall j | 0 <= j < |ops| ensures j in done {}
  }

  // The register for reloading: the lowest that no output uses.
  function OutReg(st: State, i: nat): Option<int>
    requires WellSized(st)
    decreases |st.ops| - i
  {
    if i >= |st.ops| then Some(-1)
    else if st.ops[i].reg >= 0 && st.ops[i].vtR & VT_VALMASK == VT_LLOCAL && !st.ops[i].isMemory then
      var r := FirstFree(st.alloc, OUT, 0, 8);
      if r.Some? then Some(r.value) else None
    else OutReg(st, i + 1)
  }

  // An output whose address is in memory must be reloaded to be stored.
  predicate MustReload(op: AsmOperand) { op.reg >= 0 && op.vtR & 0xff == VT_LLOCAL && !op.isMemory }

  // A register for reloading is sought exactly if an operand needs it; it is the lowest that
  // no output uses.
  lemma {:induction false} ReloadWhenNeeded(st: State, i: nat)
    requires WellSized(st) && i <= |st.ops|
    ensures var r := OutReg(st, i);
            if forall j :: i <= j < |st.ops| ==> !MustReload(st.ops[j]) then r == Some(-1)
            else if forall k :: 0 <= k < NB_ASM_REGS ==> st.alloc[k].output then r.None?
            else r.Some? && 0 <= r.value < NB_ASM_REGS && !st.alloc[r.value].output &&
                 forall k :: 0 <= k < r.value ==> st.alloc[k].output
    decreases |st.ops| - i
  {
    if i < |st.ops| && !MustReload(st.ops[i]) { ReloadWhenNeeded(st, i + 1); }
  }

  lemma {:induction false} OutRegFree(st: State, i: nat, clobbered: seq<bool>)
    requires WellSized(st) && |clobbered| == NB_ASM_REGS && Account(st, Initial(clobbered)) && OutReg(st, i).Some?
    ensures var r := OutReg(st, i).value; r == -1 || (0 <= r < NB_ASM_REGS && r != 4 && r != 5 && !clobbered[r])
    ensures var r := OutReg(st, i).value; r >= 0 ==>
              forall j :: 0 <= j < |st.claims| && r in st.claims[j].regs ==> !st.claims[j].roles.output
    decreases |st.ops| - i
  {
    if i < |st.ops| && !(st.ops[i].reg >= 0 && st.ops[i].vtR & VT_VALMASK == VT_LLOCAL && !st.ops[i].isMemory) {
      OutRegFree(st, i + 1, clobbered);
    } else if i < |st.ops| {
      var r := FirstFree(st.alloc, OUT, 0, 8).value;
      assert Within(Initial(clobbered)[r], st.alloc[r]);
    }
  }

  // ----- The code -----

  function Blank(op: AsmOperand): AsmOperand {
    op.(inputIndex := -1, refIndex := -1, reg := -1, isMemory := false, isRw := false)
  }

  // "Init fields".
  method InitFields(operands: array<AsmOperand>)
    modifies operands
    ensures forall i :: 0 <= i < operands.Length ==> operands[i] == Blank(old(operands[i]))
  {
    for i := 0 to operands.Length
      invariant forall k :: 0 <= k < i ==> operands[k] == Blank(old(operands[k]))
      invariant forall k :: i <= k < operands.Length ==> operands[k] == old(operands[k])
    {
      operands[i] := Blank(operands[i]);
    }
  }

  method SkipConstraintModifiers(s: string) returns (r: string)
    ensures r == SkipModifiers(s)
  {
    r := s;
    while r != [] && IsModifier(r[0])
      invariant SkipModifiers(s) == SkipModifiers(r)
    {
      r := r[1..];
    }
  }

  method ConstraintPriority(s: string) returns (priority: Option<int>)
    ensures priority == Priority(s)
  {
    var p := 0;
    for i := 0 to |s|
      invariant Priority(s[..i]) == Some(p)
    {
      assert s[..i + 1][..i] == s[..i];
      var pr := LetterPriority(s[i]);
      if pr < 0 {
        UnknownStays(s, i + 1);
        return None;
      }
      if pr > p { p := pr; }
    }
    assert s[..|s|] == s;
    priority := Some(p);
  }

  lemma {:induction false} UnknownStays(s: string, i: nat)
    requires i <= |s| && Priority(s[..i]).None?
    ensures Priority(s).None?
    decreases |s|
  {
    if i == |s| {
      assert s[..i] == s;
    } else {
      assert s[..|s| - 1][..i] == s[..i];
      UnknownStays(s[..|s| - 1], i);
    }
  }

  // What the second loop makes of operand a: a reference and its target, or a priority.
  predicate Resolves(ops: seq<AsmOperand>, a: nat, nbOutputs: nat, tokOf: string -> int, op: AsmOperand)
    requires a < |ops|
  {
    var s := SkipModifiers(ops[a].constraint);
    if IsReference(s) then
      op.refIndex == FindConstraint(ops, s, tokOf) && op.priority == 5 && 0 <= op.refIndex < a && a >= nbOutputs
    else op.refIndex == -1 && Priority(s) == Some(op.priority)
  }

  predicate SameInput(a: AsmOperand, b: AsmOperand) {
    a.id == b.id && a.constraint == b.constraint && a.vtR == b.vtR && a.reg == b.reg && a.isMemory == b.isMemory && a.isRw == b.isRw
  }

  // The first i operands are done.
  predicate Resolved(ops: seq<AsmOperand>, now: seq<AsmOperand>, i: nat, nbOutputs: nat, tokOf: string -> int) {
    |now| == |ops| && i <= |ops| && (forall a :: 0 <= a < |ops| ==> SameInput(now[a], ops[a])) &&
    (forall a :: 0 <= a < i ==> Resolves(ops, a, nbOutputs, tokOf, now[a])) &&
    (forall a :: i <= a < |ops| ==> now[a].refIndex == -1) &&
    (forall a :: 0 <= a < i && now[a].refIndex >= 0 ==> now[a].refIndex < a && now[now[a].refIndex].inputIndex == a) &&
    (forall a :: 0 <= a < |ops| && now[a].inputIndex >= 0 ==> now[a].inputIndex < i && now[now[a].inputIndex].refIndex == a) &&
    (forall a :: 0 <= a < |ops| ==> now[a].inputIndex >= -1 && now[a].refIndex >= -1)
  }

  lemma SameFind(ops: seq<AsmOperand>, now: seq<AsmOperand>, s: string, tokOf: string -> int)
    requires |now| == |ops| && forall a :: 0 <= a < |ops| ==> SameInput(now[a], ops[a])
    ensures FindConstraint(now, s, tokOf) == FindConstraint(ops, s, tokOf)
  {
    if s != [] && s[0] == '[' && UpTo(s[1..], ']').Some? {
      SameIndex(ops, now, 0, tokOf(UpTo(s[1..], ']').value));
    }
  }

  lemma {:induction false} SameIndex(ops: seq<AsmOperand>, now: seq<AsmOperand>, i: nat, tok: int)
    requires |now| == |ops| && forall a :: 0 <= a < |ops| ==> SameInput(now[a], ops[a])
    ensures IndexOfId(now, i, tok) == IndexOfId(ops, i, tok)
    decreases |ops| - i
  {
    if i < |ops| { SameIndex(ops, now, i + 1, tok); }
  }

  // The operand a constraint refers to, -1 for a constraint that is none.
  function Target(ops: seq<AsmOperand>, a: nat, tokOf: string -> int): int
    requires a < |ops|
  {
    var s := SkipModifiers(ops[a].constraint);
    if IsReference(s) then FindConstraint(ops, s, tokOf) else -1
  }

  predicate RefValid(ops: seq<AsmOperand>, a: nat, nbOutputs: nat, tokOf: string -> int)
    requires a < |ops|
  {
    var s := SkipModifiers(ops[a].constraint);
    if IsReference(s) then 0 <= Target(ops, a, tokOf) < a && a >= nbOutputs else Priority(s).Some?
  }

  // What the source demands of the constraints: inputs refer to earlier operands, none is
  // referred to twice, and all letters are known.
  predicate AllValid(ops: seq<AsmOperand>, nbOutputs: nat, tokOf: string -> int) {
    (forall a: nat :: a < |ops| ==> RefValid(ops, a, nbOutputs, tokOf)) &&
    forall a: nat, b: nat :: a < b < |ops| && Target(ops, a, tokOf) >= 0 ==> Target(ops, a, tokOf) != Target(ops, b, tokOf)
  }

  lemma ResolveReference(ops: seq<AsmOperand>, now: seq<AsmOperand>, i: nat, nbOutputs: nat, tokOf: string -> int)
    requires Resolved(ops, now, i, nbOutputs, tokOf) && i < |ops| && IsReference(SkipModifiers(ops[i].constraint))
    requires var k := Target(ops, i, tokOf); 0 <= k < i && i >= nbOutputs && now[k].inputIndex == -1
    ensures var k := Target(ops, i, tokOf);
            Resolved(ops, now[i := now[i].(refIndex := k, priority := 5)][k := now[k].(inputIndex := i)], i + 1, nbOutputs, tokOf)
  {
    hide FindConstraint, Priority, SkipModifiers, IsReference;
  }

  lemma ResolvePriority(ops: seq<AsmOperand>, now: seq<AsmOperand>, i: nat, nbOutputs: nat, tokOf: string -> int)
    requires Resolved(ops, now, i, nbOutputs, tokOf) && i < |ops| && !IsReference(SkipModifiers(ops[i].constraint))
    requires Priority(SkipModifiers(ops[i].constraint)).Some?
    ensures var p := Priority(SkipModifiers(ops[i].constraint)).value;
            Resolved(ops, now[i := now[i].(priority := p)], i + 1, nbOutputs, tokOf)
  {
    hide FindConstraint, Priority, SkipModifiers, IsReference;
  }

  // An operand that already has an input was the target of an earlier reference.
  lemma Twice(ops: seq<AsmOperand>, now: seq<AsmOperand>, i: nat, k: nat, nbOutputs: nat, tokOf: string -> int)
    requires Resolved(ops, now, i, nbOutputs, tokOf) && i < |ops| && k < i && now[k].inputIndex >= 0 && Target(ops, i, tokOf) == k
    ensures !AllValid(ops, nbOutputs, tokOf)
  {
    var a: nat := now[k].inputIndex;
    assert Resolves(ops, a, nbOutputs, tokOf, now[a]);
    assert Target(ops, a, tokOf) == k && a < i;
  }

  lemma ResolvedAll(ops: seq<AsmOperand>, now: seq<AsmOperand>, nbOutputs: nat, tokOf: string -> int)
    requires Resolved(ops, now, |ops|, nbOutputs, tokOf)
    ensures Linked(now, nbOutputs) && AllValid(ops, nbOutputs, tokOf)
  {
    forall a: nat | a < |ops| ensures RefValid(ops, a, nbOutputs, tokOf) && now[a].refIndex == Target(ops, a, tokOf) {
      assert Resolves(ops, a, nbOutputs, tokOf, now[a]);
      hide FindConstraint, Priority, SkipModifiers, IsReference;
    }
    hide FindConstraint, Priority, SkipModifiers, IsReference, Target;
  }

  method Link(operands: array<AsmOperand>, i: nat, k: nat)
    requires k < i < operands.Length
    modifies operands
    ensures operands[..] ==
      old(operands[..])[i := old(operands[i]).(refIndex := k, priority := 5)][k := old(operands[k]).(inputIndex := i)]
  {
    operands[i] := operands[i].(refIndex := k);
    operands[k] := operands[k].(inputIndex := i);
    operands[i] := operands[i].(priority := 5);
  }

  lemma Invalid(ops: seq<AsmOperand>, i: nat, nbOutputs: nat, tokOf: string -> int)
    requires i < |ops| && !RefValid(ops, i, nbOutputs, tokOf)
    ensures !AllValid(ops, nbOutputs, tokOf)
  {}

  lemma ResolvedParts(ops: seq<AsmOperand>, now: seq<AsmOperand>, i: nat, nbOutputs: nat, tokOf: string -> int)
    requires Resolved(ops, now, i, nbOutputs, tokOf)
    ensures |now| == |ops| && forall a :: 0 <= a < |ops| ==> SameInput(now[a], ops[a]) && now[a].inputIndex >= -1
  {}

  lemma BlankResolved(ops: seq<AsmOperand>, nbOutputs: nat, tokOf: string -> int)
    requires forall i :: 0 <= i < |ops| ==> ops[i] == Blank(ops[i])
    ensures Resolved(ops, ops, 0, nbOutputs, tokOf)
  {}

  // A reference to another operand.
  method ResolveOne(operands: array<AsmOperand>, i: nat, str: string, nbOutputs: nat, tokOf: string -> int, ghost ops: seq<AsmOperand>)
    returns (ok: bool)
    requires i < operands.Length && Resolved(ops, operands[..], i, nbOutputs, tokOf)
    requires str == SkipModifiers(ops[i].constraint) && IsReference(str)
    modifies operands
    ensures if ok then Resolved(ops, operands[..], i + 1, nbOutputs, tokOf) else !AllValid(ops, nbOutputs, tokOf)
  {
    ghost var now := operands[..];
    ResolvedParts(ops, now, i, nbOutputs, tokOf);
    hide FindConstraint, Priority, SkipModifiers, IsReference, Resolved, AllValid;
    SameFind(ops, operands[..], str, tokOf);
    var k := FindConstraint(operands[..], str, tokOf);
    assert k == Target(ops, i, tokOf);
    if k < 0 || k >= i || i < nbOutputs {
      Invalid(ops, i, nbOutputs, tokOf);
      return false;
    }
    if operands[k].inputIndex >= 0 {
      Twice(ops, now, i, k, nbOutputs, tokOf);
      operands[i] := operands[i].(refIndex := k);
      return false;
    }
    ResolveReference(ops, now, i, nbOutputs, tokOf);
    Link(operands, i, k);
    ok := true;
  }

  // The second loop: references and priorities; not ok where the source reports an error.
  method ResolveReferences(operands: array<AsmOperand>, nbOutputs: nat, tokOf: string -> int) returns (ok: bool)
    requires forall i :: 0 <= i < operands.Length ==> operands[i] == Blank(operands[i])
    modifies operands
    ensures ok <==> AllValid(old(operands[..]), nbOutputs, tokOf)
    ensures ok ==> Resolved(old(operands[..]), operands[..], operands.Length, nbOutputs, tokOf) && Linked(operands[..], nbOutputs)
  {
    ghost var ops := operands[..];
    BlankResolved(ops, nbOutputs, tokOf);
    hide FindConstraint, Priority, SkipModifiers, IsReference, Resolved, AllValid, Linked;
    for i := 0 to operands.Length
      invariant Resolved(ops, operands[..], i, nbOutputs, tokOf)
    {
      ghost var now := operands[..];
      ResolvedParts(ops, now, i, nbOutputs, tokOf);
      var str := SkipConstraintModifiers(operands[i].constraint);
      SameFind(ops, operands[..], str, tokOf);
      if IsReference(str) {
        var linked := ResolveOne(operands, i, str, nbOutputs, tokOf, ops);
        if !linked { return false; }
      } else {
        var p := ConstraintPriority(str);
        if p.None? {
          Invalid(ops, i, nbOutputs, tokOf);
          return false;
        }
        ResolvePriority(ops, now, i, nbOutputs, tokOf);
        operands[i] := operands[i].(priority := p.value);
        assert operands[..] == now[i := now[i].(priority := p.value)];
      }
    }
    ResolvedAll(ops, operands[..], nbOutputs, tokOf);
    ok := true;
  }

  // The priorities in an order.
  function Priorities(s: seq<int>, ops: seq<AsmOperand>): (p: seq<int>)
    requires IsOrder(s, |ops|)
    ensures |p| == |s|
  {
    seq(|s|, k requires 0 <= k < |s| => ops[s[k]].priority)
  }

  // The first i places hold the lowest values, in order.
  predicate Leading(p: seq<int>, i: nat) {
    forall a, b :: 0 <= a < b < |p| && a < i ==> p[a] <= p[b]
  }

  // Place i holds the lowest value up to place j.
  predicate Least(p: seq<int>, i: nat, j: nat) {
    i < j <= |p| && forall b :: i < b < j ==> p[i] <= p[b]
  }

  function Turned(p: seq<int>, i: nat, j: nat): seq<int>
    requires i < j < |p|
  {
    if p[j] < p[i] then p[i := p[j]][j := p[i]] else p
  }

  lemma TurnKeeps(p: seq<int>, i: nat, j: nat)
    requires Leading(p, i) && Least(p, i, j) && j < |p|
    ensures Leading(Turned(p, i, j), i) && Least(Turned(p, i, j), i, j + 1)
  {}

  lemma LeadingNext(p: seq<int>, i: nat)
    requires Leading(p, i) && Least(p, i, |p|)
    ensures Leading(p, i + 1)
  {}

  lemma Identity(s: seq<int>, n: nat)
    requires |s| == n && forall k :: 0 <= k < n ==> s[k] == k
    ensures IsOrder(s, n)
  {
    forall j | 0 <= j < n ensures j in s {
      assert s[j] == j;
    }
  }

  lemma TurnOrder(s: seq<int>, ops: seq<AsmOperand>, i: nat, j: nat)
    requires IsOrder(s, |ops|) && i < j < |s|
    ensures 0 <= s[i] < |ops| && 0 <= s[j] < |ops|
    ensures var t := if ops[s[j]].priority < ops[s[i]].priority then s[i := s[j]][j := s[i]] else s;
            IsOrder(t, |ops|) && Priorities(t, ops) == Turned(Priorities(s, ops), i, j)
  {
    SwapOrder(s, i, j);
    OrderInRange(s, |ops|);
    var t := s[i := s[j]][j := s[i]];
    OrderInRange(t, |ops|);
    hide IsOrder;
    var p, q := Priorities(s, ops), Priorities(t, ops);
    assert q[i] == p[j] && q[j] == p[i];
    assert forall k :: 0 <= k < |s| && k != i && k != j ==> q[k] == p[k];
    hide Priorities;
    assert q == p[i := p[j]][j := p[i]];
  }

  lemma LeadingAll(s: seq<int>, ops: seq<AsmOperand>)
    requires IsOrder(s, |ops|) && Leading(Priorities(s, ops), |s|)
    ensures ByPriority(s, ops)
  {
    forall a, b | 0 <= a < b < |s| ensures ops[s[a]].priority <= ops[s[b]].priority {
      assert Priorities(s, ops)[a] <= Priorities(s, ops)[b];
    }
  }

  // Sorting by priority: exchanges in place.
  method SortOperands(ops: seq<AsmOperand>) returns (sorted: array<int>)
    ensures fresh(sorted) && IsOrder(sorted[..], |ops|) && ByPriority(sorted[..], ops)
  {
    var n := |ops|;
    sorted := new int[n](i => i);
    Identity(sorted[..], n);
    hide Leading, Least, IsOrder, Covers, Priorities, Turned;
    assert Leading(Priorities(sorted[..], ops), 0) by { NoneLeads(Priorities(sorted[..], ops)); }
    for i := 0 to n
      invariant IsOrder(sorted[..], n) && Leading(Priorities(sorted[..], ops), i)
    {
      LeastAlone(Priorities(sorted[..], ops), i);
      for j := i + 1 to n
        invariant IsOrder(sorted[..], n) && Leading(Priorities(sorted[..], ops), i) && Least(Priorities(sorted[..], ops), i, j)
      {
        TurnKeeps(Priorities(sorted[..], ops), i, j);
        TurnOrder(sorted[..], ops, i, j);
        ghost var before := sorted[..];
        if ops[sorted[j]].priority < ops[sorted[i]].priority {
          sorted[i], sorted[j] := sorted[j], sorted[i];
          assert sorted[..] == before[i := before[j]][j := before[i]];
        }
      }
      LeadingNext(Priorities(sorted[..], ops), i);
    }
    LeadingAll(sorted[..], ops);
  }

  lemma NoneLeads(p: seq<int>)
    ensures Leading(p, 0)
  {}

  lemma LeastAlone(p: seq<int>, i: nat)
    requires i < |p|
    ensures Least(p, i, i + 1)
  {}

  lemma SwapOrder(s: seq<int>, i: nat, j: nat)
    requires i < j < |s| && IsOrder(s, |s|)
    ensures IsOrder(s[i := s[j]][j := s[i]], |s|)
  {
    var t := s[i := s[j]][j := s[i]];
    forall x | 0 <= x < |s| ensures x in t {
      assert x in s;
      var k :| 0 <= k < |s| && s[k] == x;
      assert t[if k == i then j else if k == j then i else k] == x;
    }
  }

  // The allocation of one operand: its constraint letters, one after the other.
  method GrantOperand(op: AsmOperand, isOutput: bool, mask: Roles, regs: array<Roles>) returns (grant: Option<Grant>)
    requires regs.Length == NB_ASM_REGS
    ensures grant == Grants(op.vtR, isOutput, op.constraint, mask, false, regs[..])
  {
    hide Fitting, Clash;
    var str, roles, rw := op.constraint, mask, false;
    while str != []
      invariant Grants(op.vtR, isOutput, op.constraint, mask, false, regs[..]) == Grants(op.vtR, isOutput, str, roles, rw, regs[..])
      decreases |str|
    {
      var c := str[0];
      if c == '=' {
      } else if c == '+' || c == '&' {
        if !isOutput { return None; }
        rw := rw || c == '+';
        roles := BOTH;
      } else {
        var g := FitLetter(op.vtR, isOutput, c, roles, rw, regs);
        if g.Some? { return g; }
        if LetterPriority(c) < 0 { return None; }
      }
      str := str[1..];
    }
    grant := None;
  }

  method FindFree(regs: array<Roles>, mask: Roles, n: nat) returns (r: Option<nat>)
    requires n <= regs.Length
    ensures r == FirstFree(regs[..], mask, 0, n)
  {
    hide Clash;
    for reg := 0 to n
      invariant FirstFree(regs[..], mask, 0, n) == FirstFree(regs[..], mask, reg, n)
    {
      if !Clash(regs[reg], mask) { return Some(reg); }
    }
    r := None;
  }

  // The switch on a constraint letter.
  method FitLetter(vtR: bv32, isOutput: bool, c: char, mask: Roles, rw: bool, regs: array<Roles>) returns (g: Option<Grant>)
    requires regs.Length == NB_ASM_REGS
    ensures g == Fitting(vtR, isOutput, c, mask, rw, regs[..])
  {
    hide Clash, FirstFree;
    var nothing := Some(Grant(-1, None, false, rw, {}, NO_ROLE));
    if c == 'A' {
      if Clash(regs[TREG_EAX], mask) || Clash(regs[TREG_EDX], mask) { return None; }
      g := Some(Grant(TREG_EAX, Some(true), false, rw, {TREG_EAX, TREG_EDX}, mask));
    } else if NamedReg(c) >= 0 {
      var reg := NamedReg(c);
      if Clash(regs[reg], mask) { return None; }
      g := Place(Some(reg), mask, rw);
    } else if c == 'q' {
      var r := FindFree(regs, mask, 4);
      g := Place(r, mask, rw);
    } else if c == 'r' {
      var r := FindFree(regs, mask, 8);
      g := Place(r, mask, rw);
    } else if c == 'i' {
      g := if vtR & (VT_VALMASK | VT_LVAL) != VT_CONST then None else nothing;
    } else if c == 'I' || c == 'N' || c == 'M' {
      g := if vtR & (VT_VALMASK | VT_LVAL | VT_SYM) != VT_CONST then None else nothing;
    } else if c == 'm' || c == 'g' {
      g := nothing;
      if (isOutput || c == 'm') && vtR & VT_VALMASK == VT_LLOCAL {
        var r := FindFree(regs, IN, 8);
        g := if r.None? then None else Some(Grant(r.value, None, true, rw, {r.value as int}, IN));
      }
    } else {
      g := None;
    }
  }

  // regs_allocated[...] |= roles
  method Take(regs: array<Roles>, taken: set<int>, roles: Roles)
    modifies regs
    ensures regs[..] == Taken(old(regs[..]), taken, roles)
  {
    hide Join;
    for k := 0 to regs.Length
      invariant forall i :: 0 <= i < k ==> regs[i] == if i in taken then Join(old(regs[i]), roles) else old(regs[i])
      invariant forall i :: k <= i < regs.Length ==> regs[i] == old(regs[i])
    {
      if k in taken { regs[k] := Join(regs[k], roles); }
    }
  }

  // One turn of the allocation loop; not ok where the constraint cannot be satisfied.
  method AllocOperand(operands: array<AsmOperand>, j: nat, nbOutputs: nat, regs: array<Roles>, ghost claims: seq<Claim>)
    returns (ok: bool, ghost claims': seq<Claim>)
    requires j < operands.Length == |claims| && regs.Length == NB_ASM_REGS && -1 <= operands[j].inputIndex < operands.Length
    modifies operands, regs
    ensures ok <==> AllocOne(old(State(operands[..], regs[..], claims)), j, nbOutputs).Some?
    ensures ok ==> AllocOne(old(State(operands[..], regs[..], claims)), j, nbOutputs).value == State(operands[..], regs[..], claims')
  {
    hide Grants, Taken;
    claims' := claims;
    ok := true;
    var op := operands[j];
    if op.refIndex >= 0 { return; }
    var mask := if op.inputIndex >= 0 then BOTH else if j < nbOutputs then OUT else IN;
    var g := GrantOperand(op, j < nbOutputs, mask, regs);
    if g.None? { return false, claims; }
    ghost var before, was := operands[..], State(operands[..], regs[..], claims);
    var grant := g.value;
    op := op.(reg := grant.reg, isLlong := if grant.llong.Some? then grant.llong.value else op.isLlong,
              isMemory := op.isMemory || grant.memory, isRw := op.isRw || grant.rw);
    operands[j] := op;
    Take(regs, grant.regs, grant.roles);
    claims' := claims[j := Claim(grant.regs, grant.roles)];
    assert operands[..] == before[j := op];
    if op.inputIndex >= 0 {
      operands[op.inputIndex] := operands[op.inputIndex].(reg := op.reg, isLlong := op.isLlong);
    }
    assert operands[..] == Granted(was, j, grant).ops;
  }

  function Blanks(ops: seq<AsmOperand>): seq<AsmOperand> {
    seq(|ops|, i requires 0 <= i < |ops| => Blank(ops[i]))
  }

  // What the three passes do to blank operands: resolved are the operands with their
  // references and priorities, order is the order of the allocation.
  ghost predicate Computed(ops: seq<AsmOperand>, nbOutputs: nat, clobbered: seq<bool>, tokOf: string -> int,
                           resolved: seq<AsmOperand>, order: seq<int>, st: State, outReg: Option<int>)
    requires |clobbered| == NB_ASM_REGS
  {
    if !AllValid(ops, nbOutputs, tokOf) then outReg.None?
    else
      Resolved(ops, resolved, |ops|, nbOutputs, tokOf) && Linked(resolved, nbOutputs) &&
      IsOrder(order, |resolved|) && ByPriority(order, resolved) && (forall j <- order :: 0 <= j < |resolved|) &&
      var run := AllocFrom(Start(resolved, clobbered), order, nbOutputs);
      if run.None? then outReg.None? else run.value == st && WellSized(st) && outReg == OutReg(st, 0)
  }

  // asm_compute_constraints; none where the source reports an error.
  method AsmComputeConstraints(operands: array<AsmOperand>, nbOutputs: nat, clobbered: seq<bool>, tokOf: string -> int)
    returns (outReg: Option<int>, ghost st: State, ghost resolved: seq<AsmOperand>, ghost order: seq<int>)
    requires |clobbered| == NB_ASM_REGS
    modifies operands
    ensures Computed(Blanks(old(operands[..])), nbOutputs, clobbered, tokOf, resolved, order, st, outReg)
    ensures outReg.Some? ==> WellSized(st) && st.ops == operands[..] && Safe(st, nbOutputs, clobbered)
    ensures outReg.Some? && outReg.value >= 0 ==> Reloads(st, clobbered, outReg.value)
  {
    hide AllocFrom, AllValid, Linked, Resolved, IsOrder, ByPriority, OutReg, Safe, Reloads, Initial;
    ghost var blank := Blanks(operands[..]);
    InitFields(operands);
    assert operands[..] == blank;
    st, resolved, order := Start([], clobbered), [], [];
    var ok := ResolveReferences(operands, nbOutputs, tokOf);
    if !ok { return None, st, resolved, order; }
    resolved := operands[..];
    NoRegister(blank, resolved, nbOutputs, tokOf);
    var sorted := SortOperands(operands[..]);
    order := sorted[..];
    OrderInRange(order, |resolved|);
    var good, regs, end := AllocateAll(operands, sorted, nbOutputs, clobbered);
    if !good { return None, st, resolved, order; }
    st := end;
    outReg := FindOutReg(operands, regs, st);
    if outReg.Some? && outReg.value >= 0 {
      SafeAccount(st, nbOutputs, clobbered);
      Reloaded(st, clobbered, outReg.value);
    }
  }

  lemma SafeAccount(st: State, nbOutputs: nat, clobbered: seq<bool>)
    requires |clobbered| == NB_ASM_REGS && WellSized(st) && Safe(st, nbOutputs, clobbered)
    ensures Account(st, Initial(clobbered))
  {
    hide Initial, Account;
  }

  lemma OrderInRange(order: seq<int>, n: nat)
    requires IsOrder(order, n)
    ensures |order| == n && (forall j <- order :: 0 <= j < n) && forall k :: 0 <= k < n ==> 0 <= order[k] < n
  {
    hide Covers;
  }

  ghost predicate Safe(st: State, nbOutputs: nat, clobbered: seq<bool>)
    requires |clobbered| == NB_ASM_REGS && WellSized(st)
  {
    Linked(st.ops, nbOutputs) && NoInterference(st, clobbered) && TiesHold(st.ops) && Account(st, Initial(clobbered)) &&
    forall j :: 0 <= j < |st.ops| && st.ops[j].refIndex < 0 ==> Backed(st.ops[j], st.claims[j])
  }

  // The reload register: an ordinary register that is not clobbered and holds no output.
  ghost predicate Reloads(st: State, clobbered: seq<bool>, r: int)
    requires |clobbered| == NB_ASM_REGS
  {
    0 <= r < NB_ASM_REGS && r != 4 && r != 5 && !clobbered[r] && forall cl <- st.claims :: r in cl.regs ==> !cl.roles.output
  }

  lemma Reloaded(st: State, clobbered: seq<bool>, r: int)
    requires |clobbered| == NB_ASM_REGS && WellSized(st) && Account(st, Initial(clobbered)) && OutReg(st, 0) == Some(r) && r >= 0
    ensures Reloads(st, clobbered, r)
  {
    hide Account, Initial, OutReg;
    OutRegFree(st, 0, clobbered);
  }

  // The allocation loop.
  method AllocateAll(operands: array<AsmOperand>, sorted: array<int>, nbOutputs: nat, clobbered: seq<bool>)
    returns (ok: bool, regs: array<Roles>, ghost st: State)
    requires |clobbered| == NB_ASM_REGS && Linked(operands[..], nbOutputs) && IsOrder(sorted[..], operands.Length)
    requires (forall op <- operands[..] :: op.reg == -1) && forall j <- sorted[..] :: 0 <= j < operands.Length
    modifies operands
    ensures regs.Length == NB_ASM_REGS
    ensures var run := AllocFrom(Start(old(operands[..]), clobbered), old(sorted[..]), nbOutputs);
            ok == run.Some? && (ok ==> run.value == st)
    ensures ok ==> WellSized(st) && st.ops == operands[..] && st.alloc == regs[..] && Safe(st, nbOutputs, clobbered)
  {
    hide AllocFrom, Linked, IsOrder, Safe, Running;
    ghost var ops, order := operands[..], sorted[..];
    regs := new Roles[NB_ASM_REGS](k requires 0 <= k < NB_ASM_REGS => if clobbered[k] || k == 4 || k == 5 then BOTH else NO_ROLE);
    st := Start(ops, clobbered);
    assert regs[..] == Initial(clobbered);
    RunStart(ops, order, nbOutputs, clobbered);
    hide Initial, Start;
    for i := 0 to sorted.Length
      invariant operands.Length == |ops| && sorted[..] == order
      invariant st.ops == operands[..] && st.alloc == regs[..] && Running(ops, order, i, nbOutputs, clobbered, st)
    {
      RunTurn(ops, order, i, nbOutputs, clobbered, st);
      var good, claims := AllocOperand(operands, sorted[i], nbOutputs, regs, st.claims);
      if !good { return false, regs, st; }
      st := State(operands[..], regs[..], claims);
    }
    RunEnd(ops, order, nbOutputs, clobbered, st);
    ok := true;
  }

  // The run over order has come to place i with state st.
  ghost predicate Running(ops: seq<AsmOperand>, order: seq<int>, i: nat, nbOutputs: nat, clobbered: seq<bool>, st: State) {
    |clobbered| == NB_ASM_REGS && Linked(ops, nbOutputs) && IsOrder(order, |ops|) && i <= |order| && (forall op <- ops :: op.reg == -1) &&
    WellSized(st) && Linked(st.ops, nbOutputs) && |st.ops| == |ops| && (forall j <- order :: 0 <= j < |ops|) &&
    (forall j <- order[i..] :: 0 <= j < |ops|) &&
    AllocFrom(Start(ops, clobbered), order, nbOutputs) == AllocFrom(st, order[i..], nbOutputs)
  }

  lemma NoRegister(blank: seq<AsmOperand>, ops: seq<AsmOperand>, nbOutputs: nat, tokOf: string -> int)
    requires Resolved(blank, ops, |blank|, nbOutputs, tokOf) && forall i :: 0 <= i < |blank| ==> blank[i].reg == -1
    ensures forall op <- ops :: op.reg == -1
  {}

  lemma RunStart(ops: seq<AsmOperand>, order: seq<int>, nbOutputs: nat, clobbered: seq<bool>)
    requires |clobbered| == NB_ASM_REGS && Linked(ops, nbOutputs) && IsOrder(order, |ops|) && forall op <- ops :: op.reg == -1
    ensures Running(ops, order, 0, nbOutputs, clobbered, Start(ops, clobbered))
  {}

  lemma RunTurn(ops: seq<AsmOperand>, order: seq<int>, i: nat, nbOutputs: nat, clobbered: seq<bool>, st: State)
    requires Running(ops, order, i, nbOutputs, clobbered, st) && i < |order|
    ensures 0 <= order[i] < |st.ops| && WellSized(st) && -1 <= st.ops[order[i]].inputIndex < |st.ops|
    ensures var next := AllocOne(st, order[i], nbOutputs);
            next.Some? ==> Running(ops, order, i + 1, nbOutputs, clobbered, next.value)
    ensures AllocOne(st, order[i], nbOutputs).None? ==> forall j <- order :: 0 <= j < |ops|
    ensures AllocOne(st, order[i], nbOutputs).None? ==> AllocFrom(Start(ops, clobbered), order, nbOutputs).None?
  {
    var rest := order[i..];
    assert rest[0] == order[i] && rest[1..] == order[i + 1..] && forall j <- rest[1..] :: j in rest;
    var next := AllocOne(st, order[i], nbOutputs);
    if next.Some? {
      AllocOneLinks(st, order[i], nbOutputs);
      LinksLinked(next.value.ops, st.ops, nbOutputs);
    }
    hide AllocOne, Covers, Linked;
  }

  lemma RunEnd(ops: seq<AsmOperand>, order: seq<int>, nbOutputs: nat, clobbered: seq<bool>, st: State)
    requires Running(ops, order, |order|, nbOutputs, clobbered, st)
    ensures WellSized(st) && Safe(st, nbOutputs, clobbered) && AllocFrom(Start(ops, clobbered), order, nbOutputs) == Some(st)
  {
    assert order[|order|..] == [];
    assert AllocFrom(st, [], nbOutputs) == Some(st);
    AllocationSafe(ops, order, nbOutputs, clobbered);
    hide AllocFrom, NoInterference, TiesHold, Backed, IsOrder;
  }

  // The loop for the reload register; none where the source reports an error.
  method FindOutReg(operands: array<AsmOperand>, regs: array<Roles>, ghost st: State) returns (r: Option<int>)
    requires WellSized(st) && st.ops == operands[..] && st.alloc == regs[..]
    ensures r == OutReg(st, 0)
  {
    hide FirstFree;
    for i := 0 to operands.Length
      invariant OutReg(st, 0) == OutReg(st, i)
    {
      var op := operands[i];
      if op.reg >= 0 && op.vtR & VT_VALMASK == VT_LLOCAL && !op.isMemory {
        var free := FindFree(regs, OUT, 8);
        return if free.Some? then Some(free.value) else None;
      }
    }
    r := Some(-1);
  }

  // ----- A tie to a tie -----

  lemma TieConstraints(ops: seq<AsmOperand>, tokOf: string -> int)
    requires |ops| == 3 && ops[0].constraint == "=r" && ops[1].constraint == "0" && ops[2].constraint == "1"
    ensures Target(ops, 0, tokOf) == -1 && Target(ops, 1, tokOf) == 0 && Target(ops, 2, tokOf) == 1
    ensures SkipModifiers("=r") == "r" && SkipModifiers("0") == "0" && SkipModifiers("1") == "1" && Priority("r") == Some(3)
    ensures !IsReference("r") && IsReference("0") && IsReference("1")
  {
    assert "=r"[1..] == "r" && "0"[1..] == "" && "1"[1..] == "";
    assert Number("", 0) == 0 && Number("", 1) == 1;
    assert Number("0", 0) == 0 && Number("1", 0) == 1;
    assert "r"[..0] == "";
  }

  lemma TieValid(ops: seq<AsmOperand>, tokOf: string -> int)
    requires |ops| == 3 && ops[0].constraint == "=r" && ops[1].constraint == "0" && ops[2].constraint == "1"
    ensures AllValid(ops, 1, tokOf)
  {
    TieConstraints(ops, tokOf);
    hide SkipModifiers, Priority, IsReference, FindConstraint;
    forall a: nat | a < |ops| ensures RefValid(ops, a, 1, tokOf) {
      assert a == 0 || a == 1 || a == 2;
    }
  }

  lemma TieResolved(ops: seq<AsmOperand>, now: seq<AsmOperand>, tokOf: string -> int)
    requires |ops| == 3 && ops[0].constraint == "=r" && ops[1].constraint == "0" && ops[2].constraint == "1"
    requires Resolved(ops, now, 3, 1, tokOf)
    ensures |now| == 3 && now[0].refIndex == -1 && now[1].refIndex == 0 && now[2].refIndex == 1
    ensures now[0].inputIndex == 1 && now[0].constraint == "=r" && forall i :: 0 <= i < 3 ==> now[i].reg == ops[i].reg
  {
    TieConstraints(ops, tokOf);
    hide SkipModifiers, Priority, IsReference, FindConstraint;
    assert Resolves(ops, 0, 1, tokOf, now[0]) && Resolves(ops, 1, 1, tokOf, now[1]) && Resolves(ops, 2, 1, tokOf, now[2]);
    assert SameInput(now[0], ops[0]) && SameInput(now[1], ops[1]) && SameInput(now[2], ops[2]);
  }

  // References are skipped, so only the turn of operand 0 counts.
  lemma {:induction false} OneTurn(st: State, order: seq<int>)
    requires WellSized(st) && |st.ops| == 3 && Linked(st.ops, 1) && forall j <- order :: 0 <= j < 3
    requires st.ops[0].refIndex == -1 && st.ops[1].refIndex >= 0 && st.ops[2].refIndex >= 0
    requires forall a, b :: 0 <= a < b < |order| ==> order[a] != order[b]
    requires 0 in order ==> AllocOne(st, 0, 1).Some?
    ensures AllocFrom(st, order, 1) == if 0 in order then AllocOne(st, 0, 1) else Some(st)
    decreases |order|
  {
    hide Grants, Granted, Taken;
    if order != [] {
      assert order[0] in order;
      var rest := order[1..];
      assert (forall j <- rest :: j in order) && forall j <- order :: j == order[0] || j in rest;
      if order[0] == 0 {
        var next := AllocOne(st, 0, 1).value;
        AllocOneLinks(st, 0, 1);
        LinksLinked(next.ops, st.ops, 1);
        hide AllocOne, Linked;
        OneTurn(next, rest);
      } else {
        OneTurn(st, rest);
      }
    }
  }

  lemma FirstIsFree(alloc: seq<Roles>, mask: Roles)
    requires |alloc| == NB_ASM_REGS && alloc[0] == NO_ROLE
    ensures FirstFree(alloc, mask, 0, 8) == Some(0)
  {}

  lemma PlainRegister(vtR: bv32, alloc: seq<Roles>)
    requires |alloc| == NB_ASM_REGS && alloc[0] == NO_ROLE
    ensures Grants(vtR, true, "=r", BOTH, false, alloc) == Some(Grant(0, Some(false), false, false, {0}, BOTH))
  {
    FirstIsFree(alloc, BOTH);
    hide FirstFree;
    assert "=r"[1..] == "r";
    assert Fitting(vtR, true, 'r', BOTH, false, alloc) == Place(Some(0), BOTH, false);
    assert Grants(vtR, true, "r", BOTH, false, alloc) == Place(Some(0), BOTH, false);
  }

  lemma {:induction false} FreeForReload(st: State, i: nat)
    requires WellSized(st) && st.alloc[1] == NO_ROLE
    ensures OutReg(st, i).Some?
    decreases |st.ops| - i
  {
    if i < |st.ops| { FreeForReload(st, i + 1); }
  }

  // An output in a register, an input tied to it and an input tied to that input, with no
  // register clobbered: the second input is left without a register.
  lemma TieOfTie(ops: seq<AsmOperand>, clobbered: seq<bool>, tokOf: string -> int,
                 resolved: seq<AsmOperand>, order: seq<int>, st: State, outReg: Option<int>)
    requires clobbered == [false, false, false, false, false, false, false, false] && forall op <- ops :: op.reg == -1
    requires |ops| == 3 && ops[0].constraint == "=r" && ops[1].constraint == "0" && ops[2].constraint == "1"
    requires Computed(ops, 1, clobbered, tokOf, resolved, order, st, outReg)
    ensures outReg.Some? && |st.ops| == 3 && st.ops[0].reg == 0 && st.ops[1].reg == 0 && st.ops[2].reg == -1
  {
    hide AllocFrom, OutReg, Computed, Resolved, Linked, IsOrder, AllValid, Start, AllocOne;
    TieValid(ops, tokOf);
    ComputedParts(ops, 1, clobbered, tokOf, resolved, order, st, outReg);
    TieResolved(ops, resolved, tokOf);
    StartAt(resolved, clobbered);
    OrderFacts(order, 3);
    TieTurn(Start(resolved, clobbered));
    OneTurn(Start(resolved, clobbered), order);
    FreeForReload(st, 0);
  }

  lemma ComputedParts(ops: seq<AsmOperand>, nbOutputs: nat, clobbered: seq<bool>, tokOf: string -> int,
                      resolved: seq<AsmOperand>, order: seq<int>, st: State, outReg: Option<int>)
    requires |clobbered| == NB_ASM_REGS && Computed(ops, nbOutputs, clobbered, tokOf, resolved, order, st, outReg)
    requires AllValid(ops, nbOutputs, tokOf)
    ensures Resolved(ops, resolved, |ops|, nbOutputs, tokOf) && Linked(resolved, nbOutputs) && IsOrder(order, |resolved|)
    ensures WellSized(Start(resolved, clobbered)) && Linked(Start(resolved, clobbered).ops, nbOutputs)
    ensures forall j <- order :: 0 <= j < |resolved|
    ensures var run := AllocFrom(Start(resolved, clobbered), order, nbOutputs);
            run.Some? ==> run.value == st && WellSized(st) && outReg == OutReg(st, 0)
  {
    hide Resolved, Linked, IsOrder, AllocFrom, OutReg, AllValid, ByPriority;
  }

  lemma StartAt(ops: seq<AsmOperand>, clobbered: seq<bool>)
    requires |clobbered| == NB_ASM_REGS
    ensures var st := Start(ops, clobbered);
            st.ops == ops && |st.alloc| == NB_ASM_REGS && |st.claims| == |ops| &&
            (!clobbered[0] ==> st.alloc[0] == NO_ROLE) && (!clobbered[1] ==> st.alloc[1] == NO_ROLE)
  {}

  lemma OrderFacts(order: seq<int>, n: nat)
    requires IsOrder(order, n)
    ensures (forall a, b :: 0 <= a < b < |order| ==> order[a] != order[b]) && forall j :: 0 <= j < n ==> j in order
  {}

  lemma TieTurn(st: State)
    requires WellSized(st) && |st.ops| == 3 && |st.alloc| == NB_ASM_REGS && st.alloc[0] == NO_ROLE && st.alloc[1] == NO_ROLE
    requires st.ops[0].refIndex == -1 && st.ops[0].inputIndex == 1 && st.ops[0].constraint == "=r" && st.ops[2].reg == -1
    ensures AllocOne(st, 0, 1).Some?
    ensures var next := AllocOne(st, 0, 1).value;
            WellSized(next) && |next.ops| == 3 && next.alloc[1] == NO_ROLE && next.ops[0].reg == 0 && next.ops[1].reg == 0 && next.ops[2].reg == -1
  {
    PlainRegister(st.ops[0].vtR, st.alloc);
    hide Grants;
  }
}
