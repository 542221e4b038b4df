// Scoped symbols of the C compiler: sym_push, sym_pop, sym_find, global_identifier_push and
// external_global_sym in sdk/cc/symbol.c. The symbols are on a stack of local and a stack
// of global ones; the symbols of an identifier are chained, the visible one first.
module Symbols {
  import opened Base

  const SYM_STRUCT := 0x4000_0000
  const SYM_FIELD := 0x2000_0000
  const SYM_FIRST_ANOM := 0x1000_0000

  type Token = v: int | 0 <= v < 0x8000_0000

  // The entry of the token table that a symbol is recorded in: the tag or the identifier of
  // a token.
  datatype Slot = Slot(isTag: bool, token: int)

  predicate IsTag(v: Token) { v / SYM_STRUCT % 2 == 1 }

  predicate IsField(v: Token) { v / SYM_FIELD % 2 == 1 }

  // v & ~SYM_STRUCT
  function Bare(v: Token): int { if IsTag(v) then v - SYM_STRUCT else v }

  // Fields and anonymous symbols are not recorded.
  function SlotOf(v: Token): Option<Slot> {
    if !IsField(v) && Bare(v) < SYM_FIRST_ANOM then Some(Slot(IsTag(v), Bare(v))) else None
  }

  class Sym {
    const v: Token
    var prev: Sym?
    var prevTok: Sym?

    constructor (v: Token, prev: Sym?)
      ensures this.v == v && this.prev == prev && prevTok == null
    {
      this.v, this.prev, prevTok := v, prev, null;
    }
  }

  // ----- What the scopes hold -----

  // The local symbols, the innermost first, and of each slot the global ones.
  datatype Scopes = Scopes(locals: seq<Sym>, tails: map<Slot, seq<Sym>>)

  function Of(locals: seq<Sym>, slot: Slot): seq<Sym> {
    if locals == [] then []
    else (if SlotOf(locals[0].v) == Some(slot) then [locals[0]] else []) + Of(locals[1..], slot)
  }

  // The symbols of a slot: local ones hide the global ones.
  function Chain(st: Scopes, slot: Slot): seq<Sym>
    requires slot in st.tails
  {
    Of(st.locals, slot) + st.tails[slot]
  }

  function First(c: seq<Sym>): Sym? { if c == [] then null else c[0] }

  datatype Op =
    | Open(s: Sym)            // sym_push2 on the local stack
    | Push(s: Sym)            // sym_push
    | Append(s: Sym)          // global_identifier_push
    | Pop(kept: nat)          // sym_pop on the local stack

  function Tailed(st: Scopes, s: Sym, front: bool): Scopes {
    var slot := if front then SlotOf(s.v) else GlobalSlot(s.v);
    if slot.None? || slot.value !in st.tails then st
    else st.(tails := st.tails[slot.value := if front then [s] + st.tails[slot.value] else st.tails[slot.value] + [s]])
  }

  // global_identifier_push records plain identifiers only.
  function GlobalSlot(v: Token): Option<Slot> { if v < SYM_FIRST_ANOM then Some(Slot(false, v)) else None }

  function Step(st: Scopes, op: Op): Scopes {
    match op
    case Open(s) => st.(locals := [s] + st.locals)
    case Push(s) => if st.locals != [] then st.(locals := [s] + st.locals) else Tailed(st, s, true)
    case Append(s) => Tailed(st, s, false)
    case Pop(kept) => if kept <= |st.locals| then st.(locals := st.locals[|st.locals| - kept..]) else st
  }

  function Run(st: Scopes, ops: seq<Op>): Scopes
    decreases |ops|
  {
    if ops == [] then st else Step(Run(st, ops[..|ops| - 1]), ops[|ops| - 1])
  }

  // ----- Leaving a scope -----

  // A run inside a scope of height n: it never pops below, and pushes only within it.
  predicate Inside(st: Scopes, n: nat, ops: seq<Op>)
    decreases |ops|
  {
    ops == [] ||
    (var last, before := ops[|ops| - 1], Run(st, ops[..|ops| - 1]);
     Inside(st, n, ops[..|ops| - 1]) && (last.Pop? ==> n <= last.kept) && (last.Push? ==> before.locals != []) &&
     (last.Open? ==> SlotOf(last.s.v).None?))
  }

  // The globals appended to a slot during a run, in order.
  function Appended(ops: seq<Op>, slot: Slot): seq<Sym> {
    if ops == [] then []
    else Appended(ops[..|ops| - 1], slot) + Added(ops[|ops| - 1], slot)
  }

  // What one step appends to a slot.
  function Added(op: Op, slot: Slot): seq<Sym> {
    if op.Append? && GlobalSlot(op.s.v) == Some(slot) then [op.s] else []
  }

  // The bottom n of the locals.
  function Bottom(locals: seq<Sym>, n: nat): seq<Sym>
    requires n <= |locals|
  {
    locals[|locals| - n..]
  }

  lemma StepLocals(st: Scopes, n: nat, op: Op)
    requires n <= |st.locals| && (op.Pop? ==> n <= op.kept) && (op.Push? ==> st.locals != [])
    ensures n <= |Step(st, op).locals| && Bottom(Step(st, op).locals, n) == Bottom(st.locals, n)
  {
    hide SlotOf, GlobalSlot;
    var l := Step(st, op).locals;
    assert l == st.locals || (op.Pop? && l == st.locals[|st.locals| - op.kept..]) || (!op.Pop? && l == [op.s] + st.locals);
    hide Step;
    if op.Pop? && l != st.locals {
      assert l[op.kept - n..] == st.locals[|st.locals| - n..];
    } else if l != st.locals {
      assert l[|l| - n..] == st.locals[|st.locals| - n..];
    }
  }

  lemma StepTails(st: Scopes, op: Op, slot: Slot)
    requires slot in st.tails && (op.Push? ==> st.locals != [])
    ensures var next := Step(st, op); next.tails.Keys == st.tails.Keys && next.tails[slot] == st.tails[slot] + Added(op, slot)
  {
    hide SlotOf, GlobalSlot;
  }

  // During a run inside a scope what was there stays at the bottom, and only appended globals
  // reach the global part.
  lemma {:induction false} RunKeeps(st: Scopes, n: nat, ops: seq<Op>, slot: Slot)
    requires n == |st.locals| && Inside(st, n, ops) && slot in st.tails
    ensures n <= |Run(st, ops).locals| && Bottom(Run(st, ops).locals, n) == st.locals
    ensures slot in Run(st, ops).tails && Run(st, ops).tails[slot] == st.tails[slot] + Appended(ops, slot)
    decreases |ops|
  {
    if ops != [] {
      var init, last := ops[..|ops| - 1], ops[|ops| - 1];
      RunKeeps(st, n, init, slot);
      assert Appended(ops, slot) == Appended(init, slot) + Added(last, slot);
      hide Step, Bottom, Appended, Added;
      var before := Run(st, init);
      StepLocals(before, n, last);
      StepTails(before, last, slot);
      assert st.tails[slot] + Appended(init, slot) + Added(last, slot) == st.tails[slot] + (Appended(init, slot) + Added(last, slot));
    }
  }

  lemma PopIs(st: Scopes, n: nat)
    requires n <= |st.locals|
    ensures Step(st, Pop(n)) == Scopes(Bottom(st.locals, n), st.tails)
  {}

  lemma ChainGrown(st: Scopes, end: Scopes, slot: Slot, more: seq<Sym>)
    requires slot in st.tails && slot in end.tails && end.locals == st.locals && end.tails[slot] == st.tails[slot] + more
    ensures Chain(end, slot) == Chain(st, slot) + more
    ensures First(Chain(end, slot)) == if Chain(st, slot) != [] then First(Chain(st, slot)) else First(more)
  {
    hide Of;
    assert Of(st.locals, slot) + (st.tails[slot] + more) == Of(st.locals, slot) + st.tails[slot] + more;
  }

  // Leaving a scope restores every lookup: the symbol that was visible before is visible
  // again, and where there was none, the first global declared meanwhile is.
  lemma ScopeRestored(st: Scopes, ops: seq<Op>, slot: Slot)
    requires Inside(st, |st.locals|, ops) && slot in st.tails
    ensures var end := Step(Run(st, ops), Pop(|st.locals|));
            end.locals == st.locals && slot in end.tails && Chain(end, slot) == Chain(st, slot) + Appended(ops, slot)
    ensures var end := Step(Run(st, ops), Pop(|st.locals|));
            First(Chain(end, slot)) == if Chain(st, slot) != [] then First(Chain(st, slot)) else First(Appended(ops, slot))
  {
    hide *;
    RunKeeps(st, |st.locals|, ops, slot);
    PopIs(Run(st, ops), |st.locals|);
    ChainGrown(st, Step(Run(st, ops), Pop(|st.locals|)), slot, Appended(ops, slot));
  }

  // ----- The code -----

  // c is linked by prev_tok, from head on.
  ghost predicate ByToken(c: seq<Sym>, head: Sym?)
    reads c
  {
    head == First(c) && forall i :: 0 <= i < |c| ==> c[i].prevTok == First(c[i + 1..])
  }

  // c is linked by prev, from top on.
  ghost predicate ByStack(c: seq<Sym>, top: Sym?)
    reads c
  {
    top == First(c) && forall i :: 0 <= i < |c| ==> c[i].prev == First(c[i + 1..])
  }

  predicate Distinct(c: seq<Sym>) { forall i, j :: 0 <= i < j < |c| ==> c[i] != c[j] }

  predicate Recorded(c: seq<Sym>, slot: Slot) { forall s <- c :: SlotOf(s.v) == Some(slot) }

  lemma TokenFront(s: Sym, c: seq<Sym>)
    ensures ByToken([s] + c, s) <==> s.prevTok == First(c) && ByToken(c, First(c))
  {
    var d := [s] + c;
    assert d[1..] == c && forall i :: 0 <= i < |c| ==> d[i + 1] == c[i] && d[i + 2..] == c[i + 1..];
    if ByToken(d, s) {
      forall i | 0 <= i < |c| ensures c[i].prevTok == First(c[i + 1..]) {
        assert d[i + 1].prevTok == First(d[i + 2..]);
      }
    }
  }

  lemma StackFront(s: Sym, c: seq<Sym>)
    ensures ByStack([s] + c, s) <==> s.prev == First(c) && ByStack(c, First(c))
  {
    var d := [s] + c;
    assert d[1..] == c && forall i :: 0 <= i < |c| ==> d[i + 1] == c[i] && d[i + 2..] == c[i + 1..];
    if ByStack(d, s) {
      forall i | 0 <= i < |c| ensures c[i].prev == First(c[i + 1..]) {
        assert d[i + 1].prev == First(d[i + 2..]);
      }
    }
  }

  // Symbols of a set, each once.
  predicate Good(c: seq<Sym>, repr: set<Sym>) { (forall s <- c :: s in repr) && Distinct(c) }

  lemma GoodFront(s: Sym, c: seq<Sym>, repr: set<Sym>)
    requires Good(c, repr)
    ensures Good(c, repr + {s}) && (s !in repr ==> s !in c && Good([s] + c, repr + {s}))
  {
    assert forall i :: 0 < i < |[s] + c| ==> ([s] + c)[i] == c[i - 1] && c[i - 1] in c;
  }

  lemma RecordedFront(s: Sym, c: seq<Sym>, slot: Slot)
    requires Recorded(c, slot) && SlotOf(s.v) == Some(slot)
    ensures Recorded([s] + c, slot)
  {
    hide SlotOf;
  }

  lemma GoodDistinct(c: seq<Sym>, repr: set<Sym>)
    requires Good(c, repr)
    ensures Distinct(c)
  {}

  lemma Outside(c: seq<Sym>, repr: set<Sym>)
    requires Good(c, repr)
    ensures forall s <- c :: s in repr
  {}

  lemma PushedChain(st: Scopes, op: Op, slot: Slot)
    requires slot in st.tails && (op.Push? || (op.Open? && SlotOf(op.s.v).None?))
    ensures var next := Step(st, op);
            slot in next.tails && Chain(next, slot) == (if SlotOf(op.s.v) == Some(slot) then [op.s] else []) + Chain(st, slot)
  {
    hide SlotOf;
    assert ([op.s] + st.locals)[1..] == st.locals;
  }

  lemma PushedLocals(st: Scopes, op: Op)
    requires op.Push? || op.Open?
    ensures var next := Step(st, op);
            next.locals == (if op.Open? || st.locals != [] then [op.s] + st.locals else []) && next.tails.Keys == st.tails.Keys
  {
    hide SlotOf;
  }

  lemma NoFront<T>(c: seq<T>)
    ensures [] + c == c && c + [] == c
  {}

  lemma FirstNull(c: seq<Sym>)
    ensures First(c) == null <==> c == []
  {}

  lemma FirstOf(s: Sym, c: seq<Sym>)
    ensures First([s] + c) == s
  {}

  lemma StackTop(c: seq<Sym>, top: Sym?)
    requires ByStack(c, top)
    ensures top == First(c) && (top == null <==> c == [])
  {}

  // The symbols that are recorded have a slot in the table.
  predicate InTable(c: seq<Sym>, slots: set<Slot>) { forall s <- c :: SlotOf(s.v).Some? ==> SlotOf(s.v).value in slots }

  lemma InTableFront(s: Sym, c: seq<Sym>, slots: set<Slot>)
    ensures InTable([s] + c, slots) <==> (SlotOf(s.v).Some? ==> SlotOf(s.v).value in slots) && InTable(c, slots)
  {
    hide SlotOf;
    assert ([s] + c)[0] == s && forall x <- c :: x in [s] + c;
  }

  class SymbolTable {
    var localStack: Sym?
    var globalStack: Sym?
    var heads: map<Slot, Sym?>   // table_ident: sym_struct and sym_identifier
    ghost var st: Scopes
    ghost var globals: seq<Sym>
    ghost var repr: set<Sym>

    // The chain of a slot: symbols of the slot, each once, linked.
    ghost predicate Tied(slot: Slot)
      requires slot in st.tails && slot in heads
      reads this, repr
    {
      var c := Chain(st, slot);
      Good(c, repr) && Recorded(c, slot) && ByToken(c, heads[slot])
    }

    ghost predicate Valid()
      reads this, repr
    {
      Good(st.locals, repr) && Good(globals, repr) && ByStack(st.locals, localStack) && ByStack(globals, globalStack) &&
      InTable(st.locals, heads.Keys) && heads.Keys == st.tails.Keys && forall slot <- heads :: Tied(slot)
    }

    constructor (slots: set<Slot>)
      ensures Valid() && st == Scopes([], map slot | slot in slots :: []) && globals == [] && repr == {}
    {
      localStack, globalStack, globals, repr := null, null, [], {};
      heads := map slot | slot in slots :: null;
      st := Scopes([], map slot | slot in slots :: []);
    }

    // sym_find: the visible symbol.
    method Find(v: int) returns (s: Sym?)
      requires Valid()
      ensures s == if Slot(false, v) in st.tails then First(Chain(st, Slot(false, v))) else null
    {
      s := if Slot(false, v) in heads then heads[Slot(false, v)] else null;
      assert Slot(false, v) in heads ==> Tied(Slot(false, v));
    }

    // Recording a symbol at the head of its chain.
    method Record(s: Sym, ghost op: Op)
      requires Valid() && s !in repr && (op == Op.Push(s) || (op == Op.Open(s) && SlotOf(s.v).None?))
      requires SlotOf(s.v).Some? ==> SlotOf(s.v).value in heads
      modifies this`heads, this`st, this`repr, s`prevTok
      ensures st == Step(old(st), op) && repr == old(repr) + {s} && heads.Keys == st.tails.Keys && forall slot <- heads :: Tied(slot)
    {
      hide SlotOf, Chain, Step, Good, Recorded, ByToken, ByStack, First;
      ghost var was := st;
      forall slot <- heads ensures s !in Chain(was, slot) { assert Tied(slot); Outside(Chain(was, slot), repr); }
      st := Step(st, op);
      repr := repr + {s};
      PushedLocals(was, op);
      if SlotOf(s.v).Some? {
        s.prevTok := heads[SlotOf(s.v).value];
        heads := heads[SlotOf(s.v).value := s];
      }
      forall slot <- heads ensures Tied(slot) {
        assert old(Tied(slot));
        PushedChain(was, op, slot);
        GoodFront(s, Chain(was, slot), old(repr));
        NoFront(Chain(was, slot));
        if SlotOf(s.v) == Some(slot) {
          RecordedFront(s, Chain(was, slot), slot);
          TokenFront(s, Chain(was, slot));
          TokenHead(Chain(was, slot), old(heads)[slot]);
        }
      }
    }

    // sym_push2 on the stack of local symbols.
    method Open(v: Token) returns (s: Sym)
      requires Valid() && SlotOf(v).None?
      modifies this
      ensures Valid() && fresh(s) && repr == old(repr) + {s} && globals == old(globals)
      ensures s.v == v && st == Step(old(st), Op.Open(s))
    {
      hide SlotOf, Chain, Step, Good, Recorded, ByToken, ByStack, First, InTable;
      s := new Sym(v, localStack);
      Outside(st.locals, repr);
      Outside(globals, repr);
      GoodFront(s, st.locals, repr);
      GoodFront(s, globals, repr);
      StackTop(st.locals, localStack);
      PushedLocals(st, Op.Open(s));
      ghost var locals := st.locals;
      Record(s, Op.Open(s));
      InTableFront(s, locals, heads.Keys);
      StackFront(s, locals);
      localStack := s;
      FirstOf(s, locals);
    }

    // sym_push.
    method Push(v: Token) returns (s: Sym)
      requires Valid() && (SlotOf(v).Some? ==> SlotOf(v).value in heads)
      modifies this
      ensures Valid() && fresh(s) && repr == old(repr) + {s} && s.v == v && st == Step(old(st), Op.Push(s))
      ensures globals == if old(st.locals) == [] then [s] + old(globals) else old(globals)
    {
      hide SlotOf, Chain, Step, Good, Recorded, ByToken, ByStack, First, InTable;
      s := new Sym(v, if localStack != null then localStack else globalStack);
      Outside(st.locals, repr);
      Outside(globals, repr);
      GoodFront(s, st.locals, repr);
      GoodFront(s, globals, repr);
      StackTop(st.locals, localStack);
      StackTop(globals, globalStack);
      PushedLocals(st, Op.Push(s));
      ghost var locals := st.locals;
      Record(s, Op.Push(s));
      InTableFront(s, locals, heads.Keys);
      StackFront(s, locals);
      StackFront(s, globals);
      if localStack != null {
        localStack := s;
      } else {
        globalStack := s;
        globals := [s] + globals;
      }
    }

    // One turn of the loop of sym_pop.
    method Drop()
      requires Valid() && st.locals != []
      modifies this`localStack, this`heads, this`st
      ensures Valid() && st == Step(old(st), Op.Pop(|old(st.locals)| - 1)) && |st.locals| == |old(st.locals)| - 1
      ensures localStack == First(st.locals)
    {
      hide SlotOf, Chain, Step, Good, Recorded, ByToken, ByStack, First, InTable;
      StackTop(st.locals, localStack);
      ghost var was := st;
      FirstIs(was.locals);
      var s := localStack;
      ghost var rest := was.locals[1..];
      assert was.locals == [s] + rest;
      FirstOf(s, rest);
      PopIs(was, |rest|);
      BottomIs(was.locals);
      StackFront(s, rest);
      GoodBack(s, rest, repr);
      InTableFront(s, rest, heads.Keys);
      forall slot <- heads ensures old(Tied(slot)) {}
      localStack := s.prev;
      if SlotOf(s.v).Some? {
        heads := heads[SlotOf(s.v).value := s.prevTok];
      }
      assert heads.Keys == old(heads.Keys);
      st := Step(st, Op.Pop(|rest|));
      forall slot <- heads ensures Tied(slot) {
        assert old(Tied(slot));
        var c := Chain(st, slot);
        PoppedChain(was, st, slot);
        NoFront(c);
        if SlotOf(s.v) == Some(slot) {
          GoodBack(s, c, repr);
          RecordedBack(s, c, slot);
          TokenHead([s] + c, old(heads)[slot]);
          FirstOf(s, c);
          TokenFront(s, c);
        }
      }
    }

    // sym_pop on the stack of local symbols: everything above b goes.
    method Pop(b: Sym?)
      requires Valid() && (b == null || b in st.locals)
      modifies this`localStack, this`heads, this`st
      ensures Valid() && st == Step(old(st), Op.Pop(Height(old(st.locals), b))) && localStack == b
    {
      hide SlotOf, Chain, Step, Good, Recorded, ByToken, ByStack, First, InTable;
      ghost var was := st;
      StackTop(st.locals, localStack);
      PopIs(st, |st.locals|);
      assert Bottom(st.locals, |st.locals|) == st.locals;
      while localStack != b
        invariant Valid() && |st.locals| <= |was.locals| && st == Step(was, Op.Pop(|st.locals|)) && localStack == First(st.locals)
        invariant (b == null || b in st.locals) && Height(st.locals, b) == Height(was.locals, b)
        decreases |st.locals|
      {
        FirstNull(st.locals);
        FirstIs(st.locals);
        ghost var n, locals := |st.locals|, st.locals;
        HeightStep(locals, b);
        Drop();
        PopTwice(was, n);
        PopIs(Step(was, Op.Pop(n)), n - 1);
        BottomIs(locals);
      }
      FirstNull(st.locals);
      FirstIs(st.locals);
      HeightStep(st.locals, b);
    }

    // sym_pop on the stack of global symbols, down to nothing, as at the end of a compilation:
    // each slot is left with what stood behind the first of its global symbols.
    method PopGlobals()
      requires Valid() && st.locals == [] && InTable(globals, heads.Keys)
      modifies this`globalStack, this`heads
      ensures globalStack == null && heads.Keys == old(heads.Keys)
      ensures forall slot <- heads :: heads[slot] == LeftAt(globals, slot, old(heads[slot]))
    {
      hide SlotOf, Of, First, InTable, Good, Recorded, ByToken;
      var s := globalStack;
      ghost var k: nat := 0;
      ghost var was := heads;
      forall slot <- heads ensures LeftAt(globals[..0], slot, was[slot]) == was[slot] { NothingLeft(globals[..0], slot, was[slot]); }
      FirstNull(globals);
      FirstIs(globals);
      while s != null
        invariant k <= |globals| && s == First(globals[k..]) && heads.Keys == was.Keys
        invariant forall slot <- heads :: heads[slot] == LeftAt(globals[..k], slot, was[slot])
        decreases |globals| - k
      {
        FirstNull(globals[k..]);
        FirstIs(globals[k..]);
        assert s == globals[k] && s in globals;
        InTableAt(globals, s, heads.Keys);
        forall slot <- heads
          ensures LeftAt(globals[..k + 1], slot, was[slot]) ==
                  if SlotOf(s.v) == Some(slot) then s.prevTok else LeftAt(globals[..k], slot, was[slot])
        {
          assert globals[..k + 1] == globals[..k] + [s];
          LeftStep(globals[..k], s, slot, was[slot]);
        }
        if SlotOf(s.v).Some? {
          heads := heads[SlotOf(s.v).value := s.prevTok];
        }
        s := s.prev;
        k := k + 1;
      }
      FirstNull(globals[k..]);
      assert globals[..k] == globals;
      globalStack := null;
    }

    // The last symbol of a chain.
    method ChainEnd(slot: Slot) returns (last: Sym?)
      requires Valid() && slot in heads
      ensures var c := Chain(st, slot); last == if c == [] then null else c[|c| - 1]
    {
      hide SlotOf, Chain, Step, Good, Recorded, ByStack, InTable;
      assert Tied(slot);
      last := heads[slot];
      ghost var c, i := Chain(st, slot), 0;
      if last == null { return; }
      while last.prevTok != null
        invariant 0 <= i < |c| && last == c[i]
        decreases |c| - i
      {
        last, i := last.prevTok, i + 1;
      }
    }

    // The end of the walk in global_identifier_push: s becomes the last symbol of its chain.
    method PutLast(s: Sym)
      requires Valid() && s !in repr && s.prevTok == null && GlobalSlot(s.v).Some? && GlobalSlot(s.v).value in heads
      modifies this`heads, repr
      ensures ByStack(st.locals, localStack) && ByStack(globals, globalStack) && heads.Keys == st.tails.Keys
      ensures forall slot <- heads :: var c := Chain(st, slot);
                Good(c, repr) && Recorded(c, slot) && ByToken(if slot == GlobalSlot(s.v).value then c + [s] else c, heads[slot])
    {
      hide SlotOf, GlobalSlot, Chain, Step, Good, Recorded, ByToken, ByStack, InTable, First;
      var slot := GlobalSlot(s.v).value;
      var last := ChainEnd(slot);
      ghost var c := Chain(st, slot);
      assert Tied(slot);
      Outside(c, repr);
      Outside(st.locals, repr);
      Outside(globals, repr);
      TokenHead(c, heads[slot]);
      FirstNull(c);
      forall other <- heads ensures Good(Chain(st, other), repr) && Recorded(Chain(st, other), other) && ByToken(Chain(st, other), heads[other]) {
        assert Tied(other);
      }
      forall other <- heads | other != slot ensures forall x <- c :: x !in Chain(st, other) {
        NotRecorded(Chain(st, other), other, c, slot);
      }
      if last == null {
        heads := heads[slot := s];
        Alone(s);
        NoFront([s]);
      } else {
        GoodDistinct(c, repr);
        assert last in c;
        SetPrevTok(last, s, c, heads[slot], st.locals, localStack, globals, globalStack);
        forall other <- heads | other != slot ensures ByToken(Chain(st, other), heads[other]) {
          var d := Chain(st, other);
          assert last !in d;
          assert old(ByToken(d, heads[other]));
        }
      }
    }

    // global_identifier_push.
    method Append(v: Token) returns (s: Sym)
      requires Valid() && (GlobalSlot(v).Some? ==> GlobalSlot(v).value in heads)
      modifies this, repr
      ensures Valid() && fresh(s) && repr == old(repr) + {s} && s.v == v && st == Step(old(st), Op.Append(s))
      ensures globals == [s] + old(globals) && localStack == old(localStack)
    {
      hide SlotOf, GlobalSlot, Chain, Step, Good, Recorded, ByToken, ByStack, First, InTable;
      s := new Sym(v, globalStack);
      assert Valid();
      forall slot <- heads ensures Good(Chain(st, slot), repr) && Recorded(Chain(st, slot), slot) && ByToken(Chain(st, slot), heads[slot]) {
        assert Tied(slot);
      }
      Outside(st.locals, repr);
      Outside(globals, repr);
      if GlobalSlot(v).Some? {
        PutLast(s);
      }
      ghost var was, before := st, globals;
      StackTop(before, globalStack);
      globalStack := s;
      globals := [s] + globals;
      st := Step(st, Op.Append(s));
      repr := repr + {s};
      StackFront(s, before);
      GoodFront(s, before, old(repr));
      GoodFront(s, was.locals, old(repr));
      FirstOf(s, before);
      AppendedLocals(was, s);
      forall slot <- heads ensures Tied(slot) {
        AppendedChain(was, s, slot);
        GoodFront(s, Chain(was, slot), old(repr));
        NoFront(Chain(was, slot));
        if GlobalSlot(v) == Some(slot) {
          GoodEnd(s, Chain(was, slot), old(repr));
          RecordedEnd(s, Chain(was, slot), slot);
        }
      }
    }

    // external_global_sym: the visible symbol, declared if there is none.
    method ExternalGlobalSym(v: Token) returns (s: Sym)
      requires Valid() && GlobalSlot(v).Some? && GlobalSlot(v).value in heads
      modifies this, repr
      ensures Valid() && Slot(false, v) in st.tails && s == First(Chain(st, Slot(false, v)))
      ensures st == if old(Chain(st, Slot(false, v))) != [] then old(st) else Step(old(st), Op.Append(s))
    {
      hide SlotOf, Chain, Step, Good, Recorded, ByToken, ByStack, First, InTable;
      var slot := Slot(false, v);
      ghost var was := st;
      var found := Find(v);
      FirstNull(Chain(st, slot));
      if found != null { return found; }
      s := Append(v);
      AppendedChain(was, s, slot);
      NoFront([s]);
      FirstOf(s, []);
    }
  }

  // What the head of a slot is once the symbols c have been popped one after the other.
  ghost function LeftAt(c: seq<Sym>, slot: Slot, head: Sym?): Sym?
    reads c
  {
    var d := Of(c, slot);
    OfIn(c, slot);
    if d == [] then head
    else
      assert d[|d| - 1] in d;
      d[|d| - 1].prevTok
  }

  lemma {:induction false} OfIn(c: seq<Sym>, slot: Slot)
    ensures forall s <- Of(c, slot) :: s in c
  {
    hide SlotOf;
    if c != [] {
      OfIn(c[1..], slot);
      assert forall s <- c[1..] :: s in c;
    }
  }

  lemma {:induction false} OfAppend(c: seq<Sym>, s: Sym, slot: Slot)
    ensures Of(c + [s], slot) == Of(c, slot) + (if SlotOf(s.v) == Some(slot) then [s] else [])
  {
    hide SlotOf;
    if c == [] {
      assert c + [s] == [s] && [s][1..] == [];
    } else {
      assert (c + [s])[1..] == c[1..] + [s];
      OfAppend(c[1..], s, slot);
    }
  }

  lemma LeftStep(c: seq<Sym>, s: Sym, slot: Slot, head: Sym?)
    ensures LeftAt(c + [s], slot, head) == if SlotOf(s.v) == Some(slot) then s.prevTok else LeftAt(c, slot, head)
  {
    OfAppend(c, s, slot);
    hide SlotOf, Of;
  }

  lemma NothingLeft(c: seq<Sym>, slot: Slot, head: Sym?)
    requires c == []
    ensures LeftAt(c, slot, head) == head
  {}

  lemma InTableAt(c: seq<Sym>, s: Sym, slots: set<Slot>)
    requires InTable(c, slots) && s in c
    ensures SlotOf(s.v).Some? ==> SlotOf(s.v).value in slots
  {
    hide SlotOf;
  }

  // So a slot is cleared exactly when the first of its global symbols ends its chain: a global
  // appended behind it is left in the table although it has been freed.
  lemma ClearedWhenLast(c: seq<Sym>, head: Sym?, globals: seq<Sym>, slot: Slot, i: nat)
    requires ByToken(c, head) && i < |c| && Of(globals, slot) != [] && c[i] == Of(globals, slot)[|Of(globals, slot)| - 1]
    ensures LeftAt(globals, slot, head) == null <==> i == |c| - 1
    ensures i < |c| - 1 ==> LeftAt(globals, slot, head) == c[i + 1]
  {
    hide Of;
    FirstNull(c[i + 1..]);
    FirstIs(c[i + 1..]);
  }

  lemma FirstIs(c: seq<Sym>)
    ensures c != [] ==> First(c) == c[0]
  {}

  lemma BottomIs(c: seq<Sym>)
    ensures c != [] ==> Bottom(c, |c| - 1) == c[1..]
  {}

  lemma GoodBack(s: Sym, c: seq<Sym>, repr: set<Sym>)
    requires Good([s] + c, repr)
    ensures Good(c, repr)
  {
    assert forall i :: 0 <= i < |c| ==> c[i] == ([s] + c)[i + 1];
  }

  lemma RecordedBack(s: Sym, c: seq<Sym>, slot: Slot)
    requires Recorded([s] + c, slot)
    ensures Recorded(c, slot)
  {
    assert forall x <- c :: x in [s] + c;
    hide SlotOf;
  }

  lemma PoppedChain(st: Scopes, next: Scopes, slot: Slot)
    requires slot in st.tails && st.locals != [] && next == Scopes(st.locals[1..], st.tails)
    ensures Chain(st, slot) == (if SlotOf(st.locals[0].v) == Some(slot) then [st.locals[0]] else []) + Chain(next, slot)
  {
    hide SlotOf;
  }

  // How many local symbols are left when b is on top.
  function Height(locals: seq<Sym>, b: Sym?): nat {
    if locals == [] || locals[0] == b then |locals| else Height(locals[1..], b)
  }

  lemma HeightStep(locals: seq<Sym>, b: Sym?)
    requires b == null || b in locals
    ensures locals != [] && locals[0] != b ==> Height(locals, b) == Height(locals[1..], b) && (b == null || b in locals[1..])
    ensures locals == [] || locals[0] == b ==> Height(locals, b) == |locals|
  {}

  lemma PopTwice(st: Scopes, n: nat)
    requires 0 < n <= |st.locals|
    ensures Step(Step(st, Pop(n)), Pop(n - 1)) == Step(st, Pop(n - 1)) && |Step(st, Pop(n)).locals| == n
  {
    assert st.locals[|st.locals| - n..][1..] == st.locals[|st.locals| - (n - 1)..];
  }

  lemma Alone(s: Sym)
    requires s.prevTok == null
    ensures ByToken([s], s)
  {}

  // Linking s behind the last symbol of the chain c.
  method SetPrevTok(last: Sym, s: Sym, ghost c: seq<Sym>, ghost head: Sym?, ghost locals: seq<Sym>, ghost top: Sym?,
                    ghost globals: seq<Sym>, ghost gtop: Sym?)
    requires ByToken(c, head) && Distinct(c) && c != [] && last == c[|c| - 1] && s !in c && s.prevTok == null
    requires ByStack(locals, top) && ByStack(globals, gtop)
    modifies last`prevTok
    ensures ByToken(c + [s], head) && ByStack(locals, top) && ByStack(globals, gtop)
  {
    last.prevTok := s;
    ghost var d := c + [s];
    forall i | 0 <= i < |d| ensures d[i].prevTok == First(d[i + 1..]) {
      if i < |c| - 1 {
        assert c[i] != c[|c| - 1] && c[i] in c;
        assert d[i + 1..][0] == c[i + 1] == c[i + 1..][0];
      }
    }
  }

  lemma AppendedLocals(st: Scopes, s: Sym)
    ensures var next := Step(st, Op.Append(s)); next.locals == st.locals && next.tails.Keys == st.tails.Keys
  {
    hide SlotOf, GlobalSlot;
  }

  lemma AppendedChain(st: Scopes, s: Sym, slot: Slot)
    requires slot in st.tails
    ensures var next := Step(st, Op.Append(s));
            next.locals == st.locals && next.tails.Keys == st.tails.Keys &&
            Chain(next, slot) == Chain(st, slot) + (if GlobalSlot(s.v) == Some(slot) then [s] else [])
  {
    hide SlotOf, GlobalSlot, Of;
    var next := Step(st, Op.Append(s));
    assert Of(st.locals, slot) + (st.tails[slot] + [s]) == Of(st.locals, slot) + st.tails[slot] + [s];
    assert next.tails.Keys == st.tails.Keys;
  }

  lemma GoodEnd(s: Sym, c: seq<Sym>, repr: set<Sym>)
    requires Good(c, repr) && s !in repr
    ensures Good(c + [s], repr + {s})
  {
    assert forall i :: 0 <= i < |c| ==> (c + [s])[i] == c[i] && c[i] in c;
  }

  lemma RecordedEnd(s: Sym, c: seq<Sym>, slot: Slot)
    requires Recorded(c, slot) && GlobalSlot(s.v) == Some(slot)
    ensures Recorded(c + [s], slot)
  {
    assert SlotOf(s.v) == Some(slot);
    hide SlotOf;
  }

  // A symbol is in the chain of one slot only.
  lemma NotRecorded(c: seq<Sym>, slot: Slot, d: seq<Sym>, other: Slot)
    requires Recorded(c, slot) && Recorded(d, other) && slot != other
    ensures forall x <- d :: x !in c
  {
    hide SlotOf;
  }

  lemma TokenHead(c: seq<Sym>, head: Sym?)
    requires ByToken(c, head)
    ensures head == First(c)
  {}
}
