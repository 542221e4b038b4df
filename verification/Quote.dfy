// sdk/as/quote.c: quoting a byte string and dequoting it in place.
module Quote {
  import opened Base

  const SINGLE: Byte := 0x27
  const DOUBLE: Byte := 0x22
  const BACK: Byte := 0x60
  const SLASH: Byte := 0x5c
  const ZERO: Byte := 0x30

  predicate IsOctal(c: Byte) { 0x30 <= c <= 0x37 }

  predicate IsHex(c: Byte) { 0x30 <= c <= 0x39 || 0x41 <= c <= 0x46 || 0x61 <= c <= 0x66 }

  function NumValue(c: Byte): nat
    requires IsHex(c)
  {
    if c >= 0x61 then c - 0x61 + 10 else if c >= 0x41 then c - 0x41 + 10 else c - 0x30
  }

  // ----- Dequoting -----

  // A zero byte ends every string.
  predicate Ends(s: seq<Byte>, i: nat) {
    i < |s| && 0 in s[i..]
  }

  lemma EndsNext(s: seq<Byte>, i: nat)
    requires Ends(s, i) && s[i] != 0
    ensures Ends(s, i + 1)
  {}

  // From position i, up to n digits of an octal or hexadecimal number that starts with val:
  // the position behind them and the number.
  function Digits(s: seq<Byte>, i: nat, n: nat, val: nat, octal: bool): (r: (nat, nat))
    requires Ends(s, i)
    ensures i <= r.0 <= i + n && Ends(s, r.0)
    decreases n
  {
    if n > 0 && (if octal then IsOctal(s[i]) else IsHex(s[i])) then
      EndsNext(s, i);
      Digits(s, i + 1, n - 1, if octal then val * 8 + (s[i] - 0x30) else val * 16 + NumValue(s[i]), octal)
    else (i, val)
  }

  // A continuation byte and a first byte of UTF-8.
  function Cont(v: nat, unit: nat): Byte
    requires unit > 0
  {
    0x80 + v / unit % 0x40
  }

  function Lead(v: nat, unit: nat, mark: nat): Byte
    requires unit > 0 && v / unit + mark < 0x100
  {
    mark + v / unit
  }

  // emit_utf8: up to six bytes, none for what is negative as an int32_t.
  function Utf8(v: nat): (r: seq<Byte>)
    ensures |r| <= 6
  {
    if v >= 0x8000_0000 then []
    else if v <= 0x7f then [v]
    else if v <= 0x7ff then [Lead(v, 0x40, 0xc0), Cont(v, 1)]
    else if v <= 0xffff then [Lead(v, 0x1000, 0xe0), Cont(v, 0x40), Cont(v, 1)]
    else if v <= 0x1f_ffff then [Lead(v, 0x4_0000, 0xf0), Cont(v, 0x1000), Cont(v, 0x40), Cont(v, 1)]
    else if v <= 0x3ff_ffff then
      [Lead(v, 0x100_0000, 0xf8), Cont(v, 0x4_0000), Cont(v, 0x1000), Cont(v, 0x40), Cont(v, 1)]
    else
      [Lead(v, 0x4000_0000, 0xfc), Cont(v, 0x100_0000), Cont(v, 0x4_0000), Cont(v, 0x1000),
       Cont(v, 0x40), Cont(v, 1)]
  }

  // The byte a one-letter escape stands for; other characters stand for themselves.
  function Plain(c: Byte): Byte {
    if c == 0x61 then 7 else if c == 0x62 then 8 else if c == 0x65 then 27 else if c == 0x66 then 12
    else if c == 0x6e then 10 else if c == 0x72 then 13 else if c == 0x74 then 9 else if c == 0x76 then 11
    else c
  }

  // The number of digits after \x, \u and \U, zero for other characters.
  function HexCount(c: Byte): nat {
    if c == 0x78 || c == 0x58 then 2 else if c == 0x75 then 4 else if c == 0x55 then 8 else 0
  }

  // What the hexadecimal escape with letter c and value val stands for.
  function HexBytes(c: Byte, val: nat): seq<Byte> {
    if HexCount(c) == 2 then [val % 0x100] else Utf8(val)
  }

  // The escape whose letter is at i: its bytes and the position behind it.
  function Escape(s: seq<Byte>, i: nat): (r: (seq<Byte>, nat))
    requires Ends(s, i) && s[i] != 0
    ensures i < r.1 && Ends(s, r.1)
  {
    EndsNext(s, i);
    if IsOctal(s[i]) then
      var (next, val) := Digits(s, i + 1, 2, s[i] - 0x30, true);
      ([val % 0x100], next)
    else if HexCount(s[i]) > 0 then
      var (next, val) := Digits(s, i + 1, HexCount(s[i]), 0, false);
      // no digits: the letter itself
      if next == i + 1 then ([s[i]], next) else (HexBytes(s[i], val), next)
    else ([Plain(s[i])], i + 1)
  }

  // The inside of a backquoted string from i: its bytes, and where it ends.
  function Inside(s: seq<Byte>, i: nat): (r: (seq<Byte>, nat))
    requires Ends(s, i)
    ensures i <= r.1 < |s| && (s[r.1] == 0 || s[r.1] == BACK)
    decreases |s| - i
  {
    if s[i] == 0 || s[i] == BACK then ([], i)
    else
      EndsNext(s, i);
      if s[i] != SLASH then
        var (bytes, end) := Inside(s, i + 1);
        ([s[i]] + bytes, end)
      else if s[i + 1] == 0 then ([], i + 1)
      else
        var (b, next) := Escape(s, i + 1);
        var (bytes, end) := Inside(s, next);
        (b + bytes, end)
  }

  // The position of the first quote or zero from i.
  function Until(s: seq<Byte>, i: nat, quote: Byte): (r: nat)
    requires Ends(s, i)
    ensures i <= r < |s| && (s[r] == 0 || s[r] == quote) && forall j :: i <= j < r ==> s[j] != 0 && s[j] != quote
    decreases |s| - i
  {
    if s[i] == 0 || s[i] == quote then i
    else
      EndsNext(s, i);
      Until(s, i + 1, quote)
  }

  // as_unquote: the dequoted bytes and the end position.
  function Unquoted(s: seq<Byte>): (r: (seq<Byte>, nat))
    requires Ends(s, 0)
    ensures r.1 < |s|
  {
    if s[0] == 0 then ([], 0)
    else
      EndsNext(s, 0);
      if s[0] == SINGLE || s[0] == DOUBLE then
        var end := Until(s, 1, s[0]);
        (s[1..end], end)
      else if s[0] == BACK then Inside(s, 1)
      else
        var end := Until(s, 0, 0);
        (s[..end], end)
  }

  // ----- as_unquote -----

  datatype State = Start | Backslash | Hex | Oct | Ucs

  // The registers of the five-state machine.
  datatype Machine = Machine(state: State, ndig: nat, nval: nat, escp: nat)

  predicate GoodMachine(s: seq<Byte>, m: Machine, p: nat) {
    match m.state
    case Oct => 0 < m.ndig
    case Hex => Escaped(s, m, p) && HexCount(s[m.escp - 1]) == 2
    case Ucs => Escaped(s, m, p) && HexCount(s[m.escp - 1]) > 2
    case _ => true
  }

  predicate Escaped(s: seq<Byte>, m: Machine, p: nat) {
    0 < m.escp <= p && m.escp <= |s| && 0 < m.ndig &&
    (p <= m.escp ==> m.nval == 0) && (p <= m.escp + 1 ==> m.nval < 0x10) && (p <= m.escp + 2 ==> m.nval < 0x100) &&
    (p <= m.escp + 3 ==> m.nval < 0x1000)
  }

  // What the machine will still make of the string from p.
  function Rest(s: seq<Byte>, m: Machine, p: nat): (r: (seq<Byte>, nat))
    requires Ends(s, p) && GoodMachine(s, m, p)
  {
    if m.state.Start? then Inside(s, p)
    else if m.state.Backslash? then
      if s[p] == 0 then ([], p)
      else
        var (b, next) := Escape(s, p);
        var (bytes, end) := Inside(s, next);
        (b + bytes, end)
    else
      var (next, val) := Digits(s, p, m.ndig, m.nval, m.state.Oct?);
      var (bytes, end) := Inside(s, next);
      ((if m.state.Oct? then [val % 0x100] else if next == m.escp then [s[m.escp - 1]] else HexBytes(s[m.escp - 1], val)) + bytes, end)
  }

  // How far the output lags behind the input.
  predicate Room(m: Machine, p: nat, q: nat) {
    match m.state
    case Start => q < p
    case Backslash => q + 2 <= p
    case Oct => q + 3 <= p
    case _ => q + 3 <= m.escp
  }

  method Put(a: array<Byte>, q: nat, c: Byte) returns (next: nat)
    requires q < a.Length
    modifies a
    ensures next == q + 1 && a[..next] == old(a[..q]) + [c] && a[next..] == old(a[next..])
  {
    a[q] := c;
    next := q + 1;
  }

  // emit_utf8.
  method EmitUtf8(a: array<Byte>, start: nat, v: nat) returns (q: nat)
    requires start + |Utf8(v)| <= a.Length
    modifies a
    ensures q == start + |Utf8(v)| && a[..q] == old(a[..start]) + Utf8(v) && a[q..] == old(a[q..])
  {
    hide Cont, Lead;
    q := start;
    if v >= 0x8000_0000 {
    } else if v <= 0x7f {
      a[q] := v;
      q := q + 1;
    } else if v <= 0x7ff {
      a[q], a[q + 1] := Lead(v, 0x40, 0xc0), Cont(v, 1);
      q := q + 2;
    } else if v <= 0xffff {
      a[q], a[q + 1], a[q + 2] := Lead(v, 0x1000, 0xe0), Cont(v, 0x40), Cont(v, 1);
      q := q + 3;
    } else {
      q := EmitLong(a, q, v);
    }
    assert a[..q] == old(a[..start]) + Utf8(v) && a[q..] == old(a[q..]);
  }

  // Its last three branches.
  method EmitLong(a: array<Byte>, start: nat, v: nat) returns (q: nat)
    requires start + |Utf8(v)| <= a.Length && 0xffff < v < 0x8000_0000
    modifies a
    ensures q == start + |Utf8(v)| && a[..q] == old(a[..start]) + Utf8(v) && a[q..] == old(a[q..])
  {
    hide Cont, Lead;
    q := start;
    if v <= 0x1f_ffff {
      a[q], a[q + 1], a[q + 2], a[q + 3] := Lead(v, 0x4_0000, 0xf0), Cont(v, 0x1000), Cont(v, 0x40), Cont(v, 1);
      q := q + 4;
    } else if v <= 0x3ff_ffff {
      a[q], a[q + 1], a[q + 2], a[q + 3], a[q + 4] :=
        Lead(v, 0x100_0000, 0xf8), Cont(v, 0x4_0000), Cont(v, 0x1000), Cont(v, 0x40), Cont(v, 1);
      q := q + 5;
    } else {
      a[q], a[q + 1], a[q + 2], a[q + 3], a[q + 4], a[q + 5] :=
        Lead(v, 0x4000_0000, 0xfc), Cont(v, 0x100_0000), Cont(v, 0x4_0000), Cont(v, 0x1000), Cont(v, 0x40), Cont(v, 1);
      q := q + 6;
    }
    assert a[..q] == old(a[..start]) + Utf8(v) && a[q..] == old(a[q..]);
  }

  const IDLE := Machine(Start, 0, 0, 0)

  // What remains before a turn, against what remains after it: b comes first.
  predicate Splits(s: seq<Byte>, m: Machine, p: nat, n: Machine, r: nat, b: seq<Byte>) {
    Ends(s, p) && GoodMachine(s, m, p) && Ends(s, r) && GoodMachine(s, n, r) && Rest(s, m, p).1 == Rest(s, n, r).1 &&
    Rest(s, m, p).0 == if b == [] then Rest(s, n, r).0 else b + Rest(s, n, r).0
  }

  const SLASHED := Machine(Backslash, 0, 0, 0)

  lemma SplitsStart(s: seq<Byte>, m: Machine, p: nat)
    requires Ends(s, p) && s[p] != 0 && s[p] != BACK && m.state.Start?
    ensures Splits(s, m, p, if s[p] == SLASH then SLASHED else IDLE, p + 1, if s[p] == SLASH then [] else [s[p]])
  {}

  // The machine after the letter of an escape.
  function AfterLetter(c: Byte, p: nat): Machine {
    if IsOctal(c) then Machine(Oct, 2, c - 0x30, p + 1)
    else if HexCount(c) > 0 then Machine(if HexCount(c) == 2 then Hex else Ucs, HexCount(c), 0, p + 1)
    else IDLE
  }

  lemma SplitsBackslash(s: seq<Byte>, m: Machine, p: nat)
    requires Ends(s, p) && s[p] != 0 && m.state.Backslash?
    ensures Splits(s, m, p, AfterLetter(s[p], p), p + 1, if AfterLetter(s[p], p).state.Start? then [Plain(s[p])] else [])
  {
    EndsNext(s, p);
    LetterGood(s, p);
    hide Inside, Digits, Plain, HexCount, IsOctal, HexBytes, GoodMachine;
  }

  lemma LetterGood(s: seq<Byte>, p: nat)
    requires p < |s|
    ensures GoodMachine(s, AfterLetter(s[p], p), p + 1)
    ensures s[p] >= 0x30 || !IsOctal(s[p])
  {}

  predicate IsNextDigit(m: Machine, c: Byte) { if m.state.Oct? then IsOctal(c) else IsHex(c) }

  function NextValue(m: Machine, c: Byte): nat
    requires IsNextDigit(m, c)
  {
    if m.state.Oct? then m.nval * 8 + (c - 0x30) else m.nval * 16 + NumValue(c)
  }

  // What an escape comes to when its number is complete.
  function Emitted(s: seq<Byte>, m: Machine, next: nat, val: nat): seq<Byte>
    requires !m.state.Oct? ==> 0 < m.escp <= |s|
  {
    if m.state.Oct? then [val % 0x100] else if next == m.escp then [s[m.escp - 1]] else HexBytes(s[m.escp - 1], val)
  }

  predicate Numeric(s: seq<Byte>, m: Machine, p: nat) {
    GoodMachine(s, m, p) && (m.state.Oct? || m.state.Hex? || m.state.Ucs?)
  }

  // The machine after one more digit.
  function Counted(m: Machine, c: Byte): Machine
    requires m.ndig > 0 && IsNextDigit(m, c)
  {
    m.(ndig := m.ndig - 1, nval := NextValue(m, c))
  }

  lemma CountedGood(s: seq<Byte>, m: Machine, p: nat)
    requires p < |s| && Numeric(s, m, p) && IsNextDigit(m, s[p])
    ensures m.ndig > 0
    ensures var n := Counted(m, s[p]);
            (n.ndig > 0 ==> GoodMachine(s, n, p + 1)) && (m.state.Ucs? ==> Escaped(s, n.(ndig := 1), p + 1))
  {}

  lemma CountedRest(s: seq<Byte>, m: Machine, p: nat)
    requires Ends(s, p) && Ends(s, p + 1) && Numeric(s, m, p) && m.ndig > 0 && IsNextDigit(m, s[p])
    ensures var n := Counted(m, s[p]);
            n.ndig > 0 && GoodMachine(s, n, p + 1) ==> Rest(s, m, p) == Rest(s, n, p + 1)
    ensures var n := Counted(m, s[p]);
            n.ndig == 0 ==> Rest(s, m, p) == (Emitted(s, n, p + 1, n.nval) + Rest(s, IDLE, p + 1).0, Rest(s, IDLE, p + 1).1)
  {
    var n := Counted(m, s[p]);
    assert Digits(s, p, m.ndig, m.nval, m.state.Oct?) == Digits(s, p + 1, n.ndig, n.nval, m.state.Oct?);
    assert n.ndig == 0 ==> Digits(s, p + 1, n.ndig, n.nval, m.state.Oct?) == (p + 1, n.nval);
    hide Inside, HexBytes, NumValue, HexCount, IsHex, IsOctal, Digits, IsNextDigit, NextValue;
  }

  lemma SplitsDigit(s: seq<Byte>, m: Machine, p: nat)
    requires Ends(s, p) && s[p] != 0 && Numeric(s, m, p) && IsNextDigit(m, s[p])
    ensures m.ndig > 0 && Ends(s, p + 1) && (!m.state.Oct? ==> 0 < m.escp <= |s|)
    ensures var n := Counted(m, s[p]);
            if n.ndig > 0 then Splits(s, m, p, n, p + 1, [])
            else Splits(s, m, p, IDLE, p + 1, Emitted(s, n, p + 1, n.nval)) && (m.state.Ucs? ==> Escaped(s, n.(ndig := 1), p + 1))
  {
    EndsNext(s, p);
    CountedGood(s, m, p);
    CountedRest(s, m, p);
    EscapedBefore(s, m, p);
    hide Rest, Inside, IsNextDigit, Counted, Emitted, Escaped, HexCount;
    assert [] + Rest(s, IDLE, p + 1).0 == Rest(s, IDLE, p + 1).0;
  }

  lemma SplitsOther(s: seq<Byte>, m: Machine, p: nat)
    requires Ends(s, p) && Numeric(s, m, p) && !IsNextDigit(m, s[p])
    ensures Splits(s, m, p, IDLE, p, Emitted(s, m, p, m.nval)) && (m.state.Ucs? ==> Escaped(s, m.(ndig := 1), p))
  {}

  // A number is never longer in UTF-8 than its escape.
  lemma EmittedRoom(s: seq<Byte>, m: Machine, p: nat)
    requires m.state.Oct? || (m.state.Hex? && 0 < m.escp <= |s| && HexCount(s[m.escp - 1]) == 2)
             || (m.state.Ucs? && Escaped(s, m.(ndig := 1), p))
    ensures |Emitted(s, m, p, m.nval)| <= (if m.state.Ucs? && p > m.escp then p - m.escp + 2 else 1)
  {}

  // The state of the in-place loop: what is left of the buffer is the input, and output
  // and rest together are what the string stands for.
  ghost predicate Loop(s: seq<Byte>, now: seq<Byte>, q: nat, m: Machine, p: nat) {
    Ends(s, 1) && Ends(s, p) && GoodMachine(s, m, p) && Room(m, p, q) && q <= p && |now| == |s| && now[q..] == s[q..] &&
    now[..q] + Rest(s, m, p).0 == Inside(s, 1).0 && Rest(s, m, p).1 == Inside(s, 1).1
  }

  lemma LoopTurn(s: seq<Byte>, now: seq<Byte>, q: nat, m: Machine, p: nat, after: seq<Byte>, q': nat, n: Machine, r: nat, b: seq<Byte>)
    requires Loop(s, now, q, m, p) && Splits(s, m, p, n, r, b) && p <= r && Room(n, r, q') && q' == q + |b| <= r
    requires |after| == |now| && after[..q'] == now[..q] + b && after[q'..] == now[q'..]
    ensures Loop(s, after, q', n, r)
  {
    TailKept(s, now, q, after, q');
    Joined(now[..q], b, Rest(s, n, r).0, after[..q']);
    hide Rest, Inside, Room, GoodMachine, Ends;
  }

  lemma TailKept(s: seq<Byte>, now: seq<Byte>, q: nat, after: seq<Byte>, q': nat)
    requires q <= q' <= |s| == |now| == |after| && now[q..] == s[q..] && after[q'..] == now[q'..]
    ensures after[q'..] == s[q'..]
  {}

  lemma Joined(out: seq<Byte>, b: seq<Byte>, rest: seq<Byte>, after: seq<Byte>)
    requires after == out + b
    ensures after + rest == out + (if b == [] then rest else b + rest)
  {}

  lemma LoopByte(s: seq<Byte>, now: seq<Byte>, q: nat, m: Machine, p: nat)
    requires Loop(s, now, q, m, p)
    ensures p < |now| && now[p] == s[p] && Ends(s, p) && GoodMachine(s, m, p) && Room(m, p, q) && q <= p
    ensures m.state.Hex? || m.state.Ucs? ==> now[m.escp - 1] == s[m.escp - 1]
  {}

  // *q++ = c
  method PutByte(a: array<Byte>, q: nat, c: Byte, ghost s: seq<Byte>, ghost m: Machine, ghost p: nat, ghost n: Machine, ghost r: nat)
    returns (q': nat)
    requires Loop(s, a[..], q, m, p) && Splits(s, m, p, n, r, [c]) && p <= r && Room(n, r, q + 1) && q + 1 <= r && q < a.Length
    modifies a
    ensures q' == q + 1 && Loop(s, a[..], q', n, r)
  {
    hide *;
    ghost var now := a[..];
    q' := Put(a, q, c);
    assert a[..][..q'] == now[..q] + [c] && a[..][q'..] == now[q'..];
    LoopTurn(s, now, q, m, p, a[..], q', n, r, [c]);
  }

  // The bytes of a finished \x, \u, \U or octal escape.
  method PutEmitted(a: array<Byte>, q: nat, m: Machine, p: nat, ghost s: seq<Byte>) returns (q': nat)
    requires m.state.Oct? || m.state.Hex? || m.state.Ucs?
    requires !m.state.Oct? ==> 0 < m.escp <= |s| == a.Length && a[m.escp - 1] == s[m.escp - 1]
    requires !m.state.Oct? ==> (HexCount(s[m.escp - 1]) == 2 <==> m.state.Hex?)
    requires q + |Emitted(s, m, p, m.nval)| <= a.Length
    modifies a
    ensures q' == q + |Emitted(s, m, p, m.nval)|
    ensures a[..q'] == old(a[..q]) + Emitted(s, m, p, m.nval) && a[q'..] == old(a[q'..])
  {
    hide HexCount, Utf8;
    if m.state.Oct? {
      q' := Put(a, q, m.nval % 0x100);
    } else if p == m.escp {
      q' := Put(a, q, a[m.escp - 1]);
    } else if m.state.Hex? {
      q' := Put(a, q, m.nval % 0x100);
    } else {
      q' := EmitUtf8(a, q, m.nval);
    }
  }

  method PutNumber(a: array<Byte>, q: nat, m: Machine, p: nat, ghost s: seq<Byte>, ghost m0: Machine, ghost p0: nat) returns (q': nat)
    requires Loop(s, a[..], q, m0, p0) && Numeric(s, m0, p0) && m.state == m0.state && m.escp == m0.escp && p0 <= p <= p0 + 1
    requires !m.state.Oct? ==> 0 < m.escp <= |s|
    requires Splits(s, m0, p0, IDLE, p, Emitted(s, m, p, m.nval)) && Ends(s, p)
    requires m.state.Ucs? ==> Escaped(s, m.(ndig := 1), p)
    modifies a
    ensures Loop(s, a[..], q', IDLE, p)
  {
    hide *;
    LoopByte(s, a[..], q, m0, p0);
    NumberFacts(s, a[..], m0, p0, m, p, q);
    ghost var now, b := a[..], Emitted(s, m, p, m.nval);
    q' := PutEmitted(a, q, m, p, s);
    assert a[..][..q'] == now[..q] + b && a[..][q'..] == now[q'..];
    LoopTurn(s, now, q, m0, p0, a[..], q', IDLE, p, b);
  }

  lemma EscapedBefore(s: seq<Byte>, m: Machine, p: nat)
    requires Numeric(s, m, p)
    ensures !m.state.Oct? ==> m.escp <= p && 0 < m.escp <= |s|
  {}

  lemma NumberFacts(s: seq<Byte>, now: seq<Byte>, m0: Machine, p0: nat, m: Machine, p: nat, q: nat)
    requires Loop(s, now, q, m0, p0) && Numeric(s, m0, p0) && Room(m0, p0, q) && p0 <= p <= p0 + 1
    requires m.state == m0.state && m.escp == m0.escp && Ends(s, p) && (!m.state.Oct? ==> 0 < m.escp <= |s|)
    requires m.state.Ucs? ==> Escaped(s, m.(ndig := 1), p)
    ensures q + |Emitted(s, m, p, m.nval)| <= p < |s| == |now| && Room(IDLE, p, q + |Emitted(s, m, p, m.nval)|)
    ensures !m.state.Oct? ==> (HexCount(s[m.escp - 1]) == 2 <==> m.state.Hex?)
    ensures m.state.Oct? || m.state.Hex? || m.state.Ucs?
  {
    hide Rest, Inside, HexCount, Utf8, Escaped, Emitted;
    assert !m.state.Oct? ==> m.escp <= p by { EscapedBefore(s, m0, p0); }
    EmittedRoom(s, m, p);
  }
  lemma LoopStarts(s: seq<Byte>)
    requires Ends(s, 0) && Ends(s, 1)
    ensures Loop(s, s, 0, IDLE, 1)
  {}

  // A turn that only moves the machine on.
  predicate Silent(m: Machine, n: Machine, p: nat) {
    match n.state
    case Start => false
    case Backslash => m.state.Start?
    case _ => if m.state.Backslash? then n.escp == p + 1 else m.state == n.state && m.escp == n.escp
  }

  lemma RoomNext(m: Machine, p: nat, q: nat, n: Machine)
    requires Room(m, p, q) && Silent(m, n, p)
    ensures Room(n, p + 1, q)
  {}

  lemma NothingAdded(s: seq<Byte>)
    ensures s == s + []
  {}

  lemma LoopSilent(s: seq<Byte>, now: seq<Byte>, q: nat, m: Machine, p: nat, n: Machine)
    requires Loop(s, now, q, m, p) && Splits(s, m, p, n, p + 1, []) && Silent(m, n, p)
    ensures Loop(s, now, q, n, p + 1)
  {
    hide *;
    LoopByte(s, now, q, m, p);
    RoomNext(m, p, q, n);
    NothingAdded(now[..q]);
    LoopTurn(s, now, q, m, p, now, q, n, p + 1, []);
  }

  lemma LetterMachine(c: Byte, p: nat)
    ensures var n := AfterLetter(c, p); n == IDLE || ((n.state.Oct? || n.state.Hex? || n.state.Ucs?) && n.escp == p + 1)
  {}

  lemma LoopEnds(s: seq<Byte>, now: seq<Byte>, q: nat, m: Machine, p: nat)
    requires Loop(s, now, q, m, p) && (s[p] == 0 || (s[p] == BACK && m.state.Start?)) && (m.state.Start? || m.state.Backslash?)
    ensures q <= p < |now| && now[..q] == Inside(s, 1).0 && p == Inside(s, 1).1 && now[p..] == s[p..]
  {
    assert now[..q] + [] == now[..q];
    TailKept(s, now, q, now, p);
    hide Escape;
  }

  // The switch of the loop, for a character that does not end the string.
  method Turn(a: array<Byte>, p: nat, q: nat, m: Machine, ghost s: seq<Byte>) returns (p': nat, q': nat, n: Machine)
    requires Loop(s, a[..], q, m, p) && p < a.Length && a[p] != 0 && (m.state.Start? ==> a[p] != BACK)
    modifies a
    ensures Loop(s, a[..], q', n, p') && p' < a.Length
    ensures p < p' || (p == p' && n.state.Start? && !m.state.Start?)
  {
    hide Loop, Splits, Inside, Rest, Ends, GoodMachine, Escaped, Emitted, AfterLetter, IsNextDigit, NextValue, Plain, Room, Digits,
      Escape, HexCount, HexBytes, Utf8, NumValue, IsHex, IsOctal;
    LoopByte(s, a[..], q, m, p);
    var c := a[p];
    p', q' := p + 1, q;
    if m.state.Start? {
      SplitsStart(s, m, p);
      if c == SLASH {
        n := SLASHED;
        LoopSilent(s, a[..], q, m, p, n);
      } else {
        n := IDLE;
        q' := TurnByte(a, p, q, m, c, s);
      }
    } else if m.state.Backslash? {
      SplitsBackslash(s, m, p);
      LetterMachine(c, p);
      n := AfterLetter(c, p);
      if n.state.Start? {
        q' := TurnByte(a, p, q, m, Plain(c), s);
      } else {
        LoopSilent(s, a[..], q, m, p, n);
      }
    } else if IsNextDigit(m, c) {
      SplitsDigit(s, m, p);
      n := Counted(m, c);
      if n.ndig == 0 {
        q' := PutNumber(a, q, n, p + 1, s, m, p);
        n := IDLE;
      } else {
        LoopSilent(s, a[..], q, m, p, n);
      }
    } else {
      SplitsOther(s, m, p);
      EscapedBefore(s, m, p);
      q' := PutNumber(a, q, m, p, s, m, p);
      p', n := p, IDLE;
    }
    LoopByte(s, a[..], q', n, p');
  }

  lemma RoomByte(m: Machine, p: nat, q: nat)
    requires m.state.Start? || m.state.Backslash?
    ensures Room(m, p, q) ==> Room(IDLE, p + 1, q + 1) && q < p
  {}

  method TurnByte(a: array<Byte>, p: nat, q: nat, m: Machine, c: Byte, ghost s: seq<Byte>) returns (q': nat)
    requires Loop(s, a[..], q, m, p) && (m.state.Start? || m.state.Backslash?)
    requires Splits(s, m, p, IDLE, p + 1, [c])
    modifies a
    ensures Loop(s, a[..], q', IDLE, p + 1)
  {
    hide *;
    RoomByte(m, p, q);
    LoopByte(s, a[..], q, m, p);
    q' := PutByte(a, q, c, s, m, p, IDLE, p + 1);
  }

  // The `...` branch of as_unquote.
  method UnquoteBack(a: array<Byte>) returns (length: nat, end: nat)
    requires Ends(a[..], 0) && a[0] == BACK
    modifies a
    ensures Ends(old(a[..]), 1) && length <= end < a.Length
    ensures a[..length] == Inside(old(a[..]), 1).0 && end == Inside(old(a[..]), 1).1
    ensures a[end..] == old(a[end..])
  {
    ghost var s := a[..];
    EndsNext(s, 0);
    var p, q, m := 1, 0, IDLE;
    LoopStarts(s);
    hide Loop, Splits, Inside, Rest, Ends, GoodMachine, Escaped, Emitted;
    while a[p] != 0
      invariant p < a.Length && Loop(s, a[..], q, m, p)
      decreases a.Length - p, if m.state.Start? then 0 else 1
    {
      if m.state.Start? && a[p] == BACK { break; }
      p, q, m := Turn(a, p, q, m, s);
    }
    LoopByte(s, a[..], q, m, p);
    if m.state.Oct? || m.state.Hex? || m.state.Ucs? {
      EndsAtZero(s, m, p);
      SplitsOther(s, m, p);
      q := PutNumber(a, q, m, p, s, m, p);
      m := IDLE;
    }
    LoopEnds(s, a[..], q, m, p);
    length, end := q, p;
  }

  lemma EndsAtZero(s: seq<Byte>, m: Machine, p: nat)
    requires p < |s| && s[p] == 0
    ensures !IsNextDigit(m, s[p])
  {}

  // The '...' and "..." branch: a copy one place down.
  method UnquoteSimple(a: array<Byte>) returns (length: nat, end: nat)
    requires Ends(a[..], 0) && a[0] != 0 && Ends(a[..], 1)
    modifies a
    ensures end == Until(old(a[..]), 1, old(a[0])) && length == end - 1
    ensures a[..length] == old(a[..])[1..end] && a[length] == 0 && a[end..] == old(a[end..])
  {
    ghost var s := a[..];
    var bq := a[0];
    var p, q := 1, 0;
    hide Ends, Until;
    while a[p] != 0 && a[p] != bq
      invariant q + 1 == p < a.Length == |s| && Ends(s, p)
      invariant Until(s, 1, bq) == Until(s, p, bq)
      invariant a[..q] == s[1..p] && a[p..] == s[p..]
      decreases a.Length - p
    {
      ghost var now := a[..];
      CopyDown(now, s, p);
      EndsNext(s, p);
      UntilNext(s, p, bq);
      p := p + 1;
      a[q] := a[p - 1];
      assert a[..] == now[q := s[p - 1]];
      q := q + 1;
    }
    CopyDown(a[..], s, p);
    UntilHere(s, p, bq);
    ghost var now := a[..];
    a[q] := 0;
    assert a[..] == now[q := 0];
    length, end := q, p;
  }

  // One byte moved down, and a byte written behind the copy.
  lemma CopyDown(now: seq<Byte>, s: seq<Byte>, p: nat)
    requires 1 <= p < |s| == |now| && now[..p - 1] == s[1..p] && now[p..] == s[p..]
    ensures now[p] == s[p]
    ensures var t := now[p - 1 := s[p]]; t[..p] == s[1..p + 1] && t[p + 1..] == s[p + 1..]
    ensures var t := now[p - 1 := 0]; t[..p - 1] == s[1..p] && t[p..] == s[p..]
  {
    assert now[p] == now[p..][0] == s[p..][0];
    assert now[p - 1 := s[p]][..p] == now[..p - 1] + [s[p]];
    assert now[p - 1 := s[p]][p + 1..] == now[p..][1..] && s[p + 1..] == s[p..][1..];
  }

  lemma UntilNext(s: seq<Byte>, i: nat, quote: Byte)
    requires Ends(s, i) && Ends(s, i + 1) && s[i] != 0 && s[i] != quote
    ensures Until(s, i, quote) == Until(s, i + 1, quote) && i + 1 < |s|
  {}

  lemma UntilHere(s: seq<Byte>, i: nat, quote: Byte)
    requires Ends(s, i) && (s[i] == 0 || s[i] == quote)
    ensures Until(s, i, quote) == i
  {}

  // as_unquote. The source leaves the end pointer alone for an empty string.
  method AsUnquote(a: array<Byte>) returns (length: nat, end: nat)
    requires Ends(a[..], 0)
    modifies a
    ensures length <= end < a.Length
    ensures a[..length] == Unquoted(old(a[..])).0 && end == Unquoted(old(a[..])).1
    ensures a[end..] == old(a[end..])
  {
    ghost var s := a[..];
    var bq := a[0];
    if bq == 0 {
      return 0, 0;
    }
    EndsNext(s, 0);
    hide Inside;
    if bq == SINGLE || bq == DOUBLE {
      length, end := UnquoteSimple(a);
    } else if bq == BACK {
      length, end := UnquoteBack(a);
    } else {
      end := 0;
      while a[end] != 0
        invariant a[..] == s && Ends(s, end) && Until(s, 0, 0) == Until(s, end, 0)
        decreases a.Length - end
      {
        EndsNext(s, end);
        end := end + 1;
      }
      length := end;
    }
  }

  // ----- as_skip_string -----

  // The inside of a backquoted string as as_skip_string reads it: where it ends.
  function Skipped(s: seq<Byte>, i: nat): (r: nat)
    requires Ends(s, i)
    ensures i <= r < |s| && (s[r] == 0 || s[r] == BACK)
    decreases |s| - i
  {
    if s[i] == 0 || s[i] == BACK then i
    else
      EndsNext(s, i);
      if s[i] == SLASH && s[i + 1] != 0 then
        EndsNext(s, i + 1);
        Skipped(s, i + 2)
      else Skipped(s, i + 1)
  }

  lemma {:induction false} SkipsDigits(s: seq<Byte>, i: nat, n: nat, val: nat, octal: bool)
    requires Ends(s, i)
    ensures Skipped(s, i) == Skipped(s, Digits(s, i, n, val, octal).0)
    decreases n
  {
    if n > 0 && (if octal then IsOctal(s[i]) else IsHex(s[i])) {
      EndsNext(s, i);
      SkipsDigits(s, i + 1, n - 1, if octal then val * 8 + (s[i] - 0x30) else val * 16 + NumValue(s[i]), octal);
    }
  }

  lemma SkipsEscape(s: seq<Byte>, i: nat)
    requires Ends(s, i) && s[i] != 0
    ensures Ends(s, i + 1) && Skipped(s, i + 1) == Skipped(s, Escape(s, i).1)
  {
    EndsNext(s, i);
    if IsOctal(s[i]) {
      SkipsDigits(s, i + 1, 2, s[i] - 0x30, true);
    } else if HexCount(s[i]) > 0 {
      SkipsDigits(s, i + 1, HexCount(s[i]), 0, false);
    }
    hide Skipped, Digits, HexBytes, HexCount;
  }

  // Two states find the same end as five: no digit of an escape is a backslash or a quote.
  lemma {:induction false} SameEnd(s: seq<Byte>, i: nat)
    requires Ends(s, i)
    ensures Inside(s, i).1 == Skipped(s, i)
    decreases |s| - i
  {
    if s[i] != 0 && s[i] != BACK {
      EndsNext(s, i);
      if s[i] == SLASH && s[i + 1] != 0 {
        SkipsEscape(s, i + 1);
        SameEnd(s, Escape(s, i + 1).1);
      } else {
        SameEnd(s, i + 1);
      }
      hide Escape;
    }
  }

  // as_skip_string.
  method AsSkipString(s: seq<Byte>) returns (end: nat)
    requires Ends(s, 0)
    ensures end == SkipEnd(s)
  {
    var bq := s[0];
    if bq == SINGLE || bq == DOUBLE {
      EndsNext(s, 0);
      end := 1;
      while s[end] != 0 && s[end] != bq
        invariant Ends(s, end) && Until(s, 1, bq) == Until(s, end, bq)
        decreases |s| - end
      {
        EndsNext(s, end);
        end := end + 1;
      }
    } else if bq == BACK {
      EndsNext(s, 0);
      var p, backslash := 1, false;
      while s[p] != 0
        invariant Ends(s, p)
        invariant Skipped(s, 1) == if backslash && s[p] != 0 then Skipped(s, p + 1) else Skipped(s, p)
        invariant backslash && s[p] != 0 ==> Ends(s, p + 1)
        decreases |s| - p
      {
        var c := s[p];
        EndsNext(s, p);
        p := p + 1;
        if !backslash {
          if c == SLASH {
            backslash := true;
            if s[p] != 0 { EndsNext(s, p); }
          } else if c == BACK {
            return p - 1;
          }
        } else {
          backslash := false;
        }
      }
      // p++ has passed the zero
      end := p + 1;
    } else {
      end := 0;
    }
  }

  // Where as_skip_string ends: behind the zero if a backquoted string is not terminated.
  function SkipEnd(s: seq<Byte>): nat
    requires Ends(s, 0)
  {
    if s[0] == SINGLE || s[0] == DOUBLE then
      EndsNext(s, 0);
      Until(s, 1, s[0])
    else if s[0] == BACK then
      EndsNext(s, 0);
      if s[Skipped(s, 1)] == BACK then Skipped(s, 1) else Skipped(s, 1) + 1
    else 0
  }

  // For a quoted string as_skip_string and as_unquote stop at the same place, unless it is
  // an unterminated backquoted one: then as_skip_string is one place too far.
  lemma SkipAgrees(s: seq<Byte>)
    requires Ends(s, 0) && (s[0] == SINGLE || s[0] == DOUBLE || s[0] == BACK)
    ensures var end := Unquoted(s).1;
            SkipEnd(s) == (if s[0] == BACK && s[end] == 0 then end + 1 else end)
  {
    EndsNext(s, 0);
    SameEnd(s, 1);
    hide Inside, Skipped, Until;
  }

  // ----- Quoting -----

  predicate IsPrintable(c: Byte) { 0x20 <= c <= 0x7e }

  // The letter of a control character's escape, zero for none.
  function Letter(c: Byte): Byte {
    if c == 7 then 0x61 else if c == 8 then 0x62 else if c == 9 then 0x74 else if c == 10 then 0x6e
    else if c == 11 then 0x76 else if c == 12 then 0x66 else if c == 13 then 0x72 else if c == 27 then 0x65
    else 0
  }

  // The byte after position i, zero at the end.
  function After(b: seq<Byte>, i: nat): Byte { if i + 1 < |b| then b[i + 1] else 0 }

  // The octal digits of a byte, as bytes.
  function High(c: Byte): Byte { ZERO + c / 64 }

  function Middle(c: Byte): Byte { ZERO + c / 8 % 8 }

  function Low(c: Byte): Byte { ZERO + c % 8 }

  // An octal escape is as short as the next byte allows.
  function OctalEscape(c: Byte, next: Byte): seq<Byte> {
    var uc := if IsOctal(next) then 0xff else c;
    [SLASH] + (if uc > 0x3f then [High(c)] else []) + (if uc > 7 then [Middle(c)] else []) + [Low(c)]
  }

  function Quoting(c: Byte, next: Byte): seq<Byte> {
    if c == BACK || c == SLASH then [SLASH, c]
    else if Letter(c) != 0 then [SLASH, Letter(c)]
    else if IsPrintable(c) then [c]
    else OctalEscape(c, next)
  }

  function BackQuoted(b: seq<Byte>, i: nat): seq<Byte>
    decreases |b| - i
  {
    if i >= |b| then [] else Quoting(b[i], After(b, i)) + BackQuoted(b, i + 1)
  }

  predicate Fits(b: seq<Byte>, quote: Byte) {
    forall c <- b :: IsPrintable(c) && c != quote
  }

  // as_quote, with the zero that ends the string.
  function Quoted(b: seq<Byte>): seq<Byte> {
    if Fits(b, SINGLE) then [SINGLE] + b + [SINGLE, 0]
    else if Fits(b, DOUBLE) then [DOUBLE] + b + [DOUBLE, 0]
    else [BACK] + BackQuoted(b, 0) + [BACK, 0]
  }

  // ----- The round trip -----

  lemma EndsBefore(s: seq<Byte>, i: nat)
    requires i < |s| && s[|s| - 1] == 0
    ensures Ends(s, i)
  {}

  lemma OctalValue(c: Byte)
    ensures (c / 64 * 8 + c / 8 % 8) * 8 + c % 8 == c && c / 64 < 4 && (c <= 0x3f ==> c / 8 % 8 == c / 8) && (c <= 7 ==> c % 8 == c)
  {}

  // e stands in s at i.
  predicate StandsAt(s: seq<Byte>, i: nat, e: seq<Byte>) {
    i + |e| < |s| && s[|s| - 1] == 0 && s[i..i + |e|] == e
  }

  lemma StandsByte(s: seq<Byte>, i: nat, e: seq<Byte>, j: nat)
    requires StandsAt(s, i, e) && j < |e|
    ensures s[i + j] == e[j] && Ends(s, i + j) && Ends(s, i + j + 1) && i + |e| < |s| && s[|s| - 1] == 0
  {}

  lemma OctalRead(s: seq<Byte>, i: nat, n: nat, a: nat, b: nat, d: nat)
    requires Ends(s, i) && Ends(s, i + 1) && 1 <= n <= 3 && a < 8 && b < 8 && d < 8
    requires s[i] == ZERO + a && (n >= 2 ==> Ends(s, i + 2) && s[i + 1] == ZERO + b) && (n == 3 ==> Ends(s, i + 3) && s[i + 2] == ZERO + d)
    requires n < 3 ==> !IsOctal(s[i + n])
    ensures Escape(s, i) == ([(if n == 1 then a else if n == 2 then a * 8 + b else (a * 8 + b) * 8 + d) % 0x100], i + n)
  {}

  // An octal escape is read back, when what follows it is no digit it could swallow.
  lemma OctalBack(s: seq<Byte>, i: nat, c: Byte, next: Byte)
    requires StandsAt(s, i, OctalEscape(c, next)) && (IsOctal(s[i + |OctalEscape(c, next)|]) ==> IsOctal(next))
    ensures Ends(s, i + 1) && s[i] == SLASH && s[i + 1] != 0 && Escape(s, i + 1) == ([c], i + |OctalEscape(c, next)|)
  {
    hide *;
    var e := OctalEscape(c, next);
    OctalShape(c, next);
    StandsByte(s, i, e, 0);
    StandsByte(s, i, e, 1);
    if |e| == 4 {
      StandsByte(s, i, e, 2);
      StandsByte(s, i, e, 3);
      OctalLong(s, i + 1, c);
    } else if |e| == 3 {
      StandsByte(s, i, e, 2);
      OctalShort(s, i + 1, c);
    } else {
      OctalDigitOnly(s, i + 1, c);
    }
  }

  lemma OctalLong(s: seq<Byte>, i: nat, c: Byte)
    requires Ends(s, i) && Ends(s, i + 1) && Ends(s, i + 2) && Ends(s, i + 3)
    requires s[i] == High(c) && s[i + 1] == Middle(c) && s[i + 2] == Low(c)
    ensures Escape(s, i) == ([c], i + 3) && s[i] != 0
  {
    OctalValue(c);
    hide Escape;
    OctalRead(s, i, 3, c / 64, c / 8 % 8, c % 8);
  }

  lemma OctalShort(s: seq<Byte>, i: nat, c: Byte)
    requires Ends(s, i) && Ends(s, i + 1) && Ends(s, i + 2) && c <= 0x3f && !IsOctal(s[i + 2])
    requires s[i] == Middle(c) && s[i + 1] == Low(c)
    ensures Escape(s, i) == ([c], i + 2) && s[i] != 0
  {}

  lemma OctalDigitOnly(s: seq<Byte>, i: nat, c: Byte)
    requires Ends(s, i) && Ends(s, i + 1) && c <= 7 && !IsOctal(s[i + 1]) && s[i] == Low(c)
    ensures Escape(s, i) == ([c], i + 1) && s[i] != 0
  {}

  lemma OctalShape(c: Byte, next: Byte)
    ensures var e := OctalEscape(c, next);
            2 <= |e| <= 4 && e[0] == SLASH && (|e| < 4 ==> !IsOctal(next) && c <= 0x3f) &&
            (|e| == 2 ==> c <= 7 && e[1] == Low(c)) &&
            (|e| == 3 ==> e[1] == Middle(c) && e[2] == Low(c)) &&
            (|e| == 4 ==> e[1] == High(c) && e[2] == Middle(c) && e[3] == Low(c))
  {}

  lemma LetterBack(s: seq<Byte>, i: nat, c: Byte)
    requires i + 2 < |s| && s[|s| - 1] == 0 && s[i] == SLASH
    requires s[i + 1] == (if c == BACK || c == SLASH then c else Letter(c)) && (c == BACK || c == SLASH || Letter(c) != 0)
    ensures Ends(s, i + 1) && s[i + 1] != 0 && Escape(s, i + 1) == ([c], i + 2)
  {}

  // One quoted byte is read back as that byte.
  lemma QuotingBack(s: seq<Byte>, i: nat, c: Byte, next: Byte)
    requires StandsAt(s, i, Quoting(c, next)) && (IsOctal(s[i + |Quoting(c, next)|]) ==> IsOctal(next))
    ensures var j := i + |Quoting(c, next)|; i < j && Ends(s, i) && Ends(s, j) && Inside(s, i) == ([c] + Inside(s, j).0, Inside(s, j).1)
  {
    hide Escape, OctalEscape, StandsAt, IsOctal, Ends;
    var e := Quoting(c, next);
    QuotingStart(c, next);
    StandsByte(s, i, e, 0);
    StandsByte(s, i, e, |e| - 1);
    if c == BACK || c == SLASH || Letter(c) != 0 {
      LetterBack(s, i, c);
    } else if !IsPrintable(c) {
      OctalBack(s, i, c, next);
    }
    hide Letter;
  }

  // Only a digit itself is quoted to something that starts with a digit.
  lemma QuotingStart(c: Byte, next: Byte)
    ensures Quoting(c, next) != [] && (IsOctal(Quoting(c, next)[0]) ==> c == Quoting(c, next)[0])
  {}

  lemma StandsFirst(s: seq<Byte>, i: nat, e: seq<Byte>, rest: seq<Byte>)
    requires i <= |s| && s[i..] == e + rest && |rest| >= 2 && rest[|rest| - 1] == 0
    ensures StandsAt(s, i, e) && s[i + |e|..] == rest && s[i + |e|] == rest[0]
  {}

  lemma BackQuotedNext(b: seq<Byte>, k: nat)
    requires k < |b|
    ensures BackQuoted(b, k) == Quoting(b[k], After(b, k)) + BackQuoted(b, k + 1)
    ensures var r := BackQuoted(b, k + 1) + [BACK, 0];
            |r| >= 2 && r[|r| - 1] == 0 && (IsOctal(r[0]) ==> IsOctal(After(b, k)))
  {}

  lemma InsideEnds(s: seq<Byte>, i: nat, b: seq<Byte>)
    requires i <= |s| && s[i..] == BackQuoted(b, |b|) + [BACK, 0]
    ensures Ends(s, i) && Inside(s, i) == ([], |s| - 2)
  {}

  lemma {:induction false} BackQuotedBack(s: seq<Byte>, i: nat, b: seq<Byte>, k: nat)
    requires k <= |b| && i <= |s| && s[i..] == BackQuoted(b, k) + [BACK, 0]
    ensures Ends(s, i) && Inside(s, i) == (b[k..], |s| - 2)
    decreases |b| - k
  {
    hide *;
    if k == |b| {
      InsideEnds(s, i, b);
    } else {
      BackQuotedNext(b, k);
      var e, more := Quoting(b[k], After(b, k)), BackQuoted(b, k + 1);
      assert s[i..] == e + (more + [BACK, 0]);
      StandsFirst(s, i, e, more + [BACK, 0]);
      QuotingBack(s, i, b[k], After(b, k));
      BackQuotedBack(s, i + |e|, b, k + 1);
      assert b[k..] == [b[k]] + b[k + 1..];
    }
  }

  lemma {:induction false} UntilQuote(s: seq<Byte>, i: nat, n: nat, quote: Byte)
    requires i <= n < |s| && s[|s| - 1] == 0 && s[n] == quote && forall j :: i <= j < n ==> s[j] != 0 && s[j] != quote
    ensures Ends(s, i) && Until(s, i, quote) == n
    decreases n - i
  {}

  // Dequoting a quoted string gives back its bytes and stops on the closing quote.
  lemma RoundTrip(b: seq<Byte>)
    ensures Ends(Quoted(b), 0) && Unquoted(Quoted(b)) == (b, |Quoted(b)| - 2)
    ensures var s := Quoted(b); s[|s| - 2] == s[0] && SkipEnd(s) == |s| - 2
  {
    var s := Quoted(b);
    EndsBefore(s, 0);
    QuotedShape(b);
    hide Quoted, Fits, Until, Inside, BackQuoted;
    if s[0] == BACK {
      BackTrip(b, s);
    } else {
      SimpleTrip(b, s);
    }
    hide Unquoted, Skipped;
    SkipAgrees(s);
  }

  lemma QuotedShape(b: seq<Byte>)
    ensures var s := Quoted(b);
            if s[0] == BACK then s == [BACK] + BackQuoted(b, 0) + [BACK, 0]
            else (s[0] == SINGLE || s[0] == DOUBLE) && s == [s[0]] + b + [s[0], 0] && Fits(b, s[0])
    ensures var s := Quoted(b); |s| >= 3 && s[|s| - 2] == s[0] && s[|s| - 1] == 0
  {
    hide BackQuoted, Fits;
  }

  lemma BackTrip(b: seq<Byte>, s: seq<Byte>)
    requires s == [BACK] + BackQuoted(b, 0) + [BACK, 0] && Ends(s, 0)
    ensures Unquoted(s) == (b, |s| - 2)
  {
    EndsBefore(s, 1);
    assert s[1..] == BackQuoted(b, 0) + [BACK, 0];
    assert b[0..] == b;
    hide Inside, BackQuoted, Until;
    BackQuotedBack(s, 1, b, 0);
  }

  lemma SimpleTrip(b: seq<Byte>, s: seq<Byte>)
    requires |s| > 0 && (s[0] == SINGLE || s[0] == DOUBLE) && s == [s[0]] + b + [s[0], 0] && Fits(b, s[0]) && Ends(s, 0)
    ensures Unquoted(s) == (b, |s| - 2)
  {
    EndsBefore(s, 1);
    forall j | 1 <= j < |b| + 1 ensures s[j] != 0 && s[j] != s[0] {
      assert s[j] == b[j - 1] && b[j - 1] in b;
    }
    hide Fits, Inside;
    UntilQuote(s, 1, |b| + 1, s[0]);
    assert s[1..|b| + 1] == b;
  }

  // ----- as_quote -----

  // The length as_quote adds to qlen for a byte.
  method QuotingLength(c: Byte, next: Byte) returns (n: nat)
    ensures n == |Quoting(c, next)|
  {
    if c == BACK || c == SLASH || Letter(c) != 0 {
      n := 2;
    } else if !IsPrintable(c) {
      var uc := if IsOctal(next) then 0xff else c;
      n := 2;
      if uc > 0x3f { n := n + 1; }
      if uc > 7 { n := n + 1; }
    } else {
      n := 1;
    }
  }

  method PutOctal(a: array<Byte>, start: nat, c: Byte, next: Byte) returns (q: nat)
    requires start + |OctalEscape(c, next)| <= a.Length
    modifies a
    ensures q == start + |OctalEscape(c, next)| && a[..q] == old(a[..start]) + OctalEscape(c, next)
  {
    hide High, Middle, Low;
    q := start;
    var uc := if IsOctal(next) then 0xff else c;
    a[q] := SLASH;
    q := q + 1;
    if uc > 0x3f {
      a[q] := High(c);
      q := q + 1;
    }
    if uc > 7 {
      a[q] := Middle(c);
      q := q + 1;
    }
    a[q] := Low(c);
    q := q + 1;
    assert a[start..q] == OctalEscape(c, next) && a[..start] == old(a[..start]);
    assert a[..q] == a[..start] + a[start..q];
  }

  method PutQuoting(a: array<Byte>, start: nat, c: Byte, next: Byte) returns (q: nat)
    requires start + |Quoting(c, next)| <= a.Length
    modifies a
    ensures q == start + |Quoting(c, next)| && a[..q] == old(a[..start]) + Quoting(c, next)
  {
    hide OctalEscape;
    q := start;
    if c == BACK || c == SLASH {
      a[q], a[q + 1] := SLASH, c;
      q := q + 2;
    } else if Letter(c) != 0 {
      a[q], a[q + 1] := SLASH, Letter(c);
      q := q + 2;
    } else if !IsPrintable(c) {
      q := PutOctal(a, q, c, next);
    } else {
      a[q] := c;
      q := q + 1;
    }
    assert a[..q] == old(a[..start]) + Quoting(c, next);
  }

  lemma FitsNext(b: seq<Byte>, i: nat, quote: Byte)
    requires i < |b|
    ensures Fits(b[..i + 1], quote) <==> Fits(b[..i], quote) && IsPrintable(b[i]) && b[i] != quote
  {
    assert b[..i + 1] == b[..i] + [b[i]];
    assert b[i] in b[..i + 1] && forall c <- b[..i] :: c in b[..i + 1];
    assert forall c <- b[..i + 1] :: c in b[..i] || c == b[i];
  }

  // as_quote. The length of the `...` form is predicted exactly.
  method AsQuote(str: seq<Byte>) returns (nstr: array<Byte>)
    ensures fresh(nstr) && nstr[..] == Quoted(str)
  {
    var sqOk, dqOk, qlen := true, true, 0;
    for p := 0 to |str|
      invariant sqOk == Fits(str[..p], SINGLE) && dqOk == Fits(str[..p], DOUBLE)
      invariant qlen + |BackQuoted(str, p)| == |BackQuoted(str, 0)|
    {
      hide Quoting, Fits;
      FitsNext(str, p, SINGLE);
      FitsNext(str, p, DOUBLE);
      var c := str[p];
      if c == SINGLE {
        sqOk := false;
      } else if c == DOUBLE {
        dqOk := false;
      } else if !IsPrintable(c) {
        sqOk, dqOk := false, false;
      }
      var n := QuotingLength(c, After(str, p));
      qlen := qlen + n;
    }
    assert str[..|str|] == str;
    if sqOk || dqOk {
      nstr := new Byte[|str| + 3](i => 0);
      nstr[0] := if sqOk then SINGLE else DOUBLE;
      nstr[|str| + 1] := nstr[0];
      forall i | 0 <= i < |str| { nstr[i + 1] := str[i]; }
      assert nstr[..] == [nstr[0]] + str + [nstr[0], 0];
    } else {
      nstr := QuoteBack(str, qlen);
    }
  }

  method QuoteBack(str: seq<Byte>, qlen: nat) returns (nstr: array<Byte>)
    requires qlen == |BackQuoted(str, 0)|
    ensures fresh(nstr) && nstr[..] == [BACK] + BackQuoted(str, 0) + [BACK, 0]
  {
    nstr := new Byte[qlen + 3](i => 0);
    nstr[0] := BACK;
    var q := 1;
    assert nstr[..1] == [BACK];
    for p := 0 to |str|
      invariant 1 <= q && q + |BackQuoted(str, p)| == 1 + qlen
      invariant nstr[..q] + BackQuoted(str, p) == [BACK] + BackQuoted(str, 0)
    {
      BackQuotedNext(str, p);
      hide *;
      ghost var now, e, more := nstr[..q], Quoting(str[p], After(str, p)), BackQuoted(str, p + 1);
      assert now + (e + more) == (now + e) + more;
      q := PutQuoting(nstr, q, str[p], After(str, p));
    }
    assert nstr[..q] + [] == nstr[..q];
    nstr[q] := BACK;
    nstr[q + 1] := 0;
    assert q + 2 == qlen + 3;
  }
}
