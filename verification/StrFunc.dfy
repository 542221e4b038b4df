// sdk/as/strfunc.c: UTF-8 to UTF-16 and UTF-32.
module StrFunc {
  import opened Base

  // ----- What the two converters read -----

  predicate IsTail(c: Byte) { c / 0x40 == 2 }

  // The tail bytes a lead byte asks for, -1 for a byte that leads nothing.
  function TailCount(c: Byte): int {
    if c < 0x80 then 0 else if c < 0xc0 || c >= 0xfe then -1
    else if c < 0xe0 then 1 else if c < 0xf0 then 2 else if c < 0xf8 then 3 else if c < 0xfc then 4 else 5
  }

  // The bits of a lead byte that belong to the number.
  function LeadBits(c: Byte): nat {
    if c < 0x80 then c else if c < 0xe0 then c % 0x20 else if c < 0xf0 then c % 0x10 else if c < 0xf8 then c % 8
    else if c < 0xfc then c % 4 else c % 2
  }

  // The smallest number that needs that many tail bytes.
  function Least(tails: int): nat {
    if tails <= 0 then 0 else if tails == 1 then 0x80 else if tails == 2 then 0x800 else if tails == 3 then 0x1_0000
    else if tails == 4 then 0x20_0000 else 0x400_0000
  }

  predicate IsSurrogate(v: nat) { 0xd800 <= v <= 0xdfff }

  const MAX_SCALAR := 0x10_ffff
  const MAX_31 := 0x7fff_ffff

  // n tail bytes from i, appended to v.
  function Tails(s: seq<Byte>, i: nat, n: nat, v: nat): (r: Option<(nat, nat)>)
    requires i <= |s|
    ensures r.Some? ==> r.value.1 == i + n <= |s|
    decreases n
  {
    if n == 0 then Some((v, i))
    else if i == |s| || !IsTail(s[i]) then None
    else Tails(s, i + 1, n - 1, v * 0x40 + s[i] % 0x40)
  }

  predicate Accepted(v: nat, least: nat, limit: nat) {
    least <= v <= limit && !IsSurrogate(v)
  }

  function Prepend<T>(a: seq<T>, r: Option<seq<T>>): Option<seq<T>> {
    if r.None? then None else Some(a + r.value)
  }

  // The numbers a string holds from i, none beyond limit; None where it is malformed.
  function Scalars(s: seq<Byte>, i: nat, limit: nat): Option<seq<nat>>
    requires i <= |s|
    decreases |s| - i, 1
  {
    if i == |s| then Some([])
    else if TailCount(s[i]) < 0 then None
    else if TailCount(s[i]) == 0 then Prepend([s[i] as nat], Scalars(s, i + 1, limit))
    else AfterTails(s, i + 1, TailCount(s[i]), LeadBits(s[i]), Least(TailCount(s[i])), limit)
  }

  // With n tail bytes of a number still to come.
  function AfterTails(s: seq<Byte>, i: nat, n: nat, v: nat, least: nat, limit: nat): Option<seq<nat>>
    requires i <= |s| && n > 0
    decreases |s| - i, 0
  {
    var t := Tails(s, i, n, v);
    if t.None? || !Accepted(t.value.0, least, limit) then None
    else Prepend([t.value.0], Scalars(s, t.value.1, limit))
  }

  // ----- UTF-8 (RFC 3629, section 3; RFC 2279 for more than 0x10ffff) -----

  // The number of tail octets v takes.
  function TailsOf(v: nat): nat {
    if v < 0x80 then 0 else if v < 0x800 then 1 else if v < 0x1_0000 then 2 else if v < 0x20_0000 then 3
    else if v < 0x400_0000 then 4 else 5
  }

  // The high-order bits of the first octet.
  function LeadMark(n: nat): nat {
    if n == 0 then 0 else if n == 1 then 0xc0 else if n == 2 then 0xe0 else if n == 3 then 0xf0 else if n == 4 then 0xf8 else 0xfc
  }

  // The bits are filled in from the last octet: n tail octets of six bits each, and what
  // is left for the first octet.
  function TailBytes(v: nat, n: nat): (r: seq<Byte>)
    ensures |r| == n
  {
    if n == 0 then [] else TailBytes(v / 0x40, n - 1) + [0x80 + v % 0x40]
  }

  function Top(v: nat, n: nat): nat {
    if n == 0 then v else Top(v / 0x40, n - 1)
  }

  lemma TopIs(v: nat)
    ensures Top(v, 0) == v && Top(v, 1) == v / 0x40 && Top(v, 2) == v / 0x40 / 0x40 && Top(v, 3) == v / 0x40 / 0x40 / 0x40
    ensures Top(v, 4) == v / 0x40 / 0x40 / 0x40 / 0x40 && Top(v, 5) == v / 0x40 / 0x40 / 0x40 / 0x40 / 0x40
  {}

  function Encode1(v: nat): seq<Byte>
    requires v <= MAX_31
  {
    LeadFits(v);
    [LeadMark(TailsOf(v)) + Top(v, TailsOf(v))] + TailBytes(v, TailsOf(v))
  }

  // A number of that many octets leaves its top in the free bits of the first one.
  predicate TopFits(x: nat, n: nat) {
    x < if n == 0 then 0x80 else if n == 1 then 0x20 else if n == 2 then 0x10 else if n == 3 then 8 else if n == 4 then 4 else 2
  }

  lemma LeadFits(v: nat)
    requires v <= MAX_31
    ensures TopFits(Top(v, TailsOf(v)), TailsOf(v)) && LeadMark(TailsOf(v)) + Top(v, TailsOf(v)) < 0x100
    ensures Least(TailsOf(v)) <= v
  {
    TopIs(v);
    hide Top;
  }

  // And back: a number with such a top, and not too small, takes that many octets.
  lemma TailsFit(v: nat, n: nat)
    requires n <= 5 && TopFits(Top(v, n), n) && Least(n) <= v
    ensures TailsOf(v) == n && v <= MAX_31
  {
    TopIs(v);
    hide Top;
  }

  lemma LeadIs(x: nat, n: nat)
    requires n <= 5 && TopFits(x, n)
    ensures var c := LeadMark(n) + x; c < 0x100 && TailCount(c) == n && LeadBits(c) == x
  {}

  lemma LeadBack(c: Byte)
    requires TailCount(c) >= 0
    ensures TailCount(c) <= 5 && TopFits(LeadBits(c), TailCount(c)) && c == LeadMark(TailCount(c)) + LeadBits(c)
  {}

  predicate AllUpTo(us: seq<nat>, limit: nat) {
    forall u <- us :: u <= limit && !IsSurrogate(u)
  }

  function Encoded(us: seq<nat>): seq<Byte>
    requires AllUpTo(us, MAX_31)
  {
    if us == [] then []
    else
      assert us[0] in us;
      Encode1(us[0]) + Encoded(us[1..])
  }

  // ----- Exactly the encodings are accepted -----

  lemma {:induction false} TailsLast(s: seq<Byte>, i: nat, n: nat, x: nat)
    requires i <= |s| && n > 0
    ensures var r := Tails(s, i, n - 1, x);
            Tails(s, i, n, x) ==
              if r.None? || r.value.1 == |s| || !IsTail(s[r.value.1]) then None
              else Some((r.value.0 * 0x40 + s[r.value.1] % 0x40, r.value.1 + 1))
    decreases n
  {
    if n == 1 {
    } else if i < |s| && IsTail(s[i]) {
      TailsLast(s, i + 1, n - 1, x * 0x40 + s[i] % 0x40);
    }
  }

  lemma TailByte(c: Byte)
    ensures IsTail(c) <==> c == 0x80 + c % 0x40
  {}

  // Reading n tail bytes undoes writing them.
  lemma {:induction false} TailsRead(s: seq<Byte>, i: nat, n: nat, v: nat)
    requires i + n <= |s| && s[i..i + n] == TailBytes(v, n)
    ensures Tails(s, i, n, Top(v, n)) == Some((v, i + n))
    decreases n
  {
    if n > 0 {
      assert s[i..i + n][n - 1] == s[i + n - 1] == 0x80 + v % 0x40;
      assert s[i..i + n - 1] == s[i..i + n][..n - 1];
      TailsRead(s, i, n - 1, v / 0x40);
      TailsLast(s, i, n, Top(v / 0x40, n - 1));
    }
  }

  lemma {:induction false} TailsWritten(s: seq<Byte>, i: nat, n: nat, x: nat)
    requires i <= |s| && Tails(s, i, n, x).Some?
    ensures var v := Tails(s, i, n, x).value.0; i + n <= |s| && Top(v, n) == x && TailBytes(v, n) == s[i..i + n]
    decreases n
  {
    if n > 0 {
      TailsLast(s, i, n, x);
      TailsWritten(s, i, n - 1, x);
      var v, c := Tails(s, i, n, x).value.0, s[i + n - 1];
      TailByte(c);
      assert v / 0x40 == Tails(s, i, n - 1, x).value.0 && v % 0x40 == c % 0x40;
      assert s[i..i + n] == s[i..i + n - 1] + [c];
    }
  }

  // Every encoded string is accepted and read back.
  lemma {:induction false} ReadsEncoded(s: seq<Byte>, i: nat, us: seq<nat>, limit: nat)
    requires limit <= MAX_31 && AllUpTo(us, limit) && i <= |s|
    requires AllUpTo(us, MAX_31) && s[i..] == Encoded(us)
    ensures Scalars(s, i, limit) == Some(us)
    decreases |us|
  {
    if us != [] {
      var v := us[0];
      assert v in us;
      var n := TailsOf(v);
      LeadFits(v);
      LeadIs(Top(v, n), n);
      SplitFirst(s, i, LeadMark(n) + Top(v, n), TailBytes(v, n), Encoded(us[1..]));
      hide Encoded, TailsOf, LeadMark, TailCount, LeadBits, Top, TailBytes;
      ReadsEncoded(s, i + 1 + n, us[1..], limit);
      assert us == [v] + us[1..];
      if n > 0 {
        TailsRead(s, i + 1, n, v);
      } else {
        assert v == s[i] by { TopIs(v); SmallLead(v); }
      }
    }
  }

  lemma SplitFirst(s: seq<Byte>, i: nat, c: Byte, b: seq<Byte>, rest: seq<Byte>)
    requires i <= |s| && s[i..] == [c] + b + rest
    ensures i + 1 + |b| <= |s| && s[i] == c && s[i + 1..i + 1 + |b|] == b && s[i + 1 + |b|..] == rest
  {
    var t := s[i..];
    assert s[i] == t[0] && s[i + 1..i + 1 + |b|] == t[1..1 + |b|] == b && s[i + 1 + |b|..] == t[1 + |b|..] == rest;
  }

  lemma SmallLead(v: nat)
    requires TailsOf(v) == 0
    ensures LeadMark(0) + Top(v, 0) == v
  {}

  lemma FirstScalar(s: seq<Byte>, i: nat, limit: nat) returns (v: nat, next: nat)
    requires i < |s| && 0x7f <= limit <= MAX_31 && Scalars(s, i, limit).Some?
    ensures i < next <= |s| && v <= limit && !IsSurrogate(v) && Scalars(s, next, limit).Some?
    ensures Scalars(s, i, limit).value == [v] + Scalars(s, next, limit).value && s[i..next] == Encode1(v)
  {
    var n, x := TailCount(s[i]), LeadBits(s[i]);
    LeadBack(s[i]);
    next := i + 1 + n;
    if n > 0 {
      v := Tails(s, i + 1, n, x).value.0;
      assert Accepted(v, Least(n), limit);
      TailsWritten(s, i + 1, n, x);
    } else {
      v := s[i];
      assert Top(v, 0) == v == x && TailBytes(v, 0) == s[i + 1..i + 1];
    }
    TailsFit(v, n);
    assert s[i..next] == [s[i]] + s[i + 1..next];
  }

  // And nothing else is.
  lemma {:induction false} AcceptsEncoded(s: seq<Byte>, i: nat, limit: nat)
    requires i <= |s| && 0x7f <= limit <= MAX_31 && Scalars(s, i, limit).Some?
    ensures var us := Scalars(s, i, limit).value; AllUpTo(us, limit) && AllUpTo(us, MAX_31) && s[i..] == Encoded(us)
    decreases |s| - i
  {
    if i < |s| {
      var us := Scalars(s, i, limit).value;
      hide Scalars, Encode1;
      var v, next := FirstScalar(s, i, limit);
      AcceptsEncoded(s, next, limit);
      assert us[1..] == Scalars(s, next, limit).value;
      assert s[i..] == s[i..next] + s[next..];
    }
  }

  // ----- UTF-16 (RFC 2781) and little-endian bytes -----

  // Section 2.1.
  function Units1(u: nat): seq<nat> {
    if u > 0xffff then [0xd800 + (u - 0x1_0000) / 0x400, 0xdc00 + (u - 0x1_0000) % 0x400] else [u]
  }

  function Units(us: seq<nat>): seq<nat> {
    if us == [] then [] else Units(us[..|us| - 1]) + Units1(us[|us| - 1])
  }

  // Section 2.2: the characters a sequence of code units stands for.
  function FromUnits(w: seq<nat>): Option<seq<nat>> {
    if w == [] then Some([])
    else if !IsSurrogate(w[0]) then Prepend([w[0]], FromUnits(w[1..]))
    else if w[0] > 0xdbff || |w| == 1 || !(0xdc00 <= w[1] <= 0xdfff) then None
    else Prepend([0x1_0000 + w[0] % 0x400 * 0x400 + w[1] % 0x400], FromUnits(w[2..]))
  }

  function Bytes2(x: nat): seq<Byte> { [x % 0x100, x / 0x100 % 0x100] }

  function Bytes4(x: nat): seq<Byte> { [x % 0x100, x / 0x100 % 0x100, x / 0x1_0000 % 0x100, x / 0x100_0000 % 0x100] }

  function Le16(w: seq<nat>): (r: seq<Byte>)
    ensures |r| == 2 * |w|
  {
    if w == [] then [] else Le16(w[..|w| - 1]) + Bytes2(w[|w| - 1])
  }

  function Le32(w: seq<nat>): (r: seq<Byte>)
    ensures |r| == 4 * |w|
  {
    if w == [] then [] else Le32(w[..|w| - 1]) + Bytes4(w[|w| - 1])
  }

  // The surrogates are the code units of which pairs are made.
  lemma SurrogatesAreUnits(v: nat)
    ensures IsSurrogate(v) <==> exists u :: 0x1_0000 <= u <= MAX_SCALAR && v in Units1(u)
  {
    if 0xd800 <= v < 0xdc00 {
      assert v == Units1(0x1_0000 + (v - 0xd800) * 0x400)[0];
    } else if 0xdc00 <= v < 0xe000 {
      assert v == Units1(0x1_0000 + (v - 0xdc00))[1];
    }
  }

  lemma {:induction false} UnitsConcat(a: seq<nat>, b: seq<nat>)
    ensures Units(a + b) == Units(a) + Units(b)
    decreases |b|
  {
    if b == [] {
      assert a + b == a;
    } else {
      assert (a + b)[..|a + b| - 1] == a + b[..|b| - 1];
      UnitsConcat(a, b[..|b| - 1]);
    }
  }

  lemma Units1Back(u: nat, rest: seq<nat>)
    requires u <= MAX_SCALAR && !IsSurrogate(u)
    ensures FromUnits(Units1(u) + rest) == Prepend([u], FromUnits(rest))
  {}

  // The code units stand for the characters they were made from.
  lemma {:induction false} UnitsBack(us: seq<nat>)
    requires AllUpTo(us, MAX_SCALAR)
    ensures FromUnits(Units(us)) == Some(us)
  {
    if us != [] {
      assert us[0] in us && us == [us[0]] + us[1..];
      UnitsConcat([us[0]], us[1..]);
      assert Units([us[0]]) == Units([]) + Units1(us[0]) == Units1(us[0]);
      UnitsBack(us[1..]);
      Units1Back(us[0], Units(us[1..]));
    }
  }

  // ----- The converters -----

  // The number so far fits a uint32_t with room for the tail bytes to come.
  predicate Narrow(v: nat, due: nat) {
    v < if due == 0 then 0x8000_0000 else if due == 1 then 0x200_0000 else if due == 2 then 0x8_0000
        else if due == 3 then 0x2000 else if due == 4 then 0x80 else 2
  }

  // What is left to read.
  function Remaining(s: seq<Byte>, i: nat, due: nat, v: nat, vmin: nat, limit: nat): Option<seq<nat>>
    requires i <= |s|
  {
    if due == 0 then Scalars(s, i, limit) else AfterTails(s, i, due, v, vmin, limit)
  }

  // One byte of the input.
  lemma TailStep(s: seq<Byte>, i: nat, due: nat, v: nat, vmin: nat, limit: nat)
    requires i < |s| && due > 0 && Narrow(v, due) && due <= 5
    ensures !IsTail(s[i]) ==> Remaining(s, i, due, v, vmin, limit) == None
    ensures var u := v * 0x40 + s[i] % 0x40;
            IsTail(s[i]) ==> Narrow(u, due - 1)
    ensures var u := v * 0x40 + s[i] % 0x40;
            IsTail(s[i]) ==>
              Remaining(s, i, due, v, vmin, limit) ==
              (if due > 1 then Remaining(s, i + 1, due - 1, u, vmin, limit)
               else if Accepted(u, vmin, limit) then Prepend([u], Scalars(s, i + 1, limit)) else None)
  {}

  lemma LeadStep(s: seq<Byte>, i: nat, limit: nat)
    requires i < |s|
    ensures var n := TailCount(s[i]);
            Scalars(s, i, limit) ==
              (if n < 0 then None else if n == 0 then Prepend([s[i] as nat], Scalars(s, i + 1, limit))
               else Remaining(s, i + 1, n, LeadBits(s[i]), Least(n), limit))
    ensures TailCount(s[i]) <= 5 && (TailCount(s[i]) > 0 ==> Narrow(LeadBits(s[i]), TailCount(s[i])))
  {}

  lemma PrependTwice<T>(a: seq<T>, b: seq<T>, r: Option<seq<T>>)
    ensures Prepend(a, Prepend(b, r)) == Prepend(a + b, r)
  {
    if r.Some? { assert a + (b + r.value) == a + b + r.value; }
  }

  lemma NothingPrepended<T>(r: Option<seq<T>>)
    ensures Prepend([], r) == r && (r.Some? ==> Prepend(r.value, Some([])) == r)
  {
    if r.Some? { assert [] + r.value == r.value && r.value + [] == r.value; }
  }

  // WRITESHORT and WRITELONG, where there is an output.
  method Emit16(op: array?<Byte>, outlen: nat, x: nat, ghost units: seq<nat>) returns (n: nat)
    requires outlen == |units| && (op != null ==> 2 * outlen + 2 <= op.Length && op[..2 * outlen] == Le16(units))
    modifies op
    ensures n == outlen + 1 && (op != null ==> op[..2 * n] == Le16(units + [x]) && op[2 * n..] == old(op[2 * n..]))
  {
    assert (units + [x])[..|units|] == units;
    if op != null {
      op[2 * outlen] := x % 0x100;
      op[2 * outlen + 1] := x / 0x100 % 0x100;
      assert op[..2 * outlen + 2] == op[..2 * outlen] + Bytes2(x);
    }
    n := outlen + 1;
  }

  method Emit32(op: array?<Byte>, outlen: nat, x: nat, ghost units: seq<nat>) returns (n: nat)
    requires outlen == |units| && (op != null ==> 4 * outlen + 4 <= op.Length && op[..4 * outlen] == Le32(units))
    modifies op
    ensures n == outlen + 1 && (op != null ==> op[..4 * n] == Le32(units + [x]) && op[4 * n..] == old(op[4 * n..]))
  {
    assert (units + [x])[..|units|] == units;
    if op != null {
      op[4 * outlen] := x % 0x100;
      op[4 * outlen + 1] := x / 0x100 % 0x100;
      op[4 * outlen + 2] := x / 0x1_0000 % 0x100;
      op[4 * outlen + 3] := x / 0x100_0000 % 0x100;
      assert op[..4 * outlen + 4] == op[..4 * outlen] + Bytes4(x);
    }
    n := outlen + 1;
  }

  // The output a string asks for; nothing for a malformed one.
  function Output16(s: seq<Byte>): Option<seq<Byte>> {
    var us := Scalars(s, 0, MAX_SCALAR);
    if us.None? then None else Some(Le16(Units(us.value)))
  }

  function Output32(s: seq<Byte>): Option<seq<Byte>> {
    var us := Scalars(s, 0, MAX_31);
    if us.None? then None else Some(Le32(us.value))
  }

  // done has been emitted and the rest is still to be read.
  ghost predicate Progress(s: seq<Byte>, i: nat, due: nat, v: nat, vmin: nat, limit: nat, done: seq<nat>) {
    i <= |s| && due <= 5 && Narrow(v, due) && Scalars(s, 0, limit) == Prepend(done, Remaining(s, i, due, v, vmin, limit))
  }

  ghost predicate Failed(s: seq<Byte>, limit: nat) { Scalars(s, 0, limit).None? }

  lemma Fails16(s: seq<Byte>, op: array?<Byte>)
    ensures Failed(s, MAX_SCALAR) ==> Output16(s).None? && (RoomFor(op, Output16(s)) ==> op == null)
    ensures Scalars(s, 0, MAX_SCALAR).Some? ==> Output16(s) == Some(Le16(Units(Scalars(s, 0, MAX_SCALAR).value)))
    ensures Scalars(s, 0, MAX_SCALAR).None? ==> Failed(s, MAX_SCALAR)
  {}

  lemma Fails32(s: seq<Byte>, op: array?<Byte>)
    ensures Failed(s, MAX_31) ==> Output32(s).None? && (RoomFor(op, Output32(s)) ==> op == null)
    ensures Scalars(s, 0, MAX_31).Some? ==> Output32(s) == Some(Le32(Scalars(s, 0, MAX_31).value))
    ensures Scalars(s, 0, MAX_31).None? ==> Failed(s, MAX_31)
  {}

  lemma Limits()
    ensures MAX_SCALAR == 0x10_ffff && MAX_31 == 0x7fff_ffff
  {}

  lemma IsAccepted(u: nat, least: nat, limit: nat)
    ensures Accepted(u, least, limit) <==> least <= u <= limit && !IsSurrogate(u)
  {}

  lemma FewTails(c: Byte)
    ensures TailCount(c) <= 5
  {}

  // One tail byte more completes a number of at most 31 bits.
  lemma ProgressFits(s: seq<Byte>, i: nat, due: nat, v: nat, vmin: nat, limit: nat, done: seq<nat>)
    requires Progress(s, i, due, v, vmin, limit, done) && i < |s|
    ensures due == 1 ==> v * 0x40 + s[i] % 0x40 <= MAX_31
  {}

  lemma ProgressTail(s: seq<Byte>, i: nat, due: nat, v: nat, vmin: nat, limit: nat, done: seq<nat>)
    requires Progress(s, i, due, v, vmin, limit, done) && i < |s| && due > 0
    ensures !IsTail(s[i]) ==> Failed(s, limit)
    ensures IsTail(s[i]) && due > 1 ==> Progress(s, i + 1, due - 1, v * 0x40 + s[i] % 0x40, vmin, limit, done)
    ensures IsTail(s[i]) && due == 1 ==>
      var u := v * 0x40 + s[i] % 0x40;
      if Accepted(u, vmin, limit) then Progress(s, i + 1, 0, u, vmin, limit, done + [u]) else Failed(s, limit)
  {
    TailStep(s, i, due, v, vmin, limit);
    var u := v * 0x40 + s[i] % 0x40;
    PrependTwice(done, [u], Scalars(s, i + 1, limit));
    hide Scalars, AfterTails, IsTail, Accepted;
  }

  lemma ProgressLead(s: seq<Byte>, i: nat, v: nat, vmin: nat, limit: nat, done: seq<nat>)
    requires Progress(s, i, 0, v, vmin, limit, done) && i < |s|
    ensures TailCount(s[i]) < 0 ==> Failed(s, limit)
    ensures TailCount(s[i]) == 0 ==> Progress(s, i + 1, 0, v, vmin, limit, done + [s[i] as nat])
    ensures TailCount(s[i]) > 0 ==> Progress(s, i + 1, TailCount(s[i]), LeadBits(s[i]), Least(TailCount(s[i])), limit, done)
  {
    LeadStep(s, i, limit);
    PrependTwice(done, [s[i] as nat], Scalars(s, i + 1, limit));
    hide Scalars, AfterTails, TailCount, LeadBits, Least;
  }

  lemma ProgressEnds(s: seq<Byte>, due: nat, v: nat, vmin: nat, limit: nat, done: seq<nat>)
    requires Progress(s, |s|, due, v, vmin, limit, done)
    ensures Scalars(s, 0, limit) == if due == 0 then Some(done) else None
  {
    NothingPrepended(Some(done));
  }

  // Room for what is still to be emitted.
  lemma ProgressRoom(s: seq<Byte>, i: nat, due: nat, v: nat, vmin: nat, limit: nat, done: seq<nat>)
    requires Progress(s, i, due, v, vmin, limit, done) && Scalars(s, 0, limit).Some?
    ensures var us := Scalars(s, 0, limit).value; |done| <= |us| && |Units(done)| <= |Units(us)|
  {
    var r := Remaining(s, i, due, v, vmin, limit).value;
    UnitsConcat(done, r);
  }

  // An output buffer is given only for a string that has been measured.
  ghost predicate RoomFor(op: array?<Byte>, out: Option<seq<Byte>>) {
    op != null ==> out.Some? && |out.value| <= op.Length
  }

  // The output starts with out and is otherwise as before.
  ghost predicate Written(now: seq<Byte>, out: seq<Byte>, before: seq<Byte>) {
    |out| <= |now| == |before| && now[..|out|] == out && now[|out|..] == before[|out|..]
  }

  ghost predicate Holds16(op: array?<Byte>, outlen: nat, done: seq<nat>, before: seq<Byte>)
    reads op
  {
    outlen == |Units(done)| && (op != null ==> 2 * outlen <= op.Length && Written(op[..], Le16(Units(done)), before))
  }

  // EMIT of a character: one code unit, or two.
  method EmitScalar(op: array?<Byte>, outlen: nat, v: nat, ghost done: seq<nat>, ghost before: seq<Byte>) returns (n: nat)
    requires Holds16(op, outlen, done, before) && (op != null ==> 2 * |Units(done + [v])| <= op.Length)
    modifies op
    ensures Holds16(op, n, done + [v], before)
  {
    assert Units(done + [v]) == Units(done) + Units1(v) by { assert (done + [v])[..|done|] == done; }
    if v > 0xffff {
      ghost var units := Units(done);
      n := Emit16(op, outlen, 0xd800 + (v - 0x1_0000) / 0x400, units);
      n := Emit16(op, n, 0xdc00 + (v - 0x1_0000) % 0x400, units + [0xd800 + (v - 0x1_0000) / 0x400]);
      assert units + Units1(v) == units + [0xd800 + (v - 0x1_0000) / 0x400] + [0xdc00 + (v - 0x1_0000) % 0x400];
    } else {
      n := Emit16(op, outlen, v, Units(done));
    }
  }

  // The same for the next character of a string there is room for.
  method PutScalar(op: array?<Byte>, outlen: nat, u: nat, ghost s: seq<Byte>, ghost i: nat, ghost v: nat, ghost vmin: nat,
                   ghost done: seq<nat>, ghost before: seq<Byte>) returns (n: nat)
    requires Holds16(op, outlen, done, before) && RoomFor(op, Output16(s)) && Progress(s, i, 0, v, vmin, MAX_SCALAR, done + [u])
    modifies op
    ensures Holds16(op, n, done + [u], before)
  {
    hide *;
    RoomStays(s, i, 0, v, vmin, done + [u], op);
    n := EmitScalar(op, outlen, u, done, before);
  }

  // utf8_to_16le: the number of bytes, and with op the bytes.
  method Utf8To16le(str: seq<Byte>, op: array?<Byte>) returns (length: Option<nat>)
    requires RoomFor(op, Output16(str))
    modifies op
    ensures length == if Output16(str).None? then None else Some(|Output16(str).value|)
    ensures op != null ==> op[..length.value] == Output16(str).value && op[length.value..] == old(op[length.value..])
  {
    hide *;
    Limits();
    var outlen: nat, due: nat, v: nat, vmin: nat := 0, 0, 0, 0;
    ghost var done: seq<nat> := [];
    ghost var before := if op == null then [] else op[..];
    StartsEmpty(op);
    StartsProgress(str, MAX_SCALAR);
    Fails16(str, op);
    for i := 0 to |str|
      invariant Progress(str, i, due, v, vmin, MAX_SCALAR, done) && Holds16(op, outlen, done, before) && due <= 5
    {
      var c := str[i];
      if due > 0 {
        ProgressTail(str, i, due, v, vmin, MAX_SCALAR, done);
        IsAccepted(v * 0x40 + c % 0x40, vmin, MAX_SCALAR);
        if !IsTail(c) { return None; }
        v := v * 0x40 + c % 0x40;
        due := due - 1;
        if due == 0 {
          if v < vmin || v > MAX_SCALAR || IsSurrogate(v) { return None; }
          outlen := PutScalar(op, outlen, v, str, i + 1, v, vmin, done, before);
          done := done + [v];
        }
      } else {
        ProgressLead(str, i, v, vmin, MAX_SCALAR, done);
        FewTails(c);
        var n := TailCount(c);
        if n == 0 {
          outlen := PutScalar(op, outlen, c, str, i + 1, v, vmin, done, before);
          done := done + [c as nat];
        } else if n < 0 {
          return None;
        } else {
          due, v, vmin := n, LeadBits(c), Least(n);
        }
      }
    }
    ProgressEnds(str, due, v, vmin, MAX_SCALAR, done);
    length := if due > 0 then None else Some(2 * outlen);
    Holds16Ends(op, outlen, done, before);
  }

  lemma StartsEmpty(op: array?<Byte>)
    ensures op != null ==> Holds16(op, 0, [], op[..])
    ensures op == null ==> Holds16(op, 0, [], [])
  {}

  lemma StartsProgress(s: seq<Byte>, limit: nat)
    ensures Progress(s, 0, 0, 0, 0, limit, [])
  {
    NothingPrepended(Scalars(s, 0, limit));
  }

  lemma RoomStays(s: seq<Byte>, i: nat, due: nat, v: nat, vmin: nat, done: seq<nat>, op: array?<Byte>)
    requires RoomFor(op, Output16(s)) && Progress(s, i, due, v, vmin, MAX_SCALAR, done)
    ensures op != null ==> 2 * |Units(done)| <= op.Length
  {
    if op != null {
      ProgressRoom(s, i, due, v, vmin, MAX_SCALAR, done);
    }
  }

  lemma Holds16Ends(op: array?<Byte>, outlen: nat, done: seq<nat>, before: seq<Byte>)
    requires Holds16(op, outlen, done, before)
    ensures 2 * outlen == |Le16(Units(done))| && (op != null ==> 2 * outlen <= op.Length && op[..2 * outlen] == Le16(Units(done)))
    ensures op != null ==> |before| == op.Length && op[2 * outlen..] == before[2 * outlen..]
  {}

  ghost predicate Holds32(op: array?<Byte>, outlen: nat, done: seq<nat>, before: seq<Byte>)
    reads op
  {
    outlen == |done| && (op != null ==> 4 * outlen <= op.Length && Written(op[..], Le32(done), before))
  }

  method PutScalar32(op: array?<Byte>, outlen: nat, u: nat, ghost s: seq<Byte>, ghost i: nat, ghost v: nat, ghost vmin: nat,
                     ghost done: seq<nat>, ghost before: seq<Byte>) returns (n: nat)
    requires Holds32(op, outlen, done, before) && RoomFor(op, Output32(s)) && Progress(s, i, 0, v, vmin, MAX_31, done + [u])
    modifies op
    ensures Holds32(op, n, done + [u], before)
  {
    hide *;
    RoomStays32(s, i, 0, v, vmin, done + [u], op);
    n := EmitScalar32(op, outlen, u, done, before);
  }

  // utf8_to_32le. It has no upper limit of its own: 31 bits is what six bytes hold.
  method Utf8To32le(str: seq<Byte>, op: array?<Byte>) returns (length: Option<nat>)
    requires RoomFor(op, Output32(str))
    modifies op
    ensures length == if Output32(str).None? then None else Some(|Output32(str).value|)
    ensures op != null ==> op[..length.value] == Output32(str).value && op[length.value..] == old(op[length.value..])
  {
    hide *;
    Limits();
    var outlen: nat, due: nat, v: nat, vmin: nat := 0, 0, 0, 0;
    ghost var done: seq<nat> := [];
    ghost var before := if op == null then [] else op[..];
    StartsEmpty32(op);
    StartsProgress(str, MAX_31);
    Fails32(str, op);
    for i := 0 to |str|
      invariant Progress(str, i, due, v, vmin, MAX_31, done) && Holds32(op, outlen, done, before) && due <= 5
    {
      var c := str[i];
      if due > 0 {
        ProgressTail(str, i, due, v, vmin, MAX_31, done);
        ProgressFits(str, i, due, v, vmin, MAX_31, done);
        IsAccepted(v * 0x40 + c % 0x40, vmin, MAX_31);
        if !IsTail(c) { return None; }
        v := v * 0x40 + c % 0x40;
        due := due - 1;
        if due == 0 {
          if v < vmin || IsSurrogate(v) { return None; }
          outlen := PutScalar32(op, outlen, v, str, i + 1, v, vmin, done, before);
          done := done + [v];
        }
      } else {
        ProgressLead(str, i, v, vmin, MAX_31, done);
        FewTails(c);
        var n := TailCount(c);
        if n == 0 {
          outlen := PutScalar32(op, outlen, c, str, i + 1, v, vmin, done, before);
          done := done + [c as nat];
        } else if n < 0 {
          return None;
        } else {
          due, v, vmin := n, LeadBits(c), Least(n);
        }
      }
    }
    ProgressEnds(str, due, v, vmin, MAX_31, done);
    length := if due > 0 then None else Some(4 * outlen);
    Holds32Ends(op, outlen, done, before);
  }

  method EmitScalar32(op: array?<Byte>, outlen: nat, v: nat, ghost done: seq<nat>, ghost before: seq<Byte>) returns (n: nat)
    requires Holds32(op, outlen, done, before) && (op != null ==> 4 * |done + [v]| <= op.Length)
    modifies op
    ensures Holds32(op, n, done + [v], before)
  {
    n := Emit32(op, outlen, v, done);
  }

  lemma StartsEmpty32(op: array?<Byte>)
    ensures op != null ==> Holds32(op, 0, [], op[..])
    ensures op == null ==> Holds32(op, 0, [], [])
  {}

  lemma RoomStays32(s: seq<Byte>, i: nat, due: nat, v: nat, vmin: nat, done: seq<nat>, op: array?<Byte>)
    requires RoomFor(op, Output32(s)) && Progress(s, i, due, v, vmin, MAX_31, done)
    ensures op != null ==> 4 * |done| <= op.Length
  {}

  lemma Holds32Ends(op: array?<Byte>, outlen: nat, done: seq<nat>, before: seq<Byte>)
    requires Holds32(op, outlen, done, before)
    ensures 4 * outlen == |Le32(done)| && (op != null ==> 4 * outlen <= op.Length && op[..4 * outlen] == Le32(done))
    ensures op != null ==> |before| == op.Length && op[4 * outlen..] == before[4 * outlen..]
  {}

  // string_transform: measured, then written, with a zero behind.
  method StringTransform(str: seq<Byte>, wide: bool) returns (length: Option<nat>, buf: array?<Byte>)
    ensures var out := if wide then Output32(str) else Output16(str);
            if out.None? then length.None? && buf == null
            else length == Some(|out.value|) && buf != null && fresh(buf) && buf[..] == out.value + [0]
  {
    buf := null;
    if wide {
      length := Utf8To32le(str, null);
    } else {
      length := Utf8To16le(str, null);
    }
    if length.None? { return; }
    buf := new Byte[length.value + 1](i => 0);
    if wide {
      length := Utf8To32le(str, buf);
    } else {
      length := Utf8To16le(str, buf);
    }
  }

  // ----- What the two make of a string -----

  // Accepted are exactly the encodings of characters up to the limit, each as what it encodes.
  lemma AcceptsExactly(s: seq<Byte>, us: seq<nat>, limit: nat)
    requires 0x7f <= limit <= MAX_31
    ensures Scalars(s, 0, limit) == Some(us) <==> AllUpTo(us, limit) && AllUpTo(us, MAX_31) && s == Encoded(us)
  {
    assert s[0..] == s;
    if Scalars(s, 0, limit).Some? {
      AcceptsEncoded(s, 0, limit);
    }
    if AllUpTo(us, limit) && AllUpTo(us, MAX_31) && s == Encoded(us) {
      ReadsEncoded(s, 0, us, limit);
    }
    hide Scalars, Encoded;
  }

  // utf8_to_16le accepts what utf8_to_32le accepts if all characters are Unicode's, and
  // then both read the same characters.
  lemma ConvertersAgree(s: seq<Byte>)
    ensures var wide := Scalars(s, 0, MAX_31);
            Scalars(s, 0, MAX_SCALAR) == if wide.Some? && AllUpTo(wide.value, MAX_SCALAR) then wide else None
  {
    var r, wide := Scalars(s, 0, MAX_SCALAR), Scalars(s, 0, MAX_31);
    hide Scalars, Encoded;
    if r.Some? {
      AcceptsExactly(s, r.value, MAX_SCALAR);
      AcceptsExactly(s, r.value, MAX_31);
    }
    if wide.Some? {
      AcceptsExactly(s, wide.value, MAX_31);
      AcceptsExactly(s, wide.value, MAX_SCALAR);
    }
  }

  // The 32-bit converter lacks the upper limit.
  lemma WideAcceptsMore()
    ensures Scalars([0xf4, 0x90, 0x80, 0x80], 0, MAX_31) == Some([0x11_0000])
    ensures Scalars([0xf4, 0x90, 0x80, 0x80], 0, MAX_SCALAR) == None
  {
    var s: seq<Byte> := [0xf4, 0x90, 0x80, 0x80];
    assert Tails(s, 1, 3, 4) == Tails(s, 2, 2, 0x110) == Tails(s, 3, 1, 0x4400) == Tails(s, 4, 0, 0x11_0000);
    assert Scalars(s, 4, MAX_31) == Some([]);
    assert Accepted(0x11_0000, 0x1_0000, MAX_31);
    assert AfterTails(s, 1, 3, 4, 0x1_0000, MAX_31) == Prepend([0x11_0000], Scalars(s, 4, MAX_31));
    assert Scalars(s, 0, MAX_31) == AfterTails(s, 1, 3, 4, 0x1_0000, MAX_31) by { assert TailCount(0xf4) == 3 && LeadBits(0xf4) == 4; }
    assert [0x11_0000 as nat] + [] == [0x11_0000];
  }

  // Reading little-endian bytes.
  function Value2(b: seq<Byte>): nat
    requires |b| == 2
  {
    var lo: nat, hi: nat := b[0], b[1];
    lo + 0x100 * hi
  }

  function Value4(b: seq<Byte>): nat
    requires |b| == 4
  {
    var b0: nat, b1: nat, b2: nat, b3: nat := b[0], b[1], b[2], b[3];
    b0 + 0x100 * b1 + 0x1_0000 * b2 + 0x100_0000 * b3
  }

  lemma Value2Back(x: nat)
    requires x < 0x1_0000
    ensures Value2(Bytes2(x)) == x
  {}

  lemma Value4Back(x: nat)
    requires x <= MAX_31
    ensures Value4(Bytes4(x)) == x
  {
    Quarters(x);
    var a, b, c := x / 0x100, x / 0x100 / 0x100, x / 0x100 / 0x100 / 0x100;
    assert x == 0x100 * a + x % 0x100 && a == 0x100 * b + a % 0x100 && b == 0x100 * c + b % 0x100 && c % 0x100 == c;
    FromQuarters(x, a, b, c);
  }

  lemma Quarters(x: nat)
    ensures x / 0x1_0000 == x / 0x100 / 0x100 && x / 0x100_0000 == x / 0x100 / 0x100 / 0x100
  {}

  lemma FromQuarters(x: nat, a: nat, b: nat, c: nat)
    requires x == 0x100 * a + x % 0x100 && a == 0x100 * b + a % 0x100 && b == 0x100 * c + b % 0x100
    ensures x % 0x100 + 0x100 * (a % 0x100) + 0x1_0000 * (b % 0x100) + 0x100_0000 * c == x
  {}

  function Read16(b: seq<Byte>): seq<nat> {
    if |b| < 2 then [] else Read16(b[..|b| - 2]) + [Value2(b[|b| - 2..])]
  }

  function Read32(b: seq<Byte>): seq<nat> {
    if |b| < 4 then []
    else Read32(b[..|b| - 4]) + [Value4(b[|b| - 4..])]
  }

  lemma {:induction false} Read16Back(w: seq<nat>)
    requires forall x <- w :: x < 0x1_0000
    ensures Read16(Le16(w)) == w
  {
    if w != [] {
      var front, x := w[..|w| - 1], w[|w| - 1];
      assert w == front + [x] && x in w && forall y <- front :: y in w;
      hide Value2, Bytes2;
      Read16Back(front);
      var b := Le16(w);
      assert b[..|b| - 2] == Le16(front) && b[|b| - 2..] == Bytes2(x);
      Value2Back(x);
    }
  }

  lemma {:induction false} Read32Back(w: seq<nat>)
    requires forall x <- w :: x <= MAX_31
    ensures Read32(Le32(w)) == w
  {
    if w != [] {
      var front, x := w[..|w| - 1], w[|w| - 1];
      assert w == front + [x] && x in w && forall y <- front :: y in w;
      hide Value4, Bytes4;
      Read32Back(front);
      var b := Le32(w);
      assert b[..|b| - 4] == Le32(front) && b[|b| - 4..] == Bytes4(x);
      Value4Back(x);
    }
  }

  lemma {:induction false} UnitsNarrow(us: seq<nat>)
    requires AllUpTo(us, MAX_SCALAR)
    ensures forall x <- Units(us) :: x < 0x1_0000
  {
    if us != [] {
      UnitsNarrow(us[..|us| - 1]);
      assert us[|us| - 1] in us;
    }
  }

  // For a string both accept, the two outputs hold the same characters.
  lemma OutputsAgree(s: seq<Byte>)
    requires Output16(s).Some?
    ensures Output32(s).Some? && FromUnits(Read16(Output16(s).value)) == Some(Read32(Output32(s).value))
  {
    ConvertersAgree(s);
    var us := Scalars(s, 0, MAX_SCALAR).value;
    AcceptsExactly(s, us, MAX_SCALAR);
    UnitsNarrow(us);
    Read16Back(Units(us));
    UnitsBack(us);
    Read32Back(us);
  }
}
