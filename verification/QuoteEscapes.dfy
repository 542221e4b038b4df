// sdk/as/quote.c: what the escapes of a backquoted string stand for, as they are written.
module QuoteEscapes {
  import opened Base
  import opened Quote
  import Powers
  import StrFunc

  // ----- Figures -----

  const LOWER := "0123456789abcdef"
  const UPPER := "0123456789ABCDEF"

  // c is the figure v, in either case.
  predicate IsFigure(c: Byte, v: nat, octal: bool) {
    v < (if octal then 8 else 16) && (c == LOWER[v] as int || c == UPPER[v] as int)
  }

  // The figures d written behind those of the number before make the number v.
  predicate Continues(d: seq<Byte>, before: nat, v: nat, octal: bool) {
    var radix := if octal then 8 else 16;
    if d == [] then v == before
    else IsFigure(d[|d| - 1], v % radix, octal) && Continues(d[..|d| - 1], before, v / radix, octal)
  }

  lemma FigureValue(c: Byte, v: nat, octal: bool)
    requires IsFigure(c, v, octal)
    ensures if octal then IsOctal(c) && c - 0x30 == v else IsHex(c) && NumValue(c) == v
  {
    assert forall k :: 0 <= k < 10 ==> LOWER[k] as int == UPPER[k] as int == 0x30 + k;
    assert forall k :: 10 <= k < 16 ==> LOWER[k] as int == 0x57 + k && UPPER[k] as int == 0x37 + k;
  }

  // Reading the figures d leaves their number.
  lemma {:induction false} DigitsRead(s: seq<Byte>, i: nat, d: seq<Byte>, n: nat, before: nat, v: nat, octal: bool)
    requires Ends(s, i) && StandsAt(s, i, d) && |d| <= n && Continues(d, before, v, octal)
    ensures Ends(s, i + |d|) && Digits(s, i, n, before, octal) == Digits(s, i + |d|, n - |d|, v, octal)
    decreases |d|
  {
    hide *;
    var radix := if octal then 8 else 16;
    LastFigure(d, before, v, octal);
    if d != [] {
      var k := |d| - 1;
      StandsFront(s, i, d);
      DigitsRead(s, i, d[..k], n, before, v / radix, octal);
      StandsByte(s, i, d, k);
      FigureValue(d[k], v % radix, octal);
      DigitTaken(s, i + k, n - k, v / radix, v % radix, octal);
      assert v == v / radix * radix + v % radix;
    }
  }

  lemma LastFigure(d: seq<Byte>, before: nat, v: nat, octal: bool)
    requires Continues(d, before, v, octal)
    ensures var radix := if octal then 8 else 16;
            if d == [] then v == before
            else IsFigure(d[|d| - 1], v % radix, octal) && Continues(d[..|d| - 1], before, v / radix, octal)
  {
    hide IsFigure;
  }

  lemma StandsFront(s: seq<Byte>, i: nat, d: seq<Byte>)
    requires d != [] && StandsAt(s, i, d)
    ensures StandsAt(s, i, d[..|d| - 1])
  {
    assert s[i..i + (|d| - 1)] == s[i..i + |d|][..|d| - 1];
  }

  lemma DigitTaken(s: seq<Byte>, i: nat, n: nat, before: nat, x: nat, octal: bool)
    requires Ends(s, i) && Ends(s, i + 1) && n > 0
    requires if octal then IsOctal(s[i]) && s[i] - 0x30 == x else IsHex(s[i]) && NumValue(s[i]) == x
    ensures Digits(s, i, n, before, octal) == Digits(s, i + 1, n - 1, before * (if octal then 8 else 16) + x, octal)
  {
    hide NumValue;
  }

  lemma DigitsStop(s: seq<Byte>, i: nat, n: nat, v: nat, octal: bool)
    requires Ends(s, i) && (n == 0 || !(if octal then IsOctal(s[i]) else IsHex(s[i])))
    ensures Digits(s, i, n, v, octal) == (i, v)
  {}

  // ----- UTF-8 -----

  // The number that a sequence of up to six octets stands for (RFC 2279, section 2): the free
  // bits of the first octet, then six bits from each of the others.
  function Utf8Value(b: seq<Byte>): Option<nat> {
    if |b| == 1 && b[0] < 0x80 then Some(b[0])
    else if 2 <= |b| <= 6 && (forall i :: 1 <= i < |b| ==> 0x80 <= b[i] < 0xc0) && FirstOf(|b|) <= b[0] < FirstOf(|b| + 1) then
      Some(SixBits(b[1..], b[0] - FirstOf(|b|)))
    else None
  }

  // The first octet of n has n leading ones.
  function FirstOf(n: nat): nat {
    match n
    case 2 => 0xc0
    case 3 => 0xe0
    case 4 => 0xf0
    case 5 => 0xf8
    case 6 => 0xfc
    case _ => 0xfe
  }

  function SixBits(b: seq<Byte>, before: nat): nat {
    if b == [] then before else SixBits(b[1..], before * 0x40 + b[0] % 0x40)
  }

  // The largest number that n octets hold.
  function Most(n: nat): nat {
    match n
    case 0 => 0
    case 1 => 0x7f
    case 2 => 0x7ff
    case 3 => 0xffff
    case 4 => 0x1f_ffff
    case 5 => 0x3ff_ffff
    case _ => 0x7fff_ffff
  }

  lemma {:induction false} SixAppend(b: seq<Byte>, c: Byte, before: nat)
    ensures SixBits(b + [c], before) == SixBits(b, before) * 0x40 + c % 0x40
    decreases |b|
  {
    if b == [] {
      assert [] + [c] == [c] && [c][1..] == [];
    } else {
      assert (b + [c])[1..] == b[1..] + [c];
      SixAppend(b[1..], c, before * 0x40 + b[0] % 0x40);
    }
  }

  lemma {:induction false} TailsValue(v: nat, n: nat)
    ensures SixBits(StrFunc.TailBytes(v, n), StrFunc.Top(v, n)) == v
    ensures forall c <- StrFunc.TailBytes(v, n) :: 0x80 <= c < 0xc0
    decreases n
  {
    if n > 0 {
      TailsValue(v / 0x40, n - 1);
      SixAppend(StrFunc.TailBytes(v / 0x40, n - 1), 0x80 + v % 0x40, StrFunc.Top(v, n));
    }
  }

  lemma Nested(v: nat)
    ensures v / 0x40 / 0x40 == v / 0x1000 && v / 0x1000 / 0x40 == v / 0x4_0000
    ensures v / 0x4_0000 / 0x40 == v / 0x100_0000 && v / 0x100_0000 / 0x40 == v / 0x4000_0000
  {}

  // What emit_utf8 writes: the octets of the encoding.
  lemma Utf8Octets(v: nat)
    requires v <= 0x7fff_ffff
    ensures var n := StrFunc.TailsOf(v);
            |Utf8(v)| == n + 1 && Utf8(v)[1..] == StrFunc.TailBytes(v, n) &&
            Utf8(v)[0] == (if n == 0 then v else FirstOf(n + 1) + StrFunc.Top(v, n))
  {
    Nested(v);
    StrFunc.TopIs(v);
    hide StrFunc.Top;
    TailsUnfolded(v);
    hide StrFunc.TailBytes;
  }

  lemma TailsUnfolded(v: nat)
    ensures StrFunc.TailBytes(v, 0) == [] && StrFunc.TailBytes(v, 1) == [Cont(v, 1)]
    ensures StrFunc.TailBytes(v, 2) == [Cont(v, 0x40), Cont(v, 1)]
    ensures StrFunc.TailBytes(v, 3) == [Cont(v, 0x1000), Cont(v, 0x40), Cont(v, 1)]
    ensures StrFunc.TailBytes(v, 4) == [Cont(v, 0x4_0000), Cont(v, 0x1000), Cont(v, 0x40), Cont(v, 1)]
    ensures StrFunc.TailBytes(v, 5) == [Cont(v, 0x100_0000), Cont(v, 0x4_0000), Cont(v, 0x1000), Cont(v, 0x40), Cont(v, 1)]
  {
    hide *;
    TailsOne(v, 0);
    FourTails(v);
    ThreeTails(v / 0x40);
    FourTails(v / 0x40);
    ContShift(v);
    TailsOne(v, 4);
  }

  lemma TwoTails(v: nat)
    ensures StrFunc.TailBytes(v, 2) == [Cont(v, 0x40), Cont(v, 1)]
    ensures StrFunc.TailBytes(v, 1) == [Cont(v, 1)]
  {
    hide *;
    TailsOne(v, 0);
    TailsOne(v / 0x40, 0);
    ContShift(v);
    TailsOne(v, 1);
  }

  lemma ThreeTails(v: nat)
    ensures StrFunc.TailBytes(v, 3) == [Cont(v, 0x1000), Cont(v, 0x40), Cont(v, 1)]
  {
    hide *;
    TwoTails(v / 0x40);
    ContShift(v);
    TailsOne(v, 2);
  }

  lemma FourTails(v: nat)
    ensures StrFunc.TailBytes(v, 4) == [Cont(v, 0x4_0000), Cont(v, 0x1000), Cont(v, 0x40), Cont(v, 1)]
    ensures StrFunc.TailBytes(v, 3) == [Cont(v, 0x1000), Cont(v, 0x40), Cont(v, 1)]
    ensures StrFunc.TailBytes(v, 2) == [Cont(v, 0x40), Cont(v, 1)] && StrFunc.TailBytes(v, 1) == [Cont(v, 1)]
  {
    hide *;
    TwoTails(v);
    ThreeTails(v);
    ThreeTails(v / 0x40);
    ContShift(v);
    TailsOne(v, 3);
  }

  lemma ContShift(v: nat)
    ensures Cont(v / 0x40, 1) == Cont(v, 0x40) && Cont(v / 0x40, 0x40) == Cont(v, 0x1000)
    ensures Cont(v / 0x40, 0x1000) == Cont(v, 0x4_0000) && Cont(v / 0x40, 0x4_0000) == Cont(v, 0x100_0000)
    ensures Cont(v, 1) == 0x80 + v % 0x40
  {
    hide *;
    ContOne(v);
    ContOne(v / 0x40);
    ContTwice(v, 0x40);
    ContTwice(v, 0x1000);
    ContTwice(v, 0x4_0000);
    ContTwice(v, 1);
  }

  lemma ContOne(v: nat)
    ensures Cont(v, 1) == 0x80 + v % 0x40
  {}

  lemma ContTwice(v: nat, unit: nat)
    requires unit > 0
    ensures Cont(v / 0x40, unit) == Cont(v, 0x40 * unit)
  {
    Powers.DivDiv(v, 0x40, unit);
  }

  lemma TailsOne(v: nat, n: nat)
    ensures StrFunc.TailBytes(v, n + 1) == StrFunc.TailBytes(v / 0x40, n) + [0x80 + v % 0x40]
    ensures forall x :: StrFunc.TailBytes(x, 0) == []
  {}

  // The octets that emit_utf8 writes stand for v, and fewer would not hold it.
  lemma Utf8Stands(v: nat)
    requires v <= 0x7fff_ffff
    ensures Utf8Value(Utf8(v)) == Some(v) && |Utf8(v)| >= 1 && (|Utf8(v)| > 1 ==> v > Most(|Utf8(v)| - 1))
  {
    var n := StrFunc.TailsOf(v);
    Utf8Octets(v);
    TailsValue(v, n);
    StrFunc.LeadFits(v);
    hide Utf8, StrFunc.Top, StrFunc.TailBytes, SixBits, StrFunc.LeadMark, StrFunc.Least;
    forall i | 1 <= i < |Utf8(v)| ensures 0x80 <= Utf8(v)[i] < 0xc0 {
      assert Utf8(v)[i] == Utf8(v)[1..][i - 1];
    }
  }

  // The converters of strfunc.c read them back, unless v is a surrogate.
  lemma Utf8Converts(v: nat, limit: nat)
    requires v <= limit <= 0x7fff_ffff
    ensures StrFunc.Scalars(Utf8(v), 0, limit) == if StrFunc.IsSurrogate(v) then None else Some([v])
  {
    var n, b := StrFunc.TailsOf(v), Utf8(v);
    Utf8Octets(v);
    StrFunc.LeadFits(v);
    StrFunc.LeadIs(StrFunc.Top(v, n), n);
    FirstIs(v);
    assert b[1..1 + n] == b[1..] && b[0] == b[..1][0];
    StrFunc.TailsRead(b, 1, n, v);
    ScalarsEnd(b, limit);
    assert [v] + [] == [v];
    hide Utf8, StrFunc.Top, StrFunc.TailBytes, StrFunc.LeadMark, StrFunc.TailCount, StrFunc.LeadBits, StrFunc.Tails;
  }

  lemma FirstIs(v: nat)
    requires v <= 0x7fff_ffff
    ensures var n := StrFunc.TailsOf(v);
            Utf8(v)[..1] == [StrFunc.LeadMark(n) + StrFunc.Top(v, n)] && (n == 0 ==> StrFunc.Top(v, n) == v < 0x80)
  {
    Utf8Octets(v);
    StrFunc.TopIs(v);
    hide Utf8, StrFunc.Top, StrFunc.TailBytes;
  }

  lemma ScalarsEnd(b: seq<Byte>, limit: nat)
    ensures StrFunc.Scalars(b, |b|, limit) == Some([])
  {}

  // ----- The escapes -----

  // How many figures may follow the letter of a hexadecimal escape.
  function MostFigures(letter: Byte): nat {
    if letter == 'x' as int || letter == 'X' as int then 2
    else if letter == 'u' as int then 4
    else if letter == 'U' as int then 8
    else 0
  }

  // What the escape with this letter and number writes: a byte, or the octets of UTF-8, none
  // for a number that is negative as an int32_t.
  predicate Writes(letter: Byte, v: nat, bytes: seq<Byte>) {
    if MostFigures(letter) == 2 then v < 0x100 && bytes == [v]
    else if v <= 0x7fff_ffff then bytes != [] && Utf8Value(bytes) == Some(v) && (|bytes| > 1 ==> v > Most(|bytes| - 1))
    else bytes == []
  }

  // The string from i on stands for those bytes and what follows from next on.
  predicate StandsFor(s: seq<Byte>, i: nat, bytes: seq<Byte>, next: nat) {
    Ends(s, i) && Ends(s, next) && Inside(s, i) == (bytes + Inside(s, next).0, Inside(s, next).1)
  }

  lemma SlashStands(s: seq<Byte>, i: nat, e: seq<Byte>)
    requires StandsAt(s, i, e) && |e| >= 2 && e[0] == SLASH && e[1] != 0
    ensures Ends(s, i) && Ends(s, i + 1) && s[i + 1] == e[1]
    ensures var (bytes, next) := Escape(s, i + 1); StandsFor(s, i, bytes, next)
  {
    StandsByte(s, i, e, 0);
    StandsByte(s, i, e, 1);
    hide Escape;
  }

  // A hexadecimal escape, however its figures are written, writes its number.
  lemma HexStands(s: seq<Byte>, i: nat, letter: Byte, d: seq<Byte>, v: nat)
    requires 1 <= |d| <= MostFigures(letter) && StandsAt(s, i, [SLASH, letter] + d) && Continues(d, 0, v, false)
    requires |d| == MostFigures(letter) || !IsHex(s[i + 2 + |d|])
    ensures exists bytes :: Writes(letter, v, bytes) && StandsFor(s, i, bytes, i + 2 + |d|)
  {
    hide *;
    var e := [SLASH, letter] + d;
    var n, next := MostFigures(letter), i + 2 + |d|;
    LetterCounts(letter);
    EscapedStands(s, i, letter, d);
    FewFigures(d, v);
    HexWrites(letter, v);
    SlashStands(s, i, e);
    DigitsRead(s, i + 2, d, n, 0, v, false);
    DigitsStop(s, next, n - |d|, v, false);
    HexEscape(s, i + 1, letter, v, next);
    assert Escape(s, i + 1) == (HexBytes(letter, v), next);
  }

  lemma LetterCounts(letter: Byte)
    requires MostFigures(letter) > 0
    ensures HexCount(letter) == MostFigures(letter) && letter != 0 && !IsOctal(letter)
  {}

  lemma EscapedStands(s: seq<Byte>, i: nat, letter: Byte, d: seq<Byte>)
    requires StandsAt(s, i, [SLASH, letter] + d)
    ensures StandsAt(s, i + 2, d) && Ends(s, i + 2) && Ends(s, i + 2 + |d|)
    ensures ([SLASH, letter] + d)[0] == SLASH && ([SLASH, letter] + d)[1] == letter && |[SLASH, letter] + d| == |d| + 2
  {
    var e := [SLASH, letter] + d;
    assert s[i + 2..i + 2 + |d|] == s[i..i + |e|][2..] == d;
  }

  lemma FewFigures(d: seq<Byte>, v: nat)
    requires Continues(d, 0, v, false)
    ensures |d| <= 2 ==> v < 0x100
  {
    if 0 < |d| <= 2 {
      LastFigure(d, 0, v, false);
      LastFigure(d[..|d| - 1], 0, v / 16, false);
      if |d| == 2 { LastFigure([], 0, v / 16 / 16, false); assert d[..1][..0] == []; }
    }
    hide Continues, IsFigure;
  }

  lemma HexWrites(letter: Byte, v: nat)
    requires MostFigures(letter) > 0 && (MostFigures(letter) == 2 ==> v < 0x100)
    ensures Writes(letter, v, HexBytes(letter, v))
  {
    assert HexCount(letter) == MostFigures(letter);
    if v <= 0x7fff_ffff { Utf8Stands(v); }
    assert v > 0x7fff_ffff ==> Utf8(v) == [];
    hide Utf8, Utf8Value, MostFigures, HexCount, Most;
  }

  lemma HexEscape(s: seq<Byte>, i: nat, letter: Byte, v: nat, next: nat)
    requires Ends(s, i) && Ends(s, i + 1) && s[i] == letter && letter != 0 && !IsOctal(letter) && HexCount(letter) > 0 && next > i + 1
    requires Digits(s, i + 1, HexCount(letter), 0, false) == (next, v)
    ensures Escape(s, i) == (HexBytes(letter, v), next)
  {
    hide Digits, HexBytes, HexCount;
  }

  // Without figures such an escape stands for its letter.
  lemma NoFigures(s: seq<Byte>, i: nat, letter: Byte)
    requires MostFigures(letter) > 0 && StandsAt(s, i, [SLASH, letter]) && !IsHex(s[i + 2])
    ensures StandsFor(s, i, [letter], i + 2)
  {
    StandsByte(s, i, [SLASH, letter], 1);
    SlashStands(s, i, [SLASH, letter]);
    DigitsStop(s, i + 2, HexCount(letter), 0, false);
    hide Digits, Inside, StandsFor, StandsAt;
  }

  // An octal escape of up to three figures writes its number modulo 256.
  lemma OctalStands(s: seq<Byte>, i: nat, d: seq<Byte>, v: nat)
    requires 1 <= |d| <= 3 && StandsAt(s, i, [SLASH] + d) && Continues(d, 0, v, true)
    requires |d| == 3 || !IsOctal(s[i + 1 + |d|])
    ensures StandsFor(s, i, [v % 0x100], i + 1 + |d|)
  {
    hide *;
    var next := i + 1 + |d|;
    FirstOctal(s, i, d, v);
    DigitsRead(s, i + 1, d, 3, 0, v, true);
    DigitsStop(s, next, 3 - |d|, v, true);
    SlashStands(s, i, [SLASH] + d + []);
    OctalEscapeIs(s, i + 1, v, next);
  }

  lemma FirstOctal(s: seq<Byte>, i: nat, d: seq<Byte>, v: nat)
    requires 1 <= |d| <= 3 && StandsAt(s, i, [SLASH] + d) && Continues(d, 0, v, true)
    ensures [SLASH] + d + [] == [SLASH] + d && ([SLASH] + d)[0] == SLASH && IsOctal(([SLASH] + d)[1]) && ([SLASH] + d)[1] != 0
    ensures StandsAt(s, i + 1, d) && Ends(s, i + 1) && s[i + 1] == d[0] && |[SLASH] + d| >= 2
  {
    var e := [SLASH] + d;
    assert s[i + 1..i + 1 + |d|] == s[i..i + |e|][1..] == d;
    FirstFigure(d, 0, v);
    StandsByte(s, i, e, 1);
    hide Continues, Ends;
  }

  lemma {:induction false} FirstFigure(d: seq<Byte>, before: nat, v: nat)
    requires d != [] && Continues(d, before, v, true)
    ensures IsOctal(d[0])
  {
    FigureValue(d[|d| - 1], v % 8, true);
    if |d| > 1 { FirstFigure(d[..|d| - 1], before, v / 8); }
  }

  lemma OctalEscapeIs(s: seq<Byte>, i: nat, v: nat, next: nat)
    requires Ends(s, i) && s[i] != 0 && IsOctal(s[i]) && Digits(s, i, 3, 0, true) == (next, v)
    ensures Escape(s, i) == ([v % 0x100], next)
  {
    EndsNext(s, i);
    DigitTaken(s, i, 3, 0, s[i] - 0x30, true);
    hide Digits;
  }

  // The one-letter escapes of C, and e for the escape character.
  const ESCAPES: seq<(char, Byte)> := [('a', 7), ('b', 8), ('t', 9), ('n', 10), ('v', 11), ('f', 12), ('r', 13), ('e', 27)]

  lemma PlainStands(s: seq<Byte>, i: nat, c: Byte)
    requires StandsAt(s, i, [SLASH, c]) && c != 0 && !IsOctal(c) && HexCount(c) == 0
    ensures StandsFor(s, i, [Plain(c)], i + 2)
  {
    SlashStands(s, i, [SLASH, c]);
    hide Plain, Inside, StandsFor, StandsAt, Digits, HexCount;
  }

  lemma EscapeTable(k: nat)
    requires k < |ESCAPES|
    ensures var c := ESCAPES[k].0 as int;
            0 < c < 0x100 && !IsOctal(c) && HexCount(c) == 0 && Plain(c) == ESCAPES[k].1
  {}

  lemma LetterStands(s: seq<Byte>, i: nat, k: nat)
    requires k < |ESCAPES| && 0 <= ESCAPES[k].0 as int < 0x100 && StandsAt(s, i, [SLASH, ESCAPES[k].0 as int])
    ensures StandsFor(s, i, [ESCAPES[k].1], i + 2)
  {
    hide *;
    EscapeTable(k);
    PlainStands(s, i, ESCAPES[k].0 as int);
  }

  // Any other character stands for itself behind a backslash.
  lemma OtherStands(s: seq<Byte>, i: nat, c: Byte)
    requires StandsAt(s, i, [SLASH, c]) && c != 0 && MostFigures(c) == 0 && !(0x30 <= c <= 0x37)
    requires forall k :: 0 <= k < |ESCAPES| ==> c != ESCAPES[k].0 as int
    ensures StandsFor(s, i, [c], i + 2)
  {
    OtherTable(c);
    hide *;
    PlainStands(s, i, c);
  }

  lemma OtherTable(c: Byte)
    requires MostFigures(c) == 0 && !(0x30 <= c <= 0x37) && forall k :: 0 <= k < |ESCAPES| ==> c != ESCAPES[k].0 as int
    ensures Plain(c) == c && HexCount(c) == 0 && !IsOctal(c)
  {
    assert ESCAPES[0].0 == 'a' && ESCAPES[1].0 == 'b' && ESCAPES[2].0 == 't' && ESCAPES[3].0 == 'n';
    assert ESCAPES[4].0 == 'v' && ESCAPES[5].0 == 'f' && ESCAPES[6].0 == 'r' && ESCAPES[7].0 == 'e';
  }

  // ----- What as_quote writes -----

  predicate IsPlain(b: seq<Byte>, quote: Byte) { forall c <- b :: ' ' as int <= c <= '~' as int && c != quote }

  // Single quotes where they will do, else double ones, else backquotes.
  lemma QuotedForm(b: seq<Byte>)
    ensures IsPlain(b, '\'' as int) ==> Quoted(b) == ['\'' as int] + b + ['\'' as int, 0]
    ensures !IsPlain(b, '\'' as int) && IsPlain(b, '"' as int) ==> Quoted(b) == ['"' as int] + b + ['"' as int, 0]
    ensures !IsPlain(b, '\'' as int) && !IsPlain(b, '"' as int) ==> Quoted(b) == ['`' as int] + BackQuoted(b, 0) + ['`' as int, 0]
  {
    assert IsPlain(b, '\'' as int) <==> Fits(b, SINGLE);
    assert IsPlain(b, '"' as int) <==> Fits(b, DOUBLE);
    hide IsPlain, Fits, BackQuoted;
  }

  // Inside backquotes only what must be is escaped, by a letter where there is one, else by as
  // few octal figures as the next byte allows.
  lemma QuotingForm(c: Byte, next: Byte)
    ensures var special := c == '`' as int || c == '\\' as int;
            var letter := exists k :: 0 <= k < |ESCAPES| && c == ESCAPES[k].1;
            (special ==> Quoting(c, next) == [SLASH, c]) &&
            (' ' as int <= c <= '~' as int && !special ==> Quoting(c, next) == [c]) &&
            (!(' ' as int <= c <= '~' as int) ==>
               Quoting(c, next)[0] == SLASH &&
               |Quoting(c, next)| == 1 + if letter then 1 else if '0' as int <= next <= '7' as int then 3
                                         else if c < 8 then 1 else if c < 64 then 2 else 3)
  {
    LetterWhen(c);
    hide ESCAPES, Letter, High, Middle, Low;
  }

  lemma LetterWhen(c: Byte)
    ensures Letter(c) != 0 <==> exists k :: 0 <= k < |ESCAPES| && c == ESCAPES[k].1
    ensures Letter(c) != 0 ==> !(' ' as int <= c <= '~' as int)
  {
    assert ESCAPES[0].1 == 7 && ESCAPES[1].1 == 8 && ESCAPES[2].1 == 9 && ESCAPES[3].1 == 10;
    assert ESCAPES[4].1 == 11 && ESCAPES[5].1 == 12 && ESCAPES[6].1 == 13 && ESCAPES[7].1 == 27;
  }
}
