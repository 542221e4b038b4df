// Reading a numeric constant: readnum in sdk/as/aslib.c.
module ReadNumber {
  import opened Base

  const WORD := 0x1_0000_0000_0000_0000

  type Word = x: nat | x < WORD

  // ----- What a numeral means -----

  predicate IsSpace(c: char) { c == ' ' || '\t' <= c <= '\r' }

  predicate IsNumChar(c: char) {
    '0' <= c <= '9' || 'a' <= c <= 'z' || 'A' <= c <= 'Z' || c == '$' || c == '_'
  }

  // The radix that a letter stands for, zero for other characters.
  function RadixLetter(c: char): nat {
    if c in "bByY" then 2 else if c in "oOqQ" then 8 else if c in "hHxX" then 16 else if c in "dDtT" then 10 else 0
  }

  function NumValue(c: char): int {
    if c >= 'a' then c as int - 'a' as int + 10
    else if c >= 'A' then c as int - 'A' as int + 10
    else c as int - '0' as int
  }

  predicate IsDigitOf(c: char, radix: nat) {
    c >= '0' && !('9' < c < 'A') && NumValue(c) < radix
  }

  // Digits of a radix, with any number of underscores among them.
  predicate IsDigits(s: string, radix: nat) {
    forall c <- s :: c == '_' || IsDigitOf(c, radix)
  }

  function ValueOf(s: string, radix: nat): (v: nat)
    requires IsDigits(s, radix)
  {
    if s == [] then 0
    else
      assert s[|s| - 1] in s;
      var v := ValueOf(s[..|s| - 1], radix);
      if s[|s| - 1] == '_' then v else radix * v + (NumValue(s[|s| - 1]) as nat)
  }

  function Spaces(s: string): (n: nat)
    ensures n <= |s|
  {
    if s != [] && IsSpace(s[0]) then 1 + Spaces(s[1..]) else 0
  }

  function NumChars(s: string): (n: nat)
    ensures n <= |s|
  {
    if s != [] && IsNumChar(s[0]) then 1 + NumChars(s[1..]) else 0
  }

  function Trimmed(str: string): string { str[Spaces(str)..] }

  predicate Negative(str: string) {
    var s := Trimmed(str);
    s != [] && s[0] == '-'
  }

  // The characters of the number: up to the first that cannot belong to one.
  function Body(str: string): string {
    var s := Trimmed(str);
    var t := if Negative(str) then s[1..] else s;
    t[..NumChars(t)]
  }

  function PrefixRadix(b: string): nat {
    if |b| > 2 && b[0] == '0' && RadixLetter(b[1]) != 0 then RadixLetter(b[1])
    else if |b| > 1 && b[0] == '$' then 16
    else 0
  }

  function SuffixRadix(b: string): nat {
    if |b| > 1 then RadixLetter(b[|b| - 1]) else 0
  }

  // The radix of a number and its digits. Of two radix marks the larger radix wins.
  function Split(b: string): (r: (nat, string))
    ensures r.0 in {2, 8, 10, 16}
  {
    if PrefixRadix(b) > SuffixRadix(b) then (PrefixRadix(b), b[if b[0] == '0' then 2 else 1..])
    else if SuffixRadix(b) > PrefixRadix(b) then (SuffixRadix(b), b[..|b| - 1])
    else (10, b)
  }

  predicate IsNumber(str: string) {
    var (radix, d) := Split(Body(str));
    Body(str) != [] && IsDigits(d, radix)
  }

  function Magnitude(str: string): nat
    requires IsNumber(str)
  {
    var (radix, d) := Split(Body(str));
    ValueOf(d, radix)
  }

  function Number(str: string): int
    requires IsNumber(str)
  {
    var m: int := Magnitude(str);
    if Negative(str) then -m else m
  }

  // A number as a signed 64-bit word.
  function Signed(x: int): (r: int)
    ensures -(WORD / 2) <= r < WORD / 2
  {
    Wrap(x, WORD)
  }

  // ----- The code -----

  // The overflow test of the digit loop: 2^64 / radix is computed as 2^63 / (radix / 2).
  predicate Overflows(result: Word, radix: nat, digit: nat)
    requires radix in {2, 8, 10, 16}
  {
    var limit := 0x8000_0000_0000_0000 / (radix / 2);
    result > limit || (result == limit && digit >= if radix == 10 then 6 else 0)
  }

  // The test is exact: no product is formed that does not fit, and none is refused that does.
  lemma OverflowTest(result: Word, radix: nat, digit: nat)
    requires radix in {2, 8, 10, 16} && digit < radix
    ensures Overflows(result, radix, digit) <==> radix * result + digit >= WORD
  {
    assert 0x8000_0000_0000_0000 / 1 == 0x8000_0000_0000_0000;
    assert 0x8000_0000_0000_0000 / 4 == 0x2000_0000_0000_0000;
    assert 0x8000_0000_0000_0000 / 5 == 1844674407370955161;
    assert 0x8000_0000_0000_0000 / 8 == 0x1000_0000_0000_0000;
  }

  // One digit more, while the number may already have wrapped around.
  lemma DigitStep(v: nat, result: Word, warn: bool, radix: nat, digit: nat)
    requires radix in {2, 8, 10, 16} && digit < radix
    requires result == v % WORD && (warn <==> v >= WORD)
    ensures (radix * result + digit) % WORD == (radix * v + digit) % WORD
    ensures warn || Overflows(result, radix, digit) <==> radix * v + digit >= WORD
  {
    var q := v / WORD;
    assert v == q * WORD + result;
    OverflowTest(result, radix, digit);
    WrapStep(q, result, radix, digit);
    assert radix * v >= v;
  }

  lemma WrapStep(q: nat, x: nat, radix: nat, digit: nat)
    requires radix in {2, 8, 10, 16}
    ensures (radix * (q * WORD + x) + digit) % WORD == (radix * x + digit) % WORD
  {
    var y := radix * x + digit;
    assert radix * (q * WORD + x) + digit == radix * q * WORD + y;
    WrapMultiple(radix * q, y);
  }

  lemma {:induction false} WrapMultiple(q: nat, y: nat)
    ensures (q * WORD + y) % WORD == y % WORD
  {
    if q > 0 {
      WrapMultiple(q - 1, y);
      assert q * WORD + y == (q - 1) * WORD + y + WORD;
    }
  }

  method SkipSpaces(str: string) returns (r: nat)
    ensures r == Spaces(str)
  {
    r := 0;
    while r < |str| && IsSpace(str[r])
      invariant r <= |str| && Spaces(str) == r + Spaces(str[r..])
    {
      assert str[r..][1..] == str[r + 1..];
      r := r + 1;
    }
  }

  method FindEnd(str: string, r: nat) returns (q: nat)
    requires r <= |str|
    ensures r <= q <= |str| && q == r + NumChars(str[r..])
  {
    q := r;
    while q < |str| && IsNumChar(str[q])
      invariant r <= q <= |str| && NumChars(str[r..]) == q - r + NumChars(str[q..])
    {
      assert str[q..][1..] == str[q + 1..];
      q := q + 1;
    }
  }

  // The digit loop over str[r..q].
  method ReadDigits(d: string, radix: nat) returns (error: bool, result: Word, warn: bool)
    requires radix in {2, 8, 10, 16}
    ensures error <==> !IsDigits(d, radix)
    ensures !error ==> result == ValueOf(d, radix) % WORD && (warn <==> ValueOf(d, radix) >= WORD)
  {
    hide Overflows, IsDigitOf;
    error, result, warn := false, 0, false;
    assert d[..0] == [];
    for i := 0 to |d|
      invariant IsDigits(d[..i], radix)
      invariant result == ValueOf(d[..i], radix) % WORD && (warn <==> ValueOf(d[..i], radix) >= WORD)
    {
      assert d[..i + 1][..i] == d[..i] && d[..i + 1] == d[..i] + [d[i]];
      if d[i] != '_' {
        if !IsDigitOf(d[i], radix) {
          assert d[i] in d;
          return true, 0, warn;
        }
        var digit := NumValue(d[i]);
        DigitPositive(d[i], radix);
        DigitStep(ValueOf(d[..i], radix), result, warn, radix, digit);
        if Overflows(result, radix, digit) { warn := true; }
        result := (radix * result + digit) % WORD;
      }
    }
    assert d[..|d|] == d;
  }

  lemma DigitPositive(c: char, radix: nat)
    requires IsDigitOf(c, radix)
    ensures 0 <= NumValue(c) < radix
  {}

  // The radix of the number str[r..q] and its digits.
  method ChooseRadix(str: string, r: nat, q: nat) returns (radix: nat, from: nat, to: nat)
    requires r < q <= |str|
    ensures from <= to <= |str| && (radix, str[from..to]) == Split(str[r..q])
  {
    hide RadixLetter;
    var pradix, sradix, plen, slen := 0, 0, 0, 0;
    if q - r > 2 && str[r] == '0' && RadixLetter(str[r + 1]) != 0 {
      pradix, plen := RadixLetter(str[r + 1]), 2;
    } else if q - r > 1 && str[r] == '$' {
      pradix, plen := 16, 1;
    }
    if q - r > 1 && RadixLetter(str[q - 1]) != 0 {
      sradix, slen := RadixLetter(str[q - 1]), 1;
    }
    assert pradix == PrefixRadix(str[r..q]) && sradix == SuffixRadix(str[r..q]);
    assert str[r..q][plen..] == str[r + plen..q] && str[r..q][..q - slen - r] == str[r..q - slen];
    radix, from, to := 10, r, q;
    if pradix > sradix {
      radix, from := pradix, r + plen;
    } else if sradix > pradix {
      radix, to := sradix, q - slen;
    }
  }

  // readnum: the value and whether it is reported not to fit in 64 bits.
  method Readnum(str: string) returns (error: bool, value: int, warn: bool)
    ensures error <==> !IsNumber(str)
    ensures !error ==> value == Signed(Number(str))
    ensures !error ==> (warn <==> Magnitude(str) >= WORD)
  {
    hide ValueOf, IsDigits, IsNumChar, IsSpace, Split, NumChars, Signed, Spaces, RadixLetter;
    var r := SkipSpaces(str);
    var sign := 1;
    if r < |str| && str[r] == '-' {
      r := r + 1;
      sign := -1;
    }
    var q := FindEnd(str, r);
    assert Body(str) == str[r..q];
    if q == r { return true, 0, false; }
    var radix, from, to := ChooseRadix(str, r, q);
    var result: Word;
    error, result, warn := ReadDigits(str[from..to], radix);
    if error { return true, 0, warn; }
    value := Signed(result * sign);
    NegatedWord(Magnitude(str));
  }

  // Negating the wrapped number is wrapping the negated one.
  lemma NegatedWord(v: int)
    requires v >= 0
    ensures Signed(v % WORD) == Signed(v) && Signed(-(v % WORD)) == Signed(-v)
  {
    var q, x := v / WORD, v % WORD;
    assert -v == -q * WORD - x;
    NegatedMultiple(q, x);
  }

  lemma {:induction false} NegatedMultiple(q: int, x: int)
    requires q >= 0
    ensures (-q * WORD - x) % WORD == -x % WORD
  {
    if q > 0 {
      NegatedMultiple(q - 1, x);
      assert -q * WORD - x == -(q - 1) * WORD - x - WORD;
    }
  }

  // ----- Every written form is read back -----

  datatype Form = Plain | Prefix(letter: char) | Dollar | Suffix(letter: char)

  function FormRadix(f: Form): nat {
    match f
    case Plain => 10
    case Dollar => 16
    case Prefix(c) => RadixLetter(c)
    case Suffix(c) => RadixLetter(c)
  }

  function Spell(f: Form, d: string): string {
    match f
    case Plain => d
    case Dollar => "$" + d
    case Prefix(c) => "0" + [c] + d
    case Suffix(c) => d + [c]
  }

  // Only b and d are both a radix letter and a digit, and they are digits of radix 16 alone,
  // so a mark is never mistaken for a digit or a digit for a mark.
  lemma DigitNoMark(c: char, radix: nat)
    requires radix in {2, 8, 10, 16} && (c == '_' || IsDigitOf(c, radix))
    ensures c != '$' && (RadixLetter(c) > 0 ==> RadixLetter(c) < radix) && IsNumChar(c)
  {}

  lemma FormIsSplit(f: Form, d: string)
    requires d != [] && FormRadix(f) > 0 && IsDigits(d, FormRadix(f))
    ensures Split(Spell(f, d)) == (FormRadix(f), d)
  {
    var r := FormRadix(f);
    assert r in {2, 8, 10, 16};
    assert d[0] in d && d[|d| - 1] in d;
    DigitNoMark(d[0], r);
    DigitNoMark(d[|d| - 1], r);
    if |d| > 1 {
      assert d[1] in d;
      DigitNoMark(d[1], r);
    }
    hide RadixLetter, IsDigits, IsDigitOf, IsNumChar;
    match f
    case Plain =>
    case Dollar => assert Spell(f, d)[1..] == d;
    case Prefix(c) => assert Spell(f, d)[1] == c && Spell(f, d)[2..] == d;
    case Suffix(c) => assert Spell(f, d)[|d|] == c && Spell(f, d)[..|d|] == d;
  }

  lemma {:induction false} AllNumChars(b: string)
    requires forall c <- b :: IsNumChar(c)
    ensures NumChars(b) == |b|
  {
    if b != [] {
      assert b[0] in b;
      AllNumChars(b[1..]);
    }
  }

  lemma FormChars(f: Form, d: string)
    requires d != [] && FormRadix(f) > 0 && IsDigits(d, FormRadix(f))
    ensures Spell(f, d) != [] && forall c <- Spell(f, d) :: IsNumChar(c)
  {
    forall c <- d ensures IsNumChar(c) { DigitNoMark(c, FormRadix(f)); }
    assert f.Prefix? || f.Suffix? ==> IsNumChar(f.letter);
    assert IsNumChar('0') && IsNumChar('$');
    hide IsNumChar, RadixLetter, IsDigits, FormRadix;
  }

  lemma FormBody(f: Form, d: string, negative: bool)
    requires d != [] && FormRadix(f) > 0 && IsDigits(d, FormRadix(f))
    ensures var str := (if negative then "-" else "") + Spell(f, d);
            Body(str) == Spell(f, d) && Negative(str) == negative
  {
    var b := Spell(f, d);
    FormChars(f, d);
    AllNumChars(b);
    hide Spell, FormRadix, IsDigits, NumChars;
    assert b[0] in b;
    var str := (if negative then "-" else "") + b;
    assert !IsSpace(str[0]) by { assert negative ==> str[0] == '-'; assert !negative ==> str[0] == b[0]; }
    assert Spaces(str) == 0 && Trimmed(str) == str;
    assert negative ==> str[1..] == b;
  }

  // Any of the forms, of any digits, reads as the number the digits write.
  lemma FormReads(f: Form, d: string, negative: bool)
    requires d != [] && FormRadix(f) > 0 && IsDigits(d, FormRadix(f))
    ensures var str := (if negative then "-" else "") + Spell(f, d);
            IsNumber(str) && Magnitude(str) == ValueOf(d, FormRadix(f)) && Negative(str) == negative
  {
    FormBody(f, d, negative);
    FormIsSplit(f, d);
    hide Spell, Body, Split, ValueOf, IsDigits;
  }

  function DigitChar(v: nat): char
    requires v < 16
  {
    "0123456789abcdef"[v]
  }

  // The digits of a number, most significant first.
  function Numeral(n: nat, radix: nat): (d: string)
    requires radix in {2, 8, 10, 16}
    ensures d != []
    decreases n
  {
    if n < radix then [DigitChar(n)] else Numeral(n / radix, radix) + [DigitChar(n % radix)]
  }

  lemma DigitCharIs(v: nat, radix: nat)
    requires radix in {2, 8, 10, 16} && v < radix
    ensures IsDigitOf(DigitChar(v), radix) && NumValue(DigitChar(v)) == v && DigitChar(v) != '_'
  {}

  lemma {:induction false} NumeralValue(n: nat, radix: nat)
    requires radix in {2, 8, 10, 16}
    ensures IsDigits(Numeral(n, radix), radix) && ValueOf(Numeral(n, radix), radix) == n
    decreases n
  {
    var d := Numeral(n, radix);
    DigitCharIs(n % radix, radix);
    if n < radix {
      assert n % radix == n;
      assert d[..0] == [];
    } else {
      var h := Numeral(n / radix, radix);
      NumeralValue(n / radix, radix);
      assert d[..|d| - 1] == h;
    }
  }

  lemma KnownRadix(f: Form)
    ensures FormRadix(f) > 0 ==> FormRadix(f) in {2, 8, 10, 16}
  {}

  function Written(x: int, f: Form): string
    requires FormRadix(f) > 0
  {
    KnownRadix(f);
    (if x < 0 then "-" else "") + Spell(f, Numeral(if x < 0 then -x else x, FormRadix(f)))
  }

  // Every 64-bit value, written in any form, is read back and nothing is reported.
  lemma EveryValueReads(x: int, f: Form)
    requires -(WORD / 2) <= x < WORD / 2 && FormRadix(f) > 0
    ensures var str := Written(x, f); IsNumber(str) && Magnitude(str) < WORD && Signed(Number(str)) == x
  {
    hide FormRadix, Spell, Numeral, ValueOf, IsNumber, Magnitude, Negative, IsDigits;
    var n: int := if x < 0 then -x else x;
    KnownRadix(f);
    NumeralValue(n, FormRadix(f));
    FormReads(f, Numeral(n, FormRadix(f)), x < 0);
  }

  // ----- Other spellings -----

  const LOWER := "0123456789abcdef"
  const UPPER := "0123456789ABCDEF"

  predicate IsFigure(c: char, v: nat) { v < 16 && (c == LOWER[v] || c == UPPER[v]) }

  // d writes n: its figures in either case, with leading zeros and underscores.
  predicate WritesNumber(d: string, n: nat, radix: nat)
    requires radix in {2, 8, 10, 16}
  {
    if d == [] then n == 0
    else
      var h, c := d[..|d| - 1], d[|d| - 1];
      if c == '_' then WritesNumber(h, n, radix) else IsFigure(c, n % radix) && WritesNumber(h, n / radix, radix)
  }

  lemma FigureIs(c: char, v: nat, radix: nat)
    requires radix in {2, 8, 10, 16} && v < radix && IsFigure(c, v)
    ensures IsDigitOf(c, radix) && NumValue(c) == v && c != '_'
  {
    assert forall k :: 0 <= k < 10 ==> LOWER[k] as int == UPPER[k] as int == 0x30 + k;
    assert forall k :: 10 <= k < 16 ==> LOWER[k] as int == 0x57 + k && UPPER[k] as int == 0x37 + k;
  }

  lemma {:induction false} SpellingValue(d: string, n: nat, radix: nat)
    requires radix in {2, 8, 10, 16} && WritesNumber(d, n, radix)
    ensures IsDigits(d, radix) && ValueOf(d, radix) == n
    decreases |d|
  {
    hide *;
    SpellingStep(d, n, radix);
    if d != [] {
      var h, c := d[..|d| - 1], d[|d| - 1];
      if c == '_' {
        SpellingValue(h, n, radix);
      } else {
        FigureIs(c, n % radix, radix);
        SpellingValue(h, n / radix, radix);
        assert n == radix * (n / radix) + n % radix;
      }
      ValueStep(h, c, radix);
      assert d == h + [c];
    }
  }

  lemma SpellingStep(d: string, n: nat, radix: nat)
    requires radix in {2, 8, 10, 16} && WritesNumber(d, n, radix)
    ensures d == [] ==> n == 0 && IsDigits(d, radix) && ValueOf(d, radix) == 0
    ensures d != [] ==>
      var h, c := d[..|d| - 1], d[|d| - 1];
      if c == '_' then WritesNumber(h, n, radix) else IsFigure(c, n % radix) && WritesNumber(h, n / radix, radix)
  {
    hide IsFigure, IsDigitOf;
  }

  lemma ValueStep(h: string, c: char, radix: nat)
    requires radix in {2, 8, 10, 16} && IsDigits(h, radix) && (c == '_' || IsDigitOf(c, radix))
    ensures IsDigits(h + [c], radix) && (c != '_' ==> NumValue(c) >= 0)
    ensures ValueOf(h + [c], radix) == if c == '_' then ValueOf(h, radix) else radix * ValueOf(h, radix) + NumValue(c)
  {
    assert (h + [c])[..|h|] == h;
    assert c != '_' ==> NumValue(c) >= 0;
    hide IsDigitOf, NumValue;
  }

  // The marks: b and y for binary, o and q for octal, d and t for decimal, h and x for
  // hexadecimal numbers.
  const MARKS: seq<(char, char, nat)> :=
    [('b', 'B', 2), ('y', 'Y', 2), ('o', 'O', 8), ('q', 'Q', 8), ('d', 'D', 10), ('t', 'T', 10), ('h', 'H', 16), ('x', 'X', 16)]

  lemma MarkIs(c: char)
    ensures forall k :: 0 <= k < |MARKS| && (c == MARKS[k].0 || c == MARKS[k].1) ==> RadixLetter(c) == MARKS[k].2
    ensures RadixLetter(c) != 0 ==> exists k :: 0 <= k < |MARKS| && (c == MARKS[k].0 || c == MARKS[k].1)
  {
    var r := RadixLetter(c);
    assert r != 0 ==>
      c == MARKS[0].0 || c == MARKS[0].1 || c == MARKS[1].0 || c == MARKS[1].1 || c == MARKS[2].0 || c == MARKS[2].1 ||
      c == MARKS[3].0 || c == MARKS[3].1 || c == MARKS[4].0 || c == MARKS[4].1 || c == MARKS[5].0 || c == MARKS[5].1 ||
      c == MARKS[6].0 || c == MARKS[6].1 || c == MARKS[7].0 || c == MARKS[7].1;
  }

  // Blanks in front of a number are skipped, and it ends before the first character that is
  // no letter, digit, dollar sign or underscore.
  predicate IsBlank(c: char) { c == ' ' || c == '\t' || c == '\n' || c == '\r' || c as int == 11 || c as int == 12 }

  predicate MayFollow(rest: string) {
    rest != [] ==> var c := rest[0];
      !('0' <= c <= '9') && !('a' <= c <= 'z') && !('A' <= c <= 'Z') && c != '$' && c != '_'
  }

  lemma {:induction false} BlanksSkipped(blanks: string, t: string)
    requires (forall c <- blanks :: IsBlank(c)) && (t != [] ==> !IsSpace(t[0]))
    ensures Spaces(blanks + t) == |blanks|
  {
    if blanks == [] {
      assert blanks + t == t;
    } else {
      assert blanks[0] in blanks && (blanks + t)[0] == blanks[0] && (blanks + t)[1..] == blanks[1..] + t;
      BlanksSkipped(blanks[1..], t);
    }
  }

  lemma {:induction false} CharsStop(b: string, rest: string)
    requires (forall c <- b :: IsNumChar(c)) && MayFollow(rest)
    ensures NumChars(b + rest) == |b|
  {
    if b == [] {
      assert b + rest == rest;
    } else {
      assert b[0] in b && (b + rest)[0] == b[0] && (b + rest)[1..] == b[1..] + rest;
      CharsStop(b[1..], rest);
    }
  }

  // The surroundings of a number change nothing.
  lemma Surrounded(blanks: string, negative: bool, b: string, rest: string)
    requires (forall c <- blanks :: IsBlank(c)) && b != [] && (forall c <- b :: IsNumChar(c)) && MayFollow(rest)
    ensures var str := blanks + ((if negative then "-" else "") + b + rest);
            Body(str) == b && Negative(str) == negative
  {
    var inner := (if negative then "-" else "") + b + rest;
    assert b[0] in b;
    assert !IsSpace(inner[0]) && (inner[0] == '-' <==> negative) by {
      assert negative ==> inner[0] == '-';
      assert !negative ==> inner[0] == b[0];
    }
    BlanksSkipped(blanks, inner);
    CharsStop(b, rest);
    hide Spaces, NumChars, IsNumChar, IsSpace, MayFollow;
    assert (blanks + inner)[|blanks|..] == inner;
    assert negative ==> inner[1..] == b + rest;
    assert !negative ==> inner == b + rest;
    assert (b + rest)[..|b|] == b;
  }

  // Every 64-bit value is read back from every form and every spelling, with blanks in front
  // and other text behind.
  lemma EverySpellingReads(x: int, f: Form, d: string, blanks: string, rest: string)
    requires -(WORD / 2) <= x < WORD / 2 && FormRadix(f) in {2, 8, 10, 16} && d != []
    requires WritesNumber(d, if x < 0 then -x else x, FormRadix(f))
    requires (forall c <- blanks :: IsBlank(c)) && MayFollow(rest)
    ensures var str := blanks + ((if x < 0 then "-" else "") + Spell(f, d) + rest);
            IsNumber(str) && Magnitude(str) < WORD && Signed(Number(str)) == x
  {
    hide FormRadix, Spell, WritesNumber, ValueOf, IsDigits, MayFollow, IsBlank, Body, Negative, IsNumChar, Split;
    var n: int := if x < 0 then -x else x;
    SpellingValue(d, n, FormRadix(f));
    FormChars(f, d);
    FormIsSplit(f, d);
    Surrounded(blanks, x < 0, Spell(f, d), rest);
  }

  // Two marks of the same radix cancel: the number is taken for a decimal one and refused.
  lemma EqualMarksRefused(b: string)
    requires PrefixRadix(b) == SuffixRadix(b) > 0
    ensures Split(b) == (10, b) && !IsDigits(b, 10)
  {
    var c := if b[0] == '$' then b[0] else b[1];
    assert c in b && !IsDigitOf(c, 10) && c != '_';
  }

  // Such numbers are those with a prefix or a dollar sign and a suffix of its radix.
  lemma EqualMarks(d: string, c: char, e: char)
    ensures RadixLetter(c) == RadixLetter(e) > 0 ==> PrefixRadix("0" + [c] + d + [e]) == SuffixRadix("0" + [c] + d + [e]) > 0
    ensures RadixLetter(e) == 16 ==> PrefixRadix("$" + d + [e]) == SuffixRadix("$" + d + [e]) == 16
  {
    hide RadixLetter;
    var b := "0" + [c] + d + [e];
    assert b[1] == c && b[|b| - 1] == e;
    var f := "$" + d + [e];
    assert f[0] == '$' && f[|f| - 1] == e;
  }
}
